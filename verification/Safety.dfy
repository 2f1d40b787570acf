/** Signature strings, well-formed or not, at which decoding always returns. */
module Safety {
  import opened Wrappers
  import opened Bytes
  import opened Signature

  /** What the bytes may hold as inline signatures: only safe ones, or any at all. */
  datatype Inline = SafeSignatures | AnySignatures

  /** No byte string makes the decoder index out of range or loop for ever at `sig`,
      whatever complete types, or pieces of types, the string consists of. */
  predicate Safe(inline: Inline, sig: Str)
    decreases |sig|, 1
  {
    && sig != []
    && (sig[0] == VARIANT ==> inline == SafeSignatures)
    && (sig[0] == ARRAY ==> SafeArray(inline, sig[1..]))
    && (sig[0] == OPEN_STRUCT ==> |sig| > 1 && SafeMembers(inline, sig[1..|sig| - 1]))
  }

  /** Something follows the 'a', and where it is no dict entry it takes bytes. */
  predicate SafeArray(inline: Inline, elem: Str)
    decreases |elem|, 2
  {
    && elem != []
    && if elem[0] == OPEN_DICT then SafeEntry(inline, elem) else Safe(inline, elem) && !TakesNothing(elem)
  }

  /** The value is looked at only after a key that is a text. */
  predicate SafeEntry(inline: Inline, elem: Str)
    decreases |elem|, 0
  {
    match SplitDictEntry(elem)
    case None => true
    case Some((ks, vs)) => Safe(inline, ks) && (IsTextCode(ks[0]) ==> Safe(inline, vs))
  }

  /** As far as splitting and decoding get. */
  predicate SafeMembers(inline: Inline, rest: Str)
    decreases |rest|, 2
  {
    rest == [] ||
    match SplitSig(rest)
    case None => true
    case Some((first, r)) => Safe(inline, first) && (Decodable(first) ==> SafeMembers(inline, r))
  }

  predicate IsTextCode(c: Byte) { BasicOf(c).Some? && IsText(BasicOf(c).value) }

  /** Some bytes decode at `sig`. */
  predicate Decodable(sig: Str)
    decreases |sig|, 1
  {
    && sig != []
    && if sig[0] == ARRAY then |sig| > 1 && (sig[1] == OPEN_DICT ==> SplitDictEntry(sig[1..]).Some?)
       else if sig[0] == OPEN_STRUCT then |sig| > 1 && DecodableMembers(sig[1..|sig| - 1])
       else BasicOf(sig[0]).Some? || sig[0] == VARIANT
  }

  predicate DecodableMembers(rest: Str)
    decreases |rest|, 2
  {
    rest == [] ||
    match SplitSig(rest)
    case None => false
    case Some((first, r)) => Decodable(first) && DecodableMembers(r)
  }

  /** At an 8-aligned offset `sig` decodes without taking a byte: "()" or structs of such. */
  predicate TakesNothing(sig: Str)
    decreases |sig|, 1
  {
    |sig| > 1 && sig[0] == OPEN_STRUCT && NothingMembers(sig[1..|sig| - 1])
  }

  predicate NothingMembers(rest: Str)
    decreases |rest|, 2
  {
    rest == [] ||
    match SplitSig(rest)
    case None => false
    case Some((first, r)) => TakesNothing(first) && NothingMembers(r)
  }

  /** Every supported type is safe. */
  lemma {:induction false} GoodIsSafe(t: Ty)
    requires Good(t)
    ensures Safe(SafeSignatures, Print(t)) && !TakesNothing(Print(t))
    decreases t
  {
    FirstByte(t);
    match t
    case TBasic(b) => BasicOfCode(b);
    case TVariant =>
    case TArray(e) =>
      PrintStart(e);
      GoodIsSafe(e);
      assert Print(t)[1..] == Print(e);
    case TDict(k, v) =>
      GoodIsSafe(v);
      SplitDictEntryPrint(k, v);
      BasicOfCode(k);
      assert Safe(SafeSignatures, [Code(k)]);
      assert Print(t)[1..] == PrintEntry(k, v);
    case TStruct(ms) =>
      GoodAreSafe(ms);
      assert Print(t)[1..|Print(t)| - 1] == PrintAll(ms);
  }

  lemma {:induction false} GoodAreSafe(ms: seq<Ty>)
    requires GoodAll(ms)
    ensures SafeMembers(SafeSignatures, PrintAll(ms)) && (ms != [] ==> !NothingMembers(PrintAll(ms)))
    decreases ms
  {
    if ms != [] {
      SplitPrint(ms[0], PrintAll(ms[1..]));
      GoodIsSafe(ms[0]);
      GoodAreSafe(ms[1..]);
    }
  }
}
