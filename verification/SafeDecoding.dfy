/** At which signatures decoding returns on every buffer, and bytes on which it does not at
    each of the others. */
module SafeDecoding {
  import opened Wrappers
  import opened Bytes
  import opened Signature
  import opened Safety
  import opened Values
  import opened Wire
  import opened Decoding
  import opened RoundTrip

  // ---- safe signatures ----

  /** The decoder that meets these inline signatures and reports others; the code, for any. */
  function CheckFor(inline: Inline): Check { if inline == SafeSignatures then SafeOnly else AsIs }

  /** It returned; success shows that `sig` can be decoded at, and takes bytes but for the structs that take none. */
  ghost predicate Fine<T(!new)>(r: Outcome<Got<T>>, pos: nat, decodable: bool, nothing: bool) {
    Returns(r) && (r.Ok? ==> decodable && (r.value.pos == pos ==> nothing))
  }

  lemma {:induction false} SafeReturns(inline: Inline, buf: Str, pos: nat, sig: Str)
    requires pos <= |buf| && Safe(inline, sig)
    ensures Fine(DecValue(CheckFor(inline), buf, pos, sig), pos, Decodable(sig), TakesNothing(sig))
    decreases |buf| - pos, |sig|, 2
  {
    hide DecVariant, DecArray, DecMembers, SplitSig;
    if BasicOf(sig[0]).Some? {
    } else if sig[0] == VARIANT {
      SafeVariant(buf, pos);
    } else if sig[0] == ARRAY {
      SafeArrayReturns(inline, buf, pos, sig[1..]);
    } else if sig[0] == OPEN_STRUCT && DecAlign(buf, pos, 8).Ok? {
      SafeMembersReturn(inline, buf, pos + Pad(pos, 8), sig[1..|sig| - 1]);
    }
  }

  lemma {:induction false} SafeVariant(buf: Str, pos: nat)
    requires pos <= |buf|
    ensures Returns(DecVariant(SafeOnly, buf, pos))
    decreases |buf| - pos, 0, 1
  {
    hide DecValue, Safe;
    var r := DecText(buf, pos, 1);
    if r.Ok? && Safe(SafeSignatures, r.value.v) { SafeReturns(SafeSignatures, buf, r.value.pos, r.value.v); }
  }

  lemma {:induction false} SafeArrayReturns(inline: Inline, buf: Str, pos: nat, elem: Str)
    requires pos <= |buf| && SafeArray(inline, elem)
    ensures var r := DecArray(CheckFor(inline), buf, pos, elem);
      Returns(r) && (r.Ok? && elem[0] == OPEN_DICT ==> SplitDictEntry(elem).Some?)
    decreases |buf| - pos, |elem|, 1
  {
    hide DecItems, DecEntries, SplitDictEntry, Safe, TakesNothing, DecWord, AlignmentOf;
    var r := DecWord(buf, pos, 4);
    if r.Ok? {
      var q := DecAlign(buf, r.value.pos, AlignmentOf(elem[0]));
      if q.Ok? && q.value + r.value.v <= |buf| {
        var end := q.value + r.value.v;
        if elem[0] != OPEN_DICT {
          SafeItems(inline, buf, q.value, elem, end);
        } else if SplitDictEntry(elem).Some? {
          var Some((ks, vs)) := SplitDictEntry(elem);
          SafeEntries(inline, buf, q.value, ks, vs, end, map[]);
        }
      }
    }
  }

  lemma {:induction false} SafeItems(inline: Inline, buf: Str, pos: nat, elem: Str, end: nat)
    requires pos <= |buf| && Safe(inline, elem) && !TakesNothing(elem)
    ensures Returns(DecItems(CheckFor(inline), buf, pos, elem, end))
    decreases |buf| - pos, |elem|, 3
  {
    hide DecValue, Safe, TakesNothing, Decodable;
    if pos < end {
      SafeReturns(inline, buf, pos, elem);
      var r := DecValue(CheckFor(inline), buf, pos, elem);
      if r.Ok? { SafeItems(inline, buf, r.value.pos, elem, end); }
    }
  }

  lemma {:induction false} SafeEntries(inline: Inline, buf: Str, pos: nat, ks: Str, vs: Str, end: nat,
                                       m: map<Str, Value>)
    requires pos <= |buf| && Safe(inline, ks) && (IsTextCode(ks[0]) ==> Safe(inline, vs))
    ensures Returns(DecEntries(CheckFor(inline), buf, pos, ks, vs, end, m))
    decreases |buf| - pos, |ks| + |vs|, 5
  {
    hide DecPair, Safe, IsTextCode;
    if pos < end && DecAlign(buf, pos, 8).Ok? {
      SafePair(inline, buf, pos + Pad(pos, 8), ks, vs);
      var r := DecEntry(CheckFor(inline), buf, pos, ks, vs);
      if r.Ok? { SafeEntries(inline, buf, r.value.pos, ks, vs, end, m[r.value.v.0 := r.value.v.1]); }
    }
  }

  lemma {:induction false} SafePair(inline: Inline, buf: Str, pos: nat, ks: Str, vs: Str)
    requires pos <= |buf| && Safe(inline, ks) && (IsTextCode(ks[0]) ==> Safe(inline, vs))
    ensures Returns(DecPair(CheckFor(inline), buf, pos, ks, vs))
    decreases |buf| - pos, |ks| + |vs|, 3
  {
    SafeReturns(inline, buf, pos, ks);
    TextLeaf(CheckFor(inline), buf, pos, ks);
    hide DecValue, Safe, TakesNothing, Decodable;
    var r := DecValue(CheckFor(inline), buf, pos, ks);
    if r.Ok? && r.value.v.Leaf? && r.value.v.p.VString? { SafeReturns(inline, buf, r.value.pos, vs); }
  }

  /** Strings come from the three text codes only. */
  lemma {:induction false} TextLeaf(check: Check, buf: Str, pos: nat, sig: Str)
    requires pos <= |buf|
    ensures var r := DecValue(check, buf, pos, sig);
      r.Ok? && r.value.v.Leaf? ==> sig != [] && (r.value.v.p.VString? <==> IsTextCode(sig[0]))
  {
    hide DecVariant, DecArray, DecStruct;
  }

  lemma {:induction false} SafeMembersReturn(inline: Inline, buf: Str, pos: nat, rest: Str)
    requires pos <= |buf| && SafeMembers(inline, rest)
    ensures Fine(DecMembers(CheckFor(inline), buf, pos, rest), pos, DecodableMembers(rest), NothingMembers(rest))
    decreases |buf| - pos, |rest|, 3
  {
    hide DecValue, SplitSig, Safe, TakesNothing, Decodable;
    if rest != [] && SplitSig(rest).Some? {
      var Some((first, tail)) := SplitSig(rest);
      SafeReturns(inline, buf, pos, first);
      var r := DecValue(CheckFor(inline), buf, pos, first);
      if r.Ok? { SafeMembersReturn(inline, buf, r.value.pos, tail); }
    }
  }

  // ---- bytes that decode ----

  /** Bytes at `pos` on which decoding at `sig` succeeds: zeros, empty arrays, and a byte in a variant. */
  function Sample(pos: nat, sig: Str): Str
    requires Decodable(sig)
    decreases |sig|, 1
  {
    if BasicOf(sig[0]).Some? then
      var b := BasicOf(sig[0]).value;
      EncWord(pos, WidthOf(b), 0) + if IsText(b) then [0] else []
    else if sig[0] == VARIANT then [1, Code(Y), 0, 0]
    else if sig[0] == ARRAY then ArrayHead(pos, sig[1], 0)
    else
      var pad := Zeros(Pad(pos, 8));
      pad + SampleMembers(pos + |pad|, sig[1..|sig| - 1])
  }

  function SampleMembers(pos: nat, rest: Str): Str
    requires DecodableMembers(rest)
    decreases |rest|, 2
  {
    if rest == [] then []
    else
      var Some((first, r)) := SplitSig(rest);
      var a := Sample(pos, first);
      a + SampleMembers(pos + |a|, r)
  }

  lemma {:induction false} SampleDecodes(check: Check, buf: Str, pos: nat, sig: Str)
    requires Decodable(sig) && At(buf, pos, Sample(pos, sig))
    ensures var r := DecValue(check, buf, pos, sig);
      && r.Ok? && r.value.pos == pos + |Sample(pos, sig)|
      && (IsTextCode(sig[0]) ==> r.value.v.Leaf? && r.value.v.p.VString?)
    decreases |sig|, 1
  {
    hide DecVariant, DecArray, DecMembers, SplitSig, LE, UnLE;
    hide ArrayHead, ArrayStart, DecScalar, EncWord, SampleMembers, View;
    if BasicOf(sig[0]).Some? {
      SampleScalar(buf, pos, BasicOf(sig[0]).value);
    } else if sig[0] == VARIANT {
      SampleVariant(check, buf, pos);
    } else if sig[0] == ARRAY {
      SampleArray(check, buf, pos, sig[1..]);
    } else {
      var pad := Zeros(Pad(pos, 8));
      AtSplit(buf, pos, pad, SampleMembers(pos + |pad|, sig[1..|sig| - 1]));
      SampleMembersDecode(check, buf, pos + |pad|, sig[1..|sig| - 1]);
    }
  }

  lemma {:induction false} SampleScalar(buf: Str, pos: nat, b: Basic)
    requires At(buf, pos, EncWord(pos, WidthOf(b), 0) + if IsText(b) then [0] else [])
    ensures var r := DecScalar(buf, pos, b);
      r.Ok? && r.value.pos == pos + |EncWord(pos, WidthOf(b), 0)| + if IsText(b) then 1 else 0
  {
    ZeroWord(buf, pos, WidthOf(b), if IsText(b) then [0] else []);
  }

  lemma {:induction false} ZeroWord(buf: Str, pos: nat, w: Width, rest: Str)
    requires At(buf, pos, EncWord(pos, w, 0) + rest)
    ensures DecWord(buf, pos, w) == Ok(Got(0, pos + Pad(pos, w) + w))
    ensures At(buf, pos + Pad(pos, w) + w, rest)
  {
    hide View;
    AtSplit(buf, pos, EncWord(pos, w, 0), rest);
    WordRT(buf, pos, w, 0);
  }

  lemma {:induction false} SampleVariant(check: Check, buf: Str, pos: nat)
    requires At(buf, pos, [1, Code(Y), 0, 0])
    ensures var r := DecVariant(check, buf, pos); r.Ok? && r.value.pos == pos + 4
  {
    var sig := [Code(Y)];
    assert Good(TBasic(Y)) && Print(TBasic(Y)) == sig;
    CompletePasses(check, sig);
    assert EncSignature(sig).bytes + [0] == [1, Code(Y), 0, 0] by { assert LE(1, 1) == [1]; }
    AtSplit(buf, pos, EncSignature(sig).bytes, [0]);
    SignatureRT(buf, pos, sig);
    BasicStep(check, buf, pos + 3, Y);
    hide DecValue, Complete;
  }

  lemma {:induction false} SampleArray(check: Check, buf: Str, pos: nat, elem: Str)
    requires elem != [] && (elem[0] == OPEN_DICT ==> SplitDictEntry(elem).Some?)
    requires At(buf, pos, ArrayHead(pos, elem[0], 0))
    ensures var r := DecArray(check, buf, pos, elem); r.Ok? && r.value.pos == ArrayStart(pos, elem[0])
  {
    assert ArrayHead(pos, elem[0], 0) + [] == ArrayHead(pos, elem[0], 0);
    ArrayDecodes(check, buf, pos, elem, []);
    hide DecArray, SplitDictEntry, ArrayStart;
  }

  lemma {:induction false} SampleMembersDecode(check: Check, buf: Str, pos: nat, rest: Str)
    requires DecodableMembers(rest) && At(buf, pos, SampleMembers(pos, rest))
    ensures var r := DecMembers(check, buf, pos, rest); r.Ok? && r.value.pos == pos + |SampleMembers(pos, rest)|
    decreases |rest|, 2
  {
    hide DecValue, SplitSig, Decodable, Sample, View;
    if rest != [] {
      var Some((first, r)) := SplitSig(rest);
      var a := Sample(pos, first);
      AtSplit(buf, pos, a, SampleMembers(pos + |a|, r));
      SampleDecodes(check, buf, pos, first);
      SampleMembersDecode(check, buf, pos + |a|, r);
    }
  }

  /** A signature that takes nothing decodes in place. */
  lemma {:induction false} NothingDecodes(check: Check, buf: Str, pos: nat, sig: Str)
    requires TakesNothing(sig) && pos <= |buf| && pos % 8 == 0
    ensures var r := DecValue(check, buf, pos, sig); r.Ok? && r.value.pos == pos
    decreases |sig|, 1
  {
    NothingMembersDecode(check, buf, pos, sig[1..|sig| - 1]);
    hide DecMembers;
  }

  lemma {:induction false} NothingMembersDecode(check: Check, buf: Str, pos: nat, rest: Str)
    requires NothingMembers(rest) && pos <= |buf| && pos % 8 == 0
    ensures var r := DecMembers(check, buf, pos, rest); r.Ok? && r.value.pos == pos
    decreases |rest|, 2
  {
    hide DecValue, SplitSig, TakesNothing;
    if rest != [] {
      var Some((first, r)) := SplitSig(rest);
      NothingDecodes(check, buf, pos, first);
      NothingMembersDecode(check, buf, pos, r);
    }
  }

  // ---- bytes on which decoding does not return ----

  ghost predicate Fails<T(!new)>(r: Outcome<T>) { !Returns(r) }

  /** Bytes at `pos` on which decoding at `sig` does not return. */
  function Witness(inline: Inline, pos: nat, sig: Str): Str
    requires !Safe(inline, sig)
    decreases |sig|, 1
  {
    if sig == [] then []
    else if sig[0] == VARIANT then [0, 0]
    else if sig[0] == ARRAY then
      if |sig| == 1 then EncWord(pos, 4, 0)
      else ArrayHead(pos, sig[1], 1) + ElementWitness(inline, ArrayStart(pos, sig[1]), sig[1..]) + [0]
    else
      var pad := Zeros(Pad(pos, 8));
      pad + if |sig| == 1 then [] else MembersWitness(inline, pos + |pad|, sig[1..|sig| - 1])
  }

  function ElementWitness(inline: Inline, pos: nat, elem: Str): Str
    requires elem != [] && !SafeArray(inline, elem)
    decreases |elem|, 2
  {
    if elem[0] == OPEN_DICT then
      assert !SafeEntry(inline, elem);
      var Some((ks, vs)) := SplitDictEntry(elem);
      if !Safe(inline, ks) then Witness(inline, pos, ks)
      else
        assert BasicOf(ks[0]).Some? && Code(BasicOf(ks[0]).value) == ks[0];
        var k := Sample(pos, ks);
        k + Witness(inline, pos + |k|, vs)
    else if !Safe(inline, elem) then Witness(inline, pos, elem)
    else []
  }

  function MembersWitness(inline: Inline, pos: nat, rest: Str): Str
    requires !SafeMembers(inline, rest)
    decreases |rest|, 2
  {
    var Some((first, r)) := SplitSig(rest);
    if !Safe(inline, first) then Witness(inline, pos, first)
    else
      var a := Sample(pos, first);
      a + MembersWitness(inline, pos + |a|, r)
  }

  lemma {:induction false} UnsafeFails(inline: Inline, check: Check, buf: Str, pos: nat, sig: Str)
    requires inline == AnySignatures ==> check == AsIs
    requires !Safe(inline, sig) && At(buf, pos, Witness(inline, pos, sig))
    ensures Fails(DecValue(check, buf, pos, sig))
    decreases |sig|, 1
  {
    hide DecVariant, DecElements, DecMembers, SplitSig, LE, UnLE, ArrayStart, ArrayHead, DecArray, DecStruct, View;
    if sig != [] && sig[0] == VARIANT {
      NoSignature(buf, pos);
    } else if sig != [] && sig[0] == ARRAY {
      if |sig| == 1 {
        assert EncWord(pos, 4, 0) + [] == EncWord(pos, 4, 0);
        ZeroWord(buf, pos, 4, []);
        NoElement(check, buf, pos);
      } else {
        ArrayFails(inline, check, buf, pos, sig[1..]);
      }
    } else if sig != [] {
      var pad := Zeros(Pad(pos, 8));
      if |sig| == 1 {
        LoneParenthesis(check, buf, pos);
      } else {
        AtSplit(buf, pos, pad, MembersWitness(inline, pos + |pad|, sig[1..|sig| - 1]));
        MembersFail(inline, check, buf, pos + |pad|, sig[1..|sig| - 1]);
        AtBound(buf, pos, pad);
        StructFails(check, buf, pos, sig);
      }
    }
  }

  lemma {:induction false} NoSignature(buf: Str, pos: nat)
    requires At(buf, pos, [0, 0])
    ensures DecVariant(AsIs, buf, pos) == Panic
  {
    assert buf[pos] == buf[pos..pos + 2][0];
    ByteAt(buf, pos);
    assert DecText(buf, pos, 1) == Ok(Got([], pos + 2));
  }

  lemma {:induction false} LoneParenthesis(check: Check, buf: Str, pos: nat)
    requires At(buf, pos, Zeros(Pad(pos, 8)) + [])
    ensures DecValue(check, buf, pos, [OPEN_STRUCT]) == Panic
  {
    assert Zeros(Pad(pos, 8)) + [] == Zeros(Pad(pos, 8));
  }

  lemma {:induction false} StructFails(check: Check, buf: Str, pos: nat, sig: Str)
    requires |sig| > 1 && sig[0] == OPEN_STRUCT && pos + Pad(pos, 8) <= |buf|
    requires Fails(DecMembers(check, buf, pos + Pad(pos, 8), sig[1..|sig| - 1]))
    ensures Fails(DecValue(check, buf, pos, sig))
  {
    hide DecMembers, Pad;
  }

  lemma {:induction false} NoElement(check: Check, buf: Str, pos: nat)
    requires pos <= |buf| && DecWord(buf, pos, 4).Ok?
    ensures DecArray(check, buf, pos, []) == Panic
  {
  }

  lemma {:induction false} ArrayFails(inline: Inline, check: Check, buf: Str, pos: nat, elem: Str)
    requires inline == AnySignatures ==> check == AsIs
    requires elem != [] && !SafeArray(inline, elem)
    requires var start := ArrayStart(pos, elem[0]);
      At(buf, pos, ArrayHead(pos, elem[0], 1) + ElementWitness(inline, start, elem) + [0])
    ensures Fails(DecArray(check, buf, pos, elem))
    decreases |elem|, 3
  {
    hide Safe, View, AlignmentOf, DecElements, Witness, Sample, ElementWitness, LE, UnLE;
    var start := ArrayStart(pos, elem[0]);
    var inner := ElementWitness(inline, start, elem);
    OneElement(check, buf, pos, elem, inner);
    ElementsFail(inline, check, buf, start, elem);
  }

  /** An array that announces one byte of elements. */
  lemma {:induction false} OneElement(check: Check, buf: Str, pos: nat, elem: Str, inner: Str)
    requires elem != [] && At(buf, pos, ArrayHead(pos, elem[0], 1) + inner + [0])
    ensures var start := ArrayStart(pos, elem[0]);
      && At(buf, start, inner) && start < |buf|
      && DecArray(check, buf, pos, elem) == DecElements(check, buf, start, elem, start + 1)
      && (elem[0] == OPEN_DICT || elem[0] == OPEN_STRUCT ==> start % 8 == 0)
  {
    LimitValues();
    hide DecElements, View, AlignmentOf, ArrayStart, ArrayHead, DecWord, DecAlign, Limit, Pad;
    AtSplit3(buf, pos, ArrayHead(pos, elem[0], 1), inner, [0]);
    HeadReads(buf, pos, elem[0], 1);
    AtBound(buf, ArrayStart(pos, elem[0]) + |inner|, [0]);
    BracketStart(pos, elem[0]);
  }

  lemma {:induction false} BracketStart(pos: nat, c: Byte)
    ensures c == OPEN_DICT || c == OPEN_STRUCT ==> ArrayStart(pos, c) % 8 == 0
  {
    PadIsLeast(pos + Pad(pos, 4) + 4, AlignmentOf(c));
  }

  lemma {:induction false} ElementsFail(inline: Inline, check: Check, buf: Str, pos: nat, elem: Str)
    requires inline == AnySignatures ==> check == AsIs
    requires elem != [] && !SafeArray(inline, elem) && At(buf, pos, ElementWitness(inline, pos, elem)) && pos < |buf|
    requires elem[0] == OPEN_DICT || elem[0] == OPEN_STRUCT ==> pos % 8 == 0
    ensures Fails(DecElements(check, buf, pos, elem, pos + 1))
    decreases |elem|, 2
  {
    hide DecValue, SplitDictEntry, Safe, TakesNothing, DecPair, Witness, Sample, View;
    if elem[0] == OPEN_DICT {
      var Some((ks, vs)) := SplitDictEntry(elem);
      PairFails(inline, check, buf, pos, ks, vs, elem);
      EntriesFail(check, buf, pos, ks, vs);
    } else if !Safe(inline, elem) {
      UnsafeFails(inline, check, buf, pos, elem);
    } else {
      NothingIsStruct(elem);
      NothingDecodes(check, buf, pos, elem);
    }
  }

  lemma {:induction false} EntriesFail(check: Check, buf: Str, pos: nat, ks: Str, vs: Str)
    requires pos < |buf| && pos % 8 == 0 && Fails(DecPair(check, buf, pos, ks, vs))
    ensures Fails(DecEntries(check, buf, pos, ks, vs, pos + 1, map[]))
  {
    hide DecPair;
    assert Pad(pos, 8) == 0;
  }

  lemma {:induction false} NothingIsStruct(sig: Str)
    requires TakesNothing(sig)
    ensures sig[0] == OPEN_STRUCT
  {
  }

  lemma {:induction false} PairFails(inline: Inline, check: Check, buf: Str, pos: nat, ks: Str, vs: Str, elem: Str)
    requires inline == AnySignatures ==> check == AsIs
    requires elem != [] && elem[0] == OPEN_DICT && SplitDictEntry(elem) == Some((ks, vs)) && !SafeArray(inline, elem)
    requires At(buf, pos, ElementWitness(inline, pos, elem)) && pos < |buf|
    ensures Fails(DecPair(check, buf, pos, ks, vs))
    decreases |elem|, 1
  {
    hide DecValue, SplitDictEntry, Safe, Witness, Sample, View;
    if !Safe(inline, ks) {
      UnsafeFails(inline, check, buf, pos, ks);
    } else {
      TextDecodable(ks);
      var k := Sample(pos, ks);
      AtSplit(buf, pos, k, Witness(inline, pos + |k|, vs));
      SampleDecodes(check, buf, pos, ks);
      UnsafeFails(inline, check, buf, pos + |k|, vs);
    }
  }

  lemma {:induction false} TextDecodable(sig: Str)
    requires sig != [] && IsTextCode(sig[0])
    ensures Decodable(sig)
  {
  }

  lemma {:induction false} MembersFail(inline: Inline, check: Check, buf: Str, pos: nat, rest: Str)
    requires inline == AnySignatures ==> check == AsIs
    requires !SafeMembers(inline, rest) && At(buf, pos, MembersWitness(inline, pos, rest))
    ensures Fails(DecMembers(check, buf, pos, rest))
    decreases |rest|, 2
  {
    hide DecValue, SplitSig, Safe, Decodable, Witness, Sample, View;
    var Some((first, r)) := SplitSig(rest);
    if !Safe(inline, first) {
      UnsafeFails(inline, check, buf, pos, first);
    } else {
      var a := Sample(pos, first);
      AtSplit(buf, pos, a, MembersWitness(inline, pos + |a|, r));
      SampleDecodes(check, buf, pos, first);
      MembersFail(inline, check, buf, pos + |a|, r);
    }
  }

  // ---- exactly when ----

  ghost predicate AlwaysReturns(check: Check, sig: Str) {
    forall buf: Str, pos: nat :: pos <= |buf| ==> Returns(DecValue(check, buf, pos, sig))
  }

  /** Decoding at `sig` returns on every buffer, as long as the inline signatures it meets
      are safe, if and only if `sig` is; and the code, which meets any, returns on every
      buffer if and only if `sig` is safe without a variant in reach. */
  lemma {:induction false} SafeIff(inline: Inline, sig: Str)
    ensures AlwaysReturns(CheckFor(inline), sig) <==> Safe(inline, sig)
  {
    hide DecValue, Safe, Witness;
    if Safe(inline, sig) {
      forall buf: Str, pos: nat | pos <= |buf|
        ensures Returns(DecValue(CheckFor(inline), buf, pos, sig))
      {
        SafeReturns(inline, buf, pos, sig);
      }
    } else {
      var buf := Witness(inline, 0, sig);
      assert buf[0..] == buf;
      UnsafeFails(inline, CheckFor(inline), buf, 0, sig);
    }
  }

  /** On bytes of which the check accepts every inline signature the code returns, too. */
  lemma {:induction false} CodeReturns(buf: Str, pos: nat, sig: Str)
    requires pos <= |buf| && Safe(SafeSignatures, sig) && DecValue(SafeOnly, buf, pos, sig) != BadSig
    ensures Returns(DecValue(AsIs, buf, pos, sig))
  {
    SafeReturns(SafeSignatures, buf, pos, sig);
    CheckedAgrees(SafeOnly, buf, pos, sig);
  }

  /** And at every unsafe signature that fits a variant there are bytes on which it does not. */
  lemma {:induction false} UnsafeInlineFails(inline: Inline, buf: Str, pos: nat, sig: Str)
    requires !Safe(inline, sig) && |sig| < Limit(1)
    requires var s := EncSignature(sig).bytes; At(buf, pos, s + Witness(inline, pos + |s|, sig))
    ensures Fails(DecValue(AsIs, buf, pos, Print(TVariant)))
  {
    hide Safe, Witness, View, DecValue, Limit;
    var s := EncSignature(sig).bytes;
    AtSplit(buf, pos, s, Witness(inline, pos + |s|, sig));
    SignatureRT(buf, pos, sig);
    VariantStep(AsIs, buf, pos, Opaque);
    UnsafeFails(inline, AsIs, buf, pos + |s|, sig);
  }
}
