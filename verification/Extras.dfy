/** Items beyond the signature, of a struct at any depth as of a call, are never looked at. */
module Extras {
  import opened Wrappers
  import opened Bytes
  import opened Signature
  import opened Values
  import opened Wire
  import opened RoundTrip

  /** Whatever the items are, those beyond the complete types of `rest` make no difference. */
  lemma {:induction false} ExtraItemsIgnored(pos: nat, rest: Str, items: seq<Arg>, n: nat)
    requires SplitAll(rest).Some? && |SplitAll(rest).value| <= n <= |items|
    ensures EncMembers(pos, rest, items) == EncMembers(pos, rest, items[..n])
    decreases |rest|
  {
    hide EncValue, SplitSig;
    if rest != [] {
      var Some((first, r)) := SplitSig(rest);
      var few := items[..n];
      assert few[0] == items[0] && few[1..] == items[1..][..n - 1];
      var a := EncValue(pos, first, items[0]);
      if a.Ok? { ExtraItemsIgnored(pos + |a.value.bytes|, r, items[1..], n - 1); }
    }
  }

  /** `x` without the items of its structs that go beyond the type. */
  ghost function Trimmed(t: Ty, x: Arg): Arg
    decreases x
  {
    match t
    case TBasic(_) => x
    case TVariant =>
      if x.Variant? && Complete(x.sig) then Variant(x.sig, Trimmed(TypeOf(x.sig), x.inner)) else x
    case TArray(e) => if x.Slice? then Slice(x.kind, TrimmedItems(e, x.items)) else x
    case TDict(_, v) => if x.Dict? then Dict(TrimmedEntries(v, x.entries)) else x
    case TStruct(ms) => if x.Slice? then Slice(x.kind, TrimmedMembers(ms, x.items)) else x
  }

  ghost function TrimmedItems(e: Ty, items: seq<Arg>): seq<Arg>
    decreases items
  {
    if items == [] then [] else [Trimmed(e, items[0])] + TrimmedItems(e, items[1..])
  }

  ghost function TrimmedMembers(ms: seq<Ty>, items: seq<Arg>): seq<Arg>
    decreases items
  {
    if ms == [] || items == [] then [] else [Trimmed(ms[0], items[0])] + TrimmedMembers(ms[1..], items[1..])
  }

  ghost function TrimmedEntries(v: Ty, entries: seq<Entry>): seq<Entry>
    decreases entries
  {
    if entries == [] then []
    else [Entry(entries[0].key, Trimmed(v, entries[0].val))] + TrimmedEntries(v, entries[1..])
  }

  /** A value that is accepted as it is has nothing to trim. */
  lemma {:induction false} NothingToTrim(t: Ty, x: Arg)
    requires Accepts(t, x)
    ensures Trimmed(t, x) == x
    decreases x
  {
    match t
    case TBasic(_) =>
    case TVariant => NothingToTrim(TypeOf(x.sig), x.inner);
    case TArray(e) => NoItemsToTrim(e, x.items);
    case TDict(_, v) => NoEntriesToTrim(v, x.entries);
    case TStruct(ms) => NoMembersToTrim(ms, x.items);
  }

  lemma {:induction false} NoItemsToTrim(e: Ty, items: seq<Arg>)
    requires AcceptsItems(e, items)
    ensures TrimmedItems(e, items) == items
    decreases items
  {
    if items != [] {
      NothingToTrim(e, items[0]);
      NoItemsToTrim(e, items[1..]);
    }
  }

  lemma {:induction false} NoMembersToTrim(ms: seq<Ty>, items: seq<Arg>)
    requires AcceptsMembers(ms, items)
    ensures TrimmedMembers(ms, items) == items
    decreases items
  {
    if items != [] {
      NothingToTrim(ms[0], items[0]);
      NoMembersToTrim(ms[1..], items[1..]);
    }
  }

  lemma {:induction false} NoEntriesToTrim(v: Ty, entries: seq<Entry>)
    requires AcceptsEntries(v, entries)
    ensures TrimmedEntries(v, entries) == entries
    decreases entries
  {
    if entries != [] {
      NothingToTrim(v, entries[0].val);
      NoEntriesToTrim(v, entries[1..]);
    }
  }

  /** Any value at all, well typed or not, is encoded like the trimmed one, errors included. */
  lemma {:induction false} TrimmedSame(pos: nat, t: Ty, x: Arg)
    ensures EncValue(pos, Print(t), x) == EncValue(pos, Print(t), Trimmed(t, x))
    decreases x, 1
  {
    var y := Trimmed(t, x);
    hide EncArray, EncStruct, EncVariant;
    match t
    case TBasic(_) =>
    case TVariant =>
      if y != x {
        VariantStep(AsIs, [], pos, x);
        VariantStep(AsIs, [], pos, y);
        VariantTrimmed(pos, x, y);
      }
    case TArray(e) =>
      if y != x {
        ArrayStep(AsIs, [], pos, Print(e), x);
        ArrayStep(AsIs, [], pos, Print(e), y);
        PrintStart(e);
        ItemsTrimmed(ArrayStart(pos, Print(e)[0]), e, x.items);
        SameElements(pos, Print(e), x, y);
      }
    case TDict(k, v) =>
      if y != x {
        ArrayStep(AsIs, [], pos, PrintEntry(k, v), x);
        ArrayStep(AsIs, [], pos, PrintEntry(k, v), y);
        SplitDictEntryPrint(k, v);
        EntriesTrimmed(ArrayStart(pos, OPEN_DICT), k, v, x.entries);
        SameElements(pos, PrintEntry(k, v), x, y);
      }
    case TStruct(ms) =>
      if y != x {
        StructStep(AsIs, [], pos, PrintAll(ms), x);
        StructStep(AsIs, [], pos, PrintAll(ms), y);
        MembersTrimmed(pos + Pad(pos, 8), ms, x.items);
        SameMembers(pos, ms, x, y);
      }
  }

  lemma {:induction false} VariantTrimmed(pos: nat, x: Arg, y: Arg)
    requires x.Variant? && Complete(x.sig) && y == Variant(x.sig, Trimmed(TypeOf(x.sig), x.inner))
    ensures EncVariant(pos, x) == EncVariant(pos, y)
    decreases x, 0
  {
    hide EncValue, Trimmed;
    TrimmedSame(pos + |EncSignature(x.sig).bytes|, TypeOf(x.sig), x.inner);
  }

  lemma {:induction false} SameElements(pos: nat, elem: Str, x: Arg, y: Arg)
    requires elem != []
    requires var start := ArrayStart(pos, elem[0]); EncElements(start, elem, x) == EncElements(start, elem, y)
    ensures EncArray(pos, elem, x) == EncArray(pos, elem, y)
  {
    hide EncElements;
  }

  lemma {:induction false} SameMembers(pos: nat, ms: seq<Ty>, x: Arg, y: Arg)
    requires x.Slice? && y.Slice? && x.kind == y.kind
    requires var p := pos + Pad(pos, 8); EncMembers(p, PrintAll(ms), x.items) == EncMembers(p, PrintAll(ms), y.items)
    ensures EncValue(pos, Print(TStruct(ms)), x) == EncValue(pos, Print(TStruct(ms)), y)
  {
    hide EncMembers, PrintAll;
    StructStep(AsIs, [], pos, PrintAll(ms), x);
    StructStep(AsIs, [], pos, PrintAll(ms), y);
    if x.kind != AnySlice { assert BasicOf(OPEN_STRUCT) == None; }
  }

  lemma {:induction false} ItemsTrimmed(pos: nat, e: Ty, items: seq<Arg>)
    ensures EncItems(pos, Print(e), items) == EncItems(pos, Print(e), TrimmedItems(e, items))
    decreases items, 0
  {
    hide EncValue, Print, Trimmed;
    if items != [] {
      TrimmedSame(pos, e, items[0]);
      var a := EncValue(pos, Print(e), items[0]);
      if a.Ok? { ItemsTrimmed(pos + |a.value.bytes|, e, items[1..]); }
      assert TrimmedItems(e, items)[1..] == TrimmedItems(e, items[1..]);
    }
  }

  lemma {:induction false} MembersTrimmed(pos: nat, ms: seq<Ty>, items: seq<Arg>)
    ensures EncMembers(pos, PrintAll(ms), items) == EncMembers(pos, PrintAll(ms), TrimmedMembers(ms, items))
    decreases items, 0
  {
    hide EncValue, Print, Trimmed, SplitSig;
    if ms != [] && items != [] {
      SplitPrint(ms[0], PrintAll(ms[1..]));
      TrimmedSame(pos, ms[0], items[0]);
      var a := EncValue(pos, Print(ms[0]), items[0]);
      if a.Ok? { MembersTrimmed(pos + |a.value.bytes|, ms[1..], items[1..]); }
      assert TrimmedMembers(ms, items)[1..] == TrimmedMembers(ms[1..], items[1..]);
    }
  }

  lemma {:induction false} EntriesTrimmed(pos: nat, k: Basic, v: Ty, entries: seq<Entry>)
    ensures EncEntries(pos, [Code(k)], Print(v), entries)
         == EncEntries(pos, [Code(k)], Print(v), TrimmedEntries(v, entries))
    decreases entries, 4
  {
    hide EncEntry, Print, Trimmed;
    if entries != [] {
      EntryTrimmed(pos, k, v, entries[0]);
      var a := EncEntry(pos, [Code(k)], Print(v), entries[0]);
      if a.Ok? { EntriesTrimmed(pos + |a.value.bytes|, k, v, entries[1..]); }
      assert TrimmedEntries(v, entries)[1..] == TrimmedEntries(v, entries[1..]);
    }
  }

  lemma {:induction false} EntryTrimmed(pos: nat, k: Basic, v: Ty, e: Entry)
    ensures EncEntry(pos, [Code(k)], Print(v), e) == EncEntry(pos, [Code(k)], Print(v), Entry(e.key, Trimmed(v, e.val)))
    decreases e, 2
  {
    hide EncValue, Print, Trimmed, EncKey;
    var p := pos + Pad(pos, 8);
    var a := EncKey(p, [Code(k)], e.key);
    if a.Ok? { TrimmedSame(p + |a.value.bytes|, v, e.val); }
  }

  /** Round trip with extra items anywhere: the rest comes back. */
  lemma {:induction false} ExtrasRoundTrip(buf: Str, pos: nat, t: Ty, x: Arg)
    requires Encodable(t, Trimmed(t, x))
    ensures var e := EncValue(pos, Print(t), x);
      && e.Ok?
      && (e.value.exact && At(buf, pos, e.value.bytes) ==>
            DecValue(AsIs, buf, pos, Print(t)) == Ok(Got(Abs(Trimmed(t, x)), pos + |e.value.bytes|)))
  {
    hide EncValue, DecValue, Trimmed, Accepts, View, Print, Abs;
    TrimmedSame(pos, t, x);
    ValueRT(AsIs, buf, pos, t, Trimmed(t, x));
  }
}
