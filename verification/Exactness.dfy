/** Values small enough that no length conversion drops bits. */
module Exactness {
  import opened Bytes
  import opened Signature
  import opened Values
  import opened Wire

  // ---- short signatures and a total under 4 GiB are enough ----

  /** Every 'g' string and inline signature fits its one-byte length. */
  ghost predicate ShortSignatures(t: Ty, x: Arg)
    decreases x
  {
    match t
    case TBasic(b) => b == G && x.Prim? && x.p.VString? ==> |x.p.s| < Limit(1)
    case TVariant => x.Variant? && Complete(x.sig) ==> |x.sig| < Limit(1) && ShortSignatures(TypeOf(x.sig), x.inner)
    case TArray(e) => x.Slice? ==> ShortItems(e, x.items)
    case TDict(k, v) => x.Dict? ==> ShortEntries(k, v, x.entries)
    case TStruct(ms) => x.Slice? ==> ShortMembers(ms, x.items)
  }

  ghost predicate ShortItems(e: Ty, items: seq<Arg>)
    decreases items
  {
    items == [] || (ShortSignatures(e, items[0]) && ShortItems(e, items[1..]))
  }

  ghost predicate ShortMembers(ms: seq<Ty>, items: seq<Arg>)
    decreases items
  {
    ms == [] || items == [] || (ShortSignatures(ms[0], items[0]) && ShortMembers(ms[1..], items[1..]))
  }

  ghost predicate ShortEntries(k: Basic, v: Ty, entries: seq<Entry>)
    decreases entries
  {
    || entries == []
    || ((k == G ==> |entries[0].key| < Limit(1)) && ShortSignatures(v, entries[0].val)
        && ShortEntries(k, v, entries[1..]))
  }

  ghost predicate Short(t: Ty, x: Arg) { Encodable(t, x) && ShortSignatures(t, x) }

  /** Succeeds, and is exact if small. */
  ghost predicate FitsIfSmall(r: Outcome<Piece>) {
    r.Ok? && (|r.value.bytes| < Limit(4) ==> r.value.exact)
  }

  lemma {:induction false} FitsCat(a: Piece, r: Outcome<Piece>)
    requires FitsIfSmall(Ok(a)) && FitsIfSmall(r)
    ensures FitsIfSmall(Ok(Cat(a, r.value)))
  {
  }

  /** A caller can check this before the call: short signatures and a small result. */
  lemma {:induction false} SmallIsExact(pos: nat, t: Ty, x: Arg)
    requires Short(t, x)
    ensures FitsIfSmall(EncValue(pos, Print(t), x))
    decreases x, 1
  {
    LimitValues();
    hide EncVariant, EncArray, EncStruct, Limit;
    match t
    case TBasic(b) =>
      BasicOfCode(b);
      ScalarFits(pos, b, x.p);
    case TVariant =>
      VariantStep(AsIs, [], pos, x);
      VariantFits(pos, x);
    case TArray(e) =>
      ArrayStep(AsIs, [], pos, Print(e), x);
      ArrayFits(pos, t, Print(e), x);
    case TDict(k, v) =>
      ArrayStep(AsIs, [], pos, PrintEntry(k, v), x);
      ArrayFits(pos, t, PrintEntry(k, v), x);
    case TStruct(ms) =>
      StructStep(AsIs, [], pos, PrintAll(ms), x);
      StructFits(pos, ms, x);
  }

  lemma {:induction false} ScalarFits(pos: nat, b: Basic, p: Scalar)
    requires HasType(b, p) && (b == G ==> |p.s| < Limit(1))
    ensures FitsIfSmall(EncScalar(pos, b, p))
  {
    if !IsText(b) { WordInverse(b, p); }
  }

  lemma {:induction false} VariantFits(pos: nat, x: Arg)
    requires Short(TVariant, x)
    ensures FitsIfSmall(EncVariant(pos, x))
    decreases x, 0
  {
    hide EncValue, Limit;
    SmallIsExact(pos + |EncSignature(x.sig).bytes|, TypeOf(x.sig), x.inner);
    VariantWholeFits(pos, x);
  }

  lemma {:induction false} VariantWholeFits(pos: nat, x: Arg)
    requires x.Variant? && |x.sig| < Limit(1)
    requires FitsIfSmall(EncValue(pos + |EncSignature(x.sig).bytes|, x.sig, x.inner))
    ensures FitsIfSmall(EncVariant(pos, x))
  {
    hide EncValue, Limit;
  }

  lemma {:induction false} ArrayFits(pos: nat, t: Ty, elem: Str, x: Arg)
    requires Short(t, x)
    requires (t.TArray? && elem == Print(t.elem)) || (t.TDict? && elem == PrintEntry(t.key, t.val))
    ensures FitsIfSmall(EncArray(pos, elem, x))
    decreases x, 0
  {
    var start := ArrayStart(pos, elem[0]);
    if t.TArray? {
      PrintStart(t.elem);
      ItemsFit(start, t.elem, x.items);
    } else {
      SplitDictEntryPrint(t.key, t.val);
      EntriesFit(start, t.key, t.val, x.entries);
    }
    hide EncItems, EncEntries, Limit, SplitDictEntry, ArrayStart, AlignmentOf;
    assert FitsIfSmall(EncElements(start, elem, x));
  }

  lemma {:induction false} ItemsFit(pos: nat, e: Ty, items: seq<Arg>)
    requires Good(e) && AcceptsItems(e, items) && ShortItems(e, items)
    ensures FitsIfSmall(EncItems(pos, Print(e), items))
    decreases items, 0
  {
    hide EncValue, Limit, Print;
    if items != [] {
      SmallIsExact(pos, e, items[0]);
      var a := EncValue(pos, Print(e), items[0]).value;
      ItemsFit(pos + |a.bytes|, e, items[1..]);
      FitsCat(a, EncItems(pos + |a.bytes|, Print(e), items[1..]));
    }
  }

  lemma {:induction false} StructFits(pos: nat, ms: seq<Ty>, x: Arg)
    requires Short(TStruct(ms), x)
    ensures FitsIfSmall(EncStruct(pos, PrintAll(ms), x))
    decreases x, 0
  {
    hide EncMembers, Limit, Print, PrintAll;
    var pad := Piece(Zeros(Pad(pos, 8)), true);
    MembersFit(pos + |pad.bytes|, ms, x.items);
    FitsCat(pad, EncMembers(pos + |pad.bytes|, PrintAll(ms), x.items));
  }

  lemma {:induction false} MembersFit(pos: nat, ms: seq<Ty>, items: seq<Arg>)
    requires GoodAll(ms) && AcceptsMembers(ms, items) && ShortMembers(ms, items)
    ensures FitsIfSmall(EncMembers(pos, PrintAll(ms), items))
    decreases items, 0
  {
    if ms != [] {
      hide EncValue, Limit, Print, EncMembers, PrintAll;
      SmallIsExact(pos, ms[0], items[0]);
      MembersFit(pos + |EncValue(pos, Print(ms[0]), items[0]).value.bytes|, ms[1..], items[1..]);
      MembersWholeFit(pos, ms, items);
    }
  }

  lemma {:induction false} MembersWholeFit(pos: nat, ms: seq<Ty>, items: seq<Arg>)
    requires ms != [] && items != [] && FitsIfSmall(EncValue(pos, Print(ms[0]), items[0]))
    requires var a := EncValue(pos, Print(ms[0]), items[0]).value;
      FitsIfSmall(EncMembers(pos + |a.bytes|, PrintAll(ms[1..]), items[1..]))
    ensures FitsIfSmall(EncMembers(pos, PrintAll(ms), items))
  {
    hide EncValue, Limit, Print, EncMembers, PrintAll;
    MembersStep(pos, ms, items);
  }

  lemma {:induction false} EntriesFit(pos: nat, k: Basic, v: Ty, entries: seq<Entry>)
    requires IsText(k) && Good(v) && AcceptsEntries(v, entries) && ShortEntries(k, v, entries)
    ensures FitsIfSmall(EncEntries(pos, [Code(k)], Print(v), entries))
    decreases entries, 4
  {
    hide EncEntry, Limit, Print, Code;
    if entries != [] {
      EntryFits(pos, k, v, entries[0]);
      var a := EncEntry(pos, [Code(k)], Print(v), entries[0]).value;
      EntriesFit(pos + |a.bytes|, k, v, entries[1..]);
      FitsCat(a, EncEntries(pos + |a.bytes|, [Code(k)], Print(v), entries[1..]));
    }
  }

  lemma {:induction false} EntryFits(pos: nat, k: Basic, v: Ty, e: Entry)
    requires IsText(k) && Short(v, e.val) && (k == G ==> |e.key| < Limit(1))
    ensures FitsIfSmall(EncEntry(pos, [Code(k)], Print(v), e))
    decreases e, 2
  {
    hide EncValue, EncScalar, Limit, Print, Pad, Short;
    BasicOfCode(k);
    var p := pos + Pad(pos, 8);
    ScalarFits(p, k, VString(e.key));
    var key := EncScalar(p, k, VString(e.key)).value;
    var q := p + |key.bytes|;
    SmallIsExact(q, v, e.val);
    FitsCat(key, EncValue(q, Print(v), e.val));
    FitsCat(Piece(Zeros(Pad(pos, 8)), true), Ok(Cat(key, EncValue(q, Print(v), e.val).value)));
  }
}
