/** What the decoder returns holds no 'g' text and no inline signature of 256 bytes: so under
    4 GiB these are the only values that do not come back. */
module Shortness {
  import opened Bytes
  import opened Signature
  import opened Values
  import opened Wire
  import opened RoundTrip
  import opened Exactness

  /** Every 'g' text and inline signature of `v` has a length that fits a byte. */
  ghost predicate ShortValue(t: Ty, v: Value)
    decreases v
  {
    match t
    case TBasic(b) => b == G && v.Leaf? && v.p.VString? ==> |v.p.s| < Limit(1)
    case TVariant =>
      v.Boxed? ==> |v.sig| < Limit(1) && (Complete(v.sig) ==> ShortValue(TypeOf(v.sig), v.inner))
    case TArray(e) => v.List? ==> forall i :: 0 <= i < |v.items| ==> ShortValue(e, v.items[i])
    case TDict(k, u) =>
      v.Map? ==> forall key :: key in v.m ==> (k == G ==> |key| < Limit(1)) && ShortValue(u, v.m[key])
    case TStruct(ms) =>
      v.List? && |v.items| == |ms| ==> forall i :: 0 <= i < |ms| ==> ShortValue(ms[i], v.items[i])
  }

  // ---- decoded values are short ----

  lemma {:induction false} TextIsShort(buf: Str, pos: nat)
    ensures var r := DecText(buf, pos, 1); r.Ok? ==> |r.value.v| < Limit(1)
  {
  }

  /** On any bytes, at any supported type. */
  lemma {:induction false} DecodedIsShort(buf: Str, pos: nat, t: Ty)
    requires pos <= |buf| && Good(t)
    ensures var r := DecValue(AsIs, buf, pos, Print(t)); r.Ok? ==> ShortValue(t, r.value.v)
    decreases |buf| - pos, |Print(t)|, 2
  {
    hide DecValue, DecArray, DecVariant, DecStruct, DecText;
    match t
    case TBasic(b) =>
      BasicStep(AsIs, buf, pos, b);
      TextIsShort(buf, pos);
    case TVariant =>
      VariantStep(AsIs, buf, pos, Opaque);
      VariantIsShort(buf, pos);
    case TArray(e) =>
      ArrayStep(AsIs, buf, pos, Print(e), Opaque);
      ArrayIsShort(buf, pos, t, Print(e));
    case TDict(k, v) =>
      ArrayStep(AsIs, buf, pos, PrintEntry(k, v), Opaque);
      ArrayIsShort(buf, pos, t, PrintEntry(k, v));
    case TStruct(ms) =>
      StructStep(AsIs, buf, pos, PrintAll(ms), Opaque);
      StructIsShort(buf, pos, ms);
  }

  lemma {:induction false} VariantIsShort(buf: Str, pos: nat)
    requires pos <= |buf|
    ensures var r := DecVariant(AsIs, buf, pos); r.Ok? ==> ShortValue(TVariant, r.value.v)
    decreases |buf| - pos, 0, 1
  {
    hide DecValue, DecText;
    TextIsShort(buf, pos);
    var r := DecText(buf, pos, 1);
    if r.Ok? && Complete(r.value.v) { DecodedIsShort(buf, r.value.pos, TypeOf(r.value.v)); }
  }

  lemma {:induction false} StructIsShort(buf: Str, pos: nat, ms: seq<Ty>)
    requires pos <= |buf| && GoodAll(ms)
    ensures var r := DecStruct(AsIs, buf, pos, PrintAll(ms)); r.Ok? ==> ShortValue(TStruct(ms), r.value.v)
    decreases |buf| - pos, |PrintAll(ms)|, 4
  {
    hide DecMembers;
    if pos + Pad(pos, 8) <= |buf| { MembersAreShort(buf, pos + Pad(pos, 8), ms); }
  }

  lemma {:induction false} ArrayIsShort(buf: Str, pos: nat, t: Ty, elem: Str)
    requires pos <= |buf| && Good(t)
    requires (t.TArray? && elem == Print(t.elem)) || (t.TDict? && elem == PrintEntry(t.key, t.val))
    ensures var r := DecArray(AsIs, buf, pos, elem); r.Ok? ==> ShortValue(t, r.value.v)
    decreases |buf| - pos, |elem|, 1
  {
    hide DecElements, DecWord, AlignmentOf, ShortValue;
    var w := DecWord(buf, pos, 4);
    if w.Ok? {
      var a := DecAlign(buf, w.value.pos, AlignmentOf(elem[0]));
      if a.Ok? && a.value + w.value.v <= |buf| {
        ElementsAreShort(buf, a.value, t, elem, a.value + w.value.v);
      }
    }
  }

  lemma {:induction false} ElementsAreShort(buf: Str, pos: nat, t: Ty, elem: Str, end: nat)
    requires pos <= |buf| && Good(t)
    requires (t.TArray? && elem == Print(t.elem)) || (t.TDict? && elem == PrintEntry(t.key, t.val))
    ensures var r := DecElements(AsIs, buf, pos, elem, end); r.Ok? ==> ShortValue(t, r.value.v)
    decreases |buf| - pos, |elem|, 6
  {
    hide DecItems, DecEntries;
    if t.TArray? {
      PrintStart(t.elem);
      ItemsAreShort(buf, pos, t.elem, end);
    } else {
      SplitDictEntryPrint(t.key, t.val);
      hide SplitDictEntry;
      EntriesAreShort(buf, pos, t.key, t.val, end, map[]);
    }
  }

  lemma {:induction false} ItemsAreShort(buf: Str, pos: nat, e: Ty, end: nat)
    requires pos <= |buf| && Good(e)
    ensures var r := DecItems(AsIs, buf, pos, Print(e), end);
      r.Ok? ==> forall i :: 0 <= i < |r.value.v| ==> ShortValue(e, r.value.v[i])
    decreases |buf| - pos, |Print(e)|, 3
  {
    hide DecValue, ShortValue;
    if pos < end {
      DecodedIsShort(buf, pos, e);
      var r := DecValue(AsIs, buf, pos, Print(e));
      if r.Ok? && r.value.pos > pos { ItemsAreShort(buf, r.value.pos, e, end); }
    }
  }

  lemma {:induction false} MembersAreShort(buf: Str, pos: nat, ms: seq<Ty>)
    requires pos <= |buf| && GoodAll(ms)
    ensures var r := DecMembers(AsIs, buf, pos, PrintAll(ms));
      r.Ok? ==> |r.value.v| == |ms| && forall i :: 0 <= i < |ms| ==> ShortValue(ms[i], r.value.v[i])
    decreases |buf| - pos, |PrintAll(ms)|, 3
  {
    hide DecValue, ShortValue, SplitSig, Print, Good, Limit;
    if ms != [] {
      SplitPrint(ms[0], PrintAll(ms[1..]));
      DecodedIsShort(buf, pos, ms[0]);
      var r := DecValue(AsIs, buf, pos, Print(ms[0]));
      if r.Ok? { MembersAreShort(buf, r.value.pos, ms[1..]); }
    }
  }

  ghost predicate ShortMap(k: Basic, v: Ty, m: map<Str, Value>) {
    forall key :: key in m ==> (k == G ==> |key| < Limit(1)) && ShortValue(v, m[key])
  }

  lemma {:induction false} EntriesAreShort(buf: Str, pos: nat, k: Basic, v: Ty, end: nat, m: map<Str, Value>)
    requires pos <= |buf| && IsText(k) && Good(v) && ShortMap(k, v, m)
    ensures var r := DecEntries(AsIs, buf, pos, [Code(k)], Print(v), end, m); r.Ok? ==> ShortMap(k, v, r.value.v.m)
    decreases |buf| - pos, 1 + |Print(v)|, 5
  {
    hide DecPair, Print, Good, ShortValue;
    if pos < end && DecAlign(buf, pos, 8).Ok? {
      PairIsShort(buf, pos + Pad(pos, 8), k, v);
      var r := DecEntry(AsIs, buf, pos, [Code(k)], Print(v));
      if r.Ok? { EntriesAreShort(buf, r.value.pos, k, v, end, m[r.value.v.0 := r.value.v.1]); }
    }
  }

  lemma {:induction false} PairIsShort(buf: Str, pos: nat, k: Basic, v: Ty)
    requires pos <= |buf| && IsText(k) && Good(v)
    ensures var r := DecPair(AsIs, buf, pos, [Code(k)], Print(v));
      r.Ok? ==> (k == G ==> |r.value.v.0| < Limit(1)) && ShortValue(v, r.value.v.1)
    decreases |buf| - pos, 1 + |Print(v)|, 3
  {
    hide DecValue, ShortValue, DecText, Print;
    BasicStep(AsIs, buf, pos, k);
    TextIsShort(buf, pos);
    var r := DecValue(AsIs, buf, pos, [Code(k)]);
    if r.Ok? { DecodedIsShort(buf, r.value.pos, v); }
  }

  // ---- what a short value was encoded from ----

  lemma {:induction false} ShortFromValue(t: Ty, x: Arg)
    requires Accepts(t, x) && RealMaps(x) && ShortValue(t, Abs(x))
    ensures ShortSignatures(t, x)
    decreases x
  {
    match t
    case TBasic(_) =>
    case TVariant => ShortFromValue(TypeOf(x.sig), x.inner);
    case TArray(e) => ItemsFromValues(e, x.items);
    case TDict(k, v) => EntriesFromValues(k, v, map[], x.entries);
    case TStruct(ms) =>
      MembersMatch(ms, x.items);
      MembersFromValues(ms, x.items);
  }

  lemma {:induction false} MembersMatch(ms: seq<Ty>, items: seq<Arg>)
    requires AcceptsMembers(ms, items)
    ensures |ms| == |items|
    decreases items
  {
    if items != [] { MembersMatch(ms[1..], items[1..]); }
  }

  lemma {:induction false} ItemsFromValues(e: Ty, items: seq<Arg>)
    requires AcceptsItems(e, items)
    requires forall i :: 0 <= i < |items| ==> RealMaps(items[i]) && ShortValue(e, Abs(items[i]))
    ensures ShortItems(e, items)
    decreases items
  {
    if items != [] {
      ShortFromValue(e, items[0]);
      ItemsFromValues(e, items[1..]);
    }
  }

  lemma {:induction false} MembersFromValues(ms: seq<Ty>, items: seq<Arg>)
    requires AcceptsMembers(ms, items) && |ms| == |items|
    requires forall i :: 0 <= i < |items| ==> RealMaps(items[i]) && ShortValue(ms[i], Abs(items[i]))
    ensures ShortMembers(ms, items)
    decreases items
  {
    if items != [] {
      ShortFromValue(ms[0], items[0]);
      MembersFromValues(ms[1..], items[1..]);
    }
  }

  lemma {:induction false} EntriesFromValues(k: Basic, v: Ty, m: map<Str, Value>, entries: seq<Entry>)
    requires AcceptsEntries(v, entries) && DistinctKeys(entries)
    requires forall i :: 0 <= i < |entries| ==> RealMaps(entries[i].val)
    requires ShortMap(k, v, AbsEntries(m, entries))
    ensures ShortEntries(k, v, entries)
    decreases entries
  {
    if entries != [] {
      EntriesAssigned(m, entries);
      assert entries[0] in entries;
      ShortFromValue(v, entries[0].val);
      EntriesFromValues(k, v, m[entries[0].key := Abs(entries[0].val)], entries[1..]);
    }
  }

  // ---- under 4 GiB ----

  /** What comes back had no long 'g' text or inline signature, whatever its size. */
  lemma {:induction false} LongNeverBack(buf: Str, pos: nat, t: Ty, x: Arg)
    requires Encodable(t, x) && RealMaps(x) && pos <= |buf|
    ensures var r := DecValue(AsIs, buf, pos, Print(t));
      r.Ok? && r.value.v == Abs(x) ==> ShortSignatures(t, x)
  {
    hide DecValue, ShortValue, Accepts, RealMaps, ShortSignatures, Print, Good;
    DecodedIsShort(buf, pos, t);
    var r := DecValue(AsIs, buf, pos, Print(t));
    if r.Ok? && r.value.v == Abs(x) { ShortFromValue(t, x); }
  }

  /** A value of less than 4 GiB, maps included, comes back if and only if its 'g' texts and
      inline signatures are under 256 bytes. */
  lemma {:induction false} SmallRoundTripIff(buf: Str, pos: nat, t: Ty, x: Arg)
    requires Encodable(t, x) && RealMaps(x)
    requires var e := EncValue(pos, Print(t), x);
      e.Ok? ==> |e.value.bytes| < TWO_TO_THE_32 && At(buf, pos, e.value.bytes)
    ensures var e := EncValue(pos, Print(t), x);
      && e.Ok?
      && (DecValue(AsIs, buf, pos, Print(t)) == Ok(Got(Abs(x), pos + |e.value.bytes|)) <==> ShortSignatures(t, x))
  {
    hide EncValue, DecValue, Accepts, RealMaps, ShortSignatures, Print, Good, View, Limit, Abs;
    LimitValues();
    ValueRT(AsIs, buf, pos, t, x);
    AtBound(buf, pos, EncValue(pos, Print(t), x).value.bytes);
    LongNeverBack(buf, pos, t, x);
    if ShortSignatures(t, x) { SmallIsExact(pos, t, x); }
  }
}
