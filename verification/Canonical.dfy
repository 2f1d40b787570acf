/** Decoded values can be encoded again, and the order in which a map is walked does not matter. */
module Canonical {
  import opened Bytes
  import opened Signature
  import opened Values
  import opened Wire
  import opened RoundTrip
  import opened Decoding
  import opened Exactness
  import opened Shortness

  /** Two enumerations of one Go map denote the same map. */
  lemma {:induction false} EnumerationsAgree(a: seq<Entry>, b: seq<Entry>)
    requires DistinctKeys(a) && DistinctKeys(b) && forall e :: e in a <==> e in b
    ensures Abs(Dict(a)) == Abs(Dict(b))
  {
    EntriesAssigned(map[], a);
    EntriesAssigned(map[], b);
    var m, n := AbsEntries(map[], a), AbsEntries(map[], b);
    assert Keys(a) == Keys(b);
    forall k | k in m
      ensures m[k] == n[k]
    {
      var e :| e in a && e.key == k;
    }
  }

  /** `y` is `x` with its maps, at any depth, walked in other orders. */
  ghost predicate Reordered(x: Arg, y: Arg)
    decreases x, 1
  {
    match x
    case Prim(_) => y == x
    case Opaque => y == x
    case Slice(kind, items) => y.Slice? && y.kind == kind && AllReordered(items, y.items)
    case Variant(sig, inner) => y.Variant? && y.sig == sig && Reordered(inner, y.inner)
    case Dict(entries) =>
      && y.Dict? && DistinctKeys(entries) && DistinctKeys(y.entries) && Keys(entries) == Keys(y.entries)
      && EachFound(entries, y.entries)
  }

  ghost predicate AllReordered(items: seq<Arg>, others: seq<Arg>)
    decreases items, 0
  {
    |items| == |others|
    && (items == [] || (Reordered(items[0], others[0]) && AllReordered(items[1..], others[1..])))
  }

  /** Every entry is among the others, its value walked in another order. */
  ghost predicate EachFound(entries: seq<Entry>, others: seq<Entry>)
    decreases entries, 3
  {
    entries == [] || (FoundIn(entries[0], others) && EachFound(entries[1..], others))
  }

  ghost predicate FoundIn(e: Entry, others: seq<Entry>)
    decreases e, 2
  {
    exists j :: 0 <= j < |others| && others[j].key == e.key && Reordered(e.val, others[j].val)
  }

  lemma {:induction false} ReorderedAbs(x: Arg, y: Arg)
    requires Reordered(x, y)
    ensures Abs(x) == Abs(y)
    decreases x, 1
  {
    match x
    case Prim(_) =>
    case Opaque =>
    case Slice(_, items) => AllReorderedAbs(items, y.items);
    case Variant(_, inner) => ReorderedAbs(inner, y.inner);
    case Dict(entries) =>
      EachFoundAbs(entries, y.entries);
      SameMap(entries, y.entries);
  }

  lemma {:induction false} SameMap(entries: seq<Entry>, others: seq<Entry>)
    requires DistinctKeys(entries) && DistinctKeys(others) && Keys(entries) == Keys(others)
    requires forall e :: e in entries ==> exists f :: f in others && f.key == e.key && Abs(f.val) == Abs(e.val)
    ensures Abs(Dict(entries)) == Abs(Dict(others))
  {
    hide DistinctKeys;
    EntriesAssigned(map[], entries);
    EntriesAssigned(map[], others);
    var m, n := AbsEntries(map[], entries), AbsEntries(map[], others);
    forall k | k in m
      ensures k in n && m[k] == n[k]
    {
      var e :| e in entries && e.key == k;
      var f :| f in others && f.key == e.key && Abs(f.val) == Abs(e.val);
    }
  }

  lemma {:induction false} AllReorderedAbs(items: seq<Arg>, others: seq<Arg>)
    requires AllReordered(items, others)
    ensures AbsAll(items) == AbsAll(others)
    decreases items, 0
  {
    if items != [] {
      ReorderedAbs(items[0], others[0]);
      AllReorderedAbs(items[1..], others[1..]);
    }
  }

  lemma {:induction false} EachFoundAbs(entries: seq<Entry>, others: seq<Entry>)
    requires EachFound(entries, others)
    ensures forall e :: e in entries ==> exists f :: f in others && f.key == e.key && Abs(f.val) == Abs(e.val)
    decreases entries, 3
  {
    if entries != [] {
      var e := entries[0];
      var j :| 0 <= j < |others| && others[j].key == e.key && Reordered(e.val, others[j].val);
      ReorderedAbs(e.val, others[j].val);
      EachFoundAbs(entries[1..], others);
      assert others[j] in others;
      assert forall f :: f in entries ==> f == e || f in entries[1..];
    }
  }

  lemma {:induction false} ReorderedAccepted(t: Ty, x: Arg, y: Arg)
    requires Accepts(t, x) && Reordered(x, y)
    ensures Accepts(t, y)
    decreases x, 1
  {
    match t
    case TBasic(_) =>
    case TVariant => ReorderedAccepted(TypeOf(x.sig), x.inner, y.inner);
    case TArray(e) => ItemsReordered(e, x.items, y.items);
    case TStruct(ms) => MembersReordered(ms, x.items, y.items);
    case TDict(_, v) =>
      forall j | 0 <= j < |y.entries|
        ensures Accepts(v, y.entries[j].val)
      {
        assert y.entries[j].key in Keys(y.entries);
        var i :| 0 <= i < |x.entries| && x.entries[i].key == y.entries[j].key;
        EntryReordered(v, x.entries, y.entries, i, j);
      }
      EachAccepted(v, y.entries);
  }

  lemma {:induction false} ItemsReordered(e: Ty, items: seq<Arg>, others: seq<Arg>)
    requires AcceptsItems(e, items) && AllReordered(items, others)
    ensures AcceptsItems(e, others)
    decreases items, 0
  {
    if items != [] {
      ReorderedAccepted(e, items[0], others[0]);
      ItemsReordered(e, items[1..], others[1..]);
    }
  }

  lemma {:induction false} MembersReordered(ms: seq<Ty>, items: seq<Arg>, others: seq<Arg>)
    requires AcceptsMembers(ms, items) && AllReordered(items, others)
    ensures AcceptsMembers(ms, others)
    decreases items, 0
  {
    if items != [] {
      ReorderedAccepted(ms[0], items[0], others[0]);
      MembersReordered(ms[1..], items[1..], others[1..]);
    }
  }

  /** The entries of one key, wherever they stand. */
  lemma {:induction false} EntryReordered(v: Ty, entries: seq<Entry>, others: seq<Entry>, i: nat, j: nat)
    requires AcceptsEntries(v, entries) && EachFound(entries, others) && DistinctKeys(others)
    requires i < |entries| && j < |others| && entries[i].key == others[j].key
    ensures Accepts(v, others[j].val)
    decreases entries, 3
  {
    if i == 0 {
      var h :| 0 <= h < |others| && others[h].key == entries[0].key && Reordered(entries[0].val, others[h].val);
      assert h == j;
      ReorderedAccepted(v, entries[0].val, others[j].val);
    } else {
      EntryReordered(v, entries[1..], others, i - 1, j);
    }
  }

  lemma {:induction false} EachAccepted(v: Ty, entries: seq<Entry>)
    requires forall j :: 0 <= j < |entries| ==> Accepts(v, entries[j].val)
    ensures AcceptsEntries(v, entries)
  {
    if entries != [] { EachAccepted(v, entries[1..]); }
  }

  /** However the maps inside a value are walked, at any depth, and wherever the two
      encodings lie, both are accepted and they decode to the same value. */
  lemma {:induction false} OrderIndependent(t: Ty, x: Arg, buf1: Str, pos1: nat, y: Arg, buf2: Str, pos2: nat)
    requires Encodable(t, x) && Reordered(x, y)
    ensures var e := EncValue(pos1, Print(t), x);
      var f := EncValue(pos2, Print(t), y);
      && e.Ok? && f.Ok?
      && (e.value.exact && At(buf1, pos1, e.value.bytes) && f.value.exact && At(buf2, pos2, f.value.bytes) ==>
            var d1, d2 := DecValue(AsIs, buf1, pos1, Print(t)), DecValue(AsIs, buf2, pos2, Print(t));
            d1.Ok? && d2.Ok? && d1.value.v == d2.value.v)
  {
    hide EncValue, DecValue, Reordered, Accepts, Print, View;
    ReorderedAbs(x, y);
    ReorderedAccepted(t, x, y);
    ValueRT(AsIs, buf1, pos1, t, x);
    ValueRT(AsIs, buf2, pos2, t, y);
  }

  /** Every decoded value has an encodable form. */
  lemma {:induction false} Enumerate(v: Value) returns (x: Arg)
    ensures Plain(x) && Abs(x) == v
    decreases v, 0
  {
    match v
    case Leaf(p) => x := Prim(p);
    case List(vs) =>
      var items := EnumerateAll(vs);
      x := Slice(AnySlice, items);
    case Map(m) =>
      var entries := EnumerateKeys(v, m.Keys);
      x := Dict(entries);
      EntriesAssigned(map[], entries);
      var r := AbsEntries(map[], entries);
      forall k | k in m
        ensures r[k] == m[k]
      {
        var e :| e in entries && e.key == k;
      }
    case Boxed(sig, inner) =>
      var i := Enumerate(inner);
      x := Variant(sig, i);
    case Unknown => x := Opaque;
  }

  lemma {:induction false} EnumerateAll(vs: seq<Value>) returns (items: seq<Arg>)
    ensures AbsAll(items) == vs && forall i :: 0 <= i < |items| ==> Plain(items[i])
    decreases vs, 0
  {
    if vs == [] {
      items := [];
    } else {
      var x := Enumerate(vs[0]);
      var rest := EnumerateAll(vs[1..]);
      items := [x] + rest;
      assert items[1..] == rest;
    }
  }

  lemma {:induction false} EnumerateKeys(v: Value, keys: set<Str>) returns (entries: seq<Entry>)
    requires v.Map? && keys <= v.m.Keys
    ensures DistinctKeys(entries) && Keys(entries) == keys
    ensures forall e :: e in entries ==> e.key in v.m && Plain(e.val) && Abs(e.val) == v.m[e.key]
    decreases v, 0, keys
  {
    if keys == {} {
      entries := [];
    } else {
      var k :| k in keys;
      var x := Enumerate(v.m[k]);
      var rest := EnumerateKeys(v, keys - {k});
      entries := [Entry(k, x)] + rest;
      assert forall i :: 0 <= i < |rest| ==> rest[i].key in Keys(rest);
      assert Keys(entries) == {k} + Keys(rest);
    }
  }

  /** A plain value whose Go value is well typed is accepted. */
  lemma {:induction false} WellTypedIsAccepted(t: Ty, x: Arg)
    requires Plain(x) && WellTyped(t, Abs(x))
    ensures Accepts(t, x)
    decreases x
  {
    match t
    case TBasic(_) =>
    case TVariant => WellTypedIsAccepted(TypeOf(x.sig), x.inner);
    case TArray(e) => ItemsAccepted(e, x.items);
    case TDict(_, v) => EntriesAccepted(v, map[], x.entries);
    case TStruct(ms) => MembersAccepted(ms, x.items);
  }

  lemma {:induction false} ItemsAccepted(e: Ty, items: seq<Arg>)
    requires forall i :: 0 <= i < |items| ==> Plain(items[i]) && WellTyped(e, Abs(items[i]))
    ensures AcceptsItems(e, items)
    decreases items
  {
    if items != [] {
      WellTypedIsAccepted(e, items[0]);
      ItemsAccepted(e, items[1..]);
    }
  }

  lemma {:induction false} MembersAccepted(ms: seq<Ty>, items: seq<Arg>)
    requires |items| == |ms|
    requires forall i :: 0 <= i < |items| ==> Plain(items[i]) && WellTyped(ms[i], Abs(items[i]))
    ensures AcceptsMembers(ms, items)
    decreases items
  {
    if items != [] {
      WellTypedIsAccepted(ms[0], items[0]);
      MembersAccepted(ms[1..], items[1..]);
    }
  }

  lemma {:induction false} EntriesAccepted(v: Ty, m: map<Str, Value>, entries: seq<Entry>)
    requires DistinctKeys(entries) && forall i :: 0 <= i < |entries| ==> Plain(entries[i].val)
    requires forall k :: k in AbsEntries(m, entries) ==> WellTyped(v, AbsEntries(m, entries)[k])
    ensures AcceptsEntries(v, entries)
    decreases entries
  {
    if entries != [] {
      EntriesAssigned(m, entries);
      assert entries[0] in entries;
      WellTypedIsAccepted(v, entries[0].val);
      EntriesAccepted(v, m[entries[0].key := Abs(entries[0].val)], entries[1..]);
    }
  }

  /** Whatever bytes a value was decoded from, and however non-canonical they were, the
      value has a plain form, every plain form of it encodes, and decodes to it again if it
      takes less than 4 GiB: decoded values hold no signature too long for its length. */
  lemma {:induction false} Reencode(buf: Str, pos: nat, t: Ty, x: Arg, out: Str, at: nat)
    requires pos <= |buf| && Good(t)
    requires var d := DecValue(WholeOnly, buf, pos, Print(t)); d.Ok? && Plain(x) && Abs(x) == d.value.v
    ensures var d := DecValue(AsIs, buf, pos, Print(t));
      var e := EncValue(at, Print(t), x);
      && d.Ok? && e.Ok?
      && (|e.value.bytes| < TWO_TO_THE_32 && At(out, at, e.value.bytes) ==>
            DecValue(AsIs, out, at, Print(t)) == Ok(Got(d.value.v, at + |e.value.bytes|)))
  {
    hide EncValue, DecValue, Accepts, Good, WellTyped, Plain, RealMaps, ShortValue, Abs, View, Print, Limit;
    LimitValues();
    CheckedAgrees(WholeOnly, buf, pos, Print(t));
    Sound(buf, pos, t);
    WellTypedIsAccepted(t, x);
    PlainIsReal(x);
    DecodedIsShort(buf, pos, t);
    ShortFromValue(t, x);
    SmallIsExact(at, t, x);
    ValueRT(AsIs, out, at, t, x);
  }
}
