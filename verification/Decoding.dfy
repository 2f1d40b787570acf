/** Decoding arbitrary bytes: it ends, stays in bounds, and yields well-typed values,
    unless an inline variant signature is not one complete supported type. */
module Decoding {
  import opened Wrappers
  import opened Bytes
  import opened Signature
  import opened Values
  import opened Wire

  /** The result of the code is the one with a check, unless the check failed. */
  ghost predicate Agree<T(!new)>(checked: Outcome<T>, asIs: Outcome<T>) {
    checked == BadSig || asIs == checked
  }

  /** The code does not check inline signatures; where all pass, a check is invisible. */
  lemma {:induction false} CheckedAgrees(check: Check, buf: Str, pos: nat, sig: Str)
    requires pos <= |buf|
    ensures Agree(DecValue(check, buf, pos, sig), DecValue(AsIs, buf, pos, sig))
    decreases |buf| - pos, |sig|, 2
  {
    if sig == [] || BasicOf(sig[0]).Some? {
    } else if sig[0] == VARIANT {
      hide DecVariant;
      VariantAgrees(check, buf, pos);
    } else if sig[0] == ARRAY {
      hide DecArray;
      ArrayAgrees(check, buf, pos, sig[1..]);
    } else if sig[0] == OPEN_STRUCT && |sig| > 1 && DecAlign(buf, pos, 8).Ok? {
      hide DecMembers;
      MembersAgree(check, buf, pos + Pad(pos, 8), sig[1..|sig| - 1]);
    }
  }

  lemma {:induction false} VariantAgrees(check: Check, buf: Str, pos: nat)
    requires pos <= |buf|
    ensures Agree(DecVariant(check, buf, pos), DecVariant(AsIs, buf, pos))
    decreases |buf| - pos, 0, 1
  {
    hide DecValue;
    var r := DecText(buf, pos, 1);
    if r.Ok? { CheckedAgrees(check, buf, r.value.pos, r.value.v); }
  }

  lemma {:induction false} ArrayAgrees(check: Check, buf: Str, pos: nat, elem: Str)
    requires pos <= |buf|
    ensures Agree(DecArray(check, buf, pos, elem), DecArray(AsIs, buf, pos, elem))
    decreases |buf| - pos, |elem|, 1
  {
    hide DecItems, DecEntries;
    var r := DecWord(buf, pos, 4);
    if r.Ok? && elem != [] {
      var q := DecAlign(buf, r.value.pos, AlignmentOf(elem[0]));
      if q.Ok? && q.value + r.value.v <= |buf| {
        ElementsAgree(check, buf, q.value, elem, q.value + r.value.v);
      }
    }
  }

  lemma {:induction false} ElementsAgree(check: Check, buf: Str, pos: nat, elem: Str, end: nat)
    requires pos <= |buf| && elem != []
    ensures Agree(DecElements(check, buf, pos, elem, end), DecElements(AsIs, buf, pos, elem, end))
    decreases |buf| - pos, |elem|, 6
  {
    hide DecItems, DecEntries, SplitSig;
    if elem[0] != OPEN_DICT {
      ItemsAgree(check, buf, pos, elem, end);
    } else if SplitDictEntry(elem).Some? {
      var Some((ks, vs)) := SplitDictEntry(elem);
      EntriesAgree(check, buf, pos, ks, vs, end, map[]);
    }
  }

  lemma {:induction false} ItemsAgree(check: Check, buf: Str, pos: nat, elem: Str, end: nat)
    requires pos <= |buf|
    ensures Agree(DecItems(check, buf, pos, elem, end), DecItems(AsIs, buf, pos, elem, end))
    decreases |buf| - pos, |elem|, 3
  {
    hide DecValue;
    if pos < end {
      CheckedAgrees(check, buf, pos, elem);
      var r := DecValue(check, buf, pos, elem);
      if r.Ok? && r.value.pos > pos { ItemsAgree(check, buf, r.value.pos, elem, end); }
    }
  }

  lemma {:induction false} MembersAgree(check: Check, buf: Str, pos: nat, rest: Str)
    requires pos <= |buf|
    ensures Agree(DecMembers(check, buf, pos, rest), DecMembers(AsIs, buf, pos, rest))
    decreases |buf| - pos, |rest|, 3
  {
    hide DecValue;
    if rest != [] && SplitSig(rest).Some? {
      var Some((first, tail)) := SplitSig(rest);
      assert |first| + |tail| == |rest|;
      hide SplitSig;
      CheckedAgrees(check, buf, pos, first);
      var r := DecValue(check, buf, pos, first);
      if r.Ok? { MembersAgree(check, buf, r.value.pos, tail); }
    }
  }

  lemma {:induction false} EntriesAgree(check: Check, buf: Str, pos: nat, ks: Str, vs: Str, end: nat,
                                        m: map<Str, Value>)
    requires pos <= |buf|
    ensures Agree(DecEntries(check, buf, pos, ks, vs, end, m), DecEntries(AsIs, buf, pos, ks, vs, end, m))
    decreases |buf| - pos, |ks| + |vs|, 5
  {
    hide DecValue, DecPair;
    if pos < end && DecAlign(buf, pos, 8).Ok? {
      PairAgrees(check, buf, pos + Pad(pos, 8), ks, vs);
      var r := DecEntry(check, buf, pos, ks, vs);
      if r.Ok? { EntriesAgree(check, buf, r.value.pos, ks, vs, end, m[r.value.v.0 := r.value.v.1]); }
    }
  }

  lemma {:induction false} PairAgrees(check: Check, buf: Str, pos: nat, ks: Str, vs: Str)
    requires pos <= |buf|
    ensures Agree(DecPair(check, buf, pos, ks, vs), DecPair(AsIs, buf, pos, ks, vs))
    decreases |buf| - pos, |ks| + |vs|, 3
  {
    hide DecValue;
    CheckedAgrees(check, buf, pos, ks);
    var r := DecValue(check, buf, pos, ks);
    if r.Ok? && r.value.v.Leaf? { CheckedAgrees(check, buf, r.value.pos, vs); }
  }

  /** The decoder returned, with a value or with an error. */
  predicate Returns<T(!new)>(r: Outcome<T>) { !r.Panic? && !r.Hang? }

  /** Checked decoding at a supported type always returns, strictly advances on
      success, and yields a value of that type. */
  lemma {:induction false} Sound(buf: Str, pos: nat, t: Ty)
    requires pos <= |buf| && Good(t)
    ensures var r := DecValue(WholeOnly, buf, pos, Print(t));
      Returns(r) && (r.Ok? ==> pos < r.value.pos <= |buf| && WellTyped(t, r.value.v))
    decreases |buf| - pos, |Print(t)|, 2
  {
    hide DecValue, DecArray, DecVariant, DecStruct;
    match t
    case TBasic(b) =>
      BasicStep(WholeOnly, buf, pos, b);
    case TVariant =>
      VariantStep(WholeOnly, buf, pos, Opaque);
      VariantSound(buf, pos);
    case TArray(e) =>
      ArrayStep(WholeOnly, buf, pos, Print(e), Opaque);
      ArraySound(buf, pos, t, Print(e));
    case TDict(k, v) =>
      ArrayStep(WholeOnly, buf, pos, PrintEntry(k, v), Opaque);
      ArraySound(buf, pos, t, PrintEntry(k, v));
    case TStruct(ms) =>
      StructStep(WholeOnly, buf, pos, PrintAll(ms), Opaque);
      StructSound(buf, pos, ms);
  }

  lemma {:induction false} StructSound(buf: Str, pos: nat, ms: seq<Ty>)
    requires pos <= |buf| && Good(TStruct(ms))
    ensures var r := DecStruct(WholeOnly, buf, pos, PrintAll(ms));
      Returns(r) && (r.Ok? ==> pos < r.value.pos && WellTyped(TStruct(ms), r.value.v))
    decreases |buf| - pos, |PrintAll(ms)|, 4
  {
    if pos + Pad(pos, 8) <= |buf| {
      MembersSound(buf, pos + Pad(pos, 8), ms);
    }
    hide DecMembers;
  }

  lemma {:induction false} VariantSound(buf: Str, pos: nat)
    requires pos <= |buf|
    ensures var r := DecVariant(WholeOnly, buf, pos);
      Returns(r) && (r.Ok? ==> pos < r.value.pos <= |buf| && WellTyped(TVariant, r.value.v))
    decreases |buf| - pos, 0, 1
  {
    hide DecValue;
    var r := DecText(buf, pos, 1);
    if r.Ok? && Complete(r.value.v) {
      Sound(buf, r.value.pos, TypeOf(r.value.v));
    }
  }

  /** Arrays and dicts alike: `elem` is what follows the 'a'. */
  lemma {:induction false} ArraySound(buf: Str, pos: nat, t: Ty, elem: Str)
    requires pos <= |buf| && Good(t)
    requires (t.TArray? && elem == Print(t.elem)) || (t.TDict? && elem == PrintEntry(t.key, t.val))
    ensures var r := DecArray(WholeOnly, buf, pos, elem);
      Returns(r) && (r.Ok? ==> pos < r.value.pos <= |buf| && WellTyped(t, r.value.v))
    decreases |buf| - pos, |elem|, 1
  {
    hide DecElements, DecWord, AlignmentOf;
    var w := DecWord(buf, pos, 4);
    if w.Ok? {
      var a := DecAlign(buf, w.value.pos, AlignmentOf(elem[0]));
      if a.Ok? && a.value + w.value.v <= |buf| {
        ElementsSound(buf, a.value, t, elem, a.value + w.value.v);
      }
    }
  }

  lemma {:induction false} ElementsSound(buf: Str, pos: nat, t: Ty, elem: Str, end: nat)
    requires pos <= |buf| && Good(t)
    requires (t.TArray? && elem == Print(t.elem)) || (t.TDict? && elem == PrintEntry(t.key, t.val))
    ensures var r := DecElements(WholeOnly, buf, pos, elem, end);
      Returns(r) && (r.Ok? ==> WellTyped(t, r.value.v))
    decreases |buf| - pos, |elem|, 6
  {
    hide DecItems, DecEntries;
    if t.TArray? {
      PrintStart(t.elem);
      ItemsSound(buf, pos, t.elem, end);
    } else {
      SplitDictEntryPrint(t.key, t.val);
      hide SplitDictEntry;
      EntriesSound(buf, pos, t.key, t.val, end, map[]);
    }
  }

  lemma {:induction false} ItemsSound(buf: Str, pos: nat, e: Ty, end: nat)
    requires pos <= |buf| && Good(e)
    ensures var r := DecItems(WholeOnly, buf, pos, Print(e), end);
      Returns(r) && (r.Ok? ==> forall i :: 0 <= i < |r.value.v| ==> WellTyped(e, r.value.v[i]))
    decreases |buf| - pos, |Print(e)|, 3
  {
    hide DecValue, WellTyped;
    if pos < end {
      Sound(buf, pos, e);
      var r := DecValue(WholeOnly, buf, pos, Print(e));
      if r.Ok? { ItemsSound(buf, r.value.pos, e, end); }
    }
  }

  lemma {:induction false} MembersSound(buf: Str, pos: nat, ms: seq<Ty>)
    requires pos <= |buf| && GoodAll(ms)
    ensures var r := DecMembers(WholeOnly, buf, pos, PrintAll(ms));
      && Returns(r)
      && (r.Ok? ==>
            && |r.value.v| == |ms|
            && (ms != [] ==> pos < r.value.pos)
            && forall i :: 0 <= i < |ms| ==> WellTyped(ms[i], r.value.v[i]))
    decreases |buf| - pos, |PrintAll(ms)|, 3
  {
    if ms != [] {
      SplitPrint(ms[0], PrintAll(ms[1..]));
      hide DecValue, WellTyped, SplitSig;
      Sound(buf, pos, ms[0]);
      var r := DecValue(WholeOnly, buf, pos, Print(ms[0]));
      if r.Ok? { MembersSound(buf, r.value.pos, ms[1..]); }
    }
  }

  lemma {:induction false} EntriesSound(buf: Str, pos: nat, k: Basic, v: Ty, end: nat, m: map<Str, Value>)
    requires pos <= |buf| && IsText(k) && Good(v)
    requires forall key :: key in m ==> WellTyped(v, m[key])
    ensures var r := DecEntries(WholeOnly, buf, pos, [Code(k)], Print(v), end, m);
      Returns(r) && (r.Ok? ==> WellTyped(TDict(k, v), r.value.v))
    decreases |buf| - pos, 1 + |Print(v)|, 5
  {
    hide DecPair, Print, Good;
    if pos < end && DecAlign(buf, pos, 8).Ok? {
      PairSound(buf, pos + Pad(pos, 8), k, v);
      var r := DecEntry(WholeOnly, buf, pos, [Code(k)], Print(v));
      if r.Ok? { EntriesSound(buf, r.value.pos, k, v, end, m[r.value.v.0 := r.value.v.1]); }
    }
  }

  lemma {:induction false} PairSound(buf: Str, pos: nat, k: Basic, v: Ty)
    requires pos <= |buf| && IsText(k) && Good(v)
    ensures var r := DecPair(WholeOnly, buf, pos, [Code(k)], Print(v));
      Returns(r) && (r.Ok? ==> WellTyped(v, r.value.v.1))
    decreases |buf| - pos, 1 + |Print(v)|, 3
  {
    BasicStep(WholeOnly, buf, pos, k);
    hide DecValue, WellTyped;
    var r := DecValue(WholeOnly, buf, pos, [Code(k)]);
    if r.Ok? { Sound(buf, r.value.pos, v); }
  }

  /** The code on arbitrary bytes: decoding at a supported type always returns within
      bounds, makes progress and is well typed, provided no bad inline signature is met. */
  lemma {:induction false} DecodesArbitraryBytes(buf: Str, pos: nat, t: Ty)
    requires pos <= |buf| && Good(t) && DecValue(WholeOnly, buf, pos, Print(t)) != BadSig
    ensures var r := DecValue(AsIs, buf, pos, Print(t));
      Returns(r) && (r.Ok? ==> pos < r.value.pos <= |buf| && WellTyped(t, r.value.v))
  {
    CheckedAgrees(WholeOnly, buf, pos, Print(t));
    Sound(buf, pos, t);
  }

  /** The proviso is needed: an empty inline signature is indexed out of range. */
  lemma {:induction false} EmptyInlineSignaturePanics()
    ensures DecValue(AsIs, [0, 0], 0, Print(TVariant)) == Panic
    ensures DecValue(WholeOnly, [0, 0], 0, Print(TVariant)) == BadSig
  {
    hide Limit, LE, View, EncValue, Encodable;
    var buf: Str := [0, 0];
    VariantStep(AsIs, buf, 0, Opaque);
    VariantStep(WholeOnly, buf, 0, Opaque);
    assert DecWord(buf, 0, 1) == Ok(Got(0, 1)) by { assert buf[0..1] == [0]; }
    assert DecText(buf, 0, 1) == Ok(Got([], 2));
    assert !Complete([]);
  }

  /** And an empty struct takes no bytes, so a nonempty array of them never ends. */
  lemma {:induction false} EmptyStructElementsHang(buf: Str, pos: nat, end: nat)
    requires pos < end <= |buf| && pos % 8 == 0
    ensures DecItems(AsIs, buf, pos, [OPEN_STRUCT, CLOSE_STRUCT], end) == Hang
  {
    var sig := [OPEN_STRUCT, CLOSE_STRUCT];
    assert sig == [OPEN_STRUCT] + [] + [CLOSE_STRUCT];
    StructStep(AsIs, buf, pos, [], Opaque);
    assert DecStruct(AsIs, buf, pos, []) == Ok(Got(List([]), pos));
    hide DecStruct;
    assert DecValue(AsIs, buf, pos, sig) == Ok(Got(List([]), pos));
  }

  /** Such an array inside a variant: the signature "a()", a length of one, and one byte. */
  lemma {:induction false} EmptyStructsInVariantHang()
    ensures var buf: Str := [3, ARRAY, OPEN_STRUCT, CLOSE_STRUCT, 0, 0, 0, 0, 1, 0, 0, 0, 0, 0, 0, 0, 0];
      DecValue(AsIs, buf, 0, Print(TVariant)) == Hang
  {
    hide Limit, LE, View, EncValue, DecValue, DecItems, Complete;
    var elem := [OPEN_STRUCT, CLOSE_STRUCT];
    var sig := [ARRAY] + elem;
    var buf: Str := [3, ARRAY, OPEN_STRUCT, CLOSE_STRUCT, 0, 0, 0, 0, 1, 0, 0, 0, 0, 0, 0, 0, 0];
    VariantStep(AsIs, buf, 0, Opaque);
    assert DecText(buf, 0, 1) == Ok(Got(sig, 5)) by {
      assert buf[0..1] == [3] && UnLE([3]) == 3;
      assert buf[1..4] == sig;
    }
    ArrayStep(AsIs, buf, 5, elem, Opaque);
    assert Pad(5, 4) == 3;
    assert DecWord(buf, 5, 4) == Ok(Got(1, 12)) by {
      assert buf[8..12] == [1, 0, 0, 0];
      SmallWord(1);
    }
    assert DecAlign(buf, 12, 8) == Ok(16);
    EmptyStructElementsHang(buf, 16, 17);
    assert DecElements(AsIs, buf, 16, elem, 17) == Hang;
    assert DecArray(AsIs, buf, 5, elem) == Hang;
  }

  lemma {:induction false} SmallWord(n: Byte)
    ensures UnLE([n, 0, 0, 0]) == n
  {
    var z: Str := [n, 0, 0, 0];
    assert z[1..] == [0, 0, 0] && z[1..][1..] == [0, 0] && z[1..][1..][1..] == [0];
    assert UnLE([0]) == 0 && UnLE([0, 0]) == 0 && UnLE([0, 0, 0]) == 0;
  }
}
