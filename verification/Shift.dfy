/** Offsets matter only modulo 8. */
module Shift {
  import opened Wrappers
  import opened Bytes
  import opened Signature
  import opened Values
  import opened Wire

  lemma {:induction false} WordShift(pos: nat, shift: nat, w: Width, v: nat)
    requires shift % 8 == 0
    ensures EncWord(pos + shift, w, v) == EncWord(pos, w, v)
  {
    PadShift(pos, shift, w);
  }

  lemma {:induction false} ArrayShift(pos: nat, shift: nat, c: Byte, length: nat)
    requires shift % 8 == 0
    ensures ArrayStart(pos + shift, c) == ArrayStart(pos, c) + shift
    ensures ArrayHead(pos + shift, c, length) == ArrayHead(pos, c, length)
  {
    WordShift(pos, shift, 4, length);
    PadShift(pos, shift, 4);
    PadShift(pos + Pad(pos, 4) + 4, shift, AlignmentOf(c));
  }

  lemma {:induction false} KeyShift(pos: nat, shift: nat, ks: Str, k: Str)
    requires shift % 8 == 0 && ks != []
    ensures EncKey(pos + shift, ks, k) == EncKey(pos, ks, k)
  {
    if ks != [ARRAY] && BasicOf(ks[0]).Some? {
      WordShift(pos, shift, WidthOf(BasicOf(ks[0]).value), |k|);
    }
  }

  /** Encoding at two offsets that agree modulo 8 gives the same bytes, whatever the signature and value. */
  lemma {:induction false} EncodeShift(pos: nat, shift: nat, sig: Str, x: Arg)
    requires shift % 8 == 0
    ensures EncValue(pos + shift, sig, x) == EncValue(pos, sig, x)
    decreases x, 1
  {
    hide EncVariant, EncArray, EncStruct, Pad;
    if sig == [] {
    } else if BasicOf(sig[0]).Some? {
      if x.Prim? { WordShift(pos, shift, WidthOf(BasicOf(sig[0]).value), Word(x.p)); }
    } else if sig[0] == VARIANT {
      if x.Variant? { VariantShift(pos, shift, x); }
    } else if sig[0] == ARRAY {
      if |sig| > 1 { EncArrayShift(pos, shift, sig[1..], x); }
    } else if sig[0] == OPEN_STRUCT {
      if x.Slice? && |sig| > 1 { StructShift(pos, shift, sig[1..|sig| - 1], x); }
    }
  }

  lemma {:induction false} VariantShift(pos: nat, shift: nat, x: Arg)
    requires shift % 8 == 0 && x.Variant?
    ensures EncVariant(pos + shift, x) == EncVariant(pos, x)
    decreases x, 0
  {
    hide EncValue;
    EncodeShift(pos + |EncSignature(x.sig).bytes|, shift, x.sig, x.inner);
  }

  lemma {:induction false} EncArrayShift(pos: nat, shift: nat, elem: Str, x: Arg)
    requires shift % 8 == 0 && elem != []
    ensures EncArray(pos + shift, elem, x) == EncArray(pos, elem, x)
    decreases x, 0
  {
    hide EncElements, ArrayStart, ArrayHead;
    var start := ArrayStart(pos, elem[0]);
    ElementsShift(start, shift, elem, x);
    var d := EncElements(start, elem, x);
    ArrayShift(pos, shift, elem[0], if d.Ok? then |d.value.bytes| else 0);
  }

  lemma {:induction false} StructShift(pos: nat, shift: nat, members: Str, x: Arg)
    requires shift % 8 == 0 && x.Slice?
    ensures EncStruct(pos + shift, members, x) == EncStruct(pos, members, x)
    decreases x, 0
  {
    PadShift(pos, shift, 8);
    hide EncMembers, Pad;
    MembersShift(pos + Pad(pos, 8), shift, members, x.items);
  }

  lemma {:induction false} ElementsShift(pos: nat, shift: nat, elem: Str, x: Arg)
    requires shift % 8 == 0 && elem != []
    ensures EncElements(pos + shift, elem, x) == EncElements(pos, elem, x)
    decreases x, -1
  {
    hide EncItems, EncEntries;
    if elem[0] != OPEN_DICT {
      if x.Slice? { ItemsShift(pos, shift, elem, x.items); }
    } else if SplitDictEntry(elem).Some? && x.Dict? {
      var Some((ks, vs)) := SplitDictEntry(elem);
      EntriesShift(pos, shift, ks, vs, x.entries);
    }
  }

  lemma {:induction false} ItemsShift(pos: nat, shift: nat, elem: Str, items: seq<Arg>)
    requires shift % 8 == 0
    ensures EncItems(pos + shift, elem, items) == EncItems(pos, elem, items)
    decreases items, 0
  {
    hide EncValue;
    if items != [] {
      EncodeShift(pos, shift, elem, items[0]);
      var a := EncValue(pos, elem, items[0]);
      if a.Ok? { ItemsShift(pos + |a.value.bytes|, shift, elem, items[1..]); }
    }
  }

  lemma {:induction false} MembersShift(pos: nat, shift: nat, rest: Str, items: seq<Arg>)
    requires shift % 8 == 0
    ensures EncMembers(pos + shift, rest, items) == EncMembers(pos, rest, items)
    decreases items, 0
  {
    hide EncValue;
    if rest != [] && SplitSig(rest).Some? && items != [] {
      var Some((first, tail)) := SplitSig(rest);
      EncodeShift(pos, shift, first, items[0]);
      var a := EncValue(pos, first, items[0]);
      if a.Ok? { MembersShift(pos + |a.value.bytes|, shift, tail, items[1..]); }
    }
  }

  lemma {:induction false} EntriesShift(pos: nat, shift: nat, ks: Str, vs: Str, entries: seq<Entry>)
    requires shift % 8 == 0 && ks != []
    ensures EncEntries(pos + shift, ks, vs, entries) == EncEntries(pos, ks, vs, entries)
    decreases entries, 4
  {
    hide EncPair;
    if entries != [] {
      PadShift(pos, shift, 8);
      PairShift(pos + Pad(pos, 8), shift, ks, vs, entries[0]);
      var a := EncEntry(pos, ks, vs, entries[0]);
      if a.Ok? { EntriesShift(pos + |a.value.bytes|, shift, ks, vs, entries[1..]); }
    }
  }

  lemma {:induction false} PairShift(pos: nat, shift: nat, ks: Str, vs: Str, e: Entry)
    requires shift % 8 == 0 && ks != []
    ensures EncPair(pos + shift, ks, vs, e) == EncPair(pos, ks, vs, e)
    decreases e, 2
  {
    hide EncValue, EncKey;
    KeyShift(pos, shift, ks, e.key);
    var k := EncKey(pos, ks, e.key);
    if k.Ok? { EncodeShift(pos + |k.value.bytes|, shift, vs, e.val); }
  }

  // ---- decoding ----

  /** Whole 8-byte blocks. */
  ghost predicate Blocks(pre: Str) { |pre| % 8 == 0 }

  /** The same outcome with the cursor moved on. */
  function Moved<T>(r: Outcome<Got<T>>, shift: nat): Outcome<Got<T>> {
    if r.Ok? then Ok(Got(r.value.v, r.value.pos + shift)) else r
  }

  lemma {:induction false} AlignMoves(pre: Str, buf: Str, pos: nat, w: Width)
    requires Blocks(pre) && pos <= |buf|
    ensures DecAlign(pre + buf, pos + |pre|, w)
         == var r := DecAlign(buf, pos, w); if r.Ok? then Ok(r.value + |pre|) else r
  {
    PadShift(pos, |pre|, w);
  }

  lemma {:induction false} WordMoves(pre: Str, buf: Str, pos: nat, w: Width)
    requires Blocks(pre) && pos <= |buf|
    ensures DecWord(pre + buf, pos + |pre|, w) == Moved(DecWord(buf, pos, w), |pre|)
  {
    PadShift(pos, |pre|, w);
    var a := pos + Pad(pos, w);
    if a + w <= |buf| {
      assert (pre + buf)[a + |pre|..a + |pre| + w] == buf[a..a + w];
    }
  }

  lemma {:induction false} TextMoves(pre: Str, buf: Str, pos: nat, w: Width)
    requires Blocks(pre) && pos <= |buf|
    ensures DecText(pre + buf, pos + |pre|, w) == Moved(DecText(buf, pos, w), |pre|)
  {
    WordMoves(pre, buf, pos, w);
    hide DecWord;
    var r := DecWord(buf, pos, w);
    if r.Ok? {
      var Got(n, p) := r.value;
      if p + n + 1 <= |buf| {
        assert (pre + buf)[p + |pre|..p + |pre| + n] == buf[p..p + n];
      }
    }
  }

  /** Decoding behind a prefix of whole 8-byte blocks gives the same value or failure, the
      cursor moved by the prefix. */
  lemma {:induction false} DecodeShift(c: Check, pre: Str, buf: Str, pos: nat, sig: Str)
    requires Blocks(pre) && pos <= |buf|
    ensures DecValue(c, pre + buf, pos + |pre|, sig) == Moved(DecValue(c, buf, pos, sig), |pre|)
    decreases |buf| - pos, |sig|, 2
  {
    hide DecScalar, DecVariant, DecArray, DecStruct, Pad;
    if sig == [] {
    } else if BasicOf(sig[0]).Some? {
      ScalarMoves(pre, buf, pos, BasicOf(sig[0]).value);
    } else if sig[0] == VARIANT {
      VariantMoves(c, pre, buf, pos);
    } else if sig[0] == ARRAY {
      ArrayMoves(c, pre, buf, pos, sig[1..]);
    } else if sig[0] == OPEN_STRUCT {
      AlignMoves(pre, buf, pos, 8);
      if |sig| > 1 { StructMoves(c, pre, buf, pos, sig[1..|sig| - 1]); }
    }
  }

  lemma {:induction false} ScalarMoves(pre: Str, buf: Str, pos: nat, b: Basic)
    requires Blocks(pre) && pos <= |buf|
    ensures DecScalar(pre + buf, pos + |pre|, b) == Moved(DecScalar(buf, pos, b), |pre|)
  {
    WordMoves(pre, buf, pos, WidthOf(b));
    TextMoves(pre, buf, pos, WidthOf(b));
    hide DecWord, DecText, FromWord;
  }

  /** A variant from its signature and the value decoded by it. */
  ghost function BoxedBy(c: Check, s: Outcome<Got<Str>>, v: Outcome<Got<Value>>): Outcome<Got<Value>> {
    if !s.Ok? then s.PropagateFailure()
    else if !Passes(c, s.value.v) then BadSig
    else if v.Ok? then Ok(Got(Boxed(s.value.v, v.value.v), v.value.pos))
    else v
  }

  lemma {:induction false} VariantIsBoxed(c: Check, buf: Str, pos: nat)
    requires pos <= |buf|
    ensures var s := DecText(buf, pos, 1);
      DecVariant(c, buf, pos) == BoxedBy(c, s, if s.Ok? then DecValue(c, buf, s.value.pos, s.value.v) else Err)
  {
    hide DecText, DecValue, Complete;
  }

  lemma {:induction false} VariantMoves(c: Check, pre: Str, buf: Str, pos: nat)
    requires Blocks(pre) && pos <= |buf|
    ensures DecVariant(c, pre + buf, pos + |pre|) == Moved(DecVariant(c, buf, pos), |pre|)
    decreases |buf| - pos, 0, 1
  {
    hide DecText, DecValue, DecVariant, Blocks, BoxedBy, Complete;
    TextMoves(pre, buf, pos, 1);
    VariantIsBoxed(c, buf, pos);
    VariantIsBoxed(c, pre + buf, pos + |pre|);
    var s := DecText(buf, pos, 1);
    if s.Ok? {
      DecodeShift(c, pre, buf, s.value.pos, s.value.v);
      BoxedMoves(c, s, DecValue(c, buf, s.value.pos, s.value.v), |pre|);
    } else {
      BoxedMoves(c, s, Err, |pre|);
    }
  }

  lemma {:induction false} BoxedMoves(c: Check, s: Outcome<Got<Str>>, v: Outcome<Got<Value>>, shift: nat)
    ensures BoxedBy(c, Moved(s, shift), Moved(v, shift)) == Moved(BoxedBy(c, s, v), shift)
  {
  }

  lemma {:induction false} StructMoves(c: Check, pre: Str, buf: Str, pos: nat, members: Str)
    requires Blocks(pre) && pos <= |buf|
    ensures DecStruct(c, pre + buf, pos + |pre|, members) == Moved(DecStruct(c, buf, pos, members), |pre|)
    decreases |buf| - pos, |members|, 4
  {
    hide DecMembers, Blocks;
    AlignMoves(pre, buf, pos, 8);
    var a := DecAlign(buf, pos, 8);
    if a.Ok? {
      assert DecAlign(pre + buf, pos + |pre|, 8) == Ok(a.value + |pre|);
      MembersMove(c, pre, buf, a.value, members);
    }
  }

  lemma {:induction false} ArrayMoves(c: Check, pre: Str, buf: Str, pos: nat, elem: Str)
    requires Blocks(pre) && pos <= |buf|
    ensures DecArray(c, pre + buf, pos + |pre|, elem) == Moved(DecArray(c, buf, pos, elem), |pre|)
    decreases |buf| - pos, |elem|, 1
  {
    hide DecElements, DecWord, AlignmentOf;
    WordMoves(pre, buf, pos, 4);
    var r := DecWord(buf, pos, 4);
    if r.Ok? && elem != [] {
      AlignMoves(pre, buf, r.value.pos, AlignmentOf(elem[0]));
      var q := DecAlign(buf, r.value.pos, AlignmentOf(elem[0]));
      if q.Ok? && q.value + r.value.v <= |buf| {
        ElementsMove(c, pre, buf, q.value, elem, q.value + r.value.v);
      }
      hide DecAlign;
    }
  }

  lemma {:induction false} ElementsMove(c: Check, pre: Str, buf: Str, pos: nat, elem: Str, end: nat)
    requires Blocks(pre) && pos <= |buf| && elem != []
    ensures DecElements(c, pre + buf, pos + |pre|, elem, end + |pre|)
         == Moved(DecElements(c, buf, pos, elem, end), |pre|)
    decreases |buf| - pos, |elem|, 6
  {
    hide DecItems, DecEntries, SplitSig;
    if elem[0] != OPEN_DICT {
      ItemsMove(c, pre, buf, pos, elem, end);
    } else if SplitDictEntry(elem).Some? {
      var Some((ks, vs)) := SplitDictEntry(elem);
      EntriesMove(c, pre, buf, pos, ks, vs, end, map[]);
    }
  }

  lemma {:induction false} ItemsMove(c: Check, pre: Str, buf: Str, pos: nat, elem: Str, end: nat)
    requires Blocks(pre) && pos <= |buf|
    ensures DecItems(c, pre + buf, pos + |pre|, elem, end + |pre|) == Moved(DecItems(c, buf, pos, elem, end), |pre|)
    decreases |buf| - pos, |elem|, 3
  {
    hide DecValue;
    if pos < end {
      DecodeShift(c, pre, buf, pos, elem);
      var r := DecValue(c, buf, pos, elem);
      if r.Ok? && r.value.pos > pos { ItemsMove(c, pre, buf, r.value.pos, elem, end); }
    }
  }

  lemma {:induction false} MembersMove(c: Check, pre: Str, buf: Str, pos: nat, rest: Str)
    requires Blocks(pre) && pos <= |buf|
    ensures DecMembers(c, pre + buf, pos + |pre|, rest) == Moved(DecMembers(c, buf, pos, rest), |pre|)
    decreases |buf| - pos, |rest|, 3
  {
    hide DecValue;
    if rest != [] && SplitSig(rest).Some? {
      var Some((first, tail)) := SplitSig(rest);
      assert |first| + |tail| == |rest|;
      hide SplitSig;
      DecodeShift(c, pre, buf, pos, first);
      var r := DecValue(c, buf, pos, first);
      if r.Ok? { MembersMove(c, pre, buf, r.value.pos, tail); }
    }
  }

  lemma {:induction false} EntriesMove(c: Check, pre: Str, buf: Str, pos: nat, ks: Str, vs: Str, end: nat,
                                       m: map<Str, Value>)
    requires Blocks(pre) && pos <= |buf|
    ensures DecEntries(c, pre + buf, pos + |pre|, ks, vs, end + |pre|, m)
         == Moved(DecEntries(c, buf, pos, ks, vs, end, m), |pre|)
    decreases |buf| - pos, |ks| + |vs|, 5
  {
    hide DecPair;
    if pos < end {
      AlignMoves(pre, buf, pos, 8);
      if DecAlign(buf, pos, 8).Ok? { PairMoves(c, pre, buf, pos + Pad(pos, 8), ks, vs); }
      hide Pad;
      var r := DecEntry(c, buf, pos, ks, vs);
      if r.Ok? { EntriesMove(c, pre, buf, r.value.pos, ks, vs, end, m[r.value.v.0 := r.value.v.1]); }
    }
  }

  lemma {:induction false} PairMoves(c: Check, pre: Str, buf: Str, pos: nat, ks: Str, vs: Str)
    requires Blocks(pre) && pos <= |buf|
    ensures DecPair(c, pre + buf, pos + |pre|, ks, vs) == Moved(DecPair(c, buf, pos, ks, vs), |pre|)
    decreases |buf| - pos, |ks| + |vs|, 3
  {
    hide DecValue;
    DecodeShift(c, pre, buf, pos, ks);
    var r := DecValue(c, buf, pos, ks);
    if r.Ok? && r.value.v.Leaf? { DecodeShift(c, pre, buf, r.value.pos, vs); }
  }
}
