/** Exactly which values come back from the decoder, lengths that are cut included. */
module Survival {
  import opened Wrappers
  import opened Bytes
  import opened Signature
  import opened Values
  import opened Wire
  import opened RoundTrip
  import opened Exactness
  import opened Shortness

  /** Where the decoder takes an array at `pos` to end: by its length, of which it has the low four bytes. */
  function CutEnd(start: nat, size: nat): nat { start + size % Limit(4) }

  /** Encoded at `pos` as a `t`, `x` comes back. Texts fit the width of their length, inline
      signatures fit a byte, and every element starts before the end that the array's
      length gives: an element that does is finished, also past that end. */
  ghost predicate Survives(pos: nat, t: Ty, x: Arg)
    decreases x, 1
  {
    match t
    case TBasic(b) => x.Prim? && (IsText(b) && x.p.VString? ==> |x.p.s| < Limit(WidthOf(b)))
    case TVariant =>
      x.Variant? && Complete(x.sig) && |x.sig| < Limit(1)
      && Survives(pos + |EncSignature(x.sig).bytes|, TypeOf(x.sig), x.inner)
    case TArray(e) =>
      var start := ArrayStart(pos, Print(e)[0]);
      x.Slice? && ItemsSurvive(start, e, x.items, CutEnd(start, Size(EncItems(start, Print(e), x.items))))
    case TDict(k, v) =>
      var start := ArrayStart(pos, OPEN_DICT);
      x.Dict?
      && EntriesSurvive(start, k, v, x.entries, CutEnd(start, Size(EncEntries(start, [Code(k)], Print(v), x.entries))))
    case TStruct(ms) => x.Slice? && MembersSurvive(pos + Pad(pos, 8), ms, x.items)
  }

  ghost predicate ItemsSurvive(pos: nat, e: Ty, items: seq<Arg>, stop: nat)
    decreases items, 0
  {
    items == [] ||
    (pos < stop && Survives(pos, e, items[0])
     && ItemsSurvive(pos + Size(EncValue(pos, Print(e), items[0])), e, items[1..], stop))
  }

  ghost predicate MembersSurvive(pos: nat, ms: seq<Ty>, items: seq<Arg>)
    decreases items, 0
  {
    ms == [] || items == [] ||
    (Survives(pos, ms[0], items[0])
     && MembersSurvive(pos + Size(EncValue(pos, Print(ms[0]), items[0])), ms[1..], items[1..]))
  }

  ghost predicate EntriesSurvive(pos: nat, k: Basic, v: Ty, entries: seq<Entry>, stop: nat)
    decreases entries, 4
  {
    entries == [] ||
    (pos < stop && EntrySurvives(pos, k, v, entries[0])
     && EntriesSurvive(pos + Size(EncEntry(pos, [Code(k)], Print(v), entries[0])), k, v, entries[1..], stop))
  }

  ghost predicate EntrySurvives(pos: nat, k: Basic, v: Ty, e: Entry)
    decreases e, 2
  {
    var a := pos + Pad(pos, 8);
    |e.key| < Limit(WidthOf(k)) && Survives(a + Size(EncKey(a, [Code(k)], e.key)), v, e.val)
  }

  /** Whatever is inside a map survives: only the length of the map itself may be cut. Behind
      a length cut inside an entry the decoder reads text as structure, and entries it finds
      there may replace those it got wrong. */
  ghost predicate MapsIntact(pos: nat, t: Ty, x: Arg)
    decreases x, 1
  {
    match t
    case TBasic(_) => true
    case TVariant =>
      x.Variant? && Complete(x.sig) ==> MapsIntact(pos + |EncSignature(x.sig).bytes|, TypeOf(x.sig), x.inner)
    case TArray(e) => x.Slice? ==> ItemsIntact(ArrayStart(pos, Print(e)[0]), e, x.items)
    case TDict(k, v) =>
      x.Dict? ==> DistinctKeys(x.entries) && EachSurvives(ArrayStart(pos, OPEN_DICT), k, v, x.entries)
    case TStruct(ms) => x.Slice? ==> MembersIntact(pos + Pad(pos, 8), ms, x.items)
  }

  ghost predicate ItemsIntact(pos: nat, e: Ty, items: seq<Arg>)
    decreases items, 0
  {
    items == [] ||
    (MapsIntact(pos, e, items[0]) && ItemsIntact(pos + Size(EncValue(pos, Print(e), items[0])), e, items[1..]))
  }

  ghost predicate MembersIntact(pos: nat, ms: seq<Ty>, items: seq<Arg>)
    decreases items, 0
  {
    ms == [] || items == [] ||
    (MapsIntact(pos, ms[0], items[0])
     && MembersIntact(pos + Size(EncValue(pos, Print(ms[0]), items[0])), ms[1..], items[1..]))
  }

  ghost predicate EachSurvives(pos: nat, k: Basic, v: Ty, entries: seq<Entry>)
    decreases entries, 4
  {
    entries == [] ||
    (EntrySurvives(pos, k, v, entries[0]) && EntryIntact(pos, k, v, entries[0])
     && EachSurvives(pos + Size(EncEntry(pos, [Code(k)], Print(v), entries[0])), k, v, entries[1..]))
  }

  ghost predicate EntryIntact(pos: nat, k: Basic, v: Ty, e: Entry)
    decreases e, 2
  {
    var a := pos + Pad(pos, 8);
    MapsIntact(a + Size(EncKey(a, [Code(k)], e.key)), v, e.val)
  }

  // ---- decoded exactly, or not to this value ----

  predicate Gives<T(==)>(r: Outcome<Got<T>>, v: T) { r.Ok? && r.value.v == v }

  /** `r` is `v` with the cursor at `end` if `ok`, and no success with `v` otherwise. */
  predicate Exactly<T(==)>(r: Outcome<Got<T>>, v: T, end: nat, ok: bool) {
    if ok then r == Ok(Got(v, end)) else !Gives(r, v)
  }

  ghost predicate Back(buf: Str, pos: nat, sig: Str, x: Arg, ok: bool) {
    var r := EncValue(pos, sig, x);
    && r.Ok? && |r.value.bytes| > 0
    && (At(buf, pos, r.value.bytes) ==>
          Exactly(DecValue(AsIs, buf, pos, sig), Abs(x), pos + |r.value.bytes|, ok))
  }

  ghost predicate ItemsBack(buf: Str, pos: nat, elem: Str, items: seq<Arg>, stop: nat, ok: bool) {
    var r := EncItems(pos, elem, items);
    && r.Ok?
    && var end := pos + |r.value.bytes|;
       At(buf, pos, r.value.bytes) && stop <= end ==>
         Exactly(DecItems(AsIs, buf, pos, elem, stop), AbsAll(items), end, ok)
  }

  ghost predicate MembersBack(buf: Str, pos: nat, rest: Str, items: seq<Arg>, ok: bool) {
    var r := EncMembers(pos, rest, items);
    && r.Ok?
    && (At(buf, pos, r.value.bytes) ==>
          Exactly(DecMembers(AsIs, buf, pos, rest), AbsAll(items), pos + |r.value.bytes|, ok))
  }

  ghost predicate EntriesBack(buf: Str, pos: nat, ks: Str, vs: Str, entries: seq<Entry>, stop: nat,
                              m: map<Str, Value>, ok: bool)
    requires ks != []
  {
    var r := EncEntries(pos, ks, vs, entries);
    && r.Ok?
    && var end := pos + |r.value.bytes|;
       At(buf, pos, r.value.bytes) && stop <= end ==>
         Exactly(DecEntries(AsIs, buf, pos, ks, vs, stop, m), Map(AbsEntries(m, entries)), end, ok)
  }

  // ---- the cases, free of types ----

  lemma {:induction false} TextBack(buf: Str, pos: nat, w: Width, s: Str)
    requires At(buf, pos, EncWord(pos, w, |s|) + (s + [0]))
    ensures Exactly(DecText(buf, pos, w), s, pos + |EncWord(pos, w, |s|)| + |s| + 1, |s| < Limit(w))
  {
    if |s| < Limit(w) {
      TextRT(buf, pos, w, s);
    } else {
      WordRoundTrip(w, |s|);
      AtSplit(buf, pos, EncWord(pos, w, |s|), s + [0]);
      AtSplit(buf, pos, Zeros(Pad(pos, w)), LE(w, |s|));
      hide LE, UnLE, Pad;
    }
  }

  lemma {:induction false} ScalarBack(buf: Str, pos: nat, b: Basic, x: Arg)
    requires x.Prim? && HasType(b, x.p)
    ensures Back(buf, pos, [Code(b)], x, IsText(b) ==> |x.p.s| < Limit(WidthOf(b)))
  {
    hide Limit, LE, UnLE, DecText, View, EncWord, FromWord;
    BasicOfCode(b);
    ScalarSize(pos, b, x.p);
    var e := EncScalar(pos, b, x.p).value;
    if At(buf, pos, e.bytes) {
      AtBound(buf, pos, e.bytes);
      BasicStep(AsIs, buf, pos, b);
      if IsText(b) {
        TextBack(buf, pos, WidthOf(b), x.p.s);
      } else {
        WordInverse(b, x.p);
        WordScalarRT(buf, pos, b, x.p);
      }
    }
  }

  lemma {:induction false} ScalarSize(pos: nat, b: Basic, p: Scalar)
    requires HasType(b, p)
    ensures |EncScalar(pos, b, p).value.bytes|
         == |EncWord(pos, WidthOf(b), Word(p))| + if IsText(b) then |p.s| + 1 else 0
    ensures |EncWord(pos, WidthOf(b), Word(p))| > 0
  {
  }

  lemma {:induction false} SignatureBack(buf: Str, pos: nat, sig: Str)
    requires At(buf, pos, EncSignature(sig).bytes)
    ensures Exactly(DecText(buf, pos, 1), sig, pos + |EncSignature(sig).bytes|, |sig| < Limit(1))
  {
    assert EncSignature(sig).bytes == EncWord(pos, 1, |sig|) + (sig + [0]);
    TextBack(buf, pos, 1, sig);
  }

  lemma {:induction false} VariantBack(buf: Str, pos: nat, x: Arg, ok: bool)
    requires x.Variant? && Complete(x.sig)
    requires Back(buf, pos + |EncSignature(x.sig).bytes|, x.sig, x.inner, ok)
    ensures Back(buf, pos, [VARIANT], x, |x.sig| < Limit(1) && ok)
  {
    hide EncValue, DecValue, Complete, Limit, View, DecText;
    VariantStep(AsIs, buf, pos, x);
    var s := EncSignature(x.sig);
    var v := EncValue(pos + |s.bytes|, x.sig, x.inner).value;
    if At(buf, pos, Cat(s, v).bytes) {
      AtBound(buf, pos, Cat(s, v).bytes);
      CatParts(buf, pos, s, v);
      SignatureBack(buf, pos, x.sig);
    }
  }

  /** The head of an array whose length may have been cut: decoding goes on to the elements, up to that length. */
  lemma {:induction false} CutHead(buf: Str, pos: nat, elem: Str, data: Str)
    requires elem != [] && At(buf, pos, ArrayHead(pos, elem[0], |data|) + data)
    ensures var start := ArrayStart(pos, elem[0]);
      && start + |data| <= |buf| && At(buf, start, data)
      && DecArray(AsIs, buf, pos, elem) == DecElements(AsIs, buf, start, elem, CutEnd(start, |data|))
  {
    hide DecElements, LE, UnLE, Limit, AlignmentOf;
    var p := pos + Pad(pos, 4) + 4;
    AtSplit3(buf, pos, EncWord(pos, 4, |data|), Zeros(Pad(p, AlignmentOf(elem[0]))), data);
    AtSplit(buf, pos, Zeros(Pad(pos, 4)), LE(4, |data|));
    WordTruncates(4, |data|);
    LimitValues();
  }

  lemma {:induction false} CutEndBound(start: nat, size: nat)
    ensures CutEnd(start, size) <= start + size
  {
    LimitValues();
  }

  lemma {:induction false} SliceBack(buf: Str, pos: nat, elem: Str, x: Arg, ok: bool)
    requires x.Slice? && elem != [] && elem[0] != OPEN_DICT
    requires var start := ArrayStart(pos, elem[0]);
      ItemsBack(buf, start, elem, x.items, CutEnd(start, Size(EncItems(start, elem, x.items))), ok)
    ensures Back(buf, pos, [ARRAY] + elem, x, ok)
  {
    hide EncValue, DecValue, EncItems, DecItems, DecArray, ArrayStart, ArrayHead, Limit, AbsAll, View, CutEnd;
    ArrayStep(AsIs, buf, pos, elem, x);
    var start := ArrayStart(pos, elem[0]);
    var d := EncItems(start, elem, x.items).value.bytes;
    CutEndBound(start, |d|);
    if At(buf, pos, ArrayHead(pos, elem[0], |d|) + d) { CutHead(buf, pos, elem, d); }
  }

  lemma {:induction false} ItemBack(buf: Str, pos: nat, elem: Str, items: seq<Arg>, stop: nat, first: bool,
                                    others: bool)
    requires items != [] && Back(buf, pos, elem, items[0], first)
    requires ItemsBack(buf, pos + Size(EncValue(pos, elem, items[0])), elem, items[1..], stop, others)
    ensures ItemsBack(buf, pos, elem, items, stop, pos < stop && first && others)
  {
    hide EncValue, DecValue, Abs, View;
    var a := EncValue(pos, elem, items[0]).value;
    var b := EncItems(pos + |a.bytes|, elem, items[1..]).value;
    if At(buf, pos, Cat(a, b).bytes) {
      AtBound(buf, pos, Cat(a, b).bytes);
      CatParts(buf, pos, a, b);
      ItemDecodes(buf, pos, elem, items, stop, pos + |a.bytes|);
    }
  }

  lemma {:induction false} ItemDecodes(buf: Str, pos: nat, elem: Str, items: seq<Arg>, stop: nat, next: nat)
    requires items != [] && pos < next <= |buf|
    requires Gives(DecValue(AsIs, buf, pos, elem), Abs(items[0])) ==> DecValue(AsIs, buf, pos, elem).value.pos == next
    ensures var all, rest := DecItems(AsIs, buf, pos, elem, stop), DecItems(AsIs, buf, next, elem, stop);
      && (Gives(all, AbsAll(items)) ==>
            pos < stop && Gives(DecValue(AsIs, buf, pos, elem), Abs(items[0])) && Gives(rest, AbsAll(items[1..])))
      && (pos < stop && Gives(DecValue(AsIs, buf, pos, elem), Abs(items[0])) && Gives(rest, AbsAll(items[1..])) ==>
            all == Ok(Got(AbsAll(items), rest.value.pos)))
  {
    hide DecValue, Abs;
    assert AbsAll(items) == [Abs(items[0])] + AbsAll(items[1..]);
    var r := DecValue(AsIs, buf, pos, elem);
    if r.Ok? && pos < stop && r.value.pos > pos {
      ConsIs(r.value.v, DecItems(AsIs, buf, r.value.pos, elem, stop), Abs(items[0]), AbsAll(items[1..]));
    }
  }

  lemma {:induction false} ConsIs(v: Value, b: Outcome<Got<seq<Value>>>, w: Value, ws: seq<Value>)
    ensures b.Ok? && [v] + b.value.v == [w] + ws ==> v == w && b.value.v == ws
  {
    if b.Ok? { assert ([v] + b.value.v)[1..] == b.value.v && ([w] + ws)[1..] == ws; }
  }

  lemma {:induction false} MemberBack(buf: Str, pos: nat, first: Str, rest: Str, items: seq<Arg>, head: bool,
                                      others: bool)
    requires items != [] && SplitSig(first + rest) == Some((first, rest)) && Back(buf, pos, first, items[0], head)
    requires MembersBack(buf, pos + Size(EncValue(pos, first, items[0])), rest, items[1..], others)
    ensures MembersBack(buf, pos, first + rest, items, head && others)
  {
    hide EncValue, DecValue, SplitSig, EncMembers, DecMembers, Abs, AbsAll, View;
    MembersUnfold(pos, first, rest, items);
    var a := EncValue(pos, first, items[0]).value;
    var p := pos + |a.bytes|;
    var b := EncMembers(p, rest, items[1..]).value;
    if At(buf, pos, Cat(a, b).bytes) {
      AtBound(buf, pos, Cat(a, b).bytes);
      CatParts(buf, pos, a, b);
      MemberDecodes(buf, pos, first, rest, items, p);
    }
  }

  lemma {:induction false} MemberDecodes(buf: Str, pos: nat, first: Str, rest: Str, items: seq<Arg>, next: nat)
    requires items != [] && SplitSig(first + rest) == Some((first, rest)) && pos <= next <= |buf|
    requires Gives(DecValue(AsIs, buf, pos, first), Abs(items[0])) ==> DecValue(AsIs, buf, pos, first).value.pos == next
    ensures var all, others := DecMembers(AsIs, buf, pos, first + rest), DecMembers(AsIs, buf, next, rest);
      && (Gives(all, AbsAll(items)) ==>
            Gives(DecValue(AsIs, buf, pos, first), Abs(items[0])) && Gives(others, AbsAll(items[1..])))
      && (Gives(DecValue(AsIs, buf, pos, first), Abs(items[0])) && Gives(others, AbsAll(items[1..])) ==>
            all == Ok(Got(AbsAll(items), others.value.pos)))
  {
    hide DecValue, SplitSig, DecMembers, Abs;
    assert AbsAll(items) == [Abs(items[0])] + AbsAll(items[1..]);
    var r := DecValue(AsIs, buf, pos, first);
    DecMembersUnfold(AsIs, buf, pos, first, rest);
    if r.Ok? { ConsIs(r.value.v, DecMembers(AsIs, buf, r.value.pos, rest), Abs(items[0]), AbsAll(items[1..])); }
  }

  lemma {:induction false} StructBack(buf: Str, pos: nat, inner: Str, x: Arg, ok: bool)
    requires x.Slice? && x.kind == AnySlice && inner != [] && x.items != []
    requires MembersBack(buf, pos + Pad(pos, 8), inner, x.items, ok)
    requires Size(EncMembers(pos + Pad(pos, 8), inner, x.items)) > 0
    ensures Back(buf, pos, [OPEN_STRUCT] + inner + [CLOSE_STRUCT], x, ok)
  {
    hide EncValue, DecValue, EncMembers, DecMembers, View, Pad, AbsAll;
    StructStep(AsIs, buf, pos, inner, x);
    var pad := Piece(Zeros(Pad(pos, 8)), true);
    var ms := EncMembers(pos + |pad.bytes|, inner, x.items).value;
    if At(buf, pos, Cat(pad, ms).bytes) {
      AtBound(buf, pos, Cat(pad, ms).bytes);
      CatParts(buf, pos, pad, ms);
    }
  }

  ghost predicate EntryBack(buf: Str, pos: nat, ks: Str, vs: Str, e: Entry)
    requires ks != []
  {
    var r := EncEntry(pos, ks, vs, e);
    && r.Ok? && |r.value.bytes| > 0
    && (At(buf, pos, r.value.bytes) ==>
          DecEntry(AsIs, buf, pos, ks, vs) == Ok(Got((e.key, Abs(e.val)), pos + |r.value.bytes|)))
  }

  ghost predicate PairBack(buf: Str, pos: nat, ks: Str, vs: Str, e: Entry)
    requires ks != []
  {
    var r := EncPair(pos, ks, vs, e);
    && r.Ok? && |r.value.bytes| > 0
    && (At(buf, pos, r.value.bytes) ==>
          DecPair(AsIs, buf, pos, ks, vs) == Ok(Got((e.key, Abs(e.val)), pos + |r.value.bytes|)))
  }

  lemma {:induction false} PairComesBack(buf: Str, pos: nat, k: Basic, vs: Str, e: Entry)
    requires IsText(k) && |e.key| < Limit(WidthOf(k))
    requires Back(buf, pos + Size(EncKey(pos, [Code(k)], e.key)), vs, e.val, true)
    ensures PairBack(buf, pos, [Code(k)], vs, e)
  {
    hide EncValue, DecValue, EncKey, Abs, Limit, View, Code;
    KeyRT(AsIs, buf, pos, k, e.key);
    KeyIsExact(pos, k, e.key);
    var a := EncKey(pos, [Code(k)], e.key).value;
    var b := EncValue(pos + |a.bytes|, vs, e.val).value;
    if At(buf, pos, Cat(a, b).bytes) {
      AtBound(buf, pos, Cat(a, b).bytes);
      CatParts(buf, pos, a, b);
    }
  }

  lemma {:induction false} KeyIsExact(pos: nat, k: Basic, key: Str)
    requires IsText(k) && |key| < Limit(WidthOf(k))
    ensures EncKey(pos, [Code(k)], key).Ok? && EncKey(pos, [Code(k)], key).value.exact
  {
    BasicOfCode(k);
  }

  lemma {:induction false} EntryComesBack(buf: Str, pos: nat, ks: Str, vs: Str, e: Entry)
    requires ks != [] && PairBack(buf, pos + Pad(pos, 8), ks, vs, e)
    ensures EntryBack(buf, pos, ks, vs, e)
  {
    hide EncPair, DecPair, Abs, View, Pad;
    var pad := Piece(Zeros(Pad(pos, 8)), true);
    var b := EncPair(pos + |pad.bytes|, ks, vs, e).value;
    if At(buf, pos, Cat(pad, b).bytes) {
      AtBound(buf, pos, Cat(pad, b).bytes);
      CatParts(buf, pos, pad, b);
    }
  }

  /** One entry more; where it is not reached, its key is missing from what comes back. */
  lemma {:induction false} EntriesStep(buf: Str, pos: nat, ks: Str, vs: Str, entries: seq<Entry>, stop: nat,
                                       m: map<Str, Value>, others: bool)
    requires ks != [] && entries != [] && EntryBack(buf, pos, ks, vs, entries[0])
    requires DistinctKeys(entries) && Keys(entries) !! m.Keys
    requires EntriesBack(buf, pos + Size(EncEntry(pos, ks, vs, entries[0])), ks, vs, entries[1..], stop,
                         m[entries[0].key := Abs(entries[0].val)], others)
    ensures EntriesBack(buf, pos, ks, vs, entries, stop, m, pos < stop && others)
  {
    hide EncEntry, DecEntry, Abs, View, AbsEntries, DistinctKeys, Keys;
    FirstAssigned(m, entries);
    var a := EncEntry(pos, ks, vs, entries[0]).value;
    var b := EncEntries(pos + |a.bytes|, ks, vs, entries[1..]).value;
    if At(buf, pos, Cat(a, b).bytes) {
      AtBound(buf, pos, Cat(a, b).bytes);
      CatParts(buf, pos, a, b);
    }
  }

  lemma {:induction false} FirstAssigned(m: map<Str, Value>, entries: seq<Entry>)
    requires entries != [] && DistinctKeys(entries) && Keys(entries) !! m.Keys
    ensures Map(AbsEntries(m, entries)) != Map(m)
    ensures AbsEntries(m, entries) == AbsEntries(m[entries[0].key := Abs(entries[0].val)], entries[1..])
  {
    EntriesAssigned(m, entries);
    assert entries[0].key in Keys(entries);
  }

  lemma {:induction false} RestDisjoint(m: map<Str, Value>, entries: seq<Entry>, v: Value)
    requires entries != [] && DistinctKeys(entries) && Keys(entries) !! m.Keys
    ensures DistinctKeys(entries[1..]) && Keys(entries[1..]) !! m[entries[0].key := v].Keys
  {
  }

  lemma {:induction false} NoEntriesBack(buf: Str, pos: nat, ks: Str, vs: Str, stop: nat, m: map<Str, Value>)
    requires ks != []
    ensures EntriesBack(buf, pos, ks, vs, [], stop, m, true)
  {
  }

  lemma {:induction false} DictBack(buf: Str, pos: nat, elem: Str, ks: Str, vs: Str, x: Arg, ok: bool)
    requires x.Dict? && elem != [] && elem[0] == OPEN_DICT && SplitDictEntry(elem) == Some((ks, vs)) && ks != []
    requires var start := ArrayStart(pos, OPEN_DICT);
      EntriesBack(buf, start, ks, vs, x.entries, CutEnd(start, Size(EncEntries(start, ks, vs, x.entries))), map[], ok)
    ensures Back(buf, pos, [ARRAY] + elem, x, ok)
  {
    hide EncValue, DecValue, EncEntries, DecEntries, DecArray, ArrayStart, ArrayHead, Limit, AbsEntries, View, CutEnd;
    ArrayStep(AsIs, buf, pos, elem, x);
    var start := ArrayStart(pos, OPEN_DICT);
    var d := EncEntries(start, ks, vs, x.entries).value.bytes;
    CutEndBound(start, |d|);
    if At(buf, pos, ArrayHead(pos, elem[0], |d|) + d) { CutHead(buf, pos, elem, d); }
  }

  // ---- every type ----

  lemma {:induction false} ValueBack(buf: Str, pos: nat, t: Ty, x: Arg)
    requires Encodable(t, x) && MapsIntact(pos, t, x)
    ensures Back(buf, pos, Print(t), x, Survives(pos, t, x))
    decreases x, 1
  {
    hide Back, EncValue, DecValue, Limit, MembersSurvive;
    hide MembersIntact, MembersBack, ItemsSurvive, EntriesSurvive, CutEnd;
    match t
    case TBasic(b) => ScalarBack(buf, pos, b, x);
    case TVariant =>
      ValueBack(buf, pos + |EncSignature(x.sig).bytes|, TypeOf(x.sig), x.inner);
      VariantBack(buf, pos, x, Survives(pos + |EncSignature(x.sig).bytes|, TypeOf(x.sig), x.inner));
    case TArray(e) => ArrayComesBack(buf, pos, e, x);
    case TDict(k, v) => DictComesBack(buf, pos, k, v, x);
    case TStruct(ms) =>
      MembersComeBack(buf, pos + Pad(pos, 8), ms, x.items);
      StructBack(buf, pos, PrintAll(ms), x, MembersSurvive(pos + Pad(pos, 8), ms, x.items));
  }

  lemma {:induction false} ArrayComesBack(buf: Str, pos: nat, e: Ty, x: Arg)
    requires Encodable(TArray(e), x) && MapsIntact(pos, TArray(e), x)
    ensures Back(buf, pos, Print(TArray(e)), x, Survives(pos, TArray(e), x))
    decreases x, 0
  {
    hide Back, ItemsBack, ItemsSurvive, ItemsIntact;
    var start := ArrayStart(pos, Print(e)[0]);
    var stop := CutEnd(start, Size(EncItems(start, Print(e), x.items)));
    PrintStart(e);
    ItemsComeBack(buf, start, e, x.items, stop);
    SliceBack(buf, pos, Print(e), x, ItemsSurvive(start, e, x.items, stop));
  }

  lemma {:induction false} DictComesBack(buf: Str, pos: nat, k: Basic, v: Ty, x: Arg)
    requires Encodable(TDict(k, v), x) && MapsIntact(pos, TDict(k, v), x)
    ensures Back(buf, pos, Print(TDict(k, v)), x, Survives(pos, TDict(k, v), x))
    decreases x, 0
  {
    hide Back, EntriesBack, EntriesSurvive, EachSurvives, SplitDictEntry;
    var start := ArrayStart(pos, OPEN_DICT);
    var stop := CutEnd(start, Size(EncEntries(start, [Code(k)], Print(v), x.entries)));
    SplitDictEntryPrint(k, v);
    EntriesComeBack(buf, start, k, v, x.entries, stop, map[]);
    DictBack(buf, pos, PrintEntry(k, v), [Code(k)], Print(v), x, EntriesSurvive(start, k, v, x.entries, stop));
  }

  lemma {:induction false} ItemsComeBack(buf: Str, pos: nat, e: Ty, items: seq<Arg>, stop: nat)
    requires Good(e) && AcceptsItems(e, items) && ItemsIntact(pos, e, items)
    ensures ItemsBack(buf, pos, Print(e), items, stop, ItemsSurvive(pos, e, items, stop))
    decreases items, 0
  {
    hide Back, EncValue, DecValue, Survives, MapsIntact, Print, Limit;
    if items != [] {
      var next := pos + Size(EncValue(pos, Print(e), items[0]));
      ValueBack(buf, pos, e, items[0]);
      ItemsComeBack(buf, next, e, items[1..], stop);
      hide ItemsBack;
      ItemBack(buf, pos, Print(e), items, stop, Survives(pos, e, items[0]), ItemsSurvive(next, e, items[1..], stop));
    }
  }

  lemma {:induction false} MembersComeBack(buf: Str, pos: nat, ms: seq<Ty>, items: seq<Arg>)
    requires GoodAll(ms) && AcceptsMembers(ms, items) && MembersIntact(pos, ms, items)
    ensures MembersBack(buf, pos, PrintAll(ms), items, MembersSurvive(pos, ms, items))
    ensures ms != [] ==> Size(EncMembers(pos, PrintAll(ms), items)) > 0
    decreases items, 0
  {
    hide EncValue, DecValue, Survives, MapsIntact, Print, Limit, SplitSig, View;
    if ms != [] {
      var next := pos + Size(EncValue(pos, Print(ms[0]), items[0]));
      ValueBack(buf, pos, ms[0], items[0]);
      MembersComeBack(buf, next, ms[1..], items[1..]);
      SplitPrint(ms[0], PrintAll(ms[1..]));
      MembersStep(pos, ms, items);
      MemberBack(buf, pos, Print(ms[0]), PrintAll(ms[1..]), items,
                 Survives(pos, ms[0], items[0]), MembersSurvive(next, ms[1..], items[1..]));
    }
  }

  lemma {:induction false} EntriesComeBack(buf: Str, pos: nat, k: Basic, v: Ty, entries: seq<Entry>, stop: nat,
                                           m: map<Str, Value>)
    requires IsText(k) && Good(v) && AcceptsEntries(v, entries) && EachSurvives(pos, k, v, entries)
    requires DistinctKeys(entries) && Keys(entries) !! m.Keys
    ensures EntriesBack(buf, pos, [Code(k)], Print(v), entries, stop, m, EntriesSurvive(pos, k, v, entries, stop))
    decreases entries, 4
  {
    hide EntriesBack, Back, EntryBack, PairBack, EncEntry, EncKey;
    hide Survives, MapsIntact, Print, Limit, Abs, DistinctKeys, Keys;
    var ks, vs := [Code(k)], Print(v);
    if entries == [] {
      NoEntriesBack(buf, pos, ks, vs, stop, m);
    } else {
      var e, rest := entries[0], entries[1..];
      var next := pos + Size(EncEntry(pos, ks, vs, e));
      var a := pos + Pad(pos, 8);
      ValueBack(buf, a + Size(EncKey(a, ks, e.key)), v, e.val);
      PairComesBack(buf, a, k, vs, e);
      EntryComesBack(buf, pos, ks, vs, e);
      RestDisjoint(m, entries, Abs(e.val));
      EntriesComeBack(buf, next, k, v, rest, stop, m[e.key := Abs(e.val)]);
      EntriesStep(buf, pos, ks, vs, entries, stop, m, EntriesSurvive(next, k, v, rest, stop));
    }
  }

  // ---- what survives has short signatures ----

  lemma {:induction false} SurvivesShort(pos: nat, t: Ty, x: Arg)
    requires Accepts(t, x) && Survives(pos, t, x)
    ensures ShortSignatures(t, x)
    decreases x, 1
  {
    match t
    case TBasic(_) =>
    case TVariant => SurvivesShort(pos + |EncSignature(x.sig).bytes|, TypeOf(x.sig), x.inner);
    case TArray(e) =>
      var start := ArrayStart(pos, Print(e)[0]);
      ItemsSurviveShort(start, e, x.items, CutEnd(start, Size(EncItems(start, Print(e), x.items))));
    case TDict(k, v) =>
      var start := ArrayStart(pos, OPEN_DICT);
      var d := EncEntries(start, [Code(k)], Print(v), x.entries);
      EntriesSurviveShort(start, k, v, x.entries, CutEnd(start, Size(d)));
    case TStruct(ms) => MembersSurviveShort(pos + Pad(pos, 8), ms, x.items);
  }

  lemma {:induction false} ItemsSurviveShort(pos: nat, e: Ty, items: seq<Arg>, stop: nat)
    requires AcceptsItems(e, items) && ItemsSurvive(pos, e, items, stop)
    ensures ShortItems(e, items)
    decreases items, 0
  {
    if items != [] {
      SurvivesShort(pos, e, items[0]);
      ItemsSurviveShort(pos + Size(EncValue(pos, Print(e), items[0])), e, items[1..], stop);
    }
  }

  lemma {:induction false} MembersSurviveShort(pos: nat, ms: seq<Ty>, items: seq<Arg>)
    requires AcceptsMembers(ms, items) && MembersSurvive(pos, ms, items)
    ensures ShortMembers(ms, items)
    decreases items, 0
  {
    if items != [] {
      SurvivesShort(pos, ms[0], items[0]);
      MembersSurviveShort(pos + Size(EncValue(pos, Print(ms[0]), items[0])), ms[1..], items[1..]);
    }
  }

  lemma {:induction false} EntriesSurviveShort(pos: nat, k: Basic, v: Ty, entries: seq<Entry>, stop: nat)
    requires AcceptsEntries(v, entries) && EntriesSurvive(pos, k, v, entries, stop)
    ensures ShortEntries(k, v, entries)
    decreases entries, 4
  {
    hide EncEntry, EncKey, EncPair, EncValue, Print, Pad;
    if entries != [] {
      var e, a := entries[0], pos + Pad(pos, 8);
      SurvivesShort(a + Size(EncKey(a, [Code(k)], e.key)), v, e.val);
      EntriesSurviveShort(pos + Size(EncEntry(pos, [Code(k)], Print(v), e)), k, v, entries[1..], stop);
    }
  }

  // ---- where no length was cut ----

  /** Everything survives, maps included. */
  lemma {:induction false} ExactSurvives(pos: nat, t: Ty, x: Arg)
    requires Encodable(t, x) && RealMaps(x)
    requires EncValue(pos, Print(t), x).Ok? ==> EncValue(pos, Print(t), x).value.exact
    ensures MapsIntact(pos, t, x) && Survives(pos, t, x)
    decreases x, 1
  {
    hide EncValue, EncArray, EncStruct, EncVariant, EncSignature, DecValue, Abs, Complete, View;
    hide ItemsSurvive, ItemsIntact, EntriesSurvive, EachSurvives, MembersSurvive, MembersIntact, Limit;
    ValueRT(AsIs, [], pos, t, x);
    match t
    case TBasic(b) => ExactScalar(pos, b, x);
    case TVariant =>
      VariantStep(AsIs, [], pos, x);
      ExactVariant(pos, x);
      ExactSurvives(pos + |EncSignature(x.sig).bytes|, TypeOf(x.sig), x.inner);
    case TArray(e) =>
      ArrayStep(AsIs, [], pos, Print(e), x);
      ExactArray(pos, e, x);
    case TDict(k, v) =>
      ArrayStep(AsIs, [], pos, PrintEntry(k, v), x);
      ExactDict(pos, k, v, x);
    case TStruct(ms) =>
      StructStep(AsIs, [], pos, PrintAll(ms), x);
      ExactStruct(pos, ms, x);
  }

  lemma {:induction false} ExactScalar(pos: nat, b: Basic, x: Arg)
    requires x.Prim? && HasType(b, x.p) && EncValue(pos, [Code(b)], x).Ok? && EncValue(pos, [Code(b)], x).value.exact
    ensures Survives(pos, TBasic(b), x)
  {
    hide Limit;
    BasicOfCode(b);
  }

  lemma {:induction false} ExactVariant(pos: nat, x: Arg)
    requires x.Variant? && Complete(x.sig) && EncVariant(pos, x).Ok? && EncVariant(pos, x).value.exact
    ensures |x.sig| < Limit(1)
    ensures var v := EncValue(pos + |EncSignature(x.sig).bytes|, x.sig, x.inner); v.Ok? && v.value.exact
  {
    hide EncValue, Limit, LE;
  }

  lemma {:induction false} ExactArray(pos: nat, e: Ty, x: Arg)
    requires Encodable(TArray(e), x) && RealMaps(x)
    requires var r := EncArray(pos, Print(e), x); r.Ok? && r.value.exact
    ensures MapsIntact(pos, TArray(e), x) && Survives(pos, TArray(e), x)
    decreases x, 0
  {
    hide EncItems, ItemsSurvive, ItemsIntact, AlignmentOf, Limit;
    PrintStart(e);
    var start := ArrayStart(pos, Print(e)[0]);
    var size := Size(EncItems(start, Print(e), x.items));
    WholeEnd(start, size);
    ExactItems(start, e, x.items, CutEnd(start, size));
  }

  lemma {:induction false} WholeEnd(start: nat, size: nat)
    requires size < Limit(4)
    ensures CutEnd(start, size) == start + size
  {
  }

  lemma {:induction false} ExactItems(pos: nat, e: Ty, items: seq<Arg>, stop: nat)
    requires Good(e) && AcceptsItems(e, items) && forall i :: 0 <= i < |items| ==> RealMaps(items[i])
    requires var r := EncItems(pos, Print(e), items); r.Ok? && r.value.exact && stop == pos + |r.value.bytes|
    ensures ItemsIntact(pos, e, items) && ItemsSurvive(pos, e, items, stop)
    decreases items, 0
  {
    hide EncValue, Survives, MapsIntact, Print, RealMaps, Limit, Good;
    if items != [] {
      ValueRT(AsIs, [], pos, e, items[0]);
      ExactSurvives(pos, e, items[0]);
      ExactItems(pos + Size(EncValue(pos, Print(e), items[0])), e, items[1..], stop);
    }
  }

  lemma {:induction false} ExactDict(pos: nat, k: Basic, v: Ty, x: Arg)
    requires Encodable(TDict(k, v), x) && RealMaps(x)
    requires var r := EncArray(pos, PrintEntry(k, v), x); r.Ok? && r.value.exact
    ensures MapsIntact(pos, TDict(k, v), x) && Survives(pos, TDict(k, v), x)
    decreases x, 0
  {
    hide EncEntries, EntriesSurvive, EachSurvives, AlignmentOf, Limit, SplitDictEntry;
    SplitDictEntryPrint(k, v);
    var start := ArrayStart(pos, OPEN_DICT);
    var size := Size(EncEntries(start, [Code(k)], Print(v), x.entries));
    WholeEnd(start, size);
    ExactEntries(start, k, v, x.entries, CutEnd(start, size));
  }

  lemma {:induction false} ExactEntries(pos: nat, k: Basic, v: Ty, entries: seq<Entry>, stop: nat)
    requires IsText(k) && Good(v) && AcceptsEntries(v, entries)
    requires forall i :: 0 <= i < |entries| ==> RealMaps(entries[i].val)
    requires var r := EncEntries(pos, [Code(k)], Print(v), entries);
      r.Ok? && r.value.exact && stop == pos + |r.value.bytes|
    ensures EachSurvives(pos, k, v, entries) && EntriesSurvive(pos, k, v, entries, stop)
    decreases entries, 4
  {
    hide EncEntry, EntrySurvives, EntryIntact, Print, RealMaps, Limit, Good, Code;
    if entries != [] {
      ExactEntry(pos, k, v, entries[0]);
      ExactEntries(pos + Size(EncEntry(pos, [Code(k)], Print(v), entries[0])), k, v, entries[1..], stop);
    }
  }

  lemma {:induction false} ExactEntry(pos: nat, k: Basic, v: Ty, e: Entry)
    requires IsText(k) && Encodable(v, e.val) && RealMaps(e.val)
    requires var r := EncEntry(pos, [Code(k)], Print(v), e); r.Ok? && r.value.exact
    ensures EntrySurvives(pos, k, v, e) && EntryIntact(pos, k, v, e)
    ensures Size(EncEntry(pos, [Code(k)], Print(v), e)) > 0
    decreases e, 2
  {
    hide EncValue, Survives, MapsIntact, Print, RealMaps, Limit, Pad;
    var a := pos + Pad(pos, 8);
    BasicOfCode(k);
    var q := a + Size(EncKey(a, [Code(k)], e.key));
    ValueRT(AsIs, [], q, v, e.val);
    ExactSurvives(q, v, e.val);
  }

  lemma {:induction false} ExactStruct(pos: nat, ms: seq<Ty>, x: Arg)
    requires Encodable(TStruct(ms), x) && RealMaps(x)
    requires var r := EncStruct(pos, PrintAll(ms), x); r.Ok? && r.value.exact
    ensures MapsIntact(pos, TStruct(ms), x) && Survives(pos, TStruct(ms), x)
    decreases x, 0
  {
    hide EncMembers, MembersSurvive, MembersIntact, PrintAll;
    ExactMembers(pos + Pad(pos, 8), ms, x.items);
  }

  lemma {:induction false} ExactMembers(pos: nat, ms: seq<Ty>, items: seq<Arg>)
    requires GoodAll(ms) && AcceptsMembers(ms, items) && forall i :: 0 <= i < |items| ==> RealMaps(items[i])
    requires var r := EncMembers(pos, PrintAll(ms), items); r.Ok? && r.value.exact
    ensures MembersIntact(pos, ms, items) && MembersSurvive(pos, ms, items)
    decreases items, 0
  {
    hide EncValue, EncMembers, Survives, MapsIntact, Print, PrintAll, RealMaps, Limit, Good;
    if items != [] {
      ValueRT(AsIs, [], pos, ms[0], items[0]);
      var next := pos + Size(EncValue(pos, Print(ms[0]), items[0]));
      MembersRT(AsIs, [], next, ms[1..], items[1..]);
      MembersStep(pos, ms, items);
      ExactSurvives(pos, ms[0], items[0]);
      ExactMembers(next, ms[1..], items[1..]);
    }
  }

  /** Round trip, if and only if: every supported type, every accepted value, every position
      and buffer, and every size, lengths cut included. Only where all signatures are short,
      so that a length of 4 GiB or more is the only one that can be cut, is anything asked of
      the inside of maps. */
  lemma {:induction false} RoundTripIff(buf: Str, pos: nat, t: Ty, x: Arg)
    requires Encodable(t, x) && RealMaps(x) && (ShortSignatures(t, x) ==> MapsIntact(pos, t, x))
    requires var e := EncValue(pos, Print(t), x); e.Ok? ==> At(buf, pos, e.value.bytes)
    ensures var e := EncValue(pos, Print(t), x);
      && e.Ok?
      && (DecValue(AsIs, buf, pos, Print(t)) == Ok(Got(Abs(x), pos + |e.value.bytes|)) <==> Survives(pos, t, x))
  {
    hide EncValue, DecValue, Accepts, Survives, MapsIntact, RealMaps, ShortSignatures, Print, View, Abs;
    ValueRT(AsIs, buf, pos, t, x);
    AtBound(buf, pos, EncValue(pos, Print(t), x).value.bytes);
    if ShortSignatures(t, x) {
      ValueBack(buf, pos, t, x);
    } else {
      LongNeverBack(buf, pos, t, x);
      if Survives(pos, t, x) { SurvivesShort(pos, t, x); }
    }
  }
}
