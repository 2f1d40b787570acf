/** Decoding undoes encoding, at every position and inside every buffer. */
module RoundTrip {
  import opened Wrappers
  import opened Bytes
  import opened Signature
  import opened Values
  import opened Wire

  lemma {:induction false} WordRT(buf: Str, pos: nat, w: Width, v: nat)
    requires At(buf, pos, EncWord(pos, w, v)) && v < Limit(w)
    ensures DecWord(buf, pos, w) == Ok(Got(v, pos + Pad(pos, w) + w))
  {
    WordRoundTrip(w, v);
    AtSplit(buf, pos, Zeros(Pad(pos, w)), LE(w, v));
  }

  lemma {:induction false} ByteAt(buf: Str, pos: nat)
    requires pos < |buf|
    ensures DecWord(buf, pos, 1) == Ok(Got(buf[pos], pos + 1))
  {
    assert buf[pos..pos + 1] == [buf[pos]] && UnLE([buf[pos]]) == buf[pos];
  }

  lemma {:induction false} TextRT(buf: Str, pos: nat, w: Width, s: Str)
    requires At(buf, pos, EncWord(pos, w, |s|) + (s + [0])) && |s| < Limit(w)
    ensures DecText(buf, pos, w) == Ok(Got(s, pos + Pad(pos, w) + w + |s| + 1))
  {
    AtSplit(buf, pos, EncWord(pos, w, |s|), s + [0]);
    AtSplit(buf, pos + Pad(pos, w) + w, s, [0]);
    WordRT(buf, pos, w, |s|);
  }

  lemma {:induction false} TextScalarRT(buf: Str, pos: nat, b: Basic, s: Str)
    requires IsText(b) && EncScalar(pos, b, VString(s)).value.exact
    requires At(buf, pos, EncScalar(pos, b, VString(s)).value.bytes)
    ensures DecScalar(buf, pos, b) == Ok(Got(VString(s), pos + |EncScalar(pos, b, VString(s)).value.bytes|))
  {
    assert EncScalar(pos, b, VString(s))
         == Ok(Piece(EncWord(pos, WidthOf(b), |s|) + (s + [0]), |s| < Limit(WidthOf(b))));
    hide Limit, LE, UnLE, Pad, DecText, EncScalar, At;
    TextRT(buf, pos, WidthOf(b), s);
  }

  lemma {:induction false} WordScalarRT(buf: Str, pos: nat, b: Basic, p: Scalar)
    requires HasType(b, p) && !IsText(b)
    requires At(buf, pos, EncScalar(pos, b, p).value.bytes)
    ensures DecScalar(buf, pos, b) == Ok(Got(p, pos + |EncScalar(pos, b, p).value.bytes|))
  {
    hide Limit, LE, UnLE, Pad, DecWord, FromWord, Word, View, HasType;
    WordInverse(b, p);
    var w := EncWord(pos, WidthOf(b), Word(p));
    assert w + [] == w;
    assert EncScalar(pos, b, p).value.bytes == w;
    WordRT(buf, pos, WidthOf(b), Word(p));
  }

  lemma {:induction false} ScalarRT(buf: Str, pos: nat, b: Basic, p: Scalar)
    requires HasType(b, p)
    requires var e := EncScalar(pos, b, p).value; e.exact && At(buf, pos, e.bytes)
    ensures DecScalar(buf, pos, b) == Ok(Got(p, pos + |EncScalar(pos, b, p).value.bytes|))
  {
    hide EncScalar, DecScalar, At;
    if IsText(b) { TextScalarRT(buf, pos, b, p.s); } else { WordScalarRT(buf, pos, b, p); }
  }

  lemma {:induction false} SignatureRT(buf: Str, pos: nat, sig: Str)
    requires EncSignature(sig).exact && At(buf, pos, EncSignature(sig).bytes)
    ensures DecText(buf, pos, 1) == Ok(Got(sig, pos + |EncSignature(sig).bytes|))
  {
    assert EncSignature(sig).bytes == EncWord(pos, 1, |sig|) + (sig + [0]);
    TextRT(buf, pos, 1, sig);
  }

  /** `x` is encoded as some `e` at `pos`, and any buffer holding those bytes there decodes to it. */
  ghost predicate Recovers(check: Check, buf: Str, pos: nat, sig: Str, x: Arg) {
    var r := EncValue(pos, sig, x);
    && r.Ok? && |r.value.bytes| > 0
    && (r.value.exact && At(buf, pos, r.value.bytes) ==>
          DecValue(check, buf, pos, sig) == Ok(Got(Abs(x), pos + |r.value.bytes|)))
  }

  ghost predicate RecoversElements(check: Check, buf: Str, pos: nat, elem: Str, x: Arg)
    requires elem != []
  {
    var r := EncElements(pos, elem, x);
    && r.Ok?
    && (r.value.exact && At(buf, pos, r.value.bytes) ==>
          var end := pos + |r.value.bytes|;
          DecElements(check, buf, pos, elem, end) == Ok(Got(Abs(x), end)))
  }

  ghost predicate RecoversItems(check: Check, buf: Str, pos: nat, elem: Str, items: seq<Arg>) {
    var r := EncItems(pos, elem, items);
    && r.Ok?
    && (r.value.exact && At(buf, pos, r.value.bytes) ==>
          var end := pos + |r.value.bytes|;
          DecItems(check, buf, pos, elem, end) == Ok(Got(AbsAll(items), end)))
  }

  ghost predicate RecoversMembers(check: Check, buf: Str, pos: nat, rest: Str, items: seq<Arg>) {
    var r := EncMembers(pos, rest, items);
    && r.Ok? && (rest != [] ==> |r.value.bytes| > 0)
    && (r.value.exact && At(buf, pos, r.value.bytes) ==>
          DecMembers(check, buf, pos, rest) == Ok(Got(AbsAll(items), pos + |r.value.bytes|)))
  }

  ghost predicate RecoversEntries(check: Check, buf: Str, pos: nat, ks: Str, vs: Str, entries: seq<Entry>,
                                  m: map<Str, Value>)
    requires ks != []
  {
    var r := EncEntries(pos, ks, vs, entries);
    && r.Ok?
    && (r.value.exact && At(buf, pos, r.value.bytes) ==>
          var end := pos + |r.value.bytes|;
          DecEntries(check, buf, pos, ks, vs, end, m) == Ok(Got(Map(AbsEntries(m, entries)), end)))
  }

  ghost predicate RecoversEntry(check: Check, buf: Str, pos: nat, ks: Str, vs: Str, e: Entry)
    requires ks != []
  {
    var r := EncEntry(pos, ks, vs, e);
    && r.Ok? && |r.value.bytes| > 0
    && (r.value.exact && At(buf, pos, r.value.bytes) ==>
          DecEntry(check, buf, pos, ks, vs) == Ok(Got((e.key, Abs(e.val)), pos + |r.value.bytes|)))
  }

  ghost predicate RecoversPair(check: Check, buf: Str, pos: nat, ks: Str, vs: Str, e: Entry)
    requires ks != []
  {
    var r := EncPair(pos, ks, vs, e);
    && r.Ok? && |r.value.bytes| > 0
    && (r.value.exact && At(buf, pos, r.value.bytes) ==>
          DecPair(check, buf, pos, ks, vs) == Ok(Got((e.key, Abs(e.val)), pos + |r.value.bytes|)))
  }

  // From the parts of a value to the whole, for any signature strings.

  lemma {:induction false} CatAt(buf: Str, pos: nat, a: Piece, b: Piece)
    ensures Cat(a, b).exact && At(buf, pos, Cat(a, b).bytes) ==>
      a.exact && b.exact && At(buf, pos, a.bytes) && At(buf, pos + |a.bytes|, b.bytes)
  {
    AtSplit(buf, pos, a.bytes, b.bytes);
  }

  lemma {:induction false} VariantWhole(check: Check, buf: Str, pos: nat, x: Arg)
    requires x.Variant? && Complete(x.sig)
    requires Recovers(check, buf, pos + |EncSignature(x.sig).bytes|, x.sig, x.inner)
    ensures Recovers(check, buf, pos, [VARIANT], x)
  {
    hide EncValue, DecValue, Complete, Passes, Limit, LE, View;
    VariantStep(check, buf, pos, x);
    CompletePasses(check, x.sig);
    var s := EncSignature(x.sig);
    CatAt(buf, pos, s, EncValue(pos + |s.bytes|, x.sig, x.inner).value);
    if s.exact && At(buf, pos, s.bytes) { SignatureRT(buf, pos, x.sig); }
  }

  lemma {:induction false} HeadReads(buf: Str, pos: nat, c: Byte, n: nat)
    requires n < Limit(4) && At(buf, pos, ArrayHead(pos, c, n))
    ensures var p := pos + Pad(pos, 4) + 4;
      && DecWord(buf, pos, 4) == Ok(Got(n, p))
      && DecAlign(buf, p, AlignmentOf(c)) == Ok(ArrayStart(pos, c))
  {
    hide LE, UnLE, DecWord, Pad, Limit, AlignmentOf;
    var p := pos + Pad(pos, 4) + 4;
    AtSplit(buf, pos, EncWord(pos, 4, n), Zeros(Pad(p, AlignmentOf(c))));
    WordRT(buf, pos, 4, n);
  }

  lemma {:induction false} ArrayHeadRT(buf: Str, pos: nat, c: Byte, data: Str)
    requires |data| < Limit(4)
    requires At(buf, pos, ArrayHead(pos, c, |data|) + data)
    ensures var p := pos + Pad(pos, 4) + 4;
      && DecWord(buf, pos, 4) == Ok(Got(|data|, p))
      && DecAlign(buf, p, AlignmentOf(c)) == Ok(ArrayStart(pos, c))
    ensures At(buf, ArrayStart(pos, c), data)
  {
    hide DecWord, DecAlign, Pad, Limit, AlignmentOf, ArrayHead, ArrayStart, View;
    AtSplit(buf, pos, ArrayHead(pos, c, |data|), data);
    HeadReads(buf, pos, c, |data|);
  }

  /** The part of an array written before its elements reads back as their total
      length, and leaves the decoder on the first element. */
  lemma {:induction false} ArrayDecodes(check: Check, buf: Str, pos: nat, elem: Str, data: Str)
    requires elem != [] && |data| < Limit(4)
    requires At(buf, pos, ArrayHead(pos, elem[0], |data|) + data)
    ensures var start := ArrayStart(pos, elem[0]);
      && At(buf, start, data)
      && DecArray(check, buf, pos, elem) == DecElements(check, buf, start, elem, start + |data|)
  {
    hide DecElements, Limit, ArrayHead, ArrayStart, AlignmentOf, DecWord, DecAlign, Pad;
    ArrayHeadRT(buf, pos, elem[0], data);
  }

  lemma {:induction false} ArrayWhole(check: Check, buf: Str, pos: nat, elem: Str, x: Arg)
    requires elem != [] && RecoversElements(check, buf, ArrayStart(pos, elem[0]), elem, x)
    ensures Recovers(check, buf, pos, [ARRAY] + elem, x)
  {
    hide EncValue, DecValue, EncElements, DecElements, DecArray, ArrayStart, ArrayHead, Limit, Abs, At;
    ArrayStep(check, buf, pos, elem, x);
    var d := EncElements(ArrayStart(pos, elem[0]), elem, x).value;
    if |d.bytes| < Limit(4) && At(buf, pos, ArrayHead(pos, elem[0], |d.bytes|) + d.bytes) {
      ArrayDecodes(check, buf, pos, elem, d.bytes);
    }
  }

  lemma {:induction false} ItemsWhole(check: Check, buf: Str, pos: nat, elem: Str, items: seq<Arg>)
    requires items != [] ==> Recovers(check, buf, pos, elem, items[0])
    requires items != [] ==>
      RecoversItems(check, buf, pos + |EncValue(pos, elem, items[0]).value.bytes|, elem, items[1..])
    ensures RecoversItems(check, buf, pos, elem, items)
  {
    hide EncValue, DecValue, Abs;
    if items != [] {
      var a := EncValue(pos, elem, items[0]).value;
      CatAt(buf, pos, a, EncItems(pos + |a.bytes|, elem, items[1..]).value);
    }
  }

  lemma {:induction false} StructWhole(check: Check, buf: Str, pos: nat, inner: Str, x: Arg)
    requires x.Slice? && x.kind == AnySlice && inner != []
    requires RecoversMembers(check, buf, pos + Pad(pos, 8), inner, x.items)
    ensures Recovers(check, buf, pos, [OPEN_STRUCT] + inner + [CLOSE_STRUCT], x)
  {
    StructStep(check, buf, pos, inner, x);
    hide EncValue, DecValue, EncMembers, DecMembers;
    CatAt(buf, pos, Piece(Zeros(Pad(pos, 8)), true), EncMembers(pos + Pad(pos, 8), inner, x.items).value);
  }

  lemma {:induction false} MembersWhole(check: Check, buf: Str, pos: nat, first: Str, rest: Str, items: seq<Arg>)
    requires items != [] && SplitSig(first + rest) == Some((first, rest))
    requires Recovers(check, buf, pos, first, items[0])
    requires RecoversMembers(check, buf, pos + |EncValue(pos, first, items[0]).value.bytes|, rest, items[1..])
    ensures RecoversMembers(check, buf, pos, first + rest, items)
  {
    hide EncValue, DecValue, SplitSig, Abs;
    var a := EncValue(pos, first, items[0]).value;
    CatAt(buf, pos, a, EncMembers(pos + |a.bytes|, rest, items[1..]).value);
  }

  ghost predicate RecoversKey(check: Check, buf: Str, pos: nat, ks: Str, key: Str)
    requires ks != []
  {
    var r := EncKey(pos, ks, key);
    && r.Ok? && |r.value.bytes| > 0
    && (r.value.exact && At(buf, pos, r.value.bytes) ==>
          DecValue(check, buf, pos, ks) == Ok(Got(Leaf(VString(key)), pos + |r.value.bytes|)))
  }

  lemma {:induction false} KeyRT(check: Check, buf: Str, pos: nat, k: Basic, key: Str)
    requires IsText(k)
    ensures RecoversKey(check, buf, pos, [Code(k)], key)
  {
    BasicOfCode(k);
    var e := EncScalar(pos, k, VString(key)).value;
    if e.exact && At(buf, pos, e.bytes) {
      ScalarRT(buf, pos, k, VString(key));
      BasicStep(check, buf, pos, k);
    }
  }

  lemma {:induction false} PairWhole(check: Check, buf: Str, pos: nat, ks: Str, vs: Str, e: Entry)
    requires ks != [] && RecoversKey(check, buf, pos, ks, e.key)
    requires Recovers(check, buf, pos + |EncKey(pos, ks, e.key).value.bytes|, vs, e.val)
    ensures RecoversPair(check, buf, pos, ks, vs, e)
  {
    hide EncValue, DecValue, EncKey, Abs;
    var a := EncKey(pos, ks, e.key).value;
    CatAt(buf, pos, a, EncValue(pos + |a.bytes|, vs, e.val).value);
  }

  lemma {:induction false} EntryWhole(check: Check, buf: Str, pos: nat, ks: Str, vs: Str, e: Entry)
    requires ks != [] && RecoversPair(check, buf, pos + Pad(pos, 8), ks, vs, e)
    ensures RecoversEntry(check, buf, pos, ks, vs, e)
  {
    hide EncPair, DecPair, Abs, Pad;
    CatAt(buf, pos, Piece(Zeros(Pad(pos, 8)), true), EncPair(pos + Pad(pos, 8), ks, vs, e).value);
  }

  lemma {:induction false} EntriesWhole(check: Check, buf: Str, pos: nat, ks: Str, vs: Str, entries: seq<Entry>,
                                        m: map<Str, Value>)
    requires ks != []
    requires entries != [] ==> RecoversEntry(check, buf, pos, ks, vs, entries[0])
    requires entries != [] ==>
      RecoversEntries(check, buf, pos + |EncEntry(pos, ks, vs, entries[0]).value.bytes|, ks, vs, entries[1..],
                      m[entries[0].key := Abs(entries[0].val)])
    ensures RecoversEntries(check, buf, pos, ks, vs, entries, m)
  {
    hide EncEntry, DecEntry, Abs;
    if entries != [] {
      var a := EncEntry(pos, ks, vs, entries[0]).value;
      CatAt(buf, pos, a, EncEntries(pos + |a.bytes|, ks, vs, entries[1..]).value);
    }
  }

  // The induction over a supported type and a value it accepts.

  /** Round trip of one value: every supported type, every accepted value, every
      position, and every buffer, whatever surrounds the encoding. */
  lemma {:induction false} ValueRT(check: Check, buf: Str, pos: nat, t: Ty, x: Arg)
    requires Encodable(t, x)
    ensures Recovers(check, buf, pos, Print(t), x)
    decreases x, 1
  {
    match t
    case TBasic(b) =>
      BasicOfCode(b);
      var e := EncScalar(pos, b, x.p).value;
      if e.exact && At(buf, pos, e.bytes) { ScalarRT(buf, pos, b, x.p); }
    case TVariant =>
      ValueRT(check, buf, pos + |EncSignature(x.sig).bytes|, TypeOf(x.sig), x.inner);
      VariantWhole(check, buf, pos, x);
    case TArray(el) => ArrayRT(check, buf, pos, el, x);
    case TDict(k, v) => DictRT(check, buf, pos, k, v, x);
    case TStruct(ms) =>
      MembersRT(check, buf, pos + Pad(pos, 8), ms, x.items);
      assert PrintAll(ms) != [];
      StructWhole(check, buf, pos, PrintAll(ms), x);
  }

  lemma {:induction false} ArrayRT(check: Check, buf: Str, pos: nat, el: Ty, x: Arg)
    requires Encodable(TArray(el), x)
    ensures Recovers(check, buf, pos, Print(TArray(el)), x)
    decreases x, 0
  {
    var elem := Print(el);
    var start := ArrayStart(pos, elem[0]);
    PrintStart(el);
    ItemsRT(check, buf, start, el, x.items);
    ArrayWhole(check, buf, pos, elem, x) by { hide EncItems, DecItems; }
  }

  lemma {:induction false} ItemsRT(check: Check, buf: Str, pos: nat, el: Ty, items: seq<Arg>)
    requires Good(el) && AcceptsItems(el, items)
    ensures RecoversItems(check, buf, pos, Print(el), items)
    decreases items, 2
  {
    hide EncValue, DecValue, Print;
    if items != [] {
      ValueRT(check, buf, pos, el, items[0]);
      ItemsRT(check, buf, pos + |EncValue(pos, Print(el), items[0]).value.bytes|, el, items[1..]);
    }
    ItemsWhole(check, buf, pos, Print(el), items);
  }

  lemma {:induction false} MembersRT(check: Check, buf: Str, pos: nat, ms: seq<Ty>, items: seq<Arg>)
    requires GoodAll(ms) && AcceptsMembers(ms, items)
    ensures RecoversMembers(check, buf, pos, PrintAll(ms), items)
    decreases items, 2
  {
    if ms != [] {
      SplitPrint(ms[0], PrintAll(ms[1..]));
      hide EncValue, DecValue, Print, SplitSig;
      ValueRT(check, buf, pos, ms[0], items[0]);
      MembersRT(check, buf, pos + |EncValue(pos, Print(ms[0]), items[0]).value.bytes|, ms[1..], items[1..]);
      MembersWhole(check, buf, pos, Print(ms[0]), PrintAll(ms[1..]), items);
    }
  }

  lemma {:induction false} DictRT(check: Check, buf: Str, pos: nat, k: Basic, v: Ty, x: Arg)
    requires Encodable(TDict(k, v), x)
    ensures Recovers(check, buf, pos, Print(TDict(k, v)), x)
    decreases x, 0
  {
    hide EncEntries, DecEntries, EncValue, DecValue, SplitDictEntry, ArrayStart, AlignmentOf, View, AbsEntries;
    SplitDictEntryPrint(k, v);
    EntriesRT(check, buf, ArrayStart(pos, OPEN_DICT), k, v, x.entries, map[]);
    ArrayWhole(check, buf, pos, PrintEntry(k, v), x);
  }

  lemma {:induction false} EntriesRT(check: Check, buf: Str, pos: nat, k: Basic, v: Ty, entries: seq<Entry>,
                                     m: map<Str, Value>)
    requires IsText(k) && Good(v) && AcceptsEntries(v, entries)
    ensures RecoversEntries(check, buf, pos, [Code(k)], Print(v), entries, m)
    decreases entries, 4
  {
    hide EncEntry, DecEntry, EncValue, DecValue, Print;
    var ks, vs := [Code(k)], Print(v);
    if entries != [] {
      var e := entries[0];
      var p := pos + Pad(pos, 8);
      KeyRT(check, buf, p, k, e.key);
      ValueRT(check, buf, p + |EncKey(p, ks, e.key).value.bytes|, v, e.val);
      PairWhole(check, buf, p, ks, vs, e);
      EntryWhole(check, buf, pos, ks, vs, e);
      EntriesRT(check, buf, pos + |EncEntry(pos, ks, vs, e).value.bytes|, k, v, entries[1..], m[e.key := Abs(e.val)]);
    }
    EntriesWhole(check, buf, pos, ks, vs, entries, m);
  }
}
