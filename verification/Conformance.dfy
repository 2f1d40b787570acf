/** The bytes against the D-Bus Specification, section "Marshaling (Wire Format)":
    alignment, zero padding and array lengths at absolute offsets. */
module Conformance {
  import opened Bytes
  import opened Signature
  import opened Values
  import opened Wire
  import opened Shift

  /** The alignment the specification gives each type. For a variant it is 1. */
  function SpecAlignment(t: Ty): Width {
    match t
    case TBasic(b) => WidthOf(b)
    case TVariant => 1
    case TArray(_) => 4
    case TDict(_, _) => 4
    case TStruct(_) => 8
  }

  /** Two layouts: the specification's, and the code's own, with its alignment of a variant. */
  datatype Layout = Own | Standard

  function ElementAlignment(l: Layout, e: Ty): Width {
    if l.Own? then AlignmentOf(Print(e)[0]) else SpecAlignment(e)
  }

  /** buf[p..a] is padding: zero bytes, fewer than `n`, up to an `n`-aligned offset. */
  ghost predicate Padding(buf: Str, p: nat, a: nat, n: Width) {
    && p <= a <= |buf| && a < p + n && Aligned(a, n)
    && forall i :: p <= i < a ==> buf[i] == 0
  }

  /** A scalar, or a length and text and a zero byte, fills buf[a..q]. */
  ghost predicate ScalarAt(buf: Str, a: nat, b: Basic, p: Scalar, q: nat) {
    var w := WidthOf(b);
    && a + w <= q <= |buf| && UnLE(buf[a..a + w]) == Word(p)
    && if IsText(b) && p.VString? then q == a + w + |p.s| + 1 && buf[a + w..q - 1] == p.s && buf[q - 1] == 0
       else q == a + w
  }

  /** buf[p..q] is `x` marshalled as a `t`, with its leading padding, at absolute offset `p`. */
  ghost predicate Marshalled(l: Layout, buf: Str, p: nat, t: Ty, x: Arg, q: nat)
    decreases x, 1
  {
    match t
    case TBasic(b) =>
      x.Prim? && exists a :: Padding(buf, p, a, WidthOf(b)) && ScalarAt(buf, a, b, x.p, q)
    case TVariant =>
      x.Variant? && Complete(x.sig) && exists m ::
        ScalarAt(buf, p, G, VString(x.sig), m) && Marshalled(l, buf, m, TypeOf(x.sig), x.inner, q)
    case TArray(e) =>
      x.Slice? && exists a, s ::
        ArrayAt(buf, p, a, s, ElementAlignment(l, e), q) && MarshalledItems(l, buf, s, e, x.items, q)
    case TDict(k, v) =>
      x.Dict? && exists a, s ::
        ArrayAt(buf, p, a, s, 8, q) && MarshalledEntries(l, buf, s, k, v, x.entries, q)
    case TStruct(ms) =>
      x.Slice? && exists a :: Padding(buf, p, a, 8) && MarshalledMembers(l, buf, a, ms, x.items, q)
  }

  /** A 4-aligned length at `a`, then padding up to the first element at `s`; the
      length counts the bytes from `s` to the end `q` and so excludes that padding. */
  ghost predicate ArrayAt(buf: Str, p: nat, a: nat, s: nat, n: Width, q: nat) {
    && Padding(buf, p, a, 4) && a + 4 <= |buf|
    && Padding(buf, a + 4, s, n) && s <= q
    && UnLE(buf[a..a + 4]) == q - s
  }

  ghost predicate MarshalledItems(l: Layout, buf: Str, p: nat, e: Ty, items: seq<Arg>, q: nat)
    decreases items, 0
  {
    if items == [] then p == q
    else exists m :: Marshalled(l, buf, p, e, items[0], m) && MarshalledItems(l, buf, m, e, items[1..], q)
  }

  ghost predicate MarshalledMembers(l: Layout, buf: Str, p: nat, ms: seq<Ty>, items: seq<Arg>, q: nat)
    decreases items, 0
  {
    if ms == [] || items == [] then ms == [] && items == [] && p == q
    else exists m :: Marshalled(l, buf, p, ms[0], items[0], m) && MarshalledMembers(l, buf, m, ms[1..], items[1..], q)
  }

  ghost predicate MarshalledEntries(l: Layout, buf: Str, p: nat, k: Basic, v: Ty, entries: seq<Entry>, q: nat)
    decreases entries, 2
  {
    if entries == [] then p == q
    else
      exists m :: MarshalledEntry(l, buf, p, k, v, entries[0], m) && MarshalledEntries(l, buf, m, k, v, entries[1..], q)
  }

  /** A dict entry is 8-aligned like a struct of key and value. */
  ghost predicate MarshalledEntry(l: Layout, buf: Str, p: nat, k: Basic, v: Ty, e: Entry, q: nat)
    decreases e, 2
  {
    exists a :: Padding(buf, p, a, 8) && MarshalledPair(l, buf, a, k, v, e, q)
  }

  ghost predicate MarshalledPair(l: Layout, buf: Str, p: nat, k: Basic, v: Ty, e: Entry, q: nat)
    decreases e, 1
  {
    exists b, m :: TextAt(buf, p, b, k, e.key, m) && Marshalled(l, buf, m, v, e.val, q)
  }

  ghost predicate TextAt(buf: Str, p: nat, b: nat, k: Basic, s: Str, q: nat) {
    Padding(buf, p, b, WidthOf(k)) && ScalarAt(buf, b, k, VString(s), q)
  }

  /** Encoded at `pos`, every array of variants, inside inline signatures too, has its first
      element at a multiple of 8, where the two alignments of a variant agree. */
  ghost predicate VariantArraysAligned(pos: nat, t: Ty, x: Arg)
    decreases x, 1
  {
    match t
    case TBasic(_) => true
    case TVariant =>
      x.Variant? && Complete(x.sig) ==>
        VariantArraysAligned(pos + |EncSignature(x.sig).bytes|, TypeOf(x.sig), x.inner)
    case TArray(e) =>
      && (e == TVariant ==> (pos + Pad(pos, 4) + 4) % 8 == 0)
      && (x.Slice? ==> AlignedInItems(ArrayStart(pos, Print(e)[0]), e, x.items))
    case TDict(k, v) => x.Dict? ==> AlignedInEntries(ArrayStart(pos, OPEN_DICT), k, v, x.entries)
    case TStruct(ms) => x.Slice? ==> AlignedInMembers(pos + Pad(pos, 8), ms, x.items)
  }

  ghost predicate AlignedInItems(pos: nat, e: Ty, items: seq<Arg>)
    decreases items, 0
  {
    items == [] ||
    (VariantArraysAligned(pos, e, items[0])
     && AlignedInItems(pos + Size(EncValue(pos, Print(e), items[0])), e, items[1..]))
  }

  ghost predicate AlignedInMembers(pos: nat, ms: seq<Ty>, items: seq<Arg>)
    decreases items, 0
  {
    ms == [] || items == [] ||
    (VariantArraysAligned(pos, ms[0], items[0])
     && AlignedInMembers(pos + Size(EncValue(pos, Print(ms[0]), items[0])), ms[1..], items[1..]))
  }

  ghost predicate AlignedInEntries(pos: nat, k: Basic, v: Ty, entries: seq<Entry>)
    decreases entries, 4
  {
    entries == [] ||
    (AlignedInEntry(pos + Pad(pos, 8), k, v, entries[0])
     && AlignedInEntries(pos + Size(EncEntry(pos, [Code(k)], Print(v), entries[0])), k, v, entries[1..]))
  }

  ghost predicate AlignedInEntry(pos: nat, k: Basic, v: Ty, e: Entry)
    decreases e, 2
  {
    VariantArraysAligned(pos + Size(EncKey(pos, [Code(k)], e.key)), v, e.val)
  }

  // ---- the encoder's pieces ----

  lemma {:induction false} PadConforms(buf: Str, p: nat, n: Width)
    requires At(buf, p, Zeros(Pad(p, n)))
    ensures Padding(buf, p, p + Pad(p, n), n)
  {
    PadIsLeast(p, n);
    var z := buf[p..p + Pad(p, n)];
    forall i | p <= i < p + Pad(p, n)
      ensures buf[i] == 0
    {
      assert z[i - p] == 0;
    }
  }

  lemma {:induction false} WordConforms(buf: Str, p: nat, w: Width, v: nat)
    requires At(buf, p, EncWord(p, w, v)) && v < Limit(w)
    ensures var a := p + Pad(p, w);
      Padding(buf, p, a, w) && a + w <= |buf| && UnLE(buf[a..a + w]) == v
  {
    AtSplit(buf, p, Zeros(Pad(p, w)), LE(w, v));
    PadConforms(buf, p, w);
    WordRoundTrip(w, v);
  }

  lemma {:induction false} ScalarConforms(buf: Str, p: nat, b: Basic, v: Scalar)
    requires HasType(b, v)
    requires var e := EncScalar(p, b, v).value; e.exact && At(buf, p, e.bytes)
    ensures var a := p + Pad(p, WidthOf(b));
      Padding(buf, p, a, WidthOf(b)) && ScalarAt(buf, a, b, v, p + |EncScalar(p, b, v).value.bytes|)
  {
    hide LE, UnLE, Pad, Limit, Padding, Word, View;
    var w := WidthOf(b);
    var word := EncWord(p, w, Word(v));
    var tail := if IsText(b) then v.s + [0] else [];
    assert EncScalar(p, b, v).value == Piece(word + tail, Word(v) < Limit(w));
    AtSplit(buf, p, word, tail);
    WordConforms(buf, p, w, Word(v));
    if IsText(b) { TailConforms(buf, p + |word|, v.s); }
  }

  lemma {:induction false} TailConforms(buf: Str, p: nat, s: Str)
    requires At(buf, p, s + [0])
    ensures var q := p + |s| + 1;
      q <= |buf| && buf[p..q - 1] == s && buf[q - 1] == 0
  {
    AtSplit(buf, p, s, [0]);
    var z := p + |s|;
    assert buf[z..z + 1][0] == buf[z];
  }

  lemma {:induction false} SignatureConforms(buf: Str, p: nat, sig: Str)
    requires EncSignature(sig).exact && At(buf, p, EncSignature(sig).bytes)
    ensures ScalarAt(buf, p, G, VString(sig), p + |EncSignature(sig).bytes|)
  {
    assert EncScalar(p, G, VString(sig)).value.bytes == EncSignature(sig).bytes by {
      assert EncWord(p, 1, |sig|) == LE(1, |sig|);
      assert LE(1, |sig|) + (sig + [0]) == LE(1, |sig|) + sig + [0];
    }
    ScalarConforms(buf, p, G, VString(sig));
  }

  ghost predicate Conforms(l: Layout, buf: Str, pos: nat, t: Ty, x: Arg) {
    var r := EncValue(pos, Print(t), x);
    r.Ok? && (r.value.exact && At(buf, pos, r.value.bytes) ==> Marshalled(l, buf, pos, t, x, pos + |r.value.bytes|))
  }

  ghost predicate ItemsConform(l: Layout, buf: Str, pos: nat, e: Ty, items: seq<Arg>) {
    var r := EncItems(pos, Print(e), items);
    && r.Ok?
    && (r.value.exact && At(buf, pos, r.value.bytes) ==>
          MarshalledItems(l, buf, pos, e, items, pos + |r.value.bytes|))
  }

  ghost predicate MembersConform(l: Layout, buf: Str, pos: nat, ms: seq<Ty>, items: seq<Arg>) {
    var r := EncMembers(pos, PrintAll(ms), items);
    && r.Ok?
    && (r.value.exact && At(buf, pos, r.value.bytes) ==>
          MarshalledMembers(l, buf, pos, ms, items, pos + |r.value.bytes|))
  }

  ghost predicate EntryConforms(l: Layout, buf: Str, pos: nat, k: Basic, v: Ty, e: Entry) {
    var r := EncEntry(pos, [Code(k)], Print(v), e);
    && r.Ok?
    && (r.value.exact && At(buf, pos, r.value.bytes) ==>
          MarshalledEntry(l, buf, pos, k, v, e, pos + |r.value.bytes|))
  }

  ghost predicate EntriesConform(l: Layout, buf: Str, pos: nat, k: Basic, v: Ty, entries: seq<Entry>) {
    var r := EncEntries(pos, [Code(k)], Print(v), entries);
    && r.Ok?
    && (r.value.exact && At(buf, pos, r.value.bytes) ==>
          MarshalledEntries(l, buf, pos, k, v, entries, pos + |r.value.bytes|))
  }

  lemma {:induction false} VariantParts(l: Layout, buf: Str, pos: nat, x: Arg, m: nat, q: nat)
    requires x.Variant? && Complete(x.sig)
    requires ScalarAt(buf, pos, G, VString(x.sig), m) && Marshalled(l, buf, m, TypeOf(x.sig), x.inner, q)
    ensures Marshalled(l, buf, pos, TVariant, x, q)
  {
    hide ScalarAt, Complete;
  }

  lemma {:induction false} VariantConforms(l: Layout, buf: Str, pos: nat, x: Arg)
    requires x.Variant? && Complete(x.sig)
    requires Conforms(l, buf, pos + |EncSignature(x.sig).bytes|, TypeOf(x.sig), x.inner)
    ensures Conforms(l, buf, pos, TVariant, x)
  {
    hide EncValue, EncSignature, Complete, ScalarAt, View, Limit, Marshalled;
    VariantStep(AsIs, buf, pos, x);
    var s := EncSignature(x.sig);
    var m := pos + |s.bytes|;
    var v := EncValue(m, x.sig, x.inner);
    if s.exact && v.value.exact && At(buf, pos, Cat(s, v.value).bytes) {
      CatParts(buf, pos, s, v.value);
      SignatureConforms(buf, pos, x.sig);
      VariantParts(l, buf, pos, x, m, m + |v.value.bytes|);
    }
  }

  /** The bytes before an array's elements, when the padding is the specification's. */
  lemma {:induction false} ArrayHeadConforms(buf: Str, pos: nat, c: Byte, data: Str)
    requires |data| < Limit(4) && At(buf, pos, ArrayHead(pos, c, |data|) + data)
    ensures var s := ArrayStart(pos, c);
      ArrayAt(buf, pos, pos + Pad(pos, 4), s, AlignmentOf(c), s + |data|) && At(buf, s, data)
  {
    hide LE, UnLE, Limit, Pad, View;
    var p := pos + Pad(pos, 4) + 4;
    var w, z := EncWord(pos, 4, |data|), Zeros(Pad(p, AlignmentOf(c)));
    AtSplit3(buf, pos, w, z, data);
    WordConforms(buf, pos, 4, |data|);
    PadConforms(buf, p, AlignmentOf(c));
  }

  lemma {:induction false} BracketAlignment()
    ensures AlignmentOf(OPEN_DICT) == AlignmentOf(VARIANT) == 8
  {
  }

  lemma {:induction false} AlignmentAgrees(t: Ty)
    requires t != TVariant
    ensures AlignmentOf(Print(t)[0]) == SpecAlignment(t)
  {
    if t.TBasic? { BasicOfCode(t.b); }
  }

  lemma {:induction false} ArrayOfItems(pos: nat, e: Ty, x: Arg)
    requires x.Slice? && EncItems(ArrayStart(pos, Print(e)[0]), Print(e), x.items).Ok?
    ensures var c := Print(e)[0];
      var d := EncItems(ArrayStart(pos, c), Print(e), x.items).value;
      EncValue(pos, Print(TArray(e)), x)
      == Ok(Piece(ArrayHead(pos, c, |d.bytes|) + d.bytes, d.exact && |d.bytes| < Limit(4)))
  {
    ArrayStep(AsIs, [], pos, Print(e), x);
    PrintStart(e);
    hide EncValue, EncItems, AlignmentOf, Limit, ArrayHead, ArrayStart;
  }

  lemma {:induction false} ArrayOfEntries(pos: nat, k: Basic, v: Ty, x: Arg)
    requires x.Dict? && EncEntries(ArrayStart(pos, OPEN_DICT), [Code(k)], Print(v), x.entries).Ok?
    ensures var d := EncEntries(ArrayStart(pos, OPEN_DICT), [Code(k)], Print(v), x.entries).value;
      EncValue(pos, Print(TDict(k, v)), x)
      == Ok(Piece(ArrayHead(pos, OPEN_DICT, |d.bytes|) + d.bytes, d.exact && |d.bytes| < Limit(4)))
  {
    ArrayStep(AsIs, [], pos, PrintEntry(k, v), x);
    SplitDictEntryPrint(k, v);
    hide EncValue, EncEntries, AlignmentOf, Limit, ArrayHead, ArrayStart, SplitDictEntry;
  }

  /** Where the two alignments of the element lead to the same offset. */
  ghost predicate SameStart(l: Layout, pos: nat, e: Ty) {
    var p := pos + Pad(pos, 4) + 4;
    Pad(p, ElementAlignment(l, e)) == Pad(p, AlignmentOf(Print(e)[0]))
  }

  lemma {:induction false} StartsAgree(l: Layout, pos: nat, e: Ty)
    requires l.Standard? && e == TVariant ==> (pos + Pad(pos, 4) + 4) % 8 == 0
    ensures SameStart(l, pos, e)
  {
    if e == TVariant { BracketAlignment(); } else { AlignmentAgrees(e); }
  }

  lemma {:induction false} ArrayConforms(l: Layout, buf: Str, pos: nat, e: Ty, x: Arg)
    requires x.Slice? && SameStart(l, pos, e)
    requires ItemsConform(l, buf, ArrayStart(pos, Print(e)[0]), e, x.items)
    ensures Conforms(l, buf, pos, TArray(e), x)
  {
    hide EncValue, EncItems, AlignmentOf, Limit, Print;
    hide ArrayHead, ArrayStart, ArrayAt, View, SameStart, ElementAlignment;
    ArrayOfItems(pos, e, x);
    var c := Print(e)[0];
    var start := ArrayStart(pos, c);
    var d := EncItems(start, Print(e), x.items).value;
    if d.exact && |d.bytes| < Limit(4) && At(buf, pos, ArrayHead(pos, c, |d.bytes|) + d.bytes) {
      ArrayHeadConforms(buf, pos, c, d.bytes);
      OtherAlignment(l, buf, pos, e, start + |d.bytes|);
    }
  }

  lemma {:induction false} OtherAlignment(l: Layout, buf: Str, pos: nat, e: Ty, q: nat)
    requires SameStart(l, pos, e)
    requires ArrayAt(buf, pos, pos + Pad(pos, 4), ArrayStart(pos, Print(e)[0]), AlignmentOf(Print(e)[0]), q)
    ensures ArrayAt(buf, pos, pos + Pad(pos, 4), ArrayStart(pos, Print(e)[0]), ElementAlignment(l, e), q)
  {
    hide UnLE, Print, ElementAlignment;
    var p := pos + Pad(pos, 4) + 4;
    PadIsLeast(p, ElementAlignment(l, e));
  }

  lemma {:induction false} DictParts(l: Layout, buf: Str, pos: nat, k: Basic, v: Ty, x: Arg, s: nat, q: nat)
    requires x.Dict? && ArrayAt(buf, pos, pos + Pad(pos, 4), s, 8, q)
    requires MarshalledEntries(l, buf, s, k, v, x.entries, q)
    ensures Marshalled(l, buf, pos, TDict(k, v), x, q)
  {
    hide MarshalledEntries, ArrayAt;
  }

  lemma {:induction false} DictConforms(l: Layout, buf: Str, pos: nat, k: Basic, v: Ty, x: Arg)
    requires x.Dict? && EntriesConform(l, buf, ArrayStart(pos, OPEN_DICT), k, v, x.entries)
    ensures Conforms(l, buf, pos, TDict(k, v), x)
  {
    hide EncValue, EncEntries, AlignmentOf, Limit, Print;
    hide ArrayHead, ArrayStart, ArrayAt, View, Marshalled, MarshalledEntries;
    ArrayOfEntries(pos, k, v, x);
    BracketAlignment();
    var d := EncEntries(ArrayStart(pos, OPEN_DICT), [Code(k)], Print(v), x.entries).value;
    if d.exact && |d.bytes| < Limit(4) && At(buf, pos, ArrayHead(pos, OPEN_DICT, |d.bytes|) + d.bytes) {
      ArrayHeadConforms(buf, pos, OPEN_DICT, d.bytes);
      DictParts(l, buf, pos, k, v, x, ArrayStart(pos, OPEN_DICT), ArrayStart(pos, OPEN_DICT) + |d.bytes|);
    }
  }

  lemma {:induction false} StructConforms(l: Layout, buf: Str, pos: nat, ms: seq<Ty>, x: Arg)
    requires x.Slice? && x.kind == AnySlice && MembersConform(l, buf, pos + Pad(pos, 8), ms, x.items)
    ensures Conforms(l, buf, pos, TStruct(ms), x)
  {
    StructStep(AsIs, buf, pos, PrintAll(ms), x);
    hide EncValue, EncMembers;
    var pad := Piece(Zeros(Pad(pos, 8)), true);
    var m := EncMembers(pos + |pad.bytes|, PrintAll(ms), x.items);
    if m.value.exact && At(buf, pos, Cat(pad, m.value).bytes) {
      CatParts(buf, pos, pad, m.value);
      PadConforms(buf, pos, 8);
    }
  }

  lemma {:induction false} MemberConforms(l: Layout, buf: Str, pos: nat, ms: seq<Ty>, items: seq<Arg>)
    requires ms != [] && items != [] && Conforms(l, buf, pos, ms[0], items[0])
    requires MembersConform(l, buf, pos + |EncValue(pos, Print(ms[0]), items[0]).value.bytes|, ms[1..], items[1..])
    ensures MembersConform(l, buf, pos, ms, items)
  {
    hide EncValue, EncMembers, Print, PrintAll;
    MembersStep(pos, ms, items);
    var a := EncValue(pos, Print(ms[0]), items[0]).value;
    var b := EncMembers(pos + |a.bytes|, PrintAll(ms[1..]), items[1..]).value;
    if At(buf, pos, Cat(a, b).bytes) { CatParts(buf, pos, a, b); }
  }

  lemma {:induction false} ItemConforms(l: Layout, buf: Str, pos: nat, e: Ty, items: seq<Arg>)
    requires items != [] && Conforms(l, buf, pos, e, items[0])
    requires ItemsConform(l, buf, pos + |EncValue(pos, Print(e), items[0]).value.bytes|, e, items[1..])
    ensures ItemsConform(l, buf, pos, e, items)
  {
    hide EncValue, Print;
    var a := EncValue(pos, Print(e), items[0]).value;
    var b := EncItems(pos + |a.bytes|, Print(e), items[1..]).value;
    if At(buf, pos, Cat(a, b).bytes) { CatParts(buf, pos, a, b); }
  }

  ghost predicate PairConforms(l: Layout, buf: Str, pos: nat, k: Basic, v: Ty, e: Entry) {
    var r := EncPair(pos, [Code(k)], Print(v), e);
    && r.Ok?
    && (r.value.exact && At(buf, pos, r.value.bytes) ==>
          MarshalledPair(l, buf, pos, k, v, e, pos + |r.value.bytes|))
  }

  lemma {:induction false} KeyConforms(buf: Str, pos: nat, k: Basic, s: Str)
    requires IsText(k)
    ensures var r := EncKey(pos, [Code(k)], s);
      && r.Ok?
      && (r.value.exact && At(buf, pos, r.value.bytes) ==>
            TextAt(buf, pos, pos + Pad(pos, WidthOf(k)), k, s, pos + |r.value.bytes|))
  {
    BasicOfCode(k);
    var e := EncScalar(pos, k, VString(s)).value;
    if e.exact && At(buf, pos, e.bytes) { ScalarConforms(buf, pos, k, VString(s)); }
    hide EncScalar, ScalarAt, Padding, Pad;
  }

  lemma {:induction false} KeyAndValueConform(l: Layout, buf: Str, pos: nat, k: Basic, v: Ty, e: Entry)
    requires IsText(k)
    requires Conforms(l, buf, pos + |EncKey(pos, [Code(k)], e.key).value.bytes|, v, e.val)
    ensures PairConforms(l, buf, pos, k, v, e)
  {
    hide EncValue, EncKey, Print, TextAt, Marshalled, View, Code, Limit;
    KeyConforms(buf, pos, k, e.key);
    var a := EncKey(pos, [Code(k)], e.key).value;
    var b := EncValue(pos + |a.bytes|, Print(v), e.val).value;
    if At(buf, pos, Cat(a, b).bytes) { CatParts(buf, pos, a, b); }
  }

  lemma {:induction false} DictEntryConforms(l: Layout, buf: Str, pos: nat, k: Basic, v: Ty, e: Entry)
    requires PairConforms(l, buf, pos + Pad(pos, 8), k, v, e)
    ensures EntryConforms(l, buf, pos, k, v, e)
  {
    hide EncPair, Print, Padding, MarshalledPair, View, Code;
    var pad := Piece(Zeros(Pad(pos, 8)), true);
    var b := EncPair(pos + |pad.bytes|, [Code(k)], Print(v), e).value;
    if At(buf, pos, Cat(pad, b).bytes) {
      CatParts(buf, pos, pad, b);
      PadConforms(buf, pos, 8);
    }
  }

  lemma {:induction false} MoreEntriesConform(l: Layout, buf: Str, pos: nat, k: Basic, v: Ty, entries: seq<Entry>)
    requires entries != [] && EntryConforms(l, buf, pos, k, v, entries[0])
    requires var a := EncEntry(pos, [Code(k)], Print(v), entries[0]).value;
      EntriesConform(l, buf, pos + |a.bytes|, k, v, entries[1..])
    ensures EntriesConform(l, buf, pos, k, v, entries)
  {
    hide EncEntry, Print, Code, MarshalledEntry, View;
    var a := EncEntry(pos, [Code(k)], Print(v), entries[0]).value;
    var b := EncEntries(pos + |a.bytes|, [Code(k)], Print(v), entries[1..]).value;
    if At(buf, pos, Cat(a, b).bytes) { CatParts(buf, pos, a, b); }
  }

  // ---- the induction ----

  /** Every exact encoding is laid out by the code's own alignment, at absolute offsets; and
      as the specification says if all arrays of variants, where there are any, are aligned. */
  lemma {:induction false} EncodingConforms(l: Layout, buf: Str, pos: nat, t: Ty, x: Arg)
    requires Encodable(t, x) && (l.Standard? ==> VariantArraysAligned(pos, t, x))
    ensures Conforms(l, buf, pos, t, x)
    decreases x, 1
  {
    hide Conforms, MembersConform, Marshalled, EncValue, AlignedInMembers, Limit;
    match t
    case TBasic(b) => BasicConforms(l, buf, pos, b, x);
    case TVariant =>
      EncodingConforms(l, buf, pos + |EncSignature(x.sig).bytes|, TypeOf(x.sig), x.inner);
      VariantConforms(l, buf, pos, x);
    case TArray(e) => SliceConforms(l, buf, pos, e, x);
    case TDict(k, v) => MapConforms(l, buf, pos, k, v, x);
    case TStruct(ms) =>
      AllMembersConform(l, buf, pos + Pad(pos, 8), ms, x.items);
      StructConforms(l, buf, pos, ms, x);
  }

  lemma {:induction false} BasicConforms(l: Layout, buf: Str, pos: nat, b: Basic, x: Arg)
    requires x.Prim? && HasType(b, x.p)
    ensures Conforms(l, buf, pos, TBasic(b), x)
  {
    BasicOfCode(b);
    var e := EncScalar(pos, b, x.p).value;
    if e.exact && At(buf, pos, e.bytes) { ScalarConforms(buf, pos, b, x.p); }
  }

  lemma {:induction false} SliceConforms(l: Layout, buf: Str, pos: nat, e: Ty, x: Arg)
    requires Encodable(TArray(e), x) && (l.Standard? ==> VariantArraysAligned(pos, TArray(e), x))
    ensures Conforms(l, buf, pos, TArray(e), x)
    decreases x, 0
  {
    hide Conforms, ItemsConform, AlignedInItems;
    AllItemsConform(l, buf, ArrayStart(pos, Print(e)[0]), e, x.items);
    StartsAgree(l, pos, e);
    ArrayConforms(l, buf, pos, e, x);
  }

  lemma {:induction false} MapConforms(l: Layout, buf: Str, pos: nat, k: Basic, v: Ty, x: Arg)
    requires Encodable(TDict(k, v), x) && (l.Standard? ==> VariantArraysAligned(pos, TDict(k, v), x))
    ensures Conforms(l, buf, pos, TDict(k, v), x)
    decreases x, 0
  {
    hide Conforms, EntriesConform, AlignedInEntries;
    AllEntriesConform(l, buf, ArrayStart(pos, OPEN_DICT), k, v, x.entries);
    DictConforms(l, buf, pos, k, v, x);
  }

  lemma {:induction false} AllItemsConform(l: Layout, buf: Str, pos: nat, e: Ty, items: seq<Arg>)
    requires Good(e) && AcceptsItems(e, items) && (l.Standard? ==> AlignedInItems(pos, e, items))
    ensures ItemsConform(l, buf, pos, e, items)
    decreases items, 2
  {
    hide EncValue, Print, Marshalled;
    if items != [] {
      EncodingConforms(l, buf, pos, e, items[0]);
      AllItemsConform(l, buf, pos + |EncValue(pos, Print(e), items[0]).value.bytes|, e, items[1..]);
      ItemConforms(l, buf, pos, e, items);
    }
  }

  lemma {:induction false} NoMembersConform(l: Layout, buf: Str, pos: nat, items: seq<Arg>)
    requires items == []
    ensures MembersConform(l, buf, pos, [], items)
  {
  }

  lemma {:induction false} AllMembersConform(l: Layout, buf: Str, pos: nat, ms: seq<Ty>, items: seq<Arg>)
    requires GoodAll(ms) && AcceptsMembers(ms, items) && (l.Standard? ==> AlignedInMembers(pos, ms, items))
    ensures MembersConform(l, buf, pos, ms, items)
    decreases items, 2
  {
    hide EncValue, Print, PrintAll, EncMembers, Marshalled, VariantArraysAligned, Accepts, Good, Limit, View;
    if ms == [] {
      NoMembersConform(l, buf, pos, items);
    } else {
      hide MembersConform;
      EncodingConforms(l, buf, pos, ms[0], items[0]);
      AllMembersConform(l, buf, pos + |EncValue(pos, Print(ms[0]), items[0]).value.bytes|, ms[1..], items[1..]);
      MemberConforms(l, buf, pos, ms, items);
    }
  }

  lemma {:induction false} AllEntriesConform(l: Layout, buf: Str, pos: nat, k: Basic, v: Ty, entries: seq<Entry>)
    requires IsText(k) && Good(v) && AcceptsEntries(v, entries)
    requires l.Standard? ==> AlignedInEntries(pos, k, v, entries)
    ensures EntriesConform(l, buf, pos, k, v, entries)
    decreases entries, 4
  {
    hide EncEntry, Print, EncValue, EncKey, EncPair;
    if entries != [] {
      var e := entries[0];
      var p := pos + Pad(pos, 8);
      KeyConforms(buf, p, k, e.key);
      EncodingConforms(l, buf, p + |EncKey(p, [Code(k)], e.key).value.bytes|, v, e.val);
      KeyAndValueConform(l, buf, p, k, v, e);
      DictEntryConforms(l, buf, pos, k, v, e);
      AllEntriesConform(l, buf, pos + |EncEntry(pos, [Code(k)], Print(v), e).value.bytes|, k, v, entries[1..]);
      MoreEntriesConform(l, buf, pos, k, v, entries);
    }
  }

  // ---- arrays of variants ----

  /** The code gives a variant alignment 8, the specification 1: an array of variants
      conforms exactly when its elements happen to start 8-aligned. */
  lemma {:induction false} VariantArrayConformsIff(buf: Str, pos: nat, x: Arg)
    requires Encodable(TArray(TVariant), x) && AlignedInItems(ArrayStart(pos, VARIANT), TVariant, x.items)
    requires var e := EncValue(pos, Print(TArray(TVariant)), x); e.Ok? && e.value.exact && At(buf, pos, e.value.bytes)
    ensures var e := EncValue(pos, Print(TArray(TVariant)), x).value;
      Marshalled(Standard, buf, pos, TArray(TVariant), x, pos + |e.bytes|) <==> (pos + Pad(pos, 4) + 4) % 8 == 0
  {
    hide EncValue, EncItems, Limit, MarshalledItems, ArrayHead, ArrayStart, ArrayAt, View, AlignmentOf, Marshalled, Pad;
    var start := ArrayStart(pos, VARIANT);
    AllItemsConform(Standard, buf, start, TVariant, x.items);
    ArrayOfItems(pos, TVariant, x);
    BracketAlignment();
    var d := EncItems(start, [VARIANT], x.items).value;
    ArrayHeadConforms(buf, pos, VARIANT, d.bytes);
    VariantArrayIff(buf, pos, x, start + |d.bytes|);
    assert |ArrayHead(pos, VARIANT, |d.bytes|)| == start - pos;
  }

  lemma {:induction false} VariantArrayIff(buf: Str, pos: nat, x: Arg, q: nat)
    requires var start := ArrayStart(pos, VARIANT);
      && x.Slice? && ArrayAt(buf, pos, pos + Pad(pos, 4), start, 8, q)
      && MarshalledItems(Standard, buf, start, TVariant, x.items, q)
    ensures Marshalled(Standard, buf, pos, TArray(TVariant), x, q) <==> (pos + Pad(pos, 4) + 4) % 8 == 0
  {
    hide MarshalledItems;
    var p := pos + Pad(pos, 4) + 4;
    var start := ArrayStart(pos, VARIANT);
    assert start == p + Pad(p, 8);
    if p % 8 == 0 {
      assert ArrayAt(buf, pos, pos + Pad(pos, 4), start, ElementAlignment(Standard, TVariant), q);
    } else {
      forall a, s | ArrayAt(buf, pos, a, s, ElementAlignment(Standard, TVariant), q)
        ensures false
      {
        FirstAligned(pos, a);
      }
    }
  }

  lemma {:induction false} FirstAligned(pos: nat, a: nat)
    requires pos <= a < pos + 4 && Aligned(a, 4)
    ensures a == pos + Pad(pos, 4)
  {
    PadIsFirst(pos, a, 4);
  }

  lemma {:induction false} PadIsFirst(pos: nat, a: nat, n: Width)
    requires pos <= a < pos + n && Aligned(a, n)
    ensures a == pos + Pad(pos, n)
  {
    PadIsLeast(pos, n);
  }

  // ---- the condition, too, depends on the offset modulo 8 only ----

  lemma {:induction false} AlignedShift(pos: nat, shift: nat, t: Ty, x: Arg)
    requires shift % 8 == 0
    ensures VariantArraysAligned(pos + shift, t, x) == VariantArraysAligned(pos, t, x)
    decreases x, 1
  {
    hide AlignedInItems, AlignedInEntries, AlignedInMembers, AlignmentOf, Print, Complete, ArrayStart, EncSignature;
    match t
    case TBasic(_) =>
    case TVariant =>
      if x.Variant? && Complete(x.sig) {
        AlignedShift(pos + |EncSignature(x.sig).bytes|, shift, TypeOf(x.sig), x.inner);
      }
    case TArray(e) => AlignedSliceShift(pos, shift, e, x);
    case TDict(k, v) => AlignedMapShift(pos, shift, k, v, x);
    case TStruct(ms) =>
      PadShift(pos, shift, 8);
      if x.Slice? { AlignedMembersShift(pos + Pad(pos, 8), shift, ms, x.items); }
  }

  lemma {:induction false} AlignedSliceShift(pos: nat, shift: nat, e: Ty, x: Arg)
    requires shift % 8 == 0
    ensures VariantArraysAligned(pos + shift, TArray(e), x) == VariantArraysAligned(pos, TArray(e), x)
    decreases x, 0
  {
    hide AlignedInItems, AlignmentOf, Print, ArrayStart, Pad;
    PadShift(pos, shift, 4);
    StartShift(pos, shift, Print(e)[0]);
    if x.Slice? { AlignedItemsShift(ArrayStart(pos, Print(e)[0]), shift, e, x.items); }
  }

  lemma {:induction false} AlignedMapShift(pos: nat, shift: nat, k: Basic, v: Ty, x: Arg)
    requires shift % 8 == 0
    ensures VariantArraysAligned(pos + shift, TDict(k, v), x) == VariantArraysAligned(pos, TDict(k, v), x)
    decreases x, 0
  {
    hide AlignedInEntries, AlignmentOf, Print, ArrayStart, Pad;
    StartShift(pos, shift, OPEN_DICT);
    if x.Dict? { AlignedEntriesShift(ArrayStart(pos, OPEN_DICT), shift, k, v, x.entries); }
  }

  lemma {:induction false} StartShift(pos: nat, shift: nat, c: Byte)
    requires shift % 8 == 0
    ensures Pad(pos + shift, 4) == Pad(pos, 4) && ArrayStart(pos + shift, c) == ArrayStart(pos, c) + shift
  {
    PadShift(pos, shift, 4);
    PadShift(pos + Pad(pos, 4) + 4, shift, AlignmentOf(c));
  }

  lemma {:induction false} AlignedItemsShift(pos: nat, shift: nat, e: Ty, items: seq<Arg>)
    requires shift % 8 == 0
    ensures AlignedInItems(pos + shift, e, items) == AlignedInItems(pos, e, items)
    decreases items, 0
  {
    hide EncValue, VariantArraysAligned, Print;
    if items != [] {
      AlignedShift(pos, shift, e, items[0]);
      EncodeShift(pos, shift, Print(e), items[0]);
      AlignedItemsShift(pos + Size(EncValue(pos, Print(e), items[0])), shift, e, items[1..]);
    }
  }

  lemma {:induction false} AlignedMembersShift(pos: nat, shift: nat, ms: seq<Ty>, items: seq<Arg>)
    requires shift % 8 == 0
    ensures AlignedInMembers(pos + shift, ms, items) == AlignedInMembers(pos, ms, items)
    decreases items, 0
  {
    hide EncValue, VariantArraysAligned, Print;
    if ms != [] && items != [] {
      AlignedShift(pos, shift, ms[0], items[0]);
      EncodeShift(pos, shift, Print(ms[0]), items[0]);
      AlignedMembersShift(pos + Size(EncValue(pos, Print(ms[0]), items[0])), shift, ms[1..], items[1..]);
    }
  }

  lemma {:induction false} EntryShift(pos: nat, shift: nat, ks: Str, vs: Str, e: Entry)
    requires shift % 8 == 0 && ks != []
    ensures EncEntry(pos + shift, ks, vs, e) == EncEntry(pos, ks, vs, e)
  {
    hide EncPair;
    PadShift(pos, shift, 8);
    PairShift(pos + Pad(pos, 8), shift, ks, vs, e);
  }

  lemma {:induction false} AlignedEntriesShift(pos: nat, shift: nat, k: Basic, v: Ty, entries: seq<Entry>)
    requires shift % 8 == 0
    ensures AlignedInEntries(pos + shift, k, v, entries) == AlignedInEntries(pos, k, v, entries)
    decreases entries, 4
  {
    hide EncPair, EncKey, EncEntry, VariantArraysAligned, Print, Pad, Code;
    if entries != [] {
      var e := entries[0];
      var p := pos + Pad(pos, 8);
      PadShift(pos, shift, 8);
      KeyShift(p, shift, [Code(k)], e.key);
      AlignedShift(p + Size(EncKey(p, [Code(k)], e.key)), shift, v, e.val);
      EntryShift(pos, shift, [Code(k)], Print(v), e);
      AlignedEntriesShift(pos + Size(EncEntry(pos, [Code(k)], Print(v), e)), shift, k, v, entries[1..]);
    }
  }
}
