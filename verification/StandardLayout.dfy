/** Exactly which encodings the specification describes. */
module StandardLayout {
  import opened Bytes
  import opened Signature
  import opened Values
  import opened Wire
  import opened Conformance

  /** No array of variants is empty, inside inline signatures either. The padding that the
      code puts behind the length of an empty one can coincide with padding that is due
      there in any case. */
  ghost predicate VariantArraysNonempty(t: Ty, x: Arg)
    decreases x
  {
    match t
    case TBasic(_) => true
    case TVariant => x.Variant? && Complete(x.sig) ==> VariantArraysNonempty(TypeOf(x.sig), x.inner)
    case TArray(e) => x.Slice? ==> (e == TVariant ==> x.items != []) && NonemptyInItems(e, x.items)
    case TDict(_, v) => x.Dict? ==> NonemptyInEntries(v, x.entries)
    case TStruct(ms) => x.Slice? ==> NonemptyInMembers(ms, x.items)
  }

  ghost predicate NonemptyInItems(e: Ty, items: seq<Arg>)
    decreases items
  {
    items == [] || (VariantArraysNonempty(e, items[0]) && NonemptyInItems(e, items[1..]))
  }

  ghost predicate NonemptyInMembers(ms: seq<Ty>, items: seq<Arg>)
    decreases items
  {
    ms == [] || items == [] || (VariantArraysNonempty(ms[0], items[0]) && NonemptyInMembers(ms[1..], items[1..]))
  }

  ghost predicate NonemptyInEntries(v: Ty, entries: seq<Entry>)
    decreases entries
  {
    entries == [] || (VariantArraysNonempty(v, entries[0].val) && NonemptyInEntries(v, entries[1..]))
  }

  /** An exact encoding that lies at `p`. */
  predicate LiesAt(buf: Str, p: nat, r: Outcome<Piece>) {
    r.Ok? && r.value.exact && At(buf, p, r.value.bytes)
  }

  // ---- where the parts end, by the specification ----

  lemma {:induction false} ScalarEnd(buf: Str, p: nat, a: nat, b: Basic, v: Scalar, q: nat)
    requires HasType(b, v) && Padding(buf, p, a, WidthOf(b)) && ScalarAt(buf, a, b, v, q)
    ensures q == p + |EncScalar(p, b, v).value.bytes|
  {
    hide LE, UnLE;
    PadIsFirst(p, a, WidthOf(b));
  }

  lemma {:induction false} SignatureEnd(buf: Str, p: nat, sig: Str, m: nat)
    requires ScalarAt(buf, p, G, VString(sig), m)
    ensures m == p + |EncSignature(sig).bytes|
  {
    hide LE, UnLE;
  }

  /** A variant begins with the length of its signature, which is not empty. */
  lemma {:induction false} VariantStart(buf: Str, p: nat, x: Arg, q: nat)
    requires Marshalled(Standard, buf, p, TVariant, x, q)
    ensures p < |buf| && buf[p] != 0
  {
    var m :| ScalarAt(buf, p, G, VString(x.sig), m) && Marshalled(Standard, buf, m, TypeOf(x.sig), x.inner, q);
    hide Marshalled;
    assert UnLE(buf[p..p + 1]) == buf[p];
    assert x.sig == Print(TypeOf(x.sig));
  }

  // ---- a layout by the specification is the encoder's, and aligned ----

  lemma {:induction false} LaidOutOnce(buf: Str, pos: nat, t: Ty, x: Arg, q: nat)
    requires Encodable(t, x) && VariantArraysNonempty(t, x) && LiesAt(buf, pos, EncValue(pos, Print(t), x))
    requires Marshalled(Standard, buf, pos, t, x, q)
    ensures q == pos + Size(EncValue(pos, Print(t), x)) && VariantArraysAligned(pos, t, x)
    decreases x, 1
  {
    hide EncValue, AlignedInItems, AlignedInMembers, AlignedInEntries, ArrayAt, ScalarAt, Padding, View;
    hide MarshalledItems, MarshalledMembers, MarshalledEntries;
    match t
    case TBasic(b) =>
      var a :| Padding(buf, pos, a, WidthOf(b)) && ScalarAt(buf, a, b, x.p, q);
      BasicOnce(buf, pos, a, b, x, q);
    case TVariant =>
      var m :| ScalarAt(buf, pos, G, VString(x.sig), m) && Marshalled(Standard, buf, m, TypeOf(x.sig), x.inner, q);
      VariantOnce(buf, pos, x, m, q);
    case TArray(e) =>
      var a, s :| ArrayAt(buf, pos, a, s, ElementAlignment(Standard, e), q)
               && MarshalledItems(Standard, buf, s, e, x.items, q);
      ArrayOnce(buf, pos, e, x, a, s, q);
    case TDict(k, v) =>
      var a, s :| ArrayAt(buf, pos, a, s, 8, q) && MarshalledEntries(Standard, buf, s, k, v, x.entries, q);
      DictOnce(buf, pos, k, v, x, a, s, q);
    case TStruct(ms) =>
      var a :| Padding(buf, pos, a, 8) && MarshalledMembers(Standard, buf, a, ms, x.items, q);
      StructOnce(buf, pos, ms, x, a, q);
  }

  lemma {:induction false} BasicOnce(buf: Str, pos: nat, a: nat, b: Basic, x: Arg, q: nat)
    requires x.Prim? && HasType(b, x.p) && Padding(buf, pos, a, WidthOf(b)) && ScalarAt(buf, a, b, x.p, q)
    ensures q == pos + Size(EncValue(pos, [Code(b)], x))
  {
    BasicOfCode(b);
    ScalarEnd(buf, pos, a, b, x.p, q);
  }

  lemma {:induction false} VariantOnce(buf: Str, pos: nat, x: Arg, m: nat, q: nat)
    requires Encodable(TVariant, x) && VariantArraysNonempty(TVariant, x)
    requires LiesAt(buf, pos, EncValue(pos, [VARIANT], x))
    requires ScalarAt(buf, pos, G, VString(x.sig), m) && Marshalled(Standard, buf, m, TypeOf(x.sig), x.inner, q)
    ensures q == pos + Size(EncValue(pos, [VARIANT], x)) && VariantArraysAligned(pos, TVariant, x)
    decreases x, 0
  {
    hide EncValue, EncSignature, Marshalled, ScalarAt, Complete, View;
    EncodingConforms(Own, buf, m, TypeOf(x.sig), x.inner);
    SignatureEnd(buf, pos, x.sig, m);
    VariantStep(AsIs, buf, pos, x);
    var s := EncSignature(x.sig);
    CatParts(buf, pos, s, EncValue(m, x.sig, x.inner).value);
    LaidOutOnce(buf, m, TypeOf(x.sig), x.inner, q);
  }

  /** Where the array's length and first element are, and that the length is that of the elements. */
  lemma {:induction false} HeadOnce(buf: Str, pos: nat, c: Byte, data: Str, a: nat, s: nat, n: Width, q: nat)
    requires |data| < Limit(4) && At(buf, pos, ArrayHead(pos, c, |data|) + data) && ArrayAt(buf, pos, a, s, n, q)
    ensures var p := pos + Pad(pos, 4) + 4;
      && a + 4 == p && s == p + Pad(p, n) && q == s + |data| && At(buf, ArrayStart(pos, c), data)
      && Padding(buf, p, ArrayStart(pos, c), AlignmentOf(c))
  {
    hide UnLE, Limit, ArrayHead, View;
    ArrayHeadConforms(buf, pos, c, data);
    PadIsFirst(pos, a, 4);
    PadIsFirst(a + 4, s, n);
  }

  lemma {:induction false} ArrayOnce(buf: Str, pos: nat, e: Ty, x: Arg, a: nat, s: nat, q: nat)
    requires Encodable(TArray(e), x) && VariantArraysNonempty(TArray(e), x)
    requires LiesAt(buf, pos, EncValue(pos, Print(TArray(e)), x))
    requires ArrayAt(buf, pos, a, s, ElementAlignment(Standard, e), q)
    requires MarshalledItems(Standard, buf, s, e, x.items, q)
    ensures q == pos + Size(EncValue(pos, Print(TArray(e)), x)) && VariantArraysAligned(pos, TArray(e), x)
    decreases x, 0
  {
    hide EncValue, EncItems, Print, ArrayHead, ArrayAt, View, Limit, AlignmentOf, MarshalledItems, Marshalled;
    var c := Print(e)[0];
    var start := ArrayStart(pos, c);
    ItemsEncoded(start, e, x);
    ArrayOfItems(pos, e, x);
    var d := EncItems(start, Print(e), x.items).value;
    HeadOnce(buf, pos, c, d.bytes, a, s, ElementAlignment(Standard, e), q);
    var p := pos + Pad(pos, 4) + 4;
    if e == TVariant { VariantsStart(buf, p, start, x.items, q); }
    StartsAgree(Standard, pos, e);
    ItemsOnce(buf, start, e, x.items, q);
  }

  lemma {:induction false} ItemsEncoded(pos: nat, e: Ty, x: Arg)
    requires Encodable(TArray(e), x)
    ensures EncItems(pos, Print(e), x.items).Ok?
  {
    AllItemsConform(Own, [], pos, e, x.items);
  }

  /** Where a variant begins there is no padding. */
  lemma {:induction false} VariantsStart(buf: Str, p: nat, start: nat, items: seq<Arg>, q: nat)
    requires items != [] && Padding(buf, p, start, AlignmentOf(Print(TVariant)[0]))
    requires MarshalledItems(Standard, buf, p, TVariant, items, q)
    ensures p % 8 == 0
  {
    var m :| Marshalled(Standard, buf, p, TVariant, items[0], m)
          && MarshalledItems(Standard, buf, m, TVariant, items[1..], q);
    hide Marshalled, MarshalledItems;
    BracketAlignment();
    VariantStart(buf, p, items[0], m);
    assert start == p;
  }

  lemma {:induction false} ItemsOnce(buf: Str, pos: nat, e: Ty, items: seq<Arg>, q: nat)
    requires Good(e) && AcceptsItems(e, items) && NonemptyInItems(e, items)
    requires LiesAt(buf, pos, EncItems(pos, Print(e), items)) && MarshalledItems(Standard, buf, pos, e, items, q)
    ensures q == pos + Size(EncItems(pos, Print(e), items)) && AlignedInItems(pos, e, items)
    decreases items, 0
  {
    hide EncValue, Print, Marshalled, View, Good, Accepts, VariantArraysAligned, VariantArraysNonempty;
    if items != [] {
      var m :| Marshalled(Standard, buf, pos, e, items[0], m) && MarshalledItems(Standard, buf, m, e, items[1..], q);
      var a := EncValue(pos, Print(e), items[0]).value;
      CatParts(buf, pos, a, EncItems(pos + |a.bytes|, Print(e), items[1..]).value);
      LaidOutOnce(buf, pos, e, items[0], m);
      ItemsOnce(buf, m, e, items[1..], q);
    }
  }

  lemma {:induction false} DictOnce(buf: Str, pos: nat, k: Basic, v: Ty, x: Arg, a: nat, s: nat, q: nat)
    requires Encodable(TDict(k, v), x) && VariantArraysNonempty(TDict(k, v), x)
    requires LiesAt(buf, pos, EncValue(pos, Print(TDict(k, v)), x))
    requires ArrayAt(buf, pos, a, s, 8, q) && MarshalledEntries(Standard, buf, s, k, v, x.entries, q)
    ensures q == pos + Size(EncValue(pos, Print(TDict(k, v)), x)) && VariantArraysAligned(pos, TDict(k, v), x)
    decreases x, 0
  {
    hide EncValue, EncEntries, Print, ArrayHead, ArrayAt, View, Limit, AlignmentOf, MarshalledEntries, Code;
    var start := ArrayStart(pos, OPEN_DICT);
    EntriesEncoded(start, k, v, x);
    ArrayOfEntries(pos, k, v, x);
    BracketAlignment();
    HeadOnce(buf, pos, OPEN_DICT, EncEntries(start, [Code(k)], Print(v), x.entries).value.bytes, a, s, 8, q);
    EntriesOnce(buf, start, k, v, x.entries, q);
  }

  lemma {:induction false} EntriesEncoded(pos: nat, k: Basic, v: Ty, x: Arg)
    requires Encodable(TDict(k, v), x)
    ensures EncEntries(pos, [Code(k)], Print(v), x.entries).Ok?
  {
    AllEntriesConform(Own, [], pos, k, v, x.entries);
  }

  lemma {:induction false} EntriesOnce(buf: Str, pos: nat, k: Basic, v: Ty, entries: seq<Entry>, q: nat)
    requires IsText(k) && Good(v) && AcceptsEntries(v, entries) && NonemptyInEntries(v, entries)
    requires LiesAt(buf, pos, EncEntries(pos, [Code(k)], Print(v), entries))
    requires MarshalledEntries(Standard, buf, pos, k, v, entries, q)
    ensures q == pos + Size(EncEntries(pos, [Code(k)], Print(v), entries)) && AlignedInEntries(pos, k, v, entries)
    decreases entries, 4
  {
    hide EncEntry, Print, MarshalledEntry, View, Good, Accepts, AlignedInEntry, VariantArraysNonempty, Code;
    if entries != [] {
      var e, rest := entries[0], entries[1..];
      var m :| MarshalledEntry(Standard, buf, pos, k, v, e, m) && MarshalledEntries(Standard, buf, m, k, v, rest, q);
      var a := EncEntry(pos, [Code(k)], Print(v), e).value;
      CatParts(buf, pos, a, EncEntries(pos + |a.bytes|, [Code(k)], Print(v), rest).value);
      EntryOnce(buf, pos, k, v, e, m);
      EntriesOnce(buf, m, k, v, rest, q);
    }
  }

  lemma {:induction false} EntryOnce(buf: Str, pos: nat, k: Basic, v: Ty, e: Entry, q: nat)
    requires IsText(k) && Encodable(v, e.val) && VariantArraysNonempty(v, e.val)
    requires LiesAt(buf, pos, EncEntry(pos, [Code(k)], Print(v), e)) && MarshalledEntry(Standard, buf, pos, k, v, e, q)
    ensures q == pos + Size(EncEntry(pos, [Code(k)], Print(v), e)) && AlignedInEntry(pos + Pad(pos, 8), k, v, e)
    decreases e, 3
  {
    hide EncPair, EncKey, Print, Marshalled, TextAt, View;
    hide Good, Accepts, AlignedInEntry, VariantArraysNonempty, Code, Pad;
    var p :| Padding(buf, pos, p, 8) && MarshalledPair(Standard, buf, p, k, v, e, q);
    PadIsFirst(pos, p, 8);
    CatParts(buf, pos, Piece(Zeros(Pad(pos, 8)), true), EncPair(p, [Code(k)], Print(v), e).value);
    var b, m :| TextAt(buf, p, b, k, e.key, m) && Marshalled(Standard, buf, m, v, e.val, q);
    PairOnce(buf, p, k, v, e, b, m, q);
  }

  lemma {:induction false} PairOnce(buf: Str, pos: nat, k: Basic, v: Ty, e: Entry, b: nat, m: nat, q: nat)
    requires IsText(k) && Encodable(v, e.val) && VariantArraysNonempty(v, e.val)
    requires LiesAt(buf, pos, EncPair(pos, [Code(k)], Print(v), e))
    requires TextAt(buf, pos, b, k, e.key, m) && Marshalled(Standard, buf, m, v, e.val, q)
    ensures q == pos + Size(EncPair(pos, [Code(k)], Print(v), e)) && AlignedInEntry(pos, k, v, e)
    decreases e, 2
  {
    hide EncValue, EncKey, TextAt, Print, Marshalled, View, Good, Accepts, VariantArraysAligned, VariantArraysNonempty;
    KeyEnd(buf, pos, b, k, e.key, m);
    var a := EncKey(pos, [Code(k)], e.key).value;
    CatParts(buf, pos, a, EncValue(pos + |a.bytes|, Print(v), e.val).value);
    LaidOutOnce(buf, m, v, e.val, q);
  }

  lemma {:induction false} KeyEnd(buf: Str, pos: nat, b: nat, k: Basic, s: Str, m: nat)
    requires IsText(k) && TextAt(buf, pos, b, k, s, m)
    ensures EncKey(pos, [Code(k)], s).Ok? && m == pos + Size(EncKey(pos, [Code(k)], s))
  {
    BasicOfCode(k);
    ScalarEnd(buf, pos, b, k, VString(s), m);
  }

  lemma {:induction false} StructOnce(buf: Str, pos: nat, ms: seq<Ty>, x: Arg, a: nat, q: nat)
    requires Encodable(TStruct(ms), x) && VariantArraysNonempty(TStruct(ms), x)
    requires LiesAt(buf, pos, EncValue(pos, Print(TStruct(ms)), x))
    requires Padding(buf, pos, a, 8) && MarshalledMembers(Standard, buf, a, ms, x.items, q)
    ensures q == pos + Size(EncValue(pos, Print(TStruct(ms)), x)) && VariantArraysAligned(pos, TStruct(ms), x)
    decreases x, 0
  {
    hide EncValue, EncMembers, PrintAll, MarshalledMembers, View, Pad;
    AllMembersConform(Own, [], a, ms, x.items);
    PadIsFirst(pos, a, 8);
    StructStep(AsIs, buf, pos, PrintAll(ms), x);
    CatParts(buf, pos, Piece(Zeros(Pad(pos, 8)), true), EncMembers(a, PrintAll(ms), x.items).value);
    MembersOnce(buf, a, ms, x.items, q);
  }

  lemma {:induction false} MembersOnce(buf: Str, pos: nat, ms: seq<Ty>, items: seq<Arg>, q: nat)
    requires GoodAll(ms) && AcceptsMembers(ms, items) && NonemptyInMembers(ms, items)
    requires LiesAt(buf, pos, EncMembers(pos, PrintAll(ms), items))
    requires MarshalledMembers(Standard, buf, pos, ms, items, q)
    ensures q == pos + Size(EncMembers(pos, PrintAll(ms), items)) && AlignedInMembers(pos, ms, items)
    decreases items, 0
  {
    hide EncValue, Print, Marshalled, View, Good, Accepts, VariantArraysAligned, VariantArraysNonempty, SplitSig;
    if items != [] {
      var m :| Marshalled(Standard, buf, pos, ms[0], items[0], m)
            && MarshalledMembers(Standard, buf, m, ms[1..], items[1..], q);
      MemberEncoded(pos, ms, items);
      MembersStep(pos, ms, items);
      hide EncMembers, PrintAll;
      var a := EncValue(pos, Print(ms[0]), items[0]).value;
      CatParts(buf, pos, a, EncMembers(pos + |a.bytes|, PrintAll(ms[1..]), items[1..]).value);
      LaidOutOnce(buf, pos, ms[0], items[0], m);
      MembersOnce(buf, m, ms[1..], items[1..], q);
    }
  }

  lemma {:induction false} MemberEncoded(pos: nat, ms: seq<Ty>, items: seq<Arg>)
    requires items != [] && GoodAll(ms) && AcceptsMembers(ms, items)
    ensures var a := EncValue(pos, Print(ms[0]), items[0]);
      a.Ok? && EncMembers(pos + |a.value.bytes|, PrintAll(ms[1..]), items[1..]).Ok?
  {
    hide EncValue, EncMembers, Marshalled, MarshalledMembers, Print, PrintAll, View;
    EncodingConforms(Own, [], pos, ms[0], items[0]);
    var a := EncValue(pos, Print(ms[0]), items[0]).value;
    AllMembersConform(Own, [], pos + |a.bytes|, ms[1..], items[1..]);
  }

  // ---- exactly when ----

  /** An exact encoding whose arrays of variants are nonempty is laid out as the specification
      says if and only if each of these, at any depth, starts its elements 8-aligned. */
  lemma {:induction false} ConformsIff(buf: Str, pos: nat, t: Ty, x: Arg)
    requires Encodable(t, x) && VariantArraysNonempty(t, x) && LiesAt(buf, pos, EncValue(pos, Print(t), x))
    ensures Marshalled(Standard, buf, pos, t, x, pos + Size(EncValue(pos, Print(t), x)))
       <==> VariantArraysAligned(pos, t, x)
  {
    hide EncValue, Marshalled, VariantArraysAligned, VariantArraysNonempty, Accepts, Good, View;
    var end := pos + Size(EncValue(pos, Print(t), x));
    if VariantArraysAligned(pos, t, x) { EncodingConforms(Standard, buf, pos, t, x); }
    if Marshalled(Standard, buf, pos, t, x, end) { LaidOutOnce(buf, pos, t, x, end); }
  }

  const SEVEN := Variant([Code(Y)], Prim(VUint8(7)))

  lemma {:induction false} SevenIs()
    ensures Accepts(TVariant, SEVEN) && VariantArraysNonempty(TVariant, SEVEN)
  {
    assert Print(TBasic(Y)) == [Code(Y)];
    TypeOfPrint(TBasic(Y));
  }

  lemma {:induction false} SevenEncoded(pos: nat)
    ensures var e := EncValue(pos, [VARIANT], SEVEN); e.Ok? && e.value.exact && |e.value.bytes| == 4
  {
    VariantStep(AsIs, [], pos, SEVEN);
    BasicOfCode(Y);
    LimitValues();
    var s := EncSignature([Code(Y)]);
    assert |s.bytes| == 3 && s.exact;
    hide Limit, LE;
    var v := EncValue(pos + 3, [Code(Y)], SEVEN.inner);
    assert v == EncScalar(pos + 3, Y, VUint8(7));
    assert v.Ok? && |v.value.bytes| == 1;
  }

  /** The smallest value that is not: an array of one variant at offset 0, its element at 8
      where the specification has it at 4. */
  lemma {:induction false} OneVariantDiffers()
    ensures var t := TArray(TVariant);
      var x := Slice(AnySlice, [SEVEN]);
      var e := EncValue(0, Print(t), x);
      && Encodable(t, x) && e.Ok? && e.value.exact
      && Marshalled(Own, e.value.bytes, 0, t, x, |e.value.bytes|)
      && !Marshalled(Standard, e.value.bytes, 0, t, x, |e.value.bytes|)
  {
    hide EncValue, EncVariant, Marshalled, Limit;
    hide LE, MarshalledItems, Accepts, VariantArraysNonempty, VariantArraysAligned;
    var t, x := TArray(TVariant), Slice(AnySlice, [SEVEN]);
    OneVariantIs();
    OneVariantEncoded();
    var bytes := EncValue(0, Print(t), x).value.bytes;
    assert bytes[0..|bytes|] == bytes;
    EncodingConforms(Own, bytes, 0, t, x);
    ConformsIff(bytes, 0, t, x);
    Misaligned(x);
  }

  lemma {:induction false} OneVariantIs()
    ensures Encodable(TArray(TVariant), Slice(AnySlice, [SEVEN]))
    ensures VariantArraysNonempty(TArray(TVariant), Slice(AnySlice, [SEVEN]))
  {
    SevenIs();
    assert [SEVEN][1..] == [];
    assert AcceptsItems(TVariant, [SEVEN]) && NonemptyInItems(TVariant, [SEVEN]);
  }

  lemma {:induction false} Misaligned(x: Arg)
    ensures !VariantArraysAligned(0, TArray(TVariant), x)
  {
  }

  lemma {:induction false} OneVariantEncoded()
    ensures var e := EncValue(0, Print(TArray(TVariant)), Slice(AnySlice, [SEVEN])); e.Ok? && e.value.exact
  {
    hide EncValue, EncVariant;
    LimitValues();
    BracketAlignment();
    SevenEncoded(ArrayStart(0, VARIANT));
    assert [SEVEN][1..] == [];
    ArrayOfItems(0, TVariant, Slice(AnySlice, [SEVEN]));
  }

  // ---- why empty arrays of variants are a case of their own ----

  const EMPTY_THEN_ZERO := Slice(AnySlice, [Slice(AnySlice, []), Prim(VUint64(0))])

  const VARIANTS_AND_WORD := TStruct([TArray(TVariant), TBasic(T)])

  lemma {:induction false} ZeroWords(n: nat)
    ensures LE(n, 0) == Zeros(n) && UnLE(Zeros(n)) == 0
  {
    if n > 0 {
      ZeroWords(n - 1);
      assert Zeros(n)[1..] == Zeros(n - 1);
    }
  }

  lemma {:induction false} NoVariantsEncoded()
    ensures EncValue(0, Print(TArray(TVariant)), Slice(AnySlice, [])) == Ok(Piece(Zeros(8), true))
  {
    LimitValues();
    BracketAlignment();
    ZeroWords(4);
    hide Limit, UnLE, LE, EncValue;
    ArrayOfItems(0, TVariant, Slice(AnySlice, []));
    assert ArrayHead(0, VARIANT, 0) + [] == Zeros(8);
  }

  lemma {:induction false} ZeroEncoded()
    ensures EncValue(8, Print(TBasic(T)), Prim(VUint64(0))) == Ok(Piece(Zeros(8), true))
  {
    BasicOfCode(T);
    ZeroScalar();
    hide EncScalar;
  }

  lemma {:induction false} ZeroScalar()
    ensures EncScalar(8, T, VUint64(0)) == Ok(Piece(Zeros(8), true))
  {
    LimitValues();
    ZeroWords(8);
    hide Limit, UnLE, LE;
    assert Pad(8, 8) == 0;
    assert Zeros(0) + Zeros(8) + [] == Zeros(8);
  }

  lemma {:induction false} EmptyEncoded()
    ensures EncValue(0, Print(VARIANTS_AND_WORD), EMPTY_THEN_ZERO) == Ok(Piece(Zeros(16), true))
  {
    hide EncValue, EncMembers, Print, PrintAll, Zeros;
    var ms, items := VARIANTS_AND_WORD.members, EMPTY_THEN_ZERO.items;
    NoVariantsEncoded();
    ZeroEncoded();
    assert ms[1..] == [TBasic(T)] && items[1..] == [items[1]] && [items[1]][1..] == [] && [TBasic(T)][1..] == [];
    MembersStep(0, ms, items);
    MembersStep(8, [TBasic(T)], [items[1]]);
    NothingEncoded();
    StructEncoded(EncMembers(0, PrintAll(ms), items));
  }

  lemma {:induction false} NothingEncoded()
    ensures EncMembers(16, PrintAll([]), []) == Ok(EMPTY)
    ensures Zeros(8) + (Zeros(8) + []) == Zeros(16) && |Zeros(8)| == 8
  {
  }

  lemma {:induction false} StructEncoded(ms: Outcome<Piece>)
    requires ms == EncMembers(0, PrintAll(VARIANTS_AND_WORD.members), EMPTY_THEN_ZERO.items)
    requires ms == Ok(Piece(Zeros(16), true))
    ensures EncValue(0, Print(VARIANTS_AND_WORD), EMPTY_THEN_ZERO) == ms
  {
    hide EncValue, EncMembers, PrintAll;
    StructStep(AsIs, [], 0, PrintAll(VARIANTS_AND_WORD.members), EMPTY_THEN_ZERO);
    assert Zeros(0) + Zeros(16) == Zeros(16);
  }

  lemma {:induction false} NoVariantsLaidOut(buf: Str)
    requires buf == Zeros(16)
    ensures Marshalled(Standard, buf, 0, TArray(TVariant), Slice(AnySlice, []), 4)
  {
    ZeroWords(4);
    hide UnLE, LE;
    assert buf[0..4] == Zeros(4);
    assert ArrayAt(buf, 0, 0, 4, ElementAlignment(Standard, TVariant), 4);
    assert MarshalledItems(Standard, buf, 4, TVariant, [], 4);
  }

  lemma {:induction false} ZeroLaidOut(buf: Str)
    requires buf == Zeros(16)
    ensures Marshalled(Standard, buf, 4, TBasic(T), Prim(VUint64(0)), 16)
  {
    ZeroWords(8);
    hide UnLE, LE;
    assert buf[8..16] == Zeros(8);
    assert Padding(buf, 4, 8, 8) && ScalarAt(buf, 8, T, VUint64(0), 16);
  }

  /** The padding behind an empty array of variants that is not aligned, and that due in front
      of the word after it, are the same bytes: this value is laid out as the specification says. */
  lemma {:induction false} EmptyArrayConforms()
    ensures var e := EncValue(0, Print(VARIANTS_AND_WORD), EMPTY_THEN_ZERO);
      && e.Ok? && e.value.exact
      && Marshalled(Standard, e.value.bytes, 0, VARIANTS_AND_WORD, EMPTY_THEN_ZERO, |e.value.bytes|)
    ensures !VariantArraysAligned(0, VARIANTS_AND_WORD, EMPTY_THEN_ZERO)
  {
    hide EncValue, Marshalled, MarshalledMembers, VariantArraysAligned, Print, Zeros;
    EmptyEncoded();
    var buf := EncValue(0, Print(VARIANTS_AND_WORD), EMPTY_THEN_ZERO).value.bytes;
    NoVariantsLaidOut(buf);
    ZeroLaidOut(buf);
    MembersLaidOut(buf);
    Misaligned(EMPTY_THEN_ZERO.items[0]);
    StructLaidOut(buf);
  }

  lemma {:induction false} MembersLaidOut(buf: Str)
    requires var ms, items := VARIANTS_AND_WORD.members, EMPTY_THEN_ZERO.items;
      Marshalled(Standard, buf, 0, ms[0], items[0], 4) && Marshalled(Standard, buf, 4, ms[1], items[1], 16)
    ensures MarshalledMembers(Standard, buf, 0, VARIANTS_AND_WORD.members, EMPTY_THEN_ZERO.items, 16)
  {
    hide Marshalled;
    var ms, items := VARIANTS_AND_WORD.members, EMPTY_THEN_ZERO.items;
    assert ms[1..][0] == ms[1] && items[1..][0] == items[1];
    assert ms[1..][1..] == [] && items[1..][1..] == [];
    assert MarshalledMembers(Standard, buf, 16, ms[1..][1..], items[1..][1..], 16);
    assert MarshalledMembers(Standard, buf, 4, ms[1..], items[1..], 16);
  }

  lemma {:induction false} StructLaidOut(buf: Str)
    requires |buf| == 16 && MarshalledMembers(Standard, buf, 0, VARIANTS_AND_WORD.members, EMPTY_THEN_ZERO.items, 16)
    requires !VariantArraysAligned(0, TArray(TVariant), EMPTY_THEN_ZERO.items[0])
    ensures Marshalled(Standard, buf, 0, VARIANTS_AND_WORD, EMPTY_THEN_ZERO, 16)
    ensures !VariantArraysAligned(0, VARIANTS_AND_WORD, EMPTY_THEN_ZERO)
  {
    hide MarshalledMembers;
    assert Padding(buf, 0, 0, 8);
    assert Pad(0, 8) == 0;
    assert !AlignedInMembers(0, VARIANTS_AND_WORD.members, EMPTY_THEN_ZERO.items);
  }
}
