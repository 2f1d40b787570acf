/** Messages round trip, and a stream of messages stays in step. */
module MessageLaws {
  import opened Bytes
  import opened Signature
  import opened Values
  import opened Wire
  import opened RoundTrip
  import opened Shift
  import opened Exactness
  import opened Conformance
  import opened Extras
  import opened Message

  // ---- the header fields ----

  lemma {:induction false} FieldAccepted(code: Byte, b: Basic, val: Str)
    requires IsText(b)
    ensures Accepts(FIELD_TYPE, Field(code, b, val))
  {
    TaggedAccepted(code, b, VString(val));
  }

  /** A header field with any scalar in it. */
  function Tagged(code: Byte, b: Basic, p: Scalar): Arg {
    Slice(AnySlice, [Prim(VUint8(code)), Variant([Code(b)], Prim(p))])
  }

  lemma {:induction false} TaggedAccepted(code: Byte, b: Basic, p: Scalar)
    requires HasType(b, p)
    ensures Accepts(FIELD_TYPE, Tagged(code, b, p))
  {
    var x := Tagged(code, b, p);
    assert Print(TBasic(b)) == [Code(b)];
    TypeOfPrint(TBasic(b));
    assert Accepts(TBasic(b), Prim(p));
    assert Accepts(TVariant, x.items[1]);
    var ms := FIELD_TYPE.members;
    assert ms[1..][0] == TVariant && x.items[1..][0] == x.items[1];
    assert AcceptsMembers(ms[1..][1..], x.items[1..][1..]);
    assert AcceptsMembers(ms[1..], x.items[1..]);
    assert Accepts(ms[0], x.items[0]);
  }

  lemma {:induction false} FieldsAccepted(call: Call)
    ensures Encodable(TArray(FIELD_TYPE), Slice(AnySlice, Fields(call)))
  {
    FieldAccepted(FIELD_PATH, O, call.path);
    FieldAccepted(FIELD_INTERFACE, S, call.iface);
    FieldAccepted(FIELD_MEMBER, S, call.member);
    FieldAccepted(FIELD_DESTINATION, S, call.destination);
    FieldAccepted(FIELD_SIGNATURE, G, call.inSig);
    var fs := Fields(call);
    assert Good(FIELD_TYPE) by { assert FIELD_TYPE.members[1..][1..] == []; }
    hide Accepts;
    AllAccepted(FIELD_TYPE, fs);
  }

  lemma {:induction false} AllAccepted(t: Ty, items: seq<Arg>)
    requires forall i :: 0 <= i < |items| ==> Accepts(t, items[i])
    ensures AcceptsItems(t, items)
    decreases items
  {
    hide Accepts;
    if items != [] { AllAccepted(t, items[1..]); }
  }

  function FieldValue(code: Byte, b: Basic, val: Str): Value {
    List([Leaf(VUint8(code)), Boxed([Code(b)], Leaf(VString(val)))])
  }

  lemma {:induction false} FieldAbs(code: Byte, b: Basic, val: Str)
    ensures Abs(Field(code, b, val)) == FieldValue(code, b, val)
  {
    TaggedAbs(code, b, VString(val));
  }

  lemma {:induction false} TaggedAbs(code: Byte, b: Basic, p: Scalar)
    ensures Abs(Tagged(code, b, p)) == List([Leaf(VUint8(code)), Boxed([Code(b)], Leaf(p))])
  {
    var x := Tagged(code, b, p);
    assert x.items[1..][1..] == [];
    assert Abs(x.items[1]) == Boxed([Code(b)], Leaf(p));
  }

  lemma {:induction false} ApplyConcat(m: Msg, a: seq<Value>, b: seq<Value>)
    ensures ApplyFields(m, a + b) == ApplyFields(ApplyFields(m, a), b)
    decreases a
  {
    if a == [] {
      assert a + b == b;
    } else {
      assert (a + b)[1..] == a[1..] + b;
      ApplyConcat(ApplyField(m, a[0]), a[1..], b);
    }
  }

  lemma {:induction false} AbsConcat(a: seq<Arg>, b: seq<Arg>)
    ensures AbsAll(a + b) == AbsAll(a) + AbsAll(b)
  {
  }

  /** Of the fields of a call only the signature leaves a trace in the message read back. */
  lemma {:induction false} FieldsApplied(call: Call, m: Msg)
    requires m.signature == []
    ensures ApplyFields(m, AbsAll(Fields(call))) == m.(signature := call.inSig)
  {
    var a := [Field(FIELD_PATH, O, call.path), Field(FIELD_INTERFACE, S, call.iface),
              Field(FIELD_MEMBER, S, call.member)];
    var b := if call.destination != [] then [Field(FIELD_DESTINATION, S, call.destination)] else [];
    var c := if call.inSig != [] then [Field(FIELD_SIGNATURE, G, call.inSig)] else [];
    FieldAbs(FIELD_PATH, O, call.path);
    FieldAbs(FIELD_INTERFACE, S, call.iface);
    FieldAbs(FIELD_MEMBER, S, call.member);
    FieldAbs(FIELD_DESTINATION, S, call.destination);
    FieldAbs(FIELD_SIGNATURE, G, call.inSig);
    AbsConcat(a + b, c);
    AbsConcat(a, b);
    hide ApplyFields, Abs, AbsAll, Field;
    var u, v := AbsAll(a), AbsAll(b);
    ApplyConcat(m, u + v, AbsAll(c));
    ApplyConcat(m, u, v);
    OthersIgnored(m, u);
    OthersIgnored(m, v);
    if call.inSig != [] {
      assert AbsAll(c) == [FieldValue(FIELD_SIGNATURE, G, call.inSig)];
      ApplyOne(m, FieldValue(FIELD_SIGNATURE, G, call.inSig));
    } else {
      OthersIgnored(m, AbsAll(c));
    }
  }

  lemma {:induction false} ApplyOne(m: Msg, v: Value)
    ensures ApplyFields(m, [v]) == ApplyField(m, v)
  {
    assert [v][1..] == [];
  }

  /** A field of another code. */
  ghost predicate Untold(v: Value) {
    exists code, b, val ::
      v == FieldValue(code, b, val) && code !in [FIELD_REPLY_SERIAL, FIELD_ERROR_NAME, FIELD_SIGNATURE]
  }

  lemma {:induction false} OthersIgnored(m: Msg, fields: seq<Value>)
    requires forall i :: 0 <= i < |fields| ==> Untold(fields[i])
    ensures ApplyFields(m, fields) == m
    decreases fields
  {
    if fields != [] { OthersIgnored(m, fields[1..]); }
  }

  // ---- one message ----

  /** The arguments that count: one for each type of the signature, without extra items inside. */
  ghost function Used(ts: seq<Ty>, call: Call): seq<Arg> { TrimmedMembers(ts, call.args) }

  /** A well-formed call: arguments for the signature, any further ones ignored. */
  ghost predicate GoodCall(ts: seq<Ty>, call: Call) {
    GoodAll(ts) && call.inSig == PrintAll(ts) && AcceptsMembers(ts, Used(ts, call))
  }

  /** Field data, padding, body and tail behind a sixteen-byte head. */
  function Laid(head: Str, data: Str, body: Str, tail: Str): Str
    requires |head| == 16
  {
    head + data + Zeros(Pad(16 + |data|, 8)) + body + tail
  }

  lemma {:induction false} LaidBefore(head: Str, data: Str, body: Str, tail: Str)
    requires |head| == 16
    ensures Laid(head, data, body, []) + tail == Laid(head, data, body, tail)
  {
  }

  function Head(serial: nat, data: Str, body: Str): (h: Str)
    ensures |h| == 16
  {
    Fixed(|body|, serial) + LE(4, |data|)
  }

  lemma {:induction false} HeadWords(serial: nat, data: Str, body: Str)
    requires |data| < Limit(4) && |body| < Limit(4)
    ensures var h := Head(serial, data, body);
      && h[0] == LITTLE_ENDIAN && h[1] == METHOD_CALL
      && UnLE(h[4..8]) == |body| && UnLE(h[12..16]) == |data|
  {
    WordRoundTrip(4, |data|);
    WordRoundTrip(4, |body|);
    hide LE, UnLE, Limit;
    var h := Head(serial, data, body);
    assert h[4..8] == LE(4, |body|) && h[12..16] == LE(4, |data|);
  }

  /** The reader cuts a laid-out message exactly where its parts were joined. */
  lemma {:induction false} CutLaid(head: Str, data: Str, body: Str, tail: Str)
    requires |head| == 16 && head[0] == LITTLE_ENDIAN
    requires UnLE(head[4..8]) == |body| && UnLE(head[12..16]) == |data|
    ensures CutFrame(Laid(head, data, body, tail)) == Frame(head[1], data, body, tail)
  {
    hide UnLE, Pad;
    var z := Zeros(Pad(16 + |data|, 8));
    var s := Laid(head, data, body, tail);
    assert s[4..8] == head[4..8] && s[12..16] == head[12..16];
    assert s == head + (data + z + body + tail);
    assert s[16..16 + |data|] == data;
    var b := BodyStart(s);
    assert b == 16 + |data| + |z|;
    assert s[b..b + |body|] == body;
    assert s[b + |body|..] == tail;
  }

  /** Where the fields of a call start: offset 16, 8-aligned, so the bytes are those encoded from offset 0. */
  lemma {:induction false} FieldBytes(call: Call)
    ensures var d := EncItems(0, Print(FIELD_TYPE), Fields(call));
      && d.Ok?
      && EncValue(12, Print(TArray(FIELD_TYPE)), Slice(AnySlice, Fields(call)))
         == Ok(Piece(LE(4, |d.value.bytes|) + d.value.bytes, d.value.exact && |d.value.bytes| < Limit(4)))
  {
    var x := Slice(AnySlice, Fields(call));
    FieldsAccepted(call);
    FirstByte(FIELD_TYPE);
    assert AlignmentOf(OPEN_STRUCT) == 8 && ArrayStart(12, OPEN_STRUCT) == 16;
    ItemsShift(0, 16, Print(FIELD_TYPE), Fields(call));
    ItemsRT(AsIs, [], 0, FIELD_TYPE, Fields(call));
    ArrayOfItems(12, FIELD_TYPE, x);
    var n := |EncItems(0, Print(FIELD_TYPE), Fields(call)).value.bytes|;
    assert ArrayHead(12, OPEN_STRUCT, n) == LE(4, n);
    hide EncValue, EncItems, LE, Print, Fields;
  }

  /** A call that can be encoded, part by part. */
  lemma {:induction false} CallParts(serial: nat, call: Call)
    requires EncMembers(0, call.inSig, call.args).Ok?
    ensures var d := EncItems(0, Print(FIELD_TYPE), Fields(call));
      var b := EncMembers(0, call.inSig, call.args);
      var e := EncCall(serial, call);
      && d.Ok? && e.Ok?
      && e.value.bytes == Laid(Head(serial, d.value.bytes, b.value.bytes), d.value.bytes, b.value.bytes, [])
      && e.value.exact == (d.value.exact && b.value.exact && |d.value.bytes| < Limit(4) && |b.value.bytes| < Limit(4))
  {
    hide EncValue, EncItems, EncMembers, LE, Print, Fields, Limit, Pad, Fixed;
    FieldBytes(call);
    var d := EncItems(0, Print(FIELD_TYPE), Fields(call)).value.bytes;
    var b := EncMembers(0, call.inSig, call.args).value.bytes;
    var f := Fixed(|b|, serial);
    var z := Zeros(Pad(16 + |d|, 8));
    assert f + (LE(4, |d|) + d) + z + b == f + LE(4, |d|) + d + z + b + [];
  }

  /** A well-formed call can be. */
  lemma {:induction false} CallLaid(serial: nat, ts: seq<Ty>, call: Call)
    requires GoodCall(ts, call)
    ensures var d := EncItems(0, Print(FIELD_TYPE), Fields(call));
      var b := EncMembers(0, call.inSig, call.args);
      var e := EncCall(serial, call);
      && d.Ok? && b.Ok? && e.Ok?
      && e.value.bytes == Laid(Head(serial, d.value.bytes, b.value.bytes), d.value.bytes, b.value.bytes, [])
      && e.value.exact == (d.value.exact && b.value.exact && |d.value.bytes| < Limit(4) && |b.value.bytes| < Limit(4))
  {
    hide EncValue, EncItems, EncMembers, EncCall, Print, PrintAll, Fields, Limit, GoodAll, AcceptsMembers;
    MembersTrimmed(0, ts, call.args);
    MembersRT(AsIs, [], 0, ts, Used(ts, call));
    CallParts(serial, call);
  }

  /** Message round trip: reading an encoded call, whatever follows it on the stream,
      gives back its type, signature and arguments, and leaves exactly what followed. */
  lemma {:induction false} CallRoundTrip(serial: nat, ts: seq<Ty>, call: Call, tail: Str)
    requires GoodCall(ts, call)
    ensures var e := EncCall(serial, call);
      && e.Ok?
      && (e.value.exact ==>
            ReadMsg(e.value.bytes + tail)
            == (Ok(Msg(METHOD_CALL, 0, [], call.inSig, AbsAll(Used(ts, call)))), tail))
  {
    hide EncCall, EncItems, EncMembers, LE, UnLE, Print, PrintAll, Fields, Limit, Pad, CutFrame, DecodeFrame;
    hide GoodCall, Used, Laid, Head;
    CallLaid(serial, ts, call);
    var d := EncItems(0, Print(FIELD_TYPE), Fields(call)).value;
    var b := EncMembers(0, call.inSig, call.args).value;
    var e := EncCall(serial, call).value;
    if e.exact {
      var h := Head(serial, d.bytes, b.bytes);
      HeadWords(serial, d.bytes, b.bytes);
      CutLaid(h, d.bytes, b.bytes, tail);
      LaidBefore(h, d.bytes, b.bytes, tail);
      FrameDecodes(ts, call, d, b);
    }
  }

  lemma {:induction false} FrameDecodes(ts: seq<Ty>, call: Call, d: Piece, b: Piece)
    requires GoodCall(ts, call)
    requires EncItems(0, Print(FIELD_TYPE), Fields(call)) == Ok(d) && d.exact
    requires EncMembers(0, call.inSig, call.args) == Ok(b) && b.exact
    ensures DecodeFrame(METHOD_CALL, d.bytes, b.bytes)
         == Ok(Msg(METHOD_CALL, 0, [], call.inSig, AbsAll(Used(ts, call))))
  {
    var args := Used(ts, call);
    FieldsAccepted(call);
    ItemsRT(AsIs, d.bytes, 0, FIELD_TYPE, Fields(call));
    MembersTrimmed(0, ts, call.args);
    MembersRT(AsIs, b.bytes, 0, ts, args);
    assert d.bytes[0..|d.bytes|] == d.bytes && b.bytes[0..|b.bytes|] == b.bytes;
    FieldsApplied(call, Msg(METHOD_CALL, 0, [], [], []));
    PrintStart(FIELD_TYPE);
    assert ts == [] <==> call.inSig == [];
    if ts == [] { assert AbsAll(args) == []; }
    hide EncItems, EncMembers, DecItems, DecMembers, Print, PrintAll, Fields, AbsAll;
  }

  /** What a caller can check: short signatures and a message under 4 GiB. */
  lemma {:induction false} SmallCallIsExact(serial: nat, ts: seq<Ty>, call: Call)
    requires GoodCall(ts, call) && |call.inSig| < 0x100 && ShortMembers(ts, Used(ts, call))
    ensures var e := EncCall(serial, call);
      e.Ok? && (|e.value.bytes| < TWO_TO_THE_32 ==> e.value.exact)
  {
    CallLaid(serial, ts, call);
    MembersTrimmed(0, ts, call.args);
    MembersFit(0, ts, Used(ts, call));
    FieldsAccepted(call);
    FieldsShort(call);
    LimitValues();
    hide EncItems, EncMembers, EncCall, Print, PrintAll, Fields, Limit, LE;
    ItemsFit(0, FIELD_TYPE, Fields(call));
  }

  lemma {:induction false} FieldsShort(call: Call)
    requires |call.inSig| < 0x100
    ensures ShortItems(FIELD_TYPE, Fields(call))
  {
    FieldShort(FIELD_PATH, O, call.path);
    FieldShort(FIELD_INTERFACE, S, call.iface);
    FieldShort(FIELD_MEMBER, S, call.member);
    FieldShort(FIELD_DESTINATION, S, call.destination);
    FieldShort(FIELD_SIGNATURE, G, call.inSig);
    hide ShortSignatures;
    AllShort(FIELD_TYPE, Fields(call));
  }

  lemma {:induction false} FieldShort(code: Byte, b: Basic, val: Str)
    requires b == G ==> |val| < 0x100
    ensures ShortSignatures(FIELD_TYPE, Field(code, b, val))
  {
    var x := Field(code, b, val);
    assert Print(TBasic(b)) == [Code(b)];
    TypeOfPrint(TBasic(b));
    assert Limit(1) == 0x100 * Limit(0);
    assert ShortSignatures(TVariant, x.items[1]);
    var ms := FIELD_TYPE.members;
    assert ms[1..][0] == TVariant && x.items[1..][0] == x.items[1];
    assert ShortMembers(ms[1..][1..], x.items[1..][1..]);
    assert ShortMembers(ms[1..], x.items[1..]);
  }

  lemma {:induction false} AllShort(t: Ty, items: seq<Arg>)
    requires forall i :: 0 <= i < |items| ==> ShortSignatures(t, items[i])
    ensures ShortItems(t, items)
    decreases items
  {
    hide ShortSignatures;
    if items != [] { AllShort(t, items[1..]); }
  }

  // ---- layout of a whole message ----

  /** A whole message: fields from offset 12, zero padding, and the body from the next multiple of 8. */
  ghost predicate MarshalledCall(l: Layout, m: Str, ts: seq<Ty>, call: Call) {
    exists fieldsEnd, body ::
      && Marshalled(l, m, 12, TArray(FIELD_TYPE), Slice(AnySlice, Fields(call)), fieldsEnd)
      && Padding(m, fieldsEnd, body, 8)
      && MarshalledMembers(l, m, body, ts, Used(ts, call), |m|)
  }

  /** In every message every scalar, string length, array length, struct and dict entry lies at
      an offset from the start that its alignment divides, with zero padding, although the
      body was encoded on its own from offset zero: by the code's own alignment, and by the
      specification's where all arrays of variants, if there are any, are aligned. */
  lemma {:induction false} CallConforms(l: Layout, serial: nat, ts: seq<Ty>, call: Call)
    requires GoodCall(ts, call) && (l.Standard? ==> AlignedInMembers(0, ts, Used(ts, call)))
    requires EncCall(serial, call).Ok? ==> EncCall(serial, call).value.exact
    ensures EncCall(serial, call).Ok?
    ensures MarshalledCall(l, EncCall(serial, call).value.bytes, ts, call)
  {
    CallLaid(serial, ts, call);
    hide EncItems, EncMembers, EncCall, Print, PrintAll, Fields;
    hide Laid, Head, Marshalled, MarshalledMembers, Padding, Limit;
    var d := EncItems(0, Print(FIELD_TYPE), Fields(call)).value;
    var b := EncMembers(0, call.inSig, call.args).value;
    PartsConform(l, serial, ts, call, d, b);
  }

  lemma {:induction false} PartsConform(l: Layout, serial: nat, ts: seq<Ty>, call: Call, d: Piece, b: Piece)
    requires GoodCall(ts, call) && (l.Standard? ==> AlignedInMembers(0, ts, Used(ts, call)))
    requires EncItems(0, Print(FIELD_TYPE), Fields(call)) == Ok(d) && d.exact && |d.bytes| < Limit(4)
    requires EncMembers(0, call.inSig, call.args) == Ok(b) && b.exact
    ensures var m := Laid(Head(serial, d.bytes, b.bytes), d.bytes, b.bytes, []);
      var end := 16 + |d.bytes|;
      var body := end + Pad(end, 8);
      && Marshalled(l, m, 12, TArray(FIELD_TYPE), Slice(AnySlice, Fields(call)), end)
      && Padding(m, end, body, 8)
      && MarshalledMembers(l, m, body, ts, Used(ts, call), |m|)
  {
    hide EncItems, EncMembers, Print, PrintAll, Fields, LE;
    hide Pad, Marshalled, MarshalledMembers, Padding, Limit, View, Laid;
    var head := Head(serial, d.bytes, b.bytes);
    var m := Laid(head, d.bytes, b.bytes, []);
    var end := 16 + |d.bytes|;
    LaidAt(head, Fixed(|b.bytes|, serial), LE(4, |d.bytes|), d.bytes, b.bytes);
    FieldsConform(l, m, call, d);
    PadConforms(m, end, 8);
    PadIsLeast(end, 8);
    BodyConforms(l, m, end + Pad(end, 8), ts, call, b);
  }

  lemma {:induction false} LaidAt(head: Str, fixed: Str, length: Str, data: Str, body: Str)
    requires head == fixed + length && |fixed| == 12 && |length| == 4
    ensures var m := Laid(head, data, body, []);
      var z := Zeros(Pad(16 + |data|, 8));
      At(m, 12, length + data) && At(m, 16 + |data|, z) && At(m, 16 + |data| + |z|, body)
      && |m| == 16 + |data| + |z| + |body|
  {
    var m := Laid(head, data, body, []);
    var z := Zeros(Pad(16 + |data|, 8));
    hide Pad, Zeros;
    assert m == fixed + (length + data) + z + body;
    assert m[12..16 + |data|] == length + data;
    assert m[16 + |data|..16 + |data| + |z|] == z;
    assert m[16 + |data| + |z|..] == body;
  }

  lemma {:induction false} FieldsConform(l: Layout, m: Str, call: Call, d: Piece)
    requires EncItems(0, Print(FIELD_TYPE), Fields(call)) == Ok(d) && d.exact && |d.bytes| < Limit(4)
    requires At(m, 12, LE(4, |d.bytes|) + d.bytes)
    ensures Marshalled(l, m, 12, TArray(FIELD_TYPE), Slice(AnySlice, Fields(call)), 16 + |d.bytes|)
  {
    FieldBytes(call);
    FieldsAccepted(call);
    FieldsVariantFree(call);
    EncodingConforms(l, m, 12, TArray(FIELD_TYPE), Slice(AnySlice, Fields(call)));
    hide EncItems, EncValue, Print, Fields, LE, Marshalled, Limit;
  }

  lemma {:induction false} FieldsVariantFree(call: Call)
    ensures VariantArraysAligned(12, TArray(FIELD_TYPE), Slice(AnySlice, Fields(call)))
  {
    var fs := Fields(call);
    forall i, pos: nat | 0 <= i < |fs|
      ensures VariantArraysAligned(pos, FIELD_TYPE, fs[i])
    {
      FieldVariantFree(pos, FIELD_PATH, O, call.path);
      FieldVariantFree(pos, FIELD_INTERFACE, S, call.iface);
      FieldVariantFree(pos, FIELD_MEMBER, S, call.member);
      FieldVariantFree(pos, FIELD_DESTINATION, S, call.destination);
      FieldVariantFree(pos, FIELD_SIGNATURE, G, call.inSig);
    }
    hide VariantArraysAligned;
    AllVariantFree(ArrayStart(12, Print(FIELD_TYPE)[0]), FIELD_TYPE, fs);
  }

  lemma {:induction false} FieldVariantFree(pos: nat, code: Byte, b: Basic, val: Str)
    ensures VariantArraysAligned(pos, FIELD_TYPE, Field(code, b, val))
  {
    hide EncValue, Pad, Print, Complete;
    var q := pos + Pad(pos, 8);
    var items := Field(code, b, val).items;
    var ms := FIELD_TYPE.members;
    assert ms[0] == TBasic(Y) && ms[1..] == [TVariant] && items[1..] == [items[1]];
    TextVariantFree(q + Size(EncValue(q, Print(TBasic(Y)), items[0])), b, items[1]);
    assert AlignedInMembers(q, ms, items);
  }

  lemma {:induction false} TextVariantFree(pos: nat, b: Basic, x: Arg)
    requires x.Variant? && x.sig == [Code(b)] && x.inner.Prim?
    ensures AlignedInMembers(pos, [TVariant], [x])
  {
    hide EncValue;
    assert Print(TBasic(b)) == [Code(b)];
    TypeOfPrint(TBasic(b));
    assert VariantArraysAligned(pos, TVariant, x);
    assert [TVariant][1..] == [];
  }

  lemma {:induction false} AllVariantFree(pos: nat, t: Ty, items: seq<Arg>)
    requires forall i, p: nat :: 0 <= i < |items| ==> VariantArraysAligned(p, t, items[i])
    ensures AlignedInItems(pos, t, items)
    decreases items
  {
    hide VariantArraysAligned;
    if items != [] { AllVariantFree(pos + Size(EncValue(pos, Print(t), items[0])), t, items[1..]); }
  }

  lemma {:induction false} BodyConforms(l: Layout, m: Str, body: nat, ts: seq<Ty>, call: Call, b: Piece)
    requires GoodCall(ts, call) && (l.Standard? ==> AlignedInMembers(0, ts, Used(ts, call)))
    requires EncMembers(0, call.inSig, call.args) == Ok(b) && b.exact
    requires Aligned(body, 8) && At(m, body, b.bytes)
    ensures MarshalledMembers(l, m, body, ts, Used(ts, call), body + |b.bytes|)
  {
    hide EncMembers, PrintAll, MarshalledMembers, View, AlignedInMembers, AcceptsMembers, GoodAll, TrimmedMembers;
    var args := Used(ts, call);
    MembersTrimmed(0, ts, call.args);
    MembersShift(0, body, PrintAll(ts), args);
    AlignedMembersShift(0, body, ts, args);
    AllMembersConform(l, m, body, ts, args);
  }

  // ---- a stream of messages ----

  /** One whole little-endian message, as its own length words measure it. */
  predicate Framed(m: Str) {
    |m| >= 16 && m[0] == LITTLE_ENDIAN && |m| == FrameLength(m)
  }

  lemma {:induction false} FrameLengthPrefix(m: Str, tail: Str)
    requires |m| >= 16
    ensures FrameLength(m + tail) == FrameLength(m) && BodyStart(m + tail) == BodyStart(m)
  {
    assert (m + tail)[4..8] == m[4..8] && (m + tail)[12..16] == m[12..16];
  }

  /** readMessage takes exactly one frame, whether or not it can decode it, and its
      outcome does not depend on what follows. */
  lemma {:induction false} ReadsOneFrame(m: Str, tail: Str)
    requires Framed(m)
    ensures ReadMsg(m + tail) == (ReadMsg(m).0, tail)
  {
    FrameLengthPrefix(m, tail);
    hide UnLE, Pad, DecodeFrame;
    var s := m + tail;
    var f, b, n := UnLE(m[12..16]), BodyStart(m), FrameLength(m);
    assert s[12..16] == m[12..16];
    assert s[16..16 + f] == m[16..16 + f] && s[b..n] == m[b..n] && s[n..] == tail && m[n..] == [];
  }

  /** After a message whose other lengths are anything the stream stays in step if and only
      if the byte-order mark is 'l'; big-endian messages are among the others. */
  lemma {:induction false} StaysInStepIff(m: Str, tail: Str)
    requires |m| >= 16 && (m[0] == LITTLE_ENDIAN ==> |m| == FrameLength(m))
    ensures ReadMsg(m + tail).1 == tail <==> m[0] == LITTLE_ENDIAN
  {
    if m[0] == LITTLE_ENDIAN {
      ReadsOneFrame(m, tail);
    } else {
      assert |(m + tail)[12..]| > |tail|;
    }
  }

  function Concat(frames: seq<Str>): Str
    decreases |frames|
  {
    if frames == [] then [] else frames[0] + Concat(frames[1..])
  }

  /** The program is gone, or will never go on. */
  predicate Fatal<T(!new)>(r: Outcome<T>) { r.Panic? || r.Hang? }

  /** The outcomes of up to `n` reads in a row, and what they leave. */
  ghost function ReadMany(s: Str, n: nat): (seq<Outcome<Msg>>, Str)
    decreases n
  {
    if n == 0 then ([], s)
    else
      var (r, rest) := ReadMsg(s);
      if Fatal(r) then ([r], rest)
      else
        var (rs, left) := ReadMany(rest, n - 1);
        ([r] + rs, left)
  }

  lemma {:induction false} ReadManyStep(s: Str, n: nat)
    requires n > 0
    ensures var (r, rest) := ReadMsg(s);
      ReadMany(s, n) == if Fatal(r) then ([r], rest) else
        ([r] + ReadMany(rest, n - 1).0, ReadMany(rest, n - 1).1)
  {
    hide ReadMsg;
  }

  ghost function Outcomes(frames: seq<Str>): seq<Outcome<Msg>>
    decreases |frames|
  {
    if frames == [] then [] else [ReadMsg(frames[0]).0] + Outcomes(frames[1..])
  }

  /** Repeated reads visit the frames in order, one each, errors included, up to the first
      that is fatal: `k` frames in all. */
  lemma {:induction false} ReadsFramesInOrder(frames: seq<Str>, n: nat, tail: Str) returns (k: nat)
    requires n <= |frames| && forall m :: m in frames ==> Framed(m)
    ensures k <= n && (forall i :: 0 <= i < k - 1 ==> !Fatal(ReadMsg(frames[i]).0))
    ensures k < n ==> k > 0 && Fatal(ReadMsg(frames[k - 1]).0)
    ensures ReadMany(Concat(frames) + tail, n) == (Outcomes(frames[..k]), Concat(frames[k..]) + tail)
    decreases n
  {
    hide ReadMsg, Framed;
    if n == 0 {
      k := 0;
      assert frames[k..] == frames;
    } else {
      var first, rest := frames[0], frames[1..];
      assert Concat(frames) + tail == first + (Concat(rest) + tail);
      ReadsOneFrame(first, Concat(rest) + tail);
      ReadManyStep(Concat(frames) + tail, n);
      if Fatal(ReadMsg(first).0) {
        k := 1;
        assert frames[..k] == [first] && frames[k..] == rest;
        assert Outcomes(frames[..k]) == [ReadMsg(first).0];
        assert ReadMany(Concat(frames) + tail, n) == ([ReadMsg(first).0], Concat(rest) + tail);
      } else {
        var l := ReadsFramesInOrder(rest, n - 1, tail);
        k := l + 1;
        assert rest[l..] == frames[k..] && frames[..k][1..] == rest[..l];
        assert ReadMany(Concat(frames) + tail, n)
             == ([ReadMsg(first).0] + Outcomes(rest[..l]), Concat(rest[l..]) + tail);
        assert Outcomes(frames[..k]) == [ReadMsg(first).0] + Outcomes(rest[..l]);
        forall i | 0 <= i < k - 1
          ensures !Fatal(ReadMsg(frames[i]).0)
        {
          if i > 0 { assert frames[i] == rest[i - 1]; }
        }
      }
    }
  }

  /** Every call this client sends is one frame. */
  lemma {:induction false} CallsAreFramed(serial: nat, ts: seq<Ty>, call: Call)
    requires GoodCall(ts, call) && (EncCall(serial, call).Ok? ==> EncCall(serial, call).value.exact)
    ensures EncCall(serial, call).Ok? && Framed(EncCall(serial, call).value.bytes)
  {
    CallLaid(serial, ts, call);
    var d := EncItems(0, Print(FIELD_TYPE), Fields(call)).value.bytes;
    var b := EncMembers(0, call.inSig, call.args).value.bytes;
    var h := Head(serial, d, b);
    HeadWords(serial, d, b);
    var m := Laid(h, d, b, []);
    hide UnLE, Pad, Limit, LE, EncCall, EncItems, EncMembers;
    assert m[4..8] == h[4..8] && m[12..16] == h[12..16];
  }
}
