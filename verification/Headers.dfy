/** Header fields on the wire, with every code, letter and byte written out: those that a call
    carries, and those that a peer's message brings. */
module Headers {
  import opened Wrappers
  import opened Bytes
  import opened Signature
  import opened Values
  import opened Wire
  import opened RoundTrip
  import opened Conformance
  import opened Letters
  import opened Message
  import opened MessageLaws
  import opened Frames

  // ---- what a call carries ----

  /** A header field as a reader gets it. */
  function Told(code: Byte, letter: char, p: Scalar): Value
    requires letter in LETTERS
  {
    List([Leaf(VUint8(code)), Boxed([letter as int], Leaf(p))])
  }

  /** Path, interface and member; the destination and the signature where there is one. */
  function CallFields(call: Call): seq<Value> {
    [Told(1, 'o', VString(call.path)), Told(2, 's', VString(call.iface)), Told(3, 's', VString(call.member))]
    + (if call.destination != [] then [Told(6, 's', VString(call.destination))] else [])
    + (if call.inSig != [] then [Told(8, 'g', VString(call.inSig))] else [])
  }

  /** The signature "(yv)". */
  const FIELD_LETTERS: Str := ['(' as int, 'y' as int, 'v' as int, ')' as int]

  lemma {:induction false} FieldLetters()
    ensures Print(FIELD_TYPE) == FIELD_LETTERS
  {
    FieldPrint();
    hide Print;
  }

  lemma {:induction false} CallFieldsAre(call: Call)
    ensures AbsAll(Fields(call)) == CallFields(call)
  {
    var a := [Field(FIELD_PATH, O, call.path), Field(FIELD_INTERFACE, S, call.iface),
              Field(FIELD_MEMBER, S, call.member)];
    var b := if call.destination != [] then [Field(FIELD_DESTINATION, S, call.destination)] else [];
    var c := if call.inSig != [] then [Field(FIELD_SIGNATURE, G, call.inSig)] else [];
    hide Field, Abs;
    FieldAbs(FIELD_PATH, O, call.path);
    FieldAbs(FIELD_INTERFACE, S, call.iface);
    FieldAbs(FIELD_MEMBER, S, call.member);
    FieldAbs(FIELD_DESTINATION, S, call.destination);
    FieldAbs(FIELD_SIGNATURE, G, call.inSig);
    AbsConcat(a + b, c);
    AbsConcat(a, b);
  }

  /** In every whole message of a call: the sixteen bytes it begins with, the header fields
      behind them, and the body at the next multiple of 8 behind these. */
  lemma {:induction false} CallOnTheWire(serial: nat, call: Call)
    requires EncCall(serial, call).Ok? && EncCall(serial, call).value.exact && serial < 0x1_0000_0000
    ensures EncMembers(0, call.inSig, call.args).Ok?
    ensures var m := EncCall(serial, call).value.bytes;
      var body := EncMembers(0, call.inSig, call.args).value.bytes;
      && |m| >= 16 + |body| && |body| < 0x1_0000_0000
      && var f := UnLE(m[12..16]);
         var z := |m| - |body| - f - 16;
         && 0 <= z < 8 && (16 + f + z) % 8 == 0
         && m == ['l' as int, 1, 0, 1] + Four(|body|) + Four(serial) + Four(f) + m[16..16 + f] + Zeros(z) + body
         && UnLE(m[4..8]) == |body| && UnLE(m[8..12]) == serial
         && DecElements(AsIs, m[16..16 + f], 0, FIELD_LETTERS, f) == Ok(Got(List(CallFields(call)), f))
  {
    hide EncCall, EncItems, EncMembers, DecElements, LE, UnLE, Print, Fields, Limit, Pad, Four, Zeros;
    LimitValues();
    FieldLetters();
    CallIsLaid(serial, call);
    CallParts(serial, call);
    var d := EncItems(0, Print(FIELD_TYPE), Fields(call)).value;
    var b := EncMembers(0, call.inSig, call.args).value;
    HeadBytes(serial, d.bytes, b.bytes);
    LaidBytes(Head(serial, d.bytes, b.bytes), d.bytes, b.bytes);
    FieldsReadFrom(call, d);
  }

  lemma {:induction false} CallIsLaid(serial: nat, call: Call)
    requires EncCall(serial, call).Ok?
    ensures EncMembers(0, call.inSig, call.args).Ok?
  {
    hide EncMembers, EncValue;
  }

  lemma {:induction false} HeadBytes(serial: nat, data: Str, body: Str)
    requires |data| < Limit(4) && |body| < Limit(4) && serial < Limit(4)
    ensures var h := Head(serial, data, body);
      && h == ['l' as int, 1, 0, 1] + Four(|body|) + Four(serial) + Four(|data|)
      && UnLE(h[4..8]) == |body| && UnLE(h[8..12]) == serial && UnLE(h[12..16]) == |data|
  {
    hide LE, UnLE, Limit, Four;
    WordRoundTrip(4, |data|);
    WordRoundTrip(4, |body|);
    WordRoundTrip(4, serial);
    FourIs(|data|);
    FourIs(|body|);
    FourIs(serial);
    var h := Head(serial, data, body);
    assert h[4..8] == LE(4, |body|) && h[8..12] == LE(4, serial) && h[12..16] == LE(4, |data|);
  }

  lemma {:induction false} LaidBytes(head: Str, data: Str, body: Str)
    requires |head| == 16
    ensures var m := Laid(head, data, body, []);
      var z := Pad(16 + |data|, 8);
      && z < 8 && (16 + |data| + z) % 8 == 0
      && m == head + data + Zeros(z) + body && m[16..16 + |data|] == data
      && m[4..8] == head[4..8] && m[8..12] == head[8..12] && m[12..16] == head[12..16]
  {
    PadIsLeast(16 + |data|, 8);
    AlignedIff(16 + |data| + Pad(16 + |data|, 8), 8);
    hide Pad, Zeros;
  }

  lemma {:induction false} FieldsReadFrom(call: Call, d: Piece)
    requires EncItems(0, Print(FIELD_TYPE), Fields(call)) == Ok(d) && d.exact
    ensures DecElements(AsIs, d.bytes, 0, Print(FIELD_TYPE), |d.bytes|) == Ok(Got(List(CallFields(call)), |d.bytes|))
  {
    hide EncItems, DecItems, Print, Fields, AbsAll;
    FieldsAccepted(call);
    ItemsRT(AsIs, d.bytes, 0, FIELD_TYPE, Fields(call));
    assert d.bytes[0..|d.bytes|] == d.bytes;
    CallFieldsAre(call);
    PrintStart(FIELD_TYPE);
  }

  // ---- one header field as bytes ----

  /** Padding, the code, the signature of the variant, and the scalar. */
  lemma {:induction false} TaggedBytes(pos: nat, code: Byte, b: Basic, p: Scalar)
    requires HasType(b, p)
    ensures var s := EncScalar(pos + Pad(pos, 8) + 4, b, p).value;
      EncValue(pos, Print(FIELD_TYPE), Tagged(code, b, p))
      == Ok(Piece(Zeros(Pad(pos, 8)) + ([code, 1, Code(b), 0] + s.bytes), s.exact))
  {
    hide EncValue, EncMembers, EncScalar, Print, PrintAll, Pad;
    FieldPrint();
    StructStep(AsIs, [], pos, [Code(Y), VARIANT], Tagged(code, b, p));
    TaggedMembers(pos + Pad(pos, 8), code, b, p);
  }

  lemma {:induction false} TaggedMembers(pos: nat, code: Byte, b: Basic, p: Scalar)
    requires HasType(b, p)
    ensures var s := EncScalar(pos + 4, b, p).value;
      EncMembers(pos, [Code(Y), VARIANT], Tagged(code, b, p).items)
      == Ok(Piece([code, 1, Code(b), 0] + s.bytes, s.exact))
  {
    hide EncValue, EncMembers, SplitSig, LE, Print, Pad, Zeros, Code, Limit, Word, WidthOf;
    var items := Tagged(code, b, p).items;
    var v := items[1];
    FieldSplits();
    CodeByte(pos, code);
    TaggedVariant(pos + 1, b, p);
    assert [Code(Y)] + [VARIANT] == [Code(Y), VARIANT] && [VARIANT] + [] == [VARIANT];
    assert items[1..] == [v] && [v][1..] == [];
    MembersUnfold(pos, [Code(Y)], [VARIANT], items);
    MembersUnfold(pos + 1, [VARIANT], [], [v]);
    NoMembersEncoded(pos + 1 + |EncValue(pos + 1, [VARIANT], v).value.bytes|);
    var s := EncScalar(pos + 4, b, p).value.bytes;
    assert [code] + ([1, Code(b), 0] + s + []) == [code, 1, Code(b), 0] + s;
  }

  lemma {:induction false} CodeByte(pos: nat, code: Byte)
    ensures EncValue(pos, [Code(Y)], Prim(VUint8(code))) == Ok(Piece([code], true))
  {
    BasicOfCode(Y);
    LimitValues();
    NoPad(pos);
    assert EncWord(pos, 1, code) == LE(1, code) == [code] && [code] + [] == [code];
  }

  lemma {:induction false} NoMembersEncoded(pos: nat)
    ensures EncMembers(pos, [], []) == Ok(EMPTY)
  {
  }

  lemma {:induction false} TaggedVariant(pos: nat, b: Basic, p: Scalar)
    requires HasType(b, p)
    ensures var s := EncScalar(pos + 3, b, p).value;
      EncValue(pos, [VARIANT], Variant([Code(b)], Prim(p))) == Ok(Piece([1, Code(b), 0] + s.bytes, s.exact))
  {
    VariantStep(AsIs, [], pos, Variant([Code(b)], Prim(p)));
    BasicOfCode(b);
    LimitValues();
    assert EncSignature([Code(b)]) == Piece([1, Code(b), 0], true) by { assert LE(1, 1) == [1]; }
    hide EncSignature, LE;
  }

  // ---- what a peer's message brings ----

  /** The last number, or the last text, that a field with that code brings. */
  function LastTold(items: seq<Value>, code: Byte, text: bool): (r: Option<Scalar>)
    ensures r.Some? ==> if text then r.value.VString? else r.value.VUint32?
    decreases |items|
  {
    if items == [] then None
    else
      var later := LastTold(items[1..], code, text);
      if later.Some? then later else Brought(items[0], code, text)
  }

  function Brought(item: Value, code: Byte, text: bool): Option<Scalar> {
    if item.List? && |item.items| == 2 && item.items[0] == Leaf(VUint8(code))
       && item.items[1].Boxed? && item.items[1].inner.Leaf?
       && (if text then item.items[1].inner.p.VString? else item.items[1].inner.p.VUint32?)
    then Some(item.items[1].inner.p)
    else None
  }

  function NumberOr(told: Option<Scalar>, n: nat): nat {
    if told.Some? && told.value.VUint32? then told.value.u32 else n
  }

  function TextOr(told: Option<Scalar>, s: Str): Str { if told.Some? && told.value.VString? then told.value.s else s }

  /** A reader takes the reply serial from field 5, the error name from field 4 and the
      signature from field 8, from the last of each if there are several, and no others. */
  lemma {:induction false} FieldsMean(m: Msg, items: seq<Value>)
    ensures ApplyFields(m, items)
         == Msg(m.msgType,
                NumberOr(LastTold(items, 5, false), m.replySerial),
                TextOr(LastTold(items, 4, true), m.errorName),
                TextOr(LastTold(items, 8, true), m.signature),
                m.body)
    decreases |items|
  {
    if items != [] { FieldsMean(ApplyField(m, items[0]), items[1..]); }
  }

  /** A message as any little-endian peer lays it out: whatever its flags, its own serial and its padding. */
  function Sent(kind: Byte, flags: Byte, serial: nat, fields: Str, pad: Str, body: Str): Str {
    ['l' as int, kind, flags, 1] + Four(|body|) + Four(serial) + Four(|fields|) + fields + pad + body
  }

  predicate Fits(fields: Str, pad: Str, body: Str) {
    && |fields| < 0x1_0000_0000 && |body| < 0x1_0000_0000
    && |pad| < 8 && (16 + |fields| + |pad|) % 8 == 0
  }

  lemma {:induction false} SentIsRead(kind: Byte, flags: Byte, serial: nat, fields: Str, pad: Str, body: Str)
    requires Fits(fields, pad, body)
    ensures var m := Sent(kind, flags, serial, fields, pad, body);
      Framed(m) && ReadMsg(m) == (DecodeFrame(kind, fields, body), [])
  {
    hide UnLE, DecodeFrame, LE, Limit, Four, Pad;
    var m := Sent(kind, flags, serial, fields, pad, body);
    var e := 16 + |fields|;
    LimitValues();
    WordRoundTrip(4, |fields|);
    WordRoundTrip(4, |body|);
    FourIs(|fields|);
    FourIs(|body|);
    assert m[4..8] == Four(|body|) && m[12..16] == Four(|fields|);
    AlignedIff(e + |pad|, 8);
    PadIsFirst(e, e + |pad|, 8);
    assert m[16..e] == fields && m[e + |pad|..|m|] == body && m[|m|..] == [];
  }

  /** Messages round trip from peer to client, too: whatever a peer writes as header fields,
      in any order, and as arguments, the reader takes from it what the fields mean, and the
      arguments, and leaves what follows. */
  lemma {:induction false} PeerMessageRead(kind: Byte, flags: Byte, serial: nat, fs: seq<Arg>, ts: seq<Ty>,
                                           args: seq<Arg>, pad: Str, tail: Str)
    requires AcceptsItems(FIELD_TYPE, fs) && GoodAll(ts) && AcceptsMembers(ts, args)
    requires TextOr(LastTold(AbsAll(fs), 8, true), []) == PrintAll(ts)
    ensures var d, b := EncItems(0, FIELD_LETTERS, fs), EncMembers(0, PrintAll(ts), args);
      && d.Ok? && b.Ok?
      && (d.value.exact && b.value.exact && Fits(d.value.bytes, pad, b.value.bytes) ==>
            ReadMsg(Sent(kind, flags, serial, d.value.bytes, pad, b.value.bytes) + tail)
            == (Ok(Msg(kind, NumberOr(LastTold(AbsAll(fs), 5, false), 0), TextOr(LastTold(AbsAll(fs), 4, true), []),
                       PrintAll(ts), AbsAll(args))), tail))
  {
    hide EncItems, EncMembers, DecItems, DecMembers, Print, PrintAll, AbsAll, LastTold, ApplyFields, Sent, Fits;
    GoodField();
    FieldLetters();
    ItemsRT(AsIs, [], 0, FIELD_TYPE, fs);
    MembersRT(AsIs, [], 0, ts, args);
    var d, b := EncItems(0, FIELD_LETTERS, fs).value, EncMembers(0, PrintAll(ts), args).value;
    if d.exact && b.exact && Fits(d.bytes, pad, b.bytes) {
      SentIsRead(kind, flags, serial, d.bytes, pad, b.bytes);
      ReadsOneFrame(Sent(kind, flags, serial, d.bytes, pad, b.bytes), tail);
      PartsDecode(kind, fs, ts, args, d, b);
    }
  }

  lemma {:induction false} GoodField()
    ensures Good(FIELD_TYPE)
  {
    assert FIELD_TYPE.members[1..][1..] == [];
  }

  lemma {:induction false} PartsDecode(kind: Byte, fs: seq<Arg>, ts: seq<Ty>, args: seq<Arg>, d: Piece, b: Piece)
    requires AcceptsItems(FIELD_TYPE, fs) && GoodAll(ts) && AcceptsMembers(ts, args)
    requires EncItems(0, Print(FIELD_TYPE), fs) == Ok(d) && EncMembers(0, PrintAll(ts), args) == Ok(b)
    requires d.exact && b.exact && TextOr(LastTold(AbsAll(fs), 8, true), []) == PrintAll(ts)
    ensures DecodeFrame(kind, d.bytes, b.bytes)
         == Ok(Msg(kind, NumberOr(LastTold(AbsAll(fs), 5, false), 0), TextOr(LastTold(AbsAll(fs), 4, true), []),
                   PrintAll(ts), AbsAll(args)))
  {
    GoodField();
    ItemsRT(AsIs, d.bytes, 0, FIELD_TYPE, fs);
    MembersRT(AsIs, b.bytes, 0, ts, args);
    assert d.bytes[0..|d.bytes|] == d.bytes && b.bytes[0..|b.bytes|] == b.bytes;
    FieldsMean(Msg(kind, 0, [], [], []), AbsAll(fs));
    PrintStart(FIELD_TYPE);
    assert ts == [] <==> PrintAll(ts) == [];
    if ts == [] { assert AbsAll(args) == []; }
    hide EncItems, EncMembers, DecItems, DecMembers, Print, PrintAll, AbsAll, LastTold, ApplyFields;
  }

  // ---- replies, byte by byte ----

  /** Field 5, wherever it is 8-aligned: four bytes, then the number. */
  lemma {:induction false} SerialField(n: Uint32)
    ensures EncValue(0, Print(FIELD_TYPE), Tagged(5, U, VUint32(n)))
         == Ok(Piece([5, 1, 'u' as int, 0] + Four(n), true))
  {
    hide EncValue, EncScalar, Print, Four, Tagged;
    TaggedBytes(0, 5, U, VUint32(n));
    ScalarByLetter(4, 'u', U, VUint32(n));
    assert Zeros(Pad(0, 8)) == [] && Zeros(Pad(4, 4)) == [];
    assert [] + ([5, 1, 'u' as int, 0] + ([] + Four(n))) == [5, 1, 'u' as int, 0] + Four(n);
  }

  /** A field with a text, behind one of eight bytes. */
  lemma {:induction false} TextField(code: Byte, s: Str)
    ensures EncValue(8, Print(FIELD_TYPE), Tagged(code, S, VString(s)))
         == Ok(Piece([code, 1, 's' as int, 0] + Four(|s|) + s + [0], |s| < 0x1_0000_0000))
  {
    hide EncValue, EncScalar, Print, Four, Tagged;
    TaggedBytes(8, code, S, VString(s));
    ScalarByLetter(12, 's', S, VString(s));
    assert Zeros(Pad(8, 8)) == [] && Zeros(Pad(12, 4)) == [];
    Joined([code, 1, 's' as int, 0], Four(|s|), s);
  }

  lemma {:induction false} Joined(head: Str, length: Str, s: Str)
    ensures [] + (head + ([] + length + s + [0])) == head + length + s + [0]
  {
  }

  /** Field 8, behind a field of eight bytes. */
  lemma {:induction false} TypeField(c: char)
    requires c as int < 0x100
    ensures EncValue(8, Print(FIELD_TYPE), Tagged(8, G, VString([c as int])))
         == Ok(Piece([8, 1, 'g' as int, 0, 1, c as int, 0], true))
  {
    hide EncValue, EncScalar, Print, Tagged;
    TaggedBytes(8, 8, G, VString([c as int]));
    ScalarByLetter(12, 'g', G, VString([c as int]));
    assert Zeros(Pad(8, 8)) == [];
    assert [] + ([8, 1, 'g' as int, 0] + ([1] + [c as int] + [0])) == [8, 1, 'g' as int, 0, 1, c as int, 0];
  }

  lemma {:induction false} OneItem(elem: Str, x: Arg, a: Piece)
    requires EncValue(0, elem, x) == Ok(a)
    ensures EncItems(0, elem, [x]) == Ok(a)
  {
    hide EncValue;
    assert [x][1..] == [] && a.bytes + [] == a.bytes;
  }

  lemma {:induction false} TwoItems(elem: Str, x: Arg, y: Arg, a: Piece, b: Piece)
    requires EncValue(0, elem, x) == Ok(a) && EncValue(|a.bytes|, elem, y) == Ok(b)
    ensures EncItems(0, elem, [x, y]) == Ok(Cat(a, b))
  {
    hide EncValue;
    assert [x, y][1..] == [y] && [y][1..] == [] && b.bytes + [] == b.bytes;
    assert EncItems(|a.bytes|, elem, [y]) == Ok(b);
  }

  /** A METHOD_RETURN without arguments. */
  function EmptyReplyFrame(flags: Byte, serial: nat, n: nat): Str {
    ['l' as int, 2, flags, 1, 0, 0, 0, 0] + Four(serial) + [8, 0, 0, 0] + [5, 1, 'u' as int, 0] + Four(n)
  }

  lemma {:induction false} EmptyReply(flags: Byte, serial: nat, n: Uint32, tail: Str)
    ensures var m := EmptyReplyFrame(flags, serial, n);
      Framed(m) && ReadMsg(m + tail) == (Ok(Msg(2, n, [], [], [])), tail)
  {
    hide ReadMsg, EncItems, EncValue, Four, Print, LastTold, Abs, Tagged, Framed;
    var x := Tagged(5, U, VUint32(n));
    var d: Str := [5, 1, 'u' as int, 0] + Four(n);
    SerialField(n);
    OneItem(Print(FIELD_TYPE), x, Piece(d, true));
    FieldLetters();
    SerialTold(n);
    NumberBytes();
    NoMembersEncoded(0);
    PeerMessageRead(2, flags, serial, [x], [], [], [], tail);
    SentIsRead(2, flags, serial, d, [], []);
    assert EmptyReplyFrame(flags, serial, n) == Sent(2, flags, serial, d, [], []);
  }

  lemma {:induction false} NumberBytes()
    ensures Four(0) == [0, 0, 0, 0] && Four(4) == [4, 0, 0, 0] && Four(8) == [8, 0, 0, 0] && Four(15) == [15, 0, 0, 0]
  {
  }

  lemma {:induction false} SerialTold(n: Uint32)
    ensures var x := Tagged(5, U, VUint32(n));
      && AcceptsItems(FIELD_TYPE, [x])
      && LastTold(AbsAll([x]), 5, false) == Some(VUint32(n))
      && LastTold(AbsAll([x]), 4, true) == None && LastTold(AbsAll([x]), 8, true) == None
  {
    var x := Tagged(5, U, VUint32(n));
    TaggedAccepted(5, U, VUint32(n));
    TaggedAbs(5, U, VUint32(n));
    hide Tagged, Abs, Accepts;
    assert [x][1..] == [] && AbsAll([x]) == [Abs(x)] && AbsAll([x])[1..] == [];
  }

  /** Field 5 and then one with a text. */
  lemma {:induction false} SerialAndText(n: Uint32, code: Byte, b: Basic, s: Str)
    requires b == S || b == G
    requires code == 4 || code == 8
    ensures var x, y := Tagged(5, U, VUint32(n)), Tagged(code, b, VString(s));
      && AcceptsItems(FIELD_TYPE, [x, y])
      && LastTold(AbsAll([x, y]), 5, false) == Some(VUint32(n))
      && LastTold(AbsAll([x, y]), code, true) == Some(VString(s))
      && LastTold(AbsAll([x, y]), 12 - code, true) == None
  {
    var x, y := Tagged(5, U, VUint32(n)), Tagged(code, b, VString(s));
    hide Tagged, Abs, Accepts;
    TaggedAccepted(5, U, VUint32(n));
    TaggedAccepted(code, b, VString(s));
    TaggedAbs(5, U, VUint32(n));
    TaggedAbs(code, b, VString(s));
    AllAccepted(FIELD_TYPE, [x, y]);
    AbsConcat([x], [y]);
    assert [x] + [y] == [x, y] && [x][1..] == [] && [y][1..] == [];
    var u, v := Abs(x), Abs(y);
    assert AbsAll([x, y]) == [u, v];
    TwoTold(u, v, 5, false);
    TwoTold(u, v, 4, true);
    TwoTold(u, v, 8, true);
  }

  lemma {:induction false} TwoTold(u: Value, v: Value, code: Byte, text: bool)
    ensures LastTold([u, v], code, text)
         == if Brought(v, code, text).Some? then Brought(v, code, text) else Brought(u, code, text)
  {
    hide Brought;
    assert [u, v][1..] == [v] && [v][1..] == [];
    assert LastTold([v], code, text) == Brought(v, code, text);
  }

  /** A METHOD_RETURN with one number. */
  function NumberReplyFrame(flags: Byte, serial: nat, n: nat, v: nat): Str {
    ['l' as int, 2, flags, 1, 4, 0, 0, 0] + Four(serial) + [15, 0, 0, 0]
    + [5, 1, 'u' as int, 0] + Four(n) + [8, 1, 'g' as int, 0, 1, 'u' as int, 0] + [0] + Four(v)
  }

  lemma {:induction false} NumberReply(flags: Byte, serial: nat, n: Uint32, v: Uint32, tail: Str)
    ensures var m := NumberReplyFrame(flags, serial, n, v);
      Framed(m) && ReadMsg(m + tail) == (Ok(Msg(2, n, [], ['u' as int], [Leaf(VUint32(v))])), tail)
  {
    hide ReadMsg, EncItems, EncMembers, EncValue, Four, Print, PrintAll, LastTold, Abs, Tagged, Framed;
    var x, y := Tagged(5, U, VUint32(n)), Tagged(8, G, VString(['u' as int]));
    var d: Str := [5, 1, 'u' as int, 0] + Four(n) + [8, 1, 'g' as int, 0, 1, 'u' as int, 0];
    SerialField(n);
    TypeField('u');
    TwoItems(Print(FIELD_TYPE), x, y, Piece([5, 1, 'u' as int, 0] + Four(n), true),
             Piece([8, 1, 'g' as int, 0, 1, 'u' as int, 0], true));
    FieldLetters();
    SerialAndText(n, 8, G, ['u' as int]);
    NumberBytes();
    NumberBody(v);
    PeerMessageRead(2, flags, serial, [x, y], [TBasic(U)], [Prim(VUint32(v))], [0], tail);
    SentIsRead(2, flags, serial, d, [0], Four(v));
    assert NumberReplyFrame(flags, serial, n, v) == Sent(2, flags, serial, d, [0], Four(v));
  }

  lemma {:induction false} NumberBody(v: Uint32)
    ensures var ts, args := [TBasic(U)], [Prim(VUint32(v))];
      && GoodAll(ts) && AcceptsMembers(ts, args) && PrintAll(ts) == ['u' as int]
      && AbsAll(args) == [Leaf(VUint32(v))] && EncMembers(0, PrintAll(ts), args) == Ok(Piece(Four(v), true))
  {
    var ts, args := [TBasic(U)], [Prim(VUint32(v))];
    assert ts[1..] == [] && args[1..] == [];
    assert Print(TBasic(U)) + [] == ['u' as int];
    MembersStep(0, ts, args);
    ScalarByLetter(0, 'u', U, VUint32(v));
    hide EncScalar, Four;
    EncodesByLetter(0, 'u', [], args[0]);
    assert ['u' as int] + [] == ['u' as int];
    assert Zeros(Pad(0, 4)) == [] && [] + Four(v) == Four(v) && Four(v) + [] == Four(v);
    NoMembersEncoded(4);
  }

  /** An ERROR with any name. */
  function ErrorFrame(flags: Byte, serial: nat, n: nat, name: Str, pad: Str): Str {
    ['l' as int, 3, flags, 1, 0, 0, 0, 0] + Four(serial) + Four(17 + |name|)
    + [5, 1, 'u' as int, 0] + Four(n) + [4, 1, 's' as int, 0] + Four(|name|) + name + [0] + pad
  }

  lemma {:induction false} ErrorReply(flags: Byte, serial: nat, n: Uint32, name: Str, pad: Str, tail: Str)
    requires |name| + 17 < 0x1_0000_0000 && |pad| < 8 && (33 + |name| + |pad|) % 8 == 0
    ensures var m := ErrorFrame(flags, serial, n, name, pad);
      Framed(m) && ReadMsg(m + tail) == (Ok(Msg(3, n, name, [], [])), tail)
  {
    hide ReadMsg, EncItems, EncMembers, EncValue, Four, Print, PrintAll, LastTold, Abs, Tagged, Framed;
    var x, y := Tagged(5, U, VUint32(n)), Tagged(4, S, VString(name));
    var d1: Str := [5, 1, 'u' as int, 0] + Four(n);
    var d2: Str := [4, 1, 's' as int, 0] + Four(|name|) + name + [0];
    SerialField(n);
    TextField(4, name);
    TwoItems(Print(FIELD_TYPE), x, y, Piece(d1, true), Piece(d2, true));
    FieldLetters();
    SerialAndText(n, 4, S, name);
    NumberBytes();
    NoMembersEncoded(0);
    NoTypes();
    PeerMessageRead(3, flags, serial, [x, y], [], [], pad, tail);
    SentIsRead(3, flags, serial, d1 + d2, pad, []);
    assert ErrorFrame(flags, serial, n, name, pad) == Sent(3, flags, serial, d1 + d2, pad, []);
  }

  lemma {:induction false} NoTypes()
    ensures PrintAll([]) == [] && AbsAll([]) == []
  {
  }
}
