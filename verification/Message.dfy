/** METHOD_CALL messages out, messages in: framing, header fields and body. */
module Message {
  import opened Bytes
  import opened Signature
  import opened Values
  import opened Wire
  import opened Codec

  const LITTLE_ENDIAN: Byte := 'l' as int
  const METHOD_CALL: Byte := 1
  const FIELD_PATH: Byte := 1
  const FIELD_INTERFACE: Byte := 2
  const FIELD_MEMBER: Byte := 3
  const FIELD_ERROR_NAME: Byte := 4
  const FIELD_REPLY_SERIAL: Byte := 5
  const FIELD_DESTINATION: Byte := 6
  const FIELD_SIGNATURE: Byte := 8

  /** The arguments of encodeMethodCall other than the serial. */
  datatype Call = Call(destination: Str, path: Str, iface: Str, member: Str, inSig: Str, args: seq<Arg>)

  /** rawMessage. */
  datatype Msg = Msg(msgType: Byte, replySerial: nat, errorName: Str, signature: Str, body: seq<Value>)

  /** (yv): one header field. */
  const FIELD_TYPE := TStruct([TBasic(Y), TVariant])

  function Field(code: Byte, b: Basic, val: Str): Arg {
    Slice(AnySlice, [Prim(VUint8(code)), Variant([Code(b)], Prim(VString(val)))])
  }

  function Fields(call: Call): seq<Arg> {
    [Field(FIELD_PATH, O, call.path), Field(FIELD_INTERFACE, S, call.iface), Field(FIELD_MEMBER, S, call.member)]
    + (if call.destination != [] then [Field(FIELD_DESTINATION, S, call.destination)] else [])
    + (if call.inSig != [] then [Field(FIELD_SIGNATURE, G, call.inSig)] else [])
  }

  /** The twelve fixed bytes. */
  function Fixed(bodyLen: nat, serial: nat): (f: Str)
    ensures |f| == 12
  {
    [LITTLE_ENDIAN, METHOD_CALL, 0, 1] + LE(4, bodyLen) + LE(4, serial)
  }

  /** A complete message: fixed part, fields array at offset 12, padding, body. */
  function EncCall(serial: nat, call: Call): Outcome<Piece> {
    var body :- EncMembers(0, call.inSig, call.args);
    var fields :- EncValue(12, Print(TArray(FIELD_TYPE)), Slice(AnySlice, Fields(call)));
    var header := Fixed(|body.bytes|, serial) + fields.bytes;
    Ok(Piece(header + Zeros(Pad(|header|, 8)) + body.bytes,
             body.exact && fields.exact && |body.bytes| < Limit(4)))
  }

  /** encodeMethodCall: two encoders, the second started with the fixed part. */
  method EncodeMethodCall(serial: nat, call: Call) returns (r: Outcome<Str>)
    ensures var e := EncCall(serial, call);
      r == if e.Ok? then Ok(e.value.bytes) else e.PropagateFailure()
  {
    hide EncValue, EncMembers, Pad, Fields, LE, Limit, Print;
    var body := new Encoder();
    var b := body.EncodeMembers(call.inSig, call.args);
    if !b.Ok? { return b.PropagateFailure(); }
    ghost var sent := EncMembers(0, call.inSig, call.args).value.bytes;
    assert [] + sent == sent;
    var header := new Encoder();
    header.buf := header.buf + [LITTLE_ENDIAN, METHOD_CALL, 0, 1];
    header.PutUint32(|body.buf|);
    header.PutUint32(serial);
    FixedBytes(|body.buf|, serial);
    var f := header.EncodeValue(Print(TArray(FIELD_TYPE)), Slice(AnySlice, Fields(call)));
    if !f.Ok? { return f.PropagateFailure(); }
    header.Align(8);
    return Ok(header.buf + body.buf);
  }

  lemma {:induction false} FixedBytes(bodyLen: nat, serial: nat)
    ensures [] + [LITTLE_ENDIAN, METHOD_CALL, 0, 1] + EncWord(4, 4, bodyLen) + EncWord(8, 4, serial)
         == Fixed(bodyLen, serial)
  {
    assert Zeros(0) == [];
  }

  // ---- reading ----

  /** What one attempt to read a message takes off the stream. */
  datatype Cut =
    | NoFrame(rest: Str)
    | Frame(msgType: Byte, fields: Str, body: Str, rest: Str)

  /** Number of bytes from the start of a message to its body. */
  function BodyStart(s: Str): nat
    requires |s| >= 16
  {
    var fieldsEnd := 16 + UnLE(s[12..16]);
    fieldsEnd + Pad(fieldsEnd, 8)
  }

  function FrameLength(s: Str): nat
    requires |s| >= 16
  {
    BodyStart(s) + UnLE(s[4..8])
  }

  /** The framing part of readMessage. A short read takes all that is left. */
  function CutFrame(s: Str): (c: Cut)
    ensures if c.Frame? then |c.rest| + 16 <= |s| else |c.rest| <= |s|
  {
    if |s| < 12 then NoFrame([])
    else if s[0] != LITTLE_ENDIAN then NoFrame(s[12..])
    else if |s| < 16 || |s| < FrameLength(s) then NoFrame([])
    else
      Frame(s[1], s[16..16 + UnLE(s[12..16])], s[BodyStart(s)..FrameLength(s)], s[FrameLength(s)..])
  }

  /** One decoded header field; fields of other codes or value types change nothing. */
  function ApplyField(m: Msg, item: Value): Msg {
    if !item.List? || |item.items| != 2 || !item.items[0].Leaf? || !item.items[0].p.VUint8?
       || !item.items[1].Boxed? || !item.items[1].inner.Leaf? then m
    else
      var code, v := item.items[0].p.u8, item.items[1].inner.p;
      if code == FIELD_REPLY_SERIAL && v.VUint32? then m.(replySerial := v.u32)
      else if code == FIELD_ERROR_NAME && v.VString? then m.(errorName := v.s)
      else if code == FIELD_SIGNATURE && v.VString? then m.(signature := v.s)
      else m
  }

  function ApplyFields(m: Msg, items: seq<Value>): Msg
    decreases items
  {
    if items == [] then m else ApplyFields(ApplyField(m, items[0]), items[1..])
  }

  /** The decoding part of readMessage, after the whole frame has been read. */
  ghost function DecodeFrame(msgType: Byte, fields: Str, body: Str): Outcome<Msg> {
    var Got(v, _) :- DecElements(AsIs, fields, 0, Print(FIELD_TYPE), |fields|);
    var m := ApplyFields(Msg(msgType, 0, [], [], []), if v.List? then v.items else []);
    if m.signature != [] && |body| > 0 then
      var Got(vs, _) :- DecMembers(AsIs, body, 0, m.signature);
      Ok(m.(body := vs))
    else
      Ok(m)
  }

  /** readMessage on an incoming stream: the outcome and the unread rest. */
  ghost function ReadMsg(s: Str): (r: (Outcome<Msg>, Str))
    ensures if r.0.Ok? then |r.1| < |s| else |r.1| <= |s|
  {
    match CutFrame(s)
    case NoFrame(rest) => (Err, rest)
    case Frame(t, fields, body, rest) => (DecodeFrame(t, fields, body), rest)
  }

  /** The connection's buffered reader, as the bytes still to come. */
  class Reader {
    var data: Str

    constructor (data: Str)
      ensures this.data == data
    {
      this.data := data;
    }

    /** io.ReadFull (and io.CopyN to nowhere): `n` bytes, or an error that has drained the stream. */
    method ReadFull(n: nat) returns (r: Outcome<Str>)
      modifies this
      ensures if n <= |old(data)| then r == Ok(old(data)[..n]) && data == old(data)[n..]
              else r == Err && data == []
    {
      if n > |data| {
        data := [];
        return Err;
      }
      r := Ok(data[..n]);
      data := data[n..];
    }

    /** The part of readMessage before any decoding: fixed part, fields, padding, body. */
    method ReadFrame() returns (r: Outcome<(Byte, Str, Str)>)
      modifies this
      ensures match CutFrame(old(data))
        case NoFrame(rest) => r == Err && data == rest
        case Frame(t, fields, body, rest) => r == Ok((t, fields, body)) && data == rest
    {
      hide UnLE, Pad, CutFrame, BodyStart, FrameLength;
      ghost var s := data;
      CutFrameShort(s);
      var fixed :- ReadFull(12);
      if fixed[0] != LITTLE_ENDIAN { return Err; }
      var bodyLen := UnLE(fixed[4..8]);
      var lenBuf :- ReadFull(4);
      assert fixed[4..8] == s[4..8] && lenBuf == s[12..16] && data == s[16..];
      var fieldsLen := UnLE(lenBuf);
      var pos := 16 + fieldsLen;
      ghost var bodyStart := pos + Pad(pos, 8);
      CutFrameIs(s, pos, bodyStart, bodyStart + bodyLen);
      var fields :- ReadFull(fieldsLen);
      Taken(s, 16, pos);
      var _ :- ReadFull(Pad(pos, 8));
      Taken(s, pos, bodyStart);
      var body :- ReadFull(bodyLen);
      Taken(s, bodyStart, bodyStart + bodyLen);
      return Ok((fixed[1], fields, body));
    }

    /** Nothing is decoded until the whole frame is off the stream. */
    method ReadMessage() returns (r: Outcome<Msg>)
      modifies this
      ensures (r, data) == ReadMsg(old(data))
    {
      var f :- ReadFrame();
      r := DecodeBuffers(f.0, f.1, f.2);
    }
  }

  lemma {:induction false} CutFrameShort(s: Str)
    ensures |s| < 12 || (|s| < 16 && s[0] == LITTLE_ENDIAN) ==> CutFrame(s) == NoFrame([])
    ensures |s| >= 12 && s[0] != LITTLE_ENDIAN ==> CutFrame(s) == NoFrame(s[12..])
  {
  }

  lemma {:induction false} CutFrameIs(s: Str, pos: nat, body: nat, end: nat)
    requires |s| >= 16 && s[0] == LITTLE_ENDIAN && pos == 16 + UnLE(s[12..16])
    requires body == pos + Pad(pos, 8) && end == body + UnLE(s[4..8])
    ensures CutFrame(s) == if end <= |s| then Frame(s[1], s[16..pos], s[body..end], s[end..]) else NoFrame([])
  {
  }

  lemma {:induction false} Taken(s: Str, from: nat, to: nat)
    requires from <= to
    ensures to <= |s| ==> s[from..][..to - from] == s[from..to] && s[from..][to - from..] == s[to..]
  {
  }

  method DecodeBuffers(msgType: Byte, fields: Str, body: Str) returns (r: Outcome<Msg>)
    ensures r == DecodeFrame(msgType, fields, body)
  {
    var fd := new Decoder(fields);
    var v :- fd.DecodeArrayElements(Print(FIELD_TYPE), |fields|);
    var m := Msg(msgType, 0, [], [], []);
    var items := if v.List? then v.items else [];
    ghost var all := ApplyFields(m, items);
    for i := 0 to |items|
      invariant all == ApplyFields(m, items[i..])
    {
      assert items[i..][1..] == items[i + 1..];
      m := ApplyField(m, items[i]);
    }
    if m.signature != [] && |body| > 0 {
      var bd := new Decoder(body);
      var vs :- bd.DecodeMembers(m.signature);
      m := m.(body := vs);
    }
    return Ok(m);
  }
}
