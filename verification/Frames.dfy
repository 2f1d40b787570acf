/** Frames that a peer may send: a plain signal, one that cannot be decoded, one that is fatal. */
module Frames {
  import opened Wrappers
  import opened Bytes
  import opened Signature
  import opened Values
  import opened Wire
  import opened RoundTrip
  import opened Decoding
  import opened Message
  import opened MessageLaws

  lemma {:induction false} SmallFrame(m: Str, f: Byte, b: Byte)
    requires |m| >= 16 && m[0] == LITTLE_ENDIAN && m[4..8] == [b, 0, 0, 0] && m[12..16] == [f, 0, 0, 0]
    ensures var e := 16 + f;
      var body := e + Pad(e, 8);
      && FrameLength(m) == body + b
      && (|m| == body + b ==> Framed(m) && ReadMsg(m) == (DecodeFrame(m[1], m[16..e], m[body..]), []))
  {
    SmallWord(f);
    SmallWord(b);
    hide DecodeFrame, UnLE, Pad;
    if |m| == FrameLength(m) { assert m[BodyStart(m)..|m|] == m[BodyStart(m)..] && m[|m|..] == []; }
  }

  /** A signal without header fields. */
  const PLAIN_SIGNAL: Str := ['l' as int, 4, 0, 1, 0, 0, 0, 0, 1, 0, 0, 0, 0, 0, 0, 0]

  lemma {:induction false} PlainSignal()
    ensures Framed(PLAIN_SIGNAL) && ReadMsg(PLAIN_SIGNAL) == (Ok(Msg(4, 0, [], [], [])), [])
  {
    var m := PLAIN_SIGNAL;
    SmallFrame(m, 0, 0);
    PrintStart(FIELD_TYPE);
    assert m[16..16] == [] && m[16..] == [];
    assert DecElements(AsIs, [], 0, Print(FIELD_TYPE), 0) == Ok(Got(List([]), 0));
  }

  /** A header field whose variant has an empty signature. */
  const FATAL_MESSAGE: Str :=
    ['l' as int, 4, 0, 1, 0, 0, 0, 0, 1, 0, 0, 0, 3, 0, 0, 0, 1, 0, 0, 0, 0, 0, 0, 0]

  lemma {:induction false} FatalMessage()
    ensures Framed(FATAL_MESSAGE) && ReadMsg(FATAL_MESSAGE) == (Panic, [])
  {
    hide DecElements, DecMembers, UnLE, Print, FrameLength, CutFrame, BodyStart;
    var m := FATAL_MESSAGE;
    SmallFrame(m, 3, 0);
    var fields: Str := [1, 0, 0];
    assert m[16..19] == fields;
    FieldDecodes(fields, 1);
    EmptySignature(fields, 1);
  }

  /** A signal with a file descriptor: its body has signature "h", which is not supported. */
  const DESCRIPTOR_SIGNAL: Str :=
    ['l' as int, 4, 0, 1, 4, 0, 0, 0, 1, 0, 0, 0, 7, 0, 0, 0]
    + [8, 1, 'g' as int, 0, 1, 'h' as int, 0, 0] + [0, 0, 0, 0]

  lemma {:induction false} DescriptorSignal()
    ensures Framed(DESCRIPTOR_SIGNAL) && ReadMsg(DESCRIPTOR_SIGNAL) == (Err, [])
  {
    hide DecElements, DecMembers, UnLE, Print, FrameLength, CutFrame, BodyStart, DecVariant, DecItems;
    var m := DESCRIPTOR_SIGNAL;
    SmallFrame(m, 7, 4);
    var fields: Str := [8, 1, 'g' as int, 0, 1, 'h' as int, 0];
    assert m[16..23] == fields && m[24..] == [0, 0, 0, 0];
    FieldDecodes(fields, 8);
    SignatureField(fields);
    NoMoreItems(fields);
    var item := List([Leaf(VUint8(8)), Boxed(['g' as int], Leaf(VString(['h' as int])))]);
    assert DecElements(AsIs, fields, 0, Print(FIELD_TYPE), 7).value.v == List([item] + []);
    SignatureApplied(item);
    Unsupported([0, 0, 0, 0]);
  }

  lemma {:induction false} SignatureField(fields: Str)
    requires fields == [8, 1, 'g' as int, 0, 1, 'h' as int, 0]
    ensures DecVariant(AsIs, fields, 1) == Ok(Got(Boxed(['g' as int], Leaf(VString(['h' as int]))), 7))
  {
    hide DecValue;
    assert UnLE([1]) == 1;
    assert DecText(fields, 1, 1) == Ok(Got([Code(G)], 4)) by {
      assert fields[1..2] == [1] && fields[2..3] == [Code(G)];
    }
    BasicStep(AsIs, fields, 4, G);
    assert DecText(fields, 4, 1) == Ok(Got(['h' as int], 7)) by {
      assert fields[4..5] == [1] && fields[5..6] == ['h' as int];
    }
  }

  lemma {:induction false} NoMoreItems(fields: Str)
    ensures DecItems(AsIs, fields, |fields|, Print(FIELD_TYPE), |fields|) == Ok(Got([], |fields|))
  {
  }

  lemma {:induction false} SignatureApplied(item: Value)
    requires item == List([Leaf(VUint8(8)), Boxed(['g' as int], Leaf(VString(['h' as int])))])
    ensures ApplyFields(Msg(4, 0, [], [], []), [item]) == Msg(4, 0, [], ['h' as int], [])
  {
    assert [item][1..] == [];
  }

  lemma {:induction false} Unsupported(body: Str)
    ensures DecMembers(AsIs, body, 0, ['h' as int]) == Err
  {
    assert DecValue(AsIs, body, 0, ['h' as int]) == Err;
    hide DecValue;
  }

  lemma {:induction false} EmptySignature(buf: Str, pos: nat)
    requires pos + 2 == |buf| && buf[pos] == 0
    ensures DecVariant(AsIs, buf, pos) == Panic
  {
    assert DecText(buf, pos, 1) == Ok(Got([], pos + 2)) by { assert buf[pos..pos + 1] == [0] && UnLE([0]) == 0; }
  }

  /** One header field, wherever it stands. */
  lemma {:induction false} FieldAt(buf: Str, pos: nat)
    requires pos <= |buf|
    ensures var q := pos + Pad(pos, 8);
      DecValue(AsIs, buf, pos, Print(FIELD_TYPE))
      == if q >= |buf| then Err
         else
           var v := DecVariant(AsIs, buf, q + 1);
           if v.Ok? then Ok(Got(List([Leaf(VUint8(buf[q])), v.value.v]), v.value.pos)) else v.PropagateFailure()
  {
    hide DecVariant, Print, PrintAll, DecMembers;
    FieldPrint();
    StructStep(AsIs, buf, pos, [Code(Y), VARIANT], Opaque);
    if pos + Pad(pos, 8) <= |buf| { FieldMembers(buf, pos + Pad(pos, 8)); }
    hide DecValue;
  }

  /** One header field at the start of the fields. */
  lemma {:induction false} FieldDecodes(fields: Str, code: Byte)
    requires fields != [] && fields[0] == code
    ensures var v := DecVariant(AsIs, fields, 1);
      DecElements(AsIs, fields, 0, Print(FIELD_TYPE), |fields|)
      == if !v.Ok? then v.PropagateFailure()
         else
           var r := DecItems(AsIs, fields, v.value.pos, Print(FIELD_TYPE), |fields|);
           if !r.Ok? then r.PropagateFailure()
           else Ok(Got(List([List([Leaf(VUint8(code)), v.value.v])] + r.value.v), r.value.pos))
  {
    hide DecVariant, Print;
    PrintStart(FIELD_TYPE);
    FieldAt(fields, 0);
    hide DecValue;
  }

  lemma {:induction false} FieldPrint()
    ensures Print(FIELD_TYPE) == [OPEN_STRUCT] + [Code(Y), VARIANT] + [CLOSE_STRUCT]
  {
    assert PrintAll(FIELD_TYPE.members[1..]) == [VARIANT] by { assert FIELD_TYPE.members[1..] == [TVariant]; }
  }

  lemma {:induction false} FieldMembers(buf: Str, pos: nat)
    requires pos <= |buf|
    ensures DecMembers(AsIs, buf, pos, [Code(Y), VARIANT])
         == if pos == |buf| then Err
            else
              var v := DecVariant(AsIs, buf, pos + 1);
              if v.Ok? then Ok(Got([Leaf(VUint8(buf[pos])), v.value.v], v.value.pos)) else v.PropagateFailure()
  {
    hide DecVariant, DecValue, DecMembers, SplitSig, Print;
    var y, v := [Code(Y)], [VARIANT];
    FieldSplits();
    assert y + v == [Code(Y), VARIANT] && v + [] == v;
    DecMembersUnfold(AsIs, buf, pos, y, v);
    BasicStep(AsIs, buf, pos, Y);
    if pos < |buf| {
      DecMembersUnfold(AsIs, buf, pos + 1, v, []);
      VariantStep(AsIs, buf, pos + 1, Opaque);
      ByteAt(buf, pos);
      assert DecValue(AsIs, buf, pos, y) == Ok(Got(Leaf(VUint8(buf[pos])), pos + 1));
      var r := DecVariant(AsIs, buf, pos + 1);
      if r.Ok? {
        NoMembers(buf, r.value.pos);
        assert [r.value.v] + [] == [r.value.v];
        assert DecValue(AsIs, buf, pos + 1, v) == r;
        assert DecMembers(AsIs, buf, pos + 1, v) == Ok(Got([r.value.v], r.value.pos));
        assert [Leaf(VUint8(buf[pos]))] + [r.value.v] == [Leaf(VUint8(buf[pos])), r.value.v];
      }
    }
  }

  lemma {:induction false} NoMembers(buf: Str, pos: nat)
    requires pos <= |buf|
    ensures DecMembers(AsIs, buf, pos, []) == Ok(Got([], pos))
  {
  }

  lemma {:induction false} FieldSplits()
    ensures SplitSig([Code(Y)] + [VARIANT]) == Some(([Code(Y)], [VARIANT]))
    ensures SplitSig([VARIANT] + []) == Some(([VARIANT], []))
  {
    SplitPrint(TBasic(Y), [VARIANT]);
    SplitPrint(TVariant, []);
  }
}
