/** Exactly which calls come back from a reader, and exactly which are laid out by the specification. */
module CallLaws {
  import opened Bytes
  import opened Signature
  import opened Values
  import opened Wire
  import opened RoundTrip
  import opened Shift
  import opened Exactness
  import opened Shortness
  import opened Conformance
  import opened StandardLayout
  import opened Extras
  import opened Letters
  import opened Message
  import opened MessageLaws
  import opened Frames
  import opened Headers

  ghost predicate RealArgs(ts: seq<Ty>, call: Call) {
    forall i :: 0 <= i < |Used(ts, call)| ==> RealMaps(Used(ts, call)[i])
  }

  // ---- reading a call of less than 4 GiB ----

  /** It is framed whether or not lengths inside were cut. */
  lemma {:induction false} ReadsParts(serial: nat, ts: seq<Ty>, call: Call, tail: Str)
    requires GoodCall(ts, call)
    requires EncCall(serial, call).Ok? ==> |EncCall(serial, call).value.bytes| < TWO_TO_THE_32
    ensures var d := EncItems(0, Print(FIELD_TYPE), Fields(call));
      var b := EncMembers(0, call.inSig, call.args);
      && EncCall(serial, call).Ok? && d.Ok? && b.Ok? && |d.value.bytes| < Limit(4) && |b.value.bytes| < Limit(4)
      && ReadMsg(EncCall(serial, call).value.bytes + tail)
         == (DecodeFrame(METHOD_CALL, d.value.bytes, b.value.bytes), tail)
  {
    hide EncCall, EncItems, EncMembers, LE, UnLE, Print, PrintAll, Fields, Limit, Pad, CutFrame, DecodeFrame, GoodCall;
    LimitValues();
    CallLaid(serial, ts, call);
    var d := EncItems(0, Print(FIELD_TYPE), Fields(call)).value.bytes;
    var b := EncMembers(0, call.inSig, call.args).value.bytes;
    var h := Head(serial, d, b);
    HeadWords(serial, d, b);
    CutLaid(h, d, b, tail);
    assert EncCall(serial, call).value.bytes + tail == Laid(h, d, b, tail);
  }

  // ---- a long text or inline signature among the arguments ----

  lemma {:induction false} LongBodyNeverBack(ts: seq<Ty>, call: Call, body: Str)
    requires GoodCall(ts, call) && RealArgs(ts, call)
    ensures var r := DecMembers(AsIs, body, 0, call.inSig);
      r.Ok? && r.value.v == AbsAll(Used(ts, call)) ==> ShortMembers(ts, Used(ts, call))
  {
    hide DecMembers, ShortValue, RealMaps, PrintAll, Abs;
    MembersAreShort(body, 0, ts);
    MembersMatch(ts, Used(ts, call));
    var r := DecMembers(AsIs, body, 0, call.inSig);
    if r.Ok? && r.value.v == AbsAll(Used(ts, call)) { MembersFromValues(ts, Used(ts, call)); }
  }

  /** Fields whose lengths all fit are read back, and with them the signature. */
  lemma {:induction false} FieldsReadBack(call: Call, d: Piece)
    requires EncItems(0, Print(FIELD_TYPE), Fields(call)) == Ok(d) && d.exact
    ensures var r := DecElements(AsIs, d.bytes, 0, Print(FIELD_TYPE), |d.bytes|);
      r.Ok? && r.value.v.List?
      && ApplyFields(Msg(METHOD_CALL, 0, [], [], []), r.value.v.items) == Msg(METHOD_CALL, 0, [], call.inSig, [])
  {
    hide EncItems, DecItems, Print, Fields, AbsAll;
    FieldsAccepted(call);
    ItemsRT(AsIs, d.bytes, 0, FIELD_TYPE, Fields(call));
    assert d.bytes[0..|d.bytes|] == d.bytes;
    FieldsApplied(call, Msg(METHOD_CALL, 0, [], [], []));
    PrintStart(FIELD_TYPE);
  }

  lemma {:induction false} LongArgumentLost(ts: seq<Ty>, call: Call, d: Piece, b: Str)
    requires GoodCall(ts, call) && RealArgs(ts, call) && !ShortMembers(ts, Used(ts, call))
    requires EncItems(0, Print(FIELD_TYPE), Fields(call)) == Ok(d) && d.exact
    ensures DecodeFrame(METHOD_CALL, d.bytes, b) != Ok(Msg(METHOD_CALL, 0, [], call.inSig, AbsAll(Used(ts, call))))
  {
    hide EncItems, DecElements, DecMembers, Print, Fields, ApplyFields;
    FieldsReadBack(call, d);
    LongBodyNeverBack(ts, call, b);
    MembersMatch(ts, Used(ts, call));
  }

  // ---- a long signature of the call itself ----

  /** If the item is a header field with a string, that has fewer than `bound` bytes. */
  predicate Less(item: Value, bound: nat) {
    item.List? && |item.items| == 2 && item.items[1].Boxed? && item.items[1].inner.Leaf? ==>
      item.items[1].inner.p.VString? ==> |item.items[1].inner.p.s| < bound
  }

  predicate AllLess(items: seq<Value>, bound: nat)
    decreases |items|
  {
    items == [] || (Less(items[0], bound) && AllLess(items[1..], bound))
  }

  lemma {:induction false} LessStill(items: seq<Value>, bound: nat, more: nat)
    requires AllLess(items, bound) && bound <= more
    ensures AllLess(items, more)
    decreases |items|
  {
    if items != [] { LessStill(items[1..], bound, more); }
  }

  lemma {:induction false} LessFirst(v: Value, vs: seq<Value>, bound: nat)
    requires Less(v, bound) && AllLess(vs, bound)
    ensures AllLess([v] + vs, bound)
  {
    assert ([v] + vs)[1..] == vs;
  }

  lemma {:induction false} SignatureFromField(m: Msg, items: seq<Value>, sig: Str)
    requires m.signature != sig && AllLess(items, |sig|)
    ensures ApplyFields(m, items).signature != sig
    decreases |items|
  {
    if items != [] { SignatureFromField(ApplyField(m, items[0]), items[1..], sig); }
  }

  /** Strings are shorter than the bytes they are read from. */
  lemma {:induction false} StringFits(buf: Str, pos: nat, sig: Str)
    requires pos <= |buf|
    ensures var r := DecValue(AsIs, buf, pos, sig);
      r.Ok? && r.value.v.Leaf? && r.value.v.p.VString? ==> |r.value.v.p.s| < |buf| - pos
  {
    hide DecVariant, DecArray, DecMembers;
  }

  lemma {:induction false} VariantStringFits(buf: Str, pos: nat)
    requires pos <= |buf|
    ensures var r := DecVariant(AsIs, buf, pos);
      r.Ok? && r.value.v.inner.Leaf? && r.value.v.inner.p.VString? ==> |r.value.v.inner.p.s| < |buf| - pos
  {
    hide DecValue;
    var t := DecText(buf, pos, 1);
    if t.Ok? { StringFits(buf, t.value.pos, t.value.v); }
  }

  lemma {:induction false} FieldStringFits(buf: Str, pos: nat)
    requires pos <= |buf|
    ensures var r := DecValue(AsIs, buf, pos, Print(FIELD_TYPE)); r.Ok? ==> Less(r.value.v, |buf| - pos)
  {
    hide DecValue, DecVariant, Print;
    FieldAt(buf, pos);
    var q := pos + Pad(pos, 8);
    if q < |buf| { VariantStringFits(buf, q + 1); }
  }

  lemma {:induction false} FieldStringsFit(buf: Str, pos: nat, end: nat)
    requires pos <= |buf|
    ensures var r := DecItems(AsIs, buf, pos, Print(FIELD_TYPE), end); r.Ok? ==> AllLess(r.value.v, |buf| - pos)
    decreases |buf| - pos
  {
    hide DecValue, Print, Less;
    if pos < end {
      FieldStringFits(buf, pos);
      var r := DecValue(AsIs, buf, pos, Print(FIELD_TYPE));
      if r.Ok? && r.value.pos > pos {
        FieldStringsFit(buf, r.value.pos, end);
        var rest := DecItems(AsIs, buf, r.value.pos, Print(FIELD_TYPE), end);
        if rest.Ok? {
          LessStill(rest.value.v, |buf| - r.value.pos, |buf| - pos);
          LessFirst(r.value.v, rest.value.v, |buf| - pos);
        }
      }
    }
  }

  function After(vs: seq<Value>, r: Outcome<Got<seq<Value>>>): Outcome<Got<seq<Value>>> {
    if r.Ok? then Ok(Got(vs + r.value.v, r.value.pos)) else r
  }

  /** Elements whose lengths fit are read, and then the rest. */
  lemma {:induction false} ItemsPrefix(buf: Str, pos: nat, e: Ty, items: seq<Arg>, end: nat)
    requires Good(e) && AcceptsItems(e, items)
    requires LiesAt(buf, pos, EncItems(pos, Print(e), items)) && pos + Size(EncItems(pos, Print(e), items)) <= end
    ensures DecItems(AsIs, buf, pos, Print(e), end)
         == After(AbsAll(items), DecItems(AsIs, buf, pos + Size(EncItems(pos, Print(e), items)), Print(e), end))
    decreases |items|
  {
    hide EncValue, DecValue, Print, Good, View, Abs, Accepts, Limit;
    AtBound(buf, pos, EncItems(pos, Print(e), items).value.bytes);
    if items == [] {
      var r := DecItems(AsIs, buf, pos, Print(e), end);
      if r.Ok? { assert [] + r.value.v == r.value.v; }
    } else {
      var a := EncValue(pos, Print(e), items[0]).value;
      var next := pos + |a.bytes|;
      CatParts(buf, pos, a, EncItems(next, Print(e), items[1..]).value);
      ValueRT(AsIs, buf, pos, e, items[0]);
      ItemsPrefix(buf, next, e, items[1..], end);
      var r := DecItems(AsIs, buf, pos + Size(EncItems(pos, Print(e), items)), Print(e), end);
      if r.Ok? { assert [Abs(items[0])] + (AbsAll(items[1..]) + r.value.v) == AbsAll(items) + r.value.v; }
    }
  }

  lemma {:induction false} ItemsAppended(pos: nat, elem: Str, items: seq<Arg>, x: Arg)
    requires EncItems(pos, elem, items + [x]).Ok?
    ensures var a := EncItems(pos, elem, items);
      && a.Ok? && EncValue(pos + |a.value.bytes|, elem, x).Ok?
      && EncItems(pos, elem, items + [x]).value.bytes
         == a.value.bytes + EncValue(pos + |a.value.bytes|, elem, x).value.bytes
    decreases |items|
  {
    hide EncValue;
    if items == [] {
      assert items + [x] == [x] && [x][1..] == [];
      assert EncItems(pos, elem, [x]).value.bytes == EncValue(pos, elem, x).value.bytes + [];
    } else {
      assert (items + [x])[1..] == items[1..] + [x];
      ItemsAppended(pos + |EncValue(pos, elem, items[0]).value.bytes|, elem, items[1..], x);
    }
  }

  /** What stands for the signature field behind its padding. */
  function SignatureFieldTail(sig: Str): Str { [FIELD_SIGNATURE, 1, Code(G), 0] + LE(1, |sig|) + sig + [0] }

  /** The signature field as it is written, whatever fits. */
  lemma {:induction false} SignatureFieldBytes(pos: nat, sig: Str)
    ensures var r := EncValue(pos, Print(FIELD_TYPE), Field(FIELD_SIGNATURE, G, sig));
      r.Ok? && r.value.bytes == Zeros(Pad(pos, 8)) + SignatureFieldTail(sig)
  {
    hide EncValue, Print, Pad, LE;
    TaggedBytes(pos, FIELD_SIGNATURE, G, VString(sig));
    var q := pos + Pad(pos, 8) + 4;
    assert EncWord(q, 1, |sig|) == LE(1, |sig|) by { NoPad(q); }
    var head: Str := [FIELD_SIGNATURE, 1, Code(G), 0];
    assert head + (LE(1, |sig|) + (sig + [0])) == head + LE(1, |sig|) + sig + [0];
  }

  /** From such a field only the beginning of a long signature is read, and what it leaves
      is too short to hold the whole. */
  lemma {:induction false} SignatureFieldRead(buf: Str, pos: nat, sig: Str)
    requires |sig| >= 0x100 && At(buf, pos, Zeros(Pad(pos, 8)) + SignatureFieldTail(sig))
    requires |buf| == pos + Pad(pos, 8) + |SignatureFieldTail(sig)|
    ensures var r := DecItems(AsIs, buf, pos, Print(FIELD_TYPE), |buf|); r.Ok? ==> AllLess(r.value.v, |sig|)
  {
    hide DecVariant, DecValue, Print, LE, Pad, AllLess;
    var q, n := pos + Pad(pos, 8), |sig| % 0x100;
    var p := q + 6 + n;
    TailBytes(buf, pos, sig);
    FieldAt(buf, pos);
    CutSignature(buf, q + 1, n);
    var first := DecValue(AsIs, buf, pos, Print(FIELD_TYPE));
    assert first.Ok? && first.value.pos == p && Less(first.value.v, |sig|);
    FieldStringsFit(buf, p, |buf|);
    var rest := DecItems(AsIs, buf, p, Print(FIELD_TYPE), |buf|);
    if rest.Ok? {
      LessStill(rest.value.v, |buf| - p, |sig|);
      LessFirst(first.value.v, rest.value.v, |sig|);
    }
  }

  lemma {:induction false} TailBytes(buf: Str, pos: nat, sig: Str)
    requires At(buf, pos, Zeros(Pad(pos, 8)) + SignatureFieldTail(sig))
    ensures var q := pos + Pad(pos, 8);
      && q + 6 + |sig| <= |buf| && |SignatureFieldTail(sig)| == |sig| + 6
      && buf[q + 1] == 1 && buf[q + 2] == Code(G) && buf[q + 4] == |sig| % 0x100
  {
    hide LE, Pad;
    var q, tail := pos + Pad(pos, 8), SignatureFieldTail(sig);
    AtSplit(buf, pos, Zeros(Pad(pos, 8)), tail);
    SignatureByte(sig);
    assert buf[q..q + |tail|] == tail;
    assert buf[q + 1] == tail[1] && buf[q + 2] == tail[2] && buf[q + 4] == tail[4];
  }

  lemma {:induction false} SignatureByte(sig: Str)
    ensures LE(1, |sig|) == [|sig| % 0x100]
  {
  }

  lemma {:induction false} CutSignature(buf: Str, pos: nat, n: nat)
    requires pos + 5 + n <= |buf| && n < 0x100 && buf[pos] == 1 && buf[pos + 1] == Code(G) && buf[pos + 3] == n
    ensures var r := DecVariant(AsIs, buf, pos);
      r.Ok? && r.value.pos == pos + 5 + n
      && r.value.v == Boxed([Code(G)], Leaf(VString(buf[pos + 4..pos + 4 + n])))
  {
    hide DecValue;
    assert buf[pos..pos + 1] == [1] && UnLE([1]) == 1 && buf[pos + 1..pos + 2] == [Code(G)];
    assert DecText(buf, pos, 1) == Ok(Got([Code(G)], pos + 3));
    assert buf[pos + 3..pos + 4] == [n] && UnLE([n]) == n;
    BasicStep(AsIs, buf, pos + 3, G);
  }

  /** The fields in front of the signature. */
  function FieldsBefore(call: Call): seq<Arg> {
    [Field(FIELD_PATH, O, call.path), Field(FIELD_INTERFACE, S, call.iface), Field(FIELD_MEMBER, S, call.member)]
    + if call.destination != [] then [Field(FIELD_DESTINATION, S, call.destination)] else []
  }

  /** None of them is long or of any consequence. */
  lemma {:induction false} FieldsBeforeAre(call: Call, m: Msg)
    ensures var fs := FieldsBefore(call);
      AcceptsItems(FIELD_TYPE, fs) && ShortItems(FIELD_TYPE, fs) && ApplyFields(m, AbsAll(fs)) == m
  {
    hide Accepts, ShortSignatures, Abs, ApplyFields, Field;
    var fs := FieldsBefore(call);
    BeforeIs(FIELD_PATH, O, call.path);
    BeforeIs(FIELD_INTERFACE, S, call.iface);
    BeforeIs(FIELD_MEMBER, S, call.member);
    BeforeIs(FIELD_DESTINATION, S, call.destination);
    assert forall i :: 0 <= i < |fs| ==>
        Accepts(FIELD_TYPE, fs[i]) && ShortSignatures(FIELD_TYPE, fs[i]) && Untold(Abs(fs[i]));
    hide FieldsBefore, Untold;
    AllAccepted(FIELD_TYPE, fs);
    AllShort(FIELD_TYPE, fs);
    OthersIgnored(m, AbsAll(fs));
  }

  lemma {:induction false} BeforeIs(code: Byte, b: Basic, val: Str)
    requires (b == O || b == S) && code !in [FIELD_REPLY_SERIAL, FIELD_ERROR_NAME, FIELD_SIGNATURE]
    ensures var f := Field(code, b, val);
      Accepts(FIELD_TYPE, f) && ShortSignatures(FIELD_TYPE, f) && Untold(Abs(f))
  {
    FieldAccepted(code, b, val);
    FieldShort(code, b, val);
    FieldAbs(code, b, val);
  }

  lemma {:induction false} FieldsDecodeLost(call: Call, d: Str)
    requires |call.inSig| >= 0x100 && |d| < Limit(4)
    requires var r := EncItems(0, Print(FIELD_TYPE), Fields(call)); r.Ok? && r.value.bytes == d
    ensures var r := DecItems(AsIs, d, 0, Print(FIELD_TYPE), |d|);
      r.Ok? ==> exists vs: seq<Value> ::
        r.value.v == AbsAll(FieldsBefore(call)) + vs && AllLess(vs, |call.inSig|)
  {
    hide EncItems, EncValue, DecItems, Print, Field, SignatureFieldTail, Pad, AbsAll, Limit, AllLess;
    var fs := FieldsBefore(call);
    var f := Field(FIELD_SIGNATURE, G, call.inSig);
    assert Fields(call) == fs + [f];
    ItemsAppended(0, Print(FIELD_TYPE), fs, f);
    var a := EncItems(0, Print(FIELD_TYPE), fs).value;
    FieldsBeforeAre(call, Msg(METHOD_CALL, 0, [], [], []));
    GoodField();
    ItemsFit(0, FIELD_TYPE, fs);
    SignatureFieldBytes(|a.bytes|, call.inSig);
    assert d[0..|a.bytes|] == a.bytes && d[|a.bytes|..|d|] == EncValue(|a.bytes|, Print(FIELD_TYPE), f).value.bytes;
    ItemsPrefix(d, 0, FIELD_TYPE, fs, |d|);
    SignatureFieldRead(d, |a.bytes|, call.inSig);
  }

  /** A call whose signature is 256 bytes or longer is never read with that signature. */
  lemma {:induction false} LongSignatureLost(call: Call, d: Str, body: Str)
    requires |call.inSig| >= 0x100 && |d| < Limit(4)
    requires var r := EncItems(0, Print(FIELD_TYPE), Fields(call)); r.Ok? && r.value.bytes == d
    ensures var r := DecodeFrame(METHOD_CALL, d, body); r.Ok? ==> r.value.signature != call.inSig
  {
    hide EncItems, DecItems, DecodeFrame, Print, Fields, ApplyFields, AbsAll, Limit, AllLess, FieldsBefore;
    FieldsDecodeLost(call, d);
    SignatureRead(d, body);
    var m := Msg(METHOD_CALL, 0, [], [], []);
    FieldsBeforeAre(call, m);
    var r := DecItems(AsIs, d, 0, Print(FIELD_TYPE), |d|);
    if r.Ok? {
      var vs :| r.value.v == AbsAll(FieldsBefore(call)) + vs && AllLess(vs, |call.inSig|);
      ApplyConcat(m, AbsAll(FieldsBefore(call)), vs);
      SignatureFromField(m, vs, call.inSig);
    }
  }

  lemma {:induction false} SignatureRead(d: Str, body: Str)
    ensures var r := DecodeFrame(METHOD_CALL, d, body);
      var items := DecItems(AsIs, d, 0, Print(FIELD_TYPE), |d|);
      r.Ok? ==>
        items.Ok? && r.value.signature == ApplyFields(Msg(METHOD_CALL, 0, [], [], []), items.value.v).signature
  {
    hide DecItems, DecMembers, Print, ApplyFields;
    PrintStart(FIELD_TYPE);
  }

  /** Message round trip under 4 GiB, if and only if: a call is read back as it was sent,
      whatever follows it left unread, exactly where its signature and all 'g' texts and
      inline signatures of its arguments are under 256 bytes. */
  lemma {:induction false} CallRoundTripIff(serial: nat, ts: seq<Ty>, call: Call, tail: Str)
    requires GoodCall(ts, call) && RealArgs(ts, call)
    requires EncCall(serial, call).Ok? ==> |EncCall(serial, call).value.bytes| < TWO_TO_THE_32
    ensures var e := EncCall(serial, call);
      && e.Ok?
      && (ReadMsg(e.value.bytes + tail)
          == (Ok(Msg(METHOD_CALL, 0, [], call.inSig, AbsAll(Used(ts, call)))), tail)
          <==> |call.inSig| < 0x100 && ShortMembers(ts, Used(ts, call)))
  {
    hide EncCall, EncItems, EncMembers, ReadMsg, DecodeFrame, Print;
    hide Fields, GoodCall, RealArgs, ShortMembers, Limit, Used;
    ReadsParts(serial, ts, call, tail);
    var d := EncItems(0, Print(FIELD_TYPE), Fields(call)).value;
    var b := EncMembers(0, call.inSig, call.args).value;
    if |call.inSig| >= 0x100 {
      LongSignatureLost(call, d.bytes, b.bytes);
    } else if ShortMembers(ts, Used(ts, call)) {
      SmallCallIsExact(serial, ts, call);
      CallRoundTrip(serial, ts, call, tail);
    } else {
      FieldsExact(call, d);
      LongArgumentLost(ts, call, d, b.bytes);
    }
  }

  lemma {:induction false} FieldsExact(call: Call, d: Piece)
    requires |call.inSig| < 0x100 && EncItems(0, Print(FIELD_TYPE), Fields(call)) == Ok(d) && |d.bytes| < Limit(4)
    ensures d.exact
  {
    hide EncItems, Print, Fields, Limit;
    FieldsAccepted(call);
    FieldsShort(call);
    ItemsFit(0, FIELD_TYPE, Fields(call));
  }

  // ---- layout ----

  lemma {:induction false} FieldsNonempty(call: Call)
    ensures VariantArraysNonempty(TArray(FIELD_TYPE), Slice(AnySlice, Fields(call)))
  {
    var fs := Fields(call);
    forall i | 0 <= i < |fs|
      ensures VariantArraysNonempty(FIELD_TYPE, fs[i])
    {
      FieldNonempty(FIELD_PATH, O, call.path);
      FieldNonempty(FIELD_INTERFACE, S, call.iface);
      FieldNonempty(FIELD_MEMBER, S, call.member);
      FieldNonempty(FIELD_DESTINATION, S, call.destination);
      FieldNonempty(FIELD_SIGNATURE, G, call.inSig);
    }
    AllNonempty(FIELD_TYPE, fs);
  }

  lemma {:induction false} FieldNonempty(code: Byte, b: Basic, val: Str)
    ensures VariantArraysNonempty(FIELD_TYPE, Field(code, b, val))
  {
    var items := Field(code, b, val).items;
    var ms := FIELD_TYPE.members;
    assert Print(TBasic(b)) == [Code(b)];
    TypeOfPrint(TBasic(b));
    assert VariantArraysNonempty(TVariant, items[1]);
    assert ms[1..] == [TVariant] && items[1..] == [items[1]] && [TVariant][1..] == [];
    assert NonemptyInMembers(ms[1..], items[1..]);
    assert NonemptyInMembers(ms, items);
  }

  lemma {:induction false} AllNonempty(t: Ty, items: seq<Arg>)
    requires forall i :: 0 <= i < |items| ==> VariantArraysNonempty(t, items[i])
    ensures NonemptyInItems(t, items)
    decreases items
  {
    hide VariantArraysNonempty;
    if items != [] { AllNonempty(t, items[1..]); }
  }

  /** A call whose arrays of variants are nonempty is laid out as the specification says if and
      only if each of these, at any depth, starts its elements 8-aligned. */
  lemma {:induction false} CallConformsIff(serial: nat, ts: seq<Ty>, call: Call)
    requires GoodCall(ts, call) && NonemptyInMembers(ts, Used(ts, call))
    requires EncCall(serial, call).Ok? ==> EncCall(serial, call).value.exact
    ensures EncCall(serial, call).Ok?
    ensures MarshalledCall(Standard, EncCall(serial, call).value.bytes, ts, call)
       <==> AlignedInMembers(0, ts, Used(ts, call))
  {
    hide EncCall, EncItems, EncMembers, Print, PrintAll, Fields, Laid, Head, Marshalled, MarshalledMembers, Padding;
    hide Limit, AlignedInMembers, NonemptyInMembers, GoodAll, AcceptsMembers, Used;
    CallLaid(serial, ts, call);
    var m := EncCall(serial, call).value.bytes;
    if AlignedInMembers(0, ts, Used(ts, call)) { CallConforms(Standard, serial, ts, call); }
    if MarshalledCall(Standard, m, ts, call) {
      var fieldsEnd, body :| Marshalled(Standard, m, 12, TArray(FIELD_TYPE), Slice(AnySlice, Fields(call)), fieldsEnd)
        && Padding(m, fieldsEnd, body, 8) && MarshalledMembers(Standard, m, body, ts, Used(ts, call), |m|);
      PartsOnce(serial, ts, call, fieldsEnd, body);
    }
  }

  lemma {:induction false} PartsOnce(serial: nat, ts: seq<Ty>, call: Call, fieldsEnd: nat, body: nat)
    requires GoodCall(ts, call) && NonemptyInMembers(ts, Used(ts, call))
    requires EncCall(serial, call).Ok? && EncCall(serial, call).value.exact
    requires var m := EncCall(serial, call).value.bytes;
      && Marshalled(Standard, m, 12, TArray(FIELD_TYPE), Slice(AnySlice, Fields(call)), fieldsEnd)
      && Padding(m, fieldsEnd, body, 8) && MarshalledMembers(Standard, m, body, ts, Used(ts, call), |m|)
    ensures AlignedInMembers(0, ts, Used(ts, call))
  {
    hide EncCall, EncItems, EncMembers, EncValue, Print, PrintAll, Fields, Laid, Marshalled, MarshalledMembers, LE;
    hide Limit, AlignedInMembers, NonemptyInMembers, VariantArraysNonempty, VariantArraysAligned;
    hide GoodAll, AcceptsMembers, Accepts, TrimmedMembers, View, Pad;
    CallLaid(serial, ts, call);
    var d := EncItems(0, Print(FIELD_TYPE), Fields(call)).value.bytes;
    var b := EncMembers(0, call.inSig, call.args).value.bytes;
    var m := EncCall(serial, call).value.bytes;
    LaidAt(Head(serial, d, b), Fixed(|b|, serial), LE(4, |d|), d, b);
    FieldBytes(call);
    FieldsAccepted(call);
    FieldsNonempty(call);
    LaidOutOnce(m, 12, TArray(FIELD_TYPE), Slice(AnySlice, Fields(call)), fieldsEnd);
    var end := 16 + |d|;
    PadIsFirst(end, body, 8);
    MembersTrimmed(0, ts, call.args);
    MembersShift(0, body, PrintAll(ts), Used(ts, call));
    MembersOnce(m, body, ts, Used(ts, call), |m|);
    AlignedMembersShift(0, body, ts, Used(ts, call));
  }
}
