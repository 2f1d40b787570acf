/** The request/reply loop of a connection. */
module Client {
  import opened Wrappers
  import opened Bytes
  import opened Signature
  import opened Values
  import opened Wire
  import opened Message
  import opened MessageLaws
  import opened Frames
  import opened Headers

  /** Call's loop: read messages until one carries `serial`; a read error ends it. */
  ghost function Await(s: Str, serial: nat): (Outcome<Msg>, Str)
    decreases |s|
  {
    var (r, rest) := ReadMsg(s);
    if r.Ok? && r.value.replySerial != serial then Await(rest, serial) else (r, rest)
  }

  const ERROR: Byte := 3

  /** What a call returns for the message it was waiting for. */
  datatype Result = Reply(body: seq<Value>) | CallError(name: Str, body: seq<Value>)

  function Finish(m: Msg): Result {
    if m.msgType == ERROR then CallError(m.errorName, m.body) else Reply(m.body)
  }

  /** A connection: the last serial, the bytes sent, and those still to be read. */
  datatype Link = Link(serial: nat, sent: Str, incoming: Str)

  /** One call. A serial is used also where encoding fails, and then nothing is sent or read. */
  ghost function CallStep(link: Link, call: Call): (Outcome<Msg>, Link) {
    var n := (link.serial + 1) % TWO_TO_THE_32;
    var e := EncCall(n, call);
    if !e.Ok? then (e.PropagateFailure(), link.(serial := n))
    else
      var (r, rest) := Await(link.incoming, n);
      (r, Link(n, link.sent + e.value.bytes, rest))
  }

  class Conn {
    var serial: Uint32
    var sent: Str
    const reader: Reader

    constructor (reader: Reader)
      ensures serial == 0 && sent == [] && this.reader == reader
    {
      serial := 0;
      sent := [];
      this.reader := reader;
    }

    /** An atomic 32-bit increment. */
    method NextSerial() returns (n: Uint32)
      modifies this`serial
      ensures n == serial == (old(serial) + 1) % TWO_TO_THE_32
    {
      serial := (serial + 1) % TWO_TO_THE_32;
      n := serial;
    }

    ghost function Now(): Link
      reads this, reader
    {
      Link(serial, sent, reader.data)
    }

    /** Call up to the reply's body, or the ERROR message instead of it, or the failure to
        encode or to read. */
    method Call(call: Call) returns (r: Outcome<Result>)
      modifies this, reader
      ensures var (m, link) := CallStep(old(Now()), call);
        Now() == link && r == if m.Ok? then Ok(Finish(m.value)) else m.PropagateFailure()
    {
      hide EncCall, Await, ReadMsg;
      var n := NextSerial();
      var msg := EncodeMethodCall(n, call);
      if !msg.Ok? { return msg.PropagateFailure(); }
      sent := sent + msg.value;
      var reply :- AwaitReply(n);
      if reply.msgType == ERROR { return Ok(CallError(reply.errorName, reply.body)); }
      r := Ok(Reply(reply.body));
    }

    /** The loop of Call. */
    method AwaitReply(n: nat) returns (r: Outcome<Msg>)
      modifies reader
      ensures (r, reader.data) == Await(old(reader.data), n)
    {
      hide ReadMsg;
      r := reader.ReadMessage();
      while r.Ok? && r.value.replySerial != n
        invariant Await(old(reader.data), n)
               == if r.Ok? && r.value.replySerial != n then Await(reader.data, n) else (r, reader.data)
        decreases |reader.data|, if r.Ok? then 1 else 0
      {
        r := reader.ReadMessage();
      }
    }
  }

  // ---- what a call returns ----

  /** A reply handed to the caller carries the call's own serial. */
  lemma {:induction false} ReplyMatches(s: Str, serial: nat)
    ensures var r := Await(s, serial).0; r.Ok? ==> r.value.replySerial == serial
    decreases |s|
  {
    hide ReadMsg;
    var (r, rest) := ReadMsg(s);
    if r.Ok? && r.value.replySerial != serial { ReplyMatches(rest, serial); }
  }

  /** Type 3, and no other, is an error, and comes with the name. */
  lemma {:induction false} ErrorsAre(m: Msg)
    ensures Finish(m) == if m.msgType != 3 then Reply(m.body) else CallError(m.errorName, m.body)
  {
  }

  /** Replies as they stand on the wire, to the call with whatever serial, answer it. */
  lemma {:induction false} RepliesTaken(flags: Byte, own: nat, n: Uint32, v: Uint32, tail: Str)
    ensures Await(EmptyReplyFrame(flags, own, n) + tail, n) == (Ok(Msg(2, n, [], [], [])), tail)
    ensures Await(NumberReplyFrame(flags, own, n, v) + tail, n)
         == (Ok(Msg(2, n, [], ['u' as int], [Leaf(VUint32(v))])), tail)
    ensures Finish(Msg(2, n, [], ['u' as int], [Leaf(VUint32(v))])) == Reply([Leaf(VUint32(v))])
  {
    hide ReadMsg, EmptyReplyFrame, NumberReplyFrame;
    EmptyReply(flags, own, n, tail);
    NumberReply(flags, own, n, v, tail);
  }

  /** An ERROR gives the caller its name. */
  lemma {:induction false} ErrorTaken(flags: Byte, own: nat, n: Uint32, name: Str, pad: Str, tail: Str)
    requires |name| + 17 < 0x1_0000_0000 && |pad| < 8 && (33 + |name| + |pad|) % 8 == 0
    ensures Await(ErrorFrame(flags, own, n, name, pad) + tail, n) == (Ok(Msg(3, n, name, [], [])), tail)
    ensures Finish(Msg(3, n, name, [], [])) == CallError(name, [])
  {
    hide ReadMsg, ErrorFrame;
    ErrorReply(flags, own, n, name, pad, tail);
  }

  // ---- over a stream of frames ----

  ghost predicate AllFramed(frames: seq<Str>) { forall m :: m in frames ==> Framed(m) }

  ghost predicate Decodes(frame: Str) { ReadMsg(frame).0.Ok? }

  ghost predicate Answers(frame: Str, serial: nat) {
    Decodes(frame) && ReadMsg(frame).0.value.replySerial == serial
  }

  /** Index of the first frame at which a call with `serial` stops, or |frames|: the first
      that answers it, or that cannot be decoded. */
  ghost function Stop(frames: seq<Str>, serial: nat): (j: nat)
    ensures j <= |frames|
    decreases |frames|
  {
    if frames == [] || !Decodes(frames[0]) || Answers(frames[0], serial) then 0 else 1 + Stop(frames[1..], serial)
  }

  lemma {:induction false} StopIs(frames: seq<Str>, serial: nat)
    ensures var j := Stop(frames, serial);
      && (forall i :: 0 <= i < j ==> Decodes(frames[i]) && !Answers(frames[i], serial))
      && (j < |frames| ==> Decodes(frames[j]) ==> Answers(frames[j], serial))
    decreases |frames|
  {
    hide Decodes, Answers;
    if frames != [] && Decodes(frames[0]) && !Answers(frames[0], serial) {
      var rest := frames[1..];
      StopIs(rest, serial);
      assert forall i :: 0 <= i < |rest| ==> rest[i] == frames[i + 1];
      forall i | 0 <= i < Stop(frames, serial)
        ensures Decodes(frames[i]) && !Answers(frames[i], serial)
      {
        if i > 0 { assert frames[i] == rest[i - 1]; }
      }
    }
  }

  lemma {:induction false} AwaitStep(frame: Str, rest: Str, serial: nat)
    requires Framed(frame)
    ensures Await(frame + rest, serial)
         == if Decodes(frame) && !Answers(frame, serial) then Await(rest, serial) else (ReadMsg(frame).0, rest)
  {
    ReadsOneFrame(frame, rest);
    hide ReadMsg, Framed;
  }

  /** A call takes the frames up to its stop, and its outcome is that frame's. */
  lemma {:induction false} AwaitStops(frames: seq<Str>, tail: Str, serial: nat)
    requires AllFramed(frames)
    ensures var j := Stop(frames, serial);
      Await(Concat(frames) + tail, serial)
      == if j < |frames| then (ReadMsg(frames[j]).0, Concat(frames[j + 1..]) + tail) else Await(tail, serial)
    decreases |frames|
  {
    hide Await, ReadMsg, Framed, Decodes, Answers;
    if frames == [] {
      assert Concat(frames) + tail == tail;
    } else {
      var first, others := frames[0], frames[1..];
      assert Concat(frames) + tail == first + (Concat(others) + tail);
      AwaitStep(first, Concat(others) + tail, serial);
      if Decodes(first) && !Answers(first, serial) {
        AwaitStops(others, tail, serial);
        var k := Stop(others, serial);
        if k < |others| { assert others[k] == frames[k + 1] && others[k + 1..] == frames[k + 2..]; }
      }
    }
  }

  /** Over framed messages, signals and stale replies included, a call gets the first with
      its serial, the stream left just behind it, if and only if every frame before decodes. */
  lemma {:induction false} GetsReplyIff(frames: seq<Str>, tail: Str, serial: nat, j: nat)
    requires AllFramed(frames) && j < |frames| && Answers(frames[j], serial)
    requires forall i :: 0 <= i < j ==> !Answers(frames[i], serial)
    ensures Await(Concat(frames) + tail, serial) == (ReadMsg(frames[j]).0, Concat(frames[j + 1..]) + tail)
       <==> forall i :: 0 <= i < j ==> Decodes(frames[i])
  {
    AwaitStops(frames, tail, serial);
    StopIs(frames, serial);
    hide Await, ReadMsg, Framed, Stop;
  }

  /** Otherwise it ends with the outcome of the first that does not, the stream just behind that. */
  lemma {:induction false} EndsAtFailure(frames: seq<Str>, tail: Str, serial: nat, i: nat)
    requires AllFramed(frames) && i < |frames| && !Decodes(frames[i])
    requires forall h :: 0 <= h < i ==> Decodes(frames[h]) && !Answers(frames[h], serial)
    ensures var (r, rest) := Await(Concat(frames) + tail, serial);
      !r.Ok? && r == ReadMsg(frames[i]).0 && rest == Concat(frames[i + 1..]) + tail
  {
    hide Await, ReadMsg, Framed, Stop, Answers, Concat, AllFramed;
    AwaitStops(frames, tail, serial);
    StopIs(frames, serial);
  }

  /** Whose call a peer's message answers is told by the last field 5 with a number in it. */
  lemma {:induction false} AnswersIff(kind: Byte, flags: Byte, own: nat, fs: seq<Arg>, ts: seq<Ty>, args: seq<Arg>,
                                      pad: Str, n: nat)
    requires AcceptsItems(FIELD_TYPE, fs) && GoodAll(ts) && AcceptsMembers(ts, args)
    requires TextOr(LastTold(AbsAll(fs), 8, true), []) == PrintAll(ts)
    requires var d, b := EncItems(0, FIELD_LETTERS, fs), EncMembers(0, PrintAll(ts), args);
      d.Ok? && b.Ok? && d.value.exact && b.value.exact && Fits(d.value.bytes, pad, b.value.bytes)
    ensures var d, b := EncItems(0, FIELD_LETTERS, fs).value.bytes, EncMembers(0, PrintAll(ts), args).value.bytes;
      Answers(Sent(kind, flags, own, d, pad, b), n) <==> NumberOr(LastTold(AbsAll(fs), 5, false), 0) == n
  {
    hide ReadMsg, EncItems, EncMembers, PrintAll, LastTold, AbsAll, Sent;
    PeerMessageRead(kind, flags, own, fs, ts, args, pad, []);
    var m := Sent(kind, flags, own, EncItems(0, FIELD_LETTERS, fs).value.bytes, pad,
                  EncMembers(0, PrintAll(ts), args).value.bytes);
    assert m + [] == m;
  }

  /** A signal that has nothing to do with the call but cannot be decoded ends it. */
  lemma {:induction false} DescriptorSignalEndsCall(tail: Str, serial: nat)
    ensures Await(DESCRIPTOR_SIGNAL + tail, serial) == (Err, tail)
  {
    DescriptorSignal();
    AwaitStep(DESCRIPTOR_SIGNAL, tail, serial);
  }

  // ---- many calls in a row ----

  /** The outcomes of the calls on one connection, up to the first that is fatal. */
  ghost function Run(link: Link, calls: seq<Call>): (seq<Outcome<Msg>>, Link)
    decreases |calls|
  {
    if calls == [] then ([], link)
    else
      var (r, next) := CallStep(link, calls[0]);
      if Fatal(r) then ([r], next)
      else
        var (rs, last) := Run(next, calls[1..]);
        ([r] + rs, last)
  }

  /** The same told from the incoming frames: each call that can be encoded stops at a
      frame of its own, behind the one of the call before. None where the frames run out. */
  ghost function Served(frames: seq<Str>, serial: nat, calls: seq<Call>): Option<(seq<Outcome<Msg>>, seq<Str>)>
    decreases |calls|
  {
    if calls == [] then Some(([], frames))
    else
      var n := (serial + 1) % TWO_TO_THE_32;
      var e, j := EncCall(n, calls[0]), Stop(frames, n);
      if e.Ok? && j == |frames| then None
      else
        var r := if e.Ok? then ReadMsg(frames[j]).0 else e.PropagateFailure();
        var rest := if e.Ok? then frames[j + 1..] else frames;
        if Fatal(r) then Some(([r], rest))
        else
          match Served(rest, n, calls[1..])
          case None => None
          case Some((rs, left)) => Some(([r] + rs, left))
  }

  /** Calls in a row, some of which may fail to encode, on any stream of frames long enough
      for all of them: each is served in turn. */
  lemma {:induction false} RunServes(frames: seq<Str>, tail: Str, link: Link, calls: seq<Call>)
    requires AllFramed(frames) && link.incoming == Concat(frames) + tail
    requires Served(frames, link.serial, calls).Some?
    ensures var (rs, last) := Run(link, calls);
      var (outcomes, left) := Served(frames, link.serial, calls).value;
      rs == outcomes && last.incoming == Concat(left) + tail
    decreases |calls|
  {
    hide Await, ReadMsg, Framed, EncCall, Stop;
    if calls != [] {
      var n := (link.serial + 1) % TWO_TO_THE_32;
      AwaitStops(frames, tail, n);
      var (r, next) := CallStep(link, calls[0]);
      if !Fatal(r) {
        RunServes(if EncCall(n, calls[0]).Ok? then frames[Stop(frames, n) + 1..] else frames, tail, next, calls[1..]);
      }
    }
  }

  /** On any bytes whatever, the k-th call's reply carries the k-th serial: a failed call
      uses one up like any other. Only a fatal outcome keeps later calls from being made. */
  lemma {:induction false} RepliesCarrySerials(link: Link, calls: seq<Call>, k: nat)
    requires k < |Run(link, calls).0|
    ensures var rs := Run(link, calls).0;
      && |rs| <= |calls| && (k + 1 < |rs| ==> !Fatal(rs[k]))
      && (|rs| < |calls| ==> Fatal(rs[|rs| - 1]))
      && (rs[k].Ok? ==> rs[k].value.replySerial == (link.serial + 1 + k) % TWO_TO_THE_32)
    decreases |calls|
  {
    hide Await, EncCall;
    var n := (link.serial + 1) % TWO_TO_THE_32;
    ReplyMatches(link.incoming, n);
    var (r, next) := CallStep(link, calls[0]);
    if !Fatal(r) && |Run(link, calls).0| > 1 {
      RepliesCarrySerials(next, calls[1..], if k == 0 then 0 else k - 1);
    }
  }

  /** Over fewer than 2^32 calls on a fresh connection these are all different and none is
      zero, the serial of a message that answers nothing. */
  lemma {:induction false} RepliesAreDistinct(link: Link, calls: seq<Call>, j: nat, k: nat)
    requires link.serial == 0 && |calls| < TWO_TO_THE_32 && j < k < |Run(link, calls).0|
    requires Run(link, calls).0[j].Ok? && Run(link, calls).0[k].Ok?
    ensures var s, t := Run(link, calls).0[j].value.replySerial, Run(link, calls).0[k].value.replySerial;
      s != 0 && t != 0 && s != t
  {
    hide Run;
    RepliesCarrySerials(link, calls, j);
    RepliesCarrySerials(link, calls, k);
  }

  /** The serial of the k-th call on a fresh connection. */
  function SerialOf(k: nat): nat {
    if k == 0 then 0 else (SerialOf(k - 1) + 1) % TWO_TO_THE_32
  }

  lemma {:induction false} SerialOfIs(k: nat)
    ensures SerialOf(k) == k % TWO_TO_THE_32
  {
    if k > 0 { SerialOfIs(k - 1); }
  }

  /** The bound is exact: a message that answers nothing (a signal) is handed to the k-th
      caller as its reply if and only if the serial counter has just wrapped to zero. */
  lemma {:induction false} SignalTakenIff(frame: Str, m: Msg, tail: Str, k: nat)
    requires k > 0 && Framed(frame) && ReadMsg(frame).0 == Ok(m) && m.replySerial == 0
    ensures Await(frame + tail, SerialOf(k)) == (Ok(m), tail) <==> k % TWO_TO_THE_32 == 0
  {
    ReadsOneFrame(frame, tail);
    SerialOfIs(k);
    hide ReadMsg;
    AwaitShortens(tail, SerialOf(k));
  }

  /** As it stands for a signal without header fields. */
  lemma {:induction false} PlainSignalTaken(tail: Str)
    ensures Await(PLAIN_SIGNAL + tail, SerialOf(TWO_TO_THE_32)) == (Ok(Msg(4, 0, [], [], [])), tail)
  {
    PlainSignal();
    SignalTakenIff(PLAIN_SIGNAL, Msg(4, 0, [], [], []), tail, TWO_TO_THE_32);
  }

  lemma {:induction false} AwaitShortens(s: Str, serial: nat)
    ensures Await(s, serial).0.Ok? ==> |Await(s, serial).1| < |s|
    decreases |s|
  {
    hide ReadMsg;
    var (r, rest) := ReadMsg(s);
    if r.Ok? && r.value.replySerial != serial { AwaitShortens(rest, serial); }
  }
}
