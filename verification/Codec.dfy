/** The encoder and decoder as written: one growing buffer with lengths patched in
    afterwards, and one moving cursor. Each method is proved to compute the
    function of module Wire that carries its name. */
module Codec {
  import opened Wrappers
  import opened Bytes
  import opened Signature
  import opened Values
  import opened Wire

  class Encoder {
    var buf: Str

    constructor ()
      ensures buf == []
    {
      buf := [];
    }

    /** On success exactly the bytes of `e` were appended; on failure what was there before is still there. */
    ghost predicate Appended(before: Str, e: Outcome<Piece>, r: Outcome<()>)
      reads this
    {
      if e.Ok? then r == Ok(()) && buf == before + e.value.bytes
      else before <= buf && r == e.PropagateFailure()
    }

    method Align(n: Width)
      modifies this
      ensures buf == old(buf) + Zeros(Pad(|old(buf)|, n))
    {
      ghost var k: nat := 0;
      while !Aligned(|buf|, n)
        invariant buf == old(buf) + Zeros(k)
        invariant k + Pad(|buf|, n) == Pad(|old(buf)|, n)
        decreases Pad(|buf|, n)
      {
        PadNext(|buf|, n);
        assert Zeros(k) + [0] == Zeros(k + 1);
        buf := buf + [0];
        k := k + 1;
      }
    }

    method PutUint16(v: nat)
      modifies this
      ensures buf == old(buf) + EncWord(|old(buf)|, 2, v)
    {
      Align(2);
      buf := buf + LE(2, v);
    }

    method PutUint32(v: nat)
      modifies this
      ensures buf == old(buf) + EncWord(|old(buf)|, 4, v)
    {
      Align(4);
      buf := buf + LE(4, v);
    }

    method PutUint64(v: nat)
      modifies this
      ensures buf == old(buf) + EncWord(|old(buf)|, 8, v)
    {
      Align(8);
      buf := buf + LE(8, v);
    }

    method PutStringLike(s: Str)
      modifies this
      ensures buf == old(buf) + (EncWord(|old(buf)|, 4, |s|) + (s + [0]))
    {
      PutUint32(|s|);
      buf := buf + s;
      buf := buf + [0];
    }

    method PutSignature(s: Str)
      modifies this
      ensures buf == old(buf) + EncSignature(s).bytes
    {
      buf := buf + LE(1, |s|);
      buf := buf + s;
      buf := buf + [0];
    }

    /** The cases of encodeValue for the type codes that stand for one scalar. */
    method EncodeScalar(b: Basic, p: Scalar) returns (r: Outcome<()>)
      modifies this
      ensures Appended(old(buf), EncScalar(|old(buf)|, b, p), r)
    {
      if !HasType(b, p) { return Err; }
      ghost var before := buf;
      match b {
      case Y =>
        buf := buf + [p.u8];
        SingleByte(p.u8);
      case B => if p.flag { PutUint32(1); } else { PutUint32(0); }
      case N => PutUint16(p.i16 % TWO_TO_THE_16);
      case Q => PutUint16(p.u16);
      case I => PutUint32(p.i32 % TWO_TO_THE_32);
      case U => PutUint32(p.u32);
      case X => PutUint64(p.i64 % TWO_TO_THE_64);
      case T => PutUint64(p.u64);
      case D => PutUint64(p.bits);
      case S => PutStringLike(p.s);
      case O => PutStringLike(p.s);
      case G => PutSignature(p.s);
      }
      ScalarBytes(|before|, b, p);
      return Ok(());
    }

    method EncodeValue(sig: Str, x: Arg) returns (r: Outcome<()>)
      modifies this
      ensures Appended(old(buf), EncValue(|old(buf)|, sig, x), r)
      decreases x, 1
    {
      assert BasicOf(VARIANT) == BasicOf(ARRAY) == BasicOf(OPEN_STRUCT) == None;
      if sig == [] { return Panic; }
      var b := BasicOf(sig[0]);
      if b.Some? {
        if !x.Prim? { return Err; }
        r := EncodeScalar(b.value, x.p);
      } else if sig[0] == VARIANT {
        if !x.Variant? { return Err; }
        ghost var before := buf;
        PutSignature(x.sig);
        ghost var v := EncValue(|buf|, x.sig, x.inner);
        r := EncodeValue(x.sig, x.inner);
        Joined(before, EncSignature(x.sig).bytes, v, buf);
        assert EncVariant(|before|, x) == if v.Ok? then Ok(Cat(EncSignature(x.sig), v.value)) else v;
      } else if sig[0] == ARRAY {
        r := EncodeArray(sig, x);
      } else if sig[0] == OPEN_STRUCT {
        if !x.Slice? || x.kind != AnySlice { return Err; }
        ghost var before := buf;
        Align(8);
        assert before <= buf;
        if |sig| == 1 { return Panic; }
        ghost var ms := EncMembers(|buf|, sig[1..|sig| - 1], x.items);
        r := EncodeMembers(sig[1..|sig| - 1], x.items);
        Joined(before, Zeros(Pad(|before|, 8)), ms, buf);
        assert EncStruct(|before|, sig[1..|sig| - 1], x)
            == if ms.Ok? then Ok(Cat(Piece(Zeros(Pad(|before|, 8)), true), ms.value)) else ms;
      } else {
        return Err;
      }
    }

    /** The member loop of a struct: one complete type off the signature, one item off the list. */
    method EncodeMembers(members: Str, items: seq<Arg>) returns (r: Outcome<()>)
      modifies this
      ensures Appended(old(buf), EncMembers(|old(buf)|, members, items), r)
      decreases items, 0
    {
      var rest := members;
      var i := 0;
      hide EncValue, SplitSig;
      ghost var before, start := buf, EncMembers(|buf|, members, items);
      ghost var done := EMPTY;
      ResumesStart(start);
      while rest != []
        invariant 0 <= i <= |items|
        invariant before + done.bytes == buf == before + done.bytes
        invariant Resumes(start, done, EncMembers(|buf|, rest, items[i..]))
        decreases |rest|
      {
        var s := SplitSignature(rest);
        if s.None? { return Err; }
        if i >= |items| { return Err; }
        assert items[i..][0] == items[i] && items[i..][1..] == items[i + 1..];
        ghost var e := EncValue(|buf|, s.value.0, items[i]);
        r := EncodeValue(s.value.0, items[i]);
        if !r.Ok? { return r; }
        ResumesStep(start, done, e.value, EncMembers(|buf|, s.value.1, items[i + 1..]));
        done := Cat(done, e.value);
        rest := s.value.1;
        i := i + 1;
      }
      ResumesEnd(start, done);
      return Ok(());
    }

    /** A zero length word goes out first and is overwritten in place once the elements are written. */
    method EncodeArray(sig: Str, x: Arg) returns (r: Outcome<()>)
      requires sig != [] && sig[0] == ARRAY
      modifies this
      ensures Appended(old(buf), if |sig| == 1 then Panic else EncArray(|old(buf)|, sig[1..], x), r)
      decreases x, 0
    {
      hide EncElements, AlignmentOf, Pad, LE, Limit;
      ghost var before := buf;
      PutUint32(0);
      var lenPos := |buf| - 4;
      var elem := sig[1..];
      if elem == [] {
        assert before <= buf;
        return Panic;
      }
      Align(AlignmentOf(elem[0]));
      var dataStart := |buf|;
      assert buf == before + ArrayHead(|before|, elem[0], 0);
      ghost var d := EncElements(|buf|, elem, x);
      r := EncodeElements(elem, x);
      Joined(before, ArrayHead(|before|, elem[0], 0), d, buf);
      if !r.Ok? { return r; }
      var length := |buf| - dataStart;
      assert buf[dataStart..] == d.value.bytes;
      Patched(before, elem[0], d.value.bytes);
      buf := buf[..lenPos] + LE(4, length) + buf[lenPos + 4..];
    }

    /** encodeArray between the length placeholder and the patch. */
    method EncodeElements(elem: Str, x: Arg) returns (r: Outcome<()>)
      requires elem != []
      modifies this
      ensures Appended(old(buf), EncElements(|old(buf)|, elem, x), r)
      decreases x, -1
    {
      if elem[0] == OPEN_DICT {
        if !x.Dict? { return Err; }
        var s := SplitDictEntry(elem);
        if s.None? { return Err; }
        r := EncodeEntries(s.value.0, s.value.1, x.entries);
      } else {
        if !x.Slice? { return Err; }
        r := EncodeItems(elem, x.items);
      }
    }

    /** encodeArray's loop over the elements of a slice. */
    method EncodeItems(elem: Str, items: seq<Arg>) returns (r: Outcome<()>)
      modifies this
      ensures Appended(old(buf), EncItems(|old(buf)|, elem, items), r)
      decreases items, 0
    {
      hide EncValue;
      ghost var before, start := buf, EncItems(|buf|, elem, items);
      ghost var done := EMPTY;
      ResumesStart(start);
      for i := 0 to |items|
        invariant before + done.bytes == buf
        invariant Resumes(start, done, EncItems(|buf|, elem, items[i..]))
      {
        assert items[i..][0] == items[i] && items[i..][1..] == items[i + 1..];
        ghost var e := EncValue(|buf|, elem, items[i]);
        r := EncodeValue(elem, items[i]);
        if !r.Ok? { return r; }
        ResumesStep(start, done, e.value, EncItems(|buf|, elem, items[i + 1..]));
        done := Cat(done, e.value);
      }
      ResumesEnd(start, done);
      return Ok(());
    }

    /** encodeArray's loop over a map, in the order of `entries`. */
    method EncodeEntries(ks: Str, vs: Str, entries: seq<Entry>) returns (r: Outcome<()>)
      requires ks != []
      modifies this
      ensures Appended(old(buf), EncEntries(|old(buf)|, ks, vs, entries), r)
      decreases entries, 0
    {
      ghost var before, start := buf, EncEntries(|buf|, ks, vs, entries);
      ghost var done := EMPTY;
      ResumesStart(start);
      for i := 0 to |entries|
        invariant before + done.bytes == buf
        invariant Resumes(start, done, EncEntries(|buf|, ks, vs, entries[i..]))
      {
        assert entries[i..][0] == entries[i] && entries[i..][1..] == entries[i + 1..];
        ghost var e := EncEntry(|buf|, ks, vs, entries[i]);
        r := EncodeEntry(ks, vs, entries[i]);
        if !r.Ok? { return r; }
        ResumesStep(start, done, e.value, EncEntries(|buf|, ks, vs, entries[i + 1..]));
        done := Cat(done, e.value);
      }
      ResumesEnd(start, done);
      return Ok(());
    }

    /** The body of that loop. */
    method EncodeEntry(ks: Str, vs: Str, e: Entry) returns (r: Outcome<()>)
      requires ks != []
      modifies this
      ensures Appended(old(buf), EncEntry(|old(buf)|, ks, vs, e), r)
      decreases e, 3
    {
      ghost var before := buf;
      Align(8);
      ghost var kv := EncPair(|buf|, ks, vs, e);
      r := EncodePair(ks, vs, e);
      Joined(before, Zeros(Pad(|before|, 8)), kv, buf);
    }

    method EncodePair(ks: Str, vs: Str, e: Entry) returns (r: Outcome<()>)
      requires ks != []
      modifies this
      ensures Appended(old(buf), EncPair(|old(buf)|, ks, vs, e), r)
      decreases e, 2
    {
      ghost var before := buf;
      ghost var k := EncKey(|buf|, ks, e.key);
      r := EncodeKey(ks, e.key);
      if !r.Ok? { return r; }
      ghost var v := EncValue(|buf|, vs, e.val);
      r := EncodeValue(vs, e.val);
      Joined(before, k.value.bytes, v, buf);
    }

    /** encodeValue on a string key. */
    method EncodeKey(ks: Str, key: Str) returns (r: Outcome<()>)
      requires ks != []
      modifies this
      ensures Appended(old(buf), EncKey(|old(buf)|, ks, key), r)
    {
      if ks == [ARRAY] { return Panic; }
      var b := BasicOf(ks[0]);
      if b.None? { return Err; }
      r := EncodeScalar(b.value, VString(key));
    }
  }

  lemma {:induction false} SingleByte(v: Byte)
    ensures LE(1, v) == [v]
  {
    assert LE(1, v) == [v % 0x100] + LE(0, v / 0x100);
  }

  lemma {:induction false} ScalarBytes(pos: nat, b: Basic, p: Scalar)
    requires HasType(b, p)
    ensures var w := WidthOf(b);
      EncScalar(pos, b, p).value.bytes
      == if b == G then EncSignature(p.s).bytes
         else if IsText(b) then EncWord(pos, w, |p.s|) + (p.s + [0])
         else if w == 1 then LE(1, Word(p))
         else EncWord(pos, w, Word(p))
  {
    var e := EncWord(pos, WidthOf(b), Word(p));
    assert e + [] == e && Zeros(0) + LE(1, Word(p)) == LE(1, Word(p));
    if b == G { assert e + (p.s + [0]) == EncSignature(p.s).bytes; }
  }

  /** `whole` is what is done followed by what `rest` still yields. */
  ghost predicate Resumes(whole: Outcome<Piece>, done: Piece, rest: Outcome<Piece>) {
    whole == if rest.Ok? then Ok(Cat(done, rest.value)) else rest
  }

  lemma {:induction false} ResumesStart(whole: Outcome<Piece>)
    ensures Resumes(whole, EMPTY, whole)
  {
    if whole.Ok? { assert [] + whole.value.bytes == whole.value.bytes; }
  }

  lemma {:induction false} ResumesEnd(whole: Outcome<Piece>, done: Piece)
    requires Resumes(whole, done, Ok(EMPTY))
    ensures whole.Ok? && whole.value.bytes == done.bytes
  {
  }

  /** Appending `b` and then `e`, or failing in `e`, seen from before `b`. */
  lemma {:induction false} Joined(a: Str, b: Str, e: Outcome<Piece>, after: Str)
    requires if e.Ok? then after == a + b + e.value.bytes else a + b <= after
    ensures if e.Ok? then after == a + (b + e.value.bytes) else a <= after
  {
    if !e.Ok? { assert a == (a + b)[..|a|] == after[..|a + b|][..|a|] == after[..|a|]; }
  }

  lemma {:induction false} ResumesStep(whole: Outcome<Piece>, done: Piece, next: Piece, rest: Outcome<Piece>)
    requires Resumes(whole, done, if rest.Ok? then Ok(Cat(next, rest.value)) else rest)
    ensures Resumes(whole, Cat(done, next), rest)
  {
    if rest.Ok? {
      assert done.bytes + (next.bytes + rest.value.bytes) == done.bytes + next.bytes + rest.value.bytes;
    }
  }

  /** Overwriting the placeholder leaves everything else as it was. */
  lemma {:induction false} Patched(before: Str, c: Byte, data: Str)
    ensures var pos := |before|;
      var b := before + ArrayHead(pos, c, 0) + data;
      var lenPos := pos + Pad(pos, 4);
      b[..lenPos] + LE(4, |data|) + b[lenPos + 4..] == before + (ArrayHead(pos, c, |data|) + data)
  {
    var pos := |before|;
    var z := Zeros(Pad(pos, 4));
    var y := Zeros(Pad(pos + Pad(pos, 4) + 4, AlignmentOf(c)));
    hide LE, Pad, Zeros;
    Regroup(before, z, LE(4, 0), y, data);
    Regroup(before, z, LE(4, |data|), y, data);
    Overwrite(before + z, LE(4, 0), LE(4, |data|), y + data);
  }

  lemma {:induction false} Regroup(a: Str, z: Str, w: Str, y: Str, d: Str)
    ensures a + (z + w + y) + d == a + z + w + (y + d)
    ensures a + (z + w + y + d) == a + z + w + (y + d)
  {
  }

  lemma {:induction false} Overwrite(a: Str, was: Str, now: Str, rest: Str)
    requires |was| == |now|
    ensures var b := a + was + rest; b[..|a|] + now + b[|a| + |was|..] == a + now + rest
  {
  }

  class Decoder {
    const buf: Str
    var pos: nat

    constructor (buf: Str)
      ensures this.buf == buf && pos == 0
    {
      this.buf := buf;
      pos := 0;
    }

    ghost predicate Valid()
      reads this
    {
      pos <= |buf|
    }

    /** The cursor stays inside the buffer; on success the value and the new cursor are those of `d`. */
    ghost predicate Took<T>(d: Outcome<Got<T>>, r: Outcome<T>)
      reads this
    {
      && Valid()
      && if d.Ok? then r == Ok(d.value.v) && pos == d.value.pos else r == d.PropagateFailure()
    }

    method Align(n: Width) returns (r: Outcome<()>)
      requires Valid()
      modifies this
      ensures Valid()
      ensures var d := DecAlign(buf, old(pos), n);
        if d.Ok? then r == Ok(()) && pos == d.value else r == Err
    {
      while !Aligned(pos, n)
        invariant Valid()
        invariant pos + Pad(pos, n) == old(pos) + Pad(old(pos), n)
        decreases |buf| - pos
      {
        PadNext(pos, n);
        if pos >= |buf| { return Err; }
        pos := pos + 1;
      }
      return Ok(());
    }

    /** need: `n` more bytes are there. */
    predicate Has(n: nat)
      reads this
    {
      pos + n <= |buf|
    }

    method GetByte() returns (r: Outcome<nat>)
      requires Valid()
      modifies this
      ensures Took(DecWord(buf, old(pos), 1), r)
    {
      if !Has(1) { return Err; }
      r := Ok(buf[pos]);
      assert buf[pos..pos + 1] == [buf[pos]] && UnLE([buf[pos]]) == buf[pos];
      pos := pos + 1;
    }

    /** getUint16, getUint32 and getUint64: align, check, read little-endian, advance. */
    method GetWord(w: Width) returns (r: Outcome<nat>)
      requires Valid()
      modifies this
      ensures Took(DecWord(buf, old(pos), w), r)
    {
      r := Err;
      var a := Align(w);
      if !a.Ok? || !Has(w) { return Err; }
      r := Ok(UnLE(buf[pos..pos + w]));
      pos := pos + w;
    }

    method GetStringLike() returns (r: Outcome<Str>)
      requires Valid()
      modifies this
      ensures Took(DecText(buf, old(pos), 4), r)
    {
      var n :- GetWord(4);
      if !Has(n + 1) { return Err; }
      r := Ok(buf[pos..pos + n]);
      pos := pos + n + 1;
    }

    method GetSignature() returns (r: Outcome<Str>)
      requires Valid()
      modifies this
      ensures Took(DecText(buf, old(pos), 1), r)
    {
      var n :- GetByte();
      if !Has(n + 1) { return Err; }
      r := Ok(buf[pos..pos + n]);
      pos := pos + n + 1;
    }

    /** The cases of decodeValue for the type codes that stand for one scalar. */
    method DecodeScalar(b: Basic) returns (r: Outcome<Scalar>)
      requires Valid()
      modifies this
      ensures Took(DecScalar(buf, old(pos), b), r)
    {
      LimitValues();
      hide DecText, DecWord, Limit, Code;
      match b {
      case Y => var v :- GetByte(); return Ok(VUint8(v));
      case B => var v :- GetWord(4); return Ok(VBool(v != 0));
      case N => var v :- GetWord(2); return Ok(VInt16(if v < 0x8000 then v else v - TWO_TO_THE_16));
      case Q => var v :- GetWord(2); return Ok(VUint16(v));
      case I => var v :- GetWord(4); return Ok(VInt32(if v < 0x8000_0000 then v else v - TWO_TO_THE_32));
      case U => var v :- GetWord(4); return Ok(VUint32(v));
      case X => var v :- GetWord(8); return Ok(VInt64(if v < 0x8000_0000_0000_0000 then v else v - TWO_TO_THE_64));
      case T => var v :- GetWord(8); return Ok(VUint64(v));
      case D => var v :- GetWord(8); return Ok(VFloat64(v));
      case S => var s :- GetStringLike(); return Ok(VString(s));
      case O => var s :- GetStringLike(); return Ok(VString(s));
      case G => var s :- GetSignature(); return Ok(VString(s));
      }
    }

    method DecodeValue(sig: Str) returns (r: Outcome<Value>)
      requires Valid()
      modifies this
      ensures Took(DecValue(AsIs, buf, old(pos), sig), r)
      decreases |buf| - pos, |sig|, 2
    {
      if sig == [] { return Panic; }
      var b := BasicOf(sig[0]);
      if b.Some? {
        var p :- DecodeScalar(b.value);
        return Ok(Leaf(p));
      } else if sig[0] == VARIANT {
        r := DecodeVariant();
      } else if sig[0] == ARRAY {
        r := DecodeArray(sig[1..]);
      } else if sig[0] == OPEN_STRUCT {
        var _ :- Align(8);
        if |sig| == 1 { return Panic; }
        var vs :- DecodeMembers(sig[1..|sig| - 1]);
        return Ok(List(vs));
      } else {
        return Err;
      }
    }

    /** The variant case: the signature to decode by comes out of the buffer, unchecked. */
    method DecodeVariant() returns (r: Outcome<Value>)
      requires Valid()
      modifies this
      ensures Took(DecVariant(AsIs, buf, old(pos)), r)
      decreases |buf| - pos, 0, 1
    {
      var sig :- GetSignature();
      var v :- DecodeValue(sig);
      return Ok(Boxed(sig, v));
    }

    method DecodeArray(elem: Str) returns (r: Outcome<Value>)
      requires Valid()
      modifies this
      ensures Took(DecArray(AsIs, buf, old(pos), elem), r)
      decreases |buf| - pos, |elem|, 1
    {
      var length :- GetWord(4);
      if elem == [] { return Panic; }
      var _ :- Align(AlignmentOf(elem[0]));
      var end := pos + length;
      if !Has(length) { return Err; }
      r := DecodeArrayElements(elem, end);
    }

    method DecodeArrayElements(elem: Str, end: nat) returns (r: Outcome<Value>)
      requires Valid() && elem != []
      modifies this
      ensures Took(DecElements(AsIs, buf, old(pos), elem, end), r)
      decreases |buf| - pos, |elem|, 6
    {
      if elem[0] == OPEN_DICT {
        var s := SplitDictEntry(elem);
        if s.None? { return Err; }
        r := DecodeEntries(s.value.0, s.value.1, end);
      } else {
        var vs :- DecodeItems(elem, end);
        return Ok(List(vs));
      }
    }

    /** The element loop. An element that took no bytes would be decoded again for ever. */
    method DecodeItems(elem: Str, end: nat) returns (r: Outcome<seq<Value>>)
      requires Valid()
      modifies this
      ensures Took(DecItems(AsIs, buf, old(pos), elem, end), r)
      decreases |buf| - pos, |elem|, 3
    {
      var out: seq<Value> := [];
      ghost var whole := DecItems(AsIs, buf, pos, elem, end);
      ContinuesStart(whole);
      while pos < end
        invariant Valid() && old(pos) <= pos
        invariant Continues(whole, out, DecItems(AsIs, buf, pos, elem, end))
        decreases |buf| - pos
      {
        var was := pos;
        var v :- DecodeValue(elem);
        if pos == was { return Hang; }
        ContinuesStep(whole, out, v, DecItems(AsIs, buf, pos, elem, end));
        out := out + [v];
      }
      assert out + [] == out;
      return Ok(out);
    }

    method DecodeMembers(members: Str) returns (r: Outcome<seq<Value>>)
      requires Valid()
      modifies this
      ensures Took(DecMembers(AsIs, buf, old(pos), members), r)
      decreases |buf| - pos, |members|, 3
    {
      var out: seq<Value> := [];
      var rest := members;
      ghost var whole := DecMembers(AsIs, buf, pos, members);
      ContinuesStart(whole);
      while rest != []
        invariant Valid() && old(pos) <= pos && |rest| <= |members|
        invariant Continues(whole, out, DecMembers(AsIs, buf, pos, rest))
        decreases |rest|
      {
        var s := SplitSignature(rest);
        if s.None? { return Err; }
        assert |s.value.0| + |s.value.1| == |rest|;
        var v :- DecodeValue(s.value.0);
        ContinuesStep(whole, out, v, DecMembers(AsIs, buf, pos, s.value.1));
        out := out + [v];
        rest := s.value.1;
      }
      assert out + [] == out;
      return Ok(out);
    }

    /** The dict loop: later entries overwrite earlier ones with the same key. */
    method DecodeEntries(ks: Str, vs: Str, end: nat) returns (r: Outcome<Value>)
      requires Valid()
      modifies this
      ensures Took(DecEntries(AsIs, buf, old(pos), ks, vs, end, map[]), r)
      decreases |buf| - pos, |ks| + |vs|, 5
    {
      var out: map<Str, Value> := map[];
      ghost var whole := DecEntries(AsIs, buf, pos, ks, vs, end, map[]);
      while pos < end
        invariant Valid() && old(pos) <= pos
        invariant whole == DecEntries(AsIs, buf, pos, ks, vs, end, out)
        decreases |buf| - pos
      {
        var kv :- DecodeEntry(ks, vs);
        out := out[kv.0 := kv.1];
      }
      return Ok(Map(out));
    }

    method DecodeEntry(ks: Str, vs: Str) returns (r: Outcome<(Str, Value)>)
      requires Valid()
      modifies this
      ensures Took(DecEntry(AsIs, buf, old(pos), ks, vs), r)
      decreases |buf| - pos, |ks| + |vs|, 4
    {
      var _ :- Align(8);
      var k :- DecodeValue(ks);
      if !k.Leaf? || !k.p.VString? { return Err; }
      var v :- DecodeValue(vs);
      return Ok((k.p.s, v));
    }
  }

  /** `whole` is what was decoded so far followed by what `rest` still yields. */
  ghost predicate Continues(whole: Outcome<Got<seq<Value>>>, out: seq<Value>, rest: Outcome<Got<seq<Value>>>) {
    whole == if rest.Ok? then Ok(Got(out + rest.value.v, rest.value.pos)) else rest
  }

  lemma {:induction false} ContinuesStart(whole: Outcome<Got<seq<Value>>>)
    ensures Continues(whole, [], whole)
  {
    if whole.Ok? { assert [] + whole.value.v == whole.value.v; }
  }

  lemma {:induction false} ContinuesStep(whole: Outcome<Got<seq<Value>>>, out: seq<Value>, v: Value,
                                         rest: Outcome<Got<seq<Value>>>)
    requires Continues(whole, out, if rest.Ok? then Ok(Got([v] + rest.value.v, rest.value.pos)) else rest)
    ensures Continues(whole, out + [v], rest)
  {
    if rest.Ok? { assert out + ([v] + rest.value.v) == out + [v] + rest.value.v; }
  }
}
