/** The configuration file, and what becomes of a text that is written to it as JSON and
    read back. A string is a sequence of bytes here, one character each. */
module Config {
  import opened Wrappers

  predicate Between(lo: int, s: string, i: nat, hi: int) { i < |s| && lo <= s[i] as int <= hi }

  predicate Continues(s: string, i: nat) { Between(0x80, s, i, 0xBF) }

  /** Length of the well-formed UTF-8 character that `s` begins with; 0 if it does not. */
  function CharLength(s: string): (n: nat)
    ensures n <= |s| && n <= 4
  {
    if Between(0, s, 0, 0x7F) then 1
    else if Between(0xC2, s, 0, 0xDF) && Continues(s, 1) then 2
    else if |s| < 3 || !Continues(s, 2) then 0
    else if || (Between(0xE0, s, 0, 0xE0) && Between(0xA0, s, 1, 0xBF))
            || (Between(0xE1, s, 0, 0xEC) && Continues(s, 1))
            || (Between(0xED, s, 0, 0xED) && Between(0x80, s, 1, 0x9F))
            || (Between(0xEE, s, 0, 0xEF) && Continues(s, 1)) then 3
    else if !Continues(s, 3) then 0
    else if || (Between(0xF0, s, 0, 0xF0) && Between(0x90, s, 1, 0xBF))
            || (Between(0xF1, s, 0, 0xF3) && Continues(s, 1))
            || (Between(0xF4, s, 0, 0xF4) && Between(0x80, s, 1, 0x8F)) then 4
    else 0
  }

  /** What stands for a byte that is no part of a character: U+FFFD in UTF-8. */
  const REPLACEMENT: string := [0xEF as char, 0xBF as char, 0xBD as char]

  /** `s` as it is read back after having been written. */
  function Saved(s: string): string
    decreases |s|
  {
    if s == "" then ""
    else
      var n := CharLength(s);
      if n > 0 then s[..n] + Saved(s[n..]) else REPLACEMENT + Saved(s[1..])
  }

  predicate IsUtf8(s: string)
    decreases |s|
  {
    s == "" || (CharLength(s) > 0 && IsUtf8(s[CharLength(s)..]))
  }

  // ---- UTF-8 from the code points ----

  type CodePoint = v: int | 0 <= v < 0xD800 || 0xE000 <= v <= 0x10FFFF

  function Octet(b: int): string
    requires 0 <= b < 0x100
  {
    [b as char]
  }

  /** The bytes of a code point: six bits each, from the last. */
  function Encoded(v: CodePoint): string {
    var q, r := v / 64, v / 64 / 64;
    if v < 0x80 then Octet(v)
    else if v < 0x800 then Octet(0xC0 + q) + Octet(0x80 + v % 64)
    else if v < 0x1_0000 then Octet(0xE0 + r) + Octet(0x80 + q % 64) + Octet(0x80 + v % 64)
    else Octet(0xF0 + r / 64) + Octet(0x80 + r % 64) + Octet(0x80 + q % 64) + Octet(0x80 + v % 64)
  }

  function EncodedAll(vs: seq<CodePoint>): string
    decreases |vs|
  {
    if vs == [] then "" else Encoded(vs[0]) + EncodedAll(vs[1..])
  }

  lemma {:induction false} EncodedIsChar(v: CodePoint, rest: string)
    ensures CharLength(Encoded(v) + rest) == |Encoded(v)| > 0
  {
  }

  lemma {:induction false} CharIsEncoded(s: string) returns (v: CodePoint)
    requires CharLength(s) > 0
    ensures s[..CharLength(s)] == Encoded(v)
  {
    var n := CharLength(s);
    var a := s[0] as int;
    if n == 1 {
      v := a;
    } else {
      var b := s[1] as int - 0x80;
      if n == 2 {
        v := (a - 0xC0) * 64 + b;
        assert v / 64 == a - 0xC0 && v % 64 == b;
      } else {
        var c := s[2] as int - 0x80;
        if n == 3 {
          var q := (a - 0xE0) * 64 + b;
          v := Joined(q, c);
          var _ := Joined(a - 0xE0, b);
        } else {
          var r := (a - 0xF0) * 64 + b;
          var _ := Joined(a - 0xF0, b);
          var q := Joined(r, c);
          v := Joined(q, s[3] as int - 0x80);
        }
      }
    }
  }

  lemma {:induction false} Joined(q: int, d: int) returns (v: int)
    requires 0 <= q && 0 <= d < 64
    ensures v == q * 64 + d && v / 64 == q && v % 64 == d
  {
    v := q * 64 + d;
  }

  /** A text of code points is valid, and every valid text is one. */
  lemma {:induction false} CodePointsAreUtf8(vs: seq<CodePoint>)
    ensures IsUtf8(EncodedAll(vs))
    decreases |vs|
  {
    hide Encoded, CharLength;
    if vs != [] {
      EncodedIsChar(vs[0], EncodedAll(vs[1..]));
      CodePointsAreUtf8(vs[1..]);
      assert EncodedAll(vs)[|Encoded(vs[0])|..] == EncodedAll(vs[1..]);
    }
  }

  lemma {:induction false} Utf8IsCodePoints(s: string) returns (vs: seq<CodePoint>)
    requires IsUtf8(s)
    ensures EncodedAll(vs) == s
    decreases |s|
  {
    hide Encoded, CharLength;
    if s == "" {
      vs := [];
    } else {
      var n := CharLength(s);
      var v := CharIsEncoded(s);
      var rest := Utf8IsCodePoints(s[n..]);
      vs := [v] + rest;
      assert vs[1..] == rest && s == s[..n] + s[n..];
    }
  }

  /** What follows does not change the character a text begins with. */
  lemma {:induction false} CharLengthOfPrefix(s: string, rest: string)
    requires CharLength(s) > 0
    ensures CharLength(s[..CharLength(s)] + rest) == CharLength(s)
  {
  }

  lemma {:induction false} Utf8Cons(c: string, rest: string)
    requires CharLength(c) == |c| > 0
    ensures IsUtf8(c + rest) == IsUtf8(rest) && Saved(c + rest) == c + Saved(rest)
  {
    CharLengthOfPrefix(c, rest);
    assert c[..|c|] == c && (c + rest)[|c|..] == rest && (c + rest)[..|c|] == c;
  }

  lemma {:induction false} ReplacementIsOne()
    ensures CharLength(REPLACEMENT) == |REPLACEMENT|
  {
  }

  /** What is read back is well-formed; a text survives if and only if it was. */
  lemma {:induction false} SavedIs(s: string)
    ensures IsUtf8(Saved(s)) && (s == "" <==> Saved(s) == "")
    ensures Saved(s) == s <==> IsUtf8(s)
    decreases |s|
  {
    hide CharLength;
    if s != "" {
      var n := CharLength(s);
      if n > 0 {
        SavedIs(s[n..]);
        CharLengthOfPrefix(s, "");
        assert s[..n] + "" == s[..n];
        Utf8Cons(s[..n], Saved(s[n..]));
        assert s == s[..n] + s[n..];
        assert Saved(s)[n..] == Saved(s[n..]);
      } else {
        SavedIs(s[1..]);
        ReplacementIsOne();
        Utf8Cons(REPLACEMENT, Saved(s[1..]));
        assert !IsUtf8(s);
      }
    }
  }

  /** Behind any valid text, a byte that begins no character is read back as U+FFFD, and what
      follows it as if that stood alone. */
  lemma {:induction false} StrayByteSaved(vs: seq<CodePoint>, c: char, rest: string)
    requires CharLength([c] + rest) == 0
    ensures Saved(EncodedAll(vs) + ([c] + rest)) == EncodedAll(vs) + (Encoded(0xFFFD) + Saved(rest))
  {
    assert REPLACEMENT == Encoded(0xFFFD);
    assert ([c] + rest)[1..] == rest;
    hide CharLength, Encoded;
    SavedBehind(vs, [c] + rest);
  }

  lemma {:induction false} SavedBehind(vs: seq<CodePoint>, s: string)
    ensures Saved(EncodedAll(vs) + s) == EncodedAll(vs) + Saved(s)
    decreases |vs|
  {
    hide CharLength, Encoded, Saved, IsUtf8;
    if vs == [] {
      assert EncodedAll(vs) + s == s && EncodedAll(vs) + Saved(s) == Saved(s);
    } else {
      var first, more := Encoded(vs[0]), EncodedAll(vs[1..]);
      assert EncodedAll(vs) + s == first + (more + s);
      EncodedIsChar(vs[0], "");
      assert first + "" == first;
      Utf8Cons(first, more + s);
      SavedBehind(vs[1..], s);
      assert first + (more + Saved(s)) == EncodedAll(vs) + Saved(s);
    }
  }

  lemma {:induction false} SavedAfterAscii(prefix: string, s: string)
    requires forall i :: 0 <= i < |prefix| ==> prefix[i] as int <= 0x7F
    ensures Saved(prefix + s) == prefix + Saved(s)
    decreases |prefix|
  {
    hide Saved, IsUtf8;
    if prefix == "" {
      assert prefix + s == s && prefix + Saved(s) == Saved(s);
    } else {
      SavedAfterAscii(prefix[1..], s);
      assert prefix + s == [prefix[0]] + (prefix[1..] + s);
      Utf8Cons([prefix[0]], prefix[1..] + s);
      assert [prefix[0]] + (prefix[1..] + Saved(s)) == prefix + Saved(s);
    }
  }

  // ---- the file ----

  /** The entries the model speaks of, and all others. */
  datatype Key =
    | Domain | AlertEmail | CloudflareToken
    | VaultwardenAdminToken | PostgresPassword | GarageRpcSecret | GarageAdminToken | StalwartAdminPassword
    | EnteEncryptionKey | EnteEncryptionHashKey | EnteJwtSecret
    | OtherKey(name: string)

  /** An entry is a string or some other JSON value. */
  datatype Item = Text(s: string) | OtherItem(json: string)

  type Cfg = map<Key, Item>

  /** The string at `key`, or "" where there is none. */
  function Get(cfg: Cfg, key: Key): string {
    if key in cfg && cfg[key].Text? then cfg[key].s else ""
  }

  function SavedItem(i: Item): Item { if i.Text? then Text(Saved(i.s)) else i }

  function SavedCfg(cfg: Cfg): Cfg { map key | key in cfg :: SavedItem(cfg[key]) }

  lemma {:induction false} GetSaved(cfg: Cfg, key: Key)
    ensures Get(SavedCfg(cfg), key) == Saved(Get(cfg, key))
  {
  }

  /** The file, absent or whole or cut off while it was being written. */
  datatype File = Absent | Holds(cfg: Cfg) | Torn

  function Loaded(f: File): Option<Cfg> {
    match f
    case Absent => Some(map[])
    case Holds(cfg) => Some(cfg)
    case Torn => None
  }
}
