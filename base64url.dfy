/** The padded URL-safe base64 encoding of section 5 of RFC 4648, as Go's
    `base64.URLEncoding` implements it: alphabet `A-Z a-z 0-9 - _`, `=` padding
    to a multiple of four characters. The decoder skips carriage returns and
    line feeds anywhere in its input, requires the padding, rejects anything
    after a padded group, and ignores the unused low bits of the last group. */
module Base64Url {
  import opened Bytes
  import opened Wrappers

  /** The character for a 6-bit value: `A-Z`, `a-z`, `0-9`, `-`, `_`. */
  function Sextet(v: int): (ch: char)
    requires 0 <= v < 64
    ensures ch != '=' && ch != '\n' && ch != '\r'
  {
    if v < 26 then ('A' as int + v) as char
    else if v < 52 then ('a' as int + (v - 26)) as char
    else if v < 62 then ('0' as int + (v - 52)) as char
    else if v == 62 then '-'
    else '_'
  }

  /** The 6-bit value of an alphabet character; `None` for anything else, `=` included. */
  function SextetValue(ch: char): (r: Option<int>)
    ensures r.Some? ==> 0 <= r.value < 64 && Sextet(r.value) == ch
    ensures ch == '=' || ch == '\n' || ch == '\r' ==> r.None?
  {
    if 'A' <= ch <= 'Z' then Some(ch as int - 'A' as int)
    else if 'a' <= ch <= 'z' then Some(ch as int - 'a' as int + 26)
    else if '0' <= ch <= '9' then Some(ch as int - '0' as int + 52)
    else if ch == '-' then Some(62)
    else if ch == '_' then Some(63)
    else None
  }

  lemma SextetRoundTrip(v: int)
    requires 0 <= v < 64
    ensures SextetValue(Sextet(v)) == Some(v)
  {
  }

  /** The four characters for one group of one to three bytes; a short group
      is padded with `=`. */
  function EncodeGroup(g: seq<Byte>): (q: string)
    requires 1 <= |g| <= 3
    ensures |q| == 4
    ensures forall i :: 0 <= i < 4 ==> q[i] != '\n' && q[i] != '\r'
  {
    if |g| == 1 then
      [Sextet(g[0] / 4), Sextet((g[0] % 4) * 16), '=', '=']
    else if |g| == 2 then
      [Sextet(g[0] / 4), Sextet((g[0] % 4) * 16 + g[1] / 16), Sextet((g[1] % 16) * 4), '=']
    else
      [Sextet(g[0] / 4), Sextet((g[0] % 4) * 16 + g[1] / 16),
       Sextet((g[1] % 16) * 4 + g[2] / 64), Sextet(g[2] % 64)]
  }

  /** `base64.URLEncoding.EncodeToString`: three bytes at a time. */
  function Encode(b: seq<Byte>): (s: string)
    ensures |s| == 4 * ((|b| + 2) / 3)
    ensures forall i :: 0 <= i < |s| ==> s[i] != '\n' && s[i] != '\r'
    decreases |b|
  {
    if |b| == 0 then []
    else
      var n := if |b| < 3 then |b| else 3;
      EncodeGroup(b[..n]) + Encode(b[n..])
  }

  /** The input with every `\r` and `\n` removed. */
  function WithoutNewlines(s: string): (t: string)
    ensures |t| <= |s|
    ensures forall i :: 0 <= i < |t| ==> t[i] != '\n' && t[i] != '\r'
  {
    if s == [] then []
    else if s[0] == '\n' || s[0] == '\r' then WithoutNewlines(s[1..])
    else [s[0]] + WithoutNewlines(s[1..])
  }

  /** One group of four characters; `last` says whether it ends the input, which
      is the only place padding may appear. */
  function DecodeGroup(q: string, last: bool): (r: Option<seq<Byte>>)
    requires |q| == 4
    ensures r.Some? ==> 1 <= |r.value| <= 3
    ensures r.Some? && |r.value| < 3 ==> last
  {
    var a, b, c, d := SextetValue(q[0]), SextetValue(q[1]), SextetValue(q[2]), SextetValue(q[3]);
    if a.None? || b.None? then None
    else if q[2] == '=' then
      if last && q[3] == '=' then Some([a.value * 4 + b.value / 16]) else None
    else if c.None? then None
    else if q[3] == '=' then
      if last then Some([a.value * 4 + b.value / 16, (b.value % 16) * 16 + c.value / 4]) else None
    else if d.None? then None
    else Some([a.value * 4 + b.value / 16, (b.value % 16) * 16 + c.value / 4, (c.value % 4) * 64 + d.value])
  }

  function DecodeGroups(t: string): (r: Option<seq<Byte>>)
    decreases |t|
  {
    if t == [] then Some([])
    else if |t| < 4 then None
    else
      match DecodeGroup(t[..4], |t| == 4)
      case None => None
      case Some(g) =>
        match DecodeGroups(t[4..])
        case None => None
        case Some(rest) => Some(g + rest)
  }

  /** `base64.URLEncoding.DecodeString`: `None` is its `CorruptInputError`. */
  function Decode(s: string): (r: Option<seq<Byte>>)
    ensures r.Some? ==> |WithoutNewlines(s)| % 4 == 0
  {
    var t := WithoutNewlines(s);
    if |t| % 4 != 0 then None else DecodeGroups(t)
  }

  lemma WithoutNewlinesKeeps(s: string)
    requires forall i :: 0 <= i < |s| ==> s[i] != '\n' && s[i] != '\r'
    ensures WithoutNewlines(s) == s
  {
    if s != [] {
      WithoutNewlinesKeeps(s[1..]);
      assert s == [s[0]] + s[1..];
    }
  }

  /** A single byte survives its padded group. */
  lemma OneByteGroup(x: Byte)
    ensures DecodeGroup([Sextet(x / 4), Sextet((x % 4) * 16), '=', '='], true) == Some([x])
  {
    SextetRoundTrip(x / 4);
    SextetRoundTrip((x % 4) * 16);
    assert ((x % 4) * 16) / 16 == x % 4;
  }

  /** Two bytes survive their padded group. */
  lemma TwoByteGroup(x: Byte, y: Byte)
    ensures DecodeGroup([Sextet(x / 4), Sextet((x % 4) * 16 + y / 16), Sextet((y % 16) * 4), '='], true)
            == Some([x, y])
  {
    var t1, t2 := (x % 4) * 16 + y / 16, (y % 16) * 4;
    SextetRoundTrip(x / 4);
    SextetRoundTrip(t1);
    SextetRoundTrip(t2);
    assert t1 / 16 == x % 4 && t1 % 16 == y / 16;
    assert t2 / 4 == y % 16;
  }

  /** Three bytes survive their full group, wherever it stands. */
  lemma ThreeByteGroup(x: Byte, y: Byte, z: Byte, last: bool)
    ensures DecodeGroup([Sextet(x / 4), Sextet((x % 4) * 16 + y / 16),
                         Sextet((y % 16) * 4 + z / 64), Sextet(z % 64)], last) == Some([x, y, z])
  {
    var t1, t2 := (x % 4) * 16 + y / 16, (y % 16) * 4 + z / 64;
    SextetRoundTrip(x / 4);
    SextetRoundTrip(t1);
    SextetRoundTrip(t2);
    SextetRoundTrip(z % 64);
    assert t1 / 16 == x % 4 && t1 % 16 == y / 16;
    assert t2 / 4 == y % 16 && t2 % 4 == z / 64;
  }

  /** One to three bytes survive their group's encoding and decoding; a full
      group decodes wherever it stands, a padded one only at the end. */
  lemma GroupRoundTrip(g: seq<Byte>, last: bool)
    requires 1 <= |g| <= 3
    requires |g| < 3 ==> last
    ensures DecodeGroup(EncodeGroup(g), last) == Some(g)
  {
    if |g| == 1 {
      OneByteGroup(g[0]);
      assert g == [g[0]];
    } else if |g| == 2 {
      TwoByteGroup(g[0], g[1]);
      assert g == [g[0], g[1]];
    } else {
      ThreeByteGroup(g[0], g[1], g[2], last);
      assert g == [g[0], g[1], g[2]];
    }
  }

  /** Decoding a group in front of more groups. */
  lemma DecodeGroupsCons(q: string, rest: string, g: seq<Byte>, r: seq<Byte>)
    requires |q| == 4
    requires DecodeGroup(q, rest == []) == Some(g) && DecodeGroups(rest) == Some(r)
    ensures DecodeGroups(q + rest) == Some(g + r)
  {
    var s := q + rest;
    assert s[..4] == q && s[4..] == rest;
    assert |s| == 4 <==> rest == [];
  }

  lemma {:induction false} GroupsRoundTrip(b: seq<Byte>)
    ensures DecodeGroups(Encode(b)) == Some(b)
    decreases |b|
  {
    if |b| > 0 {
      var n := if |b| < 3 then |b| else 3;
      var rest := Encode(b[n..]);
      assert Encode(b) == EncodeGroup(b[..n]) + rest;
      GroupRoundTrip(b[..n], rest == []);
      GroupsRoundTrip(b[n..]);
      DecodeGroupsCons(EncodeGroup(b[..n]), rest, b[..n], b[n..]);
      assert b == b[..n] + b[n..];
    }
  }

  /** Decoding what was encoded gives the bytes back (section 5 of RFC 4648). */
  lemma DecodeEncode(b: seq<Byte>)
    ensures Decode(Encode(b)) == Some(b)
  {
    var s := Encode(b);
    WithoutNewlinesKeeps(s);
    DivModOf(|s|, (|b| + 2) / 3, 0, 4);
    GroupsRoundTrip(b);
  }
}
