/** Base64 as in section 4 of RFC 4648 (`buffer.toString('base64')`), and
    the lenient decoding of `Buffer.from(text, 'base64')`: characters of
    either alphabet before the first `=` are read, anything else is
    skipped, and a trailing group of two or three characters yields one or
    two bytes. */
module Base64 {

  newtype byte = x: int | 0 <= x < 256

  /** A six-bit group. */
  type sextet = x: nat | x < 64

  /** The section 4 alphabet: A-Z, a-z, 0-9, `+`, `/`. */
  function CharOf(v: sextet): (c: char)
    ensures c != '=' && c != ';' && c != ',' && c != '\n' && c != '\r'
  {
    if v < 26 then ('A' as int + v) as char
    else if v < 52 then ('a' as int + v - 26) as char
    else if v < 62 then ('0' as int + v - 52) as char
    else if v == 62 then '+'
    else '/'
  }

  /** Characters the decoder reads as data: both alphabets (the URL-safe
      one has `-` and `_` for 62 and 63). */
  predicate IsData(c: char) {
    ('A' <= c <= 'Z') || ('a' <= c <= 'z') || ('0' <= c <= '9') || c == '+' || c == '/' || c == '-' || c == '_'
  }

  function ValueOf(c: char): sextet
    requires IsData(c)
  {
    if 'A' <= c <= 'Z' then (c as int - 'A' as int)
    else if 'a' <= c <= 'z' then (c as int - 'a' as int + 26)
    else if '0' <= c <= '9' then (c as int - '0' as int + 52)
    else if c == '+' || c == '-' then 62
    else 63
  }

  lemma CharRoundTrip(v: sextet)
    ensures IsData(CharOf(v)) && ValueOf(CharOf(v)) == v
  {
  }

  /** The sextets of a byte string: four per three bytes, and two or three
      for a final group of one or two bytes. */
  function Sextets(b: seq<byte>): (v: seq<sextet>)
    ensures |v| == (|b| / 3) * 4 + (if |b| % 3 == 0 then 0 else |b| % 3 + 1)
    decreases |b|
  {
    if |b| == 0 then []
    else if |b| == 1 then Single(b[0])
    else if |b| == 2 then Pair(b[0], b[1])
    else Group(b[0], b[1], b[2]) + Sextets(b[3..])
  }

  /** The three bytes spread over four sextets, and back. */
  function Byte0(p: int, q: int): byte
    requires 0 <= p < 64 && 0 <= q < 64
  {
    (p * 4 + q / 16) as byte
  }

  function Byte1(q: int, r: int): byte
    requires 0 <= q < 64 && 0 <= r < 64
  {
    ((q % 16) * 16 + r / 4) as byte
  }

  function Byte2(r: int, t: int): byte
    requires 0 <= r < 64 && 0 <= t < 64
  {
    ((r % 4) * 64 + t) as byte
  }

  /** The bytes of a run of sextets; a single leftover sextet holds no
      whole byte. */
  function Bytes(v: seq<sextet>): (b: seq<byte>)
    decreases |v|
  {
    if |v| < 2 then []
    else if |v| == 2 then [Byte0(v[0], v[1])]
    else if |v| == 3 then [Byte0(v[0], v[1]), Byte1(v[1], v[2])]
    else [Byte0(v[0], v[1]), Byte1(v[1], v[2]), Byte2(v[2], v[3])] + Bytes(v[4..])
  }

  lemma Block(x: byte, y: byte, z: byte)
    ensures var p, q, r, t := x as int / 4, (x as int % 4) * 16 + y as int / 16, (y as int % 16) * 4 + z as int / 64, z as int % 64;
            && 0 <= p < 64 && 0 <= q < 64 && 0 <= r < 64 && 0 <= t < 64
            && Byte0(p, q) == x && Byte1(q, r) == y && Byte2(r, t) == z
  {
    var q := (x as int % 4) * 16 + y as int / 16;
    assert q / 16 == x as int % 4 && q % 16 == y as int / 16;
    var r := (y as int % 16) * 4 + z as int / 64;
    assert r / 4 == y as int % 16 && r % 4 == z as int / 64;
  }

  /** A whole group of three bytes reads back from its four sextets. */
  lemma BlockStep(b: seq<byte>)
    requires |b| >= 3
    ensures Bytes(Sextets(b)) == [b[0], b[1], b[2]] + Bytes(Sextets(b[3..]))
  {
    var rest := Sextets(b[3..]);
    var g := Group(b[0], b[1], b[2]);
    assert Sextets(b) == g + rest;
    GroupBytes(b[0], b[1], b[2]);
    var v := g + rest;
    assert v[4..] == rest;
    assert Bytes(v) == [Byte0(v[0], v[1]), Byte1(v[1], v[2]), Byte2(v[2], v[3])] + Bytes(rest);
  }

  /** The four sextets of three bytes. */
  function Group(x: byte, y: byte, z: byte): (g: seq<sextet>)
    ensures |g| == 4
  {
    [x as int / 4, (x as int % 4) * 16 + y as int / 16, (y as int % 16) * 4 + z as int / 64, z as int % 64]
  }

  lemma GroupBytes(x: byte, y: byte, z: byte)
    ensures var g := Group(x, y, z);
            Byte0(g[0], g[1]) == x && Byte1(g[1], g[2]) == y && Byte2(g[2], g[3]) == z
  {
    Block(x, y, z);
  }

  /** Reading the sextets back gives the bytes. */
  lemma {:induction false} BytesOfSextets(b: seq<byte>)
    ensures Bytes(Sextets(b)) == b
    decreases |b|
  {
    if |b| >= 3 {
      BlockStep(b);
      BytesOfSextets(b[3..]);
      assert b == [b[0], b[1], b[2]] + b[3..];
    } else if |b| == 2 {
      TwoBytes(b);
    } else if |b| == 1 {
      OneByte(b);
    }
  }

  /** The two sextets of a final single byte. */
  function Single(x: byte): (g: seq<sextet>)
    ensures |g| == 2
  {
    [x as int / 4, (x as int % 4) * 16]
  }

  /** The three sextets of a final pair of bytes. */
  function Pair(x: byte, y: byte): (g: seq<sextet>)
    ensures |g| == 3
  {
    [x as int / 4, (x as int % 4) * 16 + y as int / 16, (y as int % 16) * 4]
  }

  /** A final group of two bytes reads back from its three sextets. */
  lemma TwoBytes(b: seq<byte>)
    requires |b| == 2
    ensures Bytes(Sextets(b)) == b
  {
    var g := Pair(b[0], b[1]);
    assert Byte0(g[0], g[1]) == b[0] && Byte1(g[1], g[2]) == b[1] by {
      Block(b[0], b[1], 0);
    }
    assert Bytes(g) == [Byte0(g[0], g[1]), Byte1(g[1], g[2])];
  }

  /** A final single byte reads back from its two sextets. */
  lemma OneByte(b: seq<byte>)
    requires |b| == 1
    ensures Bytes(Sextets(b)) == b
  {
    var g := Single(b[0]);
    assert Byte0(g[0], g[1]) == b[0] by {
      Block(b[0], 0, 0);
    }
    assert Bytes(g) == [Byte0(g[0], g[1])];
  }

  function Chars(v: seq<sextet>): (s: string)
    ensures |s| == |v|
    ensures forall i :: 0 <= i < |v| ==> s[i] == CharOf(v[i])
  {
    seq(|v|, i requires 0 <= i < |v| => CharOf(v[i]))
  }

  function Padding(n: nat): string {
    if n % 3 == 1 then "==" else if n % 3 == 2 then "=" else ""
  }

  /** `buffer.toString('base64')` */
  function Encode(b: seq<byte>): (s: string)
    ensures |s| == 4 * ((|b| + 2) / 3)
    ensures forall i :: 0 <= i < |s| ==> IsData(s[i]) || s[i] == '='
    ensures forall i :: 0 <= i < |s| ==> s[i] != ';' && s[i] != ',' && s[i] != '\n' && s[i] != '\r'
    ensures s == [] <==> b == []
  {
    var v := Sextets(b);
    forall i | 0 <= i < |v| ensures IsData(CharOf(v[i])) { CharRoundTrip(v[i]); }
    Chars(v) + Padding(|b|)
  }

  /** The characters the decoder reads: data characters before the first
      `=`, as sextets. */
  function Read(s: string): (v: seq<sextet>)
  {
    if s == [] || s[0] == '=' then []
    else if IsData(s[0]) then [ValueOf(s[0])] + Read(s[1..])
    else Read(s[1..])
  }

  /** `Buffer.from(s, 'base64')` */
  function Decode(s: string): seq<byte> {
    Bytes(Read(s))
  }

  lemma {:induction false} ReadChars(v: seq<sextet>, pad: string)
    requires pad == [] || pad[0] == '='
    ensures Read(Chars(v) + pad) == v
    decreases |v|
  {
    if v != [] {
      CharRoundTrip(v[0]);
      assert (Chars(v) + pad)[1..] == Chars(v[1..]) + pad;
      ReadChars(v[1..], pad);
    } else {
      assert Chars(v) + pad == pad;
    }
  }

  /** Decoding undoes encoding. */
  lemma DecodeEncode(b: seq<byte>)
    ensures Decode(Encode(b)) == b
  {
    ReadChars(Sextets(b), Padding(|b|));
    BytesOfSextets(b);
  }
}
