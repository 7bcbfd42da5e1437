/** Base64 with the standard alphabet and `=` padding of section 4 of RFC 4648,
    without line breaks (Android's `Base64.NO_WRAP`). */
module Base64 {
  import opened Wrappers
  import opened Binary

  const PAD: char := '='

  /** The 6-bit value a character stands for, if it is in the alphabet. */
  function ValueOf(c: char): (r: Option<int>)
    ensures r.Some? ==> 0 <= r.value < 64
    ensures c == PAD ==> r.None?
  {
    if 'A' <= c <= 'Z' then Some(c as int - 'A' as int)
    else if 'a' <= c <= 'z' then Some(c as int - 'a' as int + 26)
    else if '0' <= c <= '9' then Some(c as int - '0' as int + 52)
    else if c == '+' then Some(62)
    else if c == '/' then Some(63)
    else None
  }

  /** The alphabet character for a 6-bit value. */
  function CharOf(v: int): (c: char)
    requires 0 <= v < 64
    ensures ValueOf(c) == Some(v)
  {
    if v < 26 then ('A' as int + v) as char
    else if v < 52 then ('a' as int + v - 26) as char
    else if v < 62 then ('0' as int + v - 52) as char
    else if v == 62 then '+'
    else '/'
  }

  /** True of the characters an encoding may contain. */
  predicate IsEncodingChar(c: char) {
    ValueOf(c).Some? || c == PAD
  }

  /** The four characters of three whole input bytes. */
  function EncodeGroup(x: Byte, y: Byte, z: Byte): string {
    [CharOf(x / 4), CharOf(x % 4 * 16 + y / 16), CharOf(y % 16 * 4 + z / 64), CharOf(z % 64)]
  }

  /** Encodes every three bytes as four characters; a final one or two bytes
      are padded to four characters with `=`. */
  function Encode(b: Bytes): (s: string)
    ensures |s| == 4 * ((|b| + 2) / 3)
    ensures |b| > 0 ==> |s| >= 4
    decreases |b|
  {
    if |b| == 0 then []
    else if |b| == 1 then [CharOf(b[0] / 4), CharOf(b[0] % 4 * 16), PAD, PAD]
    else if |b| == 2 then [CharOf(b[0] / 4), CharOf(b[0] % 4 * 16 + b[1] / 16), CharOf(b[1] % 16 * 4), PAD]
    else EncodeGroup(b[0], b[1], b[2]) + Encode(b[3..])
  }

  /** An encoding uses only the 64 alphabet characters and `=`. */
  lemma {:induction false} EncodeAlphabet(b: Bytes)
    ensures forall i :: 0 <= i < |Encode(b)| ==> IsEncodingChar(Encode(b)[i])
    decreases |b|
  {
    if |b| >= 3 {
      EncodeAlphabet(b[3..]);
      var g, rest := EncodeGroup(b[0], b[1], b[2]), Encode(b[3..]);
      assert Encode(b) == g + rest;
      forall i | 0 <= i < |g + rest| ensures IsEncodingChar((g + rest)[i]) {
        if i >= 4 {
          assert (g + rest)[i] == rest[i - 4];
        }
      }
    }
  }

  /** Three bytes from four 6-bit values. */
  function Join(a: int, b: int, c: int, d: int): Bytes
    requires 0 <= a < 64 && 0 <= b < 64 && 0 <= c < 64 && 0 <= d < 64
  {
    [a * 4 + b / 16, b % 16 * 16 + c / 4, c % 4 * 64 + d]
  }

  /** Decodes four alphabet characters (no padding) to three bytes. */
  function DecodeGroup(a: char, b: char, c: char, d: char): (r: Option<Bytes>)
    ensures r.Some? ==> |r.value| == 3
  {
    match (ValueOf(a), ValueOf(b), ValueOf(c), ValueOf(d))
    case (Some(va), Some(vb), Some(vc), Some(vd)) => Some(Join(va, vb, vc, vd))
    case _ => None
  }

  /** Decodes the last four characters, which may end in one or two `=`. */
  function DecodeFinalGroup(a: char, b: char, c: char, d: char): (r: Option<Bytes>)
    ensures r.Some? ==> 1 <= |r.value| <= 3
  {
    if c == PAD && d == PAD then
      match (ValueOf(a), ValueOf(b))
      case (Some(va), Some(vb)) => Some(Join(va, vb, 0, 0)[..1])
      case _ => None
    else if d == PAD then
      match (ValueOf(a), ValueOf(b), ValueOf(c))
      case (Some(va), Some(vb), Some(vc)) => Some(Join(va, vb, vc, 0)[..2])
      case _ => None
    else DecodeGroup(a, b, c, d)
  }

  /** Strict decoding: the length is a multiple of four, every character is in
      the alphabet, and `=` appears only as the padding of the last group. */
  function Decode(s: string): (r: Option<Bytes>)
    ensures r.Some? ==> |s| % 4 == 0 && |r.value| <= 3 * (|s| / 4)
    decreases |s|
  {
    if |s| == 0 then Some([])
    else if |s| < 4 then None
    else if |s| == 4 then DecodeFinalGroup(s[0], s[1], s[2], s[3])
    else
      match DecodeGroup(s[0], s[1], s[2], s[3])
      case None => None
      case Some(group) =>
        match Decode(s[4..])
        case None => None
        case Some(rest) => Some(group + rest)
  }

  /** Joining the four 6-bit values a group was cut into gives the three bytes back. */
  lemma JoinSplit(x: Byte, y: Byte, z: Byte)
    ensures Join(x / 4, x % 4 * 16 + y / 16, y % 16 * 4 + z / 64, z % 64) == [x, y, z]
  {
    var x1, x2 := x / 4, x % 4;
    var y1, y2 := y / 16, y % 16;
    var z1, z2 := z / 64, z % 64;
    assert x == x1 * 4 + x2 && y == y1 * 16 + y2 && z == z1 * 64 + z2;
    var b := x2 * 16 + y1;
    var c := y2 * 4 + z1;
    assert b / 16 == x2 && b % 16 == y1;
    assert c / 4 == y2 && c % 4 == z1;
  }

  lemma GroupRoundTrip(x: Byte, y: Byte, z: Byte)
    ensures DecodeGroup(EncodeGroup(x, y, z)[0], EncodeGroup(x, y, z)[1],
                        EncodeGroup(x, y, z)[2], EncodeGroup(x, y, z)[3]) == Some([x, y, z])
  {
    var a, b, c, d := x / 4, x % 4 * 16 + y / 16, y % 16 * 4 + z / 64, z % 64;
    var g := EncodeGroup(x, y, z);
    assert g[0] == CharOf(a) && g[1] == CharOf(b) && g[2] == CharOf(c) && g[3] == CharOf(d);
    assert DecodeGroup(g[0], g[1], g[2], g[3]) == Some(Join(a, b, c, d));
    JoinSplit(x, y, z);
  }

  /** A single whole group decodes on its own: it holds no padding. */
  lemma SingleGroupRoundTrip(x: Byte, y: Byte, z: Byte)
    ensures Decode(EncodeGroup(x, y, z)) == Some([x, y, z])
  {
    var g := EncodeGroup(x, y, z);
    GroupRoundTrip(x, y, z);
    assert ValueOf(g[2]).Some? && ValueOf(g[3]).Some?;
    assert Decode(g) == DecodeFinalGroup(g[0], g[1], g[2], g[3]);
  }

  lemma TailRoundTrip1(x: Byte)
    ensures DecodeFinalGroup(CharOf(x / 4), CharOf(x % 4 * 16), PAD, PAD) == Some([x])
  {
    var j := Join(x / 4, x % 4 * 16, 0, 0);
    assert j[0] == x;
    assert j[..1] == [x];
  }

  lemma TailRoundTrip2(x: Byte, y: Byte)
    ensures DecodeFinalGroup(CharOf(x / 4), CharOf(x % 4 * 16 + y / 16), CharOf(y % 16 * 4), PAD) == Some([x, y])
  {
    var j := Join(x / 4, x % 4 * 16 + y / 16, y % 16 * 4, 0);
    assert j[0] == x && j[1] == y;
    assert j[..2] == [x, y];
  }

  /** Decoding a group of four characters followed by a non-empty encoding
      decodes the group, then the rest. */
  lemma DecodeCons(g: string, rest: string, x: Bytes, y: Bytes)
    requires |g| == 4 && |rest| >= 4
    requires DecodeGroup(g[0], g[1], g[2], g[3]) == Some(x)
    requires Decode(rest) == Some(y)
    ensures Decode(g + rest) == Some(x + y)
  {
    var s := g + rest;
    assert s[0] == g[0] && s[1] == g[1] && s[2] == g[2] && s[3] == g[3];
    assert s[4..] == rest;
  }

  /** Four characters are decoded as the final group. */
  lemma DecodeFour(e: string)
    requires |e| == 4
    ensures Decode(e) == DecodeFinalGroup(e[0], e[1], e[2], e[3])
  {
  }

  /** The encoding of one byte decodes back to it. */
  lemma OneByteRoundTrip(x: Byte)
    ensures Decode(Encode([x])) == Some([x])
  {
    var e := Encode([x]);
    assert e == [CharOf(x / 4), CharOf(x % 4 * 16), PAD, PAD];
    DecodeFour(e);
    TailRoundTrip1(x);
  }

  /** The encoding of two bytes decodes back to them. */
  lemma TwoBytesRoundTrip(x: Byte, y: Byte)
    ensures Decode(Encode([x, y])) == Some([x, y])
  {
    var e := Encode([x, y]);
    assert e == [CharOf(x / 4), CharOf(x % 4 * 16 + y / 16), CharOf(y % 16 * 4), PAD];
    DecodeFour(e);
    TailRoundTrip2(x, y);
  }

  /** The encoding of more than two bytes is the first group's followed by
      the encoding of the rest. */
  lemma EncodeUnfold(b: Bytes)
    requires |b| >= 3
    ensures Encode(b) == EncodeGroup(b[0], b[1], b[2]) + Encode(b[3..])
  {
  }

  /** The inductive step: a whole group in front of a non-empty rest. */
  lemma SplitHead(b: Bytes)
    requires |b| >= 3
    ensures [b[0], b[1], b[2]] + b[3..] == b
  {
  }

  lemma LongRoundTrip(b: Bytes)
    requires |b| > 3
    requires Decode(Encode(b[3..])) == Some(b[3..])
    ensures Decode(Encode(b)) == Some(b)
  {
    EncodeUnfold(b);
    HeadGroupRoundTrip(b[0], b[1], b[2], Encode(b[3..]), b[3..]);
    SplitHead(b);
  }

  /** A whole group decodes in front of any rest that decodes. */
  lemma HeadGroupRoundTrip(x: Byte, y: Byte, z: Byte, rest: string, tail: Bytes)
    requires |rest| >= 4 && Decode(rest) == Some(tail)
    ensures Decode(EncodeGroup(x, y, z) + rest) == Some([x, y, z] + tail)
  {
    GroupRoundTrip(x, y, z);
    DecodeCons(EncodeGroup(x, y, z), rest, [x, y, z], tail);
  }

  /** Decoding inverts encoding, for every byte string including the empty one. */
  lemma {:induction false} DecodeEncode(b: Bytes)
    ensures Decode(Encode(b)) == Some(b)
    decreases |b|
  {
    if |b| == 1 {
      OneByteRoundTrip(b[0]);
      assert b == [b[0]];
    } else if |b| == 2 {
      TwoBytesRoundTrip(b[0], b[1]);
      assert b == [b[0], b[1]];
    } else if |b| == 3 {
      EncodeUnfold(b);
      assert Encode(b) == EncodeGroup(b[0], b[1], b[2]);
      SingleGroupRoundTrip(b[0], b[1], b[2]);
      assert b == [b[0], b[1], b[2]];
    } else if |b| > 3 {
      DecodeEncode(b[3..]);
      LongRoundTrip(b);
    }
  }
}
