/** Base64 with the standard alphabet and `=` padding (section 4 of
    RFC 4648), as Go's `base64.StdEncoding` encodes and decodes it.

    Decoding is Go's non-strict mode: the unused low bits of the last
    character before padding are ignored rather than rejected. A byte is a
    character with a code below 256 (see GoStrings). */
module Base64 {
  import opened Wrappers
  import opened GoStrings

  const Pad: char := '='

  predicate IsAlphabetChar(c: char)
  {
    ('A' <= c <= 'Z') || ('a' <= c <= 'z') || ('0' <= c <= '9') || c == '+' || c == '/'
  }

  /** The alphabet character for a 6-bit value. */
  function CharOf(v: int): (c: char)
    requires 0 <= v < 64
    ensures IsAlphabetChar(c)
  {
    if v < 26 then ('A' as int + v) as char
    else if v < 52 then ('a' as int + v - 26) as char
    else if v < 62 then ('0' as int + v - 52) as char
    else if v < 63 then '+'
    else '/'
  }

  /** The 6-bit value of an alphabet character. */
  function ValueOf(c: char): (v: int)
    requires IsAlphabetChar(c)
    ensures 0 <= v < 64
  {
    if 'A' <= c <= 'Z' then c as int - 'A' as int
    else if 'a' <= c <= 'z' then c as int - 'a' as int + 26
    else if '0' <= c <= '9' then c as int - '0' as int + 52
    else if c < '/' then 62
    else 63
  }

  lemma ValueOfCharOf(v: int)
    requires 0 <= v < 64
    ensures ValueOf(CharOf(v)) == v
  {
  }

  lemma CharOfValueOf(c: char)
    requires IsAlphabetChar(c)
    ensures CharOf(ValueOf(c)) == c
  {
  }

  /** A byte as a number. */
  function Byte(c: char): (b: int)
    requires c as int < 256
    ensures 0 <= b < 256
  {
    c as int
  }

  /** Three bytes b0 b1 b2 form 24 bits, read as four 6-bit values: the top
      six bits of b0; the low two of b0 and the top four of b1; the low four
      of b1 and the top two of b2; the low six of b2. */
  function Sextet0(b0: int): int requires 0 <= b0 < 256 { b0 / 4 }
  function Sextet1(b0: int, b1: int): int requires 0 <= b0 < 256 && 0 <= b1 < 256 { (b0 % 4) * 16 + b1 / 16 }
  function Sextet2(b1: int, b2: int): int requires 0 <= b1 < 256 && 0 <= b2 < 256 { (b1 % 16) * 4 + b2 / 64 }
  function Sextet3(b2: int): int requires 0 <= b2 < 256 { b2 % 64 }

  /** The bytes back from 6-bit values, as Go assembles them from the 24 bits. */
  function Byte0(s0: int, s1: int): int requires 0 <= s0 < 64 && 0 <= s1 < 64 { s0 * 4 + s1 / 16 }
  function Byte1(s1: int, s2: int): int requires 0 <= s1 < 64 && 0 <= s2 < 64 { (s1 % 16) * 16 + s2 / 4 }
  function Byte2(s2: int, s3: int): int requires 0 <= s2 < 64 && 0 <= s3 < 64 { (s2 % 4) * 64 + s3 }

  /** Encoding `s` in groups of three bytes; a last group of one or two
      bytes is padded with `=` to four characters. */
  function Encode(s: ByteString): (r: string)
    ensures |r| == (|s| + 2) / 3 * 4
    ensures forall i | 0 <= i < |r| :: IsAlphabetChar(r[i]) || r[i] == Pad
    decreases |s|
  {
    if |s| == 0 then ""
    else
      var b0 := Byte(s[0]);
      if |s| == 1 then
        [CharOf(Sextet0(b0)), CharOf(Sextet1(b0, 0)), Pad, Pad]
      else
        var b1 := Byte(s[1]);
        if |s| == 2 then
          [CharOf(Sextet0(b0)), CharOf(Sextet1(b0, b1)), CharOf(Sextet2(b1, 0)), Pad]
        else
          var rest := Encode(s[3..]);
          assert (|s| + 2) / 3 == (|s[3..]| + 2) / 3 + 1;
          Group(b0, b1, Byte(s[2])) + rest
  }

  /** The last group of four characters: no padding (three bytes), one `=`
      (two bytes) or two `=` (one byte); anything else is corrupt input. */
  function DecodeLast(c0: char, c1: char, c2: char, c3: char): Option<ByteString>
  {
    if !IsAlphabetChar(c0) || !IsAlphabetChar(c1) then None
    else
      var s0, s1 := ValueOf(c0), ValueOf(c1);
      if c2 == Pad && c3 == Pad then
        Some([Byte0(s0, s1) as char])
      else if IsAlphabetChar(c2) && c3 == Pad then
        var s2 := ValueOf(c2);
        Some([Byte0(s0, s1) as char, Byte1(s1, s2) as char])
      else if IsAlphabetChar(c2) && IsAlphabetChar(c3) then
        Some(GroupBytes(c0, c1, c2, c3))
      else None
  }

  /** base64.StdEncoding.DecodeString: None is Go's CorruptInputError. The
      input must be whole groups of four characters; padding may only end
      the last group. */
  function Decode(s: string): (r: Option<ByteString>)
    decreases |s|
  {
    if |s| == 0 then Some("")
    else if |s| < 4 then None
    else if |s| == 4 then DecodeLast(s[0], s[1], s[2], s[3])
    else if !(IsAlphabetChar(s[0]) && IsAlphabetChar(s[1]) && IsAlphabetChar(s[2]) && IsAlphabetChar(s[3])) then None
    else
      match Decode(s[4..])
      case None => None
      case Some(rest) => Some(GroupBytes(s[0], s[1], s[2], s[3]) + rest)
  }

  /** The 6-bit values of a group give its bytes back. */
  lemma GroupRoundTrip(b0: int, b1: int, b2: int)
    requires 0 <= b0 < 256 && 0 <= b1 < 256 && 0 <= b2 < 256
    ensures Byte0(Sextet0(b0), Sextet1(b0, b1)) == b0
    ensures Byte1(Sextet1(b0, b1), Sextet2(b1, b2)) == b1
    ensures Byte2(Sextet2(b1, b2), Sextet3(b2)) == b2
  {
  }

  /** The 6-bit values of a last group of two bytes give them back. */
  lemma PairRoundTrip(b0: int, b1: int)
    requires 0 <= b0 < 256 && 0 <= b1 < 256
    ensures Byte0(Sextet0(b0), Sextet1(b0, b1)) == b0
    ensures Byte1(Sextet1(b0, b1), Sextet2(b1, 0)) == b1
  {
  }

  /** The four characters Encode writes for three bytes. */
  function Group(b0: int, b1: int, b2: int): (g: string)
    requires 0 <= b0 < 256 && 0 <= b1 < 256 && 0 <= b2 < 256
    ensures |g| == 4 && forall i | 0 <= i < 4 :: IsAlphabetChar(g[i])
  {
    [CharOf(Sextet0(b0)), CharOf(Sextet1(b0, b1)), CharOf(Sextet2(b1, b2)), CharOf(Sextet3(b2))]
  }

  /** The bytes a group of four alphabet characters stands for. */
  function GroupBytes(c0: char, c1: char, c2: char, c3: char): ByteString
    requires IsAlphabetChar(c0) && IsAlphabetChar(c1) && IsAlphabetChar(c2) && IsAlphabetChar(c3)
  {
    var s0, s1, s2, s3 := ValueOf(c0), ValueOf(c1), ValueOf(c2), ValueOf(c3);
    [Byte0(s0, s1) as char, Byte1(s1, s2) as char, Byte2(s2, s3) as char]
  }

  lemma GroupBytesOfGroup(x0: char, x1: char, x2: char)
    requires x0 as int < 256 && x1 as int < 256 && x2 as int < 256
    ensures var g := Group(x0 as int, x1 as int, x2 as int);
      GroupBytes(g[0], g[1], g[2], g[3]) == [x0, x1, x2]
  {
    var b0, b1, b2 := x0 as int, x1 as int, x2 as int;
    ValueOfCharOf(Sextet0(b0));
    ValueOfCharOf(Sextet1(b0, b1));
    ValueOfCharOf(Sextet2(b1, b2));
    ValueOfCharOf(Sextet3(b2));
    GroupRoundTrip(b0, b1, b2);
  }

  lemma LastGroupOfOne(x0: char)
    requires x0 as int < 256
    ensures var b0 := x0 as int;
      DecodeLast(CharOf(Sextet0(b0)), CharOf(Sextet1(b0, 0)), Pad, Pad) == Some([x0])
  {
    var b0 := x0 as int;
    ValueOfCharOf(Sextet0(b0));
    ValueOfCharOf(Sextet1(b0, 0));
    GroupRoundTrip(b0, 0, 0);
  }

  /** The four characters Encode writes for a last group of two bytes. */
  lemma EncodeOfTwo(x0: char, x1: char)
    requires x0 as int < 256 && x1 as int < 256
    ensures var b0, b1 := x0 as int, x1 as int;
      Encode([x0, x1]) == [CharOf(Sextet0(b0)), CharOf(Sextet1(b0, b1)), CharOf(Sextet2(b1, 0)), Pad]
  {
  }

  /** Three alphabet characters and one `=` decode to two bytes. */
  lemma DecodeOfPadded(c0: char, c1: char, c2: char)
    requires IsAlphabetChar(c0) && IsAlphabetChar(c1) && IsAlphabetChar(c2)
    ensures Decode([c0, c1, c2, Pad]) ==
      Some([Byte0(ValueOf(c0), ValueOf(c1)) as char, Byte1(ValueOf(c1), ValueOf(c2)) as char])
  {
  }

  /** The characters written for two bytes give the bytes back. */
  lemma PairCharsRoundTrip(b0: int, b1: int)
    requires 0 <= b0 < 256 && 0 <= b1 < 256
    ensures Byte0(ValueOf(CharOf(Sextet0(b0))), ValueOf(CharOf(Sextet1(b0, b1)))) == b0
    ensures Byte1(ValueOf(CharOf(Sextet1(b0, b1))), ValueOf(CharOf(Sextet2(b1, 0)))) == b1
  {
    ValueOfCharOf(Sextet0(b0));
    ValueOfCharOf(Sextet1(b0, b1));
    ValueOfCharOf(Sextet2(b1, 0));
    PairRoundTrip(b0, b1);
  }

  lemma LastGroupOfTwo(x0: char, x1: char)
    requires x0 as int < 256 && x1 as int < 256
    ensures Decode(Encode([x0, x1])) == Some([x0, x1])
  {
    var b0, b1 := x0 as int, x1 as int;
    EncodeOfTwo(x0, x1);
    DecodeOfPadded(CharOf(Sextet0(b0)), CharOf(Sextet1(b0, b1)), CharOf(Sextet2(b1, 0)));
    PairCharsRoundTrip(b0, b1);
  }

  /** A leading group of four alphabet characters decodes on its own. */
  lemma DecodeCons(g: string, rest: string)
    requires |g| == 4 && forall i | 0 <= i < 4 :: IsAlphabetChar(g[i])
    ensures |rest| == 0 ==> Decode(g + rest) == Some(GroupBytes(g[0], g[1], g[2], g[3]))
    ensures |rest| > 0 ==>
      Decode(g + rest) ==
        match Decode(rest)
        case None => None
        case Some(r) => Some(GroupBytes(g[0], g[1], g[2], g[3]) + r)
  {
    var e := g + rest;
    assert e[0] == g[0] && e[1] == g[1] && e[2] == g[2] && e[3] == g[3];
    assert e[4..] == rest;
  }

  lemma DecodeEncodeOne(s: ByteString)
    requires |s| == 1
    ensures Decode(Encode(s)) == Some(s)
  {
    LastGroupOfOne(s[0]);
    assert s == [s[0]];
  }

  lemma DecodeEncodeTwo(s: ByteString)
    requires |s| == 2
    ensures Decode(Encode(s)) == Some(s)
  {
    var x0, x1 := s[0], s[1];
    assert s == [x0, x1];
    LastGroupOfTwo(x0, x1);
  }

  lemma DecodeEncodeThree(s: ByteString)
    requires |s| == 3
    ensures Decode(Encode(s)) == Some(s)
  {
    assert s == [s[0], s[1], s[2]];
    var g := Group(s[0] as int, s[1] as int, s[2] as int);
    assert s[3..] == [];
    assert Encode(s) == g;
    GroupBytesOfGroup(s[0], s[1], s[2]);
    DecodeLastOfFullGroup(g[0], g[1], g[2], g[3]);
    assert Decode(g) == DecodeLast(g[0], g[1], g[2], g[3]);
  }

  lemma DecodeLastOfFullGroup(c0: char, c1: char, c2: char, c3: char)
    requires IsAlphabetChar(c0) && IsAlphabetChar(c1) && IsAlphabetChar(c2) && IsAlphabetChar(c3)
    ensures DecodeLast(c0, c1, c2, c3) == Some(GroupBytes(c0, c1, c2, c3))
  {
  }

  /** Decoding what Encode produced gives the bytes back. */
  lemma {:induction false} DecodeEncode(s: ByteString)
    ensures Decode(Encode(s)) == Some(s)
    decreases |s|
  {
    if |s| == 1 {
      DecodeEncodeOne(s);
    } else if |s| == 2 {
      DecodeEncodeTwo(s);
    } else if |s| == 3 {
      DecodeEncodeThree(s);
    } else if |s| > 3 {
      DecodeEncode(s[3..]);
      DecodeEncodeStep(s);
    }
  }

  /** One step of the induction: the first group, then the rest. */
  lemma DecodeEncodeStep(s: ByteString)
    requires |s| > 3
    requires Decode(Encode(s[3..])) == Some(s[3..])
    ensures Decode(Encode(s)) == Some(s)
  {
    SplitHead(s);
    EncodeHead(s);
    DecodeHeadGroup(s);
  }

  lemma SplitHead(s: string)
    requires |s| >= 3
    ensures s[..3] + s[3..] == s
  {
  }

  /** The group Encode writes for the first three bytes, in front of a rest
      that decodes, decodes to those bytes in front of the rest's. */
  lemma DecodeHeadGroup(s: ByteString)
    requires |s| > 3
    requires |Encode(s[3..])| > 0 && Decode(Encode(s[3..])) == Some(s[3..])
    ensures Decode(Group(s[0] as int, s[1] as int, s[2] as int) + Encode(s[3..])) == Some(s[..3] + s[3..])
  {
    GroupBytesOfHead(s);
    DecodeGroupThen(Group(s[0] as int, s[1] as int, s[2] as int), Encode(s[3..]), s[..3], s[3..]);
  }

  /** A full group in front of a decodable rest decodes to its bytes in
      front of the rest's bytes. */
  lemma DecodeGroupThen(g: string, rest: string, h: string, t: string)
    requires |g| == 4 && forall i | 0 <= i < 4 :: IsAlphabetChar(g[i])
    requires GroupBytes(g[0], g[1], g[2], g[3]) == h
    requires |rest| > 0 && Decode(rest) == Some(t)
    ensures Decode(g + rest) == Some(h + t)
  {
    DecodeCons(g, rest);
  }

  lemma EncodeHead(s: ByteString)
    requires |s| > 3
    ensures Encode(s) == Group(s[0] as int, s[1] as int, s[2] as int) + Encode(s[3..])
    ensures |Encode(s[3..])| > 0
  {
  }

  lemma GroupBytesOfHead(s: ByteString)
    requires |s| >= 3
    ensures var g := Group(s[0] as int, s[1] as int, s[2] as int);
      GroupBytes(g[0], g[1], g[2], g[3]) == s[..3]
  {
    GroupBytesOfGroup(s[0], s[1], s[2]);
    FirstThree(s);
  }

  lemma FirstThree(s: string)
    requires |s| >= 3
    ensures s[..3] == [s[0], s[1], s[2]]
  {
  }

  /** What Encode produces is never empty for non-empty input, and holds no
      quote characters at all. */
  lemma EncodeHasNoQuotes(s: ByteString)
    ensures |s| > 0 ==> |Encode(s)| > 0
    ensures forall i | 0 <= i < |Encode(s)| :: Encode(s)[i] != '"' && Encode(s)[i] != '\''
  {
  }

  /** Input that is not whole groups of four characters is rejected. */
  lemma {:induction false} DecodeRejectsLength(s: string)
    requires |s| % 4 != 0
    ensures Decode(s) == None
    decreases |s|
  {
    if |s| > 4 {
      DecodeRejectsLength(s[4..]);
    }
  }
}
