/** Base 64 encoding with the standard alphabet and `=` padding, as defined in
    section 4 of RFC 4648. It is the behaviour of PHP's `base64_encode`; the
    decoder is the strict RFC decoder. */
module Base64 {
  import opened Wrappers

  type byte = b: int | 0 <= b < 256

  /** A 6-bit group: one character of the encoding. */
  type sextet = i: int | 0 <= i < 64

  const Pad: char := '='

  /** The alphabet of Table 1 of RFC 4648: A-Z, a-z, 0-9, '+', '/'. */
  function CharOf(i: sextet): (c: char)
    ensures IsAlphabetChar(c) && c != Pad
  {
    if i < 26 then ('A' as int + i) as char
    else if i < 52 then ('a' as int + (i - 26)) as char
    else if i < 62 then ('0' as int + (i - 52)) as char
    else if i == 62 then '+'
    else '/'
  }

  predicate IsAlphabetChar(c: char) {
    'A' <= c <= 'Z' || 'a' <= c <= 'z' || '0' <= c <= '9' || c == '+' || c == '/'
  }

  /** The value of an alphabet character; inverse of `CharOf`. */
  function IndexOf(c: char): (i: sextet)
    requires IsAlphabetChar(c)
    ensures CharOf(i) == c
  {
    if 'A' <= c <= 'Z' then c as int - 'A' as int
    else if 'a' <= c <= 'z' then c as int - 'a' as int + 26
    else if '0' <= c <= '9' then c as int - '0' as int + 52
    else if c == '+' then 62
    else 63
  }

  /** Every sextet is written as an alphabet character that reads back as
      the same sextet. */
  lemma CharOfIndexOf(i: sextet)
    ensures IsAlphabetChar(CharOf(i)) && IndexOf(CharOf(i)) == i
  {
  }

  /** Three bytes as four characters. */
  function EncodeGroup(b0: byte, b1: byte, b2: byte): string
  {
    [CharOf(b0 / 4), CharOf(b0 % 4 * 16 + b1 / 16), CharOf(b1 % 16 * 4 + b2 / 64), CharOf(b2 % 64)]
  }

  /** A final group of two bytes: three characters and one pad. */
  function EncodeTwo(b0: byte, b1: byte): string
  {
    [CharOf(b0 / 4), CharOf(b0 % 4 * 16 + b1 / 16), CharOf(b1 % 16 * 4), Pad]
  }

  /** A final group of one byte: two characters and two pads. */
  function EncodeOne(b0: byte): string
  {
    [CharOf(b0 / 4), CharOf(b0 % 4 * 16), Pad, Pad]
  }

  /** PHP `base64_encode`. */
  function Encode(b: seq<byte>): (r: string)
    ensures |r| == (|b| + 2) / 3 * 4
    ensures forall i :: 0 <= i < |r| ==> IsAlphabetChar(r[i]) || r[i] == Pad
  {
    if |b| == 0 then []
    else if |b| == 1 then EncodeOne(b[0])
    else if |b| == 2 then EncodeTwo(b[0], b[1])
    else
      assert (|b| + 2) / 3 == (|b[3..]| + 2) / 3 + 1;
      EncodeGroup(b[0], b[1], b[2]) + Encode(b[3..])
  }

  /** Four alphabet characters (no padding) as three bytes. */
  function DecodeGroup(q: string): (r: Option<seq<byte>>)
    requires |q| == 4
  {
    if IsAlphabetChar(q[0]) && IsAlphabetChar(q[1]) && IsAlphabetChar(q[2]) && IsAlphabetChar(q[3]) then
      Some(JoinSextets(IndexOf(q[0]), IndexOf(q[1]), IndexOf(q[2]), IndexOf(q[3])))
    else None
  }

  /** Four sextets as the three bytes they spell. */
  function JoinSextets(s0: sextet, s1: sextet, s2: sextet, s3: sextet): seq<byte> {
    [s0 * 4 + s1 / 16, s1 % 16 * 16 + s2 / 4, s2 % 4 * 64 + s3]
  }

  /** The last four characters, which may end in one or two pads. */
  function DecodeFinal(q: string): (r: Option<seq<byte>>)
    requires |q| == 4
  {
    if q[2] == Pad && q[3] == Pad then
      if IsAlphabetChar(q[0]) && IsAlphabetChar(q[1]) then
        Some([IndexOf(q[0]) * 4 + IndexOf(q[1]) / 16])
      else None
    else if q[3] == Pad then
      if IsAlphabetChar(q[0]) && IsAlphabetChar(q[1]) && IsAlphabetChar(q[2]) then
        var s0, s1, s2 := IndexOf(q[0]), IndexOf(q[1]), IndexOf(q[2]);
        Some([s0 * 4 + s1 / 16, s1 % 16 * 16 + s2 / 4])
      else None
    else DecodeGroup(q)
  }

  /** Strict decoding: a whole number of four-character groups, padding only
      in the last one. `None` for anything else. */
  function Decode(s: string): (r: Option<seq<byte>>)
    ensures r.Some? ==> |s| % 4 == 0
    decreases |s|
  {
    if |s| == 0 then Some([])
    else if |s| < 4 then None
    else if |s| == 4 then DecodeFinal(s)
    else
      match DecodeGroup(s[..4])
      case None => None
      case Some(head) =>
        match Decode(s[4..])
        case None => None
        case Some(tail) => Some(head + tail)
  }

  lemma GroupRoundTrip(b0: byte, b1: byte, b2: byte)
    ensures DecodeGroup(EncodeGroup(b0, b1, b2)) == Some([b0, b1, b2])
    ensures DecodeFinal(EncodeGroup(b0, b1, b2)) == Some([b0, b1, b2])
  {
    var s0, s1, s2, s3 := b0 / 4, b0 % 4 * 16 + b1 / 16, b1 % 16 * 4 + b2 / 64, b2 % 64;
    assert EncodeGroup(b0, b1, b2) == [CharOf(s0), CharOf(s1), CharOf(s2), CharOf(s3)];
    DecodeSextets(s0, s1, s2, s3);
    SplitJoin(b0, b1, b2, s0, s1, s2, s3);
  }

  /** Four alphabet characters decode to the bytes their sextets spell. */
  lemma DecodeSextets(s0: sextet, s1: sextet, s2: sextet, s3: sextet)
    ensures DecodeGroup([CharOf(s0), CharOf(s1), CharOf(s2), CharOf(s3)]) == Some(JoinSextets(s0, s1, s2, s3))
    ensures DecodeFinal([CharOf(s0), CharOf(s1), CharOf(s2), CharOf(s3)])
            == DecodeGroup([CharOf(s0), CharOf(s1), CharOf(s2), CharOf(s3)])
  {
    CharOfIndexOf(s0);
    CharOfIndexOf(s1);
    CharOfIndexOf(s2);
    CharOfIndexOf(s3);
  }

  /** Joining the sextets `EncodeGroup` cut three bytes into gives the bytes. */
  lemma SplitJoin(b0: byte, b1: byte, b2: byte, s0: sextet, s1: sextet, s2: sextet, s3: sextet)
    requires s0 == b0 / 4 && s1 == b0 % 4 * 16 + b1 / 16
    requires s2 == b1 % 16 * 4 + b2 / 64 && s3 == b2 % 64
    ensures JoinSextets(s0, s1, s2, s3) == [b0, b1, b2]
  {
    RecombineFirst(b0, b1, s0, s1);
    RecombineSecond(b0, b1, b2, s1, s2);
    RecombineThird(b1, b2, s2, s3);
  }

  lemma RecombineFirst(b0: byte, b1: byte, s0: int, s1: int)
    requires s0 == b0 / 4 && s1 == b0 % 4 * 16 + b1 / 16
    ensures s0 * 4 + s1 / 16 == b0
  {
    assert s1 / 16 == b0 % 4;
  }

  lemma RecombineSecond(b0: byte, b1: byte, b2: byte, s1: int, s2: int)
    requires s1 == b0 % 4 * 16 + b1 / 16 && s2 == b1 % 16 * 4 + b2 / 64
    ensures s1 % 16 * 16 + s2 / 4 == b1
  {
    assert s1 % 16 == b1 / 16;
    assert s2 / 4 == b1 % 16;
  }

  lemma RecombineThird(b1: byte, b2: byte, s2: int, s3: int)
    requires s2 == b1 % 16 * 4 + b2 / 64 && s3 == b2 % 64
    ensures s2 % 4 * 64 + s3 == b2
  {
    assert s2 % 4 == b2 / 64;
  }

  lemma OneRoundTrip(b0: byte)
    ensures DecodeFinal(EncodeOne(b0)) == Some([b0])
  {
    CharOfIndexOf(b0 / 4);
    CharOfIndexOf(b0 % 4 * 16);
  }

  lemma TwoRoundTrip(b0: byte, b1: byte)
    ensures DecodeFinal(EncodeTwo(b0, b1)) == Some([b0, b1])
  {
    var s1 := b0 % 4 * 16 + b1 / 16;
    CharOfIndexOf(b0 / 4);
    CharOfIndexOf(s1);
    CharOfIndexOf(b1 % 16 * 4);
    assert s1 / 16 == b0 % 4 && s1 % 16 == b1 / 16;
  }

  /** Decoding inverts encoding (RFC 4648, section 4). */
  lemma {:induction false} DecodeEncode(b: seq<byte>)
    ensures Decode(Encode(b)) == Some(b)
    decreases |b|
  {
    if |b| == 1 {
      OneCase(b);
    } else if |b| == 2 {
      TwoCase(b);
    } else if |b| == 3 {
      ThreeCase(b);
    } else if |b| > 3 {
      DecodeEncode(b[3..]);
      GroupStep(b);
    }
  }

  lemma OneCase(b: seq<byte>)
    requires |b| == 1
    ensures Decode(Encode(b)) == Some(b)
  {
    OneRoundTrip(b[0]);
    assert b == [b[0]];
  }

  lemma TwoCase(b: seq<byte>)
    requires |b| == 2
    ensures Decode(Encode(b)) == Some(b)
  {
    TwoRoundTrip(b[0], b[1]);
    assert b == [b[0], b[1]];
  }

  lemma ThreeCase(b: seq<byte>)
    requires |b| == 3
    ensures Decode(Encode(b)) == Some(b)
  {
    var g := EncodeGroup(b[0], b[1], b[2]);
    EncodeThree(b);
    GroupRoundTrip(b[0], b[1], b[2]);
    assert Decode(g) == DecodeFinal(g);
    SeqOfThree(b);
  }

  lemma SeqOfThree(b: seq<byte>)
    requires |b| == 3
    ensures [b[0], b[1], b[2]] == b
  {
  }

  lemma EncodeThree(b: seq<byte>)
    requires |b| == 3
    ensures Encode(b) == EncodeGroup(b[0], b[1], b[2])
  {
    assert Encode(b[3..]) == [];
    assert EncodeGroup(b[0], b[1], b[2]) + [] == EncodeGroup(b[0], b[1], b[2]);
  }

  lemma GroupStep(b: seq<byte>)
    requires |b| > 3
    requires Decode(Encode(b[3..])) == Some(b[3..])
    ensures Decode(Encode(b)) == Some(b)
  {
    var g := EncodeGroup(b[0], b[1], b[2]);
    GroupRoundTrip(b[0], b[1], b[2]);
    DecodeConcat(g, Encode(b[3..]), [b[0], b[1], b[2]], b[3..]);
    SplitThree(b);
  }

  lemma SplitThree(b: seq<byte>)
    requires |b| >= 3
    ensures [b[0], b[1], b[2]] + b[3..] == b
  {
  }

  /** A leading full group decodes independently of the rest. */
  lemma DecodeConcat(g: string, rest: string, head: seq<byte>, tail: seq<byte>)
    requires |g| == 4 && |rest| > 0
    requires DecodeGroup(g) == Some(head)
    requires Decode(rest) == Some(tail)
    ensures Decode(g + rest) == Some(head + tail)
  {
    var s := g + rest;
    assert s[..4] == g;
    assert s[4..] == rest;
  }

  /** The test vectors of section 10 of RFC 4648 for "f", "fo" and "foobar":
      the alphabet and the bit order are those of the standard. */
  lemma RfcVectors()
    ensures Encode([102]) == "Zg=="
    ensures Encode([102, 111]) == "Zm8="
    ensures Encode([102, 111, 111, 98, 97, 114]) == "Zm9vYmFy"
  {
    assert EncodeOne(102) == "Zg==" by { assert CharOf(25) == 'Z' && CharOf(32) == 'g'; }
    assert EncodeTwo(102, 111) == "Zm8=" by { assert CharOf(25) == 'Z' && CharOf(38) == 'm' && CharOf(60) == '8'; }
    FoobarVector();
  }

  lemma FoobarVector()
    ensures Encode([102, 111, 111, 98, 97, 114]) == "Zm9vYmFy"
  {
    var b: seq<byte> := [102, 111, 111, 98, 97, 114];
    var tail: seq<byte> := [98, 97, 114];
    assert b[3..] == tail;
    EncodeThree(tail);
    FooGroup();
    BarGroup();
    assert Encode(b) == EncodeGroup(102, 111, 111) + EncodeGroup(98, 97, 114);
  }

  lemma FooGroup()
    ensures EncodeGroup(102, 111, 111) == "Zm9v"
  {
    GroupSextets(102, 111, 111, 25, 38, 61, 47);
    CharsOf(25, 'Z', 38, 'm', 61, '9', 47, 'v');
  }

  lemma BarGroup()
    ensures EncodeGroup(98, 97, 114) == "YmFy"
  {
    GroupSextets(98, 97, 114, 24, 38, 5, 50);
    CharsOf(24, 'Y', 38, 'm', 5, 'F', 50, 'y');
  }

  /** The four sextets a group of three bytes is cut into. */
  lemma GroupSextets(b0: byte, b1: byte, b2: byte, s0: sextet, s1: sextet, s2: sextet, s3: sextet)
    requires s0 == b0 / 4 && s1 == b0 % 4 * 16 + b1 / 16
    requires s2 == b1 % 16 * 4 + b2 / 64 && s3 == b2 % 64
    ensures EncodeGroup(b0, b1, b2) == [CharOf(s0), CharOf(s1), CharOf(s2), CharOf(s3)]
  {
  }

  /** Four sextets whose characters are read off the alphabet table. */
  lemma CharsOf(i0: sextet, c0: char, i1: sextet, c1: char, i2: sextet, c2: char, i3: sextet, c3: char)
    requires IsAlphabetChar(c0) && IndexOf(c0) == i0 && IsAlphabetChar(c1) && IndexOf(c1) == i1
    requires IsAlphabetChar(c2) && IndexOf(c2) == i2 && IsAlphabetChar(c3) && IndexOf(c3) == i3
    ensures [CharOf(i0), CharOf(i1), CharOf(i2), CharOf(i3)] == [c0, c1, c2, c3]
  {
  }
}
