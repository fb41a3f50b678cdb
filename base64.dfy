/**
 * `base64.urlsafe_b64decode(s)` for a `str` argument, the decoder of the
 * URL- and filename-safe alphabet of section 5 of RFC 4648.  Python first
 * insists that the string is ASCII, then replaces '-' by '+' and '_' by '/',
 * then hands the result to `binascii.a2b_base64` in its non-strict mode:
 * characters outside the alphabet are skipped, a pad character only counts
 * once two data characters of the current quantum have been seen, and the
 * input must not end inside a quantum.
 */
module Base64 {
  import opened Wrappers
  import opened Bytes

  /** The errors `urlsafe_b64decode` raises. */
  datatype DecodeError =
    | NonAscii          // ValueError: the string holds a non-ASCII character
    | ExcessDataChar    // binascii.Error: one data character more than a multiple of 4
    | IncorrectPadding  // binascii.Error: the input ends inside a quantum

  /** The translation applied before decoding: '-' to '+' and '_' to '/'. */
  function FromUrlSafe(c: char): char {
    if c == '-' then '+' else if c == '_' then '/' else c
  }

  function FromUrlSafeString(s: string): string {
    seq(|s|, i requires 0 <= i < |s| => FromUrlSafe(s[i]))
  }

  predicate IsAscii(s: string) {
    forall i :: 0 <= i < |s| ==> s[i] as int < 128
  }

  /** The six-bit value of a character of the standard alphabet, if it is one. */
  function SextetValue(c: char): (v: Option<int>)
    ensures v.Some? ==> 0 <= v.value < 64
  {
    if 'A' <= c <= 'Z' then Some(c as int - 'A' as int)
    else if 'a' <= c <= 'z' then Some(c as int - 'a' as int + 26)
    else if '0' <= c <= '9' then Some(c as int - '0' as int + 52)
    else if c == '+' then Some(62)
    else if c == '/' then Some(63)
    else None
  }

  /**
   * The decoder's state: the position inside the current quantum, the bits
   * left over from the previous character, the pad characters counted so
   * far, and the bytes produced.
   */
  datatype Decoder = Decoder(quad: nat, left: int, pads: nat, out: seq<Byte>)

  ghost predicate Valid(d: Decoder) {
    && d.quad < 4
    && 0 <= d.left
    && (d.quad == 0 ==> d.left == 0)
    && (d.quad == 1 ==> d.left < 64)
    && (d.quad == 2 ==> d.left < 16)
    && (d.quad == 3 ==> d.left < 4)
  }

  function Start(): (d: Decoder)
    ensures Valid(d)
  {
    Decoder(0, 0, 0, [])
  }

  /** One data character of value `v`: every character after the first of a quantum completes a byte. */
  function Feed(d: Decoder, v: int): (d': Decoder)
    requires Valid(d) && 0 <= v < 64
    ensures Valid(d') && d'.pads == 0
    ensures d'.quad == (d.quad + 1) % 4
    ensures |d'.out| == if d.quad == 0 then |d.out| else |d.out| + 1
  {
    if d.quad == 0 then Decoder(1, v, 0, d.out)
    else if d.quad == 1 then Decoder(2, v % 16, 0, d.out + [d.left * 4 + v / 16])
    else if d.quad == 2 then Decoder(3, v % 4, 0, d.out + [d.left * 16 + v / 4])
    else Decoder(0, 0, 0, d.out + [d.left * 64 + v])
  }

  /** The end of the input: only a completed quantum is accepted. */
  function Finish(d: Decoder): (r: Result<seq<Byte>, DecodeError>)
    ensures r.Success? <==> d.quad == 0
  {
    if d.quad == 0 then Success(d.out)
    else if d.quad == 1 then Failure(ExcessDataChar)
    else Failure(IncorrectPadding)
  }

  /** The non-strict loop of `binascii.a2b_base64`, one character at a time. */
  function Scan(s: string, d: Decoder): Result<seq<Byte>, DecodeError>
    requires Valid(d)
    decreases |s|
  {
    if s == [] then Finish(d)
    else if s[0] == '=' then
      if d.quad >= 2 && d.quad + d.pads + 1 >= 4 then Success(d.out)
      else Scan(s[1..], if d.quad >= 2 then d.(pads := d.pads + 1) else d)
    else match SextetValue(s[0])
      case None => Scan(s[1..], d)
      case Some(v) => Scan(s[1..], Feed(d, v))
  }

  /** `base64.urlsafe_b64decode(s)`. */
  function UrlSafeB64Decode(s: string): Result<seq<Byte>, DecodeError> {
    if !IsAscii(s) then Failure(NonAscii)
    else Scan(FromUrlSafeString(s), Start())
  }

  // ---------------------------------------------------------------------
  // The encoder of section 5 of RFC 4648, `base64.urlsafe_b64encode`

  /** The character of the URL-safe alphabet for a six-bit value. */
  function UrlSafeChar(v: int): char
    requires 0 <= v < 64
  {
    if v < 26 then ('A' as int + v) as char
    else if v < 52 then ('a' as int + v - 26) as char
    else if v < 62 then ('0' as int + v - 52) as char
    else if v == 62 then '-'
    else '_'
  }

  function UrlSafeB64Encode(b: seq<Byte>): (s: string)
    decreases |b|
  {
    if |b| >= 3 then
      [UrlSafeChar(b[0] / 4), UrlSafeChar(b[0] % 4 * 16 + b[1] / 16),
       UrlSafeChar(b[1] % 16 * 4 + b[2] / 64), UrlSafeChar(b[2] % 64)]
      + UrlSafeB64Encode(b[3..])
    else if |b| == 2 then
      [UrlSafeChar(b[0] / 4), UrlSafeChar(b[0] % 4 * 16 + b[1] / 16), UrlSafeChar(b[1] % 16 * 4), '=']
    else if |b| == 1 then
      [UrlSafeChar(b[0] / 4), UrlSafeChar(b[0] % 4 * 16), '=', '=']
    else []
  }

  // ---------------------------------------------------------------------
  // Lemmas

  /** A URL-safe character, once translated, is read back as the value it stands for. */
  lemma UrlSafeCharValue(v: int)
    requires 0 <= v < 64
    ensures UrlSafeChar(v) as int < 128
    ensures SextetValue(FromUrlSafe(UrlSafeChar(v))) == Some(v)
  {
  }

  lemma FromUrlSafeConcat(a: string, b: string)
    ensures FromUrlSafeString(a + b) == FromUrlSafeString(a) + FromUrlSafeString(b)
  {
  }

  lemma ScanData(c: char, rest: string, d: Decoder, v: int)
    requires Valid(d) && c != '=' && SextetValue(c) == Some(v)
    ensures Scan([c] + rest, d) == Scan(rest, Feed(d, v))
  {
    assert ([c] + rest)[1..] == rest;
  }

  lemma ScanPad(rest: string, d: Decoder)
    requires Valid(d)
    ensures Scan(['='] + rest, d) ==
      if d.quad >= 2 && d.quad + d.pads + 1 >= 4 then Success(d.out)
      else Scan(rest, if d.quad >= 2 then d.(pads := d.pads + 1) else d)
  {
    assert (['='] + rest)[1..] == rest;
  }

  /** Every character the encoder writes is ASCII. */
  lemma {:induction false} EncodeIsAscii(b: seq<Byte>)
    ensures IsAscii(UrlSafeB64Encode(b))
    decreases |b|
  {
    if |b| >= 3 {
      EncodeIsAscii(b[3..]);
      UrlSafeCharValue(b[0] / 4);
      UrlSafeCharValue(b[0] % 4 * 16 + b[1] / 16);
      UrlSafeCharValue(b[1] % 16 * 4 + b[2] / 64);
      UrlSafeCharValue(b[2] % 64);
    } else if |b| == 2 {
      UrlSafeCharValue(b[0] / 4);
      UrlSafeCharValue(b[0] % 4 * 16 + b[1] / 16);
      UrlSafeCharValue(b[1] % 16 * 4);
    } else if |b| == 1 {
      UrlSafeCharValue(b[0] / 4);
      UrlSafeCharValue(b[0] % 4 * 16);
    }
  }

  /** The six-bit values of three bytes, as the encoder splits them, rebuild the bytes. */
  lemma QuantumArithmetic(b0: Byte, b1: Byte, b2: Byte)
    ensures b0 / 4 * 4 + (b0 % 4 * 16 + b1 / 16) / 16 == b0
    ensures (b0 % 4 * 16 + b1 / 16) % 16 * 16 + (b1 % 16 * 4 + b2 / 64) / 4 == b1
    ensures (b1 % 16 * 4 + b2 / 64) % 4 * 64 + b2 % 64 == b2
  {
  }

  /** Four data values fed from a byte boundary produce three bytes and end on a boundary again. */
  lemma FeedFour(out: seq<Byte>, v0: int, v1: int, v2: int, v3: int)
    requires 0 <= v0 < 64 && 0 <= v1 < 64 && 0 <= v2 < 64 && 0 <= v3 < 64
    ensures Feed(Feed(Feed(Feed(Decoder(0, 0, 0, out), v0), v1), v2), v3)
         == Decoder(0, 0, 0, out + [v0 * 4 + v1 / 16, v1 % 16 * 16 + v2 / 4, v2 % 4 * 64 + v3])
  {
    var d1 := Feed(Decoder(0, 0, 0, out), v0);
    var d2 := Feed(d1, v1);
    var d3 := Feed(d2, v2);
    assert d3.out == out + [v0 * 4 + v1 / 16] + [v1 % 16 * 16 + v2 / 4];
  }

  /** The characters the encoder writes for six-bit values are data characters of those values. */
  lemma EncodedChars(vs: seq<int>)
    requires forall i :: 0 <= i < |vs| ==> 0 <= vs[i] < 64
    ensures forall i :: 0 <= i < |vs| ==>
      var c := FromUrlSafe(UrlSafeChar(vs[i])); c != '=' && SextetValue(c) == Some(vs[i])
  {
    forall i | 0 <= i < |vs| ensures var c := FromUrlSafe(UrlSafeChar(vs[i])); c != '=' && SextetValue(c) == Some(vs[i]) {
      UrlSafeCharValue(vs[i]);
    }
  }

  /** Four data characters from a byte boundary produce the three bytes their values spell. */
  lemma ScanFourValues(v0: int, v1: int, v2: int, v3: int, rest: string, out: seq<Byte>)
    requires 0 <= v0 < 64 && 0 <= v1 < 64 && 0 <= v2 < 64 && 0 <= v3 < 64
    ensures Scan(FromUrlSafeString([UrlSafeChar(v0), UrlSafeChar(v1), UrlSafeChar(v2), UrlSafeChar(v3)]) + rest,
                 Decoder(0, 0, 0, out))
         == Scan(rest, Decoder(0, 0, 0, out + [v0 * 4 + v1 / 16, v1 % 16 * 16 + v2 / 4, v2 % 4 * 64 + v3]))
  {
    var vs := [v0, v1, v2, v3];
    EncodedChars(vs);
    var cs := seq(4, i requires 0 <= i < 4 => FromUrlSafe(UrlSafeChar(vs[i])));
    assert FromUrlSafeString([UrlSafeChar(v0), UrlSafeChar(v1), UrlSafeChar(v2), UrlSafeChar(v3)]) + rest
        == [cs[0]] + ([cs[1]] + ([cs[2]] + ([cs[3]] + rest)));
    var d0 := Decoder(0, 0, 0, out);
    ScanData(cs[0], [cs[1]] + ([cs[2]] + ([cs[3]] + rest)), d0, v0);
    var d1 := Feed(d0, v0);
    ScanData(cs[1], [cs[2]] + ([cs[3]] + rest), d1, v1);
    var d2 := Feed(d1, v1);
    ScanData(cs[2], [cs[3]] + rest, d2, v2);
    var d3 := Feed(d2, v2);
    ScanData(cs[3], rest, d3, v3);
    FeedFour(out, v0, v1, v2, v3);
  }

  /** Four characters of a quantum that starts on a byte boundary give back the three bytes. */
  lemma ScanQuantum(b0: Byte, b1: Byte, b2: Byte, rest: string, out: seq<Byte>)
    ensures Scan(FromUrlSafeString([UrlSafeChar(b0 / 4), UrlSafeChar(b0 % 4 * 16 + b1 / 16),
                                    UrlSafeChar(b1 % 16 * 4 + b2 / 64), UrlSafeChar(b2 % 64)]) + rest,
                 Decoder(0, 0, 0, out))
         == Scan(rest, Decoder(0, 0, 0, out + [b0, b1, b2]))
  {
    ScanFourValues(b0 / 4, b0 % 4 * 16 + b1 / 16, b1 % 16 * 4 + b2 / 64, b2 % 64, rest, out);
    QuantumArithmetic(b0, b1, b2);
  }

  /** Three data characters and a pad from a byte boundary produce two bytes and end the input. */
  lemma ScanThreeValues(v0: int, v1: int, v2: int, out: seq<Byte>)
    requires 0 <= v0 < 64 && 0 <= v1 < 64 && 0 <= v2 < 64
    ensures Scan(FromUrlSafeString([UrlSafeChar(v0), UrlSafeChar(v1), UrlSafeChar(v2), '=']), Decoder(0, 0, 0, out))
         == Success(out + [v0 * 4 + v1 / 16, v1 % 16 * 16 + v2 / 4])
  {
    var vs := [v0, v1, v2];
    EncodedChars(vs);
    var cs := seq(3, i requires 0 <= i < 3 => FromUrlSafe(UrlSafeChar(vs[i])));
    assert FromUrlSafeString([UrlSafeChar(v0), UrlSafeChar(v1), UrlSafeChar(v2), '='])
        == [cs[0]] + ([cs[1]] + ([cs[2]] + ['=']));
    var d0 := Decoder(0, 0, 0, out);
    ScanData(cs[0], [cs[1]] + ([cs[2]] + ['=']), d0, v0);
    var d1 := Feed(d0, v0);
    ScanData(cs[1], [cs[2]] + ['='], d1, v1);
    var d2 := Feed(d1, v1);
    ScanData(cs[2], ['='], d2, v2);
    var d3 := Feed(d2, v2);
    assert d1 == Decoder(1, v0, 0, out);
    assert d2 == Decoder(2, v1 % 16, 0, out + [v0 * 4 + v1 / 16]);
    assert d3 == Decoder(3, v2 % 4, 0, out + [v0 * 4 + v1 / 16] + [v1 % 16 * 16 + v2 / 4]);
    assert out + [v0 * 4 + v1 / 16] + [v1 % 16 * 16 + v2 / 4] == out + [v0 * 4 + v1 / 16, v1 % 16 * 16 + v2 / 4];
    ScanPad([], d3);
    assert ['='] + [] == ['='];
  }

  /** The final quantum of a two-byte tail: three data characters and one pad. */
  lemma ScanTailOfTwo(b0: Byte, b1: Byte, out: seq<Byte>)
    ensures Scan(FromUrlSafeString(UrlSafeB64Encode([b0, b1])), Decoder(0, 0, 0, out)) == Success(out + [b0, b1])
  {
    assert UrlSafeB64Encode([b0, b1])
        == [UrlSafeChar(b0 / 4), UrlSafeChar(b0 % 4 * 16 + b1 / 16), UrlSafeChar(b1 % 16 * 4), '='];
    ScanThreeValues(b0 / 4, b0 % 4 * 16 + b1 / 16, b1 % 16 * 4, out);
    QuantumArithmetic(b0, b1, 0);
  }

  /** Two data characters and two pads from a byte boundary produce one byte and end the input. */
  lemma ScanTwoValues(v0: int, v1: int, out: seq<Byte>)
    requires 0 <= v0 < 64 && 0 <= v1 < 64
    ensures Scan(FromUrlSafeString([UrlSafeChar(v0), UrlSafeChar(v1), '=', '=']), Decoder(0, 0, 0, out))
         == Success(out + [v0 * 4 + v1 / 16])
  {
    var vs := [v0, v1];
    EncodedChars(vs);
    var cs := seq(2, i requires 0 <= i < 2 => FromUrlSafe(UrlSafeChar(vs[i])));
    assert FromUrlSafeString([UrlSafeChar(v0), UrlSafeChar(v1), '=', '='])
        == [cs[0]] + ([cs[1]] + (['='] + ['=']));
    var d0 := Decoder(0, 0, 0, out);
    ScanData(cs[0], [cs[1]] + (['='] + ['=']), d0, v0);
    var d1 := Feed(d0, v0);
    ScanData(cs[1], ['='] + ['='], d1, v1);
    var d2 := Feed(d1, v1);
    ScanPad(['='], d2);
    ScanPad([], d2.(pads := 1));
    assert ['='] + [] == ['='];
  }

  /** The final quantum of a one-byte tail: two data characters and two pads. */
  lemma ScanTailOfOne(b0: Byte, out: seq<Byte>)
    ensures Scan(FromUrlSafeString(UrlSafeB64Encode([b0])), Decoder(0, 0, 0, out)) == Success(out + [b0])
  {
    assert UrlSafeB64Encode([b0]) == [UrlSafeChar(b0 / 4), UrlSafeChar(b0 % 4 * 16), '=', '='];
    ScanTwoValues(b0 / 4, b0 % 4 * 16, out);
    QuantumArithmetic(b0, 0, 0);
  }

  /** Decoding what the encoder wrote, after bytes already produced, appends the encoded bytes. */
  lemma {:induction false} ScanEncoded(b: seq<Byte>, out: seq<Byte>)
    ensures Scan(FromUrlSafeString(UrlSafeB64Encode(b)), Decoder(0, 0, 0, out)) == Success(out + b)
    decreases |b|
  {
    var e := UrlSafeB64Encode(b);
    if |b| >= 3 {
      var g := e[..4];
      assert e == g + UrlSafeB64Encode(b[3..]);
      FromUrlSafeConcat(g, UrlSafeB64Encode(b[3..]));
      ScanQuantum(b[0], b[1], b[2], FromUrlSafeString(UrlSafeB64Encode(b[3..])), out);
      ScanEncoded(b[3..], out + [b[0], b[1], b[2]]);
      assert out + [b[0], b[1], b[2]] + b[3..] == out + b;
    } else if |b| == 2 {
      assert b == [b[0], b[1]];
      ScanTailOfTwo(b[0], b[1], out);
    } else if |b| == 1 {
      assert b == [b[0]];
      ScanTailOfOne(b[0], out);
    } else {
      assert out + b == out;
    }
  }

  /** Round trip: `urlsafe_b64decode(urlsafe_b64encode(b)) == b` for every byte string. */
  lemma DecodeEncode(b: seq<Byte>)
    ensures UrlSafeB64Decode(UrlSafeB64Encode(b)) == Success(b)
  {
    EncodeIsAscii(b);
    ScanEncoded(b, []);
    assert [] + b == b;
  }

  lemma IsAsciiConcat(a: string, b: string)
    ensures IsAscii(a + b) <==> IsAscii(a) && IsAscii(b)
  {
    if IsAscii(a) && IsAscii(b) {
      forall i | 0 <= i < |a + b| ensures (a + b)[i] as int < 128 {
        if i >= |a| { assert (a + b)[i] == b[i - |a|]; }
      }
    }
    if IsAscii(a + b) {
      forall i | 0 <= i < |a| ensures a[i] as int < 128 {
        assert (a + b)[i] == a[i];
      }
      forall i | 0 <= i < |b| ensures b[i] as int < 128 {
        assert (a + b)[|a| + i] == b[i];
      }
    }
  }

  lemma {:induction false} ScanSkipsForeign(x: string, c: char, y: string, d: Decoder)
    requires Valid(d) && c != '=' && SextetValue(c).None?
    ensures Scan(x + [c] + y, d) == Scan(x + y, d)
    decreases |x|
  {
    if x == [] {
      assert x + [c] + y == [c] + y && ([c] + y)[1..] == y && x + y == y;
    } else {
      assert (x + [c] + y)[0] == (x + y)[0] == x[0];
      assert (x + [c] + y)[1..] == x[1..] + [c] + y;
      assert (x + y)[1..] == x[1..] + y;
      if x[0] == '=' {
        if !(d.quad >= 2 && d.quad + d.pads + 1 >= 4) {
          ScanSkipsForeign(x[1..], c, y, if d.quad >= 2 then d.(pads := d.pads + 1) else d);
        }
      } else if SextetValue(x[0]).None? {
        ScanSkipsForeign(x[1..], c, y, d);
      } else {
        ScanSkipsForeign(x[1..], c, y, Feed(d, SextetValue(x[0]).value));
      }
    }
  }

  /**
   * Non-strict decoding: an ASCII character outside both alphabets, such as
   * a line break, may stand anywhere without changing the result.
   */
  lemma DecodeSkipsForeign(x: string, c: char, y: string)
    requires c as int < 128 && c != '=' && c != '-' && c != '_' && SextetValue(c).None?
    ensures UrlSafeB64Decode(x + [c] + y) == UrlSafeB64Decode(x + y)
  {
    IsAsciiConcat(x + [c], y);
    IsAsciiConcat(x, [c]);
    IsAsciiConcat(x, y);
    FromUrlSafeConcat(x + [c], y);
    FromUrlSafeConcat(x, [c]);
    FromUrlSafeConcat(x, y);
    assert FromUrlSafeString([c]) == [c];
    assert FromUrlSafeString(x + [c] + y) == FromUrlSafeString(x) + [c] + FromUrlSafeString(y);
    ScanSkipsForeign(FromUrlSafeString(x), c, FromUrlSafeString(y), Start());
  }

  /** A string that is not ASCII is refused before any decoding. */
  lemma NonAsciiRefused(s: string, i: int)
    requires 0 <= i < |s| && s[i] as int >= 128
    ensures UrlSafeB64Decode(s) == Failure(NonAscii)
  {
  }

  /** The example of the body extractor: "SGVsbG8=" is the encoding of the bytes of "Hello". */
  lemma DecodeHello()
    ensures UrlSafeB64Decode("SGVsbG8=") == Success([72, 101, 108, 108, 111])
  {
    DecodeEncode([72, 101, 108, 108, 111]);
    assert UrlSafeB64Encode([72, 101, 108, 108, 111]) == "SGVsbG8=";
  }

  /** Data characters alone: the decoder's position moves by one per character, and the end decides. */
  lemma {:induction false} ScanDataOnly(s: string, d: Decoder)
    requires Valid(d) && forall i :: 0 <= i < |s| ==> SextetValue(s[i]).Some?
    ensures Scan(s, d).Success? <==> (d.quad + |s|) % 4 == 0
    ensures (d.quad + |s|) % 4 == 1 ==> Scan(s, d) == Failure(ExcessDataChar)
    ensures (d.quad + |s|) % 4 >= 2 ==> Scan(s, d) == Failure(IncorrectPadding)
    decreases |s|
  {
    if s != [] {
      ScanDataOnly(s[1..], Feed(d, SextetValue(s[0]).value));
    }
  }

  /**
   * Unpadded input of data characters only: it decodes exactly when its
   * length is a multiple of 4; one character more is an excess data
   * character, two or three more is a padding error.
   */
  lemma UnpaddedDecode(s: string)
    requires forall i :: 0 <= i < |s| ==> SextetValue(FromUrlSafe(s[i])).Some?
    ensures UrlSafeB64Decode(s).Success? <==> |s| % 4 == 0
    ensures |s| % 4 == 1 ==> UrlSafeB64Decode(s) == Failure(ExcessDataChar)
    ensures |s| % 4 >= 2 ==> UrlSafeB64Decode(s) == Failure(IncorrectPadding)
  {
    assert IsAscii(s) by {
      forall i | 0 <= i < |s| ensures s[i] as int < 128 {
        assert SextetValue(FromUrlSafe(s[i])).Some?;
      }
    }
    ScanDataOnly(FromUrlSafeString(s), Start());
  }

  /** "SGVsbG8" lacks its pad character. */
  lemma MissingPadRefused()
    ensures UrlSafeB64Decode("SGVsbG8") == Failure(IncorrectPadding)
  {
    UnpaddedDecode("SGVsbG8");
  }
}
