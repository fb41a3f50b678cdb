/**
 * `bytes.decode("utf-8", errors="ignore")`.  The decoder reads the
 * well-formed byte sequences of Table 3-7 of The Unicode Standard
 * (section 3.9); at a position where no well-formed sequence starts, the
 * "ignore" handler drops the offending bytes and decoding resumes.  Dropping
 * one byte at a time gives the same text as dropping a maximal ill-formed
 * subpart, since every later byte of such a subpart is a continuation byte,
 * which cannot start a sequence either.
 */
module Utf8 {
  import opened Wrappers
  import opened Bytes

  predicate IsContinuation(b: Byte) {
    0x80 <= b <= 0xBF
  }

  /** The range the second byte must lie in, after a lead byte of three or four bytes. */
  function SecondLow(b0: int): int {
    if b0 == 0xE0 then 0xA0 else if b0 == 0xF0 then 0x90 else 0x80
  }

  function SecondHigh(b0: int): int {
    if b0 == 0xED then 0x9F else if b0 == 0xF4 then 0x8F else 0xBF
  }

  /**
   * The character encoded by the well-formed sequence at the head of `bs`,
   * and the sequence's length; `None` when no well-formed sequence starts there.
   */
  function NextScalar(bs: seq<Byte>): (r: Option<(char, nat)>)
    ensures r.Some? ==> 1 <= r.value.1 <= 4 && r.value.1 <= |bs|
  {
    if bs == [] then None
    else
      var b0: int := bs[0];
      if b0 < 0x80 then Some((b0 as char, 1))
      else if 0xC2 <= b0 <= 0xDF then
        if |bs| >= 2 && IsContinuation(bs[1])
        then Some((((b0 - 0xC0) * 64 + (bs[1] as int - 0x80)) as char, 2))
        else None
      else if 0xE0 <= b0 <= 0xEF then
        if |bs| >= 3 && SecondLow(b0) <= bs[1] <= SecondHigh(b0) && IsContinuation(bs[2])
        then Some((((b0 - 0xE0) * 4096 + (bs[1] as int - 0x80) * 64 + (bs[2] as int - 0x80)) as char, 3))
        else None
      else if 0xF0 <= b0 <= 0xF4 then
        if |bs| >= 4 && SecondLow(b0) <= bs[1] <= SecondHigh(b0) && IsContinuation(bs[2]) && IsContinuation(bs[3])
        then Some((((b0 - 0xF0) * 262144 + (bs[1] as int - 0x80) * 4096 + (bs[2] as int - 0x80) * 64 + (bs[3] as int - 0x80)) as char, 4))
        else None
      else None
  }

  /** `bs.decode("utf-8", errors="ignore")`. */
  function DecodeIgnore(bs: seq<Byte>): (s: string)
    ensures |s| <= |bs|
    decreases |bs|
  {
    if bs == [] then []
    else match NextScalar(bs)
      case Some((c, n)) => [c] + DecodeIgnore(bs[n..])
      case None => DecodeIgnore(bs[1..])
  }

  // ---------------------------------------------------------------------
  // The encoder, `s.encode("utf-8")`

  function EncodeChar(c: char): (bs: seq<Byte>)
    ensures 1 <= |bs| <= 4
  {
    var n := c as int;
    if n < 0x80 then [n]
    else if n < 0x800 then [0xC0 + n / 64, 0x80 + n % 64]
    else if n < 0x10000 then [0xE0 + n / 4096, 0x80 + n / 64 % 64, 0x80 + n % 64]
    else [0xF0 + n / 262144, 0x80 + n / 4096 % 64, 0x80 + n / 64 % 64, 0x80 + n % 64]
  }

  function Encode(s: string): seq<Byte> {
    if s == [] then [] else EncodeChar(s[0]) + Encode(s[1..])
  }

  // ---------------------------------------------------------------------
  // Lemmas

  lemma DigitsOf(n: int)
    requires 0 <= n
    ensures n / 64 / 64 == n / 4096 && n / 4096 / 64 == n / 262144
    ensures n == n / 64 * 64 + n % 64
    ensures n / 64 == n / 4096 * 64 + n / 64 % 64
    ensures n / 4096 == n / 262144 * 64 + n / 4096 % 64
  {
  }

  lemma NextOfTwo(n: int, rest: seq<Byte>)
    requires 0x80 <= n < 0x800
    ensures NextScalar([0xC0 + n / 64, 0x80 + n % 64] + rest) == Some((n as char, 2))
  {
    DigitsOf(n);
  }

  lemma NextOfThree(n: int, rest: seq<Byte>)
    requires 0x800 <= n < 0x10000 && !(0xD800 <= n < 0xE000)
    ensures NextScalar([0xE0 + n / 4096, 0x80 + n / 64 % 64, 0x80 + n % 64] + rest) == Some((n as char, 3))
  {
    DigitsOf(n);
    var bs := [0xE0 + n / 4096, 0x80 + n / 64 % 64, 0x80 + n % 64] + rest;
    assert bs[0] == 0xE0 + n / 4096 && bs[1] == 0x80 + n / 64 % 64 && bs[2] == 0x80 + n % 64;
  }

  lemma NextOfFour(n: int, rest: seq<Byte>)
    requires 0x10000 <= n < 0x110000
    ensures NextScalar([0xF0 + n / 262144, 0x80 + n / 4096 % 64, 0x80 + n / 64 % 64, 0x80 + n % 64] + rest)
         == Some((n as char, 4))
  {
    DigitsOf(n);
    var bs := [0xF0 + n / 262144, 0x80 + n / 4096 % 64, 0x80 + n / 64 % 64, 0x80 + n % 64] + rest;
    assert bs[0] == 0xF0 + n / 262144 && bs[1] == 0x80 + n / 4096 % 64;
    assert bs[2] == 0x80 + n / 64 % 64 && bs[3] == 0x80 + n % 64;
  }

  /** The bytes of one character's encoding are read back as that character. */
  lemma NextOfEncoded(c: char, rest: seq<Byte>)
    ensures NextScalar(EncodeChar(c) + rest) == Some((c, |EncodeChar(c)|))
  {
    var n := c as int;
    if n < 0x80 {
    } else if n < 0x800 {
      NextOfTwo(n, rest);
    } else if n < 0x10000 {
      NextOfThree(n, rest);
    } else {
      NextOfFour(n, rest);
    }
  }

  lemma DecodeStep(bs: seq<Byte>, c: char, n: nat)
    requires NextScalar(bs) == Some((c, n))
    ensures DecodeIgnore(bs) == [c] + DecodeIgnore(bs[n..])
  {
  }

  /** One encoded character at the front is decoded and the rest follows. */
  lemma DecodeEncodedChar(c: char, tail: seq<Byte>)
    ensures DecodeIgnore(EncodeChar(c) + tail) == [c] + DecodeIgnore(tail)
  {
    var e := EncodeChar(c);
    NextOfEncoded(c, tail);
    DecodeStep(e + tail, c, |e|);
    assert (e + tail)[|e|..] == tail;
  }

  lemma EncodeHead(s: string, rest: seq<Byte>)
    requires s != []
    ensures Encode(s) + rest == EncodeChar(s[0]) + (Encode(s[1..]) + rest)
  {
  }

  /** Decoding skips over a whole encoded string at the front. */
  lemma {:induction false} DecodeEncodedPrefix(s: string, rest: seq<Byte>)
    ensures DecodeIgnore(Encode(s) + rest) == s + DecodeIgnore(rest)
    decreases |s|
  {
    if s == [] {
      assert Encode(s) + rest == rest;
    } else {
      var tail := Encode(s[1..]) + rest;
      calc {
        DecodeIgnore(Encode(s) + rest);
        == { EncodeHead(s, rest); }
        DecodeIgnore(EncodeChar(s[0]) + tail);
        == { DecodeEncodedChar(s[0], tail); }
        [s[0]] + DecodeIgnore(tail);
        == { DecodeEncodedPrefix(s[1..], rest); }
        [s[0]] + (s[1..] + DecodeIgnore(rest));
        == { assert s == [s[0]] + s[1..]; }
        s + DecodeIgnore(rest);
      }
    }
  }

  /** Round trip: decoding the UTF-8 encoding of a string gives the string back. */
  lemma DecodeEncode(s: string)
    ensures DecodeIgnore(Encode(s)) == s
  {
    DecodeEncodedPrefix(s, []);
    assert Encode(s) + [] == Encode(s);
  }

  /**
   * errors="ignore": a byte that cannot start any well-formed sequence,
   * standing between two well-formed texts, is dropped and nothing else is lost.
   */
  lemma StrayByteIgnored(s1: string, b: Byte, s2: string)
    requires 0x80 <= b <= 0xC1 || 0xF5 <= b
    ensures DecodeIgnore(Encode(s1) + [b] + Encode(s2)) == s1 + s2
  {
    var r := [b] + Encode(s2);
    assert Encode(s1) + [b] + Encode(s2) == Encode(s1) + r;
    assert DecodeIgnore(Encode(s1) + r) == s1 + DecodeIgnore(r) by {
      DecodeEncodedPrefix(s1, r);
    }
    assert DecodeIgnore(r) == DecodeIgnore(Encode(s2)) by {
      StrayLead(r);
      assert r[1..] == Encode(s2);
    }
    assert DecodeIgnore(Encode(s2)) == s2 by {
      DecodeEncode(s2);
    }
  }

  /** A byte that starts no sequence is dropped on its own. */
  lemma StrayLead(bs: seq<Byte>)
    requires bs != [] && (0x80 <= bs[0] <= 0xC1 || 0xF5 <= bs[0])
    ensures DecodeIgnore(bs) == DecodeIgnore(bs[1..])
  {
    assert NextScalar(bs) == None;
  }

  /** ASCII bytes decode to the characters with the same codes. */
  lemma {:induction false} DecodeAscii(bs: seq<Byte>)
    requires forall i :: 0 <= i < |bs| ==> bs[i] < 0x80
    ensures |DecodeIgnore(bs)| == |bs|
    ensures forall i :: 0 <= i < |bs| ==> DecodeIgnore(bs)[i] as int == bs[i]
    decreases |bs|
  {
    if bs != [] {
      DecodeAscii(bs[1..]);
    }
  }
}
