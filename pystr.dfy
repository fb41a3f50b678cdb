/**
 * Models of the few Python `str` operations that the core relies on:
 * `str.isspace`, `str.strip`, `str.lower` (on ASCII letters),
 * `str.startswith` and the substring test `k in s`.
 */
module PyStr {

  /** `c.isspace()`: the characters that `str.strip()` removes. */
  predicate IsSpace(c: char) {
    var n := c as int;
    n == 0x20 || 0x09 <= n <= 0x0D || 0x1C <= n <= 0x1F || n == 0x85 || n == 0xA0
    || n == 0x1680 || 0x2000 <= n <= 0x200A || n == 0x2028 || n == 0x2029
    || n == 0x202F || n == 0x205F || n == 0x3000
  }

  predicate AllSpace(s: string) {
    forall i :: 0 <= i < |s| ==> IsSpace(s[i])
  }

  /** A string with no white space at either end, as `str.strip()` leaves it. */
  predicate IsStripped(s: string) {
    s == [] || (!IsSpace(s[0]) && !IsSpace(s[|s| - 1]))
  }

  predicate IsUpper(c: char) {
    'A' <= c <= 'Z'
  }

  /** `c.lower()` for one character; only ASCII letters change. */
  function LowerChar(c: char): char {
    if IsUpper(c) then (c as int + 32) as char else c
  }

  /** `s.lower()`, character by character. */
  function Lower(s: string): string {
    seq(|s|, i requires 0 <= i < |s| => LowerChar(s[i]))
  }

  function TrimLeft(s: string): string {
    if s != [] && IsSpace(s[0]) then TrimLeft(s[1..]) else s
  }

  function TrimRight(s: string): string {
    if s != [] && IsSpace(s[|s| - 1]) then TrimRight(s[..|s| - 1]) else s
  }

  /** `s.strip()` with no argument. */
  function Strip(s: string): string {
    TrimRight(TrimLeft(s))
  }

  /** `s.startswith(p)`. */
  predicate StartsWith(s: string, p: string) {
    |p| <= |s| && s[..|p|] == p
  }

  /** `k in s` for two strings: `k` occurs in `s` at some position. */
  predicate Contains(s: string, k: string)
    decreases |s|
  {
    StartsWith(s, k) || (s != [] && Contains(s[1..], k))
  }

  /** `k` occurs in `s` at position `i`. */
  predicate OccursAt(s: string, k: string, i: int) {
    0 <= i <= |s| - |k| && s[i..i + |k|] == k
  }

  /** Each character of `s` is a one-character substring of it. */
  lemma CharContained(s: string, i: int)
    requires 0 <= i < |s|
    ensures Contains(s, [s[i]])
  {
    assert OccursAt(s, [s[i]], i);
    OccursAtContains(s, [s[i]], i);
  }

  /** A character of `k` that `s` lacks rules the substring test out. */
  lemma MissingCharNotContained(s: string, k: string, j: int)
    requires 0 <= j < |k| && forall i :: 0 <= i < |s| ==> s[i] != k[j]
    ensures !Contains(s, k)
  {
    ContainsIff(s, k);
  }

  // ---------------------------------------------------------------------
  // Lemmas about lowering

  /** Lowering never produces an upper-case ASCII letter. */
  lemma LowerHasNoUpper(s: string, i: int)
    requires 0 <= i < |s|
    ensures |Lower(s)| == |s| && !IsUpper(Lower(s)[i])
  {
  }

  /** Lowering leaves a string without upper-case ASCII letters unchanged. */
  lemma LowerOfLower(s: string)
    requires forall i :: 0 <= i < |s| ==> !IsUpper(s[i])
    ensures Lower(s) == s
  {
  }

  lemma LowerConcat(a: string, b: string)
    ensures Lower(a + b) == Lower(a) + Lower(b)
  {
  }

  lemma LowerSlice(s: string, i: int, j: int)
    requires 0 <= i <= j <= |s|
    ensures Lower(s)[i..j] == Lower(s[i..j])
  {
  }

  // ---------------------------------------------------------------------
  // Lemmas about `in`

  /** `k in s` holds exactly when `k` occurs in `s` at some position. */
  lemma {:induction false} ContainsIff(s: string, k: string)
    ensures Contains(s, k) <==> exists i :: OccursAt(s, k, i)
    decreases |s|
  {
    if s != [] {
      ContainsIff(s[1..], k);
      forall i | OccursAt(s[1..], k, i) ensures OccursAt(s, k, i + 1) {
        assert s[1..][i..i + |k|] == s[i + 1..i + 1 + |k|];
      }
      forall i | 0 < i && OccursAt(s, k, i) ensures OccursAt(s[1..], k, i - 1) {
        assert s[1..][i - 1..i - 1 + |k|] == s[i..i + |k|];
      }
    }
    assert StartsWith(s, k) <==> OccursAt(s, k, 0);
  }

  /** An occurrence at a known position is a substring. */
  lemma OccursAtContains(s: string, k: string, i: int)
    requires OccursAt(s, k, i)
    ensures Contains(s, k)
  {
    ContainsIff(s, k);
  }

  /** Any part of an occurring string occurs too. */
  lemma {:induction false} ContainsTransitive(s: string, k: string, j: string)
    requires Contains(s, k) && Contains(k, j)
    ensures Contains(s, j)
  {
    ContainsIff(s, k);
    ContainsIff(k, j);
    var a :| OccursAt(s, k, a);
    var b :| OccursAt(k, j, b);
    forall t | 0 <= t < |j| ensures s[a + b + t] == j[t] {
      assert s[a..a + |k|][b + t] == k[b + t];
      assert k[b..b + |j|][t] == j[t];
    }
    assert s[a + b..a + b + |j|] == j;
    OccursAtContains(s, j, a + b);
  }

  /** Lowering carries an occurrence along. */
  lemma ContainsLower(s: string, k: string)
    requires Contains(s, k)
    ensures Contains(Lower(s), Lower(k))
  {
    ContainsIff(s, k);
    var i :| OccursAt(s, k, i);
    LowerSlice(s, i, i + |k|);
    OccursAtContains(Lower(s), Lower(k), i);
  }

  /** A string holding an upper-case ASCII letter never occurs in a lowered string. */
  lemma {:induction false} NoUpperInLower(s: string, k: string, p: int)
    requires 0 <= p < |k| && IsUpper(k[p])
    ensures !Contains(Lower(s), k)
  {
    ContainsIff(Lower(s), k);
    if i :| OccursAt(Lower(s), k, i) {
      assert Lower(s)[i..i + |k|][p] == k[p];
      LowerHasNoUpper(s, i + p);
    }
  }

  // ---------------------------------------------------------------------
  // Lemmas about `strip`

  lemma {:induction false} TrimLeftSkipsSpace(w: string, x: string)
    requires AllSpace(w)
    ensures TrimLeft(w + x) == TrimLeft(x)
    decreases |w|
  {
    if w != [] {
      assert IsSpace((w + x)[0]);
      assert (w + x)[1..] == w[1..] + x;
      TrimLeftSkipsSpace(w[1..], x);
    } else {
      assert w + x == x;
    }
  }

  lemma {:induction false} TrimRightSkipsSpace(x: string, w: string)
    requires AllSpace(w)
    ensures TrimRight(x + w) == TrimRight(x)
    decreases |w|
  {
    if w != [] {
      var w' := w[..|w| - 1];
      assert IsSpace((x + w)[|x + w| - 1]);
      assert (x + w)[..|x + w| - 1] == x + w';
      TrimRightSkipsSpace(x, w');
    } else {
      assert x + w == x;
    }
  }

  /** `TrimRight` keeps a prefix, ending on a non-space character. */
  lemma {:induction false} TrimRightIsPrefix(s: string)
    ensures |TrimRight(s)| <= |s| && TrimRight(s) == s[..|TrimRight(s)|]
    ensures TrimRight(s) != [] ==> !IsSpace(TrimRight(s)[|TrimRight(s)| - 1])
    decreases |s|
  {
    if s != [] && IsSpace(s[|s| - 1]) {
      TrimRightIsPrefix(s[..|s| - 1]);
    }
  }

  /** `TrimLeft` keeps a suffix, starting on a non-space character. */
  lemma {:induction false} TrimLeftIsSuffix(s: string)
    ensures |TrimLeft(s)| <= |s| && TrimLeft(s) == s[|s| - |TrimLeft(s)|..]
    ensures TrimLeft(s) != [] ==> !IsSpace(TrimLeft(s)[0])
    decreases |s|
  {
    if s != [] && IsSpace(s[0]) {
      TrimLeftIsSuffix(s[1..]);
    }
  }

  /** The result of `strip()` has no white space at either end. */
  lemma StripIsStripped(s: string)
    ensures IsStripped(Strip(s))
  {
    TrimLeftIsSuffix(s);
    TrimRightIsPrefix(TrimLeft(s));
  }

  /** The result of `strip()` occurs in the original string. */
  lemma StripOccurs(s: string)
    ensures Contains(s, Strip(s))
  {
    var l := TrimLeft(s);
    TrimLeftIsSuffix(s);
    TrimRightIsPrefix(l);
    var r := Strip(s);
    assert s[|s| - |l|..|s| - |l| + |r|] == l[..|r|];
    OccursAtContains(s, r, |s| - |l|);
  }

  /** `strip()` removes exactly the surrounding white space. */
  lemma StripPadded(w1: string, t: string, w2: string)
    requires AllSpace(w1) && AllSpace(w2) && IsStripped(t)
    ensures Strip(w1 + t + w2) == t
  {
    assert w1 + t + w2 == w1 + (t + w2);
    TrimLeftSkipsSpace(w1, t + w2);
    if t == [] {
      assert t + w2 == w2 + [];
      TrimLeftSkipsSpace(w2, []);
    } else {
      TrimRightSkipsSpace(t, w2);
    }
  }

  /** `strip()` is idempotent. */
  lemma StripIdempotent(s: string)
    ensures Strip(Strip(s)) == Strip(s)
  {
    StripIsStripped(s);
    StripPadded([], Strip(s), []);
    assert [] + Strip(s) + [] == Strip(s);
  }
}
