/**
 * Character classes, Python string helpers and decimal rendering used by the
 * span-resolution engine: the `[a-zA-Z0-9]` class of the pre-processing regex,
 * the `[^a-zA-Z0-9*]` punctuation matcher, `re.split(r"(\s+)", s)`,
 * `re.sub(r"[^a-zA-Z0-9]", " ", s)`, Python slicing and `str(int)`.
 */
module Text {

  /** Python's `str.isspace()` / the `\s` class of `re` on one character. */
  predicate IsSpace(c: char) {
    || c == ' '
    || ('\t' <= c <= '\r')
    || ('\U{1c}' <= c <= '\U{1f}')
    || c == '\U{85}' || c == '\U{a0}' || c == '\U{1680}'
    || ('\U{2000}' <= c <= '\U{200a}')
    || c == '\U{2028}' || c == '\U{2029}' || c == '\U{202f}' || c == '\U{205f}' || c == '\U{3000}'
  }

  /** The ASCII class `[a-zA-Z0-9]`. */
  predicate IsAlnum(c: char) {
    ('a' <= c <= 'z') || ('A' <= c <= 'Z') || ('0' <= c <= '9')
  }

  /** The class `[^a-zA-Z0-9*]` (PUNCTUATION_MATCHER): neither alphanumeric nor the mask glyph. */
  predicate IsPunctuation(c: char) {
    !IsAlnum(c) && c != '*'
  }

  /** `s.isspace()`: non-empty and made of whitespace only. */
  predicate AllSpace(s: string) {
    |s| > 0 && forall i :: 0 <= i < |s| ==> IsSpace(s[i])
  }

  predicate NoSpace(s: string) {
    forall i :: 0 <= i < |s| ==> !IsSpace(s[i])
  }

  predicate AllAlnum(s: string) {
    forall i :: 0 <= i < |s| ==> IsAlnum(s[i])
  }

  /** `re.sub(r"[^a-zA-Z0-9]", " ", s)`: every character outside `[a-zA-Z0-9]` becomes one space. */
  function Scrub(s: string): (r: string)
    ensures |r| == |s|
    ensures forall i :: 0 <= i < |s| ==> r[i] == if IsAlnum(s[i]) then s[i] else ' '
  {
    seq(|s|, i requires 0 <= i < |s| => if IsAlnum(s[i]) then s[i] else ' ')
  }

  /** The text as the tokenizer sees it: whitespace and `[a-zA-Z0-9]` kept, anything else one space. */
  function Blank(s: string): (r: string)
    ensures |r| == |s|
    ensures forall i :: 0 <= i < |s| ==> r[i] == if IsSpace(s[i]) || IsAlnum(s[i]) then s[i] else ' '
  {
    seq(|s|, i requires 0 <= i < |s| => if IsSpace(s[i]) || IsAlnum(s[i]) then s[i] else ' ')
  }

  /** Concatenation of a list of strings (`"".join(xs)`). */
  function Flatten(xs: seq<string>): string {
    if xs == [] then [] else xs[0] + Flatten(xs[1..])
  }

  lemma {:induction false} FlattenAppend(xs: seq<string>, ys: seq<string>)
    ensures Flatten(xs + ys) == Flatten(xs) + Flatten(ys)
  {
    if xs == [] {
      assert xs + ys == ys;
    } else {
      assert (xs + ys)[1..] == xs[1..] + ys;
      FlattenAppend(xs[1..], ys);
    }
  }

  lemma FlattenSnoc(xs: seq<string>, x: string)
    ensures Flatten(xs + [x]) == Flatten(xs) + x
  {
    FlattenAppend(xs, [x]);
    assert Flatten([x]) == x + Flatten([]);
  }

  lemma FlattenPrefix(xs: seq<string>, k: nat)
    requires k < |xs|
    ensures Flatten(xs[..k + 1]) == Flatten(xs[..k]) + xs[k]
  {
    assert xs[..k + 1] == xs[..k] + [xs[k]];
    FlattenSnoc(xs[..k], xs[k]);
  }

  /** Piece `k` sits in the concatenation right after the pieces before it. */
  lemma FlattenSplit(xs: seq<string>, k: nat)
    requires k < |xs|
    ensures Flatten(xs) == Flatten(xs[..k]) + xs[k] + Flatten(xs[k + 1..])
  {
    assert xs == xs[..k + 1] + xs[k + 1..];
    FlattenAppend(xs[..k + 1], xs[k + 1..]);
    FlattenPrefix(xs, k);
  }

  /** The lengths behind `FlattenPrefix` and `FlattenSplit`. */
  lemma FlattenLengths(xs: seq<string>, k: nat)
    requires k < |xs|
    ensures |Flatten(xs[..k + 1])| == |Flatten(xs[..k])| + |xs[k]|
    ensures |Flatten(xs[..k + 1])| <= |Flatten(xs)|
  {
    FlattenSplit(xs, k);
    FlattenPrefix(xs, k);
  }

  /** Every index of the concatenation falls inside one of the pieces. */
  lemma {:induction false} FlattenLocate(xs: seq<string>, q: int) returns (k: nat, j: nat)
    requires 0 <= q < |Flatten(xs)|
    ensures k < |xs| && j < |xs[k]| && q == |Flatten(xs[..k])| + j
  {
    var n := |xs| - 1;
    FlattenPrefix(xs, n);
    assert xs[..n + 1] == xs;
    if q < |Flatten(xs[..n])| {
      k, j := FlattenLocate(xs[..n], q);
      assert xs[..n][..k] == xs[..k];
    } else {
      k, j := n, q - |Flatten(xs[..n])|;
    }
  }

  /** Index of the first whitespace character at or after `i`, or `|s|`. */
  function FirstSpace(s: string, i: nat): (j: nat)
    requires i <= |s|
    ensures i <= j <= |s|
    ensures forall k :: i <= k < j ==> !IsSpace(s[k])
    ensures j == |s| || IsSpace(s[j])
    decreases |s| - i
  {
    if i == |s| || IsSpace(s[i]) then i else FirstSpace(s, i + 1)
  }

  /** End of the whitespace run that starts at `i`. */
  function SpaceRunEnd(s: string, i: nat): (j: nat)
    requires i <= |s|
    ensures i <= j <= |s|
    ensures forall k :: i <= k < j ==> IsSpace(s[k])
    ensures j == |s| || !IsSpace(s[j])
    decreases |s| - i
  {
    if i == |s| || !IsSpace(s[i]) then i else SpaceRunEnd(s, i + 1)
  }

  /** Even pieces hold no whitespace, odd pieces are whitespace runs. */
  predicate Alternating(pieces: seq<string>) {
    && |pieces| % 2 == 1
    && (forall k :: 0 <= k < |pieces| && k % 2 == 0 ==> NoSpace(pieces[k]))
    && (forall k :: 0 <= k < |pieces| && k % 2 == 1 ==> AllSpace(pieces[k]))
  }

  lemma PrependPair(a: string, b: string, rest: seq<string>)
    requires NoSpace(a) && AllSpace(b) && Alternating(rest)
    ensures Alternating([a, b] + rest)
    ensures Flatten([a, b] + rest) == a + b + Flatten(rest)
  {
    var all := [a, b] + rest;
    forall k | 2 <= k < |all| ensures all[k] == rest[k - 2] { }
    FlattenAppend([a, b], rest);
    assert Flatten([a, b]) == a + (b + Flatten([]));
  }

  /** `re.split(r"(\s+)", s)`. */
  function SplitWs(s: string): seq<string>
    decreases |s|
  {
    var i := FirstSpace(s, 0);
    if i == |s| then [s]
    else
      var j := SpaceRunEnd(s, i);
      [s[..i], s[i..j]] + SplitWs(s[j..])
  }

  /**
   * The pieces of `re.split(r"(\s+)", s)` alternate between stretches without
   * whitespace (even positions, possibly empty) and the maximal whitespace runs
   * that separate them (odd positions), and together they spell `s`.
   */
  lemma {:induction false} SplitWsSpec(s: string)
    ensures Alternating(SplitWs(s))
    ensures Flatten(SplitWs(s)) == s
    ensures forall k :: 0 < k < |SplitWs(s)| - 1 && k % 2 == 0 ==> |SplitWs(s)[k]| > 0
    decreases |s|
  {
    var i := FirstSpace(s, 0);
    if i == |s| {
      assert SplitWs(s) == [s];
      assert Flatten([s]) == s + Flatten([]);
    } else {
      var j := SpaceRunEnd(s, i);
      var rest := SplitWs(s[j..]);
      assert SplitWs(s) == [s[..i], s[i..j]] + rest;
      SplitWsSpec(s[j..]);
      SplitWsStep(s, i, j, rest);
      forall k | 0 < k < |SplitWs(s)| - 1 && k % 2 == 0
        ensures |SplitWs(s)[k]| > 0
      {
        assert SplitWs(s)[k] == rest[k - 2];
        if k == 2 {
          SplitWsHead(s[j..]);
        }
      }
    }
  }

  /**
   * The first piece of the split runs up to the first whitespace character,
   * and a split into several pieces means there is one.
   */
  lemma SplitWsHead(t: string)
    requires |SplitWs(t)| > 1
    ensures 0 < |t| && !IsSpace(t[0]) ==> |SplitWs(t)[0]| > 0
  {
    var i := FirstSpace(t, 0);
    assert i < |t|;
    assert SplitWs(t)[0] == t[..i];
  }

  lemma SplitWsStep(s: string, i: nat, j: nat, rest: seq<string>)
    requires i < j <= |s|
    requires forall k :: 0 <= k < i ==> !IsSpace(s[k])
    requires forall k :: i <= k < j ==> IsSpace(s[k])
    requires Alternating(rest) && Flatten(rest) == s[j..]
    ensures Alternating([s[..i], s[i..j]] + rest)
    ensures Flatten([s[..i], s[i..j]] + rest) == s
  {
    PrependPair(s[..i], s[i..j], rest);
    assert s[..i] + s[i..j] + s[j..] == s;
  }

  /** Python's normalisation of a slice bound against a length `n`. */
  function ClampIndex(i: int, n: nat): (r: nat)
    ensures r <= n
    ensures 0 <= i <= n ==> r == i
  {
    if i < 0 then (if i + n < 0 then 0 else i + n)
    else if i > n then n
    else i
  }

  /** Python's `s[a:b]`, including negative and out-of-range bounds. */
  function Slice(s: string, a: int, b: int): (r: string)
    ensures 0 <= a <= b <= |s| ==> r == s[a..b]
    ensures |r| <= |s|
  {
    var lo := ClampIndex(a, |s|);
    var hi := ClampIndex(b, |s|);
    if lo < hi then s[lo..hi] else []
  }

  /** ASCII lower-casing (the tokens it is applied to hold ASCII letters only). */
  function Lower(c: char): (r: char)
    ensures IsAlnum(r) <==> IsAlnum(c)
    ensures !('A' <= r <= 'Z')
  {
    if 'A' <= c <= 'Z' then (c as int + 32) as char else c
  }

  function LowerAll(s: string): (r: string)
    ensures |r| == |s|
    ensures forall i :: 0 <= i < |s| ==> r[i] == Lower(s[i])
  {
    seq(|s|, i requires 0 <= i < |s| => Lower(s[i]))
  }

  /** `re.sub(r"[^a-zA-Z0-9]+", "", s)`: the alphanumeric characters of `s`, in order. */
  function AlnumOnly(s: string): (r: string)
    ensures AllAlnum(r)
    ensures |r| <= |s|
    ensures r == [] <==> forall i :: 0 <= i < |s| ==> !IsAlnum(s[i])
  {
    if s == [] then []
    else
      var rest := AlnumOnly(s[1..]);
      assert forall i :: 1 <= i < |s| ==> s[i] == s[1..][i - 1];
      (if IsAlnum(s[0]) then [s[0]] else []) + rest
  }

  /**
   * `re.sub(r"[^a-zA-Z0-9]+", "", word.lower().strip())`. Stripping is
   * subsumed: the whitespace it would remove is not alphanumeric either.
   */
  function CleanWord(w: string): (r: string)
    ensures r == [] <==> forall i :: 0 <= i < |w| ==> !IsAlnum(w[i])
  {
    AlnumOnly(LowerAll(w))
  }

  // ---- str(int) ----

  function DigitChar(d: nat): (c: char)
    requires d < 10
    ensures '0' <= c <= '9'
  {
    ('0' as int + d) as char
  }

  function DigitValue(c: char): (d: nat)
    requires '0' <= c <= '9'
    ensures d < 10
  {
    (c as int - '0' as int) as nat
  }

  /** Python's `str(n)` for a non-negative integer: decimal digits, no leading zero. */
  function NatToString(n: nat): (s: string)
    ensures |s| > 0
    ensures forall i :: 0 <= i < |s| ==> '0' <= s[i] <= '9'
    ensures s[0] == '0' ==> n == 0
  {
    if n < 10 then [DigitChar(n)] else NatToString(n / 10) + [DigitChar(n % 10)]
  }

  /** Python's `str(i)` for any integer. */
  function IntToString(i: int): (s: string)
    ensures |s| > 0
    ensures s[0] == '-' <==> i < 0
  {
    if i < 0 then "-" + NatToString(-i) else NatToString(i)
  }

  /** Reads back a string of decimal digits. */
  function ParseNat(s: string): (n: nat)
    requires forall i :: 0 <= i < |s| ==> '0' <= s[i] <= '9'
  {
    if s == [] then 0 else ParseNat(s[..|s| - 1]) * 10 + DigitValue(s[|s| - 1])
  }

  function ParseInt(s: string): int
    requires |s| > 0
    requires forall i :: (if s[0] == '-' then 1 else 0) <= i < |s| ==> '0' <= s[i] <= '9'
  {
    if s[0] == '-' then -(ParseNat(s[1..]) as int) else ParseNat(s)
  }

  lemma {:induction false} NatToStringRoundTrip(n: nat)
    ensures ParseNat(NatToString(n)) == n
  {
    var s := NatToString(n);
    if n >= 10 {
      NatToStringRoundTrip(n / 10);
      assert s[..|s| - 1] == NatToString(n / 10);
    }
  }

  /** After an optional minus sign, `str(i)` is all decimal digits. */
  lemma IntToStringDigits(i: int)
    ensures forall k :: (if IntToString(i)[0] == '-' then 1 else 0) <= k < |IntToString(i)| ==>
      '0' <= IntToString(i)[k] <= '9'
  {
    if i < 0 {
      var t := NatToString(-i);
      assert IntToString(i) == "-" + t;
      forall k | 1 <= k < |t| + 1 ensures '0' <= ("-" + t)[k] <= '9' {
        assert ("-" + t)[k] == t[k - 1];
      }
    }
  }

  /** The numbers written into messages read back as the same integer. */
  lemma IntToStringRoundTrip(i: int)
    ensures forall k :: (if IntToString(i)[0] == '-' then 1 else 0) <= k < |IntToString(i)| ==>
      '0' <= IntToString(i)[k] <= '9'
    ensures ParseInt(IntToString(i)) == i
  {
    IntToStringDigits(i);
    if i < 0 {
      NatToStringRoundTrip(-i);
      NegativeSuffix(i);
    } else {
      NatToStringRoundTrip(i);
    }
  }

  lemma NegativeSuffix(i: int)
    requires i < 0
    ensures IntToString(i)[1..] == NatToString(-i)
  {
    assert IntToString(i) == "-" + NatToString(-i);
  }

  /** Membership in a concatenation, from either side. */
  lemma InLeft<T>(x: T, a: seq<T>, b: seq<T>)
    requires x in a
    ensures x in a + b
  {
    var k :| 0 <= k < |a| && a[k] == x;
    assert (a + b)[k] == x;
  }

  lemma InRight<T>(x: T, a: seq<T>, b: seq<T>, k: nat)
    requires k < |b| && b[k] == x
    ensures x in a + b
  {
    assert (a + b)[|a| + k] == x;
  }

  lemma AppendAssoc<T>(a: seq<T>, b: seq<T>, c: seq<T>)
    ensures (a + b) + c == a + (b + c)
  {
  }
}
