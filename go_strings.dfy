/**
  The few functions of Go's `strings` and `strconv` packages that the
  renderers use, on `string` (a `seq<char>`). Go indexes strings by byte; every
  delimiter searched for here is ASCII, and in UTF-8 an ASCII byte never occurs
  inside a multi-byte character, so searching and slicing by character gives
  the same pieces.
*/
module GoStrings {

  /** `p` occurs in `s` starting at index `k`. */
  predicate OccursAt(s: string, p: string, k: int) {
    0 <= k && k + |p| <= |s| && s[k..k + |p|] == p
  }

  /** `p` does not occur at `k` when one of its characters differs from the text there. */
  lemma MismatchAt(s: string, p: string, k: nat, d: nat)
    requires d < |p| && k + d < |s| && s[k + d] != p[d]
    ensures !OccursAt(s, p, k)
  {
  }

  /** The first index at or after `from` where `p` occurs in `s`, or -1. */
  function IndexFrom(s: string, p: string, from: nat): (r: int)
    requires from <= |s|
    ensures r == -1 || (from <= r && OccursAt(s, p, r))
    ensures r == -1 ==> forall k :: from <= k ==> !OccursAt(s, p, k)
    ensures r != -1 ==> forall k :: from <= k < r ==> !OccursAt(s, p, k)
    decreases |s| - from
  {
    if OccursAt(s, p, from) then from
    else if from == |s| then -1
    else IndexFrom(s, p, from + 1)
  }

  /** strings.Index: the index of the first occurrence of `p` in `s`, or -1. */
  function Index(s: string, p: string): (r: int)
    ensures r == -1 <==> forall k :: !OccursAt(s, p, k)
    ensures r != -1 ==> OccursAt(s, p, r) && forall k :: 0 <= k < r ==> !OccursAt(s, p, k)
  {
    IndexFrom(s, p, 0)
  }

  /** strings.IndexByte: the index of the first `c` in `s`, or -1. */
  function IndexByte(s: string, c: char): (r: int)
    ensures r == -1 <==> c !in s
    ensures r != -1 ==> 0 <= r < |s| && s[r] == c && forall k :: 0 <= k < r ==> s[k] != c
  {
    if |s| == 0 then -1
    else if s[0] == c then 0
    else
      var r' := IndexByte(s[1..], c);
      assert forall k :: 0 < k < |s| ==> s[k] == s[1..][k - 1];
      if r' == -1 then -1 else r' + 1
  }

  /** strings.LastIndexByte: the index of the last `c` in `s`, or -1. */
  function LastIndexByte(s: string, c: char): (r: int)
    ensures r == -1 <==> c !in s
    ensures r != -1 ==> 0 <= r < |s| && s[r] == c && forall k :: r < k < |s| ==> s[k] != c
  {
    if |s| == 0 then -1
    else if s[|s| - 1] == c then |s| - 1
    else
      assert forall k :: 0 <= k < |s| - 1 ==> s[k] == s[..|s| - 1][k];
      LastIndexByte(s[..|s| - 1], c)
  }

  /** strings.TrimPrefix: `s` without its leading `p`, or `s` when it does not start with `p`. */
  function TrimPrefix(s: string, p: string): (r: string)
    ensures p <= s ==> p + r == s
    ensures !(p <= s) ==> r == s
  {
    if p <= s then s[|p|..] else s
  }

  /** strings.Replace(s, from, to, -1) for one-character `from` and `to`: every `from` becomes `to`. */
  function ReplaceChar(s: string, from: char, to: char): (r: string)
    ensures |r| == |s|
  {
    if |s| == 0 then ""
    else ReplaceChar(s[..|s| - 1], from, to) + [if s[|s| - 1] == from then to else s[|s| - 1]]
  }

  /** Each character of the result is the input's, with `from` turned into `to`. */
  lemma {:induction false} ReplaceCharAt(s: string, from: char, to: char, k: nat)
    requires k < |s|
    ensures ReplaceChar(s, from, to)[k] == if s[k] == from then to else s[k]
  {
    if k < |s| - 1 {
      ReplaceCharAt(s[..|s| - 1], from, to, k);
    }
  }

  /** A string without `from` is left as it is. */
  lemma ReplaceCharAbsent(s: string, from: char, to: char)
    ensures from !in s ==> ReplaceChar(s, from, to) == s
  {
    if from !in s {
      forall k | 0 <= k < |s| ensures ReplaceChar(s, from, to)[k] == s[k] {
        ReplaceCharAt(s, from, to, k);
      }
    }
  }

  /** After the replacement no `from` is left, unless `from` and `to` are the same. */
  lemma ReplaceCharRemoves(s: string, from: char, to: char)
    requires from != to
    ensures from !in ReplaceChar(s, from, to)
  {
    forall k | 0 <= k < |s| ensures ReplaceChar(s, from, to)[k] != from {
      ReplaceCharAt(s, from, to, k);
    }
  }

  /** The decimal digit for `d`. */
  function Digit(d: nat): char
    requires d < 10
  {
    "0123456789"[d]
  }

  predicate IsDigit(c: char) {
    '0' <= c <= '9'
  }

  /** The decimal digits of `n`, most significant first, without leading zeros. */
  function NatToDecimal(n: nat): (r: string)
    ensures |r| > 0 && (|r| > 1 ==> r[0] != '0')
    ensures forall k :: 0 <= k < |r| ==> IsDigit(r[k])
  {
    if n < 10 then [Digit(n)] else NatToDecimal(n / 10) + [Digit(n % 10)]
  }

  /**
    strconv.Itoa: the shortest decimal form of `n` (no leading zero), with a
    leading '-' when it is negative.
  */
  function Itoa(n: int): (r: string)
    ensures |r| > 0
    ensures n >= 0 ==> forall k :: 0 <= k < |r| ==> IsDigit(r[k])
    ensures n < 0 <==> r[0] == '-'
    ensures var s := if n < 0 then 1 else 0;
            && s < |r|
            && (forall k :: s <= k < |r| ==> IsDigit(r[k]))
            && (|r| > s + 1 ==> r[s] != '0')
  {
    if n < 0 then "-" + NatToDecimal(-n) else NatToDecimal(n)
  }

  /** The value of a string of decimal digits, read most significant first. */
  function DecimalValue(s: string): nat
    requires forall k :: 0 <= k < |s| ==> IsDigit(s[k])
  {
    if |s| == 0 then 0
    else
      assert IsDigit(s[|s| - 1]);
      DecimalValue(s[..|s| - 1]) * 10 + (s[|s| - 1] as int - '0' as int)
  }

  /** strconv.Atoi on what Itoa produces. */
  function Atoi(s: string): int
    requires |s| > 0
    requires forall k :: (if s[0] == '-' then 1 else 0) <= k < |s| ==> IsDigit(s[k])
  {
    if s[0] == '-' then -(DecimalValue(s[1..]) as int) else DecimalValue(s)
  }

  lemma {:induction false} NatToDecimalValue(n: nat)
    ensures DecimalValue(NatToDecimal(n)) == n
  {
    var r := NatToDecimal(n);
    if n >= 10 {
      var front := NatToDecimal(n / 10);
      assert r == front + [Digit(n % 10)];
      assert r[..|r| - 1] == front;
      NatToDecimalValue(n / 10);
      assert r[|r| - 1] as int - '0' as int == n % 10;
    }
  }

  /** The line numbers Itoa prints read back as the same number. */
  lemma ItoaRoundTrip(n: int)
    ensures Atoi(Itoa(n)) == n
  {
    if n < 0 {
      var digits := NatToDecimal(-n);
      assert Itoa(n) == "-" + digits;
      assert Itoa(n)[1..] == digits;
      NatToDecimalValue(-n);
    } else {
      NatToDecimalValue(n);
    }
  }
}
