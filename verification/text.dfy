/**
 * The pieces of Python's `str` behaviour the ingestion code relies on:
 * `str.strip()`, `str.split(sep)`, `int(text)` and `str(n)` for integers.
 */
module Text {
  import opened Wrappers
  import opened SeqFacts

  /** Python's `str.isspace()`: the characters `str.strip()` discards. */
  predicate IsSpace(c: char) {
    var n := c as int;
    || (9 <= n <= 13)
    || (28 <= n <= 32)
    || n == 0x85 || n == 0xA0 || n == 0x1680
    || (0x2000 <= n <= 0x200A)
    || n == 0x2028 || n == 0x2029 || n == 0x202F || n == 0x205F || n == 0x3000
  }

  /**
   * The characters `int()` skips around a literal: the ASCII tab, line feed,
   * vertical tab, form feed, carriage return and space, and every non-ASCII
   * character `str.isspace()` accepts. The separators U+001C to U+001F count
   * as whitespace for `strip()` but not for `int()`.
   */
  predicate IsIntSpace(c: char) {
    var n := c as int;
    (9 <= n <= 13) || n == 32 || (n >= 128 && IsSpace(c))
  }

  /** `str.lstrip()`: the suffix left after dropping leading whitespace. */
  function StripLeading(s: string): (r: string)
    ensures |r| <= |s| && r == s[|s| - |r|..]
    ensures r == [] || !IsSpace(r[0])
    ensures forall i :: 0 <= i < |s| - |r| ==> IsSpace(s[i])
  {
    if |s| > 0 && IsSpace(s[0]) then StripLeading(s[1..]) else s
  }

  /** `str.rstrip()`: the prefix left after dropping trailing whitespace. */
  function StripTrailing(s: string): (r: string)
    ensures |r| <= |s| && r == s[..|r|]
    ensures r == [] || !IsSpace(r[|r| - 1])
    ensures forall i :: |r| <= i < |s| ==> IsSpace(s[i])
  {
    if |s| > 0 && IsSpace(s[|s| - 1]) then StripTrailing(s[..|s| - 1]) else s
  }

  /**
   * `str.strip()`: the slice of `s` between its leading and trailing whitespace,
   * itself neither starting nor ending with whitespace.
   */
  function Strip(s: string): (r: string)
    ensures exists i, j :: 0 <= i <= j <= |s| && r == s[i..j]
                           && (forall k :: 0 <= k < i ==> IsSpace(s[k]))
                           && (forall k :: j <= k < |s| ==> IsSpace(s[k]))
    ensures r == [] || (!IsSpace(r[0]) && !IsSpace(r[|r| - 1]))
  {
    var l := StripLeading(s);
    var r := StripTrailing(l);
    assert r == s[|s| - |l|..|s| - |l| + |r|];
    r
  }

  /** Stripping text that neither starts nor ends with whitespace changes nothing. */
  lemma StripUnchanged(s: string)
    requires s == [] || (!IsSpace(s[0]) && !IsSpace(s[|s| - 1]))
    ensures Strip(s) == s
  {
  }

  /**
   * The stripped slice is determined by its ends: a non-empty slice that
   * starts and ends with non-whitespace and has only whitespace around it is
   * what `strip()` returns.
   */
  lemma StripUnique(s: string, i: int, j: int)
    requires 0 <= i < j <= |s|
    requires !IsSpace(s[i]) && !IsSpace(s[j - 1])
    requires forall k :: 0 <= k < i ==> IsSpace(s[k])
    requires forall k :: j <= k < |s| ==> IsSpace(s[k])
    ensures Strip(s) == s[i..j]
  {
    StripInTwoSteps(s);
    StripLeadingAt(s, i);
    StripTrailingAt(s, i, j);
  }

  /** Stripping is stripping the front, then the back. */
  lemma StripInTwoSteps(s: string)
    ensures Strip(s) == StripTrailing(StripLeading(s))
  {
  }

  /** Stripping the front stops at the first character that is not whitespace. */
  lemma {:induction false} StripLeadingAt(s: string, i: nat)
    requires i < |s| && !IsSpace(s[i])
    requires forall k :: 0 <= k < i ==> IsSpace(s[k])
    ensures StripLeading(s) == s[i..]
  {
    if i > 0 {
      assert IsSpace(s[0]);
      assert s[1..][i - 1..] == s[i..];
      StripLeadingAt(s[1..], i - 1);
    }
  }

  /** Stripping the back of `s[i..]` stops at the last character that is not whitespace. */
  lemma {:induction false} StripTrailingAt(s: string, i: nat, j: nat)
    requires i < j <= |s| && !IsSpace(s[j - 1])
    requires forall k :: j <= k < |s| ==> IsSpace(s[k])
    ensures StripTrailing(s[i..]) == s[i..j]
    decreases |s|
  {
    if j < |s| {
      assert IsSpace(s[|s| - 1]);
      var u := s[..|s| - 1];
      assert s[i..][..|s| - i - 1] == u[i..];
      assert u[i..j] == s[i..j];
      StripTrailingAt(u, i, j);
    }
  }

  /** `sep.join(parts)`; the inverse of `Split`. */
  function Join(parts: seq<string>, sep: char): string
  {
    if |parts| == 0 then ""
    else if |parts| == 1 then parts[0]
    else parts[0] + [sep] + Join(parts[1..], sep)
  }

  /**
   * `s.split(sep)` with an explicit separator: the pieces between separators,
   * one more piece than there are separators, so never an empty list.
   */
  function Split(s: string, sep: char): (r: seq<string>)
    ensures |r| >= 1
    ensures forall i :: 0 <= i < |r| ==> sep !in r[i]
    ensures Join(r, sep) == s
  {
    if |s| == 0 then [""]
    else
      var rest := Split(s[1..], sep);
      if s[0] == sep then
        assert s == [sep] + s[1..];
        [""] + rest
      else
        var r := [[s[0]] + rest[0]] + rest[1..];
        assert r[1..] == rest[1..];
        assert s == [s[0]] + s[1..];
        r
  }

  /** A piece without separators splits to itself. */
  lemma {:induction false} SplitNoSeparator(p: string, sep: char)
    requires sep !in p
    ensures Split(p, sep) == [p]
  {
    if |p| > 0 {
      SplitNoSeparator(p[1..], sep);
      assert [p[0]] + p[1..] == p;
    }
  }

  /** Splitting stops at the first separator. */
  lemma {:induction false} SplitAtSeparator(p: string, sep: char, rest: string)
    requires sep !in p
    ensures Split(p + [sep] + rest, sep) == [p] + Split(rest, sep)
  {
    var s := p + [sep] + rest;
    if |p| == 0 {
      assert s[1..] == rest;
    } else {
      assert s[1..] == p[1..] + [sep] + rest;
      SplitAtSeparator(p[1..], sep, rest);
      assert [p[0]] + p[1..] == p;
    }
  }

  /** Joining pieces that hold no separator and splitting again gives the pieces back. */
  lemma {:induction false} SplitJoin(parts: seq<string>, sep: char)
    requires |parts| >= 1
    requires forall i :: 0 <= i < |parts| ==> sep !in parts[i]
    ensures Split(Join(parts, sep), sep) == parts
  {
    if |parts| == 1 {
      SplitNoSeparator(parts[0], sep);
    } else {
      SplitJoin(parts[1..], sep);
      SplitAtSeparator(parts[0], sep, Join(parts[1..], sep));
      assert [parts[0]] + parts[1..] == parts;
    }
  }

  /** Text ending in a separator splits into at least two pieces, the last one empty. */
  lemma {:induction false} SplitTrailingSeparator(s: string, sep: char)
    ensures var r := Split(s + [sep], sep); |r| >= 2 && r[|r| - 1] == ""
  {
    if |s| > 0 {
      assert (s + [sep])[1..] == s[1..] + [sep];
      SplitTrailingSeparator(s[1..], sep);
    }
  }

  /** The first and last characters of a join of at least two pieces. */
  lemma {:induction false} JoinEnds(parts: seq<string>, sep: char)
    requires |parts| >= 2
    ensures |Join(parts, sep)| > 0
    ensures Join(parts, sep)[0] == (if parts[0] == [] then sep else parts[0][0])
    ensures var j := Join(parts, sep); var l := parts[|parts| - 1];
            j[|j| - 1] == (if l == [] then sep else l[|l| - 1])
  {
    if |parts| > 2 {
      JoinEnds(parts[1..], sep);
    }
  }

  predicate IsDigit(c: char) { '0' <= c <= '9' }

  function DigitValue(c: char): nat
    requires IsDigit(c)
  {
    (c as int) - ('0' as int)
  }

  function DigitChar(d: nat): (c: char)
    requires d < 10
    ensures IsDigit(c) && DigitValue(c) == d
  {
    (('0' as int) + d) as char
  }

  /**
   * The body of a base-10 `int()` literal: ASCII digits, where single
   * underscores may separate digits.
   */
  predicate IsDigitRun(s: string) {
    && |s| > 0
    && IsDigit(s[0])
    && IsDigit(s[|s| - 1])
    && (forall i :: 0 <= i < |s| ==> IsDigit(s[i]) || s[i] == '_')
    && (forall i :: 0 <= i < |s| - 1 ==> !DoubleUnderscoreAt(s, i))
  }

  /** Two underscores in a row start at index `i`, which `int()` refuses. */
  predicate DoubleUnderscoreAt(s: string, i: int)
    requires 0 <= i < |s| - 1
  {
    s[i] == '_' && s[i + 1] == '_'
  }

  /** The number a run of digits denotes, underscores skipped. */
  function DigitsValue(s: string): nat
    requires forall i :: 0 <= i < |s| ==> IsDigit(s[i]) || s[i] == '_'
  {
    if |s| == 0 then 0
    else if s[|s| - 1] == '_' then DigitsValue(s[..|s| - 1])
    else DigitsValue(s[..|s| - 1]) * 10 + DigitValue(s[|s| - 1])
  }

  /** An `int()` literal without its padding: an optional sign, then a digit run. */
  predicate IsSignedRun(t: string) {
    IsDigitRun(t) || (|t| > 0 && (t[0] == '-' || t[0] == '+') && IsDigitRun(t[1..]))
  }

  /** The number a signed run denotes. */
  function SignedValue(t: string): int
    requires IsSignedRun(t)
  {
    if IsDigitRun(t) then DigitsValue(t)
    else if t[0] == '-' then -(DigitsValue(t[1..]) as int)
    else DigitsValue(t[1..])
  }

  /**
   * `int(s)`: `s` with its whitespace stripped must be a signed run, and no
   * character of `s` may be whitespace that `int()` does not skip; anything
   * else is the `ValueError` case, `None` here. A signed run holds no
   * whitespace, so the second condition is about the stripped padding only.
   */
  function ParseInt(s: string): (r: Option<int>)
    ensures r.Some? ==> exists i :: 0 <= i < |s| && IsDigit(s[i])
  {
    var t := Strip(s);
    if IsSignedRun(t) && forall k :: 0 <= k < |s| ==> IsSpace(s[k]) ==> IsIntSpace(s[k]) then
      assert if IsDigitRun(t) then IsDigit(t[0]) else IsDigit(t[1..][0]);
      Some(SignedValue(t))
    else None
  }

  /** `s[i..j]` is a signed run with nothing but characters `int()` skips around it. */
  predicate IntLiteralAt(s: string, i: int, j: int) {
    && 0 <= i <= j <= |s|
    && IsSignedRun(s[i..j])
    && (forall k :: 0 <= k < i ==> IsIntSpace(s[k]))
    && (forall k :: j <= k < |s| ==> IsIntSpace(s[k]))
  }

  /**
   * The texts `int()` accepts are exactly those holding a signed run padded
   * only with characters `int()` skips, and the value is that run's.
   */
  lemma ParseIntAccepts(s: string)
    ensures ParseInt(s).Some? <==> exists i, j :: IntLiteralAt(s, i, j)
    ensures forall i, j :: IntLiteralAt(s, i, j) ==> ParseInt(s) == Some(SignedValue(s[i..j]))
  {
    if ParseInt(s).Some? {
      AcceptedHasLiteral(s);
    }
    forall i, j | IntLiteralAt(s, i, j)
      ensures ParseInt(s) == Some(SignedValue(s[i..j]))
    {
      LiteralIsAccepted(s, i, j);
    }
  }

  /** An accepted text is a signed run padded with characters `int()` skips. */
  lemma AcceptedHasLiteral(s: string)
    requires ParseInt(s).Some?
    ensures exists i, j :: IntLiteralAt(s, i, j)
  {
    var t := Strip(s);
    var a, b :| 0 <= a <= b <= |s| && t == s[a..b]
                && (forall k :: 0 <= k < a ==> IsSpace(s[k]))
                && (forall k :: b <= k < |s| ==> IsSpace(s[k]));
    assert IntLiteralAt(s, a, b);
  }

  /** A padded literal strips to the literal and holds no whitespace `int()` refuses. */
  lemma LiteralIsAccepted(s: string, i: int, j: int)
    requires IntLiteralAt(s, i, j)
    ensures ParseInt(s) == Some(SignedValue(s[i..j]))
  {
    var t := s[i..j];
    SignedRunHasNoSpace(t);
    assert forall k :: 0 <= k < i ==> IsSpace(s[k]);
    assert forall k :: j <= k < |s| ==> IsSpace(s[k]);
    assert t[0] == s[i] && t[j - i - 1] == s[j - 1];
    StripUnique(s, i, j);
    assert forall k :: i <= k < j ==> !IsSpace(s[k]) by {
      forall k | i <= k < j
        ensures !IsSpace(s[k])
      {
        assert s[k] == t[k - i];
      }
    }
    assert forall k :: 0 <= k < |s| ==> IsSpace(s[k]) ==> IsIntSpace(s[k]);
  }

  /** No character of a signed run is whitespace. */
  lemma SignedRunHasNoSpace(t: string)
    requires IsSignedRun(t)
    ensures |t| > 0
    ensures forall k :: 0 <= k < |t| ==> !IsSpace(t[k])
  {
    forall k | 0 <= k < |t|
      ensures !IsSpace(t[k])
    {
      if !IsDigitRun(t) && k > 0 {
        assert t[k] == t[1..][k - 1];
      }
    }
  }

  /**
   * Padding, an optional sign and a digit run, put together, read as the
   * run's value, negated after a minus sign.
   */
  lemma ParseIntPadded(pre: string, sign: string, run: string, post: string)
    requires forall k :: 0 <= k < |pre| ==> IsIntSpace(pre[k])
    requires forall k :: 0 <= k < |post| ==> IsIntSpace(post[k])
    requires sign == "" || sign == "-" || sign == "+"
    requires IsDigitRun(run)
    ensures ParseInt(pre + sign + run + post) ==
            Some(if sign == "-" then -(DigitsValue(run) as int) else DigitsValue(run))
  {
    var core := sign + run;
    SignedRunOf(sign, run);
    var s := pre + core + post;
    ConcatRegroup(pre, sign, run, post);
    PaddedLiteral(pre, core, post);
    LiteralIsAccepted(s, |pre|, |pre| + |core|);
  }

  /** A signed run with padding `int()` skips on both sides sits between the pads. */
  lemma PaddedLiteral(pre: string, core: string, post: string)
    requires IsSignedRun(core)
    requires forall k :: 0 <= k < |pre| ==> IsIntSpace(pre[k])
    requires forall k :: 0 <= k < |post| ==> IsIntSpace(post[k])
    ensures (pre + core + post)[|pre|..|pre| + |core|] == core
    ensures IntLiteralAt(pre + core + post, |pre|, |pre| + |core|)
  {
    var s := pre + core + post;
    var j := |pre| + |core|;
    assert s[|pre|..j] == core;
    forall k | 0 <= k < |pre|
      ensures IsIntSpace(s[k])
    {
      assert s[k] == pre[k];
    }
    forall k | j <= k < |s|
      ensures IsIntSpace(s[k])
    {
      assert s[k] == post[k - j];
    }
  }

  /** An optional sign before a digit run makes a signed run of the expected value. */
  lemma SignedRunOf(sign: string, run: string)
    requires sign == "" || sign == "-" || sign == "+"
    requires IsDigitRun(run)
    ensures IsSignedRun(sign + run)
    ensures SignedValue(sign + run) == if sign == "-" then -(DigitsValue(run) as int) else DigitsValue(run)
  {
    if sign == "" {
      assert sign + run == run;
    } else {
      assert (sign + run)[1..] == run;
      assert !IsDigit((sign + run)[0]);
    }
  }

  /** `str(n)` for a natural number: its decimal digits, most significant first. */
  function NatToString(n: nat): (r: string)
    ensures |r| > 0
    ensures forall i :: 0 <= i < |r| ==> IsDigit(r[i])
  {
    if n < 10 then [DigitChar(n)] else NatToString(n / 10) + [DigitChar(n % 10)]
  }

  /** `str(n)` for an integer: a minus sign before the digits of a negative number. */
  function IntToString(n: int): string
  {
    if n < 0 then "-" + NatToString(-n) else NatToString(n)
  }

  lemma {:induction false} NatToStringValue(n: nat)
    ensures DigitsValue(NatToString(n)) == n
  {
    var s := NatToString(n);
    if n >= 10 {
      NatToStringValue(n / 10);
      assert s[..|s| - 1] == NatToString(n / 10);
    }
  }

  /** `int(str(n)) == n`: the decimal text of an integer parses back to it. */
  lemma IntRoundTrip(n: int)
    ensures ParseInt(IntToString(n)) == Some(n)
  {
    if n < 0 {
      NegativeRoundTrip(n);
    } else {
      NatRoundTrip(n);
    }
  }

  /** A non-negative number prints as a bare digit run. */
  lemma NatRoundTrip(n: nat)
    ensures ParseInt(IntToString(n)) == Some(n)
  {
    var d := NatToString(n);
    assert IsDigitRun(d) && DigitsValue(d) == n by {
      NatToStringValue(n);
    }
    assert IntToString(n) == "" + d;
    SignedDigitsParse("", d);
  }

  /** A negative number prints as `-` followed by the digits of its magnitude. */
  lemma NegativeRoundTrip(n: int)
    requires n < 0
    ensures ParseInt(IntToString(n)) == Some(n)
  {
    var d := NatToString(-n);
    assert IsDigitRun(d) && DigitsValue(d) == -n by {
      NatToStringValue(-n);
    }
    assert IntToString(n) == "-" + d;
    SignedDigitsParse("-", d);
  }

  /** An unpadded signed run reads as its value. */
  lemma SignedDigitsParse(sign: string, run: string)
    requires sign == "" || sign == "-"
    requires IsDigitRun(run)
    ensures ParseInt(sign + run) == Some(if sign == "-" then -(DigitsValue(run) as int) else DigitsValue(run))
  {
    assert "" + sign + run + "" == sign + run;
    ParseIntPadded("", sign, run, "");
  }

}
