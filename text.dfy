/**
 * The handful of Python string operations the predictors rely on:
 * str.strip(), str.startswith(), str.split(sep), sep.join(parts) and int(s).
 */
module Text {
  import opened Wrappers

  /** The characters Python's str.strip() removes when called without arguments. */
  predicate IsSpace(c: char) {
    || c == ' '
    || ('\t' <= c <= '\r')
    || ('\U{1c}' <= c <= '\U{1f}')
    || c == '\U{85}' || c == '\U{a0}' || c == '\U{1680}'
    || ('\U{2000}' <= c <= '\U{200a}')
    || c == '\U{2028}' || c == '\U{2029}' || c == '\U{202f}' || c == '\U{205f}' || c == '\U{3000}'
  }

  /** Where the leading whitespace of s[i..] ends: the first index from i on that is not whitespace, or |s|. */
  function LeadingEnd(s: string, i: nat): (n: nat)
    requires i <= |s|
    ensures i <= n <= |s|
    ensures forall k :: i <= k < n ==> IsSpace(s[k])
    ensures n < |s| ==> !IsSpace(s[n])
    decreases |s| - i
  {
    if i < |s| && IsSpace(s[i]) then LeadingEnd(s, i + 1) else i
  }

  /** Where the trailing whitespace of s[lo..j] starts: the least m from lo on with only whitespace in s[m..j]. */
  function TrailingStart(s: string, lo: nat, j: nat): (m: nat)
    requires lo <= j <= |s|
    ensures lo <= m <= j
    ensures forall k :: m <= k < j ==> IsSpace(s[k])
    ensures lo < m ==> !IsSpace(s[m - 1])
    decreases j - lo
  {
    if lo < j && IsSpace(s[j - 1]) then TrailingStart(s, lo, j - 1) else j
  }

  /**
   * r is the infix s[i..j] of s and every character of s outside it is
   * whitespace: r is s with only surrounding whitespace removed.
   */
  predicate InfixWithin(s: string, r: string, i: nat, j: nat) {
    && i <= j <= |s| && r == s[i..j]
    && (forall k :: 0 <= k < i ==> IsSpace(s[k]))
    && (forall k :: j <= k < |s| ==> IsSpace(s[k]))
  }

  /**
   * str.strip(): s without its leading and trailing whitespace, so the result
   * neither starts nor ends with whitespace.
   */
  function Strip(s: string): (r: string)
    ensures r == [] || (!IsSpace(r[0]) && !IsSpace(r[|r| - 1]))
    ensures forall c :: c in r ==> c in s
    ensures exists i: nat, j: nat :: InfixWithin(s, r, i, j)
  {
    var i := LeadingEnd(s, 0);
    var j := TrailingStart(s, i, |s|);
    assert InfixWithin(s, s[i..j], i, j);
    s[i..j]
  }

  /** Stripping is idempotent: a string without surrounding whitespace is left alone. */
  lemma StripIdempotent(s: string)
    requires s == [] || (!IsSpace(s[0]) && !IsSpace(s[|s| - 1]))
    ensures Strip(s) == s
  {
    assert LeadingEnd(s, 0) == 0;
    assert TrailingStart(s, 0, |s|) == |s|;
    assert s[0..|s|] == s;
  }

  /** str.startswith(prefix). */
  predicate StartsWith(s: string, prefix: string) {
    |prefix| <= |s| && s[..|prefix|] == prefix
  }

  /**
   * str.split(sep) with a one-character separator: the maximal runs between
   * separators, so there is always one more part than there are separators.
   */
  function Split(s: string, sep: char): (parts: seq<string>)
    ensures |parts| >= 1
    decreases |s|
  {
    if s == [] then [""]
    else
      var rest := Split(s[1..], sep);
      if s[0] == sep then [""] + rest
      else [[s[0]] + rest[0]] + rest[1..]
  }

  /** No part of a split holds the separator, so the parts can be joined and split again. */
  lemma {:induction false} SplitPartsFree(s: string, sep: char)
    ensures forall k :: 0 <= k < |Split(s, sep)| ==> sep !in Split(s, sep)[k]
    decreases |s|
  {
    if s != [] {
      var rest := Split(s[1..], sep);
      SplitPartsFree(s[1..], sep);
      if s[0] != sep {
        assert sep !in [s[0]] + rest[0];
      }
    }
  }

  /** sep.join(parts). */
  function Join(parts: seq<string>, sep: string): string
    decreases |parts|
  {
    if parts == [] then ""
    else if |parts| == 1 then parts[0]
    else parts[0] + sep + Join(parts[1..], sep)
  }

  /** Joining the parts of a split with the same separator gives the original string back. */
  lemma {:induction false} JoinSplit(s: string, sep: char)
    ensures Join(Split(s, sep), [sep]) == s
    decreases |s|
  {
    if s != [] {
      var rest := Split(s[1..], sep);
      JoinSplit(s[1..], sep);
      if s[0] == sep {
        assert Split(s, sep) == [""] + rest;
        assert Join([""] + rest, [sep]) == "" + [sep] + Join(rest, [sep]);
        assert s == [s[0]] + s[1..];
      } else {
        var parts := [[s[0]] + rest[0]] + rest[1..];
        assert Split(s, sep) == parts;
        if |rest| == 1 {
          assert Join(parts, [sep]) == [s[0]] + rest[0];
          assert s == [s[0]] + s[1..];
        } else {
          assert parts[1..] == rest[1..];
          assert Join(rest, [sep]) == rest[0] + [sep] + Join(rest[1..], [sep]);
          assert Join(parts, [sep]) == [s[0]] + rest[0] + [sep] + Join(rest[1..], [sep]);
          assert s == [s[0]] + s[1..];
        }
      }
    }
  }

  /**
   * x is the second sep-separated field of s: s is a first field without the
   * separator, the separator, x without the separator, and then either nothing
   * or the remaining fields after another separator.
   */
  predicate IsSecondField(s: string, sep: char, first: string, x: string, rest: string) {
    && s == first + [sep] + x + rest
    && sep !in first && sep !in x
    && (rest == [] || rest[0] == sep)
  }

  /** The second part of a split with at least two parts is the second field of the string. */
  lemma SecondPart(s: string, sep: char)
    requires |Split(s, sep)| > 1
    ensures exists first, rest :: IsSecondField(s, sep, first, Split(s, sep)[1], rest)
  {
    var parts := Split(s, sep);
    JoinSplit(s, sep);
    SplitPartsFree(s, sep);
    assert Join(parts, [sep]) == parts[0] + [sep] + Join(parts[1..], [sep]);
    var rest := if |parts| == 2 then "" else [sep] + Join(parts[2..], [sep]);
    assert parts[1..][1..] == parts[2..];
    assert Join(parts[1..], [sep]) == parts[1] + rest;
    assert s == parts[0] + [sep] + parts[1] + rest;
    assert IsSecondField(s, sep, parts[0], parts[1], rest);
  }

  lemma SplitCons(c: char, s: string, sep: char)
    requires c != sep
    ensures Split([c] + s, sep) == [[c] + Split(s, sep)[0]] + Split(s, sep)[1..]
  {
    assert ([c] + s)[1..] == s;
  }

  /** Splitting a separator-free prefix followed by more text extends the first part. */
  lemma {:induction false} SplitFreePrefix(p: string, t: string, sep: char)
    requires sep !in p
    ensures Split(p + t, sep) == [p + Split(t, sep)[0]] + Split(t, sep)[1..]
    decreases |p|
  {
    if p != [] {
      var parts, rest := Split(t, sep), Split(p[1..] + t, sep);
      assert p[0] in p;
      calc {
        Split(p + t, sep);
        { assert p + t == [p[0]] + (p[1..] + t); }
        Split([p[0]] + (p[1..] + t), sep);
        { SplitCons(p[0], p[1..] + t, sep); }
        [[p[0]] + rest[0]] + rest[1..];
        { SplitFreePrefix(p[1..], t, sep); }
        [[p[0]] + (p[1..] + parts[0])] + parts[1..];
        { assert [p[0]] + (p[1..] + parts[0]) == p + parts[0]; }
        [p + parts[0]] + parts[1..];
      }
    } else {
      var parts := Split(t, sep);
      assert p + t == t;
      assert p + parts[0] == parts[0];
      assert parts == [parts[0]] + parts[1..];
    }
  }

  /** Splitting a join of separator-free parts gives the parts back. */
  lemma {:induction false} SplitJoin(parts: seq<string>, sep: char)
    requires |parts| >= 1
    requires forall k :: 0 <= k < |parts| ==> sep !in parts[k]
    ensures Split(Join(parts, [sep]), sep) == parts
    decreases |parts|
  {
    if |parts| == 1 {
      SplitFreePrefix(parts[0], "", sep);
      assert parts[0] + "" == parts[0];
    } else {
      var tail := Join(parts[1..], [sep]);
      SplitJoin(parts[1..], sep);
      assert Join(parts, [sep]) == parts[0] + ([sep] + tail);
      assert Split([sep] + tail, sep) == [""] + parts[1..] by {
        assert ([sep] + tail)[1..] == tail;
      }
      SplitFreePrefix(parts[0], [sep] + tail, sep);
      assert parts[0] + "" == parts[0];
      assert parts == [parts[0]] + parts[1..];
    }
  }

  /** The tab-separated columns of a line after stripping, as `line.strip().split("\t")`. */
  function Fields(line: string): seq<string> {
    Split(Strip(line), '\t')
  }

  predicate IsDigit(c: char) {
    '0' <= c <= '9'
  }

  predicate AllDigits(s: string) {
    forall k :: 0 <= k < |s| ==> IsDigit(s[k])
  }

  /** The value of a string of decimal digits, most significant first. */
  function DigitsValue(s: string): nat
    requires AllDigits(s)
    decreases |s|
  {
    if s == [] then 0
    else DigitsValue(s[..|s| - 1]) * 10 + (s[|s| - 1] as int - '0' as int)
  }

  /**
   * int(s) on a plain decimal literal: an optional sign followed by at least one digit.
   * None stands for the ValueError Python raises on anything else.
   */
  function ParseInt(s: string): Option<int> {
    if |s| >= 2 && (s[0] == '-' || s[0] == '+') && AllDigits(s[1..]) then
      Some(if s[0] == '-' then -(DigitsValue(s[1..]) as int) else DigitsValue(s[1..]) as int)
    else if |s| >= 1 && AllDigits(s) then
      Some(DigitsValue(s))
    else
      None
  }

  /** The decimal digits of a natural number, without leading zeros. */
  function ShowNat(n: nat): (s: string)
    ensures |s| >= 1 && AllDigits(s)
    decreases n
  {
    if n < 10 then [('0' as int + n) as char]
    else ShowNat(n / 10) + [('0' as int + n % 10) as char]
  }

  /** str(x) for an integer. */
  function ShowInt(x: int): string {
    if x < 0 then "-" + ShowNat(-x) else ShowNat(x)
  }

  lemma {:induction false} DigitsOfShowNat(n: nat)
    ensures DigitsValue(ShowNat(n)) == n
    decreases n
  {
    if n >= 10 {
      var s := ShowNat(n);
      assert s[..|s| - 1] == ShowNat(n / 10);
      DigitsOfShowNat(n / 10);
    }
  }

  /** Every integer survives the trip through its decimal text: int(str(x)) == x. */
  lemma ParseShowInt(x: int)
    ensures ParseInt(ShowInt(x)) == Some(x)
  {
    if x < 0 {
      var digits := ShowNat(-x);
      var s := "-" + digits;
      assert ShowInt(x) == s;
      assert s[0] == '-' && s[1..] == digits && |s| >= 2;
      DigitsOfShowNat(-x);
      assert ParseInt(s) == Some(-(DigitsValue(digits) as int));
    } else {
      var s := ShowNat(x);
      assert ShowInt(x) == s;
      assert IsDigit(s[0]);
      DigitsOfShowNat(x);
      assert ParseInt(s) == Some(DigitsValue(s) as int);
    }
  }

  /** int(s) fails on the empty string and on any non-digit after the first character. */
  lemma ParseIntRejects(s: string, k: nat)
    requires s == [] || (0 < k < |s| && !IsDigit(s[k]))
    ensures ParseInt(s) == None
  {
    if s != [] {
      assert !IsDigit(s[1..][k - 1]);
    }
  }
}
