/**
 * The few Python string builtins the plugin relies on: `str.strip`,
 * `str.split` on one separator character, `sep.join`, `str.isdigit`
 * and `str(int)` / `int(str)` for decimal integers.
 */
module Strings {
  import opened Wrappers

  /** The characters Python's `str.isspace` accepts, which `str.strip()` removes. */
  predicate IsSpace(c: char) {
    || ('\t' <= c <= '\r')
    || ('\U{1C}' <= c <= ' ')
    || c == '\U{85}' || c == '\U{A0}' || c == '\U{1680}'
    || ('\U{2000}' <= c <= '\U{200A}')
    || c == '\U{2028}' || c == '\U{2029}' || c == '\U{202F}' || c == '\U{205F}' || c == '\U{3000}'
  }

  /** Every character of `s` from `lo` up to `hi` is whitespace. */
  predicate AllSpace(s: string, lo: int, hi: int)
    requires 0 <= lo <= hi <= |s|
  {
    forall k :: lo <= k < hi ==> IsSpace(s[k])
  }

  /** A string of whitespace only (the empty string included): Python's `not s.strip()`. */
  predicate IsBlank(s: string) {
    AllSpace(s, 0, |s|)
  }

  predicate IsDigit(c: char) {
    '0' <= c <= '9'
  }

  /** Python's `s.isdigit()` restricted to ASCII digits: false on the empty string. */
  predicate IsDigits(s: string)
    ensures IsDigits(s) ==> s != [] && !IsSpace(s[0]) && !IsBlank(s) && forall i :: 0 <= i < |s| ==> !IsSpace(s[i])
  {
    |s| > 0 && forall i :: 0 <= i < |s| ==> IsDigit(s[i])
  }

  /** Where the whitespace run starting at `i` ends (how `strip()` skips leading whitespace). */
  function SkipSpace(s: string, i: nat): (r: nat)
    requires i <= |s|
    ensures i <= r <= |s| && AllSpace(s, i, r)
    ensures r == |s| || !IsSpace(s[r])
    decreases |s| - i
  {
    if i < |s| && IsSpace(s[i]) then SkipSpace(s, i + 1) else i
  }

  /** Where the whitespace run ending at `j` starts, not going below `lo` (trailing whitespace). */
  function SkipSpaceBack(s: string, lo: nat, j: nat): (r: nat)
    requires lo <= j <= |s|
    ensures lo <= r <= j && AllSpace(s, r, j)
    ensures r == lo || !IsSpace(s[r - 1])
  {
    if lo < j && IsSpace(s[j - 1]) then SkipSpaceBack(s, lo, j - 1) else j
  }

  /**
   * `s.strip()`: `s` without its leading and trailing whitespace. Only
   * whitespace is cut on either side; the result is empty exactly when `s`
   * is blank, and otherwise starts and ends with a non-whitespace character.
   */
  function Strip(s: string): (r: string)
    ensures var i := SkipSpace(s, 0); var j := SkipSpaceBack(s, i, |s|);
      r == s[i..j] && AllSpace(s, 0, i) && AllSpace(s, j, |s|)
    ensures r == [] <==> IsBlank(s)
    ensures r == [] || (!IsSpace(r[0]) && !IsSpace(r[|r| - 1]))
  {
    var i := SkipSpace(s, 0);
    var j := SkipSpaceBack(s, i, |s|);
    assert j == i ==> IsBlank(s);
    s[i..j]
  }

  /** Every character of `Strip(s)` occurs in `s`. */
  lemma StripChars(s: string, c: char)
    requires c in Strip(s)
    ensures c in s
  {
    var i := SkipSpace(s, 0);
    var k :| i <= k < SkipSpaceBack(s, i, |s|) && s[k] == c;
  }

  /** Whitespace in front of a stripped, non-empty string is exactly what `strip` removes. */
  lemma StripPadded(pre: string, x: string)
    requires IsBlank(pre)
    requires x != [] && !IsSpace(x[0]) && !IsSpace(x[|x| - 1])
    ensures Strip(pre + x) == x
  {
    var s := pre + x;
    SkipPadding(pre, x, 0);
    assert SkipSpaceBack(s, |pre|, |s|) == |s|;
    assert s[|pre|..] == x;
  }

  lemma {:induction false} SkipPadding(pre: string, x: string, i: nat)
    requires IsBlank(pre) && i <= |pre|
    requires x != [] && !IsSpace(x[0])
    ensures SkipSpace(pre + x, i) == |pre|
    decreases |pre| - i
  {
    var s := pre + x;
    if i < |pre| {
      assert s[i] == pre[i];
      SkipPadding(pre, x, i + 1);
    } else {
      assert s[i] == x[0];
    }
  }

  /**
   * `s.split(sep)`: the pieces of `s` between occurrences of `sep`, in order.
   * There is always at least one piece (`"".split(",") == [""]`).
   */
  function Split(s: string, sep: char): (r: seq<string>)
    ensures |r| >= 1
  {
    if s == [] then [""]
    else
      var rest := Split(s[1..], sep);
      if s[0] == sep then [""] + rest
      else [[s[0]] + rest[0]] + rest[1..]
  }

  /** No piece of a split holds the separator. */
  lemma {:induction false} SplitPiecesFree(s: string, sep: char)
    ensures forall i :: 0 <= i < |Split(s, sep)| ==> sep !in Split(s, sep)[i]
  {
    if s != [] {
      SplitPiecesFree(s[1..], sep);
      var rest := Split(s[1..], sep);
      if s[0] != sep {
        assert sep !in [s[0]] + rest[0];
      }
    }
  }

  /** The total length of the strings of `xs`. */
  function TotalLength(xs: seq<string>): nat
  {
    if xs == [] then 0 else |xs[0]| + TotalLength(xs[1..])
  }

  /** `sep.join(xs)`. */
  function JoinWith(xs: seq<string>, sep: string): string
  {
    if |xs| == 0 then ""
    else if |xs| == 1 then xs[0]
    else xs[0] + sep + JoinWith(xs[1..], sep)
  }

  /** A join is as long as its strings together plus one separator between each two. */
  lemma {:induction false} JoinWithLength(xs: seq<string>, sep: string)
    requires xs != []
    ensures |JoinWith(xs, sep)| == TotalLength(xs) + (|xs| - 1) * |sep|
  {
    if |xs| >= 2 {
      JoinWithLength(xs[1..], sep);
    }
  }

  /** An empty first piece puts the separator in front of the join of the rest. */
  lemma JoinConsEmpty(rest: seq<string>, sep: char)
    requires |rest| >= 1
    ensures JoinWith([""] + rest, [sep]) == [sep] + JoinWith(rest, [sep])
  {
    assert ([""] + rest)[1..] == rest;
  }

  /** A character put in front of the first piece goes in front of the join. */
  lemma JoinConsChar(c: char, rest: seq<string>, sep: char)
    requires |rest| >= 1
    ensures JoinWith([[c] + rest[0]] + rest[1..], [sep]) == [c] + JoinWith(rest, [sep])
  {
    if |rest| == 1 {
      assert [[c] + rest[0]] + rest[1..] == [[c] + rest[0]];
    } else {
      JoinConsCharLong(c, rest, sep);
    }
  }

  lemma JoinConsCharLong(c: char, rest: seq<string>, sep: char)
    requires |rest| >= 2
    ensures JoinWith([[c] + rest[0]] + rest[1..], [sep]) == [c] + JoinWith(rest, [sep])
  {
    var r := [[c] + rest[0]] + rest[1..];
    var tail := JoinWith(rest[1..], [sep]);
    calc {
      JoinWith(r, [sep]);
      { assert |r| >= 2 && r[0] == [c] + rest[0] && r[1..] == rest[1..]; }
      ([c] + rest[0]) + [sep] + tail;
      [c] + (rest[0] + [sep] + tail);
    }
  }

  /** Joining the pieces of a split with the separator gives back the string. */
  lemma {:induction false} JoinSplit(s: string, sep: char)
    ensures JoinWith(Split(s, sep), [sep]) == s
  {
    if s != [] {
      var c, t := s[0], s[1..];
      JoinSplit(t, sep);
      assert s == [c] + t;
      SplitCons(c, t, sep);
      if c == sep {
        JoinConsEmpty(Split(t, sep), sep);
      } else {
        JoinConsChar(c, Split(t, sep), sep);
      }
    }
  }

  /** A string without the separator is a single piece. */
  lemma {:induction false} SplitWithoutSep(s: string, sep: char)
    requires sep !in s
    ensures Split(s, sep) == [s]
  {
    if s != [] {
      SplitWithoutSep(s[1..], sep);
      assert [s[0]] + s[1..] == s;
    }
  }

  /** One step of `Split`: the first character either closes a piece or joins the first one. */
  lemma SplitCons(c: char, t: string, sep: char)
    ensures Split([c] + t, sep)
      == if c == sep then [""] + Split(t, sep) else [[c] + Split(t, sep)[0]] + Split(t, sep)[1..]
  {
    assert ([c] + t)[0] == c && ([c] + t)[1..] == t;
  }

  /** A leading separator closes an empty piece in front of the pieces of the rest. */
  lemma SplitConsSep(t: string, sep: char, ra: seq<string>, rb: seq<string>)
    requires Split(t, sep) == ra + rb
    ensures Split([sep] + t, sep) == ([""] + ra) + rb
  {
    SplitCons(sep, t, sep);
  }

  /** Any other leading character joins the first of the pieces of the rest. */
  lemma SplitConsChar(c: char, t: string, sep: char, ra: seq<string>, rb: seq<string>)
    requires c != sep && |ra| >= 1
    requires Split(t, sep) == ra + rb
    ensures Split([c] + t, sep) == ([[c] + ra[0]] + ra[1..]) + rb
  {
    SplitCons(c, t, sep);
    assert (ra + rb)[0] == ra[0] && (ra + rb)[1..] == ra[1..] + rb;
  }

  /** Splitting at one occurrence of the separator splits the pieces there. */
  lemma {:induction false} SplitAt(a: string, b: string, sep: char)
    ensures Split(a + [sep] + b, sep) == Split(a, sep) + Split(b, sep)
  {
    if a == [] {
      SplitCons(sep, b, sep);
      assert a + [sep] + b == [sep] + b;
    } else {
      var c, t := a[0], a[1..] + [sep] + b;
      SplitAt(a[1..], b, sep);
      var ra, rb := Split(a[1..], sep), Split(b, sep);
      assert a + [sep] + b == [c] + t;
      assert a == [c] + a[1..];
      SplitCons(c, a[1..], sep);
      if c == sep {
        SplitConsSep(t, sep, ra, rb);
      } else {
        SplitConsChar(c, t, sep, ra, rb);
      }
    }
  }

  /** Splitting a join gives back the joined pieces when none holds the separator. */
  lemma {:induction false} SplitJoin(xs: seq<string>, sep: char)
    requires |xs| >= 1
    requires forall i :: 0 <= i < |xs| ==> sep !in xs[i]
    ensures Split(JoinWith(xs, [sep]), sep) == xs
  {
    if |xs| == 1 {
      SplitWithoutSep(xs[0], sep);
    } else {
      var rest := JoinWith(xs[1..], [sep]);
      assert JoinWith(xs, [sep]) == xs[0] + [sep] + rest;
      assert forall i :: 0 <= i < |xs[1..]| ==> sep !in xs[1..][i] by {
        forall i | 0 <= i < |xs[1..]| ensures sep !in xs[1..][i] {
          assert xs[1..][i] == xs[i + 1];
        }
      }
      SplitJoin(xs[1..], sep);
      SplitAt(xs[0], rest, sep);
      assert sep !in xs[0];
      SplitWithoutSep(xs[0], sep);
      assert [xs[0]] + xs[1..] == xs;
    }
  }

  function DigitChar(d: nat): (c: char)
    requires d < 10
    ensures IsDigit(c)
  {
    ('0' as int + d) as char
  }

  function DigitValue(c: char): (d: nat)
    requires IsDigit(c)
    ensures d < 10
  {
    c as int - '0' as int
  }

  /** `str(n)` for a natural number: decimal digits without a leading zero. */
  function NatToDecimal(n: nat): (r: string)
    ensures IsDigits(r)
    ensures r[0] == '0' ==> r == "0"
    ensures r[0] == '0' <==> n == 0
  {
    if n < 10 then [DigitChar(n)] else NatToDecimal(n / 10) + [DigitChar(n % 10)]
  }

  /** `int(s)` for a string of decimal digits. */
  function DecimalValue(s: string): nat
    requires forall i :: 0 <= i < |s| ==> IsDigit(s[i])
  {
    if s == [] then 0 else DecimalValue(s[..|s| - 1]) * 10 + DigitValue(s[|s| - 1])
  }

  lemma {:induction false} DecimalRoundTrip(n: nat)
    ensures DecimalValue(NatToDecimal(n)) == n
  {
    if n >= 10 {
      DecimalRoundTrip(n / 10);
      var s := NatToDecimal(n);
      assert s[..|s| - 1] == NatToDecimal(n / 10);
      assert DigitValue(DigitChar(n % 10)) == n % 10;
    }
  }

  /**
   * `str(i)` for any integer: the digits of a non-negative value without a
   * leading zero, or a minus sign in front of the digits of a negative one.
   */
  function IntToDecimal(i: int): (r: string)
    ensures r != []
    ensures forall k :: 0 <= k < |r| ==> r[k] == '-' || IsDigit(r[k])
    ensures i >= 0 ==> IsDigits(r) && (r[0] == '0' ==> r == "0")
    ensures i < 0 ==> |r| >= 2 && r[0] == '-' && IsDigits(r[1..]) && r[1] != '0'
  {
    if i < 0 then
      var d := NatToDecimal(-i);
      assert ("-" + d)[1..] == d;
      "-" + d
    else NatToDecimal(i)
  }

  /** `int(s)` on an optional sign and decimal digits; `None` where Python raises ValueError. */
  function ParseInt(s: string): Option<int>
  {
    if |s| > 1 && s[0] == '-' && IsDigits(s[1..]) then Some(-(DecimalValue(s[1..]) as int))
    else if IsDigits(s) then Some(DecimalValue(s))
    else None
  }

  lemma ParseIntRoundTrip(i: int)
    ensures ParseInt(IntToDecimal(i)) == Some(i)
  {
    if i < 0 {
      var s := IntToDecimal(i);
      assert s[1..] == NatToDecimal(-i);
      DecimalRoundTrip(-i);
    } else {
      DecimalRoundTrip(i);
    }
  }
}
