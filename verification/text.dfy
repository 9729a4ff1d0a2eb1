/** The pieces of Rust's string library the game relies on, written out:
    `str::split("+")`, `i32::to_string`, `<i32 as FromStr>::from_str` and
    `str::contains`. Strings are sequences of characters; every character the
    game produces is ASCII, so a character stands for one byte. */
module Text {
  import opened Prelude

  /** The separator between the two coordinates of a cell key. */
  const Separator: char := '+'

  // ---------------------------------------------------------------------------
  // Splitting at '+'
  // ---------------------------------------------------------------------------

  /** The parts of `s` between occurrences of '+', as Rust's `split("+")`
      yields them: a leading, trailing or doubled '+' produces an empty part,
      and even the empty string has one (empty) part. */
  function Split(s: string): (parts: seq<string>)
    ensures |parts| >= 1
    ensures forall k :: 0 <= k < |parts| ==> Separator !in parts[k]
    decreases |s|
  {
    if |s| == 0 then [""]
    else
      var rest := Split(s[1..]);
      if s[0] == Separator then [""] + rest
      else [[s[0]] + rest[0]] + rest[1..]
  }

  /** Glues `parts` back together with '+' between neighbours. */
  function Join(parts: seq<string>): string
    requires |parts| >= 1
    decreases |parts|
  {
    if |parts| == 1 then parts[0]
    else parts[0] + [Separator] + Join(parts[1..])
  }

  /** Splitting loses nothing: joining the parts gives back the input. */
  lemma {:induction false} JoinSplit(s: string)
    ensures Join(Split(s)) == s
    decreases |s|
  {
    if |s| > 0 {
      var rest := Split(s[1..]);
      JoinSplit(s[1..]);
      if s[0] == Separator {
        assert Split(s) == [""] + rest;
        assert ([""] + rest)[1..] == rest;
        assert s == [Separator] + s[1..];
      } else {
        var parts := [[s[0]] + rest[0]] + rest[1..];
        assert Split(s) == parts;
        if |rest| == 1 {
          assert s == [s[0]] + s[1..];
        } else {
          assert parts[1..] == rest[1..];
          assert Join(rest) == rest[0] + [Separator] + Join(rest[1..]);
          assert s == [s[0]] + s[1..];
        }
      }
    }
  }

  /** A string without '+' is a single part. */
  lemma {:induction false} SplitNoSeparator(a: string)
    requires Separator !in a
    ensures Split(a) == [a]
    decreases |a|
  {
    if |a| > 0 {
      assert Separator !in a[1..] by {
        forall k | 0 <= k < |a[1..]| ensures a[1..][k] != Separator {
          assert a[1..][k] == a[k + 1];
        }
      }
      SplitNoSeparator(a[1..]);
      assert [a[0]] + a[1..] == a;
    }
  }

  /** A '+'-free prefix followed by '+' is split off as the first part. */
  lemma {:induction false} SplitAfterPrefix(a: string, t: string)
    requires Separator !in a
    ensures Split(a + [Separator] + t) == [a] + Split(t)
    decreases |a|
  {
    var s := a + [Separator] + t;
    if |a| == 0 {
      assert s == [Separator] + t;
      assert s[1..] == t;
    } else {
      assert Separator !in a[1..] by {
        forall k | 0 <= k < |a[1..]| ensures a[1..][k] != Separator {
          assert a[1..][k] == a[k + 1];
        }
      }
      SplitAfterPrefix(a[1..], t);
      assert s[1..] == a[1..] + [Separator] + t;
      assert s[0] == a[0];
      assert [a[0]] + a[1..] == a;
    }
  }

  /** Joining '+'-free parts and splitting again gives back the parts. */
  lemma {:induction false} SplitJoin(parts: seq<string>)
    requires |parts| >= 1
    requires forall k :: 0 <= k < |parts| ==> Separator !in parts[k]
    ensures Split(Join(parts)) == parts
    decreases |parts|
  {
    if |parts| == 1 {
      SplitNoSeparator(parts[0]);
    } else {
      SplitJoin(parts[1..]);
      SplitAfterPrefix(parts[0], Join(parts[1..]));
      assert [parts[0]] + parts[1..] == parts;
    }
  }

  // ---------------------------------------------------------------------------
  // Decimal digits
  // ---------------------------------------------------------------------------

  predicate IsDigit(c: char) {
    '0' <= c <= '9'
  }

  predicate AllDigits(s: string) {
    forall k :: 0 <= k < |s| ==> IsDigit(s[k])
  }

  function DigitValue(c: char): nat
    requires IsDigit(c)
  {
    (c as int) - ('0' as int)
  }

  function DigitChar(d: nat): (c: char)
    requires d < 10
    ensures IsDigit(c) && DigitValue(c) == d
  {
    (('0' as int) + d) as char
  }

  /** The value of a run of decimal digits, most significant first. */
  function DigitsValue(s: string): nat
    requires AllDigits(s)
    decreases |s|
  {
    if |s| == 0 then 0
    else DigitsValue(s[..|s| - 1]) * 10 + DigitValue(s[|s| - 1])
  }

  /** The shortest decimal spelling of `n`. */
  function NatToString(n: nat): (s: string)
    ensures |s| >= 1 && AllDigits(s)
    ensures n >= 1 ==> s[0] != '0'
    decreases n
  {
    if n < 10 then [DigitChar(n)]
    else NatToString(n / 10) + [DigitChar(n % 10)]
  }

  /** Reading back the decimal spelling of `n` gives `n`. */
  lemma {:induction false} NatToStringRoundTrip(n: nat)
    ensures DigitsValue(NatToString(n)) == n
    decreases n
  {
    if n >= 10 {
      var s := NatToString(n);
      NatToStringRoundTrip(n / 10);
      assert s[..|s| - 1] == NatToString(n / 10);
      assert s[|s| - 1] == DigitChar(n % 10);
    }
  }

  /** `i32::to_string`: decimal, with a leading '-' for negative values. */
  function IntToString(i: int): (s: string)
    ensures |s| >= 1
    ensures Separator !in s
  {
    if i < 0 then "-" + NatToString(-i) else NatToString(i)
  }

  /** `<i32 as FromStr>::from_str`: an optional sign ('+' or '-') followed by
      at least one decimal digit, whose value fits in `i32`. Anything else
      (the empty string, a lone sign, a stray character, an overflow) is an
      error, shown here as `None`. */
  function ParseI32(s: string): (r: Option<int>)
    ensures r.Some? ==> IsI32(r.value)
  {
    if |s| == 0 then None
    else
      var negative := s[0] == '-';
      var digits := if s[0] == '-' || s[0] == '+' then s[1..] else s;
      if |digits| == 0 || !AllDigits(digits) then None
      else
        var v: int := if negative then -(DigitsValue(digits) as int) else DigitsValue(digits);
        if IsI32(v) then Some(v) else None
  }

  /** Every `i32` survives being printed and parsed again. */
  lemma ParseI32RoundTrip(i: int)
    requires IsI32(i)
    ensures ParseI32(IntToString(i)) == Some(i)
  {
    var s := IntToString(i);
    if i < 0 {
      NatToStringRoundTrip(-i);
      assert s[1..] == NatToString(-i);
    } else {
      NatToStringRoundTrip(i);
    }
  }

  // ---------------------------------------------------------------------------
  // Substring search
  // ---------------------------------------------------------------------------

  /** `str::contains`: whether `pat` occurs in `s` at some offset. */
  function Contains(s: string, pat: string): (r: bool)
    ensures r <==> exists i :: 0 <= i <= |s| - |pat| && pat <= s[i..]
    decreases |s|
  {
    if |s| < |pat| then false
    else if pat <= s then assert pat <= s[0..]; true
    else
      var tail := Contains(s[1..], pat);
      assert forall i :: 1 <= i <= |s| - |pat| ==> s[1..][i - 1..] == s[i..];
      tail
  }
}
