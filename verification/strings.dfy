/** Text helpers shared by the whole model.

    Every string of the model is ASCII, so `|s|` is the byte length that
    Rust's `str::len` reports. The helpers mirror the standard-library
    operations the server relies on: `format!` concatenation, `split`,
    decimal `Display` of unsigned integers, `parse::<usize>`, and the
    `{:0w}` / `{: <w}` padding specifiers. */
module Strings {

  datatype Option<T> = None | Some(value: T)

  /** The largest `usize` plus one, on the 64-bit targets the server runs on. */
  const USIZE_LIMIT: nat := 0x1_0000_0000_0000_0000

  // ---------------------------------------------------------------------
  // Joining and splitting
  // ---------------------------------------------------------------------

  /** `xs` with `sep` between consecutive elements (Rust's `join`). */
  function Join(xs: seq<string>, sep: string): string
    decreases |xs|
  {
    if |xs| == 0 then ""
    else if |xs| == 1 then xs[0]
    else xs[0] + sep + Join(xs[1..], sep)
  }

  /** Every element followed by `t`, concatenated (a `map(|x| x + t)`
      followed by `collect::<String>()`). */
  function Terminated(xs: seq<string>, t: string): string
    decreases |xs|
  {
    if |xs| == 0 then "" else xs[0] + t + Terminated(xs[1..], t)
  }

  /** Sum of the lengths of the elements. */
  function TotalLength(xs: seq<string>): nat
    decreases |xs|
  {
    if |xs| == 0 then 0 else |xs[0]| + TotalLength(xs[1..])
  }

  predicate EndsWith(s: string, suffix: string)
  {
    |suffix| <= |s| && s[|s| - |suffix|..] == suffix
  }

  predicate StartsWith(s: string, prefix: string)
  {
    |prefix| <= |s| && s[..|prefix|] == prefix
  }

  /** Rust's `str::strip_suffix`: removes exactly one occurrence of the
      suffix, or fails when the string does not end with it. */
  function StripSuffix(s: string, suffix: string): (r: Option<string>)
    ensures r.Some? <==> EndsWith(s, suffix)
    ensures r.Some? ==> r.value + suffix == s
  {
    if EndsWith(s, suffix) then Some(s[..|s| - |suffix|]) else None
  }

  /** Rust's `str::trim_end_matches` with a one-character pattern: removes
      every trailing copy of `c`. */
  function TrimEndMatches(s: string, c: char): (r: string)
    ensures |r| <= |s| && r == s[..|r|]
    ensures |r| == 0 || r[|r| - 1] != c
    ensures forall i :: |r| <= i < |s| ==> s[i] == c
    decreases |s|
  {
    if |s| > 0 && s[|s| - 1] == c then TrimEndMatches(s[..|s| - 1], c) else s
  }

  /** `a` occurs in `s` starting at index `i`. */
  predicate OccursAt(a: string, s: string, i: nat)
  {
    i + |a| <= |s| && s[i..i + |a|] == a
  }

  /** `a` is a substring of `s` (Rust's `str::contains`). */
  predicate Contains(s: string, a: string)
  {
    exists i: nat | i <= |s| :: OccursAt(a, s, i)
  }

  /** Index of the first `c` in `s`. */
  function IndexOf(s: string, c: char): (i: nat)
    requires c in s
    ensures i < |s| && s[i] == c && c !in s[..i]
    decreases |s|
  {
    if s[0] == c then 0 else 1 + IndexOf(s[1..], c)
  }

  /** Rust's `str::split` on one character: the pieces between the
      separators, empty pieces included, always at least one piece. */
  function Split(s: string, c: char): (r: seq<string>)
    ensures |r| >= 1
    decreases |s|
  {
    if c !in s then [s]
    else
      var i := IndexOf(s, c);
      [s[..i]] + Split(s[i + 1..], c)
  }

  lemma IndexOfAfterFree(a: string, c: char, b: string)
    requires c !in a
    ensures c in a + [c] + b
    ensures IndexOf(a + [c] + b, c) == |a|
    decreases |a|
  {
    var s := a + [c] + b;
    assert s[|a|] == c;
    if |a| > 0 {
      assert s[1..] == a[1..] + [c] + b;
      IndexOfAfterFree(a[1..], c, b);
    }
  }

  /** Index of the last `c` in `s` (Rust's `rfind`). */
  function LastIndexOf(s: string, c: char): (i: nat)
    requires c in s
    ensures i < |s| && s[i] == c && c !in s[i + 1..]
    decreases |s|
  {
    if s[|s| - 1] == c then |s| - 1
    else
      var i := LastIndexOf(s[..|s| - 1], c);
      assert s[i + 1..] == s[..|s| - 1][i + 1..] + [s[|s| - 1]];
      i
  }

  lemma {:induction false} LastIndexBeforeFree(a: string, c: char, b: string)
    requires c !in b
    ensures c in a + [c] + b
    ensures LastIndexOf(a + [c] + b, c) == |a|
    decreases |b|
  {
    var s := a + [c] + b;
    assert s[|a|] == c;
    if |b| > 0 {
      assert s[..|s| - 1] == a + [c] + b[..|b| - 1];
      LastIndexBeforeFree(a, c, b[..|b| - 1]);
    }
  }

  /** A non-empty terminated concatenation ends with its last element
      followed by the terminator. */
  lemma {:induction false} TerminatedEndsWithLast(xs: seq<string>, t: string)
    requires |xs| >= 1
    ensures EndsWith(Terminated(xs, t), xs[|xs| - 1] + t)
    decreases |xs|
  {
    if |xs| == 1 {
      assert Terminated(xs, t) == xs[0] + t;
    } else {
      TerminatedEndsWithLast(xs[1..], t);
      assert Terminated(xs, t) == (xs[0] + t) + Terminated(xs[1..], t);
    }
  }

  /** Splitting undoes joining whenever no piece contains the separator. */
  lemma {:induction false} SplitJoin(xs: seq<string>, c: char)
    requires |xs| >= 1
    requires forall i :: 0 <= i < |xs| ==> c !in xs[i]
    ensures Split(Join(xs, [c]), c) == xs
    decreases |xs|
  {
    if |xs| == 1 {
      assert Join(xs, [c]) == xs[0];
    } else {
      var rest := Join(xs[1..], [c]);
      var s := xs[0] + [c] + rest;
      assert Join(xs, [c]) == s;
      IndexOfAfterFree(xs[0], c, rest);
      assert s[..|xs[0]|] == xs[0];
      assert s[|xs[0]| + 1..] == rest;
      assert Split(s, c) == [xs[0]] + Split(rest, c);
      SplitJoin(xs[1..], c);
      assert xs == [xs[0]] + xs[1..];
    }
  }

  /** Three pieces without the separator, joined by it, split back. */
  lemma SplitThree(a: string, b: string, d: string, c: char)
    requires c !in a && c !in b && c !in d
    ensures Split(a + [c] + b + [c] + d, c) == [a, b, d]
  {
    var xs := [a, b, d];
    assert Join(xs[2..], [c]) == d;
    assert Join(xs[1..], [c]) == b + [c] + d;
    assert Join(xs, [c]) == a + [c] + b + [c] + d;
    SplitJoin(xs, c);
  }

  /** The literal comma-terminated-then-strip composition equals a join. */
  lemma {:induction false} StripTerminatedIsJoin(xs: seq<string>, t: string)
    requires |xs| >= 1
    ensures StripSuffix(Terminated(xs, t), t) == Some(Join(xs, t))
    decreases |xs|
  {
    if |xs| == 1 {
      assert Terminated(xs, t) == xs[0] + t;
      assert (xs[0] + t)[..|xs[0]|] == xs[0];
    } else {
      StripTerminatedIsJoin(xs[1..], t);
      var tail := Terminated(xs[1..], t);
      assert tail == Join(xs[1..], t) + t;
      assert Terminated(xs, t) == xs[0] + t + Join(xs[1..], t) + t;
      assert (xs[0] + t + Join(xs[1..], t) + t)[..|xs[0] + t + Join(xs[1..], t)|]
          == xs[0] + t + Join(xs[1..], t);
    }
  }

  lemma {:induction false} JoinLength(xs: seq<string>, sep: string)
    requires |xs| >= 1
    ensures |Join(xs, sep)| == TotalLength(xs) + (|xs| - 1) * |sep|
    decreases |xs|
  {
    if |xs| > 1 {
      JoinLength(xs[1..], sep);
    }
  }

  /** A character absent from every piece and from the separator is
      absent from the join. */
  lemma {:induction false} JoinExcludes(xs: seq<string>, sep: string, c: char)
    requires forall i :: 0 <= i < |xs| ==> c !in xs[i]
    requires c !in sep
    ensures c !in Join(xs, sep)
    decreases |xs|
  {
    if |xs| > 1 {
      JoinExcludes(xs[1..], sep, c);
      assert Join(xs, sep) == xs[0] + sep + Join(xs[1..], sep);
    }
  }

  // ---------------------------------------------------------------------
  // Padding
  // ---------------------------------------------------------------------

  function Repeat(c: char, n: nat): (r: string)
    ensures |r| == n && forall i :: 0 <= i < n ==> r[i] == c
  {
    seq(n, _ => c)
  }

  /** `{:0w}` on a non-negative integer: zeros on the left up to width `w`. */
  function PadLeft(s: string, width: nat, c: char): (r: string)
    ensures |r| == if |s| >= width then |s| else width
    ensures EndsWith(r, s)
    ensures forall i :: 0 <= i < |r| - |s| ==> r[i] == c
  {
    if |s| >= width then s else Repeat(c, width - |s|) + s
  }

  /** `{: <w}`: left-aligned, spaces (or `c`) on the right up to width `w`. */
  function PadRight(s: string, width: nat, c: char): (r: string)
    ensures |r| == if |s| >= width then |s| else width
    ensures StartsWith(r, s)
    ensures forall i :: |s| <= i < |r| ==> r[i] == c
  {
    if |s| >= width then s else s + Repeat(c, width - |s|)
  }

  // ---------------------------------------------------------------------
  // Decimal digits
  // ---------------------------------------------------------------------

  predicate IsDigit(c: char)
  {
    '0' <= c <= '9'
  }

  predicate AllDigits(s: string)
  {
    forall i :: 0 <= i < |s| ==> IsDigit(s[i])
  }

  function DigitChar(d: nat): (c: char)
    requires d < 10
    ensures IsDigit(c) && c as int - '0' as int == d
  {
    ('0' as int + d) as char
  }

  function DigitValue(c: char): nat
    requires IsDigit(c)
  {
    c as int - '0' as int
  }

  function Pow10(k: nat): (p: nat)
    ensures p >= 1
  {
    if k == 0 then 1 else 10 * Pow10(k - 1)
  }

  /** The value of a digit string, most significant digit first. */
  function DigitsValue(s: string): nat
    requires AllDigits(s)
    decreases |s|
  {
    if |s| == 0 then 0 else DigitsValue(s[..|s| - 1]) * 10 + DigitValue(s[|s| - 1])
  }

  /** Rust's `Display` for an unsigned integer: shortest decimal form. */
  function Decimal(n: nat): (r: string)
    ensures |r| >= 1 && AllDigits(r)
    ensures r[0] == '0' ==> n == 0
    ensures |r| == 1 <==> n < 10
    decreases n
  {
    if n < 10 then [DigitChar(n)] else Decimal(n / 10) + [DigitChar(n % 10)]
  }

  lemma {:induction false} DecimalRoundTrip(n: nat)
    ensures DigitsValue(Decimal(n)) == n
    decreases n
  {
    if n >= 10 {
      DecimalRoundTrip(n / 10);
      var r := Decimal(n);
      assert r[..|r| - 1] == Decimal(n / 10);
    }
  }

  /** A number below `10^k` has at most `k` digits. */
  lemma {:induction false} DecimalLength(n: nat, k: nat)
    requires k >= 1 && n < Pow10(k)
    ensures |Decimal(n)| <= k
    decreases k
  {
    if n >= 10 {
      assert k >= 2;
      assert n / 10 < Pow10(k - 1);
      DecimalLength(n / 10, k - 1);
    }
  }

  lemma AllDigitsAppend(a: string, b: string)
    requires AllDigits(a) && AllDigits(b)
    ensures AllDigits(a + b)
  {
    forall i | 0 <= i < |a + b| ensures IsDigit((a + b)[i]) {
      if i < |a| { assert (a + b)[i] == a[i]; } else { assert (a + b)[i] == b[i - |a|]; }
    }
  }

  lemma {:induction false} DigitsValueAppend(a: string, b: string)
    requires AllDigits(a) && AllDigits(b)
    ensures AllDigits(a + b)
    ensures DigitsValue(a + b) == DigitsValue(a) * Pow10(|b|) + DigitsValue(b)
    decreases |b|
  {
    AllDigitsAppend(a, b);
    if |b| > 0 {
      var ab := a + b;
      var b' := b[..|b| - 1];
      assert ab[..|ab| - 1] == a + b';
      assert ab[|ab| - 1] == b[|b| - 1];
      DigitsValueAppend(a, b');
      var d := DigitValue(b[|b| - 1]);
      assert DigitsValue(ab) == DigitsValue(a + b') * 10 + d;
      assert DigitsValue(b) == DigitsValue(b') * 10 + d;
      assert Pow10(|b|) == 10 * Pow10(|b'|);
      ShiftDigit(DigitsValue(ab), DigitsValue(a), Pow10(|b'|), DigitsValue(b'), d, DigitsValue(b), Pow10(|b|));
    } else {
      assert a + b == a;
    }
  }

  /** Appending one digit to both a number and its tail. */
  lemma ShiftDigit(whole: int, high: int, p: int, low: int, d: int, lowD: int, p10: int)
    requires whole == (high * p + low) * 10 + d
    requires lowD == low * 10 + d && p10 == 10 * p
    ensures whole == high * p10 + lowD
  {
    assert (high * p + low) * 10 == high * (10 * p) + low * 10;
  }

  lemma {:induction false} ZerosValue(n: nat)
    ensures AllDigits(Repeat('0', n)) && DigitsValue(Repeat('0', n)) == 0
    decreases n
  {
    if n > 0 {
      assert Repeat('0', n)[..n - 1] == Repeat('0', n - 1);
      ZerosValue(n - 1);
    }
  }

  /** Zero padding never changes the value a digit string denotes, so a
      reader of `{:0w}` output recovers the number. */
  lemma PaddedDecimalRoundTrip(n: nat, width: nat)
    ensures AllDigits(PadLeft(Decimal(n), width, '0'))
    ensures DigitsValue(PadLeft(Decimal(n), width, '0')) == n
  {
    var d := Decimal(n);
    DecimalRoundTrip(n);
    if |d| < width {
      var z := Repeat('0', width - |d|);
      ZerosValue(width - |d|);
      DigitsValueAppend(z, d);
    }
  }

  /** Rust's `str::parse::<usize>`: an optional `+`, then one or more
      decimal digits, and a value that fits in 64 bits. */
  function ParseUsize(s: string): (r: Option<nat>)
    ensures r.Some? ==> r.value < USIZE_LIMIT
    ensures r.Some? ==> |s| >= 1 && (IsDigit(s[0]) || s[0] == '+')
  {
    var digits := if |s| > 0 && s[0] == '+' then s[1..] else s;
    if |digits| == 0 || !AllDigits(digits) then None
    else if DigitsValue(digits) < USIZE_LIMIT then Some(DigitsValue(digits))
    else None
  }

  /** Parsing the decimal rendering of any `usize` gives it back. */
  lemma ParseDecimalRoundTrip(n: nat)
    requires n < USIZE_LIMIT
    ensures ParseUsize(Decimal(n)) == Some(n)
  {
    DecimalRoundTrip(n);
    assert Decimal(n)[0] != '+';
  }
}
