/**
 * The handful of Python `str` operations the generator relies on:
 * `strip()`, `split(sep)`, `sep.join(parts)`, `startswith(prefix)` and
 * `str(n)` for a natural number. Strings are sequences of code points.
 */
module PyStr {

  /** `c.isspace()`: exactly the characters `str.strip()` removes when called without arguments. */
  predicate IsSpace(c: char) {
    var n := c as int;
    (0x09 <= n <= 0x0D) || (0x1C <= n <= 0x20) || n == 0x85 || n == 0xA0 || n == 0x1680
    || (0x2000 <= n <= 0x200A) || n == 0x2028 || n == 0x2029 || n == 0x202F || n == 0x205F
    || n == 0x3000
  }

  predicate AllSpace(s: string) {
    forall i :: 0 <= i < |s| ==> IsSpace(s[i])
  }

  /** Neither the first nor the last character is whitespace: what `strip()` leaves behind. */
  predicate HasNoEdgeSpace(s: string) {
    s == [] || (!IsSpace(s[0]) && !IsSpace(s[|s| - 1]))
  }

  /** `s` is `m` with the whitespace runs `a` before it and `b` after it. */
  predicate Surrounds(s: string, a: string, m: string, b: string) {
    s == a + m + b && AllSpace(a) && AllSpace(b)
  }

  /** The number of whitespace characters `s.lstrip()` removes. */
  function LeadingSpace(s: string): (n: nat)
    ensures n <= |s| && AllSpace(s[..n])
    ensures n == |s| || !IsSpace(s[n])
  {
    if s != [] && IsSpace(s[0]) then 1 + LeadingSpace(s[1..]) else 0
  }

  /** `s.rstrip()` */
  function TrimRight(s: string): (r: string)
    ensures |r| <= |s| && r == s[..|r|]
    ensures AllSpace(s[|r|..])
    ensures r == [] || !IsSpace(r[|r| - 1])
  {
    if s != [] && IsSpace(s[|s| - 1]) then
      var r := TrimRight(s[..|s| - 1]);
      assert s[|r|..] == s[..|s| - 1][|r|..] + [s[|s| - 1]];
      r
    else s
  }

  /** `s.strip()`: the result has no whitespace at either end. */
  function Strip(s: string): (r: string)
    ensures |r| <= |s|
    ensures HasNoEdgeSpace(r)
  {
    var n := LeadingSpace(s);
    var r := TrimRight(s[n..]);
    StripShape(s, n, r);
    r
  }

  /**
   * What `strip()` removes is whitespace: the input is the result with the
   * leading whitespace run before it and a whitespace run after it.
   */
  lemma StripSurrounds(s: string)
    ensures LeadingSpace(s) + |Strip(s)| <= |s|
    ensures Surrounds(s, s[..LeadingSpace(s)], Strip(s), s[LeadingSpace(s) + |Strip(s)|..])
  {
    var n := LeadingSpace(s);
    StripShape(s, n, TrimRight(s[n..]));
  }

  lemma StripShape(s: string, n: nat, r: string)
    requires n <= |s| && AllSpace(s[..n]) && (n == |s| || !IsSpace(s[n]))
    requires |r| <= |s[n..]| && r == s[n..][..|r|] && AllSpace(s[n..][|r|..])
    requires r == [] || !IsSpace(r[|r| - 1])
    ensures n + |r| <= |s|
    ensures Surrounds(s, s[..n], r, s[n + |r|..])
    ensures HasNoEdgeSpace(r)
  {
    assert s[n..][|r|..] == s[n + |r|..];
    assert s == s[..n] + r + s[n + |r|..];
    if r != [] { assert r[0] == s[n]; }
  }

  lemma {:induction false} LeadingSpacePast(a: string, t: string)
    requires AllSpace(a)
    requires t == [] || !IsSpace(t[0])
    ensures LeadingSpace(a + t) == |a|
  {
    if a != [] {
      assert (a + t)[1..] == a[1..] + t;
      LeadingSpacePast(a[1..], t);
    }
  }

  lemma {:induction false} TrimRightPast(t: string, b: string)
    requires AllSpace(b)
    requires t == [] || !IsSpace(t[|t| - 1])
    ensures TrimRight(t + b) == t
  {
    if b != [] {
      assert (t + b)[..|t + b| - 1] == t + b[..|b| - 1];
      TrimRightPast(t, b[..|b| - 1]);
    }
  }

  /**
   * The result of `strip()` is determined by the two properties in its
   * contract: whatever whitespace surrounds a string without edge
   * whitespace, stripping gives back that string.
   */
  lemma StripUnique(a: string, m: string, b: string)
    requires AllSpace(a) && AllSpace(b) && HasNoEdgeSpace(m)
    ensures Strip(a + m + b) == m
  {
    var s := a + m + b;
    if m == [] {
      assert s == (a + b) + [];
      LeadingSpacePast(a + b, []);
    } else {
      assert s == a + (m + b);
      LeadingSpacePast(a, m + b);
      assert s[|a|..] == m + b;
      TrimRightPast(m, b);
    }
  }

  /** `strip()` gives the empty string exactly when the input is all whitespace. */
  lemma StripEmptyIff(s: string)
    ensures Strip(s) == [] <==> AllSpace(s)
  {
    if Strip(s) == [] {
      StripSurrounds(s);
      assert LeadingSpace(s) == |s|;
      assert s[..|s|] == s;
    }
    if AllSpace(s) {
      StripUnique(s, [], []);
      assert s + [] + [] == s;
    }
  }

  lemma StripIdempotent(s: string)
    ensures Strip(Strip(s)) == Strip(s)
  {
    StripUnique([], Strip(s), []);
    assert [] + Strip(s) + [] == Strip(s);
  }

  /** A string without edge whitespace is left unchanged by `strip()`. */
  lemma StripNoEdgeSpace(s: string)
    requires HasNoEdgeSpace(s)
    ensures Strip(s) == s
  {
    StripUnique([], s, []);
    assert [] + s + [] == s;
  }

  /** A slice that lies within the first part of a concatenation lies within that part. */
  lemma SliceWithin(x: string, y: string, i: nat, j: nat)
    requires i <= j <= |x|
    ensures (x + y)[i..j] == x[i..j]
  {
  }

  /** In `x + m + y`, the piece of length `|m|` after `x` is `m`. */
  lemma PieceAt(x: string, m: string, y: string)
    ensures |x| + |m| <= |x + m + y|
    ensures (x + m + y)[|x|..|x| + |m|] == m
  {
  }

  /** `s.startswith(prefix)` */
  predicate StartsWith(s: string, prefix: string) {
    prefix <= s
  }

  /** `s.split(sep)` for a one-character separator: never empty, and no piece holds the separator. */
  function Split(s: string, sep: char): (parts: seq<string>)
    ensures |parts| >= 1
    ensures forall i :: 0 <= i < |parts| ==> sep !in parts[i]
  {
    if s == [] then [[]]
    else
      var rest := Split(s[1..], sep);
      if s[0] == sep then [[]] + rest
      else [[s[0]] + rest[0]] + rest[1..]
  }

  /** The combined length of some strings. */
  function TotalLength(parts: seq<string>): nat {
    if parts == [] then 0 else |parts[0]| + TotalLength(parts[1..])
  }

  /** `sep.join(parts)`: every part, with one separator between each two neighbours. */
  function Join(parts: seq<string>, sep: string): (r: string)
    ensures |parts| >= 1 ==> |r| == TotalLength(parts) + (|parts| - 1) * |sep|
    ensures |parts| == 0 ==> r == []
  {
    if |parts| == 0 then []
    else if |parts| == 1 then parts[0]
    else parts[0] + sep + Join(parts[1..], sep)
  }

  /** Joining the pieces of a split with the same separator gives back the string. */
  lemma {:induction false} JoinSplit(s: string, sep: char)
    ensures Join(Split(s, sep), [sep]) == s
  {
    if s != [] {
      var rest := Split(s[1..], sep);
      JoinSplit(s[1..], sep);
      if s[0] == sep {
        assert Split(s, sep) == [[]] + rest;
        assert ([[]] + rest)[1..] == rest;
      } else if |rest| == 1 {
        assert Split(s, sep) == [[s[0]] + rest[0]];
      } else {
        var parts := Split(s, sep);
        assert parts == [[s[0]] + rest[0]] + rest[1..];
        assert parts[1..] == rest[1..];
        assert s == [s[0]] + s[1..];
      }
    }
  }

  lemma {:induction false} SplitNoSeparator(a: string, sep: char)
    requires sep !in a
    ensures Split(a, sep) == [a]
  {
    if a != [] {
      SplitNoSeparator(a[1..], sep);
      assert [a[0]] + a[1..] == a;
    }
  }

  lemma {:induction false} SplitAtSeparator(a: string, sep: char, b: string)
    requires sep !in a
    ensures Split(a + [sep] + b, sep) == [a] + Split(b, sep)
  {
    var s := a + [sep] + b;
    if a == [] {
      assert s[1..] == b;
    } else {
      assert s[1..] == a[1..] + [sep] + b;
      SplitAtSeparator(a[1..], sep, b);
      assert [a[0]] + a[1..] == a;
    }
  }

  /** Splitting a join of separator-free pieces gives back the pieces. */
  lemma {:induction false} SplitJoin(parts: seq<string>, sep: char)
    requires |parts| >= 1
    requires forall i :: 0 <= i < |parts| ==> sep !in parts[i]
    ensures Split(Join(parts, [sep]), sep) == parts
  {
    if |parts| == 1 {
      SplitNoSeparator(parts[0], sep);
    } else {
      SplitJoin(parts[1..], sep);
      SplitAtSeparator(parts[0], sep, Join(parts[1..], [sep]));
      assert [parts[0]] + parts[1..] == parts;
    }
  }

  /** A join of non-empty pieces without edge whitespace has no edge whitespace itself. */
  lemma {:induction false} JoinNoEdgeSpace(parts: seq<string>, sep: string)
    requires forall i :: 0 <= i < |parts| ==> parts[i] != [] && HasNoEdgeSpace(parts[i])
    ensures HasNoEdgeSpace(Join(parts, sep))
    ensures |parts| >= 1 ==> Join(parts, sep) != []
  {
    if |parts| >= 2 {
      JoinNoEdgeSpace(parts[1..], sep);
      var r := Join(parts[1..], sep);
      assert Join(parts, sep) == parts[0] + sep + r;
      assert Join(parts, sep)[0] == parts[0][0];
      assert Join(parts, sep)[|Join(parts, sep)| - 1] == r[|r| - 1];
    }
  }

  predicate IsDigit(c: char) {
    '0' <= c <= '9'
  }

  function DigitChar(d: nat): (c: char)
    requires d < 10
    ensures IsDigit(c) && c as int - '0' as int == d
  {
    ('0' as int + d) as char
  }

  /** `str(n)`: the decimal numeral of `n`, most significant digit first, without leading zeros. */
  function NatToString(n: nat): (r: string)
    ensures |r| >= 1 && (forall i :: 0 <= i < |r| ==> IsDigit(r[i]))
    ensures |r| > 1 ==> r[0] != '0'
  {
    if n < 10 then [DigitChar(n)] else NatToString(n / 10) + [DigitChar(n % 10)]
  }

  function DigitValue(c: char): (d: nat)
    requires IsDigit(c)
    ensures d < 10
  {
    c as int - '0' as int
  }

  /** The number a string of decimal digits denotes. */
  function DecimalValue(s: string): nat
    requires forall i :: 0 <= i < |s| ==> IsDigit(s[i])
  {
    if s == [] then 0
    else DecimalValue(s[..|s| - 1]) * 10 + DigitValue(s[|s| - 1])
  }

  /** Reading back the numeral `str(n)` gives `n`. */
  lemma {:induction false} DecimalRoundTrip(n: nat)
    ensures DecimalValue(NatToString(n)) == n
  {
    if n >= 10 {
      DecimalRoundTrip(n / 10);
      var r := NatToString(n);
      assert r[..|r| - 1] == NatToString(n / 10);
    }
  }
}
