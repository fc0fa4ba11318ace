/** The JavaScript string operations the app relies on: `startsWith`, `split` on a
    one-character separator, and the decimal rendering of a non-negative integer
    inside a template literal. */
module Text {

  predicate IsDigit(c: char) {
    '0' <= c <= '9'
  }

  predicate AllDigits(s: string) {
    forall i :: 0 <= i < |s| ==> IsDigit(s[i])
  }

  function DigitValue(c: char): nat
    requires IsDigit(c)
  {
    c as int - '0' as int
  }

  function DigitChar(d: nat): (c: char)
    requires d < 10
    ensures IsDigit(c) && DigitValue(c) == d
  {
    "0123456789"[d]
  }

  /** `s.startsWith(prefix)`; every string starts with the empty string. */
  predicate StartsWith(s: string, prefix: string)
    ensures StartsWith(s, prefix) <==>
      |prefix| <= |s| && forall i :: 0 <= i < |prefix| ==> s[i] == prefix[i]
    ensures StartsWith(s, prefix) ==> s == prefix + s[|prefix|..]
  {
    |prefix| <= |s| && s[..|prefix|] == prefix
  }

  /** `${n}` for a non-negative integer n: its decimal digits, without leading zeros. */
  function NatToString(n: nat): (s: string)
    ensures |s| >= 1 && AllDigits(s)
    ensures s[0] == '0' ==> n == 0
    decreases n
  {
    if n < 10 then [DigitChar(n)] else NatToString(n / 10) + [DigitChar(n % 10)]
  }

  /** The number whose decimal digits are those of n followed by the digits of s. */
  function AppendDigits(n: nat, s: string): nat
    requires AllDigits(s)
    decreases |s|
  {
    if s == [] then n else AppendDigits(10 * n + DigitValue(s[0]), s[1..])
  }

  /** Appending one more digit shifts the value a place and adds the digit. */
  lemma {:induction false} AppendDigitsSnoc(n: nat, s: string, c: char)
    requires AllDigits(s) && IsDigit(c)
    ensures AllDigits(s + [c]) && AppendDigits(n, s + [c]) == 10 * AppendDigits(n, s) + DigitValue(c)
    decreases |s|
  {
    if s != [] {
      assert (s + [c])[1..] == s[1..] + [c];
      AppendDigitsSnoc(10 * n + DigitValue(s[0]), s[1..], c);
    }
  }

  /** Reading back the decimal rendering of n gives n. */
  lemma {:induction false} AppendDigitsOfNatToString(n: nat)
    ensures AppendDigits(0, NatToString(n)) == n
    decreases n
  {
    if n >= 10 {
      AppendDigitsOfNatToString(n / 10);
      AppendDigitsSnoc(0, NatToString(n / 10), DigitChar(n % 10));
    }
  }

  /** Appending digits never makes a number smaller. */
  lemma {:induction false} AppendDigitsAtLeast(n: nat, s: string)
    requires AllDigits(s)
    ensures AppendDigits(n, s) >= n
    decreases |s|
  {
    if s != [] {
      AppendDigitsAtLeast(10 * n + DigitValue(s[0]), s[1..]);
    }
  }

  /** Digits that do not start with zero denote a positive number. */
  lemma LeadingDigitValue(d: string)
    requires d != [] && AllDigits(d) && d[0] != '0'
    ensures AppendDigits(0, d) >= 1
  {
    AppendDigitsAtLeast(DigitValue(d[0]), d[1..]);
  }

  lemma DigitCharOfValue(c: char)
    requires IsDigit(c)
    ensures DigitChar(DigitValue(c)) == c
  {
  }

  /** A run of digits without a leading zero is the rendering of the number it denotes. */
  lemma {:induction false} NatToStringOfDigits(d: string)
    requires d != [] && AllDigits(d) && d[0] != '0'
    ensures NatToString(AppendDigits(0, d)) == d
    decreases |d|
  {
    var p, c := d[..|d| - 1], d[|d| - 1];
    assert d == p + [c];
    AppendDigitsSnoc(0, p, c);
    DigitCharOfValue(c);
    var a, v := AppendDigits(0, p), AppendDigits(0, d);
    if p == [] {
      assert v == DigitValue(c);
    } else {
      NatToStringOfDigits(p);
      LeadingDigitValue(p);
      assert v / 10 == a && v % 10 == DigitValue(c);
      assert NatToString(v) == NatToString(a) + [DigitChar(DigitValue(c))];
    }
  }

  /** Reads the run of digits s begins with onto n: the value read and the text after the run. */
  function ScanDigits(n: nat, s: string): (r: (nat, string))
    ensures |r.1| <= |s| && (r.1 != [] ==> !IsDigit(r.1[0]))
    decreases |s|
  {
    if s != [] && IsDigit(s[0]) then ScanDigits(10 * n + DigitValue(s[0]), s[1..]) else (n, s)
  }

  /** The run of digits s begins with. */
  function DigitRun(s: string): (d: string)
    ensures |d| <= |s| && d == s[..|d|] && AllDigits(d)
    ensures |d| < |s| ==> !IsDigit(s[|d|])
    decreases |s|
  {
    if s != [] && IsDigit(s[0]) then [s[0]] + DigitRun(s[1..]) else []
  }

  /** A scan reads exactly the run of digits s begins with and leaves the rest. */
  lemma ScanDigitsRun(n: nat, s: string)
    ensures ScanDigits(n, s) == (AppendDigits(n, DigitRun(s)), s[|DigitRun(s)|..])
  {
    var d := DigitRun(s);
    assert s == d + s[|d|..];
    ScanDigitsThen(n, d, s[|d|..]);
  }

  /** Scanning digits followed by a non-digit stops exactly at the non-digit. */
  lemma {:induction false} ScanDigitsThen(n: nat, d: string, t: string)
    requires AllDigits(d) && (t != [] ==> !IsDigit(t[0]))
    ensures ScanDigits(n, d + t) == (AppendDigits(n, d), t)
    decreases |d|
  {
    if d == [] {
      assert d + t == t;
    } else {
      assert (d + t)[1..] == d[1..] + t;
      ScanDigitsThen(10 * n + DigitValue(d[0]), d[1..], t);
    }
  }

  /** The index of the first occurrence of c in s. */
  function IndexOf(s: string, c: char): (i: nat)
    requires c in s
    ensures i < |s| && s[i] == c && c !in s[..i]
  {
    if s[0] == c then 0 else 1 + IndexOf(s[1..], c)
  }

  /** `s.split(sep)` for a one-character separator: the pieces between the
      occurrences of sep, one more than there are occurrences. */
  function Split(s: string, sep: char): (parts: seq<string>)
    ensures |parts| == multiset(s)[sep] + 1
    ensures forall i :: 0 <= i < |parts| ==> sep !in parts[i]
    decreases |s|
  {
    if sep !in s then [s]
    else
      var i := IndexOf(s, sep);
      assert s == s[..i] + [sep] + s[i + 1..];
      assert multiset(s)[sep] == multiset(s[..i])[sep] + 1 + multiset(s[i + 1..])[sep];
      [s[..i]] + Split(s[i + 1..], sep)
  }

  /** `parts.join(sep)`. */
  function Join(parts: seq<string>, sep: char): string
  {
    if |parts| == 0 then ""
    else if |parts| == 1 then parts[0]
    else parts[0] + [sep] + Join(parts[1..], sep)
  }

  /** Splitting loses nothing: joining the pieces with the separator gives the input back. */
  lemma {:induction false} JoinSplit(s: string, sep: char)
    ensures Join(Split(s, sep), sep) == s
    decreases |s|
  {
    if sep in s {
      var i := IndexOf(s, sep);
      var parts, rest := Split(s, sep), Split(s[i + 1..], sep);
      JoinSplit(s[i + 1..], sep);
      assert parts == [s[..i]] + rest;
      assert parts[0] == s[..i] && parts[1..] == rest;
      assert Join(parts, sep) == s[..i] + [sep] + Join(rest, sep);
      assert s == s[..i] + [sep] + s[i + 1..];
    }
  }
}
