/**
 * The java.lang.String and java.lang.Integer operations the library relies on,
 * written out over `seq<char>`.
 */
module Text {
  import opened Results

  /** `\w` of java.util.regex without UNICODE_CHARACTER_CLASS: `[a-zA-Z_0-9]`. */
  predicate IsWordChar(c: char) {
    ('a' <= c <= 'z') || ('A' <= c <= 'Z') || ('0' <= c <= '9') || c == '_'
  }

  predicate IsDigit(c: char) {
    '0' <= c <= '9'
  }

  /** String.endsWith. */
  predicate EndsWith(s: string, suffix: string) {
    |suffix| <= |s| && s[|s| - |suffix|..] == suffix
  }

  /** `target` occurs in `s` starting at `i`. */
  predicate OccursAt(s: string, target: string, i: int) {
    0 <= i && i + |target| <= |s| && s[i..i + |target|] == target
  }

  /** String.contains. */
  predicate ContainsText(s: string, target: string) {
    exists i :: 0 <= i <= |s| - |target| && OccursAt(s, target, i)
  }

  /** String.replace(CharSequence, CharSequence): every occurrence, scanning left to right. */
  function ReplaceAll(s: string, target: string, replacement: string): string
    requires target != []
    decreases |s|
  {
    if |s| < |target| then s
    else if s[..|target|] == target then replacement + ReplaceAll(s[|target|..], target, replacement)
    else [s[0]] + ReplaceAll(s[1..], target, replacement)
  }

  /** Text without an occurrence of the target is left as it is. */
  lemma {:induction false} ReplaceAllAbsent(s: string, target: string, replacement: string)
    requires target != []
    requires forall i :: !OccursAt(s, target, i)
    ensures ReplaceAll(s, target, replacement) == s
    decreases |s|
  {
    if |s| >= |target| {
      assert !OccursAt(s, target, 0);
      forall i ensures !OccursAt(s[1..], target, i) {
        if OccursAt(s[1..], target, i) {
          assert s[1..][i..i + |target|] == s[i + 1..i + 1 + |target|];
          assert OccursAt(s, target, i + 1);
        }
      }
      ReplaceAllAbsent(s[1..], target, replacement);
    }
  }

  /** A character that does not occur has no occurrence as a one-character target. */
  lemma NoCharNoOccurrence(s: string, c: char)
    requires c !in s
    ensures forall i :: !OccursAt(s, [c], i)
  {
    forall i ensures !OccursAt(s, [c], i) {
      if 0 <= i && i + 1 <= |s| {
        assert s[i..i + 1][0] == s[i];
      }
    }
  }

  /** Replacing a single character distributes over concatenation. */
  lemma {:induction false} ReplaceCharAppend(a: string, b: string, c: char, replacement: string)
    ensures ReplaceAll(a + b, [c], replacement) == ReplaceAll(a, [c], replacement) + ReplaceAll(b, [c], replacement)
    decreases |a|
  {
    if a != [] {
      assert (a + b)[1..] == a[1..] + b;
      assert (a + b)[..1] == a[..1];
      ReplaceCharAppend(a[1..], b, c, replacement);
    } else {
      assert a + b == b;
    }
  }

  /** The strings of `xs` with `d` between neighbours. */
  function Join(xs: seq<string>, d: string): string
    decreases |xs|
  {
    if xs == [] then ""
    else if |xs| == 1 then xs[0]
    else Join(xs[..|xs| - 1], d) + d + xs[|xs| - 1]
  }

  /** The strings of `xs` one after the other, as a loop of `+=` builds them. */
  function Concat(xs: seq<string>): string
    decreases |xs|
  {
    if xs == [] then "" else Concat(xs[..|xs| - 1]) + xs[|xs| - 1]
  }

  /** One more string appended to the running concatenation. */
  lemma ConcatStep(xs: seq<string>, i: nat)
    requires i < |xs|
    ensures Concat(xs[..i + 1]) == Concat(xs[..i]) + xs[i]
  {
    assert xs[..i + 1][..i] == xs[..i];
  }

  /** Each string of `xs` followed by `d`. */
  function Suffixed(xs: seq<string>, d: string): (r: seq<string>)
    ensures |r| == |xs| && forall k :: 0 <= k < |xs| ==> r[k] == xs[k] + d
  {
    seq(|xs|, k requires 0 <= k < |xs| => xs[k] + d)
  }

  /** Appending a terminator after every string is joining them and terminating once. */
  lemma {:induction false} ConcatSuffixed(xs: seq<string>, d: string)
    requires xs != []
    ensures Concat(Suffixed(xs, d)) == Join(xs, d) + d
    decreases |xs|
  {
    var ys := Suffixed(xs, d);
    if |xs| == 1 {
      assert ys[..0] == [];
    } else {
      var init := xs[..|xs| - 1];
      assert ys[..|ys| - 1] == Suffixed(init, d);
      ConcatSuffixed(init, d);
    }
  }

  /** With an empty separator, joining is concatenation. */
  lemma {:induction false} JoinEmptySeparator(xs: seq<string>)
    ensures Join(xs, "") == Concat(xs)
    decreases |xs|
  {
    if |xs| > 1 {
      JoinEmptySeparator(xs[..|xs| - 1]);
      assert xs[..|xs| - 1][..|xs| - 2] == xs[..|xs| - 2];
    } else if |xs| == 1 {
      assert xs[..0] == [];
    }
  }

  /** String.replace(char, char). */
  function ReplaceChar(s: string, from: char, to: char): (r: string)
    ensures |r| == |s|
    ensures forall i :: 0 <= i < |s| ==> r[i] == if s[i] == from then to else s[i]
  {
    seq(|s|, i requires 0 <= i < |s| => if s[i] == from then to else s[i])
  }

  /** The pieces of `s` between the occurrences of `c`, empty ones included. */
  function Pieces(s: string, c: char): (r: seq<string>)
    ensures |r| >= 1
    decreases |s|
  {
    if s == [] then [""]
    else
      var rest := Pieces(s[1..], c);
      if s[0] == c then [""] + rest else [[s[0]] + rest[0]] + rest[1..]
  }

  /** `ps` without its trailing empty strings. */
  function TrimTrailingEmpty(ps: seq<string>): (r: seq<string>)
    ensures |r| <= |ps| && r == ps[..|r|]
    ensures r != [] ==> r[|r| - 1] != ""
    ensures forall k :: |r| <= k < |ps| ==> ps[k] == ""
  {
    if ps != [] && ps[|ps| - 1] == "" then TrimTrailingEmpty(ps[..|ps| - 1]) else ps
  }

  /**
   * String.split with a one-character pattern that is not a regex metacharacter:
   * the whole string when `c` does not occur, otherwise the pieces with the
   * trailing empty ones removed.
   */
  function Split(s: string, c: char): seq<string> {
    if c !in s then [s] else TrimTrailingEmpty(Pieces(s, c))
  }

  /** No piece contains the delimiter. */
  lemma {:induction false} PiecesAvoid(s: string, c: char)
    ensures forall k :: 0 <= k < |Pieces(s, c)| ==> c !in Pieces(s, c)[k]
    decreases |s|
  {
    if s != [] {
      PiecesAvoid(s[1..], c);
    }
  }

  /** Without the delimiter there is one piece, the whole string. */
  lemma {:induction false} PiecesWithout(s: string, c: char)
    requires c !in s
    ensures Pieces(s, c) == [s]
    decreases |s|
  {
    if s != [] {
      PiecesWithout(s[1..], c);
      assert [s[0]] + s[1..] == s;
    }
  }

  /** A delimiter after a delimiter-free prefix ends the first piece there. */
  lemma {:induction false} PiecesAt(a: string, c: char, rest: string)
    requires c !in a
    ensures Pieces(a + [c] + rest, c) == [a] + Pieces(rest, c)
    decreases |a|
  {
    var s := a + [c] + rest;
    if a == [] {
      assert s[1..] == rest;
    } else {
      PiecesAt(a[1..], c, rest);
      assert s[1..] == a[1..] + [c] + rest;
      assert [a[0]] + a[1..] == a;
    }
  }

  /** Every character of a piece is a character of the string. */
  lemma {:induction false} PiecesChars(s: string, c: char)
    ensures forall k, x :: 0 <= k < |Pieces(s, c)| && x in Pieces(s, c)[k] ==> x in s
    decreases |s|
  {
    if s != [] {
      PiecesChars(s[1..], c);
      var rest := Pieces(s[1..], c);
      forall k, x | 0 <= k < |Pieces(s, c)| && x in Pieces(s, c)[k] ensures x in s {
        if s[0] != c && k == 0 {
          assert Pieces(s, c)[0] == [s[0]] + rest[0];
          assert x == s[0] || x in rest[0];
        } else if s[0] != c {
          assert Pieces(s, c)[k] == rest[k];
        } else if k > 0 {
          assert Pieces(s, c)[k] == rest[k - 1];
        }
        assert s == [s[0]] + s[1..];
      }
    }
  }

  /** Trimming keeps a prefix that ends in a non-empty string. */
  lemma {:induction false} TrimKeepsPrefix(ps: seq<string>, n: nat)
    requires 0 < n <= |ps| && ps[n - 1] != ""
    ensures n <= |TrimTrailingEmpty(ps)| && TrimTrailingEmpty(ps)[..n] == ps[..n]
    decreases |ps|
  {
    if ps[|ps| - 1] == "" {
      TrimKeepsPrefix(ps[..|ps| - 1], n);
    }
  }

  function DigitValue(c: char): nat
    requires IsDigit(c)
  {
    c as int - '0' as int
  }

  predicate AllDigits(s: string) {
    forall i :: 0 <= i < |s| ==> IsDigit(s[i])
  }

  /** The value of a run of decimal digits. */
  function DigitsValue(s: string): nat
    requires AllDigits(s)
  {
    if s == [] then 0 else 10 * DigitsValue(s[..|s| - 1]) + DigitValue(s[|s| - 1])
  }

  const IntMax: int := 0x7FFF_FFFF

  /** The digits after an optional sign, as a 32-bit int. */
  function ParseDigits(digits: string, negative: bool): Result<int> {
    if digits != [] && AllDigits(digits) then
      var v := DigitsValue(digits);
      if negative && v <= IntMax + 1 then Ok(-(v as int))
      else if !negative && v <= IntMax then Ok(v as int)
      else Fail(NumberFormat)
    else Fail(NumberFormat)
  }

  /** Integer.parseInt in radix 10: an optional sign, at least one digit, within 32 bits. */
  function ParseInt(s: string): (r: Result<int>)
    ensures r.Ok? ==> -IntMax - 1 <= r.value <= IntMax
    ensures r.Fail? ==> r.error == NumberFormat
  {
    if |s| > 0 && s[0] == '-' then ParseDigits(s[1..], true)
    else if |s| > 0 && s[0] == '+' then ParseDigits(s[1..], false)
    else ParseDigits(s, false)
  }

  /** A run of word characters parses iff it is all digits and at most 2^31 - 1. */
  lemma ParseWordToken(s: string)
    requires s != [] && forall i :: 0 <= i < |s| ==> IsWordChar(s[i])
    ensures ParseInt(s).Ok? <==> AllDigits(s) && DigitsValue(s) <= IntMax
    ensures ParseInt(s).Ok? ==> ParseInt(s).value == DigitsValue(s)
  {
    assert IsWordChar(s[0]);
  }
}
