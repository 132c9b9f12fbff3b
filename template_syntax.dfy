/**
 * The two scanners `UriTemplate` runs over a template: `\{[^{}]+\}`, which
 * finds the braced spans, and `\w+`, which finds the names inside a span.
 * Each is given as a specification function for `Matcher.find()` from a
 * position, a method with the search loop, and lemmas saying what the
 * functions find.
 */
module TemplateSyntax {
  import opened Results
  import opened Text

  predicate IsBrace(c: char) {
    c == '{' || c == '}'
  }

  /** The first position at or after `k` that holds a brace, or |s|. */
  function NextBrace(s: string, k: nat): (r: nat)
    ensures r <= |s| && (k <= |s| ==> k <= r)
    ensures r < |s| ==> IsBrace(s[r])
    ensures forall j :: k <= j < r ==> !IsBrace(s[j])
    decreases |s| - k
  {
    if k >= |s| then |s| else if IsBrace(s[k]) then k else NextBrace(s, k + 1)
  }

  /** The first position at or after `k` that holds no word character, or |s|. */
  function RunEnd(s: string, k: nat): (r: nat)
    ensures r <= |s| && (k <= |s| ==> k <= r)
    ensures r < |s| ==> !IsWordChar(s[r])
    ensures forall j :: k <= j < r ==> IsWordChar(s[j])
    decreases |s| - k
  {
    if k >= |s| then |s| else if !IsWordChar(s[k]) then k else RunEnd(s, k + 1)
  }

  /** The text of a whole match of `\{[^{}]+\}`. */
  predicate IsSpanText(t: string) {
    |t| >= 3 && t[0] == '{' && t[|t| - 1] == '}' && forall k :: 0 < k < |t| - 1 ==> !IsBrace(t[k])
  }

  /** `\{[^{}]+\}` matches at `i`: the first brace after the '{' is a '}' with something in between. */
  predicate SpanStartsAt(s: string, i: nat) {
    i < |s| && s[i] == '{' && NextBrace(s, i + 1) < |s| && s[NextBrace(s, i + 1)] == '}' && NextBrace(s, i + 1) > i + 1
  }

  /** `Matcher.find()` for `\{[^{}]+\}` from position `p`: the start and end of the leftmost match. */
  function NextSpan(s: string, p: nat): (r: Option<(nat, nat)>)
    ensures r.Some? ==> p <= r.value.0 < r.value.1 <= |s|
    decreases |s| - p
  {
    if p >= |s| then None
    else if SpanStartsAt(s, p) then Some((p, NextBrace(s, p + 1) + 1))
    else NextSpan(s, p + 1)
  }

  /** `Matcher.find()` for `\w+` from position `p`: the leftmost run of word characters, taken whole. */
  function NextWord(s: string, p: nat): (r: Option<(nat, nat)>)
    ensures r.Some? ==> p <= r.value.0 < r.value.1 <= |s|
    decreases |s| - p
  {
    if p >= |s| then None
    else if IsWordChar(s[p]) then Some((p, RunEnd(s, p)))
    else NextWord(s, p + 1)
  }

  /** The texts of the successive matches of `\{[^{}]+\}` from `p`, as repeated `find()` calls yield them. */
  function SpansFrom(s: string, p: nat): seq<string>
    decreases |s| - p
  {
    match NextSpan(s, p)
    case None => []
    case Some((i, e)) => [s[i..e]] + SpansFrom(s, e)
  }

  /** The texts of the successive matches of `\w+` from `p`. */
  function WordsFrom(s: string, p: nat): seq<string>
    decreases |s| - p
  {
    match NextWord(s, p)
    case None => []
    case Some((i, e)) => [s[i..e]] + WordsFrom(s, e)
  }

  /** `s[i..e]` is a run of word characters that cannot be extended either way. */
  predicate IsMaximalRun(s: string, i: nat, e: nat) {
    i < e <= |s| && (forall k :: i <= k < e ==> IsWordChar(s[k])) &&
    (i == 0 || !IsWordChar(s[i - 1])) && (e == |s| || !IsWordChar(s[e]))
  }

  /** The search loop of `Matcher.find()` for `\{[^{}]+\}`: try each start in turn. */
  method FindSpan(s: string, p: nat) returns (r: Option<(nat, nat)>)
    ensures r == NextSpan(s, p)
  {
    var i := p;
    while i < |s|
      invariant p <= i
      invariant NextSpan(s, p) == NextSpan(s, i)
      decreases |s| - i
    {
      if s[i] == '{' {
        var j := i + 1;
        while j < |s| && !IsBrace(s[j])
          invariant i + 1 <= j <= |s|
          invariant NextBrace(s, i + 1) == NextBrace(s, j)
          decreases |s| - j
        {
          j := j + 1;
        }
        if j < |s| && s[j] == '}' && j > i + 1 {
          return Some((i, j + 1));
        }
      }
      i := i + 1;
    }
    return None;
  }

  /** The search loop of `Matcher.find()` for `\w+`: skip to a word character, then take the whole run. */
  method FindWord(s: string, p: nat) returns (r: Option<(nat, nat)>)
    ensures r == NextWord(s, p)
  {
    var i := p;
    while i < |s| && !IsWordChar(s[i])
      invariant p <= i
      invariant NextWord(s, p) == NextWord(s, i)
      decreases |s| - i
    {
      i := i + 1;
    }
    if i >= |s| {
      return None;
    }
    var e := i;
    while e < |s| && IsWordChar(s[e])
      invariant i <= e <= |s|
      invariant RunEnd(s, i) == RunEnd(s, e)
      decreases |s| - e
    {
      e := e + 1;
    }
    return Some((i, e));
  }

  /** A span found at `i` is a whole match of `\{[^{}]+\}`, and no other match starts at `i`. */
  lemma SpanStartIsMatch(s: string, i: nat)
    requires SpanStartsAt(s, i)
    ensures IsSpanText(s[i..NextBrace(s, i + 1) + 1])
    ensures forall e :: i < e <= |s| && IsSpanText(s[i..e]) ==> e == NextBrace(s, i + 1) + 1
  {
    var b := NextBrace(s, i + 1);
    forall e | i < e <= |s| && IsSpanText(s[i..e]) ensures e == b + 1 {
      var t := s[i..e];
      assert IsBrace(s[e - 1]) by {
        assert s[e - 1] == t[|t| - 1];
      }
      assert forall k :: i < k < e - 1 ==> !IsBrace(s[k]) by {
        forall k | i < k < e - 1 ensures !IsBrace(s[k]) {
          assert s[k] == t[k - i];
        }
      }
    }
  }

  /** Conversely, wherever `\{[^{}]+\}` matches, a span starts. */
  lemma MatchIsSpanStart(s: string, i: nat, e: nat)
    requires i < e <= |s| && IsSpanText(s[i..e])
    ensures SpanStartsAt(s, i) && NextBrace(s, i + 1) + 1 == e
  {
    var t := s[i..e];
    assert s[i] == t[0];
    assert forall j :: i + 1 <= j < e - 1 ==> !IsBrace(s[j]) by {
      forall j | i + 1 <= j < e - 1 ensures !IsBrace(s[j]) {
        assert s[j] == t[j - i];
      }
    }
    assert s[e - 1] == t[|t| - 1];
    NextBraceSkips(s, i + 1, e - 1);
  }

  /** With no brace in [k, m) and one at m, the next brace from k is at m. */
  lemma {:induction false} NextBraceSkips(s: string, k: nat, m: nat)
    requires k <= m < |s| && IsBrace(s[m])
    requires forall j :: k <= j < m ==> !IsBrace(s[j])
    ensures NextBrace(s, k) == m
    decreases m - k
  {
    if k < m {
      NextBraceSkips(s, k + 1, m);
    }
  }

  /** `NextSpan` finds the leftmost match at or after `p`, and None means there is none. */
  lemma {:induction false} NextSpanLeftmost(s: string, p: nat)
    ensures NextSpan(s, p).None? ==> forall i :: p <= i ==> !SpanStartsAt(s, i)
    ensures NextSpan(s, p).Some? ==>
      SpanStartsAt(s, NextSpan(s, p).value.0) &&
      NextSpan(s, p).value.1 == NextBrace(s, NextSpan(s, p).value.0 + 1) + 1 &&
      forall i :: p <= i < NextSpan(s, p).value.0 ==> !SpanStartsAt(s, i)
    decreases |s| - p
  {
    if p < |s| && !SpanStartsAt(s, p) {
      NextSpanLeftmost(s, p + 1);
    }
  }

  /** No match starts strictly inside a match. */
  lemma SpansDoNotOverlap(s: string, i: nat, j: nat)
    requires SpanStartsAt(s, i) && i < j < NextBrace(s, i + 1) + 1
    ensures !SpanStartsAt(s, j)
  {
  }

  /** Each text `SpansFrom` yields is a whole match of `\{[^{}]+\}`. */
  lemma {:induction false} SpansAreSpanTexts(s: string, p: nat)
    ensures forall k :: 0 <= k < |SpansFrom(s, p)| ==> IsSpanText(SpansFrom(s, p)[k])
    decreases |s| - p
  {
    match NextSpan(s, p)
    case None =>
    case Some((i, e)) =>
      NextSpanLeftmost(s, p);
      SpanStartIsMatch(s, i);
      SpansAreSpanTexts(s, e);
  }

  /** Each text `SpansFrom` yields is the match at some start of a span at or after `p`. */
  lemma {:induction false} SpansFromSound(s: string, p: nat, k: nat)
    requires k < |SpansFrom(s, p)|
    ensures exists i: nat :: p <= i && SpanStartsAt(s, i) && SpansFrom(s, p)[k] == s[i..NextBrace(s, i + 1) + 1]
    decreases |s| - p
  {
    NextSpanLeftmost(s, p);
    var m := NextSpan(s, p).value;
    if k == 0 {
      assert SpansFrom(s, p)[0] == s[m.0..NextBrace(s, m.0 + 1) + 1];
    } else {
      SpansFromSound(s, m.1, k - 1);
    }
  }

  /** Repeated `find()` misses no match: every start of a span at or after `p` is visited. */
  lemma {:induction false} SpansFromComplete(s: string, p: nat, i: nat)
    requires p <= i && SpanStartsAt(s, i)
    ensures s[i..NextBrace(s, i + 1) + 1] in SpansFrom(s, p)
    decreases |s| - p
  {
    NextSpanLeftmost(s, p);
    var m := NextSpan(s, p).value;
    if m.0 != i {
      assert m.0 < i;
      if i < m.1 {
        SpansDoNotOverlap(s, m.0, i);
      }
      SpansFromComplete(s, m.1, i);
    }
  }

  /** A template has a span iff `\{[^{}]+\}` matches somewhere in it. */
  lemma HasSpanIff(s: string)
    ensures SpansFrom(s, 0) != [] <==> exists i :: SpanStartsAt(s, i)
  {
    NextSpanLeftmost(s, 0);
    if exists i :: SpanStartsAt(s, i) {
      var i :| SpanStartsAt(s, i);
      SpansFromComplete(s, 0, i);
    }
  }

  /** `NextWord` finds the leftmost word character at or after `p` and takes its run whole. */
  lemma {:induction false} NextWordLeftmost(s: string, p: nat)
    ensures NextWord(s, p).None? ==> forall i :: p <= i < |s| ==> !IsWordChar(s[i])
    ensures NextWord(s, p).Some? ==>
      IsWordChar(s[NextWord(s, p).value.0]) &&
      NextWord(s, p).value.1 == RunEnd(s, NextWord(s, p).value.0) &&
      forall i :: p <= i < NextWord(s, p).value.0 ==> !IsWordChar(s[i])
    decreases |s| - p
  {
    if p < |s| && !IsWordChar(s[p]) {
      NextWordLeftmost(s, p + 1);
    }
  }

  /** A whole run of word characters at `i`, with none between `p` and `i`, is the next word from `p`. */
  lemma NextWordAt(s: string, p: nat, i: nat, e: nat)
    requires p <= i < e <= |s|
    requires forall j :: p <= j < i ==> !IsWordChar(s[j])
    requires forall j :: i <= j < e ==> IsWordChar(s[j])
    requires e < |s| ==> !IsWordChar(s[e])
    ensures NextWord(s, p) == Some((i, e))
  {
    NextWordLeftmost(s, p);
    var r := RunEnd(s, i);
    assert e <= r;
    assert r <= e;
  }

  /** With no word character from `p` on, there is no next word. */
  lemma NoWordFrom(s: string, p: nat)
    requires forall j :: p <= j < |s| ==> !IsWordChar(s[j])
    ensures NextWord(s, p) == None
  {
    NextWordLeftmost(s, p);
  }

  /** Position `p` is not strictly inside a run of word characters. */
  predicate AtRunBoundary(s: string, p: nat) {
    p == 0 || p >= |s| || !IsWordChar(s[p - 1]) || !IsWordChar(s[p])
  }

  /** Every word found from a run boundary is a maximal run after it. */
  lemma {:induction false} WordsFromSound(s: string, p: nat, k: nat)
    requires p <= |s| && AtRunBoundary(s, p)
    requires k < |WordsFrom(s, p)|
    ensures exists i: nat, e: nat :: p <= i && IsMaximalRun(s, i, e) && s[i..e] == WordsFrom(s, p)[k]
    decreases |s| - p
  {
    NextWordLeftmost(s, p);
    var m := NextWord(s, p).value;
    assert IsMaximalRun(s, m.0, m.1);
    if k > 0 {
      WordsFromSound(s, m.1, k - 1);
    }
  }

  /** Every maximal run after a run boundary is found. */
  lemma {:induction false} WordsFromComplete(s: string, p: nat, i: nat, e: nat)
    requires p <= |s| && AtRunBoundary(s, p)
    requires p <= i && IsMaximalRun(s, i, e)
    ensures s[i..e] in WordsFrom(s, p)
    decreases |s| - p
  {
    NextWordLeftmost(s, p);
    assert IsWordChar(s[i]);
    var m := NextWord(s, p).value;
    if i > m.0 {
      assert !IsWordChar(s[i - 1]);
      WordsFromComplete(s, m.1, i, e);
    } else {
      assert e < |s| ==> !IsWordChar(s[e]);
      assert m.1 < |s| ==> !IsWordChar(s[m.1]);
      assert e == m.1;
    }
  }

  /** Scanning from a run boundary finds exactly the maximal runs after it. */
  lemma WordsFromMaximal(s: string, p: nat, w: string)
    requires p <= |s| && AtRunBoundary(s, p)
    ensures w in WordsFrom(s, p) <==> exists i: nat, e: nat :: p <= i && IsMaximalRun(s, i, e) && s[i..e] == w
  {
    if w in WordsFrom(s, p) {
      var k :| 0 <= k < |WordsFrom(s, p)| && WordsFrom(s, p)[k] == w;
      WordsFromSound(s, p, k);
    }
    if exists i: nat, e: nat :: p <= i && IsMaximalRun(s, i, e) && s[i..e] == w {
      var i: nat, e: nat :| p <= i && IsMaximalRun(s, i, e) && s[i..e] == w;
      WordsFromComplete(s, p, i, e);
    }
  }

  /** No word contains a brace, so a word never reaches past a span's closing '}'. */
  lemma WordsStopBeforeClose(t: string, p: nat)
    requires IsSpanText(t)
    ensures NextWord(t, p).Some? ==> NextWord(t, p).value.1 < |t|
  {
    NextWordLeftmost(t, p);
    if NextWord(t, p).Some? {
      var m := NextWord(t, p).value;
      assert !IsWordChar(t[|t| - 1]);
    }
  }
}
