/**
 * What the URI template engine produces, stated over the specification
 * functions of `UriTemplates` (which the class methods are proved to follow):
 * templates without spans, unbound variables, the rendering of scalars,
 * prefixes, lists and maps, `hasParameter`, and a worked expansion.
 */
module UriTemplateProperties {
  import opened Results
  import opened Objects
  import opened Text
  import opened Operators
  import opened Encoding
  import opened TemplateSyntax
  import opened UriTemplates

  /** A variable name as `\w+` finds it: a non-empty run of word characters. */
  predicate IsName(name: string) {
    name != [] && forall k :: 0 <= k < |name| ==> IsWordChar(name[k])
  }

  /** The span for one variable: `{`, the operator's code, the name, a modifier, `}`. */
  function VariableSpan(op: Operator, name: string, modifier: string): string {
    "{" + op.Code() + name + modifier + "}"
  }

  // ---------------------------------------------------------------------
  // Templates without spans, unbound variables
  // ---------------------------------------------------------------------

  /** Where `\{[^{}]+\}` matches nowhere, build returns the template itself. */
  lemma BuildWithoutSpan(t: string, values: Bindings)
    requires forall i: nat :: !SpanStartsAt(t, i)
    ensures Built(t, values) == Ok(t)
  {
    HasSpanIff(t);
  }

  /**
   * Every ':' of the span has a word after it, so the second `find()` of a
   * `:N` modifier succeeds.
   */
  predicate ModifiersSized(span: string) {
    forall j :: 0 <= j < |span| && span[j] == ':' ==> NextWord(span, j).Some?
  }

  /** With every word of the span unbound, size words included, the walk yields nothing. */
  lemma {:induction false} WalkUnbound(span: string, p: nat, op: Operator, values: Bindings)
    requires IsSpanText(span) && ModifiersSized(span)
    requires forall w :: w in WordsFrom(span, p) ==> w !in values
    ensures Walk(span, p, op, values) == Ok("")
    decreases |span| - p
  {
    WordsStopBeforeClose(span, p);
    match NextWord(span, p)
    case None =>
    case Some((i, e)) =>
      var name := span[i..e];
      assert WordsFrom(span, p) == [name] + WordsFrom(span, e);
      assert name !in values;
      if span[e] == ':' {
        var (i2, e2) := NextWord(span, e).value;
        assert WordsFrom(span, e) == [span[i2..e2]] + WordsFrom(span, e2);
        WalkUnbound(span, e2, op, values);
        assert Modify(name, span[i2..e2], op, values) == Ok("");
        assert "" + "" == "";
        assert Prepend("", Walk(span, e2, op, values)) == Ok("");
      } else {
        WalkUnbound(span, e, op, values);
        assert Expansion(name, op, values) == Ok("") && Explosion(name, op, values) == Ok("");
        assert "" + "" == "";
        assert Prepend("", Walk(span, e, op, values)) == Ok("");
      }
  }

  /**
   * A span whose words are all unbound expands to the operator's prefix alone,
   * less the prefix when it is also the separator; a `:N` modifier of an
   * unbound name contributes nothing either.
   */
  lemma UnboundSpan(span: string, values: Bindings)
    requires IsSpanText(span) && ModifiersSized(span)
    requires forall w :: w in WordsFrom(span, 0) ==> w !in values
    ensures
      var op := FromOpCode(span[1..2]);
      SpanExpansion(span, values) == Ok(if op.Prefix() == op.Separator() then "" else op.Prefix())
  {
    var op := FromOpCode(span[1..2]);
    WalkUnbound(span, 0, op, values);
    OneCharacterTexts(op);
    assert op.Prefix() + "" == op.Prefix();
  }

  /**
   * A ':' with no size word after it makes the second `find()` fail, and
   * `group()` then throws IllegalStateException, bound or not: `{?x:}` throws.
   */
  lemma ModifierWithoutSize(op: Operator, name: string, values: Bindings)
    requires op != DefaultOp && IsName(name)
    ensures SpanExpansion(VariableSpan(op, name, ":"), values) == Fail(IllegalState)
  {
    var span := VariableSpan(op, name, ":");
    var e := 1 + |op.Code()| + |name|;
    VariableSpanOperator(op, name, ":");
    CodesAreCodes(op);
    VariableSpanWords(op.Code(), name, ":", e);
    assert span == "{" + op.Code() + name + ":" + "}";
    assert |span| == e + 2 && span[e] == ':';
    assert Walk(span, 0, op, values) == Fail(IllegalState);
    SpanOfWalk(span, op, values);
  }

  /**
   * The prefix is emitted even when the one variable of a span is unbound, unless
   * it equals the separator: `{?x}` gives "?", `{#x}` "#", `{/x}` "".
   */
  lemma UnboundVariable(op: Operator, name: string, values: Bindings)
    requires op != DefaultOp && IsName(name) && name !in values
    ensures SpanExpansion(VariableSpan(op, name, ""), values) ==
      Ok(if op.Prefix() == op.Separator() then "" else op.Prefix())
    ensures op == QueryOp ==> SpanExpansion(VariableSpan(op, name, ""), values) == Ok("?")
    ensures op == SharpOp ==> SpanExpansion(VariableSpan(op, name, ""), values) == Ok("#")
    ensures op == SlashOp ==> SpanExpansion(VariableSpan(op, name, ""), values) == Ok("")
  {
    SingleVariableSpan(op, name, false, values);
    OneCharacterTexts(op);
    assert op.Prefix() + "" == op.Prefix();
  }

  /**
   * The same holds with a `:N` modifier, whatever N is, since modify gives
   * nothing for an unbound name before it reads the size: `{?x:3}` gives "?".
   */
  lemma UnboundPrefixVariable(op: Operator, name: string, size: string, values: Bindings)
    requires op != DefaultOp && IsName(name) && IsName(size) && name !in values
    ensures SpanExpansion(VariableSpan(op, name, ":" + size), values) ==
      Ok(if op.Prefix() == op.Separator() then "" else op.Prefix())
    ensures op == QueryOp ==> SpanExpansion(VariableSpan(op, name, ":" + size), values) == Ok("?")
  {
    PrefixSpanWalk(op, name, size, values);
    OneCharacterTexts(op);
    assert op.Prefix() + "" == op.Prefix();
  }

  // ---------------------------------------------------------------------
  // One step of the walk over a span's words
  // ---------------------------------------------------------------------

  /** No word left: the walk ends with nothing. */
  lemma WalkEnd(span: string, p: nat, op: Operator, values: Bindings)
    requires NextWord(span, p) == None
    ensures Walk(span, p, op, values) == Ok("")
  {
  }

  /** A word followed by '*' is exploded. */
  lemma WalkExplodeStep(span: string, p: nat, op: Operator, values: Bindings, i: nat, e: nat)
    requires NextWord(span, p) == Some((i, e)) && e < |span| && span[e] == '*'
    ensures
      var piece := Explosion(span[i..e], op, values);
      Walk(span, p, op, values) == if piece.Fail? then piece else Prepend(piece.value, Walk(span, e, op, values))
  {
  }

  /** A word followed by ':' and a second word is truncated by modify. */
  lemma WalkPrefixStep(span: string, p: nat, op: Operator, values: Bindings, i: nat, e: nat, i2: nat, e2: nat)
    requires NextWord(span, p) == Some((i, e)) && e < |span| && span[e] == ':'
    requires NextWord(span, e) == Some((i2, e2))
    ensures
      var piece := Modify(span[i..e], span[i2..e2], op, values);
      Walk(span, p, op, values) == if piece.Fail? then piece else Prepend(piece.value, Walk(span, e2, op, values))
  {
  }

  /** Any other word is expanded. */
  lemma WalkPlainStep(span: string, p: nat, op: Operator, values: Bindings, i: nat, e: nat)
    requires NextWord(span, p) == Some((i, e)) && e < |span| && span[e] != '*' && span[e] != ':'
    ensures
      var piece := Expansion(span[i..e], op, values);
      Walk(span, p, op, values) == if piece.Fail? then piece else Prepend(piece.value, Walk(span, e, op, values))
  {
  }

  // ---------------------------------------------------------------------
  // Spans of one variable
  // ---------------------------------------------------------------------

  /** The character after the '{' of a one-variable span selects the operator whose code it is. */
  lemma VariableSpanOperator(op: Operator, name: string, modifier: string)
    requires op != DefaultOp && IsName(name)
    ensures FromOpCode(VariableSpan(op, name, modifier)[1..2]) == op
  {
    var span := VariableSpan(op, name, modifier);
    var x := span[1..2];
    FromOpCodeTable(x);
    assert span == "{" + op.Code() + name + modifier + "}";
    if op == NullOp {
      assert span[1] == name[0];
      assert x == [name[0]];
      assert IsWordChar(name[0]);
    } else {
      assert span[1] == op.Code()[0];
      assert x == op.Code();
    }
  }

  /** An operator code is empty or one character that is not a word character. */
  predicate IsCode(c: string) {
    |c| <= 1 && forall k :: 0 <= k < |c| ==> !IsWordChar(c[k])
  }

  lemma CodesAreCodes(op: Operator)
    ensures IsCode(op.Code())
  {
  }

  /** The name of a one-variable span is its first word, and nothing from `from` on is a word. */
  lemma VariableSpanWords(c: string, name: string, modifier: string, from: nat)
    requires IsCode(c) && IsName(name)
    requires forall k :: 0 <= k < |modifier| ==> !IsWordChar(modifier[k])
    requires from == 1 + |c| + |name|
    ensures NextWord("{" + c + name + modifier + "}", 0) == Some((1 + |c|, from))
    ensures ("{" + c + name + modifier + "}")[1 + |c|..from] == name
    ensures NextWord("{" + c + name + modifier + "}", from) == None
  {
    var span := "{" + c + name + modifier + "}";
    var i := 1 + |c|;
    assert forall j :: 0 <= j < i ==> !IsWordChar(span[j]) by {
      forall j | 0 <= j < i ensures !IsWordChar(span[j]) {
        if j > 0 {
          assert span[j] == c[j - 1];
        }
      }
    }
    assert forall j :: i <= j < from ==> IsWordChar(span[j]) by {
      forall j | i <= j < from ensures IsWordChar(span[j]) {
        assert span[j] == name[j - i];
      }
    }
    assert forall j :: from <= j < |span| ==> !IsWordChar(span[j]) by {
      forall j | from <= j < |span| ensures !IsWordChar(span[j]) {
        if j < |span| - 1 {
          assert span[j] == modifier[j - from];
        }
      }
    }
    NextWordAt(span, 0, i, from);
    NoWordFrom(span, from);
    assert span[i..from] == name;
  }

  /** `{` code name `}` and `{` code name `*}` expand their one variable, then drop one separator. */
  lemma SingleVariableSpan(op: Operator, name: string, explode: bool, values: Bindings)
    requires op != DefaultOp && IsName(name)
    ensures
      var piece := if explode then Explosion(name, op, values) else Expansion(name, op, values);
      SpanExpansion(VariableSpan(op, name, if explode then "*" else ""), values) ==
        if piece.Fail? then piece else Ok(StripSeparator(op.Prefix() + piece.value, op))
  {
    var modifier := if explode then "*" else "";
    var span := VariableSpan(op, name, modifier);
    var e := 1 + |op.Code()| + |name|;
    VariableSpanOperator(op, name, modifier);
    CodesAreCodes(op);
    VariableSpanWords(op.Code(), name, modifier, e);
    assert span == "{" + op.Code() + name + modifier + "}";
    assert |span| == e + |modifier| + 1 && span[e] == if explode then '*' else '}';
    var piece := if explode then Explosion(name, op, values) else Expansion(name, op, values);
    assert Walk(span, e, op, values) == Ok("");
    if piece.Ok? {
      assert Walk(span, 0, op, values) == Prepend(piece.value, Ok(""));
      assert piece.value + "" == piece.value;
    } else {
      assert Walk(span, 0, op, values) == piece;
    }
  }

  lemma Associative(a: string, b: string, c: string)
    ensures a + (b + c) == a + b + c
  {
  }

  /** Dropping the separator a rendering ended with leaves the prefix and the rendering. */
  lemma StripTrailingSeparator(op: Operator, x: string)
    ensures StripSeparator(op.Prefix() + x + op.Separator(), op) == op.Prefix() + x
  {
    OneCharacterTexts(op);
    var ps := op.Prefix() + x + op.Separator();
    if op.HasSeparator() {
      assert EndsWith(ps, op.Separator());
      assert ps[..|ps| - 1] == op.Prefix() + x;
    } else {
      assert ps == op.Prefix() + x;
    }
  }

  /** A one-variable span whose rendering ends with the separator expands to the prefix and the rendering without it. */
  lemma RenderedSpan(op: Operator, name: string, explode: bool, values: Bindings, x: string)
    requires op != DefaultOp && IsName(name)
    requires (if explode then Explosion(name, op, values) else Expansion(name, op, values)) == Ok(x + op.Separator())
    ensures SpanExpansion(VariableSpan(op, name, if explode then "*" else ""), values) == Ok(op.Prefix() + x)
  {
    SingleVariableSpan(op, name, explode, values);
    StripTrailingSeparator(op, x);
    assert op.Prefix() + (x + op.Separator()) == op.Prefix() + x + op.Separator();
  }

  /**
   * A bound scalar renders as `name=enc(v)` under a named operator and `enc(v)`
   * otherwise, after the prefix; a null value throws.
   */
  lemma ScalarSpan(op: Operator, name: string, values: Bindings)
    requires op != DefaultOp && IsName(name) && name in values && values[name].IsScalar()
    ensures SpanExpansion(VariableSpan(op, name, ""), values) ==
      Ok(op.Prefix() + Named(name, op) + Encode(values[name].ToString()))
  {
    var v := values[name];
    var x := Named(name, op) + Encode(v.ToString());
    assert Expansion(name, op, values) == Ok(x + op.Separator());
    RenderedSpan(op, name, false, values, x);
    Associative(op.Prefix(), Named(name, op), Encode(v.ToString()));
  }

  /** A variable bound to null makes the span throw. */
  lemma NullSpan(op: Operator, name: string, values: Bindings)
    requires op != DefaultOp && IsName(name) && name in values && values[name].Null?
    ensures SpanExpansion(VariableSpan(op, name, ""), values) == Fail(NullPointer)
  {
    SingleVariableSpan(op, name, false, values);
  }


  /**
   * modify with a `\w+` size: an unbound name gives nothing; otherwise a value that
   * is neither null nor a String throws ClassCast before the size is parsed, a size
   * that is not a 32-bit decimal throws NumberFormat, a null value NullPointer, and
   * a size beyond the value IndexOutOfBounds; else the first `size` characters are
   * encoded.
   */
  lemma ModifyCases(name: string, size: string, op: Operator, values: Bindings)
    requires IsName(size)
    ensures name !in values ==> Modify(name, size, op, values) == Ok("")
    ensures name in values && !values[name].Null? && !values[name].JString? ==>
      Modify(name, size, op, values) == Fail(ClassCast)
    ensures name in values && (values[name].Null? || values[name].JString?) &&
            !(AllDigits(size) && DigitsValue(size) <= IntMax) ==>
      Modify(name, size, op, values) == Fail(NumberFormat)
    ensures name in values && values[name].Null? && AllDigits(size) && DigitsValue(size) <= IntMax ==>
      Modify(name, size, op, values) == Fail(NullPointer)
    ensures name in values && values[name].JString? && AllDigits(size) && DigitsValue(size) <= IntMax ==>
      Modify(name, size, op, values) ==
        if DigitsValue(size) <= |values[name].s|
        then Ok(Named(name, op) + Encode(values[name].s[..DigitsValue(size)]) + op.Separator())
        else Fail(IndexOutOfBounds)
  {
    ParseWordToken(size);
  }

  /** The characters of a name placed after `pre` are word characters. */
  lemma WordsAt(s: string, pre: string, w: string, post: string)
    requires s == pre + w + post && IsName(w)
    ensures forall j :: |pre| <= j < |pre| + |w| ==> IsWordChar(s[j])
  {
    assert forall j :: |pre| <= j < |pre| + |w| ==> s[j] == w[j - |pre|];
  }

  /** The characters of a text without word characters placed after `pre` are not word characters. */
  lemma NoWordsAt(s: string, pre: string, w: string, post: string)
    requires s == pre + w + post && forall k :: 0 <= k < |w| ==> !IsWordChar(w[k])
    ensures forall j :: |pre| <= j < |pre| + |w| ==> !IsWordChar(s[j])
  {
    assert forall j :: |pre| <= j < |pre| + |w| ==> s[j] == w[j - |pre|];
  }

  /** The two words of `{` code name `:` size `}`: the name, then the size after the ':'. */
  lemma PrefixSpanWords(span: string, c: string, name: string, size: string, i: nat, e: nat, e2: nat)
    requires IsCode(c) && IsName(name) && IsName(size)
    requires span == "{" + c + name + ":" + size + "}"
    requires i == 1 + |c| && e == i + |name| && e2 == e + 1 + |size|
    ensures |span| == e2 + 1 && span[e] == ':'
    ensures NextWord(span, 0) == Some((i, e)) && span[i..e] == name
    ensures NextWord(span, e) == Some((e + 1, e2)) && span[e + 1..e2] == size
    ensures NextWord(span, e2) == None
  {
    var head := "{" + c;
    assert span == "" + head + (name + ":" + size + "}");
    NoWordsAt(span, "", head, name + ":" + size + "}");
    assert span == head + name + (":" + size + "}");
    WordsAt(span, head, name, ":" + size + "}");
    assert span == (head + name + ":") + size + "}";
    WordsAt(span, head + name + ":", size, "}");
    assert span[e] == ':' && span[e2] == '}' && |span| == e2 + 1;
    TwoWords(span, i, e, e2);
    assert span[i..e] == name;
    assert span[e + 1..e2] == size;
  }

  /** Two runs of word characters separated by one other character, before a last one. */
  lemma TwoWords(s: string, i: nat, e: nat, e2: nat)
    requires i < e && e + 1 < e2 && |s| == e2 + 1
    requires forall j :: 0 <= j < i ==> !IsWordChar(s[j])
    requires forall j :: i <= j < e ==> IsWordChar(s[j])
    requires forall j :: e + 1 <= j < e2 ==> IsWordChar(s[j])
    requires !IsWordChar(s[e]) && !IsWordChar(s[e2])
    ensures NextWord(s, 0) == Some((i, e))
    ensures NextWord(s, e) == Some((e + 1, e2))
    ensures NextWord(s, e2) == None
  {
    NextWordAt(s, 0, i, e);
    NextWordAt(s, e, e + 1, e2);
    NoWordFrom(s, e2);
  }

  /** `{` code name `:` size `}` expands its one variable truncated by modify, then drops one separator. */
  lemma PrefixSpanWalk(op: Operator, name: string, size: string, values: Bindings)
    requires op != DefaultOp && IsName(name) && IsName(size)
    ensures
      var piece := Modify(name, size, op, values);
      SpanExpansion(VariableSpan(op, name, ":" + size), values) ==
        if piece.Fail? then piece else Ok(StripSeparator(op.Prefix() + piece.value, op))
  {
    var c := op.Code();
    var span := VariableSpan(op, name, ":" + size);
    assert span == "{" + c + name + ":" + size + "}" by {
      Associative("{" + c + name, ":", size);
    }
    VariableSpanOperator(op, name, ":" + size);
    CodesAreCodes(op);
    var i := 1 + |c|;
    var e := i + |name|;
    var e2 := e + 1 + |size|;
    PrefixSpanWords(span, c, name, size, i, e, e2);
    PrefixWalk(span, op, values, i, e, e2);
    SpanOfWalk(span, op, values);
  }

  /** The walk over a span whose words are a name, ':' and a size: modify's piece, or its exception. */
  lemma PrefixWalk(span: string, op: Operator, values: Bindings, i: nat, e: nat, e2: nat)
    requires e < e2 && |span| == e2 + 1 && span[e] == ':'
    requires NextWord(span, 0) == Some((i, e)) && NextWord(span, e) == Some((e + 1, e2))
    requires NextWord(span, e2) == None
    ensures Walk(span, 0, op, values) == Modify(span[i..e], span[e + 1..e2], op, values)
  {
    WalkEnd(span, e2, op, values);
    WalkPrefixStep(span, 0, op, values, i, e, e + 1, e2);
    var piece := Modify(span[i..e], span[e + 1..e2], op, values);
    if piece.Ok? {
      assert piece.value + "" == piece.value;
    }
  }

  /** A span expands to its operator's prefix and its walk, less one trailing separator. */
  lemma SpanOfWalk(span: string, op: Operator, values: Bindings)
    requires |span| >= 2 && FromOpCode(span[1..2]) == op
    ensures var w := Walk(span, 0, op, values);
      SpanExpansion(span, values) == if w.Fail? then w else Ok(StripSeparator(op.Prefix() + w.value, op))
  {
  }

  /** `{` code name `:` size `}`: the prefix and the first `size` characters, or modify's exception. */
  lemma PrefixSpan(op: Operator, name: string, size: string, values: Bindings)
    requires op != DefaultOp && IsName(name) && IsName(size)
    ensures Modify(name, size, op, values).Fail? ==>
      SpanExpansion(VariableSpan(op, name, ":" + size), values) == Modify(name, size, op, values)
    ensures name in values && values[name].JString? && AllDigits(size) &&
            DigitsValue(size) <= IntMax && DigitsValue(size) <= |values[name].s| ==>
      SpanExpansion(VariableSpan(op, name, ":" + size), values) ==
        Ok(op.Prefix() + Named(name, op) + Encode(values[name].s[..DigitsValue(size)]))
  {
    PrefixSpanWalk(op, name, size, values);
    ModifyCases(name, size, op, values);
    if name in values && values[name].JString? && AllDigits(size) &&
       DigitsValue(size) <= IntMax && DigitsValue(size) <= |values[name].s| {
      var n := Named(name, op);
      var v := Encode(values[name].s[..DigitsValue(size)]);
      assert Modify(name, size, op, values) == Ok(n + v + op.Separator());
      StripTrailingSeparator(op, n + v);
      Associative(op.Prefix(), n + v, op.Separator());
      Associative(op.Prefix(), n, v);
    }
  }

  // ---------------------------------------------------------------------
  // Lists and maps
  // ---------------------------------------------------------------------

  /** Appending nothing after each string leaves the strings as they are. */
  lemma SuffixedEmpty(xs: seq<string>)
    ensures Suffixed(xs, "") == xs
  {
    assert forall k :: 0 <= k < |xs| ==> xs[k] + "" == xs[k];
  }

  /** The epilogue after a body built of pieces each ending in `d`: the pieces joined by `d`, then the separator. */
  lemma DropLastOfSuffixed(head: string, xs: seq<string>, d: string, op: Operator)
    requires xs != [] && |d| == 1
    ensures DropLastThenSeparator(head + Concat(Suffixed(xs, d)), op) == Ok(head + Join(xs, d) + op.Separator())
  {
    ConcatSuffixed(xs, d);
    var body := head + Concat(Suffixed(xs, d));
    assert body == (head + Join(xs, d)) + d;
    assert body[..|body| - 1] == head + Join(xs, d);
  }

  /**
   * expandCollection: the encoded elements comma-joined once, after `name=` when
   * named, then the separator; an empty collection leaves only `name` and the
   * separator when named, and throws otherwise.
   */
  lemma ExpandedCollectionJoin(name: string, op: Operator, items: seq<string>)
    ensures items != [] ==>
      ExpandedCollection(name, op, items) == Ok(Named(name, op) + Join(EncodedItems(items), ",") + op.Separator())
    ensures items == [] ==>
      ExpandedCollection(name, op, items) == if op.IsNamed() then Ok(name + op.Separator()) else Fail(IndexOutOfBounds)
  {
    if items != [] {
      DropLastOfSuffixed(Named(name, op), EncodedItems(items), ",", op);
    } else {
      assert Named(name, op) + Concat(Suffixed(EncodedItems(items), ",")) == Named(name, op);
      assert (name + "=")[..|name|] == name;
    }
  }

  /**
   * explodeCollection: each element as `name=enc(e)` or `enc(e)`, joined and ended
   * by the separator; an empty collection throws; under NULL_OP, whose separator
   * is empty, the last character of the rendering is lost.
   */
  lemma ExplodedCollectionJoin(name: string, op: Operator, items: seq<string>)
    ensures items != [] && op.HasSeparator() ==>
      ExplodedCollection(name, op, items) == Ok(Join(ExplodedItems(name, op, items), op.Separator()) + op.Separator())
    ensures items == [] ==> ExplodedCollection(name, op, items) == Fail(IndexOutOfBounds)
    ensures !op.HasSeparator() ==>
      var c := Concat(ExplodedItems(name, op, items));
      ExplodedCollection(name, op, items) == if c == "" then Fail(IndexOutOfBounds) else Ok(c[..|c| - 1])
  {
    var xs := ExplodedItems(name, op, items);
    OneCharacterTexts(op);
    if items != [] && op.HasSeparator() {
      DropLastOfSuffixed("", xs, op.Separator(), op);
      assert "" + Concat(Suffixed(xs, op.Separator())) == Concat(Suffixed(xs, op.Separator()));
      assert "" + Join(xs, op.Separator()) == Join(xs, op.Separator());
    }
    if items == [] {
      assert Suffixed(xs, op.Separator()) == [];
    }
    if !op.HasSeparator() {
      SuffixedEmpty(xs);
      var c := Concat(xs);
      if c != "" {
        assert c[..|c| - 1] + "" == c[..|c| - 1];
      }
    }
  }

  /**
   * expandMap: `key,enc(value)` for each entry, comma-joined once, after `name=`
   * when named, then the separator; the keys are not encoded; an empty map leaves
   * only `name` and the separator when named, and throws otherwise.
   */
  lemma ExpandedMapJoin(name: string, op: Operator, entries: seq<(string, string)>)
    ensures entries != [] ==>
      ExpandedMap(name, op, entries) == Ok(Named(name, op) + Join(ExpandedEntries(entries), ",") + op.Separator())
    ensures entries == [] ==>
      ExpandedMap(name, op, entries) == if op.IsNamed() then Ok(name + op.Separator()) else Fail(IndexOutOfBounds)
  {
    if entries != [] {
      DropLastOfSuffixed(Named(name, op), ExpandedEntries(entries), ",", op);
    } else {
      assert Named(name, op) + Concat(Suffixed(ExpandedEntries(entries), ",")) == Named(name, op);
      assert (name + "=")[..|name|] == name;
    }
  }

  /**
   * explodeMap: `key=enc(value)` under a named operator and `key SEP enc(value)`
   * otherwise, joined and ended by the separator; an empty map throws; under
   * NULL_OP the last character of the rendering is lost.
   */
  lemma ExplodedMapJoin(op: Operator, entries: seq<(string, string)>)
    ensures entries != [] && op.HasSeparator() ==>
      ExplodedMap(op, entries) == Ok(Join(ExplodedEntries(op, entries), op.Separator()) + op.Separator())
    ensures entries == [] ==> ExplodedMap(op, entries) == Fail(IndexOutOfBounds)
    ensures !op.HasSeparator() ==>
      var c := Concat(ExplodedEntries(op, entries));
      ExplodedMap(op, entries) == if c == "" then Fail(IndexOutOfBounds) else Ok(c[..|c| - 1])
  {
    var xs := ExplodedEntries(op, entries);
    OneCharacterTexts(op);
    if entries != [] && op.HasSeparator() {
      DropLastOfSuffixed("", xs, op.Separator(), op);
      assert "" + Concat(Suffixed(xs, op.Separator())) == Concat(Suffixed(xs, op.Separator()));
      assert "" + Join(xs, op.Separator()) == Join(xs, op.Separator());
    }
    if entries == [] {
      assert Suffixed(xs, op.Separator()) == [];
    }
    if !op.HasSeparator() {
      SuffixedEmpty(xs);
      var c := Concat(xs);
      if c != "" {
        assert c[..|c| - 1] + "" == c[..|c| - 1];
      }
    }
  }

  /** `{` code name `}` for a non-empty list: the prefix, `name=` when named, the comma-joined elements. */
  lemma ExpandedListSpan(op: Operator, name: string, values: Bindings)
    requires op != DefaultOp && IsName(name) && name in values
    requires values[name].JCollection? && values[name].items != []
    ensures SpanExpansion(VariableSpan(op, name, ""), values) ==
      Ok(op.Prefix() + Named(name, op) + Join(EncodedItems(values[name].items), ","))
  {
    var items := values[name].items;
    var n, j := Named(name, op), Join(EncodedItems(items), ",");
    assert Expansion(name, op, values) == ExpandedCollection(name, op, items);
    ExpandedCollectionJoin(name, op, items);
    RenderedSpan(op, name, false, values, n + j);
    Associative(op.Prefix(), n, j);
  }

  /** `{` code name `*}` for a non-empty list under an operator with a separator: the prefix and the joined elements. */
  lemma ExplodedListSpan(op: Operator, name: string, values: Bindings)
    requires op != DefaultOp && op.HasSeparator() && IsName(name) && name in values
    requires values[name].JCollection? && values[name].items != []
    ensures SpanExpansion(VariableSpan(op, name, "*"), values) ==
      Ok(op.Prefix() + Join(ExplodedItems(name, op, values[name].items), op.Separator()))
  {
    var items := values[name].items;
    var x := Join(ExplodedItems(name, op, items), op.Separator());
    ExplodedCollectionJoin(name, op, items);
    assert Explosion(name, op, values) == Ok(x + op.Separator());
    RenderedSpan(op, name, true, values, x);
  }

  // ---------------------------------------------------------------------
  // hasParameter
  // ---------------------------------------------------------------------

  /** `name` is the maximal run of word characters at [a, b) of the span that starts at `i` of `t`. */
  predicate NameInSpan(t: string, name: string, i: nat, a: nat, b: nat) {
    SpanStartsAt(t, i) && IsMaximalRun(t[i..NextBrace(t, i + 1) + 1], a, b) &&
    t[i..NextBrace(t, i + 1) + 1][a..b] == name
  }

  /**
   * hasParameter holds iff `name` is a maximal run of word characters inside some
   * match of `\{[^{}]+\}` (the digits of a `:N` prefix included).
   */
  lemma HasParameterSound(t: string, name: string)
    requires HasParameterIn(t, name)
    ensures exists i: nat, a: nat, b: nat :: NameInSpan(t, name, i, a, b)
  {
    var spans := SpansFrom(t, 0);
    var k :| 0 <= k < |spans| && name in WordsFrom(spans[k], 0);
    SpansFromSound(t, 0, k);
    var i: nat :| SpanStartsAt(t, i) && spans[k] == t[i..NextBrace(t, i + 1) + 1];
    WordsFromMaximal(spans[k], 0, name);
    var a: nat, b: nat :| IsMaximalRun(spans[k], a, b) && spans[k][a..b] == name;
    assert NameInSpan(t, name, i, a, b);
  }

  lemma HasParameterComplete(t: string, name: string, i: nat, a: nat, b: nat)
    requires NameInSpan(t, name, i, a, b)
    ensures HasParameterIn(t, name)
  {
    var spans := SpansFrom(t, 0);
    var span := t[i..NextBrace(t, i + 1) + 1];
    SpansFromComplete(t, 0, i);
    WordsFromMaximal(span, 0, name);
    var k :| 0 <= k < |spans| && spans[k] == span;
  }

  lemma HasParameterIff(t: string, name: string)
    ensures HasParameterIn(t, name) <==> exists i: nat, a: nat, b: nat :: NameInSpan(t, name, i, a, b)
  {
    if HasParameterIn(t, name) {
      HasParameterSound(t, name);
    }
    if exists i: nat, a: nat, b: nat :: NameInSpan(t, name, i, a, b) {
      var i: nat, a: nat, b: nat :| NameInSpan(t, name, i, a, b);
      HasParameterComplete(t, name, i, a, b);
    }
  }


  // ---------------------------------------------------------------------
  // A worked expansion
  // ---------------------------------------------------------------------

  const ExampleTemplate: string := "{?category*,tag:2,show}"

  /** category = [Museum, Garden], tag = "culture", show unbound. */
  const ExampleValues: Bindings := map["category" := JCollection(["Museum", "Garden"]), "tag" := JString("culture")]

  /** Where the markers of the example template sit. */
  lemma ExampleMarkers()
    ensures |ExampleTemplate| == 23 && ExampleTemplate[0] == '{' && ExampleTemplate[1] == '?'
    ensures ExampleTemplate[10] == '*' && ExampleTemplate[11] == ',' && ExampleTemplate[15] == ':'
    ensures ExampleTemplate[17] == ',' && ExampleTemplate[22] == '}'
  {
  }

  /** Where the names of the example template sit. */
  lemma ExampleCategory()
    ensures ExampleTemplate[2..10] == "category"
  {
  }

  lemma ExampleTag()
    ensures ExampleTemplate[12..15] == "tag" && ExampleTemplate[16..17] == "2"
  {
  }

  lemma ExampleShow()
    ensures ExampleTemplate[18..22] == "show"
  {
  }

  lemma ExampleFirstWord()
    ensures NextWord(ExampleTemplate, 0) == Some((2, 10))
  {
    ExampleMarkers();
    NextWordAt(ExampleTemplate, 0, 2, 10);
  }

  lemma ExampleSecondWord()
    ensures NextWord(ExampleTemplate, 10) == Some((12, 15))
  {
    ExampleMarkers();
    NextWordAt(ExampleTemplate, 10, 12, 15);
  }

  lemma ExampleThirdWord()
    ensures NextWord(ExampleTemplate, 15) == Some((16, 17))
  {
    ExampleMarkers();
    NextWordAt(ExampleTemplate, 15, 16, 17);
  }

  lemma ExampleLastWord()
    ensures NextWord(ExampleTemplate, 17) == Some((18, 22))
    ensures NextWord(ExampleTemplate, 22) == None
  {
    ExampleMarkers();
    NextWordAt(ExampleTemplate, 17, 18, 22);
    NoWordFrom(ExampleTemplate, 22);
  }

  lemma JoinTwo(a: string, b: string, d: string)
    ensures Join([a, b], d) == a + d + b
  {
    assert [a, b][..1] == [a];
  }

  /** A two-element list exploded under an operator with a separator. */
  lemma ExplodedPair(name: string, op: Operator, a: string, b: string)
    requires op.HasSeparator()
    ensures ExplodedCollection(name, op, [a, b]) ==
      Ok(Named(name, op) + Encode(a) + op.Separator() + (Named(name, op) + Encode(b)) + op.Separator())
  {
    var d := op.Separator();
    var x0, x1 := Named(name, op) + Encode(a), Named(name, op) + Encode(b);
    var xs := ExplodedItems(name, op, [a, b]);
    assert xs == [x0, x1];
    ExplodedCollectionJoin(name, op, [a, b]);
    assert ExplodedCollection(name, op, [a, b]) == Ok(Join(xs, d) + d);
    JoinTwo(x0, x1, d);
  }

  /** `category*` renders each element as `category=` and the element, each followed by '&'. */
  lemma ExampleExplosion()
    ensures Explosion("category", QueryOp, ExampleValues) ==
      Ok("category=" + "Museum" + "&" + ("category=" + "Garden") + "&")
  {
    EncodeUnreserved("Museum");
    EncodeUnreserved("Garden");
    assert ExampleValues["category"] == JCollection(["Museum", "Garden"]);
    ExplodedPair("category", QueryOp, "Museum", "Garden");
    assert Named("category", QueryOp) == "category=";
  }

  /** `tag:2` keeps the first two characters of "culture". */
  lemma ExampleModify()
    ensures Modify("tag", "2", QueryOp, ExampleValues) == Ok("tag=" + "cu" + "&")
  {
    assert IsName("2");
    ModifyCases("tag", "2", QueryOp, ExampleValues);
    assert AllDigits("2") && DigitsValue("2") == 2;
    assert "culture"[..2] == "cu";
    EncodeUnreserved("cu");
    assert ExampleValues["tag"] == JString("culture");
    assert Named("tag", QueryOp) == "tag=";
  }

  /** The walk over the example span: the exploded list, the tag's prefix, nothing for `show`. */
  lemma ExampleWalk()
    ensures Walk(ExampleTemplate, 0, QueryOp, ExampleValues) ==
      Ok("category=" + "Museum" + "&" + ("category=" + "Garden") + "&" + ("tag=" + "cu" + "&"))
  {
    var t := ExampleTemplate;
    var v := ExampleValues;
    ExampleMarkers();
    ExampleCategory();
    ExampleTag();
    ExampleShow();
    ExampleFirstWord();
    ExampleSecondWord();
    ExampleThirdWord();
    ExampleLastWord();
    WalkEnd(t, 22, QueryOp, v);
    WalkPlainStep(t, 17, QueryOp, v, 18, 22);
    assert "show" !in v;
    assert Walk(t, 17, QueryOp, v) == Ok("" + "");
    assert "" + "" == "";
    WalkPrefixStep(t, 10, QueryOp, v, 12, 15, 16, 17);
    ExampleModify();
    var tag := "tag=" + "cu" + "&";
    assert tag + "" == tag;
    WalkExplodeStep(t, 0, QueryOp, v, 2, 10);
    ExampleExplosion();
  }

  /** The example template is one span, from its '{' to its closing '}'. */
  lemma ExampleSpans()
    ensures SpansFrom(ExampleTemplate, 0) == [ExampleTemplate]
  {
    var t := ExampleTemplate;
    ExampleMarkers();
    assert forall j :: 1 <= j < 22 ==> !IsBrace(t[j]);
    var r := NextBrace(t, 1);
    assert r <= 22;
    assert 22 <= r;
    assert SpanStartsAt(t, 0);
    assert NextSpan(t, 0) == Some((0, 23));
    assert SpansFrom(t, 23) == [];
    assert t[0..23] == t;
  }

  /** The example span's operator is the query operator. */
  lemma ExampleOperator()
    ensures FromOpCode(ExampleTemplate[1..2]) == QueryOp
  {
    FromOpCodeTable("?");
    ExampleMarkers();
    assert ExampleTemplate[1..2] == [ExampleTemplate[1]];
  }

  /** A span whose walk ends in its operator's separator expands to the prefix and the walk without it. */
  lemma WalkedSpan(span: string, values: Bindings, op: Operator, x: string)
    requires |span| >= 2 && FromOpCode(span[1..2]) == op
    requires Walk(span, 0, op, values) == Ok(x + op.Separator())
    ensures SpanExpansion(span, values) == Ok(op.Prefix() + x)
  {
    Associative(op.Prefix(), x, op.Separator());
    StripTrailingSeparator(op, x);
  }

  /** The rendering of the example span, with its last '&' dropped. */
  lemma ExampleExpansion()
    ensures SpanExpansion(ExampleTemplate, ExampleValues) ==
      Ok("?" + ("category=" + "Museum" + "&" + ("category=" + "Garden") + "&" + ("tag=" + "cu")))
  {
    var head := "category=" + "Museum" + "&" + ("category=" + "Garden") + "&";
    ExampleOperator();
    ExampleMarkers();
    ExampleWalk();
    Associative(head, "tag=" + "cu", "&");
    assert QueryOp.Separator() == "&" && QueryOp.Prefix() == "?";
    WalkedSpan(ExampleTemplate, ExampleValues, QueryOp, head + ("tag=" + "cu"));
  }

  /** A template that is one span from end to end builds to that span's expansion. */
  lemma BuiltWholeSpan(t: string, values: Bindings)
    requires SpansFrom(t, 0) == [t] && SpanExpansion(t, values).Ok?
    ensures Built(t, values) == SpanExpansion(t, values)
  {
    var r := SpanExpansion(t, values).value;
    assert NextSpan(t, 0).Some?;
    var none: seq<string> := [];
    assert [t][..0] == none;
    assert ReplaceSpans(t, none, values) == Ok(t);
    assert t[..|t|] == t;
    assert t[|t|..] == "";
    assert ReplaceAll(t[|t|..], t, r) == "";
    assert ReplaceAll(t, t, r) == r + "";
    assert r + "" == r;
    assert ReplaceSpans(t, [t], values) == Ok(r);
    BuiltWithSpans(t, values);
  }

  /**
   * `{?category*,tag:2,show}` with category = [Museum, Garden], tag = "culture" and
   * show unbound builds to `?category=Museum&category=Garden&tag=cu`: the exploded
   * list, the two-character prefix of the tag, nothing for show, and the final '&'
   * dropped.
   */
  lemma WorkedExample()
    ensures Built(ExampleTemplate, ExampleValues) ==
      Ok("?" + ("category=" + "Museum" + "&" + ("category=" + "Garden") + "&" + ("tag=" + "cu")))
  {
    ExampleExpansion();
    ExampleSpans();
    BuiltWholeSpan(ExampleTemplate, ExampleValues);
  }
}
