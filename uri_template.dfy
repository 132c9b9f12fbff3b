/**
 * The library's simplified URI template engine. A `UriTemplate` holds a
 * template and the values bound to its variable names; `Build` replaces
 * every braced span of the template by the expansion of the names inside
 * it, following the operator after the '{'.
 *
 * Each expansion step is first given as a function (what the step yields,
 * or the exception it throws); the class methods run the same steps with
 * the loops of the original and are proved to agree with those functions.
 * Lemmas at the end of the module state what the functions produce.
 */
module UriTemplates {
  import opened Results
  import opened Objects
  import opened Text
  import opened Operators
  import opened Encoding
  import opened TemplateSyntax

  type Bindings = map<string, Obj>

  /** `name=` under a named operator, nothing otherwise. */
  function Named(name: string, op: Operator): string {
    if op.IsNamed() then name + "=" else ""
  }

  /** `a` in front of a successful result; a failure is passed on. */
  function Prepend(a: string, r: Result<string>): Result<string> {
    if r.Ok? then Ok(a + r.value) else r
  }

  /** The epilogue of the list and map renderers: drop the last character, then append the separator. */
  function DropLastThenSeparator(body: string, op: Operator): (r: Result<string>)
    ensures r.Fail? <==> body == ""
  {
    if body == "" then Fail(IndexOutOfBounds) else Ok(body[..|body| - 1] + op.Separator())
  }

  // ---------------------------------------------------------------------
  // Expansion of one variable
  // ---------------------------------------------------------------------

  /** expandSimple: `name=enc(v)` or `enc(v)`, then the separator; a null value throws. */
  function ExpandSimple(name: string, op: Operator, obj: Obj): Result<string> {
    if obj.Null? then Fail(NullPointer)
    else Ok(Named(name, op) + Encode(obj.ToString()) + op.Separator())
  }

  /** The element texts explodeCollection writes, before each separator. */
  function ExplodedItems(name: string, op: Operator, items: seq<string>): (r: seq<string>)
    ensures |r| == |items| && forall k :: 0 <= k < |items| ==> r[k] == Named(name, op) + Encode(items[k])
  {
    seq(|items|, k requires 0 <= k < |items| => Named(name, op) + Encode(items[k]))
  }

  /** The entry texts explodeMap writes, before each separator; keys are not encoded. */
  function ExplodedEntries(op: Operator, entries: seq<(string, string)>): (r: seq<string>)
    ensures |r| == |entries|
    ensures forall k :: 0 <= k < |entries| ==>
      r[k] == entries[k].0 + (if op.IsNamed() then "=" else op.Separator()) + Encode(entries[k].1)
  {
    seq(|entries|, k requires 0 <= k < |entries| =>
      entries[k].0 + (if op.IsNamed() then "=" else op.Separator()) + Encode(entries[k].1))
  }

  /** The encoded elements expandCollection writes, before each comma. */
  function EncodedItems(items: seq<string>): (r: seq<string>)
    ensures |r| == |items| && forall k :: 0 <= k < |items| ==> r[k] == Encode(items[k])
  {
    seq(|items|, k requires 0 <= k < |items| => Encode(items[k]))
  }

  /** The `key,enc(value)` texts expandMap writes, before each comma. */
  function ExpandedEntries(entries: seq<(string, string)>): (r: seq<string>)
    ensures |r| == |entries| && forall k :: 0 <= k < |entries| ==> r[k] == entries[k].0 + "," + Encode(entries[k].1)
  {
    seq(|entries|, k requires 0 <= k < |entries| => entries[k].0 + "," + Encode(entries[k].1))
  }

  /** explodeCollection: every element with its separator, then the epilogue. */
  function ExplodedCollection(name: string, op: Operator, items: seq<string>): Result<string> {
    DropLastThenSeparator(Concat(Suffixed(ExplodedItems(name, op, items), op.Separator())), op)
  }

  /** expandCollection: `name=` if named, every encoded element with a comma, then the epilogue. */
  function ExpandedCollection(name: string, op: Operator, items: seq<string>): Result<string> {
    DropLastThenSeparator(Named(name, op) + Concat(Suffixed(EncodedItems(items), ",")), op)
  }

  /** explodeMap: every entry with its separator, then the epilogue. */
  function ExplodedMap(op: Operator, entries: seq<(string, string)>): Result<string> {
    DropLastThenSeparator(Concat(Suffixed(ExplodedEntries(op, entries), op.Separator())), op)
  }

  /** expandMap: `name=` if named, every `key,enc(value)` with a comma, then the epilogue. */
  function ExpandedMap(name: string, op: Operator, entries: seq<(string, string)>): Result<string> {
    DropLastThenSeparator(Named(name, op) + Concat(Suffixed(ExpandedEntries(entries), ",")), op)
  }

  /** expand: nothing for an unbound name; otherwise by the class of the bound value. */
  function Expansion(name: string, op: Operator, values: Bindings): Result<string> {
    if name !in values then Ok("")
    else match values[name]
      case JCollection(items) => ExpandedCollection(name, op, items)
      case JMap(entries) => ExpandedMap(name, op, entries)
      case obj => ExpandSimple(name, op, obj)
  }

  /** explode: nothing for an unbound name; otherwise by the class of the bound value. */
  function Explosion(name: string, op: Operator, values: Bindings): Result<string> {
    if name !in values then Ok("")
    else match values[name]
      case JCollection(items) => ExplodedCollection(name, op, items)
      case JMap(entries) => ExplodedMap(op, entries)
      case obj => ExpandSimple(name, op, obj)
  }

  /**
   * modify: the first `size` characters of a bound String, encoded. The steps
   * fail in Java's evaluation order: the cast to String, Integer.parseInt, the
   * call on a null value, and the bounds of substring.
   */
  function Modify(name: string, size: string, op: Operator, values: Bindings): Result<string> {
    if name !in values then Ok("")
    else
      var obj := values[name];
      if !obj.Null? && !obj.JString? then Fail(ClassCast)
      else
        var n := ParseInt(size);
        if n.Fail? then Fail(n.error)
        else if obj.Null? then Fail(NullPointer)
        else if n.value < 0 || n.value > |obj.s| then Fail(IndexOutOfBounds)
        else Ok(Named(name, op) + Encode(obj.s[..n.value]) + op.Separator())
  }

  // ---------------------------------------------------------------------
  // Expansion of one span
  // ---------------------------------------------------------------------

  /**
   * The inner loop of build from position `p` of `span`: each `\w+` token is a
   * name, exploded when a '*' follows it, truncated by the next token when a
   * ':' follows it, and expanded otherwise.
   */
  function Walk(span: string, p: nat, op: Operator, values: Bindings): Result<string>
    decreases |span| - p
  {
    match NextWord(span, p)
    case None => Ok("")
    case Some((i, e)) =>
      var name := span[i..e];
      if e >= |span| then Fail(IndexOutOfBounds)
      else if span[e] == '*' then
        var piece := Explosion(name, op, values);
        if piece.Fail? then piece else Prepend(piece.value, Walk(span, e, op, values))
      else if span[e] == ':' then
        match NextWord(span, e)
        case None => Fail(IllegalState)
        case Some((i2, e2)) =>
          var piece := Modify(name, span[i2..e2], op, values);
          if piece.Fail? then piece else Prepend(piece.value, Walk(span, e2, op, values))
      else
        var piece := Expansion(name, op, values);
        if piece.Fail? then piece else Prepend(piece.value, Walk(span, e, op, values))
  }

  /** The text one span is replaced by: the operator's prefix, the walk, and at most one separator stripped. */
  function SpanExpansion(span: string, values: Bindings): (r: Result<string>)
    ensures r.Ok? ==> |span| >= 2
  {
    if |span| < 2 then Fail(IndexOutOfBounds)
    else
      var op := FromOpCode(span[1..2]);
      var w := Walk(span, 0, op, values);
      if w.Fail? then w
      else Ok(StripSeparator(op.Prefix() + w.value, op))
  }

  /** The end of a span's expansion: one trailing separator is dropped, if the operator has one. */
  function StripSeparator(ps: string, op: Operator): string {
    if op.HasSeparator() && EndsWith(ps, op.Separator()) then ps[..|ps| - 1] else ps
  }

  /** `uri` after replacing, in order, every occurrence of each of `spans` by its expansion. */
  function ReplaceSpans(uri: string, spans: seq<string>, values: Bindings): Result<string>
    decreases |spans|
  {
    if spans == [] then Ok(uri)
    else
      var r := ReplaceSpans(uri, spans[..|spans| - 1], values);
      var span := spans[|spans| - 1];
      if r.Fail? then r
      else
        var x := SpanExpansion(span, values);
        if x.Fail? then x else Ok(ReplaceAll(r.value, span, x.value))
  }

  /** build: the template itself when it has no span, else every span replaced in order. */
  function Built(template: string, values: Bindings): Result<string> {
    var spans := SpansFrom(template, 0);
    if spans == [] then Ok(template) else ReplaceSpans(template, spans, values)
  }

  /** hasParameter: some `\w+` token of some span equals `name`. */
  predicate HasParameterIn(template: string, name: string) {
    exists k :: 0 <= k < |SpansFrom(template, 0)| && name in WordsFrom(SpansFrom(template, 0)[k], 0)
  }

  // ---------------------------------------------------------------------
  // The stateful object
  // ---------------------------------------------------------------------

  class UriTemplate {
    var template: string
    var values: Bindings

    /** A template with no values bound. */
    constructor (template: string)
      ensures this.template == template && values == map[]
    {
      this.template := template;
      values := map[];
    }

    /** set: binds `name` unless it is bound already; the first value stays. */
    method Set(name: string, value: Obj) returns (self: UriTemplate)
      modifies this
      ensures self == this && template == old(template)
      ensures values == if name in old(values) then old(values) else old(values)[name := value]
    {
      if name !in values {
        values := values[name := value];
      }
      return this;
    }

    /** hasParameter: the matcher loop over the spans, returning at the first span holding `name`. */
    method HasParameter(name: string) returns (r: bool)
      ensures r <==> HasParameterIn(template, name)
    {
      ghost var spans := SpansFrom(template, 0);
      ghost var k := 0;
      var p := 0;
      var next := FindSpan(template, 0);
      while next.Some?
        invariant next == NextSpan(template, p)
        invariant 0 <= k <= |spans| && spans[k..] == SpansFrom(template, p)
        invariant forall j :: 0 <= j < k ==> name !in WordsFrom(spans[j], 0)
        decreases |template| - p
      {
        var span := template[next.value.0..next.value.1];
        assert spans[k] == span;
        var found := SpanHasWord(span, name);
        if found {
          return true;
        }
        k := k + 1;
        p := next.value.1;
        next := FindSpan(template, p);
      }
      return false;
    }

    /** hasParameter's inner matcher loop over the `\w+` tokens of one span. */
    static method SpanHasWord(span: string, name: string) returns (found: bool)
      ensures found <==> name in WordsFrom(span, 0)
    {
      ghost var words := WordsFrom(span, 0);
      ghost var n := 0;
      var q := 0;
      var word := FindWord(span, 0);
      while word.Some?
        invariant word == NextWord(span, q)
        invariant 0 <= n <= |words| && words[n..] == WordsFrom(span, q)
        invariant name !in words[..n]
        decreases |span| - q
      {
        var w := span[word.value.0..word.value.1];
        assert words[n] == w;
        if name == w {
          return true;
        }
        assert words[..n + 1] == words[..n] + [w];
        n := n + 1;
        q := word.value.1;
        word := FindWord(span, q);
      }
      assert words[..n] == words;
      return false;
    }

    /** expandCollection's loop. */
    method ExpandCollection(name: string, op: Operator, items: seq<string>) returns (r: Result<string>)
      ensures r == ExpandedCollection(name, op, items)
    {
      ghost var pieces := Suffixed(EncodedItems(items), ",");
      ghost var head := Named(name, op);
      var parameters := "";
      if op.IsNamed() {
        parameters := name + "=";
      }
      var i := 0;
      assert pieces[..0] == [];
      while i < |items|
        invariant 0 <= i <= |items|
        invariant parameters == head + Concat(pieces[..i])
      {
        var piece := Encode(items[i]) + ",";
        AppendStep(head, pieces, i, piece, parameters);
        parameters := parameters + piece;
        i := i + 1;
      }
      assert pieces[..|items|] == pieces;
      return DropLastThenSeparator(parameters, op);
    }

    /** explodeCollection's loop. */
    method ExplodeCollection(name: string, op: Operator, items: seq<string>) returns (r: Result<string>)
      ensures r == ExplodedCollection(name, op, items)
    {
      ghost var pieces := Suffixed(ExplodedItems(name, op, items), op.Separator());
      var parameters := "";
      var i := 0;
      while i < |items|
        invariant 0 <= i <= |items|
        invariant parameters == Concat(pieces[..i])
      {
        var piece;
        if op.IsNamed() {
          piece := name + "=" + Encode(items[i]) + op.Separator();
        } else {
          piece := Encode(items[i]) + op.Separator();
        }
        ExplodedItemAt(name, op, items, i);
        AppendConcat(pieces, i, piece, parameters);
        parameters := parameters + piece;
        i := i + 1;
      }
      assert pieces[..|items|] == pieces;
      return DropLastThenSeparator(parameters, op);
    }

    /** expandMap's loop over the entries in iteration order. */
    method ExpandMap(name: string, op: Operator, entries: seq<(string, string)>) returns (r: Result<string>)
      ensures r == ExpandedMap(name, op, entries)
    {
      ghost var pieces := Suffixed(ExpandedEntries(entries), ",");
      ghost var head := Named(name, op);
      var parameters := "";
      if op.IsNamed() {
        parameters := name + "=";
      }
      var i := 0;
      assert pieces[..0] == [];
      while i < |entries|
        invariant 0 <= i <= |entries|
        invariant parameters == head + Concat(pieces[..i])
      {
        var piece := entries[i].0 + "," + Encode(entries[i].1) + ",";
        AppendStep(head, pieces, i, piece, parameters);
        parameters := parameters + piece;
        i := i + 1;
      }
      assert pieces[..|entries|] == pieces;
      return DropLastThenSeparator(parameters, op);
    }

    /** explodeMap's loop over the entries in iteration order. */
    method ExplodeMap(op: Operator, entries: seq<(string, string)>) returns (r: Result<string>)
      ensures r == ExplodedMap(op, entries)
    {
      ghost var pieces := Suffixed(ExplodedEntries(op, entries), op.Separator());
      var parameters := "";
      var i := 0;
      while i < |entries|
        invariant 0 <= i <= |entries|
        invariant parameters == Concat(pieces[..i])
      {
        var (key, value) := entries[i];
        var piece;
        if op.IsNamed() {
          piece := key + "=" + Encode(value) + op.Separator();
        } else {
          piece := key + op.Separator() + Encode(value) + op.Separator();
        }
        ExplodedEntryAt(op, entries, i);
        AppendConcat(pieces, i, piece, parameters);
        parameters := parameters + piece;
        i := i + 1;
      }
      assert pieces[..|entries|] == pieces;
      return DropLastThenSeparator(parameters, op);
    }

    /** expand. */
    method Expand(name: string, op: Operator) returns (r: Result<string>)
      ensures r == Expansion(name, op, values)
    {
      if name !in values {
        return Ok("");
      }
      match values[name]
      case JCollection(items) =>
        r := ExpandCollection(name, op, items);
      case JMap(entries) =>
        r := ExpandMap(name, op, entries);
      case obj =>
        r := ExpandSimple(name, op, obj);
    }

    /** explode. */
    method Explode(name: string, op: Operator) returns (r: Result<string>)
      ensures r == Explosion(name, op, values)
    {
      if name !in values {
        return Ok("");
      }
      var obj := values[name];
      if obj.JCollection? {
        r := ExplodeCollection(name, op, obj.items);
      } else if obj.JMap? {
        r := ExplodeMap(op, obj.entries);
      } else {
        r := ExpandSimple(name, op, obj);
      }
    }

    /** The body of build's outer loop for one span: the token loop and the separator strip. */
    method ExpandSpan(span: string) returns (r: Result<string>)
      ensures r == SpanExpansion(span, values)
    {
      if |span| < 2 {
        return Fail(IndexOutOfBounds);
      }
      var op := FromOpCode(span[1..2]);
      var parameters := op.Prefix();
      var p := 0;
      var next := FindWord(span, 0);
      while next.Some?
        invariant next == NextWord(span, p)
        invariant Prepend(op.Prefix(), Walk(span, 0, op, values)) == Prepend(parameters, Walk(span, p, op, values))
        decreases |span| - p
      {
        var start := p;
        var (i, e) := next.value;
        var name := span[i..e];
        if e >= |span| {
          return Fail(IndexOutOfBounds);
        }
        var piece: Result<string>;
        if span[e] == '*' {
          piece := Explode(name, op);
          p := e;
        } else if span[e] == ':' {
          var size := FindWord(span, e);
          if size.None? {
            return Fail(IllegalState);
          }
          piece := Modify(name, span[size.value.0..size.value.1], op, values);
          p := size.value.1;
        } else {
          piece := Expand(name, op);
          p := e;
        }
        if piece.Fail? {
          assert Walk(span, start, op, values) == piece;
          return piece;
        }
        assert Walk(span, start, op, values) == Prepend(piece.value, Walk(span, p, op, values));
        PrependTwice(parameters, piece.value, Walk(span, p, op, values));
        parameters := parameters + piece.value;
        next := FindWord(span, p);
      }
      assert Walk(span, p, op, values) == Ok("");
      assert parameters + "" == parameters;
      if op.HasSeparator() && EndsWith(parameters, op.Separator()) {
        parameters := parameters[..|parameters| - 1];
      }
      return Ok(parameters);
    }

    /**
     * build: replaces each span, in order of appearance, by its expansion and
     * then clears the bindings. Without a span the template is returned at
     * once and the bindings stay; when an expansion throws they stay too.
     */
    method Build() returns (r: Result<string>)
      modifies this
      ensures r == Built(old(template), old(values))
      ensures template == old(template)
      ensures r.Ok? && SpansFrom(template, 0) != [] ==> values == map[]
      ensures r.Fail? || SpansFrom(template, 0) == [] ==> values == old(values)
    {
      var uri := template;
      var first := FindSpan(template, 0);
      if first.None? {
        return Ok(uri);
      }
      ghost var done: seq<string> := [];
      var p := 0;
      var next := first;
      while next.Some?
        modifies {}
        invariant next == NextSpan(template, p)
        invariant BuildProgress(template, values, done, p, uri)
        decreases |template| - p
      {
        var span := template[next.value.0..next.value.1];
        var parameters := ExpandSpan(span);
        if parameters.Fail? {
          BuildStepFails(template, values, done, p, uri);
          return Fail(parameters.error);
        }
        BuildStepSucceeds(template, values, done, p, uri);
        uri := ReplaceAll(uri, span, parameters.value);
        done := done + [span];
        p := next.value.1;
        next := FindSpan(template, p);
      }
      assert done == SpansFrom(template, 0);
      assert SpansFrom(template, 0) != [];
      values := map[];
      return Ok(uri);
    }
  }

  /**
   * The state of a build after the spans in `done`: they are the spans met before
   * position `p`, and replacing them has given `uri`.
   */
  ghost predicate BuildProgress(t: string, values: Bindings, done: seq<string>, p: nat, uri: string)
  {
    SpansFrom(t, 0) == done + SpansFrom(t, p) && ReplaceSpans(t, done, values) == Ok(uri)
  }

  /** A span whose expansion succeeds is replaced and the build moves past it. */
  lemma BuildStepSucceeds(t: string, values: Bindings, done: seq<string>, p: nat, uri: string)
    requires BuildProgress(t, values, done, p, uri) && NextSpan(t, p).Some?
    requires SpanExpansion(t[NextSpan(t, p).value.0..NextSpan(t, p).value.1], values).Ok?
    ensures
      var span := t[NextSpan(t, p).value.0..NextSpan(t, p).value.1];
      BuildProgress(t, values, done + [span], NextSpan(t, p).value.1,
                    ReplaceAll(uri, span, SpanExpansion(span, values).value))
  {
    var span := t[NextSpan(t, p).value.0..NextSpan(t, p).value.1];
    var e := NextSpan(t, p).value.1;
    SpansFromStep(t, p);
    ReplaceSpansStep(t, done, span, values, uri, SpanExpansion(span, values));
    SnocShift(done, span, SpansFrom(t, e));
  }

  /** A span whose expansion throws ends the build with that exception. */
  lemma BuildStepFails(t: string, values: Bindings, done: seq<string>, p: nat, uri: string)
    requires BuildProgress(t, values, done, p, uri) && NextSpan(t, p).Some?
    requires SpanExpansion(t[NextSpan(t, p).value.0..NextSpan(t, p).value.1], values).Fail?
    ensures Built(t, values) == SpanExpansion(t[NextSpan(t, p).value.0..NextSpan(t, p).value.1], values)
  {
    var span := t[NextSpan(t, p).value.0..NextSpan(t, p).value.1];
    var e := NextSpan(t, p).value.1;
    SpansFromStep(t, p);
    ReplaceSpansStep(t, done, span, values, uri, SpanExpansion(span, values));
    SnocShift(done, span, SpansFrom(t, e));
    BuildStopsAtFailure(t, done + [span], SpansFrom(t, e), values);
  }

  lemma SnocShift<T>(a: seq<T>, x: T, b: seq<T>)
    ensures a + ([x] + b) == (a + [x]) + b
  {
  }

  /** The next span found from `p` heads the remaining spans. */
  lemma SpansFromStep(s: string, p: nat)
    requires NextSpan(s, p).Some?
    ensures SpansFrom(s, p) == [s[NextSpan(s, p).value.0..NextSpan(s, p).value.1]] + SpansFrom(s, NextSpan(s, p).value.1)
  {
  }

  /** Replacing one more span: its expansion replaces every occurrence, or its exception ends the build. */
  lemma ReplaceSpansStep(uri0: string, done: seq<string>, span: string, values: Bindings, uri: string, x: Result<string>)
    requires ReplaceSpans(uri0, done, values) == Ok(uri) && SpanExpansion(span, values) == x
    ensures x.Ok? ==> span != [] && ReplaceSpans(uri0, done + [span], values) == Ok(ReplaceAll(uri, span, x.value))
    ensures x.Fail? ==> ReplaceSpans(uri0, done + [span], values) == Fail(x.error)
  {
    assert (done + [span])[..|done|] == done;
  }

  /** When the spans up to one whose expansion throws fail, the whole build fails alike. */
  lemma BuildStopsAtFailure(t: string, a: seq<string>, b: seq<string>, values: Bindings)
    requires SpansFrom(t, 0) == a + b && a != []
    requires ReplaceSpans(t, a, values).Fail?
    ensures Built(t, values) == ReplaceSpans(t, a, values)
  {
    ReplaceSpansFailed(t, a, b, values);
    BuiltWithSpans(t, values);
  }

  lemma BuiltWithSpans(t: string, values: Bindings)
    requires SpansFrom(t, 0) != []
    ensures Built(t, values) == ReplaceSpans(t, SpansFrom(t, 0), values)
  {
  }

  /** One more piece appended to the text a renderer's loop has built. */
  lemma AppendStep(head: string, xs: seq<string>, i: nat, piece: string, acc: string)
    requires i < |xs| && xs[i] == piece && acc == head + Concat(xs[..i])
    ensures acc + piece == head + Concat(xs[..i + 1])
  {
    ConcatStep(xs, i);
  }

  /** The same step for a loop that starts from the empty string. */
  lemma AppendConcat(xs: seq<string>, i: nat, piece: string, acc: string)
    requires i < |xs| && xs[i] == piece && acc == Concat(xs[..i])
    ensures acc + piece == Concat(xs[..i + 1])
  {
    ConcatStep(xs, i);
  }

  /** The i-th text explodeCollection's loop appends, branch by branch. */
  lemma ExplodedItemAt(name: string, op: Operator, items: seq<string>, i: nat)
    requires i < |items|
    ensures Suffixed(ExplodedItems(name, op, items), op.Separator())[i] ==
      if op.IsNamed() then name + "=" + Encode(items[i]) + op.Separator() else Encode(items[i]) + op.Separator()
  {
  }

  /** The i-th text explodeMap's loop appends, branch by branch. */
  lemma ExplodedEntryAt(op: Operator, entries: seq<(string, string)>, i: nat)
    requires i < |entries|
    ensures Suffixed(ExplodedEntries(op, entries), op.Separator())[i] ==
      if op.IsNamed() then entries[i].0 + "=" + Encode(entries[i].1) + op.Separator()
      else entries[i].0 + op.Separator() + Encode(entries[i].1) + op.Separator()
  {
  }

  lemma PrependTwice(a: string, b: string, r: Result<string>)
    ensures Prepend(a, Prepend(b, r)) == Prepend(a + b, r)
  {
    if r.Ok? {
      assert a + (b + r.value) == (a + b) + r.value;
    }
  }

  /** Once a prefix of the spans fails, later spans do not change the outcome. */
  lemma {:induction false} ReplaceSpansFailed(uri: string, a: seq<string>, b: seq<string>, values: Bindings)
    requires ReplaceSpans(uri, a, values).Fail?
    ensures ReplaceSpans(uri, a + b, values) == ReplaceSpans(uri, a, values)
    decreases |b|
  {
    if b == [] {
      assert a + b == a;
    } else {
      assert (a + b)[..|a + b| - 1] == a + b[..|b| - 1];
      ReplaceSpansFailed(uri, a, b[..|b| - 1], values);
    }
  }

  /** The `fromTemplate` singleton: one shared object, created on first use. */
  class TemplateRegistry {
    var instance: UriTemplate?

    constructor ()
      ensures instance == null
    {
      instance := null;
    }

    /**
     * fromTemplate: the first call creates the object; later calls overwrite
     * its template and keep whatever values are bound.
     */
    method FromTemplate(template: string) returns (u: UriTemplate)
      modifies this, instance
      ensures u == instance && u.template == template
      ensures old(instance) != null ==> u == old(instance) && u.values == old(instance.values)
      ensures old(instance) == null ==> fresh(u) && u.values == map[]
    {
      if instance == null {
        u := new UriTemplate(template);
        instance := u;
      } else {
        u := instance;
        u.template := template;
      }
    }
  }
}
