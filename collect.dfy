/**
 * The loop shape shared by the reader's list builders: visit the elements in
 * order, let each one add at most one entry to a new list, and stop with the
 * exception of the first element whose step throws.
 */
module Collecting {
  import opened Results

  /** The entries one step adds: its value, or nothing. */
  function Kept<B>(o: Option<B>): (r: seq<B>)
    ensures o.Some? ==> r == [o.value]
    ensures o.None? ==> r == []
  {
    if o.Some? then [o.value] else []
  }

  /** The list `f` builds over `xs`, or the exception of the first step that throws. */
  function Collect<A, B>(xs: seq<A>, f: A -> Result<Option<B>>): Result<seq<B>>
  {
    if xs == [] then Ok([])
    else match Collect(xs[..|xs| - 1], f)
      case Fail(e) => Fail(e)
      case Ok(ys) =>
        match f(xs[|xs| - 1])
        case Fail(e) => Fail(e)
        case Ok(o) => Ok(ys + Kept(o))
  }

  /** Once a prefix throws, the whole walk throws the same exception. */
  lemma {:induction false} CollectFailsExtend<A, B>(xs: seq<A>, f: A -> Result<Option<B>>, n: nat)
    requires n <= |xs| && Collect(xs[..n], f).Fail?
    ensures Collect(xs, f) == Collect(xs[..n], f)
    decreases |xs| - n
  {
    if n < |xs| {
      assert xs[..|xs| - 1][..n] == xs[..n];
      CollectFailsExtend(xs[..|xs| - 1], f, n);
    } else {
      assert xs[..n] == xs;
    }
  }

  /** One more element that does not throw adds what its step keeps. */
  lemma CollectStep<A, B>(xs: seq<A>, f: A -> Result<Option<B>>, k: nat, ys: seq<B>, o: Option<B>)
    requires k < |xs| && Collect(xs[..k], f) == Ok(ys) && f(xs[k]) == Ok(o)
    ensures Collect(xs[..k + 1], f) == Ok(ys + Kept(o))
  {
    assert xs[..k + 1][..k] == xs[..k];
  }

  /** The walk over a concatenation is the walk over the first part, then over the second. */
  lemma {:induction false} CollectAppend<A, B>(xs: seq<A>, ys: seq<A>, f: A -> Result<Option<B>>)
    ensures Collect(xs + ys, f) ==
      match Collect(xs, f)
      case Fail(e) => Fail(e)
      case Ok(a) =>
        match Collect(ys, f)
        case Fail(e) => Fail(e)
        case Ok(b) => Ok(a + b)
    decreases |ys|
  {
    if ys == [] {
      assert xs + ys == xs;
      assert Collect(ys, f) == Ok([]);
      if Collect(xs, f).Ok? {
        assert Collect(xs, f).value + [] == Collect(xs, f).value;
      }
    } else {
      var init := ys[..|ys| - 1];
      CollectAppend(xs, init, f);
      assert (xs + ys)[..|xs + ys| - 1] == xs + init;
      assert (xs + ys)[|xs + ys| - 1] == ys[|ys| - 1];
      if Collect(xs, f).Ok? && Collect(init, f).Ok? && f(ys[|ys| - 1]).Ok? {
        var a, b := Collect(xs, f).value, Collect(init, f).value;
        var last := Kept(f(ys[|ys| - 1]).value);
        assert Collect(xs + ys, f) == Ok((a + b) + last);
        assert (a + b) + last == a + (b + last);
      }
    }
  }

  /**
   * A walk that does not throw visits every element without a throw, and its
   * list holds exactly the values the steps produce: each entry comes from
   * some element, and every produced value is in the list.
   */
  lemma {:induction false} CollectMembers<A, B>(xs: seq<A>, f: A -> Result<Option<B>>)
    requires Collect(xs, f).Ok?
    ensures forall k :: 0 <= k < |xs| ==> f(xs[k]).Ok?
    ensures forall y :: y in Collect(xs, f).value ==> exists k :: 0 <= k < |xs| && f(xs[k]) == Ok(Some(y))
    ensures forall k :: 0 <= k < |xs| && f(xs[k]).value.Some? ==> f(xs[k]).value.value in Collect(xs, f).value
    decreases |xs|
  {
    if xs != [] {
      var init := xs[..|xs| - 1];
      CollectMembers(init, f);
      assert forall k :: 0 <= k < |init| ==> init[k] == xs[k];
    }
  }

  /** A walk whose steps all produce a value yields one entry per element, in order. */
  lemma {:induction false} CollectEvery<A, B>(xs: seq<A>, f: A -> Result<Option<B>>)
    requires forall k :: 0 <= k < |xs| ==> f(xs[k]).Ok? ==> f(xs[k]).value.Some?
    requires Collect(xs, f).Ok?
    ensures |Collect(xs, f).value| == |xs|
    ensures forall k :: 0 <= k < |xs| ==> f(xs[k]) == Ok(Some(Collect(xs, f).value[k]))
    decreases |xs|
  {
    if xs != [] {
      var init := xs[..|xs| - 1];
      assert forall k :: 0 <= k < |init| ==> init[k] == xs[k];
      CollectEvery(init, f);
    }
  }

  /** A walk whose steps never throw does not throw. */
  lemma {:induction false} CollectTotal<A, B>(xs: seq<A>, f: A -> Result<Option<B>>)
    requires forall k :: 0 <= k < |xs| ==> f(xs[k]).Ok?
    ensures Collect(xs, f).Ok?
    decreases |xs|
  {
    if xs != [] {
      var init := xs[..|xs| - 1];
      assert forall k :: 0 <= k < |init| ==> init[k] == xs[k];
      CollectTotal(init, f);
    }
  }

  /** The loop: a list that grows by one step at a time, returning at the first throw. */
  method CollectEach<A, B>(xs: seq<A>, f: A -> Result<Option<B>>) returns (r: Result<seq<B>>)
    ensures r == Collect(xs, f)
  {
    var ys: seq<B> := [];
    var k := 0;
    while k < |xs|
      invariant 0 <= k <= |xs|
      invariant Collect(xs[..k], f) == Ok(ys)
    {
      assert xs[..k + 1][..k] == xs[..k];
      var step := f(xs[k]);
      if step.Fail? {
        CollectFailsExtend(xs, f, k + 1);
        return Fail(step.error);
      }
      ys := ys + Kept(step.value);
      k := k + 1;
    }
    assert xs[..k] == xs;
    return Ok(ys);
  }

  /** The first index from which `p` holds, or -1. */
  method FirstWhere<A>(xs: seq<A>, p: A -> bool) returns (k: int)
    ensures -1 <= k < |xs|
    ensures k == -1 <==> forall j :: 0 <= j < |xs| ==> !p(xs[j])
    ensures k >= 0 ==> p(xs[k]) && forall j :: 0 <= j < k ==> !p(xs[j])
  {
    k := 0;
    while k < |xs|
      invariant 0 <= k <= |xs|
      invariant forall j :: 0 <= j < k ==> !p(xs[j])
    {
      if p(xs[k]) {
        return;
      }
      k := k + 1;
    }
    return -1;
  }
}
