/**
 * The list of parameters a request carries. `add` keeps at most one parameter
 * per term (the first one added), `replace` overwrites a parameter found at a
 * positive index and otherwise falls back to `add`.
 */
module ParameterLists {
  import opened Results
  import opened ParameterTerms
  import opened Parameters

  /**
   * `ArrayList.indexOf(p)` under `Parameter.equals`: the first index from `from`
   * whose parameter has the term string `term`, or -1.
   */
  function IndexOfTerm(ps: seq<Parameter>, term: string, from: nat): (r: int)
    requires from <= |ps|
    ensures r == -1 || from <= r < |ps|
    ensures r == -1 <==> forall k :: from <= k < |ps| ==> ps[k].GetTerm() != term
    ensures r >= 0 ==> ps[r].GetTerm() == term && forall k :: from <= k < r ==> ps[k].GetTerm() != term
    decreases |ps| - from
  {
    if from == |ps| then -1
    else if ps[from].GetTerm() == term then from
    else IndexOfTerm(ps, term, from + 1)
  }

  /** `contains(p)`: some stored parameter equals `p`. */
  predicate Contains(ps: seq<Parameter>, p: Parameter) {
    IndexOfTerm(ps, p.GetTerm(), 0) >= 0
  }

  /** No two stored parameters have the same term. */
  predicate DistinctTerms(ps: seq<Parameter>) {
    forall i, j :: 0 <= i < j < |ps| ==> ps[i].GetTerm() != ps[j].GetTerm()
  }

  /** The list after `add(p)`. */
  function Added(ps: seq<Parameter>, p: Parameter): seq<Parameter> {
    if Contains(ps, p) then ps else ps + [p]
  }

  /** The list after `replace(p)`: overwritten at a positive index, `add` otherwise. */
  function Replaced(ps: seq<Parameter>, p: Parameter): seq<Parameter> {
    var index := IndexOfTerm(ps, p.GetTerm(), 0);
    if index > 0 then ps[index := p] else Added(ps, p)
  }

  /** `add` keeps the terms distinct and the first parameter of a term in place. */
  lemma AddedKeepsDistinct(ps: seq<Parameter>, p: Parameter)
    requires DistinctTerms(ps)
    ensures DistinctTerms(Added(ps, p))
    ensures Contains(ps, p) ==> Added(ps, p) == ps
    ensures !Contains(ps, p) ==> Added(ps, p)[..|ps|] == ps && Added(ps, p)[|ps|] == p
  {
  }

  /** `replace` keeps the terms distinct. */
  lemma ReplacedKeepsDistinct(ps: seq<Parameter>, p: Parameter)
    requires DistinctTerms(ps)
    ensures DistinctTerms(Replaced(ps, p))
  {
    var index := IndexOfTerm(ps, p.GetTerm(), 0);
    if index > 0 {
      var qs := ps[index := p];
      forall i, j | 0 <= i < j < |qs| ensures qs[i].GetTerm() != qs[j].GetTerm() {
        assert qs[i].GetTerm() == ps[i].GetTerm() && qs[j].GetTerm() == ps[j].GetTerm();
      }
    } else {
      AddedKeepsDistinct(ps, p);
    }
  }

  /**
   * After `replace(p)` the parameter of p's term is p itself, except when the
   * match sat at index 0: `indexOf` answered 0, `add` found it present, and the
   * old parameter stays.
   */
  lemma ReplacedIsFound(ps: seq<Parameter>, p: Parameter)
    requires DistinctTerms(ps)
    ensures var index := IndexOfTerm(ps, p.GetTerm(), 0);
      var qs := Replaced(ps, p);
      var found := IndexOfTerm(qs, p.GetTerm(), 0);
      found >= 0 && |qs| == (if index < 0 then |ps| + 1 else |ps|) &&
      qs[found] == (if index == 0 then ps[0] else p)
  {
    var index := IndexOfTerm(ps, p.GetTerm(), 0);
    var qs := Replaced(ps, p);
    if index > 0 {
      assert forall k :: 0 <= k < index ==> qs[k] == ps[k];
      assert IndexOfTerm(qs, p.GetTerm(), 0) == index;
    } else if index < 0 {
      assert qs == ps + [p];
      assert forall k :: 0 <= k < |ps| ==> qs[k] == ps[k];
      assert qs[|ps|] == p;
      var found := IndexOfTerm(qs, p.GetTerm(), 0);
      assert found != -1;
      assert !(found < |ps|);
    }
  }

  class ParameterList {
    var parameters: seq<Parameter>

    /** The list keeps one parameter per term. */
    ghost predicate Valid()
      reads this
    {
      DistinctTerms(parameters)
    }

    /** `new ParameterList()`: empty. */
    constructor()
      ensures parameters == [] && Valid()
    {
      parameters := [];
    }

    /** `size()`. */
    function Size(): nat
      reads this
    {
      |parameters|
    }

    /** `add(p)`: appended only if no stored parameter has its term. */
    method Add(p: Parameter)
      modifies this
      ensures parameters == Added(old(parameters), p)
      ensures old(Valid()) ==> Valid()
    {
      if Valid() {
        AddedKeepsDistinct(parameters, p);
      }
      if !Contains(parameters, p) {
        parameters := parameters + [p];
      }
    }

    /** `get(i)`: the i-th parameter below the size, null at or above it; a negative index throws. */
    method Get(i: int) returns (r: Result<Option<Parameter>>)
      ensures 0 <= i < Size() ==> r == Ok(Some(parameters[i]))
      ensures i >= Size() ==> r == Ok(None)
      ensures i < 0 ==> r == Fail(IndexOutOfBounds)
    {
      if i < |parameters| {
        if i < 0 {
          return Fail(IndexOutOfBounds);
        }
        return Ok(Some(parameters[i]));
      }
      return Ok(None);
    }

    /** `getWithTerm(term)`: the first parameter whose term equals the given one, or null. */
    method GetWithTerm(term: ParameterTerm) returns (r: Option<Parameter>)
      ensures r.None? <==> forall k :: 0 <= k < |parameters| ==> parameters[k].term != term
      ensures r.Some? ==> exists k :: 0 <= k < |parameters| && parameters[k] == r.value && r.value.term == term &&
                                     (forall j :: 0 <= j < k ==> parameters[j].term != term)
    {
      var k := 0;
      while k < |parameters|
        invariant 0 <= k <= |parameters|
        invariant forall j :: 0 <= j < k ==> parameters[j].term != term
      {
        var parameter := parameters[k];
        if parameter.term.EqualsTerm(Some(term.Term())) {
          EqualsTermIdentifies(parameter.term, term);
          return Some(parameter);
        }
        EqualsTermIdentifies(parameter.term, term);
        k := k + 1;
      }
      return None;
    }

    /** `replace(p)`: overwrite at a positive `indexOf`, otherwise `add`. */
    method Replace(p: Parameter)
      modifies this
      ensures parameters == Replaced(old(parameters), p)
      ensures old(Valid()) ==> Valid()
    {
      if Valid() {
        ReplacedKeepsDistinct(parameters, p);
      }
      var index := IndexOfTerm(parameters, p.GetTerm(), 0);
      if index > 0 {
        parameters := parameters[index := p];
      } else {
        Add(p);
      }
    }

    /** `removeAll()`: nothing is left. */
    method RemoveAll()
      modifies this
      ensures parameters == [] && Size() == 0 && Valid()
    {
      parameters := [];
    }

    /** `toArray()`: a new array holding the parameters in order. */
    method ToArray() returns (a: array<Parameter>)
      ensures fresh(a) && a.Length == Size() && a[..] == parameters
    {
      a := new Parameter[|parameters|](k requires 0 <= k < |parameters| reads this => parameters[k]);
    }
  }
}
