/**
 * The table of request-parameter terms. Each constant has a term string and an
 * optional parent; the enum's constructor registers every constant with a parent
 * as a child of that parent, in declaration order.
 */
module ParameterTerms {
  import opened Results

  datatype ParameterTerm =
    | Pois
    | Events
    | Routes
    | SearchParameters
    | Base
    | Id
    | Category
    | Tag
    | Complete
    | Minimal
    | Coords
    | Code
    | Limit
    | Offset
    | Name
    | Time
    | Relation
    | List
  {
    /** `getTerm()`. */
    function Term(): string {
      match this
      case Pois => "poi"
      case Events => "event"
      case Routes => "route"
      case SearchParameters => ""
      case Base => "base"
      case Id => "id"
      case Category => "category"
      case Tag => "tag"
      case Complete => "complete"
      case Minimal => "minimal"
      case Coords => "coords"
      case Code => "code"
      case Limit => "limit"
      case Offset => "offset"
      case Name => "name"
      case Time => "time"
      case Relation => "relation"
      case List => "list"
    }

    /** The parent given to the constructor: SEARCH_PARAMETERS for the search terms, null otherwise. */
    function Parent(): Option<ParameterTerm> {
      if Pois? || Events? || Routes? || SearchParameters? then None else Some(SearchParameters)
    }

    /** `getChildren()`: the terms registered with this constant while the enum was built. */
    function Children(): seq<string> {
      RegisteredFrom(0, this)
    }

    /** `hasChildren()`. */
    predicate HasChildren() {
      Children() != []
    }

    /** `equalsTerm(term)`: false for null, string equality otherwise. */
    predicate EqualsTerm(term: Option<string>) {
      term.Some? && Term() == term.value
    }
  }

  /** `ParameterTerms.values()`: the constants in declaration order. */
  const Values: seq<ParameterTerm> :=
    [Pois, Events, Routes, SearchParameters, Base, Id, Category, Tag, Complete, Minimal,
     Coords, Code, Limit, Offset, Name, Time, Relation, List]

  /**
   * The children list of `parent` once the constructors of `values()[i..]` have
   * run in order: each constant whose parent is `parent` appends its term.
   */
  function RegisteredFrom(i: nat, parent: ParameterTerm): seq<string>
    decreases |Values| - i
  {
    if i >= |Values| then []
    else (if Values[i].Parent() == Some(parent) then [Values[i].Term()] else []) + RegisteredFrom(i + 1, parent)
  }

  /** The registered terms are those of the constants whose parent is `parent`. */
  lemma {:induction false} RegisteredMembership(i: nat, parent: ParameterTerm, s: string)
    ensures s in RegisteredFrom(i, parent) <==>
      exists k :: i <= k < |Values| && Values[k].Parent() == Some(parent) && Values[k].Term() == s
    decreases |Values| - i
  {
    if i < |Values| {
      RegisteredMembership(i + 1, parent, s);
      var here := if Values[i].Parent() == Some(parent) then [Values[i].Term()] else [];
      assert RegisteredFrom(i, parent) == here + RegisteredFrom(i + 1, parent);
      assert s in here <==> Values[i].Parent() == Some(parent) && Values[i].Term() == s;
    }
  }

  /** From `i` on, every constant names `parent`: all their terms are registered, in order. */
  lemma {:induction false} RegisteredAll(i: nat, parent: ParameterTerm)
    requires i <= |Values|
    requires forall k :: i <= k < |Values| ==> Values[k].Parent() == Some(parent)
    ensures RegisteredFrom(i, parent) == TermsOf(Values[i..])
    decreases |Values| - i
  {
    if i < |Values| {
      RegisteredAll(i + 1, parent);
      assert Values[i..] == [Values[i]] + Values[i + 1..];
      assert TermsOf(Values[i..]) == [Values[i].Term()] + TermsOf(Values[i + 1..]);
    }
  }

  /** Constants before `j` that do not name `parent` contribute nothing. */
  lemma {:induction false} RegisteredSkip(i: nat, j: nat, parent: ParameterTerm)
    requires i <= j <= |Values|
    requires forall k :: i <= k < j ==> Values[k].Parent() != Some(parent)
    ensures RegisteredFrom(i, parent) == RegisteredFrom(j, parent)
    decreases j - i
  {
    if i < j {
      RegisteredSkip(i + 1, j, parent);
    }
  }

  /** The terms of `ts`, in order. */
  function TermsOf(ts: seq<ParameterTerm>): (r: seq<string>)
    ensures |r| == |ts| && forall k :: 0 <= k < |ts| ==> r[k] == ts[k].Term()
  {
    seq(|ts|, k requires 0 <= k < |ts| => ts[k].Term())
  }

  /** The position of a constant in `values()`. */
  function Ordinal(t: ParameterTerm): (k: nat)
    ensures k < |Values| && Values[k] == t
  {
    match t
    case Pois => 0
    case Events => 1
    case Routes => 2
    case SearchParameters => 3
    case Base => 4
    case Id => 5
    case Category => 6
    case Tag => 7
    case Complete => 8
    case Minimal => 9
    case Coords => 10
    case Code => 11
    case Limit => 12
    case Offset => 13
    case Name => 14
    case Time => 15
    case Relation => 16
    case List => 17
  }

  /** A term is a child of `p` exactly when some constant with parent `p` carries it. */
  lemma ChildrenMembership(p: ParameterTerm, s: string)
    ensures s in p.Children() <==> exists c: ParameterTerm :: c.Parent() == Some(p) && c.Term() == s
  {
    RegisteredMembership(0, p, s);
    if exists c: ParameterTerm :: c.Parent() == Some(p) && c.Term() == s {
      var c: ParameterTerm :| c.Parent() == Some(p) && c.Term() == s;
      var k := Ordinal(c);
      assert Values[k].Parent() == Some(p) && Values[k].Term() == s;
    }
  }

  /** The search terms, in declaration order. */
  lemma SearchParametersChildren()
    ensures SearchParameters.Children() ==
      ["base", "id", "category", "tag", "complete", "minimal", "coords", "code",
       "limit", "offset", "name", "time", "relation", "list"]
  {
    HeadHasNoParent();
    RegisteredSkip(0, 4, SearchParameters);
    TailHasSearchParent();
    RegisteredAll(4, SearchParameters);
    SearchTerms();
  }

  lemma HeadHasNoParent()
    ensures forall k :: 0 <= k < 4 ==> Values[k].Parent() == None
  {
  }

  lemma TailHasSearchParent()
    ensures forall k :: 4 <= k < |Values| ==> Values[k].Parent() == Some(SearchParameters)
  {
  }

  lemma SearchTerms()
    ensures TermsOf(Values[4..]) ==
      ["base", "id", "category", "tag", "complete", "minimal", "coords", "code",
       "limit", "offset", "name", "time", "relation", "list"]
  {
  }

  /** Only SEARCH_PARAMETERS is anybody's parent, so it alone has children. */
  lemma OnlySearchParametersHasChildren(t: ParameterTerm)
    ensures t.HasChildren() <==> t == SearchParameters
  {
    if t != SearchParameters {
      assert forall k :: 0 <= k < |Values| ==> Values[k].Parent() != Some(t);
      RegisteredSkip(0, |Values|, t);
    } else {
      SearchParametersChildren();
    }
  }

  /** No two constants share a term string. */
  lemma TermsDistinct(t: ParameterTerm, u: ParameterTerm)
    ensures t.Term() == u.Term() <==> t == u
  {
    if t.Term() == u.Term() {
      assert |t.Term()| == |u.Term()|;
      if |t.Term()| > 0 {
        assert t.Term()[0] == u.Term()[0];
      }
    }
  }

  /** `equalsTerm` is false for null and, on a term string, identifies exactly one constant. */
  lemma EqualsTermIdentifies(t: ParameterTerm, u: ParameterTerm)
    ensures !t.EqualsTerm(None)
    ensures t.EqualsTerm(Some(u.Term())) <==> t == u
  {
    TermsDistinct(t, u);
  }

  /** A constant without a parent is not a search term. */
  lemma ParentlessIsNotSearchTerm(t: ParameterTerm)
    requires t.Parent() == None
    ensures t.Term() !in SearchParameters.Children()
  {
    ChildrenMembership(SearchParameters, t.Term());
    forall c: ParameterTerm | c.Term() == t.Term()
      ensures c.Parent() != Some(SearchParameters)
    {
      TermsDistinct(c, t);
    }
  }

  /** POIS, EVENTS and ROUTES carry "poi", "event" and "route", none of which is a search term. */
  lemma ListTermsAreNotSearchTerms()
    ensures Pois.Term() == "poi" && Events.Term() == "event" && Routes.Term() == "route"
    ensures "poi" !in SearchParameters.Children()
    ensures "event" !in SearchParameters.Children()
    ensures "route" !in SearchParameters.Children()
    ensures "" !in SearchParameters.Children()
  {
    ParentlessIsNotSearchTerm(Pois);
    ParentlessIsNotSearchTerm(Events);
    ParentlessIsNotSearchTerm(Routes);
    ParentlessIsNotSearchTerm(SearchParameters);
  }
}
