/**
 * The table of resource terms a server advertises. Each constant has a term
 * string and an optional parent; the enum's constructor registers every constant
 * with a parent as a child of that parent, in declaration order. `fromString`
 * looks a constant up by its term.
 */
module ResourceTerms {
  import opened Results

  datatype ResourceTerm =
    | ResourcePois
    | FindPoi
    | FindPoiRelation
    | ResourceEvents
    | FindEvent
    | FindEventRelation
    | ResourceRoutes
    | FindRoute
    | FindCategories
    | FindTags
    | FindCode
  {
    /** `getTerm()`. */
    function Term(): string {
      match this
      case ResourcePois => "resource-pois"
      case FindPoi => "find-poi"
      case FindPoiRelation => "find-poi-relation"
      case ResourceEvents => "resource-events"
      case FindEvent => "find-event"
      case FindEventRelation => "find-event-relation"
      case ResourceRoutes => "resource-routes"
      case FindRoute => "find-route"
      case FindCategories => "find-categories"
      case FindTags => "find-tags"
      case FindCode => "find-code"
    }

    /** The parent given to the constructor. */
    function Parent(): Option<ResourceTerm> {
      match this
      case FindPoi => Some(ResourcePois)
      case FindPoiRelation => Some(ResourcePois)
      case FindEvent => Some(ResourceEvents)
      case FindEventRelation => Some(ResourceEvents)
      case FindRoute => Some(ResourceRoutes)
      case _ => None
    }

    /** `getChildren()`: the terms registered with this constant while the enum was built. */
    function Children(): seq<string> {
      RegisteredFrom(0, this)
    }

    /** `hasChildren()`. */
    predicate HasChildren() {
      Children() != []
    }

    /** `equalsTerm(term)`: false for null, string equality otherwise. */
    predicate EqualsTerm(term: Option<string>) {
      term.Some? && Term() == term.value
    }
  }

  /** `ResourceTerms.values()`: the constants in declaration order. */
  const Values: seq<ResourceTerm> :=
    [ResourcePois, FindPoi, FindPoiRelation, ResourceEvents, FindEvent, FindEventRelation,
     ResourceRoutes, FindRoute, FindCategories, FindTags, FindCode]

  /**
   * The children list of `parent` once the constructors of `values()[i..]` have
   * run in order: each constant whose parent is `parent` appends its term.
   */
  function RegisteredFrom(i: nat, parent: ResourceTerm): seq<string>
    decreases |Values| - i
  {
    if i >= |Values| then []
    else (if Values[i].Parent() == Some(parent) then [Values[i].Term()] else []) + RegisteredFrom(i + 1, parent)
  }

  /** The position of a constant in `values()`. */
  function Ordinal(t: ResourceTerm): (k: nat)
    ensures k < |Values| && Values[k] == t
  {
    match t
    case ResourcePois => 0
    case FindPoi => 1
    case FindPoiRelation => 2
    case ResourceEvents => 3
    case FindEvent => 4
    case FindEventRelation => 5
    case ResourceRoutes => 6
    case FindRoute => 7
    case FindCategories => 8
    case FindTags => 9
    case FindCode => 10
  }

  /** No two constants share a term string. */
  lemma TermsDistinct(t: ResourceTerm, u: ResourceTerm)
    ensures t.Term() == u.Term() <==> t == u
  {
  }

  /** Constants before `j` that do not name `parent` contribute nothing. */
  lemma {:induction false} RegisteredSkip(i: nat, j: nat, parent: ResourceTerm)
    requires i <= j <= |Values|
    requires forall k :: i <= k < j ==> Values[k].Parent() != Some(parent)
    ensures RegisteredFrom(i, parent) == RegisteredFrom(j, parent)
    decreases j - i
  {
    if i < j {
      RegisteredSkip(i + 1, j, parent);
    }
  }

  /** RESOURCE_POIS groups the two POI searches. */
  lemma PoisChildren()
    ensures ResourcePois.Children() == ["find-poi", "find-poi-relation"]
  {
    RegisteredSkip(3, |Values|, ResourcePois);
  }

  /** RESOURCE_EVENTS groups the two event searches. */
  lemma EventsChildren()
    ensures ResourceEvents.Children() == ["find-event", "find-event-relation"]
  {
    RegisteredSkip(0, 4, ResourceEvents);
    RegisteredSkip(6, |Values|, ResourceEvents);
  }

  /** RESOURCE_ROUTES groups the route search. */
  lemma RoutesChildren()
    ensures ResourceRoutes.Children() == ["find-route"]
  {
    RegisteredSkip(0, 7, ResourceRoutes);
    RegisteredSkip(8, |Values|, ResourceRoutes);
  }

  /** Only the three RESOURCE_* groups have children. */
  lemma HasChildrenExactlyGroups(t: ResourceTerm)
    ensures t.HasChildren() <==> t in {ResourcePois, ResourceEvents, ResourceRoutes}
  {
    if t == ResourcePois {
      PoisChildren();
    } else if t == ResourceEvents {
      EventsChildren();
    } else if t == ResourceRoutes {
      RoutesChildren();
    } else {
      assert forall k :: 0 <= k < |Values| ==> Values[k].Parent() != Some(t);
      RegisteredSkip(0, |Values|, t);
    }
  }

  /** A term is a child of `p` exactly when some constant with parent `p` carries it. */
  lemma ChildrenMembership(p: ResourceTerm, s: string)
    ensures s in p.Children() <==> exists c: ResourceTerm :: c.Parent() == Some(p) && c.Term() == s
  {
    HasChildrenExactlyGroups(p);
    if p == ResourcePois {
      PoisChildren();
      if s in p.Children() {
        assert s == FindPoi.Term() || s == FindPoiRelation.Term();
      }
    } else if p == ResourceEvents {
      EventsChildren();
      if s in p.Children() {
        assert s == FindEvent.Term() || s == FindEventRelation.Term();
      }
    } else if p == ResourceRoutes {
      RoutesChildren();
      assert s in p.Children() ==> s == FindRoute.Term();
    }
  }

  /** The scan of `values()[i..]` for the first constant whose `equalsTerm` accepts `term`. */
  function FirstWithTerm(i: nat, term: Option<string>): Option<ResourceTerm>
    decreases |Values| - i
  {
    if i >= |Values| then None
    else if Values[i].EqualsTerm(term) then Some(Values[i])
    else FirstWithTerm(i + 1, term)
  }

  /** `fromString`: the constant with the given term; null or an unknown term throws IllegalArgumentException. */
  function FromString(term: Option<string>): Result<ResourceTerm> {
    if term.None? then Fail(IllegalArgument)
    else
      var found := FirstWithTerm(0, term);
      if found.Some? then Ok(found.value) else Fail(IllegalArgument)
  }

  /** `fromString` itself: a null term throws; otherwise the loop over `values()` returns at the first match. */
  method Lookup(term: Option<string>) returns (r: Result<ResourceTerm>)
    ensures r == FromString(term)
  {
    if term.Some? {
      var i := 0;
      while i < |Values|
        invariant 0 <= i <= |Values|
        invariant FirstWithTerm(i, term) == FirstWithTerm(0, term)
      {
        if Values[i].EqualsTerm(term) {
          return Ok(Values[i]);
        }
        i := i + 1;
      }
    }
    return Fail(IllegalArgument);
  }

  /** The scan finds a constant exactly when one from `i` on carries the term. */
  lemma {:induction false} FirstWithTermFinds(i: nat, s: string)
    ensures FirstWithTerm(i, Some(s)).Some? ==> FirstWithTerm(i, Some(s)).value.Term() == s
    ensures FirstWithTerm(i, Some(s)).None? ==> forall k :: i <= k < |Values| ==> Values[k].Term() != s
    decreases |Values| - i
  {
    if i < |Values| {
      var t := Values[i];
      if t.Term() == s {
        assert FirstWithTerm(i, Some(s)) == Some(t);
      } else {
        FirstWithTermFinds(i + 1, s);
        assert FirstWithTerm(i, Some(s)) == FirstWithTerm(i + 1, Some(s));
        if FirstWithTerm(i, Some(s)).None? {
          forall k | i <= k < |Values| ensures Values[k].Term() != s {
            if k == i {
              assert Values[k] == t;
            }
          }
        }
      }
    }
  }

  /** `fromString` answers with the constant whose term is given, and throws for null or any other string. */
  lemma FromStringSpec(term: Option<string>)
    ensures term.None? ==> FromString(term) == Fail(IllegalArgument)
    ensures term.Some? ==> (FromString(term).Ok? <==> exists t: ResourceTerm :: t.Term() == term.value)
    ensures FromString(term).Ok? ==> FromString(term).value.Term() == term.value
    ensures FromString(term).Fail? ==> FromString(term).error == IllegalArgument
  {
    if term.Some? {
      FirstWithTermFinds(0, term.value);
      if exists t: ResourceTerm :: t.Term() == term.value {
        var t: ResourceTerm :| t.Term() == term.value;
        var k := Ordinal(t);
        assert Values[k].Term() == term.value;
      }
    }
  }

  /** Every constant is found again from its own term. */
  lemma FromStringRoundTrip(t: ResourceTerm)
    ensures FromString(Some(t.Term())) == Ok(t)
  {
    FromStringSpec(Some(t.Term()));
    TermsDistinct(FromString(Some(t.Term())).value, t);
  }

  /** `equalsTerm` is false for null and, on a term string, identifies exactly one constant. */
  lemma EqualsTermIdentifies(t: ResourceTerm, u: ResourceTerm)
    ensures !t.EqualsTerm(None)
    ensures t.EqualsTerm(Some(u.Term())) <==> t == u
  {
    TermsDistinct(t, u);
  }
}
