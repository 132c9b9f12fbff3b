/**
 * A request parameter: a search term and its value. The constructor checks the
 * term against SEARCH_PARAMETERS' children first and the class of the value
 * second; the fields are fixed afterwards.
 */
module Parameters {
  import opened Results
  import opened Objects
  import opened ParameterTerms

  datatype Parameter = Parameter(term: ParameterTerm, value: Obj)
  {
    /** `getTerm()`: the term's string. */
    function GetTerm(): string {
      term.Term()
    }

    /** `equals(obj)`: true only for a Parameter whose term string is this one's. */
    predicate Equals(other: Ref<Parameter>) {
      other.Is? && other.obj.GetTerm() == GetTerm()
    }
  }

  /** `isSimpleType`: a Number, a CharSequence (String included) or a Boolean. */
  predicate IsSimpleType(v: Obj) {
    v.JNumber? || v.JCharSequence? || v.JString? || v.JBoolean?
  }

  /** The test of `validateValue`: not null, and a Collection, a Map or a simple type. */
  predicate AcceptedValue(v: Obj) {
    !v.Null? && (v.JCollection? || v.JMap? || IsSimpleType(v))
  }

  /** The for-each loop of `validateName`: does some element of `parameters` equal `name`? */
  method Scan(parameters: seq<string>, name: string) returns (found: bool)
    ensures found <==> name in parameters
  {
    var k := 0;
    while k < |parameters|
      invariant 0 <= k <= |parameters|
      invariant name !in parameters[..k]
    {
      if parameters[k] == name {
        return true;
      }
      assert parameters[..k + 1] == parameters[..k] + [parameters[k]];
      k := k + 1;
    }
    assert parameters[..k] == parameters;
    return false;
  }

  /** `validateName`: the term's string must be one of SEARCH_PARAMETERS' children. */
  method ValidateName(term: ParameterTerm) returns (r: Result<()>)
    ensures r.Ok? <==> term.Term() in SearchParameters.Children()
    ensures r.Fail? ==> r.error == InvalidParameter
  {
    var found := Scan(SearchParameters.Children(), term.Term());
    r := if found then Ok(()) else Fail(InvalidParameter);
  }

  /**
   * `new Parameter(term, value)`: InvalidParameterException for a term that is not
   * a search term, then InvalidValueException for a value of a rejected class.
   */
  method New(term: ParameterTerm, value: Obj) returns (r: Result<Parameter>)
    ensures term.Term() !in SearchParameters.Children() ==> r == Fail(InvalidParameter)
    ensures term.Term() in SearchParameters.Children() && !AcceptedValue(value) ==> r == Fail(InvalidValue)
    ensures term.Term() in SearchParameters.Children() && AcceptedValue(value) ==>
      r.Ok? && r.value.GetTerm() == term.Term() && r.value.term == term && r.value.value == value
  {
    var named := ValidateName(term);
    if named.Fail? {
      return Fail(named.error);
    }
    if !AcceptedValue(value) {
      return Fail(InvalidValue);
    }
    return Ok(Parameter(term, value));
  }

  /** The terms the constructor accepts are exactly the constants whose parent is SEARCH_PARAMETERS. */
  lemma ValidTerms(term: ParameterTerm)
    ensures term.Term() in SearchParameters.Children() <==> term.Parent() == Some(SearchParameters)
  {
    ChildrenMembership(SearchParameters, term.Term());
    forall c: ParameterTerm | c.Term() == term.Term()
      ensures c == term
    {
      TermsDistinct(c, term);
    }
  }

  /** The values the constructor rejects are null and objects of any class outside the accepted ones. */
  lemma RejectedValues(v: Obj)
    ensures !AcceptedValue(v) <==> v.Null? || v.JOther?
  {
  }

  /** `equals` is false for null and foreign objects, and on parameters it is equality of terms. */
  lemma EqualsIsSameTerm(p: Parameter, q: Parameter)
    ensures !p.Equals(Ref.Null) && !p.Equals(Foreign)
    ensures p.Equals(Is(q)) <==> p.term == q.term
    ensures p.Equals(Is(q)) <==> q.Equals(Is(p))
    ensures p.Equals(Is(p))
  {
    TermsDistinct(p.term, q.term);
  }
}
