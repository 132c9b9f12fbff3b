/**
 * The operator table of the URI template engine: each enum constant has a
 * lookup code, a prefix emitted at the start of an expansion, a separator and
 * a flag saying whether values are rendered as `name=value`.
 */
module Operators {

  datatype Operator =
    | NullOp
    | DefaultOp
    | PlusOp
    | SharpOp
    | DotOp
    | SlashOp
    | SemicolonOp
    | QueryOp
    | FormOp
  {
    /** The code `fromOpCode` looks the constant up by. */
    function Code(): string {
      match this
      case NullOp => ""
      case DefaultOp => ""
      case PlusOp => "+"
      case SharpOp => "#"
      case DotOp => "."
      case SlashOp => "/"
      case SemicolonOp => ";"
      case QueryOp => "?"
      case FormOp => "&"
    }

    /** `getOperator()`: the text put in front of an expansion. */
    function Prefix(): string {
      match this
      case NullOp => ""
      case DefaultOp => ""
      case PlusOp => ""
      case SharpOp => "#"
      case DotOp => "."
      case SlashOp => "/"
      case SemicolonOp => ";"
      case QueryOp => "?"
      case FormOp => "&"
    }

    /** `getSeparator()`. */
    function Separator(): string {
      match this
      case NullOp => ""
      case DefaultOp => ","
      case PlusOp => ","
      case SharpOp => ","
      case DotOp => "."
      case SlashOp => "/"
      case SemicolonOp => ";"
      case QueryOp => "&"
      case FormOp => "&"
    }

    /** `isNamed()`. */
    predicate IsNamed() {
      SemicolonOp? || QueryOp? || FormOp?
    }

    /** `hasSeparator()`: the separator is not the empty string. */
    predicate HasSeparator() {
      Separator() != ""
    }

    /** `toString()`. */
    function ToString(): string {
      Prefix()
    }
  }

  /** `Operator.values()`: the constants in declaration order. */
  const Values: seq<Operator> :=
    [NullOp, DefaultOp, PlusOp, SharpOp, DotOp, SlashOp, SemicolonOp, QueryOp, FormOp]

  /** The first constant from index `i` of `values()` whose code is `op`, or NULL_OP. */
  function FirstCodeFrom(op: string, i: nat): Operator
    decreases |Values| - i
  {
    if i >= |Values| then NullOp
    else if Values[i].Code() == op then Values[i]
    else FirstCodeFrom(op, i + 1)
  }

  /** `fromOpCode`: a scan of `values()` for the first constant with the given code. */
  function FromOpCode(op: string): Operator {
    FirstCodeFrom(op, 0)
  }

  /** `fromOpCode` itself: the loop over `values()` that returns at the first match. */
  method LookUp(op: string) returns (r: Operator)
    ensures r == FromOpCode(op)
  {
    var i := 0;
    while i < |Values|
      invariant 0 <= i <= |Values|
      invariant FirstCodeFrom(op, i) == FromOpCode(op)
    {
      if Values[i].Code() == op {
        return Values[i];
      }
      i := i + 1;
    }
    return NullOp;
  }

  /** The scan from `i` returns the first match from `i` on, or NULL_OP when there is none. */
  lemma {:induction false} FirstCodeFromIsFirst(op: string, i: nat)
    ensures (forall k :: i <= k < |Values| ==> Values[k].Code() != op) ==> FirstCodeFrom(op, i) == NullOp
    ensures forall k :: (i <= k < |Values| && Values[k].Code() == op &&
                         (forall j :: i <= j < k ==> Values[j].Code() != op)) ==> FirstCodeFrom(op, i) == Values[k]
    decreases |Values| - i
  {
    if i < |Values| {
      FirstCodeFromIsFirst(op, i + 1);
      if Values[i].Code() != op {
        assert FirstCodeFrom(op, i) == FirstCodeFrom(op, i + 1);
        forall k | i <= k < |Values| && Values[k].Code() == op && (forall j :: i <= j < k ==> Values[j].Code() != op)
          ensures FirstCodeFrom(op, i) == Values[k]
        {
          assert forall j :: i + 1 <= j < k ==> Values[j].Code() != op;
        }
      }
    }
  }

  /** `fromOpCode` answers with the first constant carrying the code, and NULL_OP for any other string. */
  lemma FromOpCodeSpec(op: string)
    ensures (forall k :: 0 <= k < |Values| ==> Values[k].Code() != op) ==> FromOpCode(op) == NullOp
    ensures forall k :: (0 <= k < |Values| && Values[k].Code() == op &&
                         (forall j :: 0 <= j < k ==> Values[j].Code() != op)) ==> FromOpCode(op) == Values[k]
  {
    FirstCodeFromIsFirst(op, 0);
  }

  /** The seven one-character codes select their constants; every other string selects NULL_OP. */
  lemma FromOpCodeTable(op: string)
    ensures op == "+" ==> FromOpCode(op) == PlusOp
    ensures op == "#" ==> FromOpCode(op) == SharpOp
    ensures op == "." ==> FromOpCode(op) == DotOp
    ensures op == "/" ==> FromOpCode(op) == SlashOp
    ensures op == ";" ==> FromOpCode(op) == SemicolonOp
    ensures op == "?" ==> FromOpCode(op) == QueryOp
    ensures op == "&" ==> FromOpCode(op) == FormOp
    ensures op !in {"+", "#", ".", "/", ";", "?", "&"} ==> FromOpCode(op) == NullOp
    ensures FromOpCode(op).Code() == op || FromOpCode(op) == NullOp
  {
    var r := FromOpCode(op);
    if op == "" {
      assert Values[0].Code() == op;
    } else {
      assert r == FirstCodeFrom(op, 1);
      assert r == FirstCodeFrom(op, 2);
      if op == "+" {
      } else {
        assert r == FirstCodeFrom(op, 3);
        if op == "#" {
        } else {
          assert r == FirstCodeFrom(op, 4);
          if op == "." {
          } else {
            assert r == FirstCodeFrom(op, 5);
            if op == "/" {
            } else {
              assert r == FirstCodeFrom(op, 6);
              if op == ";" {
              } else {
                assert r == FirstCodeFrom(op, 7);
                if op == "?" {
                } else {
                  assert r == FirstCodeFrom(op, 8);
                  if op == "&" {
                  } else {
                    assert r == FirstCodeFrom(op, 9);
                  }
                }
              }
            }
          }
        }
      }
    }
  }

  /** DEFAULT_OP shares the code "" with NULL_OP, which comes first, so it is never looked up. */
  lemma DefaultOpUnreachable(op: string)
    ensures FromOpCode(op) != DefaultOp
  {
    FromOpCodeTable(op);
  }

  /** Only NULL_OP lacks a separator. */
  lemma HasSeparatorExceptNull(o: Operator)
    ensures o.HasSeparator() <==> o != NullOp
  {
  }

  /** The named operators are exactly those with codes ";", "?" and "&". */
  lemma NamedCodes(o: Operator)
    ensures o.IsNamed() <==> o.Code() in {";", "?", "&"}
  {
  }

  /** Every prefix and separator is at most one character, which `build`'s one-character strip relies on. */
  lemma OneCharacterTexts(o: Operator)
    ensures |o.Prefix()| <= 1 && |o.Separator()| <= 1
    ensures o.ToString() == o.Prefix()
  {
  }
}
