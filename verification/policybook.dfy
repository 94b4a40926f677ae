// The policybook abstract syntax tree that the transpilers consume: the
// condition tree, the action arguments and the policy set that holds them.
// The YAML parser that builds it is not part of this model; the shapes are
// those the parser emits.

module Policybook {
  import opened Wrappers
  import PyDict
  import Json
  import Text

  /** Operands: literals, references into the request, and literal lists. */
  datatype Term =
    | ContextRef(path: string)
    | PrincipalRef(path: string)
    | ActionRef(path: string)
    | ResourceRef(path: string)
    | Variable(name: string)
    | Boolean(b: bool)
    | Integer(i: int)
    | Float(repr: string)
    | Str(s: string)
    | NullType
    | ListLit(items: seq<Term>)

  datatype CompareOp = Equals | NotEquals | LessThan | LessThanOrEqualTo | GreaterThan | GreaterThanOrEqualTo

  datatype MemberOp = ItemInList | ItemNotInList | ListContainsItem | ListNotContainsItem | KeyInDict | KeyNotInDict

  /** Condition nodes. Only the boolean connectives, Equals and NotEquals are
    * rendered to Cedar; every other node renders to the empty text. */
  datatype Cond =
    | Leaf(t: Term)
    | Compare(op: CompareOp, lhs: Term, rhs: Term)
    | Member(mop: MemberOp, lhs: Term, rhs: Term)
    | Search(negated: bool, subject: Term, kind: Term, pattern: Term, options: seq<(Term, Term)>)
    | SelectAttr(negatedAttr: bool, subject: Term, key: Term, operator: Term, value: Term)
    | Select(negatedSel: bool, subject: Term, operator: Term, value: Term)
    | Negate(operand: Cond)
    | IsDefined(defined: bool, ref: Term)
    | And(left: Cond, right: Cond)
    | Or(left: Cond, right: Cond)
    | All(conds: seq<Cond>)
    | Any(conds: seq<Cond>)

  /** A principal or resource matcher value. A missing key reads as Str(""). */
  datatype RoleArg =
    | RoleNull
    | RoleStr(s: string)
    | RoleList(items: seq<string>)
    | RoleDict(isType: string, inValue: string)

  /** The value of an `in` field of an action matcher: a name or a list. */
  datatype InValue = InStr(s: string) | InList(items: seq<string>)

  /** An action matcher value. A missing key reads as ActStr(""). */
  datatype ActionArg =
    | ActNull
    | ActStr(s: string)
    | ActList(items: seq<string>)
    | ActDict(isType: string, inValue: InValue)

  datatype ActionArgs = ActionArgs(principal: RoleArg, action: ActionArg, resource: RoleArg, msg: string)

  /** One entry of a policy's `actions` list: {kind: args}. */
  datatype PolicyAction = PolicyAction(kind: string, args: ActionArgs)

  /** A policy of a policybook. `name` is None when the key is missing;
    * `condition`/`exception` are None for the empty default. */
  datatype PolicyAst = PolicyAst(
    name: Option<string>,
    target: Option<string>,
    tags: seq<string>,
    condition: Option<Cond>,
    exception: Option<Cond>,
    actions: seq<PolicyAction>)

  datatype PolicySetAst = PolicySetAst(name: Option<string>, vars: PyDict.Dict<string, Json.Json>, policies: seq<PolicyAst>)

  /** The parsed document: None when it has no "PolicySet" key. */
  type Document = Option<PolicySetAst>

  /** Each name in single quotes, as Python's repr writes a plain string. */
  function Quoted(xs: seq<string>): (r: seq<string>)
    ensures |r| == |xs|
    ensures forall i :: 0 <= i < |xs| ==> r[i] == "'" + xs[i] + "'"
  {
    if |xs| == 0 then [] else ["'" + xs[0] + "'"] + Quoted(xs[1..])
  }

  /** The error action_to_rule raises for an action kind outside the valid
    * ones: the kind, then the valid kinds printed as a Python list. */
  function UnsupportedAction(kind: string, validActions: seq<string>): (e: Error)
    ensures e.ValueError? && Text.StartsWith(e.msg, kind + " is not supported")
  {
    ValueError(kind + " is not supported. supported actions are [" + Text.Join(Quoted(validActions), ", ") + "]")
  }
}
