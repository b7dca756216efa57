/** WHERE conditions, their tokens, a printer, and what the recursive-descent parser of src/sql/parser.cpp:611-736
    computes, as functions on the remaining tokens. */
module SqlSyntax {
  import opened Errors

  datatype CompareOp = Eq | Ne | Lt | Le | Gt | Ge

  datatype Value = NullValue | IntValue(i: int) | BoolValue(b: bool) | TextValue(s: string)

  datatype Condition =
    | Compare(column: string, op: CompareOp, value: Value)
    | IsNull(column: string)
    | IsNotNull(column: string)
    | AndOf(children: seq<Condition>)
    | OrOf(children: seq<Condition>)
    | NotOf(child: Condition)

  datatype Token =
    | EofTok
    | ErrorTok
    | Ident(name: string)
    | Lit(value: Value)
    | NullTok
    | OpTok(op: CompareOp)
    | LParen
    | RParen
    | AndTok
    | OrTok
    | NotTok
    | IsTok
    | Dot
    | UnsupportedKeyword
    | OtherTok

  type Tokens = seq<Token>

  const MAX_IDENTIFIER := 64

  function Head(ts: Tokens): Token {
    if ts == [] then EofTok else ts[0]
  }

  function Tail(ts: Tokens): (r: Tokens)
    ensures |r| <= |ts| && (ts != [] ==> |r| < |ts|)
  {
    if ts == [] then [] else ts[1..]
  }

  datatype Parsed = Parsed(cond: Condition, rest: Tokens)

  // ---- the parser ----

  function TakeIdentifier(ts: Tokens): (r: Result<(string, Tokens)>)
    ensures r.Success? ==> |r.value.1| < |ts|
  {
    match Head(ts)
    case UnsupportedKeyword => Failure(Unsupported)
    case Ident(name) =>
      if |name| > MAX_IDENTIFIER then Failure(SqlSyntax)
      else if Head(Tail(ts)) == Dot then Failure(Unsupported)
      else Success((name, Tail(ts)))
    case _ => Failure(SqlSyntax)
  }

  function TakeLiteral(ts: Tokens): (r: Result<(Value, Tokens)>)
    ensures r.Success? ==> |r.value.1| < |ts|
  {
    match Head(ts)
    case Lit(v) => Success((v, Tail(ts)))
    case NullTok => Success((NullValue, Tail(ts)))
    case UnsupportedKeyword => Failure(Unsupported)
    case _ => Failure(SqlSyntax)
  }

  function ParseOperand(ts: Tokens): (r: Result<Parsed>)
    ensures r.Success? ==> |r.value.rest| < |ts|
  {
    var id := TakeIdentifier(ts);
    if id.Failure? then Failure(id.error) else
      var column, rest := id.value.0, id.value.1;
      match Head(rest)
      case LParen => Failure(Unsupported)
      case IsTok =>
        var negate := Head(Tail(rest)) == NotTok;
        var r := if negate then Tail(Tail(rest)) else Tail(rest);
        if Head(r) != NullTok then Failure(SqlSyntax)
        else Success(Parsed(if negate then IsNotNull(column) else IsNull(column), Tail(r)))
      case OpTok(op) =>
        var lit := TakeLiteral(Tail(rest));
        if lit.Failure? then Failure(lit.error) else Success(Parsed(Compare(column, op, lit.value.0), lit.value.1))
      case UnsupportedKeyword => Failure(Unsupported)
      case _ => Failure(SqlSyntax)
  }

  function ParsePrimary(ts: Tokens): (r: Result<Parsed>)
    ensures r.Success? ==> |r.value.rest| < |ts|
    decreases |ts|, 0
  {
    if Head(ts) == LParen then
      var inner := ParseOr(Tail(ts));
      if inner.Failure? then inner
      else if Head(inner.value.rest) != RParen then Failure(SqlSyntax)
      else Success(Parsed(inner.value.cond, Tail(inner.value.rest)))
    else ParseOperand(ts)
  }

  function ParseNot(ts: Tokens): (r: Result<Parsed>)
    ensures r.Success? ==> |r.value.rest| < |ts|
    decreases |ts|, 1
  {
    if Head(ts) == NotTok then
      var child := ParseNot(Tail(ts));
      if child.Failure? then child else Success(Parsed(NotOf(child.value.cond), child.value.rest))
    else ParsePrimary(ts)
  }

  function ParseAnd(ts: Tokens): (r: Result<Parsed>)
    ensures r.Success? ==> |r.value.rest| < |ts|
    decreases |ts|, 3
  {
    var left := ParseNot(ts);
    if left.Failure? then left
    else if Head(left.value.rest) != AndTok then left
    else AndMore([left.value.cond], left.value.rest)
  }

  /** The loop over further conjuncts. */
  function AndMore(acc: seq<Condition>, ts: Tokens): (r: Result<Parsed>)
    ensures r.Success? ==> |r.value.rest| <= |ts|
    decreases |ts|, 2
  {
    if Head(ts) != AndTok then Success(Parsed(AndOf(acc), ts)) else
      var right := ParseNot(Tail(ts));
      if right.Failure? then right else AndMore(acc + [right.value.cond], right.value.rest)
  }

  function ParseOr(ts: Tokens): (r: Result<Parsed>)
    ensures r.Success? ==> |r.value.rest| < |ts|
    decreases |ts|, 5
  {
    var left := ParseAnd(ts);
    if left.Failure? then left
    else if Head(left.value.rest) != OrTok then left
    else OrMore([left.value.cond], left.value.rest)
  }

  /** The loop over further disjuncts. */
  function OrMore(acc: seq<Condition>, ts: Tokens): (r: Result<Parsed>)
    ensures r.Success? ==> |r.value.rest| <= |ts|
    decreases |ts|, 4
  {
    if Head(ts) != OrTok then Success(Parsed(OrOf(acc), ts)) else
      var right := ParseAnd(Tail(ts));
      if right.Failure? then right else OrMore(acc + [right.value.cond], right.value.rest)
  }

  // ---- the printer ----

  predicate Composite(c: Condition) {
    c.AndOf? || c.OrOf? || c.NotOf?
  }

  /** The trees the parser builds: at least two operands, names within the limit. */
  predicate WellFormed(c: Condition) {
    match c
    case Compare(column, _, _) => |column| <= MAX_IDENTIFIER
    case IsNull(column) => |column| <= MAX_IDENTIFIER
    case IsNotNull(column) => |column| <= MAX_IDENTIFIER
    case AndOf(cs) => |cs| >= 2 && forall i :: 0 <= i < |cs| ==> WellFormed(cs[i])
    case OrOf(cs) => |cs| >= 2 && forall i :: 0 <= i < |cs| ==> WellFormed(cs[i])
    case NotOf(d) => WellFormed(d)
  }

  function LiteralToken(v: Value): Token {
    if v.NullValue? then NullTok else Lit(v)
  }

  function Print(c: Condition): Tokens
    decreases c, 0
  {
    match c
    case Compare(column, op, v) => [Ident(column), OpTok(op), LiteralToken(v)]
    case IsNull(column) => [Ident(column), IsTok, NullTok]
    case IsNotNull(column) => [Ident(column), IsTok, NotTok, NullTok]
    case AndOf(cs) => Joined(c, cs, AndTok)
    case OrOf(cs) => Joined(c, cs, OrTok)
    case NotOf(d) => [NotTok] + PrintChild(d)
  }

  /** An operand in parentheses when it is composite itself. */
  function PrintChild(c: Condition): Tokens
    decreases c, 1
  {
    if Composite(c) then [LParen] + Print(c) + [RParen] else Print(c)
  }

  /** The operands with the connective between them. */
  function Joined(parent: Condition, cs: seq<Condition>, sep: Token): Tokens
    requires forall i :: 0 <= i < |cs| ==> cs[i] < parent
    decreases parent, 0, |cs|
  {
    if cs == [] then [] else if |cs| == 1 then PrintChild(cs[0])
    else PrintChild(cs[0]) + [sep] + Joined(parent, cs[1..], sep)
  }
}
