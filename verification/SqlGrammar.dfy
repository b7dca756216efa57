/** The grammar of WHERE conditions, and that the parser of src/sql/parser.cpp:611-736 accepts exactly what it derives.
    A derivation keeps the parentheses that a condition forgets. */
module SqlGrammar {
  import opened Errors
  import opened SqlSyntax

  datatype Tree =
    | CompareLeaf(column: string, op: CompareOp, literal: Token)
    | NullLeaf(column: string, negate: bool)
    | Parens(inner: Tree)
    | NotTree(child: Tree)
    | AndTree(left: Tree, right: Tree)
    | OrTree(left: Tree, right: Tree)

  // ---- the rules ----

  predicate IsName(name: string) {
    |name| <= 64
  }

  /** A comparison, a NULL test, or a condition in parentheses. */
  predicate IsPrimary(t: Tree)
    decreases t, 0
  {
    match t
    case CompareLeaf(column, _, literal) => IsName(column) && (literal.Lit? || literal == NullTok)
    case NullLeaf(column, _) => IsName(column)
    case Parens(inner) => IsOr(inner)
    case _ => false
  }

  predicate IsNot(t: Tree)
    decreases t, 1
  {
    if t.NotTree? then IsNot(t.child) else IsPrimary(t)
  }

  predicate IsAnd(t: Tree)
    decreases t, 2
  {
    if t.AndTree? then IsAnd(t.left) && IsNot(t.right) else IsNot(t)
  }

  predicate IsOr(t: Tree)
    decreases t, 3
  {
    if t.OrTree? then IsOr(t.left) && IsAnd(t.right) else IsAnd(t)
  }

  /** The tokens that a derivation derives. */
  function Yield(t: Tree): (ts: Tokens)
    ensures ts != []
  {
    match t
    case CompareLeaf(column, op, literal) => [Ident(column), OpTok(op), literal]
    case NullLeaf(column, negate) => [Ident(column), IsTok] + (if negate then [NotTok] else []) + [NullTok]
    case Parens(inner) => [LParen] + Yield(inner) + [RParen]
    case NotTree(child) => [NotTok] + Yield(child)
    case AndTree(left, right) => Yield(left) + [AndTok] + Yield(right)
    case OrTree(left, right) => Yield(left) + [OrTok] + Yield(right)
  }

  /** What it means. */
  function Meaning(t: Tree): Condition
    decreases t, 1
  {
    match t
    case CompareLeaf(column, op, literal) =>
      Compare(column, op, if literal.Lit? then literal.value else NullValue)
    case NullLeaf(column, negate) => if negate then IsNotNull(column) else IsNull(column)
    case Parens(inner) => Meaning(inner)
    case NotTree(child) => NotOf(Meaning(child))
    case AndTree(_, _) => AndOf(Conjuncts(t))
    case OrTree(_, _) => OrOf(Disjuncts(t))
  }

  function Conjuncts(t: Tree): seq<Condition>
    decreases t, if t.AndTree? then 0 else 2
  {
    if t.AndTree? then Conjuncts(t.left) + [Meaning(t.right)] else [Meaning(t)]
  }

  function Disjuncts(t: Tree): seq<Condition>
    decreases t, if t.OrTree? then 0 else 2
  {
    if t.OrTree? then Disjuncts(t.left) + [Meaning(t.right)] else [Meaning(t)]
  }

  // ---- what is accepted is derived ----

  lemma TakeHead(ts: Tokens)
    requires ts != []
    ensures ts == [Head(ts)] + Tail(ts)
  {
  }

  lemma TakeToken(ts: Tokens)
    requires Head(ts) != EofTok
    ensures ts == [Head(ts)] + Tail(ts)
  {
  }

  lemma NotIsAnd(t: Tree)
    requires IsNot(t)
    ensures !t.AndTree? && IsAnd(t) && Conjuncts(t) == [Meaning(t)]
  {
  }

  lemma AndIsOr(t: Tree)
    requires IsAnd(t)
    ensures !t.OrTree? && IsOr(t) && Disjuncts(t) == [Meaning(t)]
  {
    if !t.AndTree? && !t.NotTree? { assert IsPrimary(t); }
  }

  lemma Regroup(front: Tokens, x: Token, back: Tokens, rest: Tokens)
    ensures (front + [x] + back) + rest == front + ([x] + (back + rest))
  {
  }

  /** One more operand behind the connective. */
  lemma Longer(l: Tree, r: Tree, ts: Tokens, rest: Tokens)
    requires ts != [] && Yield(r) + rest == Tail(ts)
    ensures ts[0] == AndTok ==> Yield(AndTree(l, r)) + rest == Yield(l) + ts
    ensures ts[0] == OrTok ==> Yield(OrTree(l, r)) + rest == Yield(l) + ts
  {
    TakeHead(ts);
    Regroup(Yield(l), AndTok, Yield(r), rest);
    Regroup(Yield(l), OrTok, Yield(r), rest);
  }

  /** The first tokens of a list, one by one. */
  lemma Front(ts: Tokens)
    ensures |ts| >= 3 ==> ts == [ts[0], ts[1], ts[2]] + ts[3..] && Tail(Tail(Tail(ts))) == ts[3..]
    ensures |ts| >= 3 ==> Head(ts) == ts[0] && Head(Tail(ts)) == ts[1] && Head(Tail(Tail(ts))) == ts[2]
    ensures |ts| >= 4 ==> ts == [ts[0], ts[1], ts[2], ts[3]] + ts[4..] && Tail(Tail(Tail(Tail(ts)))) == ts[4..]
    ensures |ts| >= 4 ==> Head(Tail(Tail(Tail(ts)))) == ts[3]
    ensures |ts| == 0 ==> Head(ts) == EofTok
    ensures |ts| == 1 ==> Head(Tail(ts)) == EofTok
    ensures |ts| == 2 ==> Head(Tail(Tail(ts))) == EofTok
    ensures |ts| == 3 ==> Head(Tail(Tail(Tail(ts)))) == EofTok
  {
    if |ts| >= 1 { assert Tail(ts) == ts[1..]; }
    if |ts| >= 2 { assert Tail(Tail(ts)) == ts[2..]; }
    if |ts| >= 3 { assert Tail(Tail(Tail(ts))) == ts[3..]; }
    if |ts| >= 4 { assert Tail(Tail(Tail(Tail(ts)))) == ts[4..]; }
  }

  lemma OperandDerived(ts: Tokens) returns (t: Tree)
    requires ParseOperand(ts).Success?
    ensures IsPrimary(t) && Meaning(t) == ParseOperand(ts).value.cond && Yield(t) + ParseOperand(ts).value.rest == ts
  {
    hide Tail, Head;
    Front(ts);
    var column := TakeIdentifier(ts).value.0;
    if Head(Tail(ts)) == IsTok {
      t := NullLeaf(column, Head(Tail(Tail(ts))) == NotTok);
    } else {
      t := CompareLeaf(column, Head(Tail(ts)).op, Head(Tail(Tail(ts))));
    }
  }

  lemma {:induction false} PrimaryDerived(ts: Tokens) returns (t: Tree)
    requires ParsePrimary(ts).Success?
    ensures IsPrimary(t) && Meaning(t) == ParsePrimary(ts).value.cond && Yield(t) + ParsePrimary(ts).value.rest == ts
    decreases |ts|, 0
  {
    hide Head, Tail, ParseOr;
    if Head(ts) == LParen {
      var inner := OrDerived(Tail(ts));
      t := Parens(inner);
      var after := ParseOr(Tail(ts)).value.rest;
      TakeToken(ts);
      TakeToken(after);
      Regroup([LParen] + Yield(inner), RParen, [], Tail(after));
      assert ts == [LParen] + (Yield(inner) + after);
    } else {
      t := OperandDerived(ts);
    }
  }

  lemma {:induction false} NotDerived(ts: Tokens) returns (t: Tree)
    requires ParseNot(ts).Success?
    ensures IsNot(t) && Meaning(t) == ParseNot(ts).value.cond && Yield(t) + ParseNot(ts).value.rest == ts
    decreases |ts|, 1
  {
    if Head(ts) == NotTok {
      var child := NotDerived(Tail(ts));
      t := NotTree(child);
      TakeHead(ts);
    } else {
      t := PrimaryDerived(ts);
    }
  }

  lemma {:induction false} AndDerived(ts: Tokens) returns (t: Tree)
    requires ParseAnd(ts).Success?
    ensures IsAnd(t) && Meaning(t) == ParseAnd(ts).value.cond && Yield(t) + ParseAnd(ts).value.rest == ts
    decreases |ts|, 3
  {
    t := NotDerived(ts);
    NotIsAnd(t);
    var left := ParseNot(ts).value;
    if Head(left.rest) == AndTok {
      t := AndMoreDerived(t, left.rest);
    }
  }

  lemma {:induction false} AndMoreDerived(l: Tree, ts: Tokens) returns (t: Tree)
    requires AndMore(Conjuncts(l), ts).Success? && IsAnd(l) && (l.AndTree? || Head(ts) == AndTok)
    ensures t.AndTree? && IsAnd(t) && Meaning(t) == AndMore(Conjuncts(l), ts).value.cond
    ensures Yield(t) + AndMore(Conjuncts(l), ts).value.rest == Yield(l) + ts
    decreases |ts|, 2
  {
    hide Yield;
    if Head(ts) != AndTok {
      t := l;
    } else {
      var r := NotDerived(Tail(ts));
      Longer(l, r, ts, ParseNot(Tail(ts)).value.rest);
      t := AndMoreDerived(AndTree(l, r), ParseNot(Tail(ts)).value.rest);
    }
  }

  /** Every condition that is accepted is the meaning of a derivation of just the tokens that were taken. */
  lemma {:induction false} OrDerived(ts: Tokens) returns (t: Tree)
    requires ParseOr(ts).Success?
    ensures IsOr(t) && Meaning(t) == ParseOr(ts).value.cond && Yield(t) + ParseOr(ts).value.rest == ts
    decreases |ts|, 5
  {
    t := AndDerived(ts);
    AndIsOr(t);
    var left := ParseAnd(ts).value;
    if Head(left.rest) == OrTok {
      t := OrMoreDerived(t, left.rest);
    }
  }

  lemma {:induction false} OrMoreDerived(l: Tree, ts: Tokens) returns (t: Tree)
    requires OrMore(Disjuncts(l), ts).Success? && IsOr(l) && (l.OrTree? || Head(ts) == OrTok)
    ensures t.OrTree? && IsOr(t) && Meaning(t) == OrMore(Disjuncts(l), ts).value.cond
    ensures Yield(t) + OrMore(Disjuncts(l), ts).value.rest == Yield(l) + ts
    decreases |ts|, 4
  {
    hide Yield;
    if Head(ts) != OrTok {
      t := l;
    } else {
      var r := AndDerived(Tail(ts));
      Longer(l, r, ts, ParseAnd(Tail(ts)).value.rest);
      t := OrMoreDerived(OrTree(l, r), ParseAnd(Tail(ts)).value.rest);
    }
  }

  // ---- what is derived is accepted ----

  lemma PrimaryHead(t: Tree, rest: Tokens)
    requires IsPrimary(t)
    ensures Head(Yield(t) + rest) != NotTok && (Head(Yield(t) + rest) == LParen <==> t.Parens?)
  {
  }

  lemma LeafAccepted(t: Tree, rest: Tokens)
    requires IsPrimary(t) && !t.Parens?
    ensures ParseOperand(Yield(t) + rest) == Success(Parsed(Meaning(t), rest))
  {
    hide Tail, Head;
    var ts := Yield(t) + rest;
    Front(ts);
    if t.NullLeaf? && t.negate {
      assert ts == [Ident(t.column), IsTok, NotTok, NullTok] + rest && ts[4..] == rest;
    } else if t.NullLeaf? {
      assert ts == [Ident(t.column), IsTok, NullTok] + rest && ts[3..] == rest;
    } else {
      assert ts == [Ident(t.column), OpTok(t.op), t.literal] + rest && ts[3..] == rest;
    }
  }

  lemma {:induction false} PrimaryAccepted(t: Tree, rest: Tokens)
    requires IsPrimary(t)
    ensures ParsePrimary(Yield(t) + rest) == Success(Parsed(Meaning(t), rest))
    decreases t, 0
  {
    PrimaryHead(t, rest);
    if t.Parens? {
      assert Tail(Yield(t) + rest) == Yield(t.inner) + ([RParen] + rest);
      OrAccepted(t.inner, [RParen] + rest);
      assert Tail([RParen] + rest) == rest;
    } else {
      LeafAccepted(t, rest);
    }
  }

  lemma {:induction false} NotAccepted(t: Tree, rest: Tokens)
    requires IsNot(t)
    ensures ParseNot(Yield(t) + rest) == Success(Parsed(Meaning(t), rest))
    decreases t, 1
  {
    if t.NotTree? {
      assert Tail(Yield(t) + rest) == Yield(t.child) + rest;
      NotAccepted(t.child, rest);
    } else {
      PrimaryHead(t, rest);
      PrimaryAccepted(t, rest);
    }
  }

  lemma {:induction false} AndAccepted(t: Tree, rest: Tokens)
    requires IsAnd(t)
    ensures ParseAnd(Yield(t) + rest)
         == if Head(rest) == AndTok then AndMore(Conjuncts(t), rest) else Success(Parsed(Meaning(t), rest))
    decreases t, 2
  {
    if t.AndTree? {
      var more := [AndTok] + Yield(t.right) + rest;
      assert Yield(t) + rest == Yield(t.left) + more && Tail(more) == Yield(t.right) + rest;
      AndAccepted(t.left, more);
      NotAccepted(t.right, rest);
    } else {
      NotAccepted(t, rest);
    }
  }

  lemma {:induction false} OrChain(t: Tree, rest: Tokens)
    requires IsOr(t) && Head(rest) != AndTok
    ensures ParseOr(Yield(t) + rest)
         == if Head(rest) == OrTok then OrMore(Disjuncts(t), rest) else Success(Parsed(Meaning(t), rest))
    decreases t, 3
  {
    if t.OrTree? {
      var more := [OrTok] + Yield(t.right) + rest;
      assert Yield(t) + rest == Yield(t.left) + more && Tail(more) == Yield(t.right) + rest;
      OrChain(t.left, more);
      AndAccepted(t.right, rest);
    } else {
      AndAccepted(t, rest);
    }
  }

  /** Every derivation is accepted with its meaning, in front of anything that does not continue it. */
  lemma {:induction false} OrAccepted(t: Tree, rest: Tokens)
    requires IsOr(t) && Head(rest) != AndTok && Head(rest) != OrTok
    ensures ParseOr(Yield(t) + rest) == Success(Parsed(Meaning(t), rest))
    decreases t, 4
  {
    OrChain(t, rest);
  }

  /** The parser accepts a list of tokens as a whole exactly when the grammar derives it. */
  lemma AcceptedIff(ts: Tokens, c: Condition)
    ensures ParseOr(ts) == Success(Parsed(c, [])) <==> exists t :: IsOr(t) && Yield(t) == ts && Meaning(t) == c
  {
    if ParseOr(ts) == Success(Parsed(c, [])) {
      var t := OrDerived(ts);
      assert Yield(t) + [] == Yield(t);
    }
    if t :| IsOr(t) && Yield(t) == ts && Meaning(t) == c {
      OrAccepted(t, []);
      assert Yield(t) + [] == ts;
    }
  }
}
