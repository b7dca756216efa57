/** Parsing undoes printing. */
module SqlRoundTrip {
  import opened Errors
  import opened SqlSyntax

  /** Not a connective: what may follow a complete condition. */
  predicate Ends(rest: Tokens) {
    Head(rest) != AndTok && Head(rest) != OrTok
  }

  lemma NameParses(name: string, ts: Tokens)
    requires |name| <= MAX_IDENTIFIER && ts != [] && ts[0] != Dot
    ensures TakeIdentifier([Ident(name)] + ts) == Success((name, ts))
  {
    assert Tail([Ident(name)] + ts) == ts;
  }

  lemma CompareParses(name: string, op: CompareOp, v: Value, rest: Tokens)
    requires |name| <= MAX_IDENTIFIER
    ensures ParseOperand([Ident(name), OpTok(op), LiteralToken(v)] + rest)
      == Success(Parsed(Compare(name, op, v), rest))
  {
    hide TakeIdentifier;
    var t3 := [LiteralToken(v)] + rest;
    var t2 := [OpTok(op)] + t3;
    assert [Ident(name), OpTok(op), LiteralToken(v)] + rest == [Ident(name)] + t2;
    NameParses(name, t2);
    assert Tail(t2) == t3 && Tail(t3) == rest;
  }

  lemma NullTestParses(name: string, negate: bool, rest: Tokens)
    requires |name| <= MAX_IDENTIFIER
    ensures ParseOperand((if negate then [Ident(name), IsTok, NotTok, NullTok] else [Ident(name), IsTok, NullTok])
                         + rest)
         == Success(Parsed(if negate then IsNotNull(name) else IsNull(name), rest))
  {
    hide TakeIdentifier;
    var t4 := [NullTok] + rest;
    var t3 := if negate then [NotTok] + t4 else t4;
    var t2 := [IsTok] + t3;
    assert (if negate then [Ident(name), IsTok, NotTok, NullTok] else [Ident(name), IsTok, NullTok]) + rest
      == [Ident(name)] + t2;
    NameParses(name, t2);
    assert Tail(t2) == t3 && (negate ==> Tail(t3) == t4) && Tail(t4) == rest;
  }

  lemma AtomParses(c: Condition, rest: Tokens)
    requires WellFormed(c) && !Composite(c)
    ensures ParseOperand(Print(c) + rest) == Success(Parsed(c, rest))
    ensures Head(Print(c) + rest).Ident?
  {
    hide ParseOperand;
    match c
    case Compare(name, op, v) => CompareParses(name, op, v, rest);
    case IsNull(name) => NullTestParses(name, false, rest);
    case IsNotNull(name) => NullTestParses(name, true, rest);
  }

  /** An operand of a connective, as printed, is one primary. */
  lemma {:induction false} ChildParses(c: Condition, rest: Tokens)
    requires WellFormed(c)
    ensures ParsePrimary(PrintChild(c) + rest) == Success(Parsed(c, rest))
    ensures ParseNot(PrintChild(c) + rest) == Success(Parsed(c, rest))
    decreases c, 4
  {
    var ts := PrintChild(c) + rest;
    if Composite(c) {
      PrintParses(c, [RParen] + rest);
      assert ts == [LParen] + (Print(c) + ([RParen] + rest));
      assert Tail(ts) == Print(c) + ([RParen] + rest);
      assert Tail([RParen] + rest) == rest;
    } else {
      AtomParses(c, rest);
    }
  }

  lemma AndStep(acc: seq<Condition>, c: Condition, ts: Tokens, after: Tokens)
    requires ParseNot(ts) == Success(Parsed(c, after)) && |after| < |ts|
    ensures AndMore(acc, [AndTok] + ts) == AndMore(acc + [c], after)
  {
    hide ParseNot;
    assert Tail([AndTok] + ts) == ts;
  }

  lemma OrStep(acc: seq<Condition>, c: Condition, ts: Tokens, after: Tokens)
    requires ParseAnd(ts) == Success(Parsed(c, after)) && |after| < |ts|
    ensures OrMore(acc, [OrTok] + ts) == OrMore(acc + [c], after)
  {
    hide ParseAnd;
    assert Tail([OrTok] + ts) == ts;
  }

  /** A lone operand is a conjunction of one: itself. */
  lemma AndOfOne(ts: Tokens, c: Condition, after: Tokens)
    requires ParseNot(ts) == Success(Parsed(c, after)) && Head(after) != AndTok
    ensures ParseAnd(ts) == Success(Parsed(c, after))
  {
    hide ParseNot;
  }

  lemma OrOfOne(ts: Tokens, c: Condition, after: Tokens)
    requires ParseNot(ts) == Success(Parsed(c, after)) && Ends(after)
    ensures ParseOr(ts) == Success(Parsed(c, after))
  {
    hide ParseNot;
    AndOfOne(ts, c, after);
  }

  lemma {:induction false} AndLoop(parent: Condition, acc: seq<Condition>, cs: seq<Condition>, rest: Tokens)
    requires cs != [] && (forall i :: 0 <= i < |cs| ==> cs[i] < parent && WellFormed(cs[i]))
    requires Head(rest) != AndTok
    ensures AndMore(acc, [AndTok] + Joined(parent, cs, AndTok) + rest) == Success(Parsed(AndOf(acc + cs), rest))
    decreases parent, 1, |cs|
  {
    hide ParseNot, PrintChild, ParsePrimary, WellFormed;
    var after := if |cs| == 1 then rest else [AndTok] + Joined(parent, cs[1..], AndTok) + rest;
    var ts := PrintChild(cs[0]) + after;
    assert [AndTok] + Joined(parent, cs, AndTok) + rest == [AndTok] + ts;
    ChildParses(cs[0], after);
    AndStep(acc, cs[0], ts, after);
    if |cs| == 1 {
      assert cs == [cs[0]];
    } else {
      AndLoop(parent, acc + [cs[0]], cs[1..], rest);
      assert acc + [cs[0]] + cs[1..] == acc + cs;
    }
  }

  lemma {:induction false} OrLoop(parent: Condition, acc: seq<Condition>, cs: seq<Condition>, rest: Tokens)
    requires cs != [] && (forall i :: 0 <= i < |cs| ==> cs[i] < parent && WellFormed(cs[i]))
    requires Ends(rest)
    ensures OrMore(acc, [OrTok] + Joined(parent, cs, OrTok) + rest) == Success(Parsed(OrOf(acc + cs), rest))
    decreases parent, 1, |cs|
  {
    hide ParseAnd, ParseNot, PrintChild, ParsePrimary, WellFormed;
    var after := if |cs| == 1 then rest else [OrTok] + Joined(parent, cs[1..], OrTok) + rest;
    var ts := PrintChild(cs[0]) + after;
    assert [OrTok] + Joined(parent, cs, OrTok) + rest == [OrTok] + ts;
    ChildParses(cs[0], after);
    assert |cs| > 1 ==> after[0] == OrTok;
    AndOfOne(ts, cs[0], after);
    OrStep(acc, cs[0], ts, after);
    if |cs| == 1 {
      assert cs == [cs[0]];
    } else {
      OrLoop(parent, acc + [cs[0]], cs[1..], rest);
      assert acc + [cs[0]] + cs[1..] == acc + cs;
    }
  }

  /** Parsing the printed condition gives it back and consumes exactly its tokens. */
  lemma {:induction false} PrintParses(c: Condition, rest: Tokens)
    requires WellFormed(c) && Ends(rest)
    ensures ParseOr(Print(c) + rest) == Success(Parsed(c, rest))
    decreases c, 3
  {
    match c
    case AndOf(cs) => AndParses(c, rest);
    case OrOf(cs) => OrParses(c, rest);
    case NotOf(d) => NotParses(c, rest);
    case _ =>
      AtomParses(c, rest);
      OrOfOne(Print(c) + rest, c, rest);
  }

  lemma {:induction false} NotParses(c: Condition, rest: Tokens)
    requires WellFormed(c) && c.NotOf? && Ends(rest)
    ensures ParseOr(Print(c) + rest) == Success(Parsed(c, rest))
    decreases c, 2
  {
    hide ParsePrimary, PrintChild, ParseOr, ParseAnd;
    assert Print(c) + rest == [NotTok] + (PrintChild(c.child) + rest);
    assert Tail(Print(c) + rest) == PrintChild(c.child) + rest;
    ChildParses(c.child, rest);
    OrOfOne(Print(c) + rest, c, rest);
  }

  lemma {:induction false} AndParses(c: Condition, rest: Tokens)
    requires WellFormed(c) && c.AndOf? && Ends(rest)
    ensures ParseOr(Print(c) + rest) == Success(Parsed(c, rest))
    decreases c, 2
  {
    hide ParsePrimary, PrintChild, ParseNot, AndMore, OrMore;
    var cs := c.children;
    var after := [AndTok] + Joined(c, cs[1..], AndTok) + rest;
    assert Print(c) + rest == PrintChild(cs[0]) + after;
    ChildParses(cs[0], after);
    AndLoop(c, [cs[0]], cs[1..], rest);
    assert [cs[0]] + cs[1..] == cs;
    assert ParseAnd(PrintChild(cs[0]) + after) == Success(Parsed(c, rest));
  }

  lemma {:induction false} OrParses(c: Condition, rest: Tokens)
    requires WellFormed(c) && c.OrOf? && Ends(rest)
    ensures ParseOr(Print(c) + rest) == Success(Parsed(c, rest))
    decreases c, 2
  {
    hide ParsePrimary, PrintChild, ParseNot, ParseAnd, AndMore, OrMore;
    var cs := c.children;
    var after := [OrTok] + Joined(c, cs[1..], OrTok) + rest;
    assert Print(c) + rest == PrintChild(cs[0]) + after;
    ChildParses(cs[0], after);
    assert after[0] == OrTok;
    AndOfOne(PrintChild(cs[0]) + after, cs[0], after);
    OrLoop(c, [cs[0]], cs[1..], rest);
    assert [cs[0]] + cs[1..] == cs;
  }

  // ---- what the parser builds ----

  predicate AllWellFormed(cs: seq<Condition>) {
    forall i :: 0 <= i < |cs| ==> WellFormed(cs[i])
  }

  lemma {:induction false} PrimaryBuilds(ts: Tokens)
    requires ParsePrimary(ts).Success?
    ensures WellFormed(ParsePrimary(ts).value.cond)
    decreases |ts|, 0
  {
    if Head(ts) == LParen {
      OrBuilds(Tail(ts));
    }
  }

  lemma {:induction false} NotBuilds(ts: Tokens)
    requires ParseNot(ts).Success?
    ensures WellFormed(ParseNot(ts).value.cond)
    decreases |ts|, 1
  {
    if Head(ts) == NotTok {
      NotBuilds(Tail(ts));
    } else {
      PrimaryBuilds(ts);
    }
  }

  lemma {:induction false} AndBuilds(ts: Tokens)
    requires ParseAnd(ts).Success?
    ensures WellFormed(ParseAnd(ts).value.cond)
    decreases |ts|, 3
  {
    NotBuilds(ts);
    var left := ParseNot(ts).value;
    if Head(left.rest) == AndTok {
      AndMoreBuilds([left.cond], left.rest);
    }
  }

  lemma {:induction false} AndMoreBuilds(acc: seq<Condition>, ts: Tokens)
    requires AndMore(acc, ts).Success? && AllWellFormed(acc) && |acc| >= 1 && (|acc| == 1 ==> Head(ts) == AndTok)
    ensures WellFormed(AndMore(acc, ts).value.cond)
    decreases |ts|, 2
  {
    if Head(ts) == AndTok {
      NotBuilds(Tail(ts));
      var right := ParseNot(Tail(ts)).value;
      AndMoreBuilds(acc + [right.cond], right.rest);
    }
  }

  lemma {:induction false} OrBuilds(ts: Tokens)
    requires ParseOr(ts).Success?
    ensures WellFormed(ParseOr(ts).value.cond)
    decreases |ts|, 5
  {
    AndBuilds(ts);
    var left := ParseAnd(ts).value;
    if Head(left.rest) == OrTok {
      OrMoreBuilds([left.cond], left.rest);
    }
  }

  lemma {:induction false} OrMoreBuilds(acc: seq<Condition>, ts: Tokens)
    requires OrMore(acc, ts).Success? && AllWellFormed(acc) && |acc| >= 1 && (|acc| == 1 ==> Head(ts) == OrTok)
    ensures WellFormed(OrMore(acc, ts).value.cond)
    decreases |ts|, 4
  {
    if Head(ts) == OrTok {
      AndBuilds(Tail(ts));
      var right := ParseAnd(Tail(ts)).value;
      OrMoreBuilds(acc + [right.cond], right.rest);
    }
  }

  /** Whatever parses is a tree that survives being printed and parsed again. */
  lemma ReparseStable(ts: Tokens, rest: Tokens)
    requires ParseOr(ts).Success? && Ends(rest)
    ensures ParseOr(Print(ParseOr(ts).value.cond) + rest) == Success(Parsed(ParseOr(ts).value.cond, rest))
  {
    OrBuilds(ts);
    PrintParses(ParseOr(ts).value.cond, rest);
  }

  lemma PairOfAnd(ts: Tokens, y: Condition, z: Condition, us: Tokens, after: Tokens)
    requires ParseNot(ts) == Success(Parsed(y, [AndTok] + us)) && ParseNot(us) == Success(Parsed(z, after))
    requires Ends(after) && |after| < |us|
    ensures ParseAnd(ts) == Success(Parsed(AndOf([y, z]), after))
  {
    hide ParseNot;
    AndStep([y], z, us, after);
    assert [y] + [z] == [y, z];
    assert AndMore([y, z], after) == Success(Parsed(AndOf([y, z]), after));
  }

  lemma PairOfOr(ts: Tokens, x: Condition, y: Condition, us: Tokens, after: Tokens)
    requires ParseAnd(ts) == Success(Parsed(x, [OrTok] + us)) && ParseAnd(us) == Success(Parsed(y, after))
    requires Ends(after) && |after| < |us|
    ensures ParseOr(ts) == Success(Parsed(OrOf([x, y]), after))
  {
    hide ParseAnd;
    OrStep([x], y, us, after);
    assert [x] + [y] == [x, y];
    assert OrMore([x, y], after) == Success(Parsed(OrOf([x, y]), after));
  }

  /** x OR y AND z is x OR (y AND z). */
  lemma AndBindsTighter(x: Condition, y: Condition, z: Condition, rest: Tokens)
    requires WellFormed(x) && WellFormed(y) && WellFormed(z) && Ends(rest)
    ensures var ts := PrintChild(x) + ([OrTok] + (PrintChild(y) + ([AndTok] + (PrintChild(z) + rest))));
      ParseOr(ts) == Success(Parsed(OrOf([x, AndOf([y, z])]), rest))
  {
    hide ParseNot, ParseAnd, ParseOr, PrintChild;
    var t3 := PrintChild(z) + rest;
    var t2 := PrintChild(y) + ([AndTok] + t3);
    var t1 := PrintChild(x) + ([OrTok] + t2);
    ChildParses(z, rest);
    ChildParses(y, [AndTok] + t3);
    ChildParses(x, [OrTok] + t2);
    ChildNonEmpty(z);
    ChildNonEmpty(y);
    PairOfAnd(t2, y, z, t3, rest);
    assert Head([OrTok] + t2) == OrTok;
    AndOfOne(t1, x, [OrTok] + t2);
    PairOfOr(t1, x, AndOf([y, z]), t2, rest);
  }

  lemma ChildNonEmpty(c: Condition)
    requires WellFormed(c)
    ensures |PrintChild(c)| > 0
  {
    if !Composite(c) { assert |Print(c)| >= 3; }
  }

  /** The parser stops only where no connective follows: the longest condition is taken. */
  lemma {:induction false} StopsAtEnd(ts: Tokens)
    requires ParseOr(ts).Success?
    ensures Ends(ParseOr(ts).value.rest)
  {
    var left := ParseAnd(ts).value;
    AndStops(ts);
    if Head(left.rest) == OrTok {
      OrMoreStops([left.cond], left.rest);
    }
  }

  lemma {:induction false} OrMoreStops(acc: seq<Condition>, ts: Tokens)
    requires OrMore(acc, ts).Success? && Head(ts) != AndTok
    ensures Ends(OrMore(acc, ts).value.rest)
    decreases |ts|
  {
    if Head(ts) == OrTok {
      var right := ParseAnd(Tail(ts)).value;
      AndStops(Tail(ts));
      OrMoreStops(acc + [right.cond], right.rest);
    }
  }

  lemma {:induction false} AndStops(ts: Tokens)
    requires ParseAnd(ts).Success?
    ensures Head(ParseAnd(ts).value.rest) != AndTok
  {
    var left := ParseNot(ts).value;
    if Head(left.rest) == AndTok {
      AndMoreStops([left.cond], left.rest);
    }
  }

  lemma {:induction false} AndMoreStops(acc: seq<Condition>, ts: Tokens)
    requires AndMore(acc, ts).Success?
    ensures Head(AndMore(acc, ts).value.rest) != AndTok
    decreases |ts|
  {
    if Head(ts) == AndTok {
      var right := ParseNot(Tail(ts)).value;
      AndMoreStops(acc + [right.cond], right.rest);
    }
  }
}
