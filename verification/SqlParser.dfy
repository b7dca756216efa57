/** The parser's WHERE part and the lexer's string literals over state that advances
    (src/sql/parser.cpp:292-312 and 611-736), each proved against its specification. */
module SqlParser {
  import opened Errors
  import opened SqlSyntax

  class Parser {
    const toks: Tokens
    var pos: nat

    ghost predicate Valid()
      reads this
    {
      pos <= |toks|
    }

    ghost function Rest(): Tokens
      requires Valid()
      reads this
    {
      toks[pos..]
    }

    constructor (toks: Tokens)
      ensures Valid() && this.toks == toks && Rest() == toks
    {
      this.toks, pos := toks, 0;
    }

    function Cur(): Token
      requires Valid()
      reads this
    {
      if pos < |toks| then toks[pos] else EofTok
    }

    method Advance()
      requires Valid()
      modifies this
      ensures Valid() && Rest() == Tail(old(Rest()))
      ensures pos == if old(pos) < |toks| then old(pos) + 1 else old(pos)
    {
      if pos < |toks| { pos := pos + 1; }
    }

    /** The method's result and the tokens left are what the specification says. */
    ghost predicate Agrees(r: Result<Condition>, spec: Result<Parsed>)
      reads this
    {
      && Valid()
      && match spec
         case Failure(e) => r == Failure(e)
         case Success(p) => r == Success(p.cond) && Rest() == p.rest
    }

    /** The same for a token-level helper. */
    ghost predicate Took<T>(r: Result<T>, spec: Result<(T, Tokens)>)
      reads this
    {
      && Valid()
      && match spec
         case Failure(e) => r == Failure(e)
         case Success(p) => r == Success(p.0) && Rest() == p.1
    }

    method TakeIdentifier() returns (r: Result<string>)
      requires Valid()
      modifies this
      ensures Took(r, SqlSyntax.TakeIdentifier(old(Rest())))
    {
      if Cur().UnsupportedKeyword? { return Failure(Unsupported); }
      if !Cur().Ident? { return Failure(SqlSyntax); }
      var name := Cur().name;
      if |name| > MAX_IDENTIFIER { return Failure(SqlSyntax); }
      Advance();
      if Cur() == Dot { return Failure(Unsupported); }
      return Success(name);
    }

    method TakeLiteral() returns (r: Result<Value>)
      requires Valid()
      modifies this
      ensures Took(r, SqlSyntax.TakeLiteral(old(Rest())))
    {
      match Cur() {
        case Lit(v) => r := Success(v);
        case NullTok => r := Success(NullValue);
        case UnsupportedKeyword => return Failure(Unsupported);
        case _ => return Failure(SqlSyntax);
      }
      Advance();
    }

    method ParseOperand() returns (r: Result<Condition>)
      requires Valid()
      modifies this
      ensures Agrees(r, SqlSyntax.ParseOperand(old(Rest())))
    {
      hide SqlSyntax.TakeIdentifier, SqlSyntax.TakeLiteral;
      var column := TakeIdentifier();
      if column.Failure? { return Failure(column.error); }
      if Cur() == LParen { return Failure(Unsupported); }
      if Cur() == IsTok {
        Advance();
        var negate := false;
        if Cur() == NotTok {
          negate := true;
          Advance();
        }
        if Cur() != NullTok { return Failure(SqlSyntax); }
        Advance();
        return Success(if negate then IsNotNull(column.value) else IsNull(column.value));
      }
      if Cur().UnsupportedKeyword? { return Failure(Unsupported); }
      if !Cur().OpTok? { return Failure(SqlSyntax); }
      var op := Cur().op;
      Advance();
      var value := TakeLiteral();
      if value.Failure? { return Failure(value.error); }
      return Success(Compare(column.value, op, value.value));
    }

    method ParsePrimary() returns (r: Result<Condition>)
      requires Valid()
      modifies this
      ensures Agrees(r, SqlSyntax.ParsePrimary(old(Rest())))
      decreases |toks| - pos, 0
    {
      if Cur() == LParen {
        Advance();
        r := ParseOr();
        if r.Failure? { return; }
        if Cur() != RParen { return Failure(SqlSyntax); }
        Advance();
        return;
      }
      r := ParseOperand();
    }

    method ParseNot() returns (r: Result<Condition>)
      requires Valid()
      modifies this
      ensures Agrees(r, SqlSyntax.ParseNot(old(Rest())))
      decreases |toks| - pos, 1
    {
      if Cur() == NotTok {
        Advance();
        r := ParseNot();
        if r.Success? { r := Success(NotOf(r.value)); }
        return;
      }
      r := ParsePrimary();
    }

    method ParseAnd() returns (r: Result<Condition>)
      requires Valid()
      modifies this
      ensures Agrees(r, SqlSyntax.ParseAnd(old(Rest())))
      decreases |toks| - pos, 2
    {
      hide SqlSyntax.ParseNot;
      r := ParseNot();
      if r.Failure? || Cur() != AndTok { return; }
      var children := [r.value];
      while Cur() == AndTok
        invariant Valid() && pos >= old(pos)
        invariant AndMore(children, Rest()) == SqlSyntax.ParseAnd(old(Rest()))
        decreases |toks| - pos
      {
        Advance();
        ghost var at := Rest();
        r := ParseNot();
        if r.Failure? { return; }
        assert |Rest()| < |at|;
        children := children + [r.value];
      }
      r := Success(AndOf(children));
    }

    method ParseOr() returns (r: Result<Condition>)
      requires Valid()
      modifies this
      ensures Agrees(r, SqlSyntax.ParseOr(old(Rest())))
      decreases |toks| - pos, 3
    {
      hide SqlSyntax.ParseAnd;
      r := ParseAnd();
      if r.Failure? || Cur() != OrTok { return; }
      var children := [r.value];
      while Cur() == OrTok
        invariant Valid() && pos >= old(pos)
        invariant OrMore(children, Rest()) == SqlSyntax.ParseOr(old(Rest()))
        decreases |toks| - pos
      {
        Advance();
        ghost var at := Rest();
        r := ParseAnd();
        if r.Failure? { return; }
        assert |Rest()| < |at|;
        children := children + [r.value];
      }
      r := Success(OrOf(children));
    }
  }

  // ---- string literals ----

  const QUOTE := '\''

  /** The literal's text, every quote written twice. */
  function Doubled(s: string): string {
    if s == "" then "" else (if s[0] == QUOTE then [QUOTE, QUOTE] else [s[0]]) + Doubled(s[1..])
  }

  /** What follows the opening quote: the text up to the closing quote, and what comes after it. */
  function LexBody(cs: string, acc: string): Option<(string, string)>
    decreases |cs|
  {
    if cs == "" then None
    else if cs[0] == QUOTE then
      if |cs| > 1 && cs[1] == QUOTE then LexBody(cs[2..], acc + [QUOTE]) else Some((acc, cs[1..]))
    else LexBody(cs[1..], acc + [cs[0]])
  }

  lemma {:induction false} LexGrows(cs: string, acc: string)
    requires LexBody(cs, acc).Some?
    ensures acc <= LexBody(cs, acc).value.0
    decreases |cs|
  {
    if cs[0] == QUOTE {
      if |cs| > 1 && cs[1] == QUOTE {
        LexGrows(cs[2..], acc + [QUOTE]);
      }
    } else {
      LexGrows(cs[1..], acc + [cs[0]]);
    }
  }

  /** A quoted text is read back exactly, and exactly its characters are consumed, if and only if no
      further quote follows it. */
  lemma {:induction false} QuoteRoundTrip(s: string, acc: string, rest: string)
    ensures LexBody(Doubled(s) + [QUOTE] + rest, acc) == Some((acc + s, rest)) <==> (rest == "" || rest[0] != QUOTE)
  {
    var cs := Doubled(s) + [QUOTE] + rest;
    if s == "" {
      assert cs == [QUOTE] + rest && acc + s == acc;
      assert cs[1..] == rest;
      if rest != "" && rest[0] == QUOTE && LexBody(cs, acc).Some? {
        LexGrows(cs[2..], acc + [QUOTE]);
      }
    } else {
      QuoteRoundTrip(s[1..], acc + [s[0]], rest);
      assert acc + [s[0]] + s[1..] == acc + s;
      if s[0] == QUOTE {
        assert cs[2..] == Doubled(s[1..]) + [QUOTE] + rest;
      } else {
        assert cs[1..] == Doubled(s[1..]) + [QUOTE] + rest;
      }
    }
  }

  class Lexer {
    const s: string
    var i: nat

    constructor (s: string)
      ensures this.s == s && i == 0
    {
      this.s, i := s, 0;
    }

    /** Reads a string literal whose opening quote is at the current character. */
    method LexString() returns (r: Result<string>)
      requires i < |s| && s[i] == QUOTE
      modifies this
      ensures i <= |s|
      ensures match LexBody(s[old(i) + 1..], "")
              case None => r == Failure(SqlSyntax)
              case Some(p) => r == Success(p.0) && s[i..] == p.1
    {
      i := i + 1;
      var text := "";
      while i < |s|
        invariant i <= |s| && LexBody(s[i..], text) == LexBody(s[old(i) + 1..], "")
        decreases |s| - i
      {
        var c := s[i];
        ghost var was := s[i..];
        i := i + 1;
        assert was[1..] == s[i..];
        if c == QUOTE {
          if i < |s| && s[i] == QUOTE {
            text := text + [QUOTE];
            i := i + 1;
            assert was[2..] == s[i..];
            continue;
          }
          return Success(text);
        }
        text := text + [c];
      }
      return Failure(SqlSyntax);
    }
  }
}
