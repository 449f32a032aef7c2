/** The simple contract syntax of `contractparser.cpp`, `(T1, T2) -> R` with plain
    identifiers as types: `ContractLexer` turns the text into tokens on demand,
    `ContractParser` holds the current token and reads the contract by recursive
    descent. Every `runtime_error` becomes a `Failed` or `Failure` with the
    message the C++ builds. */
module ContractParsing {
  import opened Strings
  import TG = TypeGrammar
  import opened Wrappers

  datatype TokenKind = LParen | RParen | Arrow | Comma | Identifier | EndOfFile

  /** `ContractToken`: its kind and the text it was read from. */
  datatype Token = Token(kind: TokenKind, text: string)

  /** The outcome of `nextToken`: a token and the position after it, or the
      character it refused. */
  datatype Lexed = Lexed(token: Token, next: nat) | Unexpected(c: char)

  /** `Type` of `contractparser.h`: only a name. */
  datatype Type = Type(name: string)

  /** `Contract`: the argument types in order and the return type. */
  datatype Contract = Contract(argumentTypes: seq<Type>, returnType: Type)

  /** The outcome of a parsing step: its value, the new current token and the
      lexer position, or the message of the error it threw. */
  datatype Parsed<T> = Ok(value: T, current: Token, next: nat) | Failed(message: string)

  /** The outcome of a whole parse, or of a method of the parser. */
  datatype Outcome<T> = Success(value: T) | Failure(message: string)

  function UnexpectedMessage(c: char): string {
    "Unexpected character: " + [c]
  }

  function MismatchMessage(t: Token): string {
    "expected token type does not match, got: " + t.text
  }

  function TypeNameMessage(t: Token): string {
    "expected type name, got: " + t.text
  }

  /** A letter followed by letters, digits and underscores. */
  predicate IsIdentifier(n: string) {
    |n| > 0 && IsAlpha(n[0]) && forall k :: 0 <= k < |n| ==> IsIdentChar(n[k])
  }

  // ---------------------------------------------------------------------------
  // The lexer as a function of the input and the position
  // ---------------------------------------------------------------------------

  /** `nextToken` at position `p`: white space is skipped, then one token is read.
      A token other than end of input is never empty. */
  function Lex(s: string, p: nat): (r: Lexed)
    requires p <= |s|
    ensures r.Lexed? ==> p <= r.next <= |s|
    ensures r.Lexed? && r.token.kind != EndOfFile ==> p < r.next
  {
    var q := TG.SkipWs(s, p);
    if q == |s| then Lexed(Token(EndOfFile, ""), q)
    else if s[q] == '(' then Lexed(Token(LParen, "("), q + 1)
    else if s[q] == ')' then Lexed(Token(RParen, ")"), q + 1)
    else if s[q] == ',' then Lexed(Token(Comma, ","), q + 1)
    else if s[q] == '-' && q + 1 < |s| && s[q + 1] == '>' then Lexed(Token(Arrow, "->"), q + 2)
    else if IsAlpha(s[q]) then
      var e := TG.IdentEnd(s, q);
      Lexed(Token(Identifier, s[q..e]), e)
    else Unexpected(s[q])
  }

  // ---------------------------------------------------------------------------
  // The parser as functions of the input, the current token and the position
  // ---------------------------------------------------------------------------

  /** `parseType`: the current token must be an identifier; it becomes the type
      and the next token is read. */
  function ParseTypeAt(s: string, cur: Token, p: nat): (r: Parsed<Type>)
    requires p <= |s|
    ensures r.Ok? ==> cur.kind == Identifier && r.value == Type(cur.text) && p <= r.next <= |s|
  {
    if cur.kind != Identifier then Failed(TypeNameMessage(cur))
    else match Lex(s, p)
      case Unexpected(c) => Failed(UnexpectedMessage(c))
      case Lexed(tok, q) => Ok(Type(cur.text), tok, q)
  }

  /** The `while` loop of `parseTypeList`: as long as the current token is a comma,
      read past it and parse one more type. */
  function TypeListLoop(s: string, types: seq<Type>, cur: Token, p: nat): (r: Parsed<seq<Type>>)
    requires p <= |s|
    ensures r.Ok? ==>
              r.current.kind != Comma && p <= r.next <= |s| && |types| <= |r.value| && r.value[..|types|] == types
    decreases |s| - p
  {
    if cur.kind != Comma then Ok(types, cur, p)
    else match Lex(s, p)
      case Unexpected(c) => Failed(UnexpectedMessage(c))
      case Lexed(tok, q) =>
        match ParseTypeAt(s, tok, q)
        case Failed(m) => Failed(m)
        case Ok(t, after, q') => TypeListLoop(s, types + [t], after, q')
  }

  /** `parseTypeList`: one type, then the loop. */
  function TypeListAt(s: string, cur: Token, p: nat): (r: Parsed<seq<Type>>)
    requires p <= |s|
    ensures r.Ok? ==>
              |r.value| >= 1 && r.value[0] == Type(cur.text) && r.current.kind != Comma && p <= r.next <= |s|
  {
    match ParseTypeAt(s, cur, p)
    case Failed(m) => Failed(m)
    case Ok(t, after, q) => TypeListLoop(s, [t], after, q)
  }

  /** `parseContract`: `(`, the type list, `)`, `->` and the return type; each
      `expect` is followed by an `advance`. */
  function ParseContractAt(s: string, cur: Token, p: nat): (r: Parsed<Contract>)
    requires p <= |s|
    ensures r.Ok? ==> cur.kind == LParen && |r.value.argumentTypes| >= 1 && p < r.next <= |s|
  {
    if cur.kind != LParen then Failed(MismatchMessage(cur))
    else match Lex(s, p)
      case Unexpected(c) => Failed(UnexpectedMessage(c))
      case Lexed(first, p1) =>
        match TypeListAt(s, first, p1)
        case Failed(m) => Failed(m)
        case Ok(args, close, p2) =>
          if close.kind != RParen then Failed(MismatchMessage(close))
          else match Lex(s, p2)
            case Unexpected(c) => Failed(UnexpectedMessage(c))
            case Lexed(arrow, p3) =>
              if arrow.kind != Arrow then Failed(MismatchMessage(arrow))
              else match Lex(s, p3)
                case Unexpected(c) => Failed(UnexpectedMessage(c))
                case Lexed(ret, p4) =>
                  match ParseTypeAt(s, ret, p4)
                  case Failed(m) => Failed(m)
                  case Ok(rt, after, p5) => Ok(Contract(args, rt), after, p5)
  }

  /** Constructing the parser on a fresh lexer reads the first token; then
      `parseContract` runs. */
  function ParseContractText(s: string): Outcome<Contract> {
    match Lex(s, 0)
    case Unexpected(c) => Failure(UnexpectedMessage(c))
    case Lexed(first, p) =>
      match ParseContractAt(s, first, p)
      case Failed(m) => Failure(m)
      case Ok(c, _, _) => Success(c)
  }

  // ---------------------------------------------------------------------------
  // The classes
  // ---------------------------------------------------------------------------

  class ContractLexer {
    const input: string
    var pos: nat

    ghost predicate Valid()
      reads this
    {
      pos <= |input|
    }

    /** `ContractLexer(input)`: the position starts at 0. */
    constructor (input: string)
      ensures this.input == input && pos == 0 && Valid()
    {
      this.input := input;
      pos := 0;
    }

    /** `skipWhitespace`. */
    method SkipWhitespace()
      requires Valid()
      modifies this`pos
      ensures Valid() && pos == TG.SkipWs(input, old(pos))
    {
      while pos < |input| && IsSpace(input[pos])
        invariant old(pos) <= pos <= |input|
        invariant TG.SkipWs(input, pos) == TG.SkipWs(input, old(pos))
        decreases |input| - pos
      {
        pos := pos + 1;
      }
    }

    /** `peek`: the character after the current one, or NUL past the end. */
    method Peek() returns (c: char)
      requires Valid()
      ensures pos + 1 < |input| ==> c == input[pos + 1]
      ensures pos + 1 >= |input| ==> c == '\0'
    {
      c := if pos + 1 < |input| then input[pos + 1] else '\0';
    }

    /** `nextToken`. After an error the position has only moved over the white
        space. */
    method NextToken() returns (r: Lexed)
      requires Valid()
      modifies this`pos
      ensures Valid() && r == Lex(input, old(pos))
      ensures r.Lexed? ==> pos == r.next
      ensures r.Unexpected? ==> pos == TG.SkipWs(input, old(pos))
    {
      SkipWhitespace();
      if pos >= |input| {
        return Lexed(Token(EndOfFile, ""), pos);
      }
      var c := input[pos];
      if c == '(' {
        pos := pos + 1;
        return Lexed(Token(LParen, "("), pos);
      }
      if c == ')' {
        pos := pos + 1;
        return Lexed(Token(RParen, ")"), pos);
      }
      if c == ',' {
        pos := pos + 1;
        return Lexed(Token(Comma, ","), pos);
      }
      var after := Peek();
      if c == '-' && after == '>' {
        pos := pos + 2;
        return Lexed(Token(Arrow, "->"), pos);
      }
      if IsAlpha(c) {
        var start := pos;
        var ident := "";
        while pos < |input| && IsIdentChar(input[pos])
          invariant start <= pos <= |input|
          invariant ident == input[start..pos]
          invariant TG.IdentEnd(input, pos) == TG.IdentEnd(input, start)
          decreases |input| - pos
        {
          assert input[start..pos + 1] == input[start..pos] + [input[pos]];
          ident := ident + [input[pos]];
          pos := pos + 1;
        }
        return Lexed(Token(Identifier, ident), pos);
      }
      return Unexpected(c);
    }
  }

  /** A method's outcome and the parser's new state agree with a parsing step. */
  predicate Agrees<T(==)>(r: Outcome<T>, spec: Parsed<T>, current: Token, pos: nat) {
    match spec
    case Ok(v, cur, next) => r == Success(v) && current == cur && pos == next
    case Failed(m) => r == Failure(m)
  }

  class ContractParser {
    const lexer: ContractLexer
    var current: Token

    ghost predicate Valid()
      reads this, lexer
    {
      lexer.Valid()
    }

    /** The parser over `lexer` once its first token has been read. */
    constructor WithToken(lexer: ContractLexer, first: Token)
      ensures this.lexer == lexer && current == first
    {
      this.lexer := lexer;
      current := first;
    }

    /** `ContractParser(lexer)`: reads the first token, so a lexing error
        surfaces here, before any parsing. */
    static method Create(lexer: ContractLexer) returns (r: Outcome<ContractParser>)
      requires lexer.Valid()
      modifies lexer`pos
      ensures lexer.Valid()
      ensures Lex(lexer.input, old(lexer.pos)).Unexpected? ==>
        r == Failure(UnexpectedMessage(Lex(lexer.input, old(lexer.pos)).c))
      ensures Lex(lexer.input, old(lexer.pos)).Lexed? ==>
        r.Success? && fresh(r.value) && r.value.lexer == lexer
        && r.value.current == Lex(lexer.input, old(lexer.pos)).token
        && lexer.pos == Lex(lexer.input, old(lexer.pos)).next
    {
      var first := lexer.NextToken();
      if first.Unexpected? {
        return Failure(UnexpectedMessage(first.c));
      }
      var parser := new ContractParser.WithToken(lexer, first.token);
      return Success(parser);
    }

    /** `advance`: the next token becomes the current one. */
    method Advance() returns (r: Outcome<Token>)
      requires Valid()
      modifies this`current, lexer`pos
      ensures Valid()
      ensures Agrees(r, match Lex(lexer.input, old(lexer.pos))
                          case Lexed(t, q) => Ok(t, t, q)
                          case Unexpected(c) => Failed(UnexpectedMessage(c)),
                     current, lexer.pos)
    {
      var next := lexer.NextToken();
      if next.Unexpected? {
        return Failure(UnexpectedMessage(next.c));
      }
      current := next.token;
      return Success(next.token);
    }

    /** `expect`: checks the kind of the current token and consumes nothing. */
    method Expect(kind: TokenKind) returns (r: Outcome<()>)
      ensures r.Success? <==> current.kind == kind
      ensures r.Failure? ==> r.message == MismatchMessage(current)
    {
      if current.kind != kind {
        return Failure(MismatchMessage(current));
      }
      return Success(());
    }

    /** `parseType`. */
    method ParseType() returns (r: Outcome<Type>)
      requires Valid()
      modifies this`current, lexer`pos
      ensures Valid()
      ensures Agrees(r, ParseTypeAt(lexer.input, old(current), old(lexer.pos)), current, lexer.pos)
    {
      if current.kind != Identifier {
        return Failure(TypeNameMessage(current));
      }
      var t := Type(current.text);
      var moved := Advance();
      if moved.Failure? {
        return Failure(moved.message);
      }
      return Success(t);
    }

    /** `parseTypeList`. */
    method ParseTypeList() returns (r: Outcome<seq<Type>>)
      requires Valid()
      modifies this`current, lexer`pos
      ensures Valid()
      ensures Agrees(r, TypeListAt(lexer.input, old(current), old(lexer.pos)), current, lexer.pos)
    {
      var first := ParseType();
      if first.Failure? {
        return Failure(first.message);
      }
      var types := [first.value];
      while current.kind == Comma
        invariant Valid()
        invariant TypeListLoop(lexer.input, types, current, lexer.pos)
               == TypeListAt(lexer.input, old(current), old(lexer.pos))
        decreases |lexer.input| - lexer.pos
      {
        var moved := Advance();
        if moved.Failure? {
          return Failure(moved.message);
        }
        var t := ParseType();
        if t.Failure? {
          return Failure(t.message);
        }
        types := types + [t.value];
      }
      return Success(types);
    }

    /** `parseContract`. */
    method ParseContract() returns (r: Outcome<Contract>)
      requires Valid()
      modifies this`current, lexer`pos
      ensures Valid()
      ensures Agrees(r, ParseContractAt(lexer.input, old(current), old(lexer.pos)), current, lexer.pos)
    {
      var e := Expect(LParen);
      if e.Failure? {
        return Failure(e.message);
      }
      var moved := Advance();
      if moved.Failure? {
        return Failure(moved.message);
      }
      var args := ParseTypeList();
      if args.Failure? {
        return Failure(args.message);
      }
      e := Expect(RParen);
      if e.Failure? {
        return Failure(e.message);
      }
      moved := Advance();
      if moved.Failure? {
        return Failure(moved.message);
      }
      e := Expect(Arrow);
      if e.Failure? {
        return Failure(e.message);
      }
      moved := Advance();
      if moved.Failure? {
        return Failure(moved.message);
      }
      var ret := ParseType();
      if ret.Failure? {
        return Failure(ret.message);
      }
      return Success(Contract(args.value, ret.value));
    }
  }

  // ---------------------------------------------------------------------------
  // What the lexer reads
  // ---------------------------------------------------------------------------

  /** At the end of the input, after white space, `nextToken` answers end of
      input with empty text, and asking again from there answers the same. */
  lemma EndOfFileIsStable(s: string, p: nat)
    requires p <= |s|
    ensures (Lex(s, p).Lexed? && Lex(s, p).token.kind == EndOfFile) <==> TG.SkipWs(s, p) == |s|
    ensures TG.SkipWs(s, p) == |s| ==>
              Lex(s, p) == Lexed(Token(EndOfFile, ""), |s|) && Lex(s, |s|) == Lex(s, p)
  {
  }

  /** What a token is made of: only white space precedes it; `(`, `)` and `,`
      are one character and `->` two; an identifier is a letter followed by the
      maximal run of letters, digits and underscores. */
  lemma LexedToken(s: string, p: nat)
    requires p <= |s| && Lex(s, p).Lexed?
    ensures forall k :: p <= k < TG.SkipWs(s, p) ==> IsSpace(s[k])
    ensures var q := TG.SkipWs(s, p); var r := Lex(s, p);
      (r.token.kind == LParen ==> q < |s| && s[q] == '(' && r.next == q + 1)
      && (r.token.kind == RParen ==> q < |s| && s[q] == ')' && r.next == q + 1)
      && (r.token.kind == Comma ==> q < |s| && s[q] == ',' && r.next == q + 1)
      && (r.token.kind == Arrow ==> q + 2 <= |s| && s[q..q + 2] == "->" && r.next == q + 2)
      && (r.token.kind == Identifier ==>
            q < r.next && r.token.text == s[q..r.next] && IsIdentifier(r.token.text)
            && (r.next == |s| || !IsIdentChar(s[r.next])))
      && (r.token.kind == EndOfFile ==> q == |s| && r.token.text == "")
  {
    TG.SkipWsSpec(s, p);
    var q := TG.SkipWs(s, p);
    if q < |s| {
      TG.IdentEndSpec(s, q);
      var r := Lex(s, p);
      if r.token.kind == Identifier {
        var e := TG.IdentEnd(s, q);
        assert r.token.text == s[q..e];
        assert forall k :: 0 <= k < e - q ==> s[q..e][k] == s[q + k];
      }
    }
  }

  /** `nextToken` refuses exactly the characters that start no token: anything
      but `(`, `)`, `,`, a letter, or `-` directly followed by `>`. */
  lemma LexRejects(s: string, p: nat)
    requires p <= |s|
    ensures var q := TG.SkipWs(s, p);
      Lex(s, p).Unexpected? <==>
        q < |s| && s[q] != '(' && s[q] != ')' && s[q] != ',' && !IsAlpha(s[q])
        && !(s[q] == '-' && q + 1 < |s| && s[q + 1] == '>')
    ensures Lex(s, p).Unexpected? ==> Lex(s, p).c == s[TG.SkipWs(s, p)]
  {
  }

  /** A leading underscore, `?`, `|`, `<`, and a `-` without `>` after it are
      refused. */
  lemma RefusedCharacters(s: string, p: nat)
    requires p <= |s|
    requires var q := TG.SkipWs(s, p);
      q < |s| && (s[q] in "_?|<" || (s[q] == '-' && (q + 1 == |s| || s[q + 1] != '>')))
    ensures Lex(s, p) == Unexpected(s[TG.SkipWs(s, p)])
  {
  }

  // ---------------------------------------------------------------------------
  // Reading inside a longer input
  // ---------------------------------------------------------------------------

  /** A lexing outcome with its position moved by `d`. */
  function Shift(r: Lexed, d: nat): Lexed {
    if r.Lexed? then Lexed(r.token, r.next + d) else r
  }

  /** Skipping white space after a prefix is skipping it in the rest. */
  lemma {:induction false} SkipWsShift(pre: string, t: string, k: nat)
    requires k <= |t|
    ensures TG.SkipWs(pre + t, |pre| + k) == |pre| + TG.SkipWs(t, k)
    decreases |t| - k
  {
    if k < |t| {
      assert (pre + t)[|pre| + k] == t[k];
      if IsSpace(t[k]) {
        SkipWsShift(pre, t, k + 1);
      }
    }
  }

  /** Running over identifier characters after a prefix is running over them
      in the rest. */
  lemma {:induction false} IdentEndShift(pre: string, t: string, k: nat)
    requires k <= |t|
    ensures TG.IdentEnd(pre + t, |pre| + k) == |pre| + TG.IdentEnd(t, k)
    decreases |t| - k
  {
    if k < |t| {
      assert (pre + t)[|pre| + k] == t[k];
      if IsIdentChar(t[k]) {
        IdentEndShift(pre, t, k + 1);
      }
    }
  }

  /** A slice of the rest after a prefix. */
  lemma SliceAfter(pre: string, t: string, i: nat, j: nat)
    requires i <= j <= |t|
    ensures (pre + t)[|pre| + i..|pre| + j] == t[i..j]
  {
    forall k | 0 <= k < j - i
      ensures (pre + t)[|pre| + i..|pre| + j][k] == t[i..j][k]
    {
      assert (pre + t)[|pre| + i + k] == t[i + k];
    }
  }

  /** `nextToken` after a prefix reads what it reads in the rest of the input. */
  lemma LexShift(pre: string, t: string, k: nat)
    requires k <= |t|
    ensures Lex(pre + t, |pre| + k) == Shift(Lex(t, k), |pre|)
  {
    SkipWsShift(pre, t, k);
    var q := TG.SkipWs(t, k);
    if q < |t| {
      assert (pre + t)[|pre| + q] == t[q];
      if q + 1 < |t| {
        assert (pre + t)[|pre| + q + 1] == t[q + 1];
      }
      if IsAlpha(t[q]) {
        IdentEndShift(pre, t, q);
        var e := TG.IdentEnd(t, q);
        SliceAfter(pre, t, q, e);
      }
    }
  }

  /** `nextToken` at `k` reads what it reads at the start of `s[k..]`. */
  lemma LexAt(s: string, k: nat)
    requires k <= |s|
    ensures Lex(s, k) == Shift(Lex(s[k..], 0), k)
  {
    assert s[..k] + s[k..] == s;
    LexShift(s[..k], s[k..], 0);
  }

  /** The run of identifier characters over a name stops at its end. */
  lemma {:induction false} IdentEndOverName(a: string, x: string, k: nat)
    requires k <= |a| && IsIdentifier(a)
    requires x == [] || !IsIdentChar(x[0])
    ensures TG.IdentEnd(a + x, k) == |a|
    decreases |a| - k
  {
    if k < |a| {
      assert (a + x)[k] == a[k];
      IdentEndOverName(a, x, k + 1);
    } else if x != [] {
      assert (a + x)[k] == x[0];
    }
  }

  /** A name followed by a character that cannot continue it is one identifier
      token. */
  lemma LexName(a: string, x: string)
    requires IsIdentifier(a)
    requires x == [] || !IsIdentChar(x[0])
    ensures Lex(a + x, 0) == Lexed(Token(Identifier, a), |a|)
  {
    assert (a + x)[0] == a[0];
    IdentEndOverName(a, x, 0);
    assert (a + x)[0..|a|] == a;
  }

  /** The same after one space. */
  lemma LexSpaceName(a: string, x: string)
    requires IsIdentifier(a)
    requires x == [] || !IsIdentChar(x[0])
    ensures Lex(" " + a + x, 0) == Lexed(Token(Identifier, a), |a| + 1)
  {
    var s := " " + a + x;
    assert s == " " + (a + x);
    TG.SkipWsOverSpace(s, 0);
    LexShift(" ", a + x, 0);
    LexName(a, x);
  }

  /** " -> " is one arrow token after the space. */
  lemma LexSpaceArrow(w: string)
    ensures Lex(" -> " + w, 0) == Lexed(Token(Arrow, "->"), 3)
  {
    var s := " -> " + w;
    assert s[0] == ' ' && s[1] == '-' && s[2] == '>';
    TG.SkipWsOverSpace(s, 0);
  }

  // ---------------------------------------------------------------------------
  // What the parser accepts
  // ---------------------------------------------------------------------------

  /** The text after the first argument: ", " and a name for each further one. */
  function Seps(rest: seq<string>): string
    decreases |rest|
  {
    if |rest| == 0 then "" else ", " + rest[0] + Seps(rest[1..])
  }

  /** The types named by a list of names, in order. */
  function Names(names: seq<string>): (r: seq<Type>)
    ensures |r| == |names|
    decreases |names|
  {
    if |names| == 0 then [] else [Type(names[0])] + Names(names[1..])
  }

  /** Reading one more name after `types` and then the others. */
  lemma NamesAfter(types: seq<Type>, names: seq<string>)
    requires |names| > 0
    ensures types + [Type(names[0])] + Names(names[1..]) == types + Names(names)
  {
  }

  /** Joining with ", " is the first part followed by the separated others. */
  lemma {:induction false} JoinSeps(parts: seq<string>)
    requires |parts| > 0
    ensures Join(parts, ", ") == parts[0] + Seps(parts[1..])
    decreases |parts|
  {
    if |parts| > 1 {
      JoinSeps(parts[1..]);
      assert parts[1..][1..] == parts[2..];
    }
  }

  /** The text of the remaining arguments and what follows them starts with a
      comma when an argument remains, with the closing parenthesis otherwise. */
  lemma RemainingTextHead(rest: seq<string>, post: string)
    ensures |Seps(rest) + ")" + post| > 0
    ensures (Seps(rest) + ")" + post)[0] == if |rest| == 0 then ')' else ','
  {
  }

  /** That text is `", "`, the next name, and the text of the others. */
  lemma RemainingTextCons(rest: seq<string>, post: string)
    requires |rest| > 0
    ensures Seps(rest) + ")" + post == ", " + rest[0] + (Seps(rest[1..]) + ")" + post)
  {
  }

  /** One round of the loop: after a comma, a name is read and the loop goes on
      with the token after it. */
  lemma LoopStep(s: string, types: seq<Type>, p: nat, a: string, q: nat)
    requires p <= |s| && q <= |s|
    requires Lex(s, p) == Lexed(Token(Identifier, a), q) && Lex(s, q).Lexed?
    ensures TypeListLoop(s, types, Token(Comma, ","), p)
              == TypeListLoop(s, types + [Type(a)], Lex(s, q).token, Lex(s, q).next)
  {
  }

  /** The loop stops at the closing parenthesis. */
  lemma LoopStops(s: string, types: seq<Type>, p: nat)
    requires p <= |s|
    ensures TypeListLoop(s, types, Token(RParen, ")"), p) == Ok(types, Token(RParen, ")"), p)
  {
  }

  /** Position `k` of `s` holds `, a2, …, an)`, character by character. */
  ghost predicate ArgumentsText(s: string, k: nat, rest: seq<string>)
    decreases |rest|
  {
    k < |s| &&
    if |rest| == 0 then s[k] == ')'
    else
      k + 2 + |rest[0]| <= |s| && s[k] == ',' && s[k + 1] == ' '
      && s[k + 2..k + 2 + |rest[0]|] == rest[0] && IsIdentifier(rest[0])
      && ArgumentsText(s, k + 2 + |rest[0]|, rest[1..])
  }

  /** The run of identifier characters over a name standing at `q` stops at its
      end when the next character cannot continue it. */
  lemma {:induction false} IdentEndAt(s: string, q: nat, n: string, i: nat)
    requires q + |n| <= |s| && s[q..q + |n|] == n && IsIdentifier(n) && i <= |n|
    requires q + |n| == |s| || !IsIdentChar(s[q + |n|])
    ensures TG.IdentEnd(s, q + i) == q + |n|
    decreases |n| - i
  {
    if i < |n| {
      assert s[q + i] == n[i];
      IdentEndAt(s, q, n, i + 1);
    }
  }

  /** The token there: a comma before each remaining name, the closing
      parenthesis after the last. */
  lemma ArgumentsHead(s: string, k: nat, rest: seq<string>)
    requires ArgumentsText(s, k, rest)
    ensures Lex(s, k) == Lexed(if |rest| == 0 then Token(RParen, ")") else Token(Comma, ","), k + 1)
  {
  }

  /** After the comma, the name that follows the space, and the text of the
      other names after it. */
  lemma ArgumentsStep(s: string, k: nat, rest: seq<string>)
    requires ArgumentsText(s, k, rest) && |rest| > 0
    ensures k + 2 + |rest[0]| <= |s|
    ensures Lex(s, k + 1) == Lexed(Token(Identifier, rest[0]), k + 2 + |rest[0]|)
    ensures ArgumentsText(s, k + 2 + |rest[0]|, rest[1..])
  {
    var a := rest[0];
    var m := k + 2 + |a|;
    assert s[m] == ',' || s[m] == ')';
    assert s[k + 2] == a[0];
    TG.SkipWsOverSpace(s, k + 1);
    assert TG.SkipWs(s, k + 2) == k + 2;
    IdentEndAt(s, k + 2, a, 0);
  }

  /** The text `Seps(rest) + ")"` is `, a2, …, an)` character by character. */
  lemma {:induction false} RemainingText(s: string, k: nat, rest: seq<string>, post: string)
    requires k <= |s| && s[k..] == Seps(rest) + ")" + post
    requires forall i :: 0 <= i < |rest| ==> IsIdentifier(rest[i])
    ensures ArgumentsText(s, k, rest)
    decreases |rest|
  {
    RemainingTextHead(rest, post);
    assert s[k] == s[k..][0];
    if |rest| > 0 {
      var a := rest[0];
      var m := k + 2 + |a|;
      var x := Seps(rest[1..]) + ")" + post;
      RemainingTextCons(rest, post);
      assert s[k..] == ", " + a + x;
      assert s[k + 1] == s[k..][1];
      assert s[k + 2..m] == s[k..][2..2 + |a|];
      assert s[m..] == s[k..][2 + |a|..];
      RemainingText(s, m, rest[1..], post);
    }
  }

  /** The loop of `parseTypeList`, started on the token in front of the
      remaining names, reads every one of them in order and stops at the
      closing parenthesis. */
  lemma {:induction false} ReadNames(s: string, k: nat, rest: seq<string>, types: seq<Type>)
    requires ArgumentsText(s, k, rest)
    ensures TypeListLoop(s, types, Lex(s, k).token, k + 1)
              == Ok(types + Names(rest), Token(RParen, ")"), k + |Seps(rest)| + 1)
    decreases |rest|
  {
    ArgumentsHead(s, k, rest);
    if |rest| == 0 {
      LoopStops(s, types, k + 1);
      assert types + Names(rest) == types;
    } else {
      var m := k + 2 + |rest[0]|;
      ArgumentsStep(s, k, rest);
      ArgumentsHead(s, m, rest[1..]);
      LoopStep(s, types, k + 1, rest[0], m);
      ReadNames(s, m, rest[1..], types + [Type(rest[0])]);
      NamesAfter(types, rest);
      assert m + |Seps(rest[1..])| + 1 == k + |Seps(rest)| + 1;
    }
  }

  /** `(a1, …, an)` at the start: the opening parenthesis, then the type list
      reads every name in order and stops at the closing parenthesis. */
  lemma ReadArguments(s: string, args: seq<string>, close: string)
    requires |args| > 0 && forall i :: 0 <= i < |args| ==> IsIdentifier(args[i])
    requires s == "(" + Join(args, ", ") + close && |close| > 0 && close[0] == ')'
    ensures Lex(s, 0) == Lexed(Token(LParen, "("), 1)
    ensures Lex(s, 1) == Lexed(Token(Identifier, args[0]), 1 + |args[0]|)
    ensures TypeListAt(s, Token(Identifier, args[0]), 1 + |args[0]|)
              == Ok(Names(args), Token(RParen, ")"), |Join(args, ", ")| + 2)
  {
    var a := args[0];
    var rest := args[1..];
    var k := 1 + |a|;
    FirstArgument(s, args, close);
    ArgumentsHead(s, k, rest);
    ReadNames(s, k, rest, [Type(a)]);
    NamesAfter([], args);
    assert [] + [Type(a)] == [Type(a)];
  }

  /** The text of `(a1, …, an)`: the opening parenthesis, the first name, and
      the others after it. */
  lemma FirstArgument(s: string, args: seq<string>, close: string)
    requires |args| > 0 && forall i :: 0 <= i < |args| ==> IsIdentifier(args[i])
    requires s == "(" + Join(args, ", ") + close && |close| > 0 && close[0] == ')'
    ensures Lex(s, 0) == Lexed(Token(LParen, "("), 1)
    ensures Lex(s, 1) == Lexed(Token(Identifier, args[0]), 1 + |args[0]|)
    ensures ArgumentsText(s, 1 + |args[0]|, args[1..])
    ensures |Join(args, ", ")| + 2 == 1 + |args[0]| + |Seps(args[1..])| + 1
  {
    JoinSeps(args);
    var a := args[0];
    var rest := args[1..];
    var post := close[1..];
    assert close == ")" + post;
    var x := Seps(rest) + ")" + post;
    assert s == "(" + a + x;
    RemainingTextHead(rest, post);
    OpenThenName(s, a, x);
    RemainingText(s, 1 + |a|, rest, post);
  }

  /** `(` and a name followed by something that cannot continue it: the
      opening parenthesis, then the name, then the rest. */
  lemma OpenThenName(s: string, a: string, x: string)
    requires IsIdentifier(a) && |x| > 0 && !IsIdentChar(x[0])
    requires s == "(" + a + x
    ensures Lex(s, 0) == Lexed(Token(LParen, "("), 1)
    ensures Lex(s, 1) == Lexed(Token(Identifier, a), 1 + |a|)
    ensures s[1 + |a|..] == x
  {
    assert s[0] == '(';
    assert s[1..] == a + x;
    LexAt(s, 1);
    LexName(a, x);
  }

  /** ` -> r` followed by a tail that cannot continue `r`: the arrow, then the
      return type, and the tail is what is left. */
  lemma ReadReturn(s: string, k: nat, ret: string, tail: string, k3: nat, k4: nat)
    requires IsIdentifier(ret) && (tail == [] || !IsIdentChar(tail[0]))
    requires k <= |s| && s[k..] == " -> " + ret + tail
    requires k3 == k + 3 && k4 == k3 + 1 + |ret|
    ensures k4 <= |s|
    ensures Lex(s, k) == Lexed(Token(Arrow, "->"), k3)
    ensures Lex(s, k3) == Lexed(Token(Identifier, ret), k4)
    ensures s[k4..] == tail
  {
    LexAt(s, k);
    LexSpaceArrow(ret + tail);
    assert " -> " + ret + tail == " -> " + (ret + tail);
    assert s[k3..] == " " + ret + tail;
    LexAt(s, k3);
    LexSpaceName(ret, tail);
  }

  /** A parse whose tokens are `(`, an argument list, `)`, `->` and a name
      ends with the token after that name. */
  lemma ContractSteps(s: string, t1: Token, p1: nat, args: seq<Type>, p2: nat, p3: nat, ret: string, p4: nat, tail: string)
    requires 1 <= |s| && p1 <= |s| && p2 <= |s| && p3 <= |s| && p4 <= |s|
    requires Lex(s, 0) == Lexed(Token(LParen, "("), 1)
    requires Lex(s, 1) == Lexed(t1, p1)
    requires TypeListAt(s, t1, p1) == Ok(args, Token(RParen, ")"), p2)
    requires Lex(s, p2) == Lexed(Token(Arrow, "->"), p3)
    requires Lex(s, p3) == Lexed(Token(Identifier, ret), p4)
    requires Lex(s, p4) == Shift(Lex(tail, 0), p4)
    ensures Lex(tail, 0).Lexed? ==> ParseContractText(s) == Success(Contract(args, Type(ret)))
    ensures Lex(tail, 0).Unexpected? ==> ParseContractText(s) == Failure(UnexpectedMessage(Lex(tail, 0).c))
  {
  }

  /** `") -> "` is the closing parenthesis followed by `" -> "`. */
  lemma ClosingText(j: string, ret: string, tail: string)
    ensures "(" + j + ") -> " + ret + tail == "(" + j + (")" + (" -> " + ret + tail))
  {
    var close: string := ") -> ";
    assert close == [')'] + " -> ";
  }

  /** The tokens of `(a1, …, an) -> r` followed by a tail that cannot continue
      `r`, and where the tail starts. */
  lemma ContractTokens(s: string, args: seq<string>, ret: string, tail: string, p1: nat, p2: nat, p3: nat, p4: nat)
    requires |args| > 0 && forall i :: 0 <= i < |args| ==> IsIdentifier(args[i])
    requires IsIdentifier(ret) && (tail == [] || !IsIdentChar(tail[0]))
    requires s == "(" + Join(args, ", ") + ") -> " + ret + tail
    requires p1 == 1 + |args[0]| && p2 == |Join(args, ", ")| + 2 && p3 == p2 + 3 && p4 == p3 + 1 + |ret|
    ensures 1 <= |s| && p1 <= |s| && p2 <= |s| && p3 <= |s| && p4 <= |s|
    ensures Lex(s, 0) == Lexed(Token(LParen, "("), 1)
    ensures Lex(s, 1) == Lexed(Token(Identifier, args[0]), p1)
    ensures TypeListAt(s, Token(Identifier, args[0]), p1) == Ok(Names(args), Token(RParen, ")"), p2)
    ensures Lex(s, p2) == Lexed(Token(Arrow, "->"), p3)
    ensures Lex(s, p3) == Lexed(Token(Identifier, ret), p4)
    ensures Lex(s, p4) == Shift(Lex(tail, 0), p4)
  {
    var j := Join(args, ", ");
    var rt := " -> " + ret + tail;
    ClosingText(j, ret, tail);
    ReadArguments(s, args, ")" + rt);
    assert s[p2..] == rt;
    ReadReturn(s, p2, ret, tail, p3, p4);
    LexAt(s, p4);
  }

  /** `(a1, …, an) -> r` is accepted with the argument types in order. Of what
      follows the return type only the single token after it is read: when it
      lexes, the rest is never looked at; when it does not, the parse fails on
      that character. */
  lemma AcceptsContract(args: seq<string>, ret: string, tail: string)
    requires |args| > 0 && forall i :: 0 <= i < |args| ==> IsIdentifier(args[i])
    requires IsIdentifier(ret)
    requires tail == [] || !IsIdentChar(tail[0])
    ensures Lex(tail, 0).Lexed? ==>
              ParseContractText("(" + Join(args, ", ") + ") -> " + ret + tail)
                == Success(Contract(Names(args), Type(ret)))
    ensures Lex(tail, 0).Unexpected? ==>
              ParseContractText("(" + Join(args, ", ") + ") -> " + ret + tail)
                == Failure(UnexpectedMessage(Lex(tail, 0).c))
  {
    var s := "(" + Join(args, ", ") + ") -> " + ret + tail;
    var p1 := 1 + |args[0]|;
    var p2 := |Join(args, ", ")| + 2;
    var p3 := p2 + 3;
    var p4 := p3 + 1 + |ret|;
    ContractTokens(s, args, ret, tail, p1, p2, p3, p4);
    ContractSteps(s, Token(Identifier, args[0]), p1, Names(args), p2, p3, ret, p4, tail);
  }

  /** An empty argument list is refused: `parseTypeList` wants a type name and
      finds the closing parenthesis. */
  lemma EmptyArgumentListFails(ret: string)
    ensures ParseContractText("() -> " + ret) == Failure("expected type name, got: )")
  {
    var s := "() -> " + ret;
    assert s[0] == '(' && s[1] == ')';
  }

  /** Every type of an accepted contract is an identifier. */
  predicate AllIdentifiers(ts: seq<Type>) {
    forall i :: 0 <= i < |ts| ==> IsIdentifier(ts[i].name)
  }

  /** An identifier token carries an identifier. */
  lemma LexedIdentifier(s: string, p: nat)
    requires p <= |s| && Lex(s, p).Lexed? && Lex(s, p).token.kind == Identifier
    ensures IsIdentifier(Lex(s, p).token.text)
  {
    LexedToken(s, p);
  }

  /** The loop adds only lexed identifiers. */
  lemma {:induction false} TypeListLoopSound(s: string, types: seq<Type>, cur: Token, p: nat)
    requires p <= |s| && AllIdentifiers(types)
    ensures TypeListLoop(s, types, cur, p).Ok? ==> AllIdentifiers(TypeListLoop(s, types, cur, p).value)
    decreases |s| - p
  {
    if cur.kind == Comma && Lex(s, p).Lexed? {
      var q := Lex(s, p).next;
      var tok := Lex(s, p).token;
      var t := ParseTypeAt(s, tok, q);
      if t.Ok? {
        LexedIdentifier(s, p);
        TypeListLoopSound(s, types + [t.value], t.current, t.next);
      }
    }
  }

  /** Every accepted contract has at least one argument, and all its types are
      identifiers read from the text. */
  lemma AcceptedContractSound(s: string)
    requires ParseContractText(s).Success?
    ensures |ParseContractText(s).value.argumentTypes| >= 1
    ensures AllIdentifiers(ParseContractText(s).value.argumentTypes)
    ensures IsIdentifier(ParseContractText(s).value.returnType.name)
  {
    var p1 := Lex(s, 0).next;
    var first := Lex(s, p1).token;
    var p2 := Lex(s, p1).next;
    LexedIdentifier(s, p1);
    var head := ParseTypeAt(s, first, p2);
    TypeListLoopSound(s, [head.value], head.current, head.next);
    var list := TypeListAt(s, first, p2);
    var p3 := Lex(s, list.next).next;
    var p4 := Lex(s, p3).next;
    LexedIdentifier(s, p3);
  }

  // ---------------------------------------------------------------------------
  // The grammar over the token stream, whatever the spacing
  // ---------------------------------------------------------------------------

  /** The `n` tokens the parser meets from the current token `cur` on, when
      `nextToken` goes on from `p`: `cur`, then `n - 1` lexed tokens; `None`
      when the lexer refuses a character before that. */
  function Stream(s: string, cur: Token, p: nat, n: nat): (r: Option<seq<Token>>)
    requires p <= |s|
    ensures r.Some? ==> |r.value| == n && (n > 0 ==> r.value[0] == cur)
    decreases n
  {
    if n <= 1 then Some([cur][..n])
    else match Lex(s, p)
      case Unexpected(_) => None
      case Lexed(t, q) =>
        match Stream(s, t, q, n - 1)
        case None => None
        case Some(ts) => Some([cur] + ts)
  }

  /** The first token of the text and the `n - 1` after it. */
  function TokensOf(s: string, n: nat): (r: Option<seq<Token>>)
    ensures r.Some? ==> |r.value| == n
  {
    match Lex(s, 0)
    case Unexpected(_) => None
    case Lexed(first, p) => Stream(s, first, p, n)
  }

  /** The tokens of the further arguments: a comma and a name for each. */
  function CommaNames(names: seq<string>): (r: seq<Token>)
    ensures |r| == 2 * |names|
    decreases |names|
  {
    if |names| == 0 then []
    else [Token(Comma, ","), Token(Identifier, names[0])] + CommaNames(names[1..])
  }

  /** One more name in front: its comma and its name come first. */
  lemma CommaNamesCons(a: string, more: seq<string>)
    ensures CommaNames([a] + more) == [Token(Comma, ","), Token(Identifier, a)] + CommaNames(more)
  {
    assert ([a] + more)[1..] == more;
  }

  /** The tokens of the contract `(a1, …, an) -> r`. */
  function ContractTokenSeq(args: seq<string>, ret: string): (r: seq<Token>)
    requires |args| > 0
    ensures |r| == 2 * |args| + 3
  {
    [Token(LParen, "("), Token(Identifier, args[0])] + CommaNames(args[1..])
      + [Token(RParen, ")"), Token(Arrow, "->"), Token(Identifier, ret)]
  }

  /** The text lexes to the tokens of the contract, followed by one more token
      that lexes (the parser reads one token past the return type). */
  predicate Spells(s: string, args: seq<string>, ret: string)
    requires |args| > 0
  {
    var ts := ContractTokenSeq(args, ret);
    var r := TokensOf(s, |ts| + 1);
    r.Some? && r.value[..|ts|] == ts
  }

  /** The text of each token kind `nextToken` builds. */
  predicate Canonical(t: Token) {
    && (t.kind == LParen ==> t.text == "(")
    && (t.kind == RParen ==> t.text == ")")
    && (t.kind == Comma ==> t.text == ",")
    && (t.kind == Arrow ==> t.text == "->")
  }

  /** Every token `nextToken` builds has the text of its kind. */
  lemma LexCanonical(s: string, p: nat)
    requires p <= |s| && Lex(s, p).Lexed?
    ensures Canonical(Lex(s, p).token)
  {
  }

  /** Past its first token, a stream is the stream of the next lexed token. */
  lemma StreamTail(s: string, cur: Token, p: nat, n: nat)
    requires p <= |s| && n >= 2 && Stream(s, cur, p, n).Some?
    ensures Lex(s, p).Lexed?
    ensures Stream(s, Lex(s, p).token, Lex(s, p).next, n - 1) == Some(Stream(s, cur, p, n).value[1..])
  {
    var ts := Stream(s, Lex(s, p).token, Lex(s, p).next, n - 1).value;
    assert ([cur] + ts)[1..] == ts;
  }

  /** A lexed token in front of a stream. */
  lemma StreamCons(s: string, cur: Token, p: nat, t: Token, q: nat, n: nat, ts: seq<Token>)
    requires p <= |s| && n >= 1 && Lex(s, p) == Lexed(t, q) && Stream(s, t, q, n) == Some(ts)
    ensures Stream(s, cur, p, n + 1) == Some([cur] + ts)
  {
  }

  /** The loop reads `, a` for every further argument and stops at the first
      token that is not a comma. */
  lemma {:induction false} LoopFromStream(s: string, types: seq<Type>, cur: Token, p: nat,
                                          rest: seq<string>, close: Token, more: seq<Token>)
    requires p <= |s| && close.kind != Comma
    requires Stream(s, cur, p, 2 * |rest| + 1 + |more|) == Some(CommaNames(rest) + [close] + more)
    ensures TypeListLoop(s, types, cur, p).Ok?
    ensures var r := TypeListLoop(s, types, cur, p);
      && r.value == types + Names(rest) && r.current == close
      && Stream(s, close, r.next, 1 + |more|) == Some([close] + more)
    decreases |rest|
  {
    var n := 2 * |rest| + 1 + |more|;
    if |rest| == 0 {
      assert CommaNames(rest) + [close] + more == [close] + more;
      assert types + Names(rest) == types;
    } else {
      var tail := CommaNames(rest[1..]) + [close] + more;
      var name := Token(Identifier, rest[0]);
      assert CommaNames(rest) + [close] + more == [Token(Comma, ",")] + ([name] + tail);
      StreamTail(s, cur, p, n);
      var q := Lex(s, p).next;
      assert ([name] + tail)[1..] == tail;
      StreamTail(s, name, q, n - 1);
      LoopFromStream(s, types + [Type(rest[0])], Lex(s, q).token, Lex(s, q).next, rest[1..], close, more);
      NamesAfter(types, rest);
    }
  }

  /** One round of the loop that goes on: a comma, then a name and the token
      after it, both lexed. */
  lemma LoopRound(s: string, types: seq<Type>, cur: Token, p: nat)
    requires p <= |s| && cur.kind == Comma && TypeListLoop(s, types, cur, p).Ok?
    ensures Lex(s, p).Lexed? && Lex(s, p).token.kind == Identifier
    ensures Lex(s, Lex(s, p).next).Lexed?
    ensures var q := Lex(s, p).next;
      TypeListLoop(s, types, cur, p)
        == TypeListLoop(s, types + [Type(Lex(s, p).token.text)], Lex(s, q).token, Lex(s, q).next)
  {
  }

  /** A comma and a lexed name in front of a stream. */
  lemma StreamCommaName(s: string, p: nat, a: string, q: nat, after: Token, q2: nat,
                        more: seq<string>, m: nat, tail: seq<Token>)
    requires p <= |s| && m >= 1
    requires Lex(s, p) == Lexed(Token(Identifier, a), q) && Lex(s, q) == Lexed(after, q2)
    requires Stream(s, after, q2, 2 * |more| + m) == Some(CommaNames(more) + tail)
    ensures Stream(s, Token(Comma, ","), p, 2 * |[a] + more| + m) == Some(CommaNames([a] + more) + tail)
  {
    var name := Token(Identifier, a);
    StreamCons(s, name, q, after, q2, 2 * |more| + m, CommaNames(more) + tail);
    StreamCons(s, Token(Comma, ","), p, name, q, 2 * |more| + m + 1, [name] + (CommaNames(more) + tail));
    CommaNamesCons(a, more);
    assert CommaNames([a] + more) + tail == [Token(Comma, ",")] + ([name] + (CommaNames(more) + tail));
  }

  /** What the loop accepted is `, a` for every further argument in front of
      the stream at the token it stopped on. */
  lemma {:induction false} StreamOfLoop(s: string, types: seq<Type>, cur: Token, p: nat, m: nat, tail: seq<Token>)
    returns (rest: seq<string>)
    requires p <= |s| && Canonical(cur) && TypeListLoop(s, types, cur, p).Ok? && m >= 1
    requires Stream(s, TypeListLoop(s, types, cur, p).current, TypeListLoop(s, types, cur, p).next, m) == Some(tail)
    ensures TypeListLoop(s, types, cur, p).value == types + Names(rest)
    ensures Canonical(TypeListLoop(s, types, cur, p).current)
    ensures Stream(s, cur, p, 2 * |rest| + m) == Some(CommaNames(rest) + tail)
    decreases |s| - p
  {
    var loop := TypeListLoop(s, types, cur, p);
    if cur.kind != Comma {
      rest := [];
      assert loop == Ok(types, cur, p);
      assert types + Names(rest) == types;
      assert CommaNames(rest) + tail == tail;
    } else {
      LoopRound(s, types, cur, p);
      var tok := Lex(s, p).token;
      var q := Lex(s, p).next;
      LexCanonical(s, q);
      var after := Lex(s, q).token;
      var q2 := Lex(s, q).next;
      assert loop == TypeListLoop(s, types + [Type(tok.text)], after, q2);
      var more := StreamOfLoop(s, types + [Type(tok.text)], after, q2, m, tail);
      rest := [tok.text] + more;
      assert rest[1..] == more;
      NamesAfter(types, rest);
      assert cur == Token(Comma, ",") && tok == Token(Identifier, tok.text);
      StreamCommaName(s, p, tok.text, q, after, q2, more, m, tail);
    }
  }

  /** `(`, an argument list, `)`, `->`, a name and one more lexed token:
      the text is accepted. */
  lemma StepsAccepted(s: string, p0: nat, t1: Token, p1: nat, args: seq<Type>, p2: nat,
                      p3: nat, ret: string, p4: nat, la: Token, p5: nat)
    requires p0 <= |s| && p1 <= |s| && p2 <= |s| && p3 <= |s| && p4 <= |s|
    requires Lex(s, 0) == Lexed(Token(LParen, "("), p0)
    requires Lex(s, p0) == Lexed(t1, p1)
    requires TypeListAt(s, t1, p1) == Ok(args, Token(RParen, ")"), p2)
    requires Lex(s, p2) == Lexed(Token(Arrow, "->"), p3)
    requires Lex(s, p3) == Lexed(Token(Identifier, ret), p4)
    requires Lex(s, p4) == Lexed(la, p5)
    ensures ParseContractText(s) == Success(Contract(args, Type(ret)))
  {
  }

  /** A spelled contract is a stream from the first token on. */
  lemma SpelledStream(s: string, args: seq<string>, ret: string) returns (la: Token)
    requires |args| > 0 && Spells(s, args, ret)
    ensures Lex(s, 0).Lexed?
    ensures Stream(s, Lex(s, 0).token, Lex(s, 0).next, 2 * |args| + 4)
              == Some([Token(LParen, "(")] + ([Token(Identifier, args[0])]
                   + (CommaNames(args[1..]) + [Token(RParen, ")")] + [Token(Arrow, "->"), Token(Identifier, ret), la])))
  {
    var ct := ContractTokenSeq(args, ret);
    var ts := TokensOf(s, |ct| + 1).value;
    la := ts[|ct|];
    assert ts == ct + [la];
    assert ct + [la] == [Token(LParen, "(")] + ([Token(Identifier, args[0])]
      + (CommaNames(args[1..]) + [Token(RParen, ")")] + [Token(Arrow, "->"), Token(Identifier, ret), la]));
  }

  /** Two lexed tokens in front of the rest of a stream. */
  lemma StreamDropTwo(s: string, cur: Token, p: nat, n: nat, y: Token, rest: seq<Token>)
    requires p <= |s| && n >= 3 && Stream(s, cur, p, n) == Some([cur] + ([y] + rest))
    ensures Lex(s, p).Lexed? && Lex(s, p).token == y && Lex(s, Lex(s, p).next).Lexed?
    ensures var q := Lex(s, p).next;
      Stream(s, Lex(s, q).token, Lex(s, q).next, n - 2) == Some(rest)
  {
    StreamTail(s, cur, p, n);
    assert ([cur] + ([y] + rest))[1..] == [y] + rest;
    StreamTail(s, y, Lex(s, p).next, n - 1);
    assert ([y] + rest)[1..] == rest;
  }

  /** The stream of a contract's tokens from the first token on is accepted. */
  lemma StreamAccepted(s: string, args: seq<string>, ret: string, la: Token)
    requires |args| > 0 && Lex(s, 0).Lexed?
    requires Stream(s, Lex(s, 0).token, Lex(s, 0).next, 2 * |args| + 4)
               == Some([Token(LParen, "(")] + ([Token(Identifier, args[0])]
                    + (CommaNames(args[1..]) + [Token(RParen, ")")] + [Token(Arrow, "->"), Token(Identifier, ret), la])))
    ensures ParseContractText(s) == Success(Contract(Names(args), Type(ret)))
  {
    var close := Token(RParen, ")");
    var more := [Token(Arrow, "->"), Token(Identifier, ret), la];
    var p0 := Lex(s, 0).next;
    StreamDropTwo(s, Lex(s, 0).token, p0, 2 * |args| + 4, Token(Identifier, args[0]),
                  CommaNames(args[1..]) + [close] + more);
    var t1 := Lex(s, p0).token;
    var p1 := Lex(s, p0).next;
    var t2 := Lex(s, p1).token;
    var q2 := Lex(s, p1).next;
    LoopFromStream(s, [Type(args[0])], t2, q2, args[1..], close, more);
    var loop := TypeListLoop(s, [Type(args[0])], t2, q2);
    assert TypeListAt(s, t1, p1) == loop;
    var e := loop.next;
    StreamTail(s, close, e, 4);
    var p3 := Lex(s, e).next;
    StreamTail(s, Token(Arrow, "->"), p3, 3);
    var p4 := Lex(s, p3).next;
    StreamTail(s, Token(Identifier, ret), p4, 2);
    NamesAfter([], args);
    StepsAccepted(s, p0, t1, p1, loop.value, e, p3, ret, p4, la, Lex(s, p4).next);
  }

  /** Completeness over tokens: a text that lexes to the tokens of a contract,
      with any white space between them, is accepted as that contract. */
  lemma ContractFromTokens(s: string, args: seq<string>, ret: string)
    requires |args| > 0 && Spells(s, args, ret)
    ensures ParseContractText(s) == Success(Contract(Names(args), Type(ret)))
  {
    var la := SpelledStream(s, args, ret);
    StreamAccepted(s, args, ret, la);
  }

  /** The steps of an accepted parse: `(`, a name, the loop from the token
      after it up to `)`, then `->`, a name and one more lexed token. */
  lemma AcceptedSteps(s: string) returns (p0: nat, f1: Token, p1: nat, t2: Token, q2: nat,
                                          arrow: Token, p3: nat, r: Token, p4: nat, la: Token, p5: nat)
    requires ParseContractText(s).Success?
    ensures p1 <= |s| && q2 <= |s| && p3 <= |s| && p4 <= |s| && p5 <= |s|
    ensures Lex(s, 0) == Lexed(Token(LParen, "("), p0)
    ensures Lex(s, p0) == Lexed(f1, p1) && f1.kind == Identifier
    ensures Lex(s, p1) == Lexed(t2, q2) && Canonical(t2)
    ensures var loop := TypeListLoop(s, [Type(f1.text)], t2, q2);
      && loop.Ok? && loop.current.kind == RParen
      && Lex(s, loop.next) == Lexed(arrow, p3) && arrow == Token(Arrow, "->")
      && Lex(s, p3) == Lexed(r, p4) && r.kind == Identifier
      && Lex(s, p4) == Lexed(la, p5)
      && ParseContractText(s).value == Contract(loop.value, Type(r.text))
  {
    p0 := Lex(s, 0).next;
    f1 := Lex(s, p0).token;
    p1 := Lex(s, p0).next;
    t2 := Lex(s, p1).token;
    q2 := Lex(s, p1).next;
    LexCanonical(s, p1);
    var loop := TypeListLoop(s, [Type(f1.text)], t2, q2);
    assert TypeListAt(s, f1, p1) == loop;
    LexCanonical(s, loop.next);
    arrow := Lex(s, loop.next).token;
    p3 := Lex(s, loop.next).next;
    r := Lex(s, p3).token;
    p4 := Lex(s, p3).next;
    la := Lex(s, p4).token;
    p5 := Lex(s, p4).next;
  }

  /** A stream of a contract's tokens from the first token on spells it. */
  lemma StreamSpells(s: string, a: string, rest: seq<string>, ret: string, la: Token)
    requires Lex(s, 0).Lexed?
    requires Stream(s, Lex(s, 0).token, Lex(s, 0).next, 2 * |rest| + 6)
               == Some([Token(LParen, "(")] + ([Token(Identifier, a)]
                    + (CommaNames(rest) + [Token(RParen, ")"), Token(Arrow, "->"), Token(Identifier, ret), la])))
    ensures Spells(s, [a] + rest, ret)
  {
    var args := [a] + rest;
    assert args[0] == a && args[1..] == rest;
    var ct := ContractTokenSeq(args, ret);
    var close := [Token(RParen, ")"), Token(Arrow, "->"), Token(Identifier, ret)];
    var names := CommaNames(rest);
    assert ct == [Token(LParen, "("), Token(Identifier, a)] + names + close;
    assert close + [la] == [Token(RParen, ")"), Token(Arrow, "->"), Token(Identifier, ret), la];
    assert [Token(LParen, "(")] + ([Token(Identifier, a)] + (names + (close + [la]))) == ct + [la];
    assert (ct + [la])[..|ct|] == ct;
  }

  /** Soundness over tokens: an accepted text lexes to the tokens of the
      contract it was accepted as. */
  lemma AcceptedContractSpelled(s: string) returns (args: seq<string>, ret: string)
    requires ParseContractText(s).Success?
    ensures |args| > 0 && Spells(s, args, ret)
    ensures ParseContractText(s).value == Contract(Names(args), Type(ret))
  {
    var p0, f1, p1, t2, q2, arrow, p3, r, p4, la, p5 := AcceptedSteps(s);
    var loop := TypeListLoop(s, [Type(f1.text)], t2, q2);
    var close := loop.current;
    var p2 := loop.next;
    assert [la][..1] == [la];
    StreamCons(s, r, p4, la, p5, 1, [la]);
    assert [r] + [la] == [r, la];
    StreamCons(s, arrow, p3, r, p4, 2, [r, la]);
    assert [arrow] + [r, la] == [arrow, r, la];
    StreamCons(s, close, p2, arrow, p3, 3, [arrow, r, la]);
    var tail := [close, arrow, r, la];
    assert [close] + [arrow, r, la] == tail;
    var rest := StreamOfLoop(s, [Type(f1.text)], t2, q2, 4, tail);
    StreamCons(s, f1, p1, t2, q2, 2 * |rest| + 4, CommaNames(rest) + tail);
    StreamCons(s, Token(LParen, "("), p0, f1, p1, 2 * |rest| + 5, [f1] + (CommaNames(rest) + tail));
    assert close == Token(RParen, ")") && f1 == Token(Identifier, f1.text) && r == Token(Identifier, r.text);
    StreamSpells(s, f1.text, rest, r.text, la);
    args := [f1.text] + rest;
    ret := r.text;
    assert args[0] == f1.text && args[1..] == rest;
    NamesAfter([], args);
  }

  /** Two lists of names naming the same types are the same. */
  lemma {:induction false} NamesInjective(a: seq<string>, b: seq<string>)
    requires Names(a) == Names(b)
    ensures a == b
    decreases |a|
  {
    if |a| > 0 {
      assert Names(a)[0] == Type(a[0]) && Names(b)[0] == Type(b[0]);
      assert Names(a)[1..] == Names(a[1..]) && Names(b)[1..] == Names(b[1..]);
      NamesInjective(a[1..], b[1..]);
      assert a == [a[0]] + a[1..] && b == [b[0]] + b[1..];
    }
  }

  /** The contract grammar over tokens, both ways: the text is accepted as
      `(a1, …, an) -> r` exactly when it lexes to `(`, `a1`, then `,` `ai` for
      each further argument, `)`, `->`, `r`, and one more token lexes. */
  lemma ContractSpelledExactly(s: string, args: seq<string>, ret: string)
    requires |args| > 0
    ensures ParseContractText(s) == Success(Contract(Names(args), Type(ret))) <==> Spells(s, args, ret)
  {
    if Spells(s, args, ret) {
      ContractFromTokens(s, args, ret);
    }
    if ParseContractText(s) == Success(Contract(Names(args), Type(ret))) {
      var a, r := AcceptedContractSpelled(s);
      NamesInjective(a, args);
    }
  }
}
