/** What `TypeParser` in `typelang.cpp` computes, as functions that thread the cursor
    `pos` through. Every recursive step spends one unit of `fuel`; a parse that
    runs out answers `OutOfFuel`, which stands for the C++ loop that never ends. */
module TypeGrammar {
  import opened Strings
  import opened TypeLang

  /** The two `runtime_error`s the parser throws, with the position it reports. */
  datatype ParseError =
    | ExpectedChar(expected: char, at: nat)
    | ExpectedText(text: string, at: nat)

  /** The outcome of one parsing routine: its value and the new position, a thrown
      error, or no answer within the fuel. */
  datatype Parsed<T> = Done(value: T, next: nat) | Threw(error: ParseError) | OutOfFuel

  /** `skipWhitespace`: the first position at or after `p` that is not white space
      (see `SkipWsSpec`). */
  function SkipWs(s: string, p: nat): (q: nat)
    requires p <= |s|
    ensures p <= q <= |s|
    decreases |s| - p
  {
    if p < |s| && IsSpace(s[p]) then SkipWs(s, p + 1) else p
  }

  /** `input.substr(q, |lit|) == lit`, compared character by character. */
  predicate HasAt(s: string, q: nat, lit: string)
    decreases |lit|
  {
    |lit| == 0 || (q < |s| && s[q] == lit[0] && HasAt(s, q + 1, lit[1..]))
  }

  /** `match(c)`: skips white space, then consumes `c` if it is next. */
  function MatchChar(s: string, p: nat, c: char): (r: (bool, nat))
    requires p <= |s|
    ensures r.1 <= |s|
  {
    var q := SkipWs(s, p);
    if q < |s| && s[q] == c then (true, q + 1) else (false, q)
  }

  /** `consume(lit)`: skips white space, then consumes `lit` if it is next. */
  function ConsumeText(s: string, p: nat, lit: string): (r: (bool, nat))
    requires p <= |s|
    ensures r.1 <= |s|
  {
    var q := SkipWs(s, p);
    if HasAt(s, q, lit) then (HasAtBound(s, q, lit); (true, q + |lit|)) else (false, q)
  }

  /** `peek(lit)`: skips white space and tells whether `lit` is next. */
  function PeekText(s: string, p: nat, lit: string): (r: (bool, nat))
    requires p <= |s|
    ensures r.1 <= |s|
  {
    var q := SkipWs(s, p);
    (HasAt(s, q, lit), q)
  }

  /** The end of the maximal run of identifier characters starting at `q`
      (see `IdentEndSpec`). */
  function IdentEnd(s: string, q: nat): (e: nat)
    requires q <= |s|
    ensures q <= e <= |s|
    decreases |s| - q
  {
    if q < |s| && IsIdentChar(s[q]) then IdentEnd(s, q + 1) else q
  }

  /** `parseIdentifier`: possibly empty, and then it does not advance past the white space. */
  function ParseIdentifier(s: string, p: nat): (r: (string, nat))
    requires p <= |s|
    ensures r.1 <= |s|
  {
    var q := SkipWs(s, p);
    var e := IdentEnd(s, q);
    (s[q..e], e)
  }

  /** Turns a failed outcome of one result type into the same failure of another. */
  function Propagate<T, U>(r: Parsed<T>): Parsed<U>
    requires !r.Done?
  {
    if r.Threw? then Threw(r.error) else OutOfFuel
  }

  /** `parseType`: a primary followed by its suffix. */
  function ParseType(s: string, p: nat, fuel: nat): (r: Parsed<Type>)
    requires p <= |s|
    ensures r.Done? ==> p <= r.next <= |s|
    decreases fuel, 0
  {
    if fuel == 0 then OutOfFuel
    else
      var prim := ParsePrimary(s, p, fuel - 1);
      if !prim.Done? then Propagate(prim) else Suffix(s, prim.next, prim.value, fuel - 1)
  }

  /** What `parseType` does after the primary: one `?`, or `[` `]`, or else the
      union tail. A `[` that is not followed by `]` stays consumed. */
  function Suffix(s: string, p: nat, prim: Type, fuel: nat): (r: Parsed<Type>)
    requires p <= |s|
    ensures r.Done? ==> p <= r.next <= |s|
    decreases fuel, 1
  {
    var nullable := MatchChar(s, p, '?');
    if nullable.0 then Done(Nullable(prim), nullable.1)
    else
      var open := MatchChar(s, nullable.1, '[');
      if !open.0 then ParseUnion(s, open.1, prim, fuel)
      else
        var close := MatchChar(s, open.1, ']');
        if close.0 then Done(Vector(prim), close.1)
        else ParseUnion(s, close.1, prim, fuel)
  }

  /** `parsePrimary`: a function type, `list<T>`, `class<id>` or a plain identifier. */
  function ParsePrimary(s: string, p: nat, fuel: nat): (r: Parsed<Type>)
    requires p <= |s|
    ensures r.Done? ==> p <= r.next <= |s|
    decreases fuel, 0
  {
    if fuel == 0 then OutOfFuel
    else
      var open := MatchChar(s, SkipWs(s, p), '(');
      if open.0 then FunctionBranch(s, open.1, fuel - 1)
      else
        var isList := ConsumeText(s, open.1, "list<");
        if isList.0 then ListBranch(s, isList.1, fuel - 1)
        else
          var isClass := ConsumeText(s, isList.1, "class<");
          if isClass.0 then ClassBranch(s, isClass.1)
          else
            var name := ParseIdentifier(s, isClass.1);
            Done(Scalar(name.0), name.1)
  }

  /** The `(` branch: argument list, `expect("->")`, return type, `expect(')')`. */
  function FunctionBranch(s: string, p: nat, fuel: nat): (r: Parsed<Type>)
    requires p <= |s|
    ensures r.Done? ==> p <= r.next <= |s|
    decreases fuel, 2
  {
    var args := ParseArgumentList(s, p, fuel);
    if !args.Done? then Propagate(args)
    else
      var arrow := ConsumeText(s, args.next, "->");
      if !arrow.0 then Threw(ExpectedText("->", arrow.1))
      else
        var ret := ParseType(s, arrow.1, fuel);
        if !ret.Done? then ret
        else
          var close := MatchChar(s, ret.next, ')');
          if !close.0 then Threw(ExpectedChar(')', close.1))
          else Done(Function(args.value, ret.value), close.1)
  }

  /** The `list<` branch: an element type and `expect('>')`. */
  function ListBranch(s: string, p: nat, fuel: nat): (r: Parsed<Type>)
    requires p <= |s|
    ensures r.Done? ==> p <= r.next <= |s|
    decreases fuel, 1
  {
    var inner := ParseType(s, p, fuel);
    if !inner.Done? then inner
    else
      var close := MatchChar(s, inner.next, '>');
      if !close.0 then Threw(ExpectedChar('>', close.1))
      else Done(List(inner.value), close.1)
  }

  /** The `class<` branch: exactly one (possibly empty) identifier and `expect('>')`. */
  function ClassBranch(s: string, p: nat): (r: Parsed<Type>)
    requires p <= |s|
    ensures r.Done? ==> p <= r.next <= |s|
  {
    var name := ParseIdentifier(s, p);
    var close := MatchChar(s, name.1, '>');
    if !close.0 then Threw(ExpectedChar('>', close.1))
    else Done(Class([name.0]), close.1)
  }

  /** `parseUnion`: without a `|` ahead the first type is the result. */
  function ParseUnion(s: string, p: nat, first: Type, fuel: nat): (r: Parsed<Type>)
    requires p <= |s|
    ensures r.Done? ==> p <= r.next <= |s|
    decreases fuel, 0
  {
    if fuel == 0 then OutOfFuel
    else
      var bar := MatchChar(s, SkipWs(s, p), '|');
      if !bar.0 then Done(first, bar.1) else UnionLoop(s, bar.1, first, fuel - 1)
  }

  /** The `do … while (match('|'))` loop of `parseUnion`, nesting to the left. */
  function UnionLoop(s: string, p: nat, left: Type, fuel: nat): (r: Parsed<Type>)
    requires p <= |s|
    ensures r.Done? ==> p <= r.next <= |s|
    decreases fuel, 0
  {
    if fuel == 0 then OutOfFuel
    else
      var right := ParseType(s, p, fuel - 1);
      if !right.Done? then right
      else
        var bar := MatchChar(s, right.next, '|');
        if bar.0 then UnionLoop(s, bar.1, Union(left, right.value), fuel - 1)
        else Done(Union(left, right.value), bar.1)
  }

  /** `parseArgumentList`: skips white space, then runs the argument loop. */
  function ParseArgumentList(s: string, p: nat, fuel: nat): (r: Parsed<seq<Type>>)
    requires p <= |s|
    ensures r.Done? ==> p <= r.next <= |s|
    decreases fuel, 1
  {
    ArgumentLoop(s, SkipWs(s, p), [], fuel)
  }

  /** The loop of `parseArgumentList`: until a `)` is next (which it leaves in place),
      parse a type, skip white space and take an optional `,`. */
  function ArgumentLoop(s: string, p: nat, args: seq<Type>, fuel: nat): (r: Parsed<seq<Type>>)
    requires p <= |s|
    ensures r.Done? ==> p <= r.next <= |s|
    decreases fuel, 0
  {
    if fuel == 0 then OutOfFuel
    else
      var closing := PeekText(s, p, ")");
      if closing.0 then Done(args, closing.1)
      else
        var t := ParseType(s, closing.1, fuel - 1);
        if !t.Done? then Propagate(t)
        else
          var comma := MatchChar(s, SkipWs(s, t.next), ',');
          ArgumentLoop(s, comma.1, args + [t.value], fuel - 1)
  }

  // ---------------------------------------------------------------------------
  // Helpers about the scanning primitives
  // ---------------------------------------------------------------------------

  /** Skipping white space twice is skipping it once. */
  lemma SkipWsIdempotent(s: string, p: nat)
    requires p <= |s|
    ensures SkipWs(s, SkipWs(s, p)) == SkipWs(s, p)
  {
    SkipWsSpec(s, p);
  }

  /** A white-space character in front changes nothing for `skipWhitespace`. */
  lemma SkipWsOverSpace(s: string, p: nat)
    requires p < |s| && IsSpace(s[p])
    ensures SkipWs(s, p) == SkipWs(s, p + 1)
  {
  }

  /** A literal found at `q` fits in the rest of the input. */
  lemma {:induction false} HasAtBound(s: string, q: nat, lit: string)
    requires q <= |s| && HasAt(s, q, lit)
    ensures q + |lit| <= |s|
    decreases |lit|
  {
    if |lit| > 0 { HasAtBound(s, q + 1, lit[1..]); }
  }

  /** `HasAt` holds exactly when the slice at `q` is the literal. */
  lemma {:induction false} HasAtSlice(s: string, q: nat, lit: string)
    requires q <= |s|
    ensures HasAt(s, q, lit) <==> q + |lit| <= |s| && s[q..q + |lit|] == lit
    decreases |lit|
  {
    if |lit| > 0 {
      if q < |s| {
        HasAtSlice(s, q + 1, lit[1..]);
        if q + |lit| <= |s| {
          assert s[q..q + |lit|] == [s[q]] + s[q + 1..q + 1 + |lit[1..]|];
          assert lit == [lit[0]] + lit[1..];
        }
      }
    }
  }

  /** What `SkipWs` skips is white space, and it stops before a non-space. */
  lemma SkipWsSpec(s: string, p: nat)
    requires p <= |s|
    ensures forall k :: p <= k < SkipWs(s, p) ==> IsSpace(s[k])
    ensures SkipWs(s, p) == |s| || !IsSpace(s[SkipWs(s, p)])
    decreases |s| - p
  {
    if p < |s| && IsSpace(s[p]) { SkipWsSpec(s, p + 1); }
  }

  /** `IdentEnd` runs over identifier characters and stops before any other. */
  lemma IdentEndSpec(s: string, q: nat)
    requires q <= |s|
    ensures forall k :: q <= k < IdentEnd(s, q) ==> IsIdentChar(s[k])
    ensures IdentEnd(s, q) == |s| || !IsIdentChar(s[IdentEnd(s, q)])
    decreases |s| - q
  {
    if q < |s| && IsIdentChar(s[q]) { IdentEndSpec(s, q + 1); }
  }

  /** Over a run of white space up to the end, `SkipWs` reaches the end. */
  lemma {:induction false} SkipWsToEnd(s: string, p: nat)
    requires p <= |s|
    requires forall k :: p <= k < |s| ==> IsSpace(s[k])
    ensures SkipWs(s, p) == |s|
    decreases |s| - p
  {
    if p < |s| { SkipWsToEnd(s, p + 1); }
  }

  // ---------------------------------------------------------------------------
  // The function-type branch never returns a value
  // ---------------------------------------------------------------------------

  /** A type with no `Function` anywhere inside it. */
  predicate FunctionFree(t: Type) {
    match t
    case Function(_, _) => false
    case Vector(b) => FunctionFree(b)
    case Nullable(b) => FunctionFree(b)
    case List(e) => FunctionFree(e)
    case Union(l, r) => FunctionFree(l) && FunctionFree(r)
    case _ => true
  }

  /** The argument loop only stops in front of an unconsumed `)`. */
  lemma {:induction false} ArgumentLoopStopsAtParen(s: string, p: nat, args: seq<Type>, fuel: nat)
    requires p <= |s|
    ensures var r := ArgumentLoop(s, p, args, fuel); r.Done? ==> r.next < |s| && s[r.next] == ')'
    decreases fuel
  {
    if fuel > 0 {
      var peek := PeekText(s, p, ")");
      if !peek.0 {
        var t := ParseType(s, peek.1, fuel - 1);
        if t.Done? {
          var comma := MatchChar(s, SkipWs(s, t.next), ',');
          ArgumentLoopStopsAtParen(s, comma.1, args + [t.value], fuel - 1);
        }
      }
    }
  }

  /** After the argument list a `)` is next, so `expect("->")` always throws: the
      `(` branch of `parsePrimary` never yields a value. */
  lemma FunctionBranchNeverReturns(s: string, p: nat, fuel: nat)
    requires p <= |s|
    ensures !FunctionBranch(s, p, fuel).Done?
  {
    ArgumentLoopStopsAtParen(s, SkipWs(s, p), [], fuel);
    var args := ParseArgumentList(s, p, fuel);
    if args.Done? {
      assert SkipWs(s, args.next) == args.next;
      assert !HasAt(s, args.next, "->");
    }
  }

  /** `parseType` never produces a function type, at the top or nested. */
  lemma {:induction false} ParseTypeFunctionFree(s: string, p: nat, fuel: nat)
    requires p <= |s|
    ensures var r := ParseType(s, p, fuel); r.Done? ==> FunctionFree(r.value)
    decreases fuel
  {
    if fuel > 0 {
      PrimaryFunctionFree(s, p, fuel - 1);
      var prim := ParsePrimary(s, p, fuel - 1);
      if prim.Done? {
        SuffixFunctionFree(s, prim.next, prim.value, fuel - 1);
      }
    }
  }

  /** The suffix keeps a function-free primary function-free. */
  lemma {:induction false} SuffixFunctionFree(s: string, p: nat, prim: Type, fuel: nat)
    requires p <= |s|
    requires FunctionFree(prim)
    ensures var r := Suffix(s, p, prim, fuel); r.Done? ==> FunctionFree(r.value)
    decreases fuel, 1
  {
    var open := MatchChar(s, MatchChar(s, p, '?').1, '[');
    UnionFunctionFree(s, open.1, prim, fuel);
    UnionFunctionFree(s, MatchChar(s, open.1, ']').1, prim, fuel);
  }

  /** `parsePrimary` never produces a function type. */
  lemma {:induction false} PrimaryFunctionFree(s: string, p: nat, fuel: nat)
    requires p <= |s|
    ensures var r := ParsePrimary(s, p, fuel); r.Done? ==> FunctionFree(r.value)
    decreases fuel
  {
    if fuel > 0 {
      var open := MatchChar(s, SkipWs(s, p), '(');
      if open.0 {
        FunctionBranchNeverReturns(s, open.1, fuel - 1);
      } else {
        var isList := ConsumeText(s, open.1, "list<");
        if isList.0 {
          ParseTypeFunctionFree(s, isList.1, fuel - 1);
        }
      }
    }
  }

  /** `parseUnion` keeps a function-free first member function-free. */
  lemma {:induction false} UnionFunctionFree(s: string, p: nat, first: Type, fuel: nat)
    requires p <= |s|
    requires FunctionFree(first)
    ensures var r := ParseUnion(s, p, first, fuel); r.Done? ==> FunctionFree(r.value)
    decreases fuel, 0
  {
    if fuel > 0 {
      var bar := MatchChar(s, SkipWs(s, p), '|');
      if bar.0 {
        UnionLoopFunctionFree(s, bar.1, first, fuel - 1);
      }
    }
  }

  /** Each round of the union loop adds a function-free right member. */
  lemma {:induction false} UnionLoopFunctionFree(s: string, p: nat, left: Type, fuel: nat)
    requires p <= |s|
    requires FunctionFree(left)
    ensures var r := UnionLoop(s, p, left, fuel); r.Done? ==> FunctionFree(r.value)
    decreases fuel
  {
    if fuel > 0 {
      ParseTypeFunctionFree(s, p, fuel - 1);
      var right := ParseType(s, p, fuel - 1);
      if right.Done? {
        var bar := MatchChar(s, right.next, '|');
        if bar.0 {
          UnionLoopFunctionFree(s, bar.1, Union(left, right.value), fuel - 1);
        }
      }
    }
  }

  /** The value of a successful `parseType` is never a `FunctionType`. */
  lemma ParseTypeNeverFunction(s: string, p: nat, fuel: nat)
    requires p <= |s|
    ensures var r := ParseType(s, p, fuel); r.Done? ==> !r.value.IsFunction()
  {
    ParseTypeFunctionFree(s, p, fuel);
  }

  // ---------------------------------------------------------------------------
  // Divergence of the argument loop
  // ---------------------------------------------------------------------------

  /** A position where `parseType` consumes nothing and the argument loop cannot
      advance: the end of the input, or a character that starts no construct. */
  predicate StuckAt(s: string, q: nat)
    requires q <= |s|
  {
    q == |s|
    || (var c := s[q];
        !IsSpace(c) && !IsIdentChar(c) && c != ')' && c != '(' && c != '?' && c != '[' && c != '|' && c != ',')
  }

  /** At a stuck position `parsePrimary` returns the empty scalar without moving. */
  lemma StuckPrimaryIsEmptyScalar(s: string, q: nat, fuel: nat)
    requires q <= |s| && StuckAt(s, q) && fuel > 0
    ensures ParsePrimary(s, q, fuel) == Done(Scalar(""), q)
  {
    assert SkipWs(s, q) == q;
    assert !HasAt(s, q, "list<");
    assert !HasAt(s, q, "class<");
    assert IdentEnd(s, q) == q;
    assert s[q..q] == "";
  }

  /** At a stuck position `parseType` returns the empty scalar without moving,
      given fuel for itself and `parsePrimary`; with less it runs out. */
  lemma StuckParsesEmptyScalar(s: string, q: nat, fuel: nat)
    requires q <= |s| && StuckAt(s, q)
    ensures fuel >= 2 ==> ParseType(s, q, fuel) == Done(Scalar(""), q)
    ensures ParseType(s, q, fuel) == OutOfFuel || ParseType(s, q, fuel) == Done(Scalar(""), q)
  {
    if fuel > 1 {
      StuckPrimaryIsEmptyScalar(s, q, fuel - 1);
      assert SkipWs(s, q) == q;
      assert ParseUnion(s, q, Scalar(""), fuel - 1) == Done(Scalar(""), q);
      assert Suffix(s, q, Scalar(""), fuel - 1) == Done(Scalar(""), q);
    }
  }

  /** The argument loop never ends once it is stuck: `OutOfFuel` for every fuel. */
  lemma {:induction false} ArgumentLoopDivergesWhenStuck(s: string, p: nat, args: seq<Type>, fuel: nat)
    requires p <= |s| && StuckAt(s, SkipWs(s, p))
    ensures ArgumentLoop(s, p, args, fuel) == OutOfFuel
    decreases fuel
  {
    if fuel > 0 {
      var q := SkipWs(s, p);
      assert !HasAt(s, q, ")");
      StuckParsesEmptyScalar(s, q, fuel - 1);
      if ParseType(s, q, fuel - 1) != OutOfFuel {
        assert SkipWs(s, q) == q;
        assert MatchChar(s, q, ',') == (false, q);
        ArgumentLoopDivergesWhenStuck(s, q, args + [Scalar("")], fuel - 1);
      }
    }
  }

  /** An unterminated `(` followed only by white space never terminates. */
  lemma UnterminatedParenDiverges(s: string, fuel: nat)
    requires |s| > 0 && s[0] == '('
    requires forall k :: 1 <= k < |s| ==> IsSpace(s[k])
    ensures ParseType(s, 0, fuel) == OutOfFuel
  {
    if fuel > 1 {
      assert MatchChar(s, SkipWs(s, 0), '(') == (true, 1);
      SkipWsToEnd(s, 1);
      ArgumentLoopDivergesWhenStuck(s, |s|, [], fuel - 2);
      assert FunctionBranch(s, 1, fuel - 2) == OutOfFuel;
      assert ParsePrimary(s, 0, fuel - 1) == OutOfFuel;
    }
  }

  // ---------------------------------------------------------------------------
  // Fuel: an answer within some fuel is the answer with any more fuel
  // ---------------------------------------------------------------------------

  /** More fuel never changes an answer that `parseType` already gives: so
      `OutOfFuel` at every fuel is a parse that never returns, and any other
      outcome is what `parseType` does. */
  lemma {:induction false} ParseTypeMono(s: string, p: nat, f: nat, g: nat)
    requires p <= |s| && f <= g && !ParseType(s, p, f).OutOfFuel?
    ensures ParseType(s, p, g) == ParseType(s, p, f)
    decreases f, 0
  {
    var prim := ParsePrimary(s, p, f - 1);
    PrimaryMono(s, p, f - 1, g - 1);
    if prim.Done? {
      SuffixMono(s, prim.next, prim.value, f - 1, g - 1);
    }
  }

  /** The suffix of a type answers the same with more fuel. */
  lemma {:induction false} SuffixMono(s: string, p: nat, prim: Type, f: nat, g: nat)
    requires p <= |s| && f <= g && !Suffix(s, p, prim, f).OutOfFuel?
    ensures Suffix(s, p, prim, g) == Suffix(s, p, prim, f)
    decreases f, 1
  {
    var nullable := MatchChar(s, p, '?');
    if !nullable.0 {
      var open := MatchChar(s, nullable.1, '[');
      if !open.0 {
        ParseUnionMono(s, open.1, prim, f, g);
      } else {
        var close := MatchChar(s, open.1, ']');
        if !close.0 {
          ParseUnionMono(s, close.1, prim, f, g);
        }
      }
    }
  }

  /** A primary answers the same with more fuel. */
  lemma {:induction false} PrimaryMono(s: string, p: nat, f: nat, g: nat)
    requires p <= |s| && f <= g && !ParsePrimary(s, p, f).OutOfFuel?
    ensures ParsePrimary(s, p, g) == ParsePrimary(s, p, f)
    decreases f, 0
  {
    var open := MatchChar(s, SkipWs(s, p), '(');
    if open.0 {
      FunctionBranchMono(s, open.1, f - 1, g - 1);
    } else {
      var isList := ConsumeText(s, open.1, "list<");
      if isList.0 {
        ListBranchMono(s, isList.1, f - 1, g - 1);
      }
    }
  }

  /** The `(` branch answers the same with more fuel. */
  lemma {:induction false} FunctionBranchMono(s: string, p: nat, f: nat, g: nat)
    requires p <= |s| && f <= g && !FunctionBranch(s, p, f).OutOfFuel?
    ensures FunctionBranch(s, p, g) == FunctionBranch(s, p, f)
    decreases f, 2
  {
    var args := ParseArgumentList(s, p, f);
    ArgumentListMono(s, p, f, g);
    if args.Done? {
      var arrow := ConsumeText(s, args.next, "->");
      if arrow.0 {
        ParseTypeMono(s, arrow.1, f, g);
      }
    }
  }

  /** The `list<` branch answers the same with more fuel. */
  lemma {:induction false} ListBranchMono(s: string, p: nat, f: nat, g: nat)
    requires p <= |s| && f <= g && !ListBranch(s, p, f).OutOfFuel?
    ensures ListBranch(s, p, g) == ListBranch(s, p, f)
    decreases f, 1
  {
    ParseTypeMono(s, p, f, g);
  }

  /** `parseUnion` answers the same with more fuel. */
  lemma {:induction false} ParseUnionMono(s: string, p: nat, first: Type, f: nat, g: nat)
    requires p <= |s| && f <= g && !ParseUnion(s, p, first, f).OutOfFuel?
    ensures ParseUnion(s, p, first, g) == ParseUnion(s, p, first, f)
    decreases f, 0
  {
    var bar := MatchChar(s, SkipWs(s, p), '|');
    if bar.0 {
      UnionLoopMono(s, bar.1, first, f - 1, g - 1);
    }
  }

  /** The union loop answers the same with more fuel. */
  lemma {:induction false} UnionLoopMono(s: string, p: nat, left: Type, f: nat, g: nat)
    requires p <= |s| && f <= g && !UnionLoop(s, p, left, f).OutOfFuel?
    ensures UnionLoop(s, p, left, g) == UnionLoop(s, p, left, f)
    decreases f, 0
  {
    var right := ParseType(s, p, f - 1);
    ParseTypeMono(s, p, f - 1, g - 1);
    if right.Done? {
      var bar := MatchChar(s, right.next, '|');
      if bar.0 {
        UnionLoopMono(s, bar.1, Union(left, right.value), f - 1, g - 1);
      }
    }
  }

  /** `parseArgumentList` answers the same with more fuel. */
  lemma {:induction false} ArgumentListMono(s: string, p: nat, f: nat, g: nat)
    requires p <= |s| && f <= g && !ParseArgumentList(s, p, f).OutOfFuel?
    ensures ParseArgumentList(s, p, g) == ParseArgumentList(s, p, f)
    decreases f, 1
  {
    ArgumentLoopMono(s, SkipWs(s, p), [], f, g);
  }

  /** The argument loop answers the same with more fuel. */
  lemma {:induction false} ArgumentLoopMono(s: string, p: nat, args: seq<Type>, f: nat, g: nat)
    requires p <= |s| && f <= g && !ArgumentLoop(s, p, args, f).OutOfFuel?
    ensures ArgumentLoop(s, p, args, g) == ArgumentLoop(s, p, args, f)
    decreases f, 0
  {
    var closing := PeekText(s, p, ")");
    if !closing.0 {
      var t := ParseType(s, closing.1, f - 1);
      ParseTypeMono(s, closing.1, f - 1, g - 1);
      if t.Done? {
        var comma := MatchChar(s, SkipWs(s, t.next), ',');
        ArgumentLoopMono(s, comma.1, args + [t.value], f - 1, g - 1);
      }
    }
  }
}
