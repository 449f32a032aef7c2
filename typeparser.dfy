/** `TypeParser` of `typelang.cpp` as the class it is: the input and a cursor
    `pos` that `skipWhitespace`, `match`, `consume` and the parsing routines
    advance. Each method is proved to compute what the function of the same
    name in `TypeGrammar` describes; a thrown `runtime_error` is the `Threw`
    outcome, and the fuel parameter bounds the recursion as it does there. */
module TypeParsing {
  import opened Strings
  import opened TypeLang
  import opened TypeGrammar

  class TypeParser {
    const input: string
    var pos: nat

    /** The cursor never passes the end of the input. */
    ghost predicate Valid()
      reads this
    {
      pos <= |input|
    }

    /** `TypeParser(input)`: the cursor starts at the beginning. */
    constructor (input: string)
      ensures this.input == input && pos == 0 && Valid()
    {
      this.input := input;
      pos := 0;
    }

    /** `skipWhitespace`: moves over white space. */
    method SkipWhitespace()
      requires Valid()
      modifies this`pos
      ensures Valid() && pos == SkipWs(input, old(pos))
    {
      while pos < |input| && IsSpace(input[pos])
        invariant old(pos) <= pos <= |input|
        invariant SkipWs(input, pos) == SkipWs(input, old(pos))
        decreases |input| - pos
      {
        pos := pos + 1;
      }
    }

    /** `match(c)`. */
    method Match(c: char) returns (matched: bool)
      requires Valid()
      modifies this`pos
      ensures Valid() && (matched, pos) == MatchChar(input, old(pos), c)
    {
      SkipWhitespace();
      matched := pos < |input| && input[pos] == c;
      if matched {
        pos := pos + 1;
      }
    }

    /** Whether `input.substr(pos, |lit|) == lit`; the substring is cut short at
        the end of the input. */
    method LiteralAhead(lit: string) returns (found: bool)
      requires Valid()
      ensures found == HasAt(input, pos, lit)
    {
      HasAtSlice(input, pos, lit);
      found := pos + |lit| <= |input| && input[pos..pos + |lit|] == lit;
    }

    /** `consume(lit)`. */
    method Consume(lit: string) returns (consumed: bool)
      requires Valid()
      modifies this`pos
      ensures Valid() && (consumed, pos) == ConsumeText(input, old(pos), lit)
    {
      SkipWhitespace();
      consumed := LiteralAhead(lit);
      if consumed {
        HasAtBound(input, pos, lit);
        pos := pos + |lit|;
      }
    }

    /** `peek(lit)`: skips white space but consumes nothing else. */
    method Peek(lit: string) returns (ahead: bool)
      requires Valid()
      modifies this`pos
      ensures Valid() && (ahead, pos) == PeekText(input, old(pos), lit)
    {
      SkipWhitespace();
      ahead := LiteralAhead(lit);
    }

    /** `parseIdentifier`: the maximal run of letters, digits and `_`. */
    method ParseIdentifier() returns (name: string)
      requires Valid()
      modifies this`pos
      ensures Valid() && (name, pos) == TypeGrammar.ParseIdentifier(input, old(pos))
    {
      SkipWhitespace();
      var start := pos;
      while pos < |input| && IsIdentChar(input[pos])
        invariant start <= pos <= |input|
        invariant IdentEnd(input, pos) == IdentEnd(input, start)
        decreases |input| - pos
      {
        pos := pos + 1;
      }
      name := input[start..pos];
    }

    /** `parseType`: a primary, then `?`, or `[` `]`, or the union tail. */
    method ParseType(fuel: nat) returns (r: Parsed<Type>)
      requires Valid()
      modifies this`pos
      ensures Valid() && r == TypeGrammar.ParseType(input, old(pos), fuel)
      ensures r.Done? ==> pos == r.next
      decreases fuel, 0
    {
      if fuel == 0 {
        return OutOfFuel;
      }
      var left := ParsePrimary(fuel - 1);
      if !left.Done? {
        return Propagate(left);
      }
      var nullable := Match('?');
      if nullable {
        return Done(Nullable(left.value), pos);
      }
      var open := Match('[');
      if open {
        var close := Match(']');
        if close {
          return Done(Vector(left.value), pos);
        }
      }
      r := ParseUnion(left.value, fuel - 1);
    }

    /** `parsePrimary`: a function type, `list<T>`, `class<id>` or an identifier. */
    method ParsePrimary(fuel: nat) returns (r: Parsed<Type>)
      requires Valid()
      modifies this`pos
      ensures Valid() && r == TypeGrammar.ParsePrimary(input, old(pos), fuel)
      ensures r.Done? ==> pos == r.next
      decreases fuel, 0
    {
      if fuel == 0 {
        return OutOfFuel;
      }
      SkipWhitespace();
      var open := Match('(');
      if open {
        var args := ParseArgumentList(fuel - 1);
        if !args.Done? {
          return Propagate(args);
        }
        var arrow := Consume("->");
        if !arrow {
          return Threw(ExpectedText("->", pos));
        }
        var ret := ParseType(fuel - 1);
        if !ret.Done? {
          return ret;
        }
        var close := Match(')');
        if !close {
          return Threw(ExpectedChar(')', pos));
        }
        return Done(Function(args.value, ret.value), pos);
      }
      var isList := Consume("list<");
      if isList {
        var inner := ParseType(fuel - 1);
        if !inner.Done? {
          return inner;
        }
        var close := Match('>');
        if !close {
          return Threw(ExpectedChar('>', pos));
        }
        return Done(List(inner.value), pos);
      }
      var isClass := Consume("class<");
      if isClass {
        var name := ParseIdentifier();
        var close := Match('>');
        if !close {
          return Threw(ExpectedChar('>', pos));
        }
        return Done(Class([name]), pos);
      }
      var name := ParseIdentifier();
      return Done(Scalar(name), pos);
    }

    /** `parseUnion`: `first` alone without a `|` ahead, otherwise the
        `do … while (match('|'))` loop, which nests to the left. */
    method ParseUnion(first: Type, fuel: nat) returns (r: Parsed<Type>)
      requires Valid()
      modifies this`pos
      ensures Valid() && r == TypeGrammar.ParseUnion(input, old(pos), first, fuel)
      ensures r.Done? ==> pos == r.next
      decreases fuel, 1
    {
      if fuel == 0 {
        return OutOfFuel;
      }
      SkipWhitespace();
      var bar := Match('|');
      if !bar {
        return Done(first, pos);
      }
      var left := first;
      var f: nat := fuel - 1;
      while true
        invariant Valid() && f < fuel
        invariant UnionLoop(input, pos, left, f) == TypeGrammar.ParseUnion(input, old(pos), first, fuel)
        decreases f
      {
        if f == 0 {
          return OutOfFuel;
        }
        var more;
        r, more := UnionRound(left, f);
        if !more {
          return;
        }
        left := r.value;
        f := f - 1;
      }
    }

    /** One round of the `do … while (match('|'))` loop: the type after the
        bar joins the union, and `more` says whether another bar follows. */
    method UnionRound(left: Type, fuel: nat) returns (r: Parsed<Type>, more: bool)
      requires Valid() && fuel > 0
      modifies this`pos
      ensures Valid()
      ensures more ==> r.Done? && UnionLoop(input, pos, r.value, fuel - 1) == UnionLoop(input, old(pos), left, fuel)
      ensures !more ==> r == UnionLoop(input, old(pos), left, fuel) && (r.Done? ==> pos == r.next)
      decreases fuel, 0
    {
      var right := ParseType(fuel - 1);
      UnionLoopRound(input, old(pos), left, fuel, right);
      if !right.Done? {
        return right, false;
      }
      var union := Union(left, right.value);
      more := Match('|');
      r := Done(union, pos);
    }

    /** `parseArgumentList`: until `)` is ahead, which it leaves unconsumed,
        parse a type, skip white space and take an optional `,`. */
    method ParseArgumentList(fuel: nat) returns (r: Parsed<seq<Type>>)
      requires Valid()
      modifies this`pos
      ensures Valid() && r == TypeGrammar.ParseArgumentList(input, old(pos), fuel)
      ensures r.Done? ==> pos == r.next
      decreases fuel, 1
    {
      var args: seq<Type> := [];
      SkipWhitespace();
      var f: nat := fuel;
      while true
        invariant Valid() && f <= fuel
        invariant ArgumentLoop(input, pos, args, f) == TypeGrammar.ParseArgumentList(input, old(pos), fuel)
        decreases f
      {
        if f == 0 {
          return OutOfFuel;
        }
        var closing := Peek(")");
        if closing {
          return Done(args, pos);
        }
        var t := ParseType(f - 1);
        if !t.Done? {
          return Propagate(t);
        }
        args := args + [t.value];
        SkipWhitespace();
        var _ := Match(',');
        f := f - 1;
      }
    }
  }

  /** One round of the union loop: the type after the bar, then either another
      bar or the end of the union. */
  lemma UnionLoopRound(s: string, p: nat, left: Type, fuel: nat, right: Parsed<Type>)
    requires p <= |s| && fuel > 0 && right == ParseType(s, p, fuel - 1)
    ensures !right.Done? ==> UnionLoop(s, p, left, fuel) == right
    ensures right.Done? ==>
      (var bar := MatchChar(s, right.next, '|');
       UnionLoop(s, p, left, fuel) ==
         if bar.0 then UnionLoop(s, bar.1, Union(left, right.value), fuel - 1)
         else Done(Union(left, right.value), bar.1))
  {
  }
}
