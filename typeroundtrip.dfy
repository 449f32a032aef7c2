/** Rendering followed by parsing: for the types whose renderings `TypeParser`
    reads back, parsing `toString` of a type gives that type and consumes exactly
    its rendering. */
module TypeRoundTrip {
  import opened Strings
  import opened TypeLang
  import opened TypeGrammar

  // ---------------------------------------------------------------------------
  // Literals inside the input
  // ---------------------------------------------------------------------------

  /** A literal made of two parts occurs where its first part does and its second
      part follows. */
  lemma {:induction false} HasAtConcat(s: string, p: nat, a: string, b: string)
    ensures HasAt(s, p, a + b) <==> HasAt(s, p, a) && HasAt(s, p + |a|, b)
    decreases |a|
  {
    if |a| > 0 {
      assert (a + b)[0] == a[0];
      assert (a + b)[1..] == a[1..] + b;
      HasAtConcat(s, p + 1, a[1..], b);
    } else {
      assert a + b == b;
    }
  }

  /** Every character of an occurring literal is in the input. */
  lemma {:induction false} HasAtChar(s: string, p: nat, lit: string, k: nat)
    requires HasAt(s, p, lit) && k < |lit|
    ensures p + k < |s| && s[p + k] == lit[k]
    decreases k
  {
    if k > 0 {
      HasAtChar(s, p + 1, lit[1..], k - 1);
    }
  }

  /** An input occurs in itself at the start. */
  lemma WholeInput(s: string)
    ensures HasAt(s, 0, s)
  {
    HasAtSlice(s, 0, s);
    assert s[0..|s|] == s;
  }

  // ---------------------------------------------------------------------------
  // The readable types
  // ---------------------------------------------------------------------------

  /** A possibly empty run of identifier characters. */
  predicate IsName(n: string) {
    forall k :: 0 <= k < |n| ==> IsIdentChar(n[k])
  }

  /** The primaries `parsePrimary` reads back: a non-empty identifier, a list of a
      readable type, or a class with exactly one identifier. */
  predicate IsPrimary(t: Type)
    decreases t, 0
  {
    match t
    case Scalar(n) => |n| > 0 && IsName(n)
    case List(e) => IsReadable(e)
    case Class(ids) => |ids| == 1 && IsName(ids[0])
    case _ => false
  }

  /** The types `parseType` reads back: a primary, a nullable or vector primary,
      or a union whose left member is a primary. A union nested on the left is
      not readable, because `parseUnion` nests to the right. */
  predicate IsReadable(t: Type)
    decreases t, 1
  {
    IsPrimary(t)
    || (t.Nullable? && IsPrimary(t.baseType))
    || (t.Vector? && IsPrimary(t.baseType))
    || (t.Union? && IsPrimary(t.leftType) && IsReadable(t.rightType))
  }

  /** The number of constructors, which bounds the fuel a parse needs. */
  function Size(t: Type): (n: nat)
    ensures n >= 1
  {
    match t
    case Vector(b) => 1 + Size(b)
    case Nullable(b) => 1 + Size(b)
    case List(e) => 1 + Size(e)
    case Union(l, r) => 1 + Size(l) + Size(r)
    case _ => 1
  }

  /** What may follow a primary without changing how it reads: the end of the
      input or a character that neither extends an identifier nor opens `<`. */
  predicate PrimaryFollow(s: string, e: nat)
    requires e <= |s|
  {
    e == |s| || (!IsIdentChar(s[e]) && s[e] != '<')
  }

  /** What may follow a whole type: the end of the input or a character that is
      no white space, no identifier character and none of `<`, `?`, `[`, `|`
      (such as `>`, `,` or `)`). */
  predicate TypeFollow(s: string, e: nat)
    requires e <= |s|
  {
    e == |s|
    || (var c := s[e];
        !IsSpace(c) && !IsIdentChar(c) && c != '<' && c != '?' && c != '[' && c != '|')
  }

  // ---------------------------------------------------------------------------
  // Scanning over a rendered name
  // ---------------------------------------------------------------------------

  /** `IdentEnd` stops exactly at the end of an occurring name that is followed by
      a non-identifier character. */
  lemma {:induction false} IdentEndOverName(s: string, p: nat, n: string)
    requires p <= |s| && HasAt(s, p, n) && IsName(n)
    requires p + |n| < |s| ==> !IsIdentChar(s[p + |n|])
    ensures p + |n| <= |s| && IdentEnd(s, p) == p + |n|
    decreases |n|
  {
    HasAtBound(s, p, n);
    if |n| > 0 {
      assert IsName(n[1..]) by {
        forall k | 0 <= k < |n[1..]| ensures IsIdentChar(n[1..][k]) {
          assert n[1..][k] == n[k + 1];
        }
      }
      IdentEndOverName(s, p + 1, n[1..]);
    }
  }

  /** `parseIdentifier` at an occurring name reads exactly that name. */
  lemma ReadName(s: string, p: nat, n: string)
    requires p <= |s| && HasAt(s, p, n) && IsName(n)
    requires p + |n| < |s| ==> !IsIdentChar(s[p + |n|])
    requires |n| == 0 && p < |s| ==> !IsSpace(s[p])
    ensures p + |n| <= |s| && ParseIdentifier(s, p) == (n, p + |n|)
  {
    HasAtBound(s, p, n);
    if |n| > 0 {
      HasAtChar(s, p, n, 0);
    }
    assert SkipWs(s, p) == p;
    IdentEndOverName(s, p, n);
    HasAtSlice(s, p, n);
  }

  /** A keyword such as `list<` — a name followed by `<` — does not occur where a
      name occurs that is followed by something other than `<`. */
  lemma KeywordNotAtName(s: string, p: nat, n: string, kw: string)
    requires p <= |s| && HasAt(s, p, n) && IsName(n)
    requires |kw| > 0 && kw[|kw| - 1] == '<' && IsName(kw[..|kw| - 1])
    requires p + |n| <= |s| ==> PrimaryFollow(s, p + |n|)
    ensures !HasAt(s, p, kw)
  {
    HasAtBound(s, p, n);
    if HasAt(s, p, kw) {
      var m := |kw| - 1;
      HasAtChar(s, p, kw, m);
      if m < |n| {
        HasAtChar(s, p, n, m);
      } else if m > |n| {
        HasAtChar(s, p, kw, |n|);
      }
    }
  }

  // ---------------------------------------------------------------------------
  // One step of the parser at a time
  // ---------------------------------------------------------------------------

  /** `match(c)` at a non-space character: it succeeds exactly when that
      character is `c`, and then moves one past it. */
  lemma MatchAt(s: string, q: nat, c: char)
    requires q < |s| && !IsSpace(s[q])
    ensures MatchChar(s, q, c) == if s[q] == c then (true, q + 1) else (false, q)
  {
  }

  /** `match(c)` at the end of the input fails without moving. */
  lemma MatchAtEnd(s: string, c: char)
    ensures MatchChar(s, |s|, c) == (false, |s|)
  {
  }

  /** `parsePrimary` at a character that is neither white space nor `(`: the
      keyword branches, else a plain identifier. */
  lemma PrimaryAt(s: string, p: nat, fuel: nat)
    requires p < |s| && !IsSpace(s[p]) && s[p] != '(' && fuel > 0
    ensures ParsePrimary(s, p, fuel) ==
      if HasAt(s, p, "list<") then ListBranch(s, p + 5, fuel - 1)
      else if HasAt(s, p, "class<") then ClassBranch(s, p + 6)
      else Done(Scalar(ParseIdentifier(s, p).0), ParseIdentifier(s, p).1)
  {
    assert SkipWs(s, p) == p;
    MatchAt(s, p, '(');
    if HasAt(s, p, "list<") {
      HasAtBound(s, p, "list<");
    } else if HasAt(s, p, "class<") {
      HasAtBound(s, p, "class<");
    }
  }

  /** At `list<`, `parsePrimary` takes the list branch after the keyword. */
  lemma PrimaryAtList(s: string, p: nat, fuel: nat, q: nat, f1: nat)
    requires p <= |s| && fuel > 0 && f1 == fuel - 1 && q == p + 5
    requires HasAt(s, p, "list<")
    ensures ParsePrimary(s, p, fuel) == ListBranch(s, q, f1)
  {
    HasAtChar(s, p, "list<", 0);
    PrimaryAt(s, p, fuel);
  }

  /** `parseType` is its primary followed by the suffix. */
  lemma TypeIsPrimaryThenSuffix(s: string, p: nat, fuel: nat, f1: nat, prim: Type, q: nat)
    requires p <= |s| && fuel > 0 && f1 == fuel - 1 && ParsePrimary(s, p, f1) == Done(prim, q)
    ensures q <= |s| && ParseType(s, p, fuel) == Suffix(s, q, prim, f1)
  {
  }

  /** Before a character that does not continue a type, the suffix adds
      nothing. */
  lemma SuffixAtFollow(s: string, q: nat, prim: Type, fuel: nat)
    requires q <= |s| && TypeFollow(s, q) && fuel > 0
    ensures Suffix(s, q, prim, fuel) == Done(prim, q)
  {
    if q < |s| {
      MatchAt(s, q, '?');
      MatchAt(s, q, '[');
      MatchAt(s, q, '|');
      assert SkipWs(s, q) == q;
    } else {
      MatchAtEnd(s, '?');
      MatchAtEnd(s, '[');
      MatchAtEnd(s, '|');
    }
  }

  /** Before `?` the suffix makes a nullable type. */
  lemma SuffixAtQuestion(s: string, q: nat, prim: Type, fuel: nat)
    requires q < |s| && s[q] == '?'
    ensures Suffix(s, q, prim, fuel) == Done(Nullable(prim), q + 1)
  {
    MatchAt(s, q, '?');
  }

  /** Before `[]` the suffix makes a vector type. */
  lemma SuffixAtBrackets(s: string, q: nat, prim: Type, fuel: nat)
    requires q + 1 < |s| && s[q] == '[' && s[q + 1] == ']'
    ensures Suffix(s, q, prim, fuel) == Done(Vector(prim), q + 2)
  {
    MatchAt(s, q, '?');
    MatchAt(s, q, '[');
    MatchAt(s, q + 1, ']');
  }

  /** Before ` | ` the suffix enters the union loop after the bar. */
  lemma SuffixAtBar(s: string, q: nat, prim: Type, fuel: nat, q2: nat, loopFuel: nat)
    requires q + 1 < |s| && s[q] == ' ' && s[q + 1] == '|' && fuel > 0
    requires q2 == q + 2 && loopFuel == fuel - 1
    ensures Suffix(s, q, prim, fuel) == UnionLoop(s, q2, prim, loopFuel)
  {
    assert SkipWs(s, q) == q + 1 by {
      assert SkipWs(s, q + 1) == q + 1;
    }
    MatchAt(s, q + 1, '?');
    MatchAt(s, q + 1, '[');
    MatchAt(s, q + 1, '|');
    SkipWsIdempotent(s, q);
  }

  /** A union loop whose right member ends before a character that does not
      continue a type stops there with the two-member union. */
  lemma UnionLoopLast(s: string, q: nat, left: Type, fuel: nat, inner: nat, right: Type, e: nat)
    requires q <= |s| && fuel > 0 && inner == fuel - 1
    requires ParseType(s, q, inner) == Done(right, e)
    requires e <= |s| && TypeFollow(s, e)
    ensures UnionLoop(s, q, left, fuel) == Done(Union(left, right), e)
  {
    if e < |s| {
      MatchAt(s, e, '|');
    } else {
      MatchAtEnd(s, '|');
    }
  }

  /** The `list<` branch closes at a `>` right after its element type. */
  lemma ListBranchCloses(s: string, q: nat, fuel: nat, elem: Type, e: nat)
    requires q <= |s| && ParseType(s, q, fuel) == Done(elem, e)
    requires e < |s| && s[e] == '>'
    ensures ListBranch(s, q, fuel) == Done(List(elem), e + 1)
  {
    MatchAt(s, e, '>');
  }

  /** The `class<` branch reads one name and its closing `>`. */
  lemma ClassBranchCloses(s: string, q: nat, id: string)
    requires q + |id| < |s| && HasAt(s, q, id) && IsName(id) && s[q + |id|] == '>'
    ensures ClassBranch(s, q) == Done(Class([id]), q + |id| + 1)
  {
    ReadName(s, q, id);
    MatchAt(s, q + |id|, '>');
  }

  /** Both outcomes of the `class<` branch: after the white space it reads the
      run of identifier characters as the one class id, and the branch succeeds
      exactly when the next non-space character is `>`; otherwise it throws
      `expected '>'` at that character. */
  lemma ClassBranchOutcomes(s: string, q: nat)
    requires q <= |s|
    ensures var a := SkipWs(s, q); var e := IdentEnd(s, a); var c := SkipWs(s, e);
      && (c < |s| && s[c] == '>' <==> ClassBranch(s, q).Done?)
      && (c < |s| && s[c] == '>' ==> ClassBranch(s, q) == Done(Class([s[a..e]]), c + 1))
      && (!(c < |s| && s[c] == '>') ==> ClassBranch(s, q) == Threw(ExpectedChar('>', c)))
  {
  }

  /** A second class id is refused: `class<a, b>` throws at the comma. */
  lemma SecondClassIdThrows(fuel: nat)
    requires fuel >= 2
    ensures ParseType("class<a, b>", 0, fuel) == Threw(ExpectedChar('>', 7))
  {
    var s := "class<a, b>";
    assert SkipWs(s, 0) == 0;
    assert !HasAt(s, 0, "list<");
    assert HasAt(s, 0, "class<");
    assert SkipWs(s, 6) == 6;
    assert IdentEnd(s, 7) == 7;
    assert IdentEnd(s, 6) == 7;
    assert SkipWs(s, 7) == 7;
  }

  // ---------------------------------------------------------------------------
  // Reading back a rendering
  // ---------------------------------------------------------------------------

  /** `parseType` starts by skipping white space, so it reads the same from any
      point inside a run of white space. */
  lemma ParseTypeAfterSpace(s: string, p: nat, fuel: nat)
    requires p <= |s|
    ensures ParseType(s, p, fuel) == ParseType(s, SkipWs(s, p), fuel)
  {
    SkipWsIdempotent(s, p);
  }

  /** A non-empty name rendered at `p` is read back as a scalar. */
  lemma ReadScalar(s: string, p: nat, n: string, fuel: nat)
    requires |n| > 0 && IsName(n) && fuel > 0
    requires p + |n| <= |s| && HasAt(s, p, n)
    requires PrimaryFollow(s, p + |n|)
    ensures ParsePrimary(s, p, fuel) == Done(Scalar(n), p + |n|)
  {
    HasAtChar(s, p, n, 0);
    PrimaryAt(s, p, fuel);
    KeywordNotAtName(s, p, n, "list<");
    KeywordNotAtName(s, p, n, "class<");
    ReadName(s, p, n);
  }

  /** `list<` + a rendered element + `>` is read back as a list, given that the
      element itself is read back. */
  lemma ReadList(s: string, p: nat, elem: Type, fuel: nat, q: nat, f1: nat, e: nat)
    requires fuel > 0 && f1 == fuel - 1 && q == p + 5 && e == q + |ToString(elem)|
    requires p + |ToString(List(elem))| <= |s| && HasAt(s, p, ToString(List(elem)))
    requires ParseType(s, q, f1) == Done(elem, e)
    ensures ParsePrimary(s, p, fuel) == Done(List(elem), p + |ToString(List(elem))|)
  {
    var inner := ToString(elem);
    assert ToString(List(elem)) == "list<" + (inner + ">");
    HasAtConcat(s, p, "list<", inner + ">");
    HasAtConcat(s, q, inner, ">");
    HasAtChar(s, e, ">", 0);
    assert e < |s| && s[e] == '>';
    ListBranchCloses(s, q, f1, elem, e);
    PrimaryAtList(s, p, fuel, q, f1);
    assert e + 1 == p + |ToString(List(elem))|;
  }

  /** `class<` + one name + `>` is read back as a one-name class. */
  lemma ReadClass(s: string, p: nat, id: string, fuel: nat)
    requires IsName(id) && fuel > 0
    requires p + |ToString(Class([id]))| <= |s| && HasAt(s, p, ToString(Class([id])))
    ensures ParsePrimary(s, p, fuel) == Done(Class([id]), p + |ToString(Class([id]))|)
  {
    assert Join([id], ", ") == id;
    assert ToString(Class([id])) == "class<" + (id + ">");
    HasAtConcat(s, p, "class<", id + ">");
    HasAtConcat(s, p + 6, id, ">");
    HasAtChar(s, p, "class<", 0);
    HasAtChar(s, p + 6 + |id|, ">", 0);
    assert !HasAt(s, p, "list<");
    PrimaryAt(s, p, fuel);
    ClassBranchCloses(s, p + 6, id);
  }

  /** A readable primary rendered at `p` is read back by `parsePrimary`, which
      stops right after it. */
  lemma {:induction false} ReadPrimary(s: string, p: nat, t: Type, fuel: nat)
    requires IsPrimary(t) && fuel >= 3 * Size(t) + 1
    requires p + |ToString(t)| <= |s| && HasAt(s, p, ToString(t))
    requires PrimaryFollow(s, p + |ToString(t)|)
    ensures ParsePrimary(s, p, fuel) == Done(t, p + |ToString(t)|)
    decreases t, 0
  {
    match t
    case Scalar(n) =>
      ReadScalar(s, p, n, fuel);
    case List(e) =>
      var inner := ToString(e);
      var q, f1 := p + 5, fuel - 1;
      var end := q + |inner|;
      assert ToString(t) == "list<" + (inner + ">");
      HasAtConcat(s, p, "list<", inner + ">");
      HasAtConcat(s, q, inner, ">");
      HasAtChar(s, end, ">", 0);
      ReadType(s, q, e, f1);
      ReadList(s, p, e, fuel, q, f1, end);
    case Class(ids) =>
      assert ids == [ids[0]];
      ReadClass(s, p, ids[0], fuel);
  }

  /** A primary followed by `?` is read back as a nullable type. */
  lemma ReadNullable(s: string, p: nat, b: Type, fuel: nat, q: nat, f1: nat)
    requires fuel > 0 && f1 == fuel - 1 && q == p + |ToString(b)|
    requires p + |ToString(Nullable(b))| <= |s| && HasAt(s, p, ToString(Nullable(b)))
    requires ParsePrimary(s, p, f1) == Done(b, q)
    ensures ParseType(s, p, fuel) == Done(Nullable(b), p + |ToString(Nullable(b))|)
  {
    var r := ToString(b);
    assert ToString(Nullable(b)) == r + "?";
    HasAtConcat(s, p, r, "?");
    HasAtChar(s, q, "?", 0);
    assert q < |s| && s[q] == '?';
    TypeIsPrimaryThenSuffix(s, p, fuel, f1, b, q);
    SuffixAtQuestion(s, q, b, f1);
    assert q + 1 == p + |ToString(Nullable(b))|;
  }

  /** A primary followed by `[]` is read back as a vector type. */
  lemma ReadVector(s: string, p: nat, b: Type, fuel: nat, q: nat, f1: nat)
    requires fuel > 0 && f1 == fuel - 1 && q == p + |ToString(b)|
    requires p + |ToString(Vector(b))| <= |s| && HasAt(s, p, ToString(Vector(b)))
    requires ParsePrimary(s, p, f1) == Done(b, q)
    ensures ParseType(s, p, fuel) == Done(Vector(b), p + |ToString(Vector(b))|)
  {
    var r := ToString(b);
    assert ToString(Vector(b)) == r + "[]";
    HasAtConcat(s, p, r, "[]");
    HasAtChar(s, q, "[]", 0);
    HasAtChar(s, q, "[]", 1);
    assert q + 1 < |s| && s[q] == '[' && s[q + 1] == ']';
    TypeIsPrimaryThenSuffix(s, p, fuel, f1, b, q);
    SuffixAtBrackets(s, q, b, f1);
    assert q + 2 == p + |ToString(Vector(b))|;
  }

  /** One white-space character in front of a type changes nothing for
      `parseType`. */
  lemma TypeAfterOneSpace(s: string, q: nat, fuel: nat, q1: nat)
    requires q < |s| && IsSpace(s[q]) && q1 == q + 1
    ensures ParseType(s, q, fuel) == ParseType(s, q1, fuel)
  {
    assert SkipWs(s, q) == SkipWs(s, q1);
    ParseTypeAfterSpace(s, q, fuel);
    ParseTypeAfterSpace(s, q1, fuel);
  }

  /** The characters of an occurring ` | `, and what occurs after it. */
  lemma BarAt(s: string, q: nat, rest: string)
    requires HasAt(s, q, " | " + rest)
    ensures q + 3 <= |s| && s[q] == ' ' && s[q + 1] == '|' && s[q + 2] == ' '
    ensures HasAt(s, q + 3, rest)
  {
    HasAtConcat(s, q, " | ", rest);
    HasAtChar(s, q, " | ", 0);
    HasAtChar(s, q, " | ", 1);
    HasAtChar(s, q, " | ", 2);
  }

  /** A primary, ` | ` and a type that ends before a character that does not
      continue a type are read back as a union. */
  lemma ReadUnion(s: string, p: nat, q: nat, l: Type, r: Type, fuel: nat, e: nat, q3: nat, f1: nat, f3: nat)
    requires fuel > 2 && f1 == fuel - 1 && f3 == fuel - 3
    requires p <= q && q3 == q + 3 && q3 <= e <= |s|
    requires s[q] == ' ' && s[q + 1] == '|' && s[q + 2] == ' '
    requires TypeFollow(s, e)
    requires ParsePrimary(s, p, f1) == Done(l, q)
    requires ParseType(s, q3, f3) == Done(r, e)
    ensures ParseType(s, p, fuel) == Done(Union(l, r), e)
  {
    var f2 := fuel - 2;
    var q2 := q + 2;
    TypeIsPrimaryThenSuffix(s, p, fuel, f1, l, q);
    SuffixAtBar(s, q, l, f1, q2, f2);
    TypeAfterOneSpace(s, q2, f3, q3);
    UnionLoopLast(s, q2, l, f2, f3, r, e);
  }

  /** Rendering then parsing is the identity on readable types: `parseType`
      applied where the rendering of `t` starts returns `t` and stops right
      after the rendering, provided the input goes on with something that does
      not continue a type. */
  lemma {:induction false} ReadType(s: string, p: nat, t: Type, fuel: nat)
    requires IsReadable(t) && fuel >= 3 * Size(t) + 2
    requires p + |ToString(t)| <= |s| && HasAt(s, p, ToString(t))
    requires TypeFollow(s, p + |ToString(t)|)
    ensures ParseType(s, p, fuel) == Done(t, p + |ToString(t)|)
    decreases t, 1
  {
    var e := p + |ToString(t)|;
    if IsPrimary(t) {
      var f1 := fuel - 1;
      ReadPrimary(s, p, t, f1);
      TypeIsPrimaryThenSuffix(s, p, fuel, f1, t, e);
      SuffixAtFollow(s, e, t, f1);
    } else if t.Union? {
      var ls, rs := ToString(t.leftType), ToString(t.rightType);
      assert ToString(t) == ls + (" | " + rs);
      assert e == p + |ls| + 3 + |rs|;
      HasAtConcat(s, p, ls, " | " + rs);
      ReadUnionType(s, p, t.leftType, t.rightType, fuel, e);
    } else {
      ReadSuffixed(s, p, t, fuel);
    }
  }

  /** `ReadType` for a nullable or a vector primary. */
  lemma {:induction false} ReadSuffixed(s: string, p: nat, t: Type, fuel: nat)
    requires (t.Nullable? || t.Vector?) && IsPrimary(t.baseType) && fuel >= 3 * Size(t) + 2
    requires p + |ToString(t)| <= |s| && HasAt(s, p, ToString(t))
    ensures ParseType(s, p, fuel) == Done(t, p + |ToString(t)|)
    decreases t, 0
  {
    var b := ToString(t.baseType);
    var q, f1 := p + |b|, fuel - 1;
    var suffix := if t.Nullable? then "?" else "[]";
    assert ToString(t) == b + suffix;
    HasAtConcat(s, p, b, suffix);
    HasAtChar(s, q, suffix, 0);
    assert PrimaryFollow(s, q);
    ReadPrimary(s, p, t.baseType, f1);
    if t.Nullable? {
      ReadNullable(s, p, t.baseType, fuel, q, f1);
    } else {
      ReadVector(s, p, t.baseType, fuel, q, f1);
    }
  }

  /** `ReadType` for a union: its left member is a primary, its right member is
      read by `parseType` itself. */
  lemma {:induction false} ReadUnionType(s: string, p: nat, l: Type, r: Type, fuel: nat, e: nat)
    requires IsPrimary(l) && IsReadable(r)
    requires fuel >= 3 * Size(l) + 3 * Size(r) + 5
    requires e == p + |ToString(l)| + 3 + |ToString(r)| && e <= |s|
    requires HasAt(s, p, ToString(l)) && HasAt(s, p + |ToString(l)|, " | " + ToString(r))
    requires TypeFollow(s, e)
    ensures ParseType(s, p, fuel) == Done(Union(l, r), e)
    decreases Union(l, r), 0
  {
    var p1 := p + |ToString(l)|;
    var q3 := p1 + 3;
    var f1, f3 := fuel - 1, fuel - 3;
    assert e == q3 + |ToString(r)|;
    assert f1 >= 3 * Size(l) + 1 && f3 >= 3 * Size(r) + 2;
    BarAt(s, p1, ToString(r));
    assert PrimaryFollow(s, p1);
    ReadPrimary(s, p, l, f1);
    ReadType(s, q3, r, f3);
    ReadUnion(s, p, p1, l, r, fuel, e, q3, f1, f3);
  }

  /** Parsing the whole rendering of a readable type gives the type back and
      consumes all of it. */
  lemma RoundTrip(t: Type, fuel: nat)
    requires IsReadable(t) && fuel >= 3 * Size(t) + 2
    ensures ParseType(ToString(t), 0, fuel) == Done(t, |ToString(t)|)
  {
    WholeInput(ToString(t));
    ReadType(ToString(t), 0, t, fuel);
  }

  /** `"integer | character"` parses to the union of the two scalars, and that
      union renders as the same text. */
  lemma IntegerOrCharacter(fuel: nat)
    requires fuel >= 11
    ensures ParseType("integer | character", 0, fuel) == Done(Union(Scalar("integer"), Scalar("character")), 19)
    ensures ToString(Union(Scalar("integer"), Scalar("character"))) == "integer | character"
  {
    var t := Union(Scalar("integer"), Scalar("character"));
    assert ToString(t) == "integer | character";
    assert IsReadable(t);
    RoundTrip(t, fuel);
  }
}
