/** `gensource.cpp`: the statement segmenter that cuts the token texts of an R
    source into top-level statements, the renderer that turns each statement
    back into a line of R, and the generator of the R guard that checks an
    argument's type. A token is given by its text. */
module SourceGen {
  import opened Strings

  /** `StatementRange`: the indices of the first and the last token of a
      statement, both included. */
  datatype StatementRange = StatementRange(start: nat, end: nat)

  /** `tok.rfind("#", 0) == 0`: the token starts with `#`. */
  predicate IsComment(tok: string) {
    |tok| > 0 && tok[0] == '#'
  }

  // ---------------------------------------------------------------------------
  // Depth counters
  // ---------------------------------------------------------------------------

  /** What one token does to a depth counter. */
  function Step(tok: string, open: string, close: string): int {
    if tok == open then 1 else if tok == close then -1 else 0
  }

  /** A depth counter after the first `i` tokens: openers minus closers, never
      clamped at zero. */
  function Depth(toks: seq<string>, i: nat, open: string, close: string): int
    requires i <= |toks|
  {
    if i == 0 then 0 else Depth(toks, i - 1, open, close) + Step(toks[i - 1], open, close)
  }

  /** `parenDepth` after the first `i` tokens. */
  function ParenDepth(toks: seq<string>, i: nat): int
    requires i <= |toks|
  {
    Depth(toks, i, "(", ")")
  }

  /** `braceDepth` after the first `i` tokens. */
  function BraceDepth(toks: seq<string>, i: nat): int
    requires i <= |toks|
  {
    Depth(toks, i, "{", "}")
  }

  /** A run of comment tokens leaves both counters as they were. */
  lemma {:induction false} DepthOverComments(toks: seq<string>, i: nat, j: nat)
    requires i <= j <= |toks|
    requires forall k :: i <= k < j ==> IsComment(toks[k])
    ensures ParenDepth(toks, j) == ParenDepth(toks, i)
    ensures BraceDepth(toks, j) == BraceDepth(toks, i)
    decreases j - i
  {
    if i < j {
      DepthOverComments(toks, i, j - 1);
      assert IsComment(toks[j - 1]);
      assert toks[j - 1] != "(" && toks[j - 1] != ")" && toks[j - 1] != "{" && toks[j - 1] != "}";
    }
  }

  // ---------------------------------------------------------------------------
  // The segmenter as a function of the tokens and the loop's variables
  // ---------------------------------------------------------------------------

  /** The loop variables of `extractStatements` between two tokens. */
  datatype Scanner = Scanner(parenDepth: int, braceDepth: int, stmtStart: nat, inStatement: bool)

  /** The variables before the first token. */
  const Initial := Scanner(0, 0, 0, false)

  /** Where the inner `while` leaves `i` on a comment token: on the last of the
      comment tokens that directly follow one another from `i`. */
  function LastComment(toks: seq<string>, i: nat): (j: nat)
    requires i < |toks|
    ensures i <= j < |toks|
    ensures forall k :: i < k <= j ==> IsComment(toks[k])
    ensures j + 1 == |toks| || !IsComment(toks[j + 1])
    decreases |toks| - i
  {
    if i + 1 < |toks| && IsComment(toks[i + 1]) then LastComment(toks, i + 1) else i
  }

  /** The token at `i` may end a statement: it is `)` or `}`, or it is the last
      token, or a comment follows it. */
  predicate MayClose(toks: seq<string>, i: nat)
    requires i < |toks|
  {
    toks[i] == ")" || toks[i] == "}" || i + 1 == |toks| || IsComment(toks[i + 1])
  }

  /** The ranges the loop of `extractStatements` emits from token `i` on, with
      the loop variables `sc`. */
  function Segments(toks: seq<string>, i: nat, sc: Scanner): seq<StatementRange>
    requires i <= |toks|
    decreases |toks| - i
  {
    if i == |toks| then []
    else if IsComment(toks[i]) then Segments(toks, LastComment(toks, i) + 1, sc)
    else
      var tok := toks[i];
      var counted := Advance(sc, i, tok);
      if counted.inStatement && counted.parenDepth == 0 && counted.braceDepth == 0 && MayClose(toks, i)
      then [StatementRange(counted.stmtStart, i)] + Segments(toks, i + 1, counted.(inStatement := false))
      else Segments(toks, i + 1, counted)
  }

  /** The loop variables after the token `tok` at `i`, which is not a comment:
      outside a statement and at depth zero the token starts one, then the
      token moves the counters. */
  function Advance(sc: Scanner, i: nat, tok: string): Scanner {
    var entered :=
      if !sc.inStatement && sc.parenDepth == 0 && sc.braceDepth == 0
      then sc.(stmtStart := i, inStatement := true)
      else sc;
    entered.(parenDepth := entered.parenDepth + Step(tok, "(", ")"),
             braceDepth := entered.braceDepth + Step(tok, "{", "}"))
  }

  /** What `extractStatements` returns. */
  function Statements(toks: seq<string>): seq<StatementRange> {
    Segments(toks, 0, Initial)
  }

  /** `extractStatements`: one pass over the tokens, skipping runs of comment
      tokens, tracking both depths and emitting a range each time a statement
      closes at depth zero. */
  method ExtractStatements(toks: seq<string>) returns (statements: seq<StatementRange>)
    ensures statements == Statements(toks)
  {
    statements := [];
    var sc := Initial;
    var i := 0;
    while i < |toks|
      invariant i <= |toks|
      invariant statements + Segments(toks, i, sc) == Statements(toks)
      decreases |toks| - i
    {
      if IsComment(toks[i]) {
        ghost var first := i;
        while i + 1 < |toks| && IsComment(toks[i + 1])
          invariant first <= i < |toks|
          invariant LastComment(toks, i) == LastComment(toks, first)
          decreases |toks| - i
        {
          i := i + 1;
        }
        i := i + 1;
      } else {
        var closed;
        sc, closed := ScanToken(toks, i, sc);
        statements := statements + closed;
        i := i + 1;
      }
    }
  }

  /** The loop body for a token that is not a comment: outside a statement and
      at depth zero the token opens one; the token moves the depths; back at
      depth zero a statement closes on a token that may close it. */
  method ScanToken(toks: seq<string>, i: nat, sc: Scanner) returns (next: Scanner, closed: seq<StatementRange>)
    requires i < |toks| && !IsComment(toks[i])
    ensures closed + Segments(toks, i + 1, next) == Segments(toks, i, sc)
  {
    var tok := toks[i];
    var parenDepth, braceDepth, stmtStart, inStatement := sc.parenDepth, sc.braceDepth, sc.stmtStart, sc.inStatement;
    if !inStatement && parenDepth == 0 && braceDepth == 0 {
      stmtStart := i;
      inStatement := true;
    }
    if tok == "(" {
      parenDepth := parenDepth + 1;
    } else if tok == ")" {
      parenDepth := parenDepth - 1;
    } else if tok == "{" {
      braceDepth := braceDepth + 1;
    } else if tok == "}" {
      braceDepth := braceDepth - 1;
    }
    assert Scanner(parenDepth, braceDepth, stmtStart, inStatement) == Advance(sc, i, tok);
    closed := [];
    if inStatement && parenDepth == 0 && braceDepth == 0 {
      if tok == ")" || tok == "}" || i + 1 == |toks| || IsComment(toks[i + 1]) {
        closed := [StatementRange(stmtStart, i)];
        inStatement := false;
      }
    }
    next := Scanner(parenDepth, braceDepth, stmtStart, inStatement);
  }

  // ---------------------------------------------------------------------------
  // What the segmenter guarantees
  // ---------------------------------------------------------------------------

  /** The loop variables agree with the tokens read so far: the counters are
      the depths, outside a statement both are zero, and an open statement
      started on an earlier token that is not a comment. */
  ghost predicate Consistent(toks: seq<string>, i: nat, sc: Scanner) {
    i <= |toks|
    && sc.parenDepth == ParenDepth(toks, i) && sc.braceDepth == BraceDepth(toks, i)
    && (!sc.inStatement ==> sc.parenDepth == 0 && sc.braceDepth == 0)
    && (sc.inStatement ==> sc.stmtStart < i && !IsComment(toks[sc.stmtStart]))
  }

  /** The first index a range emitted from this point on may start at. */
  function Lower(i: nat, sc: Scanner): nat {
    if sc.inStatement then sc.stmtStart else i
  }

  /** Every range ends before the next one starts. */
  ghost predicate Ordered(rs: seq<StatementRange>) {
    forall k, m :: 0 <= k < m < |rs| ==> rs[k].end < rs[m].start
  }

  /** One step of the loop over a token that is not a comment keeps the
      variables consistent. */
  lemma CountedConsistent(toks: seq<string>, i: nat, sc: Scanner)
    requires Consistent(toks, i, sc) && i < |toks| && !IsComment(toks[i])
    ensures
      var counted := Advance(sc, i, toks[i]);
      counted.inStatement && counted.stmtStart == Lower(i, sc)
      && Consistent(toks, i + 1, counted)
      && (counted.parenDepth == 0 && counted.braceDepth == 0 ==> Consistent(toks, i + 1, counted.(inStatement := false)))
  {
  }

  /** Skipping a run of comments keeps the variables consistent. */
  lemma SkippedConsistent(toks: seq<string>, i: nat, sc: Scanner)
    requires Consistent(toks, i, sc) && i < |toks| && IsComment(toks[i])
    ensures Consistent(toks, LastComment(toks, i) + 1, sc)
  {
    DepthOverComments(toks, i, LastComment(toks, i) + 1);
  }

  /** The emitted ranges lie at or after where the current statement started
      and end at or after the current token, and an open statement is the
      first to be emitted. */
  lemma {:induction false} SegmentsBounds(toks: seq<string>, i: nat, sc: Scanner)
    requires Consistent(toks, i, sc)
    ensures forall r :: r in Segments(toks, i, sc) ==> Lower(i, sc) <= r.start && i <= r.end
    ensures sc.inStatement && |Segments(toks, i, sc)| > 0 ==> Segments(toks, i, sc)[0].start == sc.stmtStart
    decreases |toks| - i
  {
    if i < |toks| {
      if IsComment(toks[i]) {
        SkippedConsistent(toks, i, sc);
        SegmentsBounds(toks, LastComment(toks, i) + 1, sc);
      } else {
        CountedConsistent(toks, i, sc);
        var counted := Advance(sc, i, toks[i]);
        if counted.parenDepth == 0 && counted.braceDepth == 0 && MayClose(toks, i) {
          var closed := counted.(inStatement := false);
          var rest := Segments(toks, i + 1, closed);
          SegmentsBounds(toks, i + 1, closed);
          assert Segments(toks, i, sc) == [StatementRange(counted.stmtStart, i)] + rest;
        } else {
          SegmentsBounds(toks, i + 1, counted);
        }
      }
    }
  }

  /** The emitted ranges are in order and do not overlap. */
  lemma {:induction false} SegmentsOrdered(toks: seq<string>, i: nat, sc: Scanner)
    requires Consistent(toks, i, sc)
    ensures Ordered(Segments(toks, i, sc))
    decreases |toks| - i
  {
    if i < |toks| {
      if IsComment(toks[i]) {
        SkippedConsistent(toks, i, sc);
        SegmentsOrdered(toks, LastComment(toks, i) + 1, sc);
      } else {
        CountedConsistent(toks, i, sc);
        var counted := Advance(sc, i, toks[i]);
        if counted.parenDepth == 0 && counted.braceDepth == 0 && MayClose(toks, i) {
          var closed := counted.(inStatement := false);
          var rest := Segments(toks, i + 1, closed);
          SegmentsOrdered(toks, i + 1, closed);
          SegmentsBounds(toks, i + 1, closed);
          assert Segments(toks, i, sc) == [StatementRange(counted.stmtStart, i)] + rest;
          OrderedCons(StatementRange(counted.stmtStart, i), rest);
        } else {
          SegmentsOrdered(toks, i + 1, counted);
        }
      }
    }
  }

  /** A range closes only at depth zero on a token that may end a statement,
      and it neither starts nor ends on a comment. */
  lemma {:induction false} SegmentsClose(toks: seq<string>, i: nat, sc: Scanner)
    requires Consistent(toks, i, sc)
    ensures forall r :: r in Segments(toks, i, sc) ==>
              r.start <= r.end < |toks|
              && ParenDepth(toks, r.end + 1) == 0 && BraceDepth(toks, r.end + 1) == 0
              && MayClose(toks, r.end)
              && !IsComment(toks[r.start]) && !IsComment(toks[r.end])
    decreases |toks| - i
  {
    if i < |toks| {
      if IsComment(toks[i]) {
        SkippedConsistent(toks, i, sc);
        SegmentsClose(toks, LastComment(toks, i) + 1, sc);
      } else {
        CountedConsistent(toks, i, sc);
        var counted := Advance(sc, i, toks[i]);
        if counted.parenDepth == 0 && counted.braceDepth == 0 && MayClose(toks, i) {
          SegmentsClose(toks, i + 1, counted.(inStatement := false));
        } else {
          SegmentsClose(toks, i + 1, counted);
        }
      }
    }
  }

  /** A range before all others keeps a sequence of ranges in order. */
  lemma OrderedCons(head: StatementRange, rest: seq<StatementRange>)
    requires Ordered(rest) && forall r :: r in rest ==> head.end < r.start
    ensures Ordered([head] + rest)
  {
    var rs := [head] + rest;
    forall k, m | 0 <= k < m < |rs| ensures rs[k].end < rs[m].start {
      assert rs[m] == rest[m - 1] && rest[m - 1] in rest;
      if k > 0 {
        assert rs[k] == rest[k - 1];
      }
    }
  }

  /** Token `j` lies inside one of the ranges. */
  ghost predicate Covered(rs: seq<StatementRange>, j: nat) {
    exists k :: 0 <= k < |rs| && rs[k].start <= j <= rs[k].end
  }

  /** A range put in front keeps `j` covered, or keeps it after all ranges
      when it ends before `j`. */
  lemma CoveredCons(head: StatementRange, rest: seq<StatementRange>, j: nat)
    requires head.end < j
    requires Covered(rest, j) || forall k :: 0 <= k < |rest| ==> rest[k].end < j
    ensures Covered([head] + rest, j) || forall k :: 0 <= k < |rest| + 1 ==> ([head] + rest)[k].end < j
  {
    var rs := [head] + rest;
    if Covered(rest, j) {
      var k :| 0 <= k < |rest| && rest[k].start <= j <= rest[k].end;
      assert rs[k + 1] == rest[k];
    } else {
      forall k | 0 <= k < |rs| ensures rs[k].end < j {
        if k > 0 {
          assert rs[k] == rest[k - 1];
        }
      }
    }
  }

  /** Every token that is not a comment, from where the current statement
      started, lies inside an emitted range, or after all of them: in the last
      statement, which never closed and is not emitted. */
  lemma {:induction false} SegmentsCover(toks: seq<string>, i: nat, sc: Scanner, j: nat)
    requires Consistent(toks, i, sc)
    requires Lower(i, sc) <= j < |toks| && !IsComment(toks[j])
    ensures Covered(Segments(toks, i, sc), j)
            || forall k :: 0 <= k < |Segments(toks, i, sc)| ==> Segments(toks, i, sc)[k].end < j
    decreases |toks| - i
  {
    if i < |toks| {
      if IsComment(toks[i]) {
        var next := LastComment(toks, i) + 1;
        SkippedConsistent(toks, i, sc);
        if j >= i {
          assert j >= next;
        }
        if next < |toks| || sc.inStatement {
          SegmentsCover(toks, next, sc, j);
        }
      } else {
        CountedConsistent(toks, i, sc);
        var counted := Advance(sc, i, toks[i]);
        if counted.parenDepth == 0 && counted.braceDepth == 0 && MayClose(toks, i) {
          var closed := counted.(inStatement := false);
          var rest := Segments(toks, i + 1, closed);
          var rs := [StatementRange(counted.stmtStart, i)] + rest;
          assert Segments(toks, i, sc) == rs;
          if j <= i {
            assert rs[0].start <= j <= rs[0].end;
          } else {
            SegmentsCover(toks, i + 1, closed, j);
            CoveredCons(rs[0], rest, j);
          }
        } else {
          SegmentsCover(toks, i + 1, counted, j);
        }
      }
    }
  }

  /** The ranges of `extractStatements`: ordered, each closing at depth zero on
      a token that may end a statement, none starting or ending on a comment,
      and together covering every token that is not a comment up to the last
      statement that never closed. */
  lemma StatementsProperties(toks: seq<string>)
    ensures Ordered(Statements(toks))
    ensures forall r :: r in Statements(toks) ==> r.start <= r.end < |toks|
    ensures forall r :: r in Statements(toks) ==>
              ParenDepth(toks, r.end + 1) == 0 && BraceDepth(toks, r.end + 1) == 0
              && MayClose(toks, r.end)
              && !IsComment(toks[r.start]) && !IsComment(toks[r.end])
    ensures forall j :: 0 <= j < |toks| && !IsComment(toks[j]) ==>
              Covered(Statements(toks), j)
              || forall k :: 0 <= k < |Statements(toks)| ==> Statements(toks)[k].end < j
  {
    SegmentsOrdered(toks, 0, Initial);
    SegmentsClose(toks, 0, Initial);
    forall j | 0 <= j < |toks| && !IsComment(toks[j])
      ensures Covered(Statements(toks), j)
              || forall k :: 0 <= k < |Statements(toks)| ==> Statements(toks)[k].end < j
    {
      SegmentsCover(toks, 0, Initial, j);
    }
  }

  /** A statement that never closes is never emitted: `x <- f(y` yields no
      range, and neither does anything after an unmatched `)`, which drives
      the paren depth to -1. */
  lemma UnclosedStatements()
    ensures Statements(["x", "<-", "f", "(", "y"]) == []
    ensures ParenDepth([")", "x"], 1) == -1 && Statements([")", "x"]) == []
    ensures Statements(["x", "#", "y"]) == [StatementRange(0, 0), StatementRange(2, 2)]
  {
    var a := ["x", "<-", "f", "(", "y"];
    assert Segments(a, 4, Scanner(1, 0, 0, true)) == [];
    assert Segments(a, 3, Scanner(0, 0, 0, true)) == [];
    assert Segments(a, 1, Scanner(0, 0, 0, true)) == [];
    var b := [")", "x"];
    assert Segments(b, 1, Scanner(-1, 0, 0, true)) == [];
    var c := ["x", "#", "y"];
    assert LastComment(c, 1) == 1;
    assert Segments(c, 2, Initial) == [StatementRange(2, 2)];
    assert Segments(c, 1, Initial) == [StatementRange(2, 2)];
  }

  // ---------------------------------------------------------------------------
  // Rendering statements
  // ---------------------------------------------------------------------------

  /** The tokens of a range, in order; none when it is empty. */
  function RangeTokens(toks: seq<string>, r: StatementRange): seq<string>
    requires r.start <= r.end ==> r.end < |toks|
  {
    if r.start <= r.end then toks[r.start..r.end + 1] else []
  }

  /** A statement's line: its tokens separated by single spaces, then a
      newline. */
  function Line(toks: seq<string>, r: StatementRange): string
    requires r.start <= r.end ==> r.end < |toks|
  {
    Join(RangeTokens(toks, r), " ") + "\n"
  }

  /** Every range that holds a token names an existing one. */
  predicate InBounds(toks: seq<string>, ranges: seq<StatementRange>) {
    forall k :: 0 <= k < |ranges| ==> ranges[k].start <= ranges[k].end ==> ranges[k].end < |toks|
  }

  /** `getStatementStrings`: one line per range, in order. */
  method GetStatementStrings(toks: seq<string>, ranges: seq<StatementRange>) returns (result: seq<string>)
    requires InBounds(toks, ranges)
    ensures |result| == |ranges|
    ensures forall k :: 0 <= k < |ranges| ==> result[k] == Line(toks, ranges[k])
  {
    result := [];
    var k := 0;
    while k < |ranges|
      invariant k <= |ranges| && |result| == k
      invariant forall m :: 0 <= m < k ==> result[m] == Line(toks, ranges[m])
    {
      var text := RangeText(toks, ranges[k]);
      result := result + [text + "\n"];
      k := k + 1;
    }
  }

  /** The inner loop of `getStatementStrings`: the tokens of one range with a
      space before each but the first. */
  method RangeText(toks: seq<string>, range: StatementRange) returns (text: string)
    requires range.start <= range.end ==> range.end < |toks|
    ensures text == Join(RangeTokens(toks, range), " ")
  {
    text := "";
    if range.start <= range.end {
      var i := range.start;
      while i <= range.end
        invariant range.start <= i <= range.end + 1
        invariant text == Join(toks[range.start..i], " ")
      {
        if i > range.start {
          text := text + " ";
          JoinSnoc(toks[range.start..i], toks[i], " ");
        }
        assert toks[range.start..i + 1] == toks[range.start..i] + [toks[i]];
        text := text + toks[i];
        i := i + 1;
      }
    }
  }

  /** Every range `extractStatements` emits can be rendered. */
  lemma StatementsInBounds(toks: seq<string>)
    ensures InBounds(toks, Statements(toks))
  {
    StatementsProperties(toks);
  }

  /** A line ends with the newline, and splitting the rest at spaces gives back
      the statement's tokens when they hold no space themselves. */
  lemma LineSplits(toks: seq<string>, r: StatementRange)
    requires r.start <= r.end < |toks|
    requires forall i, k :: r.start <= i <= r.end && 0 <= k < |toks[i]| ==> toks[i][k] != ' '
    ensures Line(toks, r)[|Line(toks, r)| - 1] == '\n'
    ensures Split(Line(toks, r)[..|Line(toks, r)| - 1], ' ') == toks[r.start..r.end + 1]
  {
    var parts := toks[r.start..r.end + 1];
    var body := Join(parts, " ");
    assert Line(toks, r) == body + "\n";
    assert Line(toks, r)[..|Line(toks, r)| - 1] == body;
    forall i, k | 0 <= i < |parts| && 0 <= k < |parts[i]| ensures parts[i][k] != ' ' {
      assert parts[i] == toks[r.start + i];
    }
    SplitJoin(parts, ' ');
  }

  // ---------------------------------------------------------------------------
  // Type guards
  // ---------------------------------------------------------------------------

  /** The type names the guard generator knows. */
  predicate Recognized(typeStr: string) {
    typeStr == "integer" || typeStr == "double" || typeStr == "logical"
    || typeStr == "character" || typeStr == "integer[]"
  }

  /** The R predicate that tests a value of a recognised type: a vector type is
      tested like its element type. */
  function TestFor(typeStr: string): string {
    if typeStr == "integer[]" then "is.integer" else "is." + typeStr
  }

  /** The shape of a guard: the test applied to the argument, and a `stop`
      whose message names the argument and the type. */
  function Guard(test: string, arg: string, typeStr: string): string {
    "if (!" + test + "(" + arg + ")) stop(\"" + arg + " must be " + typeStr + "\")"
  }

  /** `generateTypeCheck`: a guard for each recognised type, the empty string
      for any other (after a warning on the error stream). */
  function GenerateTypeCheck(arg: string, typeStr: string): (r: string)
    ensures (r != "") <==> Recognized(typeStr)
  {
    if typeStr == "integer" then Guard("is.integer", arg, "integer")
    else if typeStr == "double" then Guard("is.double", arg, "double")
    else if typeStr == "logical" then Guard("is.logical", arg, "logical")
    else if typeStr == "character" then Guard("is.character", arg, "character")
    else if typeStr == "integer[]" then Guard("is.integer", arg, "integer[]")
    else
      ""
  }

  /** A recognised type's guard applies the type's test to the argument and
      names the argument and the type in its message. */
  lemma GuardShape(arg: string, typeStr: string)
    requires Recognized(typeStr)
    ensures GenerateTypeCheck(arg, typeStr) == Guard(TestFor(typeStr), arg, typeStr)
  {
    if typeStr == "double" {
      assert TestFor(typeStr) == "is.double";
    } else if typeStr == "logical" {
      assert TestFor(typeStr) == "is.logical";
    } else if typeStr == "character" {
      assert TestFor(typeStr) == "is.character";
    } else if typeStr == "integer" {
      assert TestFor(typeStr) == "is.integer";
    }
  }

  /** For one argument, different recognised types give different guards:
      the guard tells which type it checks. */
  lemma GuardDeterminesType(arg: string, t1: string, t2: string)
    requires GenerateTypeCheck(arg, t1) != ""
    requires GenerateTypeCheck(arg, t1) == GenerateTypeCheck(arg, t2)
    ensures t1 == t2
  {
    var g := GenerateTypeCheck(arg, t1);
    GuardShape(arg, t1);
    GuardShape(arg, t2);
    assert |g| == 26 + |TestFor(t1)| + 2 * |arg| + |t1|;
    assert |g| == 26 + |TestFor(t2)| + 2 * |arg| + |t2|;
    assert g[8] == TestFor(t1)[3] && g[8] == TestFor(t2)[3];
  }
}
