/** The annotation pass of `runParse` in `main.cpp`: every line of the R
    source that starts with `# @contract` names a function and gives its type
    expression; a type that parses as a function type is registered as that
    function's contract. The file is given as the sequence of lines `fgets`
    returns, each with its newline. */
module Annotations {
  import opened Strings
  import opened TypeLang
  import opened TypeGrammar
  import opened TypeParsing
  import opened Registry
  import opened Wrappers

  /** `startsWith`: `prefix` fits into `str` and agrees with its beginning. */
  function StartsWith(str: string, prefix: string): bool {
    |prefix| <= |str| && str[..|prefix|] == prefix
  }

  /** `startsWith` holds exactly when the string is the prefix followed by
      something; the empty prefix starts every string. */
  lemma StartsWithIsPrefix(str: string, prefix: string)
    ensures StartsWith(str, prefix) <==> exists tail :: str == prefix + tail
    ensures StartsWith(str, "")
  {
    if StartsWith(str, prefix) {
      assert str == prefix + str[|prefix|..];
    }
    if tail :| str == prefix + tail {
      assert str[..|prefix|] == prefix;
    }
    assert str[..0] == "";
  }

  /** The line with one trailing newline removed, as `fgets` leaves it. */
  function StripNewline(buffer: string): (line: string)
    ensures line + "\n" == buffer || (line == buffer && (|buffer| == 0 || buffer[|buffer| - 1] != '\n'))
  {
    if |buffer| > 0 && buffer[|buffer| - 1] == '\n' then buffer[..|buffer| - 1] else buffer
  }

  /** Only one newline is removed. */
  lemma StripOneNewline(line: string)
    ensures StripNewline(line + "\n") == line
    ensures StripNewline(line + "\n\n") == line + "\n"
  {
    assert (line + "\n\n")[..|line| + 1] == line + "\n";
  }

  /** The marker of an annotation line. */
  const ContractMarker: string := "# @contract"

  /** The first position at or after `i` whose character does not satisfy
      `keep`, or the end of `s`. */
  function Span(s: string, i: nat, keep: char -> bool): (j: nat)
    requires i <= |s|
    ensures i <= j <= |s|
    ensures forall k :: i <= k < j ==> keep(s[k])
    ensures j == |s| || !keep(s[j])
    decreases |s| - i
  {
    if i < |s| && keep(s[i]) then Span(s, i + 1, keep) else i
  }

  predicate NotSpace(c: char) { !IsSpace(c) }

  predicate NotNewline(c: char) { c != '\n' }

  /** The characters `find_first_not_of(" \t")` passes over. */
  predicate IsBlank(c: char) { c == ' ' || c == '\t' }

  /** The function name and type expression of an annotation line. */
  datatype Annotation = Annotation(name: string, typeExpr: string)

  /** The annotation read from the text that starts at `start`: the first
      word (`iss >> functionName`), then the rest of the line (`getline`) with
      leading blanks removed, unless it holds nothing but blanks. */
  function AnnotationAt(line: string, start: nat): Annotation
    requires start <= |line|
  {
    var wordEnd := Span(line, start, NotSpace);
    var lineEnd := Span(line, wordEnd, NotNewline);
    var rest := line[wordEnd..lineEnd];
    var k := Span(rest, 0, IsBlank);
    Annotation(line[start..wordEnd], if k < |rest| then rest[k..] else rest)
  }

  /** The annotation of a line, if it starts with the marker: the marker is
      dropped and the white space after it skipped. */
  function ReadAnnotation(line: string): Option<Annotation> {
    if !StartsWith(line, ContractMarker) then None
    else Some(AnnotationAt(line, Span(line, |ContractMarker|, IsSpace)))
  }

  /** The name of an annotation is one word; its type expression holds no
      newline and starts with a character other than a blank, unless it is
      made of blanks only; a line without a name has no type expression. */
  lemma AnnotationShape(line: string)
    requires ReadAnnotation(line).Some?
    ensures var a := ReadAnnotation(line).value;
      && (forall c :: c in a.name ==> !IsSpace(c))
      && (forall c :: c in a.typeExpr ==> c != '\n')
      && (|a.typeExpr| > 0 && IsBlank(a.typeExpr[0]) ==> forall c :: c in a.typeExpr ==> IsBlank(c))
      && (a.name == "" ==> a.typeExpr == "")
  {
    var start := Span(line, |ContractMarker|, IsSpace);
    assert ReadAnnotation(line).value == AnnotationAt(line, start);
    AnnotationAtShape(line, start);
  }

  /** `AnnotationShape` for the text from `start`, which is not white space. */
  lemma AnnotationAtShape(line: string, start: nat)
    requires start <= |line| && (start == |line| || !IsSpace(line[start]))
    ensures var a := AnnotationAt(line, start);
      && (forall c :: c in a.name ==> !IsSpace(c))
      && (forall c :: c in a.typeExpr ==> c != '\n')
      && (|a.typeExpr| > 0 && IsBlank(a.typeExpr[0]) ==> forall c :: c in a.typeExpr ==> IsBlank(c))
      && (a.name == "" ==> a.typeExpr == "")
  {
    var wordEnd := Span(line, start, NotSpace);
    var lineEnd := Span(line, wordEnd, NotNewline);
    var rest := line[wordEnd..lineEnd];
    var k := Span(rest, 0, IsBlank);
    SliceKeeps(line, start, wordEnd, NotSpace);
    var from := if k < |rest| then k else 0;
    assert rest[from..] == line[wordEnd + from..lineEnd];
    SliceKeeps(line, wordEnd + from, lineEnd, NotNewline);
    if k == |rest| {
      SliceKeeps(rest, 0, |rest|, IsBlank);
      assert rest[0..|rest|] == rest;
    }
    if wordEnd == start {
      assert start == |line|;
    }
  }

  /** The characters of a slice all satisfy what every position in it does. */
  lemma SliceKeeps(s: string, i: nat, j: nat, keep: char -> bool)
    requires i <= j <= |s| && forall k :: i <= k < j ==> keep(s[k])
    ensures forall c :: c in s[i..j] ==> keep(c)
  {
    forall c | c in s[i..j] ensures keep(c) {
      var m :| 0 <= m < j - i && s[i..j][m] == c;
      assert s[i + m] == c;
    }
  }

  /** An annotation written as the marker, white space, a name, blanks and a
      type expression that does not start with a blank reads back as that
      name and that type expression. The white space may be empty: the name
      of `# @contractfoo int` is `foo`. */
  lemma AnnotationRoundTrip(space: string, name: string, blanks: string, typeExpr: string)
    requires forall c :: c in space ==> IsSpace(c)
    requires |name| > 0 && forall c :: c in name ==> !IsSpace(c)
    requires |blanks| > 0 && forall c :: c in blanks ==> IsBlank(c)
    requires forall c :: c in typeExpr ==> c != '\n'
    requires |typeExpr| > 0 && !IsBlank(typeExpr[0])
    ensures ReadAnnotation(ContractMarker + space + name + blanks + typeExpr) == Some(Annotation(name, typeExpr))
  {
    var line := ContractMarker + space + name + blanks + typeExpr;
    var start := |ContractMarker| + |space|;
    var wordEnd := start + |name|;
    assert line[..|ContractMarker|] == ContractMarker;
    assert line == ContractMarker + space + (name + blanks + typeExpr);
    SpanOver(ContractMarker, space, name + blanks + typeExpr, IsSpace);
    assert line == (ContractMarker + space) + name + (blanks + typeExpr);
    assert (blanks + typeExpr)[0] == blanks[0] && blanks[0] in blanks;
    SpanOver(ContractMarker + space, name, blanks + typeExpr, NotSpace);
    assert line == (ContractMarker + space + name) + (blanks + typeExpr) + "";
    SpanOver(ContractMarker + space + name, blanks + typeExpr, "", NotNewline);
    assert line[start..wordEnd] == name;
    var rest := line[wordEnd..];
    assert rest == blanks + typeExpr;
    assert rest == "" + blanks + typeExpr;
    SpanOver("", blanks, typeExpr, IsBlank);
    assert rest[|blanks|..] == typeExpr;
  }

  /** `Span` stops exactly at `j` when every character before `j` is kept and
      the one at `j`, if any, is not. */
  lemma {:induction false} SpanStops(s: string, i: nat, j: nat, keep: char -> bool)
    requires i <= j <= |s|
    requires forall k :: i <= k < j ==> keep(s[k])
    requires j == |s| || !keep(s[j])
    ensures Span(s, i, keep) == j
    decreases j - i
  {
    if i < j {
      SpanStops(s, i + 1, j, keep);
    }
  }

  /** `Span` passes over a middle part whose characters are all kept, up to a
      last part that does not start with a kept character. */
  lemma SpanOver(pre: string, mid: string, post: string, keep: char -> bool)
    requires forall c :: c in mid ==> keep(c)
    requires |post| == 0 || !keep(post[0])
    ensures Span(pre + mid + post, |pre|, keep) == |pre| + |mid|
  {
    var s := pre + mid + post;
    forall k | |pre| <= k < |pre| + |mid| ensures keep(s[k]) {
      assert s[k] == mid[k - |pre|];
    }
    if |post| > 0 {
      assert s[|pre| + |mid|] == post[0];
    }
    SpanStops(s, |pre|, |pre| + |mid|, keep);
  }

  /** What one line read by `fgets` does to the registry. */
  datatype Effect =
    | Skipped
    | Registered(name: string, contract: FunctionContract)
      /** `parseType` runs out of this fuel; out of fuel at every fuel, the loop never ends. */
    | Stuck

  /** The effect of one line: nothing unless it is an annotation whose type
      expression parses as a function type; a thrown error or any other type
      skips the line. */
  function LineEffect(buffer: string, fuel: nat): Effect {
    match ReadAnnotation(StripNewline(buffer))
    case None => Skipped
    case Some(a) =>
      match ParseType(a.typeExpr, 0, fuel)
      case OutOfFuel => Stuck
      case Threw(_) => Skipped
      case Done(t, _) =>
        if t.IsFunction() then Registered(a.name, FunctionContract(t.arguments, t.returnType)) else Skipped
  }

  /** A line registers a contract only when its type expression parses as a
      function type, and then under the annotation's name with that type's
      arguments and return type. */
  lemma OnlyFunctionsRegister(buffer: string, fuel: nat)
    ensures LineEffect(buffer, fuel).Registered? <==>
      var a := ReadAnnotation(StripNewline(buffer));
      a.Some? && ParseType(a.value.typeExpr, 0, fuel).Done? && ParseType(a.value.typeExpr, 0, fuel).value.Function?
    ensures LineEffect(buffer, fuel).Registered? ==>
      var a := ReadAnnotation(StripNewline(buffer)).value;
      var t := ParseType(a.typeExpr, 0, fuel).value;
      LineEffect(buffer, fuel) == Registered(a.name, FunctionContract(t.arguments, t.returnType))
  {
  }

  /** A line whose parse comes back has the same effect with more fuel. */
  lemma LineEffectMono(buffer: string, fuel: nat, more: nat)
    requires fuel <= more && !LineEffect(buffer, fuel).Stuck?
    ensures LineEffect(buffer, more) == LineEffect(buffer, fuel)
  {
    var a := ReadAnnotation(StripNewline(buffer));
    if a.Some? {
      ParseTypeMono(a.value.typeExpr, 0, fuel, more);
    }
  }

  /** The registry after an effect; `None` once the pass has got stuck. */
  function Apply(contracts: Option<map<string, FunctionContract>>, e: Effect): Option<map<string, FunctionContract>> {
    match contracts
    case None => None
    case Some(m) =>
      match e
      case Skipped => contracts
      case Registered(name, contract) => Some(m[name := contract])
      case Stuck => None
  }

  /** The registry after a sequence of effects, starting from the cleared
      registry. */
  function Fold(effects: seq<Effect>): Option<map<string, FunctionContract>> {
    if |effects| == 0 then Some(map[])
    else Apply(Fold(effects[..|effects| - 1]), effects[|effects| - 1])
  }

  /** The effect of each line, in order. */
  function Effects(lines: seq<string>, fuel: nat): (es: seq<Effect>)
    ensures |es| == |lines| && forall i :: 0 <= i < |lines| ==> es[i] == LineEffect(lines[i], fuel)
  {
    seq(|lines|, i requires 0 <= i < |lines| => LineEffect(lines[i], fuel))
  }

  /** The registry after the annotation pass over `lines`; `None` when some
      type expression is never parsed to an end. */
  function Processed(lines: seq<string>, fuel: nat): Option<map<string, FunctionContract>> {
    Fold(Effects(lines, fuel))
  }

  /** The start of the contract text: the position after the marker and the
      white space that follows it. */
  method SkipMarker(line: string) returns (start: nat)
    requires StartsWith(line, ContractMarker)
    ensures start == Span(line, |ContractMarker|, IsSpace)
  {
    start := |ContractMarker|;
    while start < |line| && IsSpace(line[start])
      invariant |ContractMarker| <= start <= |line|
      invariant Span(line, start, IsSpace) == Span(line, |ContractMarker|, IsSpace)
    {
      start := start + 1;
    }
  }

  /** One pass of the loop body: strip the newline, and for an annotation
      parse its type expression and register it if it is a function type.
      Answers true when the parse runs out of fuel. */
  method ProcessLine(registry: ContractRegistry, buffer: string, fuel: nat) returns (stuck: bool)
    modifies registry
    ensures stuck <==> LineEffect(buffer, fuel).Stuck?
    ensures !stuck ==> Some(registry.contracts) == Apply(Some(old(registry.contracts)), LineEffect(buffer, fuel))
  {
    var line := buffer;
    if |line| > 0 && line[|line| - 1] == '\n' {
      line := line[..|line| - 1];
    }
    assert line == StripNewline(buffer);
    if !StartsWith(line, ContractMarker) {
      return false;
    }
    var start := SkipMarker(line);
    var a := AnnotationAt(line, start);
    assert ReadAnnotation(line) == Some(a);
    var parser := new TypeParser(a.typeExpr);
    var parsed := parser.ParseType(fuel);
    assert parsed == ParseType(a.typeExpr, 0, fuel);
    if parsed.OutOfFuel? {
      return true;
    }
    if parsed.Done? && parsed.value.IsFunction() {
      var contract := FunctionContract(parsed.value.arguments, parsed.value.returnType);
      assert LineEffect(buffer, fuel) == Registered(a.name, contract);
      registry.AddFunctionContract(a.name, contract);
      assert registry.contracts == old(registry.contracts)[a.name := contract];
      return false;
    }
    assert LineEffect(buffer, fuel) == Skipped;
    return false;
  }

  /** The annotation loop of `runParse`: clears the registry, then processes
      each line in turn. Answers false when a parse runs out of fuel. */
  method ProcessAnnotations(registry: ContractRegistry, lines: seq<string>, fuel: nat) returns (finished: bool)
    modifies registry
    ensures finished <==> Processed(lines, fuel).Some?
    ensures finished ==> registry.contracts == Processed(lines, fuel).value
  {
    ghost var effects := Effects(lines, fuel);
    registry.Clear();
    var i := 0;
    while i < |lines|
      invariant i <= |lines|
      invariant Fold(effects[..i]) == Some(registry.contracts)
    {
      FoldStep(effects, i);
      assert effects[i] == LineEffect(lines[i], fuel);
      var stuck := ProcessLine(registry, lines[i], fuel);
      if stuck {
        FoldStuck(effects, i + 1);
        return false;
      }
      i := i + 1;
    }
    assert effects[..i] == effects;
    return true;
  }

  /** One more effect folds into the registry of the ones before it. */
  lemma FoldStep(effects: seq<Effect>, i: nat)
    requires i < |effects|
    ensures Fold(effects[..i + 1]) == Apply(Fold(effects[..i]), effects[i])
  {
    assert effects[..i + 1][..i] == effects[..i];
  }

  /** Once the pass is stuck it stays stuck. */
  lemma {:induction false} FoldStuck(effects: seq<Effect>, n: nat)
    requires n <= |effects| && Fold(effects[..n]).None?
    ensures Fold(effects).None?
    decreases |effects| - n
  {
    if n < |effects| {
      assert effects[..n + 1][..n] == effects[..n];
      FoldStuck(effects, n + 1);
    } else {
      assert effects[..n] == effects;
    }
  }

  /** A pass that finishes met no stuck line. */
  lemma {:induction false} FoldNeverStuck(effects: seq<Effect>)
    requires Fold(effects).Some?
    ensures forall i :: 0 <= i < |effects| ==> !effects[i].Stuck?
    decreases |effects|
  {
    if |effects| > 0 {
      var n := |effects| - 1;
      FoldNeverStuck(effects[..n]);
      forall i | 0 <= i < n ensures !effects[i].Stuck? {
        assert effects[..n][i] == effects[i];
      }
    }
  }

  /** A pass that finishes within some fuel gives the same registry with any
      more fuel: so `None` at every fuel is a loop that never ends. */
  lemma ProcessedMono(lines: seq<string>, fuel: nat, more: nat)
    requires fuel <= more && Processed(lines, fuel).Some?
    ensures Processed(lines, more) == Processed(lines, fuel)
  {
    var effects := Effects(lines, fuel);
    FoldNeverStuck(effects);
    forall i | 0 <= i < |lines| ensures LineEffect(lines[i], more) == effects[i] {
      LineEffectMono(lines[i], fuel, more);
    }
    assert Effects(lines, more) == effects;
  }

  /** The effect registers a contract for `name`. */
  predicate Registers(e: Effect, name: string) {
    e.Registered? && e.name == name
  }

  /** The registry holds a name exactly when some effect registered it. */
  lemma {:induction false} RegisteredNames(effects: seq<Effect>, name: string)
    requires Fold(effects).Some?
    ensures name in Fold(effects).value <==> exists i :: 0 <= i < |effects| && Registers(effects[i], name)
    decreases |effects|
  {
    if |effects| > 0 {
      var n := |effects| - 1;
      var init := effects[..n];
      RegisteredNames(init, name);
      if exists i :: 0 <= i < n && Registers(init[i], name) {
        var i :| 0 <= i < n && Registers(init[i], name);
        assert effects[i] == init[i];
      }
      if i :| 0 <= i < n && Registers(effects[i], name) {
        assert init[i] == effects[i];
      }
    }
  }

  /** The effect at `i` is the last one that registers `name`. */
  ghost predicate LastRegistration(effects: seq<Effect>, i: int, name: string) {
    0 <= i < |effects| && Registers(effects[i], name)
    && forall j :: i < j < |effects| ==> !Registers(effects[j], name)
  }

  /** A registered name holds the contract of the last effect that
      registered it: a later annotation overwrites an earlier one. */
  lemma {:induction false} LastRegistrationWins(effects: seq<Effect>, name: string)
    requires Fold(effects).Some? && name in Fold(effects).value
    ensures exists i :: LastRegistration(effects, i, name) && effects[i].contract == Fold(effects).value[name]
    decreases |effects|
  {
    var n := |effects| - 1;
    var init := effects[..n];
    var m := Fold(effects).value;
    if Registers(effects[n], name) {
      assert LastRegistration(effects, n, name);
    } else {
      LastRegistrationWins(init, name);
      var i :| LastRegistration(init, i, name) && init[i].contract == Fold(init).value[name];
      assert effects[i] == init[i];
      forall j | i < j < |effects| ensures !Registers(effects[j], name) {
        if j < n {
          assert effects[j] == init[j];
        }
      }
      assert LastRegistration(effects, i, name);
    }
  }

  /** No type expression parses as a function type, so no line ever
      registers a contract. */
  lemma NoLineRegisters(buffer: string, fuel: nat)
    ensures !LineEffect(buffer, fuel).Registered?
  {
    var a := ReadAnnotation(StripNewline(buffer));
    if a.Some? {
      ParseTypeNeverFunction(a.value.typeExpr, 0, fuel);
    }
  }

  /** As written, the annotation pass leaves the registry empty whenever it
      finishes. */
  lemma RegistryStaysEmpty(lines: seq<string>, fuel: nat)
    requires Processed(lines, fuel).Some?
    ensures Processed(lines, fuel).value == map[]
  {
    var effects := Effects(lines, fuel);
    var m := Fold(effects).value;
    forall name ensures name !in m {
      RegisteredNames(effects, name);
      if name in m {
        var i :| 0 <= i < |effects| && Registers(effects[i], name);
        NoLineRegisters(lines[i], fuel);
        assert false;
      }
    }
  }
}
