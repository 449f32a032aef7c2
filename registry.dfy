/** The contract registry of `typelang.cpp`: the static map
    `TypeParser::functionContracts` from function names to contracts, the two
    ways of registering a contract, and `verifyFunctionCall`, which compares a
    call's argument types with the registered contract. Its diagnostics, which
    the C++ writes to the error stream, are returned as a list of reports. */
module Registry {
  import opened TypeLang

  /** One diagnostic of `verifyFunctionCall`, in the order it is written. */
  datatype Report =
    | ContractNotFound(callee: string)
    | ArgumentCountMismatch(callee: string, expectedCount: nat, gotCount: nat)
    | ArgumentTypeMismatch(callee: string, position: nat, expected: string, got: string)
    | ReturnTypeMismatch(callee: string, expected: string, got: string)
      /** The return check reads the last actual argument; with no actual
          argument the C++ calls `back()` on an empty vector, whose behaviour is
          undefined. */
    | NoArgumentForReturnCheck(callee: string)

  /** The per-argument reports for the positions `from` onwards, 1-based. */
  function ArgumentReports(name: string, expected: seq<Type>, actual: seq<Type>, from: nat): seq<Report>
    requires |expected| == |actual| && from <= |actual|
    decreases |actual| - from
  {
    if from == |actual| then []
    else
      (if TypesAreCompatible(actual[from], expected[from]) then []
       else [ArgumentTypeMismatch(name, from + 1, ToString(expected[from]), ToString(actual[from]))])
      + ArgumentReports(name, expected, actual, from + 1)
  }

  /** The return-type check against the last actual argument. */
  function ReturnReports(name: string, ret: Type, actual: seq<Type>): seq<Report> {
    if |actual| == 0 then [NoArgumentForReturnCheck(name)]
    else if TypesAreCompatible(actual[|actual| - 1], ret) then []
    else [ReturnTypeMismatch(name, ToString(ret), ToString(actual[|actual| - 1]))]
  }

  /** Every report `verifyFunctionCall(name, actual)` writes, given the map. */
  function CallReports(contracts: map<string, FunctionContract>, name: string, actual: seq<Type>): seq<Report> {
    if name !in contracts then [ContractNotFound(name)]
    else
      var c := contracts[name];
      if |c.argTypes| != |actual| then [ArgumentCountMismatch(name, |c.argTypes|, |actual|)]
      else ArgumentReports(name, c.argTypes, actual, 0) + ReturnReports(name, c.returnType, actual)
  }

  class ContractRegistry {
    /** `TypeParser::functionContracts`. */
    var contracts: map<string, FunctionContract>

    /** An empty registry, as the static map is before anything is added. */
    constructor ()
      ensures contracts == map[]
    {
      contracts := map[];
    }

    /** `functionContracts.clear()`. */
    method Clear()
      modifies this
      ensures contracts == map[]
    {
      contracts := map[];
    }

    /** `addContract`: the entry for `name` becomes the given types; every other
        entry stays as it was. */
    method AddContract(name: string, argumentTypes: seq<Type>, returnType: Type)
      modifies this
      ensures name in contracts && contracts[name] == FunctionContract(argumentTypes, returnType)
      ensures forall other :: other != name ==>
        (other in contracts <==> other in old(contracts))
        && (other in contracts ==> contracts[other] == old(contracts)[other])
    {
      contracts := contracts[name := FunctionContract(argumentTypes, returnType)];
    }

    /** `addFunctionContract`: the entry for `name` becomes `contract`; every
        other entry stays as it was. */
    method AddFunctionContract(name: string, contract: FunctionContract)
      modifies this
      ensures name in contracts && contracts[name] == contract
      ensures forall other :: other != name ==>
        (other in contracts <==> other in old(contracts))
        && (other in contracts ==> contracts[other] == old(contracts)[other])
    {
      contracts := contracts[name := contract];
    }

    /** `verifyFunctionCall`: looks the contract up, compares the argument count,
        then each argument in turn, then the return type with the last argument. */
    method VerifyFunctionCall(name: string, actual: seq<Type>) returns (reports: seq<Report>)
      ensures reports == CallReports(contracts, name, actual)
    {
      if name !in contracts {
        return [ContractNotFound(name)];
      }
      var contract := contracts[name];
      if |contract.argTypes| != |actual| {
        return [ArgumentCountMismatch(name, |contract.argTypes|, |actual|)];
      }
      reports := [];
      var i := 0;
      while i < |actual|
        invariant 0 <= i <= |actual|
        invariant reports + ArgumentReports(name, contract.argTypes, actual, i)
               == ArgumentReports(name, contract.argTypes, actual, 0)
      {
        if !TypesAreCompatible(actual[i], contract.argTypes[i]) {
          reports := reports + [ArgumentTypeMismatch(name, i + 1, ToString(contract.argTypes[i]), ToString(actual[i]))];
        }
        i := i + 1;
      }
      if |actual| == 0 {
        reports := reports + [NoArgumentForReturnCheck(name)];
      } else if !TypesAreCompatible(actual[|actual| - 1], contract.returnType) {
        reports := reports + [ReturnTypeMismatch(name, ToString(contract.returnType), ToString(actual[|actual| - 1]))];
      }
    }
  }

  /** The report for a mismatch at the 0-based position `i`. */
  function MismatchAt(name: string, expected: seq<Type>, actual: seq<Type>, i: nat): Report
    requires i < |expected| == |actual|
  {
    ArgumentTypeMismatch(name, i + 1, ToString(expected[i]), ToString(actual[i]))
  }

  /** Every argument report is the mismatch report of an incompatible position
      at or after `from`. */
  lemma {:induction false} ArgumentReportsSound(name: string, expected: seq<Type>, actual: seq<Type>, from: nat)
    requires |expected| == |actual| && from <= |actual|
    ensures forall r :: r in ArgumentReports(name, expected, actual, from) ==>
      r.ArgumentTypeMismatch? && from < r.position <= |actual|
      && r == MismatchAt(name, expected, actual, r.position - 1)
      && !TypesAreCompatible(actual[r.position - 1], expected[r.position - 1])
    decreases |actual| - from
  {
    if from < |actual| {
      ArgumentReportsSound(name, expected, actual, from + 1);
    }
  }

  /** A position is reported exactly when the actual type there is incompatible
      with the expected one. */
  lemma {:induction false} ArgumentReportsComplete(name: string, expected: seq<Type>, actual: seq<Type>, from: nat, i: nat)
    requires |expected| == |actual| && from <= i < |actual|
    ensures (MismatchAt(name, expected, actual, i) in ArgumentReports(name, expected, actual, from))
            <==> !TypesAreCompatible(actual[i], expected[i])
    decreases |actual| - from
  {
    var rest := ArgumentReports(name, expected, actual, from + 1);
    if i == from {
      ArgumentReportsSound(name, expected, actual, from + 1);
      assert MismatchAt(name, expected, actual, i) !in rest;
    } else {
      ArgumentReportsComplete(name, expected, actual, from + 1, i);
    }
  }

  /** Argument reports in strictly increasing order of position. */
  predicate Ascending(rs: seq<Report>) {
    forall k, m :: 0 <= k < m < |rs| ==>
      rs[k].ArgumentTypeMismatch? && rs[m].ArgumentTypeMismatch? && rs[k].position < rs[m].position
  }

  /** A mismatch report in front of ascending reports at later positions. */
  lemma AscendingCons(head: Report, rest: seq<Report>)
    requires head.ArgumentTypeMismatch? && Ascending(rest)
    requires forall r :: r in rest ==> r.ArgumentTypeMismatch? && head.position < r.position
    ensures Ascending([head] + rest)
  {
    var rs := [head] + rest;
    forall k, m | 0 <= k < m < |rs|
      ensures rs[k].ArgumentTypeMismatch? && rs[m].ArgumentTypeMismatch? && rs[k].position < rs[m].position
    {
      assert rs[m] == rest[m - 1] && rest[m - 1] in rest;
      if k > 0 {
        assert rs[k] == rest[k - 1];
      }
    }
  }

  /** The reports come in increasing order of position. */
  lemma {:induction false} ArgumentReportsAscending(name: string, expected: seq<Type>, actual: seq<Type>, from: nat)
    requires |expected| == |actual| && from <= |actual|
    ensures Ascending(ArgumentReports(name, expected, actual, from))
    decreases |actual| - from
  {
    if from < |actual| {
      var rest := ArgumentReports(name, expected, actual, from + 1);
      var rs := ArgumentReports(name, expected, actual, from);
      ArgumentReportsAscending(name, expected, actual, from + 1);
      ArgumentReportsSound(name, expected, actual, from + 1);
      if !TypesAreCompatible(actual[from], expected[from]) {
        var head := MismatchAt(name, expected, actual, from);
        assert rs == [head] + rest;
        AscendingCons(head, rest);
      } else {
        assert rs == rest;
      }
    }
  }

  /** What `verifyFunctionCall` reports. Without a contract: only that. With a
      different argument count: that one report and no per-argument check.
      Otherwise: exactly the incompatible positions, then the return check
      against the last actual argument. */
  lemma CallReportsCases(contracts: map<string, FunctionContract>, name: string, actual: seq<Type>)
    ensures name !in contracts ==> CallReports(contracts, name, actual) == [ContractNotFound(name)]
    ensures name in contracts && |contracts[name].argTypes| != |actual| ==>
      CallReports(contracts, name, actual)
        == [ArgumentCountMismatch(name, |contracts[name].argTypes|, |actual|)]
    ensures name in contracts && |contracts[name].argTypes| == |actual| && |actual| > 0 ==>
      var c := contracts[name];
      var rs := CallReports(contracts, name, actual);
      var last := actual[|actual| - 1];
      ((ReturnTypeMismatch(name, ToString(c.returnType), ToString(last)) in rs)
         <==> !TypesAreCompatible(last, c.returnType))
      && (forall i :: 0 <= i < |actual| ==>
            ((MismatchAt(name, c.argTypes, actual, i) in rs)
               <==> !TypesAreCompatible(actual[i], c.argTypes[i])))
  {
    if name in contracts && |contracts[name].argTypes| == |actual| && |actual| > 0 {
      var c := contracts[name];
      var args := ArgumentReports(name, c.argTypes, actual, 0);
      var ret := ReturnReports(name, c.returnType, actual);
      assert CallReports(contracts, name, actual) == args + ret;
      ArgumentReportsSound(name, c.argTypes, actual, 0);
      forall i | 0 <= i < |actual|
        ensures (MismatchAt(name, c.argTypes, actual, i) in args + ret)
                <==> !TypesAreCompatible(actual[i], c.argTypes[i])
      {
        ArgumentReportsComplete(name, c.argTypes, actual, 0, i);
      }
    }
  }

  /** An empty call against a contract with no arguments still reaches the
      return check, which has no argument to read. */
  lemma EmptyCallHasNoReturnArgument(contracts: map<string, FunctionContract>, name: string)
    requires name in contracts && |contracts[name].argTypes| == 0
    ensures CallReports(contracts, name, []) == [NoArgumentForReturnCheck(name)]
  {
  }
}
