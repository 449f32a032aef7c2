/** The contract type language of `typelang.h`: the `Type` class hierarchy as one
    datatype, its `toString` renderers and the string-equality compatibility test. */
module TypeLang {
  import opened Strings

  /** One constructor per concrete subclass of `Type`. `Vector` and `Nullable`
      share the accessor `baseType`, as `getBaseType` does in both classes. */
  datatype Type =
    | Scalar(typeName: string)
    | Vector(baseType: Type)
    | Function(arguments: seq<Type>, returnType: Type)
    | List(elementType: Type)
    | Class(classIds: seq<string>)
    | Nullable(baseType: Type)
    | Union(leftType: Type, rightType: Type)
    | Environment
    | Null
  {
    predicate IsScalar() { Scalar? }
    predicate IsVector() { Vector? }
    predicate IsFunction() { Function? }
    predicate IsList() { List? }
    predicate IsClass() { Class? }
    predicate IsNullable() { Nullable? }
    predicate IsUnion() { Union? }
    predicate IsEnvironment() { Environment? }
  }

  /** `FunctionContract`: the argument types in order and one return type. */
  datatype FunctionContract = FunctionContract(argTypes: seq<Type>, returnType: Type)

  /** How many of the eight `is*` predicates answer true for `t`. */
  function KindAnswers(t: Type): nat {
    (if t.IsScalar() then 1 else 0) + (if t.IsVector() then 1 else 0)
    + (if t.IsFunction() then 1 else 0) + (if t.IsList() then 1 else 0)
    + (if t.IsClass() then 1 else 0) + (if t.IsNullable() then 1 else 0)
    + (if t.IsUnion() then 1 else 0) + (if t.IsEnvironment() then 1 else 0)
  }

  /** Every concrete class answers true to exactly one predicate, its own;
      `NullType` overrides none of them. */
  lemma KindPredicatesExclusive(t: Type)
    ensures t.Null? ==> KindAnswers(t) == 0
    ensures !t.Null? ==> KindAnswers(t) == 1
    ensures t.IsScalar() <==> t.Scalar?
    ensures t.IsVector() <==> t.Vector?
    ensures t.IsFunction() <==> t.Function?
    ensures t.IsList() <==> t.List?
    ensures t.IsClass() <==> t.Class?
    ensures t.IsNullable() <==> t.Nullable?
    ensures t.IsUnion() <==> t.Union?
    ensures t.IsEnvironment() <==> t.Environment?
  {
  }

  /** The `toString` renderers of all nine classes. */
  function ToString(t: Type): string
    decreases t
  {
    match t
    case Scalar(name) => name
    case Vector(base) => ToString(base) + "[]"
    case Function(args, ret) =>
      "(" + Join(seq(|args|, i requires 0 <= i < |args| => ToString(args[i])), ", ") + ") -> " + ToString(ret)
    case List(elem) => "list<" + ToString(elem) + ">"
    case Class(ids) => "class<" + Join(ids, ", ") + ">"
    case Nullable(base) => ToString(base) + "?"
    case Union(left, right) => ToString(left) + " | " + ToString(right)
    case Environment => "env"
    case Null => "null"
  }

  /** A function's arguments are joined with ", "; with no argument the
      rendering is "() -> " followed by the return type. */
  lemma FunctionRendering(args: seq<Type>, ret: Type)
    ensures |args| == 0 ==> ToString(Function(args, ret)) == "() -> " + ToString(ret)
    ensures |args| == 1 ==> ToString(Function(args, ret)) == "(" + ToString(args[0]) + ") -> " + ToString(ret)
    ensures |args| == 2 ==>
      ToString(Function(args, ret)) == "(" + ToString(args[0]) + ", " + ToString(args[1]) + ") -> " + ToString(ret)
  {
    var parts := seq(|args|, i requires 0 <= i < |args| => ToString(args[i]));
    if |args| == 2 {
      assert parts[1..] == [ToString(args[1])];
      assert Join(parts, ", ") == ToString(args[0]) + ", " + ToString(args[1]);
      assert ToString(Function(args, ret)) == "(" + Join(parts, ", ") + ") -> " + ToString(ret);
    }
  }

  /** `typesAreCompatible`: compatibility is equality of the renderings. */
  predicate TypesAreCompatible(actual: Type, expected: Type) {
    ToString(actual) == ToString(expected)
  }

  /** Compatibility is an equivalence relation. */
  lemma CompatibilityIsEquivalence(a: Type, b: Type, c: Type)
    ensures TypesAreCompatible(a, a)
    ensures TypesAreCompatible(a, b) <==> TypesAreCompatible(b, a)
    ensures TypesAreCompatible(a, b) && TypesAreCompatible(b, c) ==> TypesAreCompatible(a, c)
  {
  }

  /** Compatibility is coarser than equality: the two nestings of a three-member
      union render alike, and so does a scalar whose name holds a bar. */
  lemma CompatibleButDistinct(a: Type, b: Type, c: Type)
    ensures Union(Union(a, b), c) != Union(a, Union(b, c))
    ensures TypesAreCompatible(Union(Union(a, b), c), Union(a, Union(b, c)))
    ensures TypesAreCompatible(Scalar(ToString(a) + " | " + ToString(b)), Union(a, b))
  {
    assert Union(a, b) != a;
    var sa, sb, sc := ToString(a), ToString(b), ToString(c);
    assert ToString(Union(Union(a, b), c)) == (sa + " | " + sb) + " | " + sc;
    assert ToString(Union(a, Union(b, c))) == sa + " | " + (sb + " | " + sc);
    assert (sa + " | " + sb) + " | " + sc == sa + " | " + (sb + " | " + sc);
  }
}
