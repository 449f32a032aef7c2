/** The second type hierarchy of the toolchain, `Type` in `type.h`: an n-ary
    union, a prefix `?` for nullable types, a `.name` class form and `TopType`
    for `any` and `env`, each class with a recursive `str()`. */
module Types {
  import opened Strings

  /** One constructor per concrete subclass of `Type` in `type.h`. */
  datatype Type =
    | Top(kind: string)
    | Scalar(name: string)
    | Nullable(inner: Type)
    | Vector(element: Type)
    | Union(types: seq<Type>)
    | Function(args: seq<Type>, ret: Type)
    | List(element: Type)
    | Class(name: string)

  /** `str()` of every class; the loops of `UnionType` and `FunctionType`
      accumulate the members' renderings with a separator between them. */
  function Str(t: Type): string
    decreases t
  {
    match t
    case Top(kind) => kind
    case Scalar(name) => name
    case Nullable(inner) => "?" + Str(inner)
    case Vector(element) => Str(element) + "[]"
    case Union(ts) => Join(seq(|ts|, i requires 0 <= i < |ts| => Str(ts[i])), " | ")
    case Function(args, ret) =>
      "(" + Join(seq(|args|, i requires 0 <= i < |args| => Str(args[i])), ", ") + ") -> " + Str(ret)
    case List(element) => "list<" + Str(element) + ">"
    case Class(name) => "." + name
  }

  /** The renderings of a sequence of types, in order. */
  function Strs(ts: seq<Type>): (r: seq<string>)
    ensures |r| == |ts| && forall i :: 0 <= i < |ts| ==> r[i] == Str(ts[i])
  {
    seq(|ts|, i requires 0 <= i < |ts| => Str(ts[i]))
  }

  /** The rendering of the members of a sequence of types distributes over
      concatenation. */
  lemma StrsAppend(a: seq<Type>, b: seq<Type>)
    ensures Strs(a + b) == Strs(a) + Strs(b)
  {
  }

  /** An empty union renders as "", a one-member union as its member, and a
      function without arguments as "() -> " followed by its return type. */
  lemma DegenerateRenderings(t: Type, ret: Type)
    ensures Str(Union([])) == ""
    ensures Str(Union([t])) == Str(t)
    ensures Str(Function([], ret)) == "() -> " + Str(ret)
  {
    assert Strs([t]) == [Str(t)];
    assert Str(Union([t])) == Join(Strs([t]), " | ");
  }

  /** A union of two or more members is its first member, the separator, and
      the union of the others; function arguments are separated the same way
      with ", ". */
  lemma SeparatedRenderings(first: Type, rest: seq<Type>, ret: Type)
    requires |rest| > 0
    ensures Str(Union([first] + rest)) == Str(first) + " | " + Str(Union(rest))
    ensures Str(Function([first] + rest, ret)) == "(" + Str(first) + ", " + Join(Strs(rest), ", ") + ") -> " + Str(ret)
  {
    StrsAppend([first], rest);
    assert Strs([first] + rest)[1..] == Strs(rest);
    assert Str(Union([first] + rest)) == Join(Strs([first] + rest), " | ");
    assert Str(Union(rest)) == Join(Strs(rest), " | ");
    assert Str(Function([first] + rest, ret)) == "(" + Join(Strs([first] + rest), ", ") + ") -> " + Str(ret);
  }

  /** Joining two non-empty lists of parts puts one separator between them. */
  lemma {:induction false} JoinAppend(a: seq<string>, b: seq<string>, sep: string)
    requires |a| > 0 && |b| > 0
    ensures Join(a + b, sep) == Join(a, sep) + sep + Join(b, sep)
    decreases |a|
  {
    if |a| == 1 {
      assert (a + b)[1..] == b;
    } else {
      assert (a + b)[1..] == a[1..] + b;
      JoinAppend(a[1..], b, sep);
    }
  }

  /** Joining a joined group in place of the group itself changes nothing. */
  lemma JoinFlatten(p: seq<string>, q: seq<string>, r: seq<string>, sep: string)
    requires |q| > 0
    ensures Join(p + [Join(q, sep)] + r, sep) == Join(p + q + r, sep)
  {
    var inner := Join(q, sep);
    if |p| == 0 && |r| == 0 {
      assert p + [inner] + r == [inner];
      assert p + q + r == q;
    } else if |p| == 0 {
      assert p + [inner] + r == [inner] + r;
      assert p + q + r == q + r;
      JoinAppend([inner], r, sep);
      JoinAppend(q, r, sep);
    } else if |r| == 0 {
      assert p + [inner] + r == p + [inner];
      assert p + q + r == p + q;
      JoinAppend(p, [inner], sep);
      JoinAppend(p, q, sep);
    } else {
      assert p + [inner] + r == p + ([inner] + r);
      assert p + q + r == p + (q + r);
      JoinAppend(p, [inner] + r, sep);
      JoinAppend([inner], r, sep);
      JoinAppend(p, q + r, sep);
      JoinAppend(q, r, sep);
    }
  }

  /** A union nested inside a union renders exactly like the flattened union,
      wherever it stands among the members. */
  lemma NestedUnionFlattens(xs: seq<Type>, ys: seq<Type>, zs: seq<Type>)
    requires |ys| > 0
    ensures Str(Union(xs + [Union(ys)] + zs)) == Str(Union(xs + ys + zs))
  {
    StrsAppend(xs, [Union(ys)]);
    StrsAppend(xs + [Union(ys)], zs);
    StrsAppend(xs, ys);
    StrsAppend(xs + ys, zs);
    assert Strs([Union(ys)]) == [Join(Strs(ys), " | ")];
    JoinFlatten(Strs(xs), Strs(ys), Strs(zs), " | ");
    assert Str(Union(xs + [Union(ys)] + zs)) == Join(Strs(xs + [Union(ys)] + zs), " | ");
    assert Str(Union(xs + ys + zs)) == Join(Strs(xs + ys + zs), " | ");
  }

  /** `str()` is not injective: a nested union and its flattening, a nullable
      and a scalar whose name starts with `?`, and a top type and a scalar of
      the same text all render alike. */
  lemma StrNotInjective(a: Type, b: Type, c: Type, word: string)
    ensures Union([Union([a, b]), c]) != Union([a, b, c])
    ensures Str(Union([Union([a, b]), c])) == Str(Union([a, b, c]))
    ensures Str(Nullable(Scalar(word))) == Str(Scalar("?" + word))
    ensures Str(Top(word)) == Str(Scalar(word))
  {
    NestedUnionFlattens([], [a, b], [c]);
    assert [] + [Union([a, b])] + [c] == [Union([a, b]), c];
    assert [] + [a, b] + [c] == [a, b, c];
  }
}

/** `RType` in `rtype.h`: the same hierarchy as `type.h` under another base
    class, with the same `str()`. */
module RTypes {
  import opened Strings
  import Types

  /** One constructor per concrete subclass of `RType`. */
  datatype RType =
    | Top(kind: string)
    | Scalar(name: string)
    | Nullable(inner: RType)
    | Vector(element: RType)
    | Union(types: seq<RType>)
    | Function(args: seq<RType>, ret: RType)
    | List(element: RType)
    | Class(name: string)

  /** `str()` of every `RType` class. */
  function Str(t: RType): string
    decreases t
  {
    match t
    case Top(kind) => kind
    case Scalar(name) => name
    case Nullable(inner) => "?" + Str(inner)
    case Vector(element) => Str(element) + "[]"
    case Union(ts) => Join(seq(|ts|, i requires 0 <= i < |ts| => Str(ts[i])), " | ")
    case Function(args, ret) =>
      "(" + Join(seq(|args|, i requires 0 <= i < |args| => Str(args[i])), ", ") + ") -> " + Str(ret)
    case List(element) => "list<" + Str(element) + ">"
    case Class(name) => "." + name
  }

  /** Members are joined in order: two members of a union with " | ", two
      function arguments with ", "; an empty union renders as "". */
  lemma RenderingForms(t: RType, u: RType, ret: RType)
    ensures Str(Union([])) == ""
    ensures Str(Union([t, u])) == Str(t) + " | " + Str(u)
    ensures Str(Function([t, u], ret)) == "(" + Str(t) + ", " + Str(u) + ") -> " + Str(ret)
  {
    var ts := [t, u];
    var parts := seq(|ts|, i requires 0 <= i < |ts| => Str(ts[i]));
    assert parts == [Str(t), Str(u)];
    assert parts[1..] == [Str(u)];
    assert Join(parts, " | ") == Str(t) + " | " + Str(u);
    assert Join(parts, ", ") == Str(t) + ", " + Str(u);
    assert Str(Union(ts)) == Join(parts, " | ");
    assert Str(Function(ts, ret)) == "(" + Join(parts, ", ") + ") -> " + Str(ret);
  }

  /** The `RType` built from a `Type` of `type.h`, class by class. */
  function FromType(t: Types.Type): RType
    decreases t
  {
    match t
    case Top(kind) => Top(kind)
    case Scalar(name) => Scalar(name)
    case Nullable(inner) => Nullable(FromType(inner))
    case Vector(element) => Vector(FromType(element))
    case Union(ts) => Union(seq(|ts|, i requires 0 <= i < |ts| => FromType(ts[i])))
    case Function(args, ret) => Function(seq(|args|, i requires 0 <= i < |args| => FromType(args[i])), FromType(ret))
    case List(element) => List(FromType(element))
    case Class(name) => Class(name)
  }

  /** The `Type` built from an `RType`, class by class. */
  function ToType(t: RType): Types.Type
    decreases t
  {
    match t
    case Top(kind) => Types.Top(kind)
    case Scalar(name) => Types.Scalar(name)
    case Nullable(inner) => Types.Nullable(ToType(inner))
    case Vector(element) => Types.Vector(ToType(element))
    case Union(ts) => Types.Union(seq(|ts|, i requires 0 <= i < |ts| => ToType(ts[i])))
    case Function(args, ret) => Types.Function(seq(|args|, i requires 0 <= i < |args| => ToType(args[i])), ToType(ret))
    case List(element) => Types.List(ToType(element))
    case Class(name) => Types.Class(name)
  }

  /** The two hierarchies are the same: translating there and back is the
      identity. */
  lemma {:induction false} TranslationRoundTrip(t: Types.Type)
    ensures ToType(FromType(t)) == t
    decreases t
  {
    match t
    case Nullable(inner) => TranslationRoundTrip(inner);
    case Vector(element) => TranslationRoundTrip(element);
    case List(element) => TranslationRoundTrip(element);
    case Union(ts) =>
      forall i | 0 <= i < |ts| ensures ToType(FromType(ts[i])) == ts[i] {
        TranslationRoundTrip(ts[i]);
      }
    case Function(args, ret) =>
      TranslationRoundTrip(ret);
      forall i | 0 <= i < |args| ensures ToType(FromType(args[i])) == args[i] {
        TranslationRoundTrip(args[i]);
      }
    case _ =>
  }

  /** `RType::str()` and `Type::str()` agree on corresponding values. */
  lemma {:induction false} SameRendering(t: Types.Type)
    ensures Str(FromType(t)) == Types.Str(t)
    decreases t
  {
    match t
    case Nullable(inner) => SameRendering(inner);
    case Vector(element) => SameRendering(element);
    case List(element) => SameRendering(element);
    case Union(ts) =>
      var rs := seq(|ts|, i requires 0 <= i < |ts| => FromType(ts[i]));
      forall i | 0 <= i < |ts| ensures Str(rs[i]) == Types.Str(ts[i]) {
        SameRendering(ts[i]);
      }
      assert seq(|rs|, i requires 0 <= i < |rs| => Str(rs[i]))
          == seq(|ts|, i requires 0 <= i < |ts| => Types.Str(ts[i]));
    case Function(args, ret) =>
      SameRendering(ret);
      var rs := seq(|args|, i requires 0 <= i < |args| => FromType(args[i]));
      forall i | 0 <= i < |args| ensures Str(rs[i]) == Types.Str(args[i]) {
        SameRendering(args[i]);
      }
      assert seq(|rs|, i requires 0 <= i < |rs| => Str(rs[i]))
          == seq(|args|, i requires 0 <= i < |args| => Types.Str(args[i]));
    case _ =>
  }
}
