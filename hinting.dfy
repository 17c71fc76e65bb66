/** Type annotations as data: flattening a union into its member types,
    a checked cast against an annotation, and the argument annotations of
    a callable. */
module Hinting {
  import opened Wrappers

  /** A type that is not a union. */
  datatype TypeId = AnyType | StrType | IntType | FloatType | BoolType | NamedType(name: string)

  /** An annotation: one type, or a union (`A | B`) of annotations, which may
      themselves be unions. */
  datatype TypeSpec = Leaf(id: TypeId) | Union(members: seq<TypeSpec>)

  // ---------------------------------------------------------------------
  // The leaves of a sequence of annotations, and their first occurrences
  // ---------------------------------------------------------------------

  /** The non-union types of the specs, left to right, depth first. */
  function LeavesOf(specs: seq<TypeSpec>): seq<TypeId>
  {
    if specs == [] then []
    else
      match specs[0]
      case Leaf(t) => [t] + LeavesOf(specs[1..])
      case Union(ms) => LeavesOf(ms) + LeavesOf(specs[1..])
  }

  /** The number of nodes of the specs. */
  function SizeOf(specs: seq<TypeSpec>): nat
  {
    if specs == [] then 0
    else
      match specs[0]
      case Leaf(_) => 1 + SizeOf(specs[1..])
      case Union(ms) => 1 + SizeOf(ms) + SizeOf(specs[1..])
  }

  lemma {:induction false} LeavesOfAppend(a: seq<TypeSpec>, b: seq<TypeSpec>)
    ensures LeavesOf(a + b) == LeavesOf(a) + LeavesOf(b)
    ensures SizeOf(a + b) == SizeOf(a) + SizeOf(b)
  {
    if a == [] {
      assert a + b == b;
    } else {
      assert (a + b)[0] == a[0] && (a + b)[1..] == a[1..] + b;
      LeavesOfAppend(a[1..], b);
    }
  }

  /** The elements of xs that are not in seen, each at its first occurrence. */
  function DedupFrom(xs: seq<TypeId>, seen: set<TypeId>): (r: seq<TypeId>)
    ensures forall i, j :: 0 <= i < j < |r| ==> r[i] != r[j]
    ensures forall x :: x in r <==> x in xs && x !in seen
  {
    if xs == [] then []
    else if xs[0] in seen then DedupFrom(xs[1..], seen)
    else [xs[0]] + DedupFrom(xs[1..], seen + {xs[0]})
  }

  /** The distinct elements of xs in order of first occurrence. */
  function Dedup(xs: seq<TypeId>): seq<TypeId>
  {
    DedupFrom(xs, {})
  }

  /** The position of the first occurrence of x in xs. */
  function FirstIndex(xs: seq<TypeId>, x: TypeId): (k: nat)
    requires x in xs
    ensures k < |xs| && xs[k] == x
    ensures forall j :: 0 <= j < k ==> xs[j] != x
  {
    if xs[0] == x then 0 else 1 + FirstIndex(xs[1..], x)
  }

  /** r lists elements of xs in order of their first occurrence in xs. */
  predicate InFirstOccurrenceOrder(xs: seq<TypeId>, r: seq<TypeId>)
  {
    forall i, j :: 0 <= i < j < |r| ==> r[i] in xs && r[j] in xs && FirstIndex(xs, r[i]) < FirstIndex(xs, r[j])
  }

  /** Past a first element that r avoids, first indices shift by one. */
  lemma OrderAfterHead(xs: seq<TypeId>, r: seq<TypeId>)
    requires xs != []
    requires forall y :: y in r ==> y in xs[1..] && y != xs[0]
    requires InFirstOccurrenceOrder(xs[1..], r)
    ensures InFirstOccurrenceOrder(xs, r)
    ensures forall k :: 0 <= k < |r| ==> r[k] in xs && FirstIndex(xs, r[k]) > 0
  {
    forall k | 0 <= k < |r| ensures r[k] in xs && FirstIndex(xs, r[k]) == 1 + FirstIndex(xs[1..], r[k]) {
      assert r[k] in r;
    }
  }

  /** The first element of xs goes before any ordered elements of the rest. */
  lemma OrderAfterFirst(xs: seq<TypeId>, r: seq<TypeId>)
    requires xs != []
    requires forall y :: y in r ==> y in xs[1..] && y != xs[0]
    requires InFirstOccurrenceOrder(xs[1..], r)
    ensures InFirstOccurrenceOrder(xs, [xs[0]] + r)
  {
    OrderAfterHead(xs, r);
    var r' := [xs[0]] + r;
    forall i, j | 0 <= i < j < |r'|
      ensures r'[i] in xs && r'[j] in xs && FirstIndex(xs, r'[i]) < FirstIndex(xs, r'[j])
    {
      assert r'[j] == r[j - 1];
      if i > 0 {
        assert r'[i] == r[i - 1];
      }
    }
  }

  /** DedupFrom keeps elements in the order in which they first occur. */
  lemma {:induction false} DedupFromKeepsFirstOccurrenceOrder(xs: seq<TypeId>, seen: set<TypeId>)
    ensures InFirstOccurrenceOrder(xs, DedupFrom(xs, seen))
  {
    if xs != [] {
      var seen' := if xs[0] in seen then seen else seen + {xs[0]};
      DedupFromKeepsFirstOccurrenceOrder(xs[1..], seen');
      var rest := DedupFrom(xs[1..], seen');
      if xs[0] in seen {
        OrderAfterHead(xs, rest);
      } else {
        OrderAfterFirst(xs, rest);
      }
    }
  }

  /** Elements that are distinct and unseen are all kept, in order. */
  lemma {:induction false} DedupOfDistinct(xs: seq<TypeId>, seen: set<TypeId>)
    requires forall i, j :: 0 <= i < j < |xs| ==> xs[i] != xs[j]
    requires forall i :: 0 <= i < |xs| ==> xs[i] !in seen
    ensures DedupFrom(xs, seen) == xs
  {
    if xs != [] {
      DedupOfDistinct(xs[1..], seen + {xs[0]});
      assert xs == [xs[0]] + xs[1..];
    }
  }

  /** Splitting the input splits the output: what the front yields is
      followed by what the back yields apart from the front's elements. */
  lemma {:induction false} DedupFromAppend(a: seq<TypeId>, b: seq<TypeId>, seen: set<TypeId>)
    ensures DedupFrom(a + b, seen) == DedupFrom(a, seen) + DedupFrom(b, seen + set x | x in a)
  {
    if a == [] {
      assert a + b == b;
      assert (set x | x in a) == {};
      assert seen + {} == seen;
    } else {
      assert (a + b)[0] == a[0] && (a + b)[1..] == a[1..] + b;
      var seen' := if a[0] in seen then seen else seen + {a[0]};
      DedupFromAppend(a[1..], b, seen');
      assert seen' + (set x | x in a[1..]) == seen + set x | x in a;
    }
  }

  /** Dedup is characterised by its three properties: any sequence that has
      no duplicates, holds exactly the elements of xs and keeps them in order
      of first occurrence is Dedup(xs). */
  lemma DedupIsUnique(xs: seq<TypeId>, r: seq<TypeId>)
    requires forall x :: x in r <==> x in xs
    requires InFirstOccurrenceOrder(xs, r)
    ensures r == Dedup(xs)
  {
    DedupFromKeepsFirstOccurrenceOrder(xs, {});
    var s := set x | x in xs;
    var d := DedupFrom(xs, {});
    assert forall x :: x in d <==> x in s;
    assert forall x :: x in r <==> x in s;
    OrderedByFirstIndexIsUnique(xs, s, r, Dedup(xs));
  }

  /** Two sequences holding the same elements of xs, both in order of first
      occurrence in xs, are equal. */
  lemma {:induction false} OrderedByFirstIndexIsUnique(xs: seq<TypeId>, s: set<TypeId>, r: seq<TypeId>, d: seq<TypeId>)
    requires forall x :: x in s ==> x in xs
    requires forall x :: x in r <==> x in s
    requires forall x :: x in d <==> x in s
    requires InFirstOccurrenceOrder(xs, r) && InFirstOccurrenceOrder(xs, d)
    ensures r == d
    decreases |r| + |d|
  {
    assert r == [] <==> d == [] by {
      if r != [] { assert r[0] in r; }
      if d != [] { assert d[0] in d; }
    }
    if r != [] {
      // Both start with the element of least first index.
      assert r[0] in r && r[0] in d && d[0] in d && d[0] in r;
      assert r[0] == d[0];
      var x := r[0];
      TailHoldsTheRest(xs, s, r);
      TailHoldsTheRest(xs, s, d);
      OrderedByFirstIndexIsUnique(xs, s - {x}, r[1..], d[1..]);
    }
  }

  /** Removing the head of a sequence ordered by first index removes exactly
      that element: the head occurs nowhere in the tail. */
  lemma TailHoldsTheRest(xs: seq<TypeId>, s: set<TypeId>, r: seq<TypeId>)
    requires r != []
    requires forall x :: x in s ==> x in xs
    requires forall x :: x in r <==> x in s
    requires InFirstOccurrenceOrder(xs, r)
    ensures forall x :: x in r[1..] <==> x in s - {r[0]}
    ensures InFirstOccurrenceOrder(xs, r[1..])
  {
    forall x ensures x in r[1..] <==> x in s - {r[0]} {
      if x in r[1..] {
        var k :| 0 <= k < |r[1..]| && r[1..][k] == x;
        assert r[k + 1] == x;
        assert FirstIndex(xs, r[0]) < FirstIndex(xs, r[k + 1]);
      }
    }
    forall i, j | 0 <= i < j < |r[1..]| ensures r[1..][i] in xs && r[1..][j] in xs && FirstIndex(xs, r[1..][i]) < FirstIndex(xs, r[1..][j]) {
      assert r[1..][i] == r[i + 1] && r[1..][j] == r[j + 1];
    }
  }

  // ---------------------------------------------------------------------
  // iterate_types
  // ---------------------------------------------------------------------

  /** What iterate_types yields: each leaf type once, at its first
      occurrence in left-to-right, depth-first order. */
  function FlatTypes(sources: seq<TypeSpec>): seq<TypeId>
  {
    Dedup(LeavesOf(sources))
  }

  /** One step of the worklist: a union at the front is replaced by its
      members, leaving the same leaves and fewer nodes; a leaf at the front
      is removed, and is the next type yielded unless it was seen. */
  lemma WorklistStep(stack: seq<TypeSpec>, seen: set<TypeId>)
    requires stack != []
    ensures stack[0].Union? ==> (LeavesOf(stack[0].members + stack[1..]) == LeavesOf(stack)
                                 && SizeOf(stack[0].members + stack[1..]) < SizeOf(stack))
    ensures stack[0].Leaf? ==> SizeOf(stack[1..]) < SizeOf(stack)
    ensures stack[0].Leaf? && stack[0].id in seen ==>
              DedupFrom(LeavesOf(stack), seen) == DedupFrom(LeavesOf(stack[1..]), seen)
    ensures stack[0].Leaf? && stack[0].id !in seen ==>
              DedupFrom(LeavesOf(stack), seen) == [stack[0].id] + DedupFrom(LeavesOf(stack[1..]), seen + {stack[0].id})
  {
    var rest := stack[1..];
    match stack[0]
    case Union(ms) =>
      LeavesOfAppend(ms, rest);
    case Leaf(t) =>
      var xs := LeavesOf(stack);
      assert xs == [t] + LeavesOf(rest);
      assert xs[0] == t && xs[1..] == LeavesOf(rest);
  }

  /** iterate_types: a worklist holds the specs still to visit; a union is
      replaced by its members, in their order, at the front; a type not
      seen before is yielded. */
  method IterateTypes(sources: seq<TypeSpec>) returns (types: seq<TypeId>)
    ensures types == FlatTypes(sources)
  {
    var stack := sources;
    var seen: set<TypeId> := {};
    types := [];
    while stack != []
      invariant types + DedupFrom(LeavesOf(stack), seen) == FlatTypes(sources)
      decreases SizeOf(stack)
    {
      var current := stack[0];
      var rest := stack[1..];
      WorklistStep(stack, seen);
      match current
      case Union(ms) =>
        stack := ms + rest;
      case Leaf(t) =>
        if t !in seen {
          var after := DedupFrom(LeavesOf(rest), seen + {t});
          assert (types + [t]) + after == types + ([t] + after);
          seen := seen + {t};
          types := types + [t];
        }
        stack := rest;
    }
  }

  /** A single non-union type flattens to itself. */
  lemma FlatTypesOfLeaf(t: TypeId)
    ensures FlatTypes([Leaf(t)]) == [t]
  {
    assert [Leaf(t)][1..] == [] && [t][1..] == [];
    assert LeavesOf([Leaf(t)]) == [t] + LeavesOf([]) == [t];
    assert DedupFrom([t], {}) == [t] + DedupFrom([], {t});
  }

  /** A union flattens to the flattening of its members. */
  lemma FlatTypesOfUnion(members: seq<TypeSpec>)
    ensures FlatTypes([Union(members)]) == FlatTypes(members)
  {
    assert [Union(members)][1..] == [];
    assert LeavesOf([Union(members)]) == LeavesOf(members) + LeavesOf([]);
    assert LeavesOf(members) + [] == LeavesOf(members);
  }

  /** Several sources are flattened in argument order: the later ones add
      only the types the earlier ones did not yield. */
  lemma FlatTypesOfSources(front: seq<TypeSpec>, back: seq<TypeSpec>)
    ensures FlatTypes(front + back)
            == FlatTypes(front) + DedupFrom(LeavesOf(back), set t | t in FlatTypes(front))
  {
    LeavesOfAppend(front, back);
    DedupFromAppend(LeavesOf(front), LeavesOf(back), {});
    assert {} + (set t | t in LeavesOf(front)) == set t | t in FlatTypes(front);
  }

  /** The flattened types, as a whole: no type twice, exactly the leaves,
      in order of first occurrence; and nothing else has these properties. */
  lemma FlatTypesCharacterised(sources: seq<TypeSpec>, types: seq<TypeId>)
    ensures types == FlatTypes(sources)
            <==> (forall t :: t in types <==> t in LeavesOf(sources))
                 && InFirstOccurrenceOrder(LeavesOf(sources), types)
  {
    DedupFromKeepsFirstOccurrenceOrder(LeavesOf(sources), {});
    if (forall t :: t in types <==> t in LeavesOf(sources)) && InFirstOccurrenceOrder(LeavesOf(sources), types) {
      DedupIsUnique(LeavesOf(sources), types);
    }
  }

  /** An ordered sequence has no element twice. */
  lemma OrderedHasNoDuplicates(xs: seq<TypeId>, r: seq<TypeId>)
    requires InFirstOccurrenceOrder(xs, r)
    ensures forall i, j :: 0 <= i < j < |r| ==> r[i] != r[j]
  {
  }

  // ---------------------------------------------------------------------
  // verified_cast
  // ---------------------------------------------------------------------

  datatype CastError =
    | NotAnInstance      // the value is of none of the expected types
    | TooManyTypes       // isinstance was given more than one type argument

  /** Whether value is an instance of one of the types, tried in order. */
  function IsInstanceOfAny<V>(value: V, types: seq<TypeId>, isInstance: (V, TypeId) -> bool): (r: bool)
    ensures r <==> exists k :: 0 <= k < |types| && isInstance(value, types[k])
  {
    if types == [] then false
    else isInstance(value, types[0]) || IsInstanceOfAny(value, types[1..], isInstance)
  }

  /** verified_cast as intended: the value is passed through unchanged when
      it is an instance of one of the types the annotation flattens to, and
      rejected otherwise. isInstance(value, t) stands for Python's
      isinstance, subclasses included. */
  function VerifiedCast<V>(expected: TypeSpec, value: V, isInstance: (V, TypeId) -> bool): (r: Result<V, CastError>)
    ensures r.Ok? <==> exists t :: t in LeavesOf([expected]) && isInstance(value, t)
    ensures r.Ok? ==> r.value == value
    ensures r.Err? ==> r.error == NotAnInstance
  {
    var types := FlatTypes([expected]);
    if IsInstanceOfAny(value, types, isInstance) then Ok(value) else Err(NotAnInstance)
  }

  /** verified_cast as written: every flattened type is passed to isinstance
      as a separate argument, and isinstance accepts exactly one. */
  function VerifiedCastAsWritten<V>(expected: TypeSpec, value: V, isInstance: (V, TypeId) -> bool): (r: Result<V, CastError>)
    ensures |FlatTypes([expected])| != 1 ==> r == Err(TooManyTypes)
  {
    var types := FlatTypes([expected]);
    if |types| != 1 then Err(TooManyTypes)
    else if isInstance(value, types[0]) then Ok(value)
    else Err(NotAnInstance)
  }

  /** Both readings agree on an annotation that flattens to one type. */
  lemma VerifiedCastAgreesOnOneType<V>(expected: TypeSpec, value: V, isInstance: (V, TypeId) -> bool)
    requires |FlatTypes([expected])| == 1
    ensures VerifiedCastAsWritten(expected, value, isInstance) == VerifiedCast(expected, value, isInstance)
  {
    var t := FlatTypes([expected])[0];
    assert t in FlatTypes([expected]);
    forall u | u in LeavesOf([expected]) ensures u == t {
      assert u in FlatTypes([expected]);
    }
  }

  /** As written, verified_cast(int | str, 5) raises although 5 is an int. */
  lemma VerifiedCastAsWrittenRejectsUnionMember<V>(value: V, isInstance: (V, TypeId) -> bool)
    requires isInstance(value, IntType)
    ensures VerifiedCast(Union([Leaf(IntType), Leaf(StrType)]), value, isInstance) == Ok(value)
    ensures VerifiedCastAsWritten(Union([Leaf(IntType), Leaf(StrType)]), value, isInstance) == Err(TooManyTypes)
  {
    IntOrStrFlattens();
    assert IntType in FlatTypes([Union([Leaf(IntType), Leaf(StrType)])]);
  }

  lemma IntOrStrFlattens()
    ensures FlatTypes([Union([Leaf(IntType), Leaf(StrType)])]) == [IntType, StrType]
  {
    var ms := [Leaf(IntType), Leaf(StrType)];
    FlatTypesOfUnion(ms);
    assert ms[1..] == [Leaf(StrType)] && ms[1..][1..] == [];
    assert LeavesOf(ms) == [IntType, StrType];
    DedupOfDistinct([IntType, StrType], {});
  }

  // ---------------------------------------------------------------------
  // get_callable_argument_hints
  // ---------------------------------------------------------------------

  /** An argument annotation: a type, or a dataclass InitVar[type]. */
  datatype Annotation = Plain(spec: TypeSpec) | InitVar(inner: TypeSpec)

  /** What reflection tells about a callable: its parameter names in
      signature order and its resolved annotations, which may include
      "return". */
  datatype Callable = Callable(parameters: seq<string>, annotations: map<string, Annotation>)

  /** The type an annotation stands for: InitVar is unwrapped. */
  function Unwrapped(a: Annotation): (t: TypeSpec)
    ensures a.Plain? ==> t == a.spec
    ensures a.InitVar? ==> t == a.inner
  {
    match a
    case Plain(spec) => spec
    case InitVar(inner) => inner
  }

  /** The parameters other than "return", in order: each other name
      occurs as often as in the signature, so distinct parameters stay
      distinct, and a signature without "return" comes back whole. */
  function ArgumentNames(parameters: seq<string>): (r: seq<string>)
    ensures forall k :: 0 <= k < |r| ==> r[k] != "return" && r[k] in parameters
    ensures forall p :: p in parameters && p != "return" ==> p in r
    ensures forall p :: p != "return" ==> multiset(r)[p] == multiset(parameters)[p]
    ensures |r| == |parameters| - multiset(parameters)["return"]
    ensures "return" !in parameters ==> r == parameters
  {
    if parameters == [] then []
    else
      assert parameters == [parameters[0]] + parameters[1..];
      assert multiset(parameters) == multiset([parameters[0]]) + multiset(parameters[1..]);
      var rest := ArgumentNames(parameters[1..]);
      if parameters[0] == "return" then rest
      else
        assert multiset([parameters[0]] + rest) == multiset([parameters[0]]) + multiset(rest);
        [parameters[0]] + rest
  }

  /** The hint of one parameter: its unwrapped annotation, or Any when it
      has none. */
  function HintOf(f: Callable, name: string): TypeSpec
  {
    if name in f.annotations then Unwrapped(f.annotations[name]) else Leaf(AnyType)
  }

  function ArgumentHintsOf(f: Callable, names: seq<string>): (r: seq<(string, TypeSpec)>)
    ensures |r| == |names|
    ensures forall k :: 0 <= k < |r| ==> r[k] == (names[k], HintOf(f, names[k]))
  {
    if names == [] then [] else [(names[0], HintOf(f, names[0]))] + ArgumentHintsOf(f, names[1..])
  }

  /** get_callable_argument_hints as intended: one entry per parameter
      other than "return", in signature order, carrying its unwrapped
      annotation, or Any for an unannotated parameter. */
  function ArgumentHints(f: Callable): (r: seq<(string, TypeSpec)>)
    ensures |r| == |ArgumentNames(f.parameters)|
    ensures forall k :: 0 <= k < |r| ==> r[k].0 == ArgumentNames(f.parameters)[k]
    ensures "return" !in f.parameters ==> |r| == |f.parameters| && forall k :: 0 <= k < |r| ==> r[k].0 == f.parameters[k]
    ensures forall k :: 0 <= k < |r| ==> r[k].0 != "return" && r[k].0 in f.parameters
    ensures forall k :: 0 <= k < |r| && r[k].0 in f.annotations ==> r[k].1 == Unwrapped(f.annotations[r[k].0])
    ensures forall k :: 0 <= k < |r| && r[k].0 !in f.annotations ==> r[k].1 == Leaf(AnyType)
  {
    ArgumentHintsOf(f, ArgumentNames(f.parameters))
  }

  datatype HintError = MissingAnnotation(parameter: string)

  /** The first `n` names all have annotations. */
  predicate AnnotatedUpTo(f: Callable, names: seq<string>, n: nat)
    requires n <= |names|
  {
    forall j :: 0 <= j < n ==> names[j] in f.annotations
  }

  /** get_callable_argument_hints as written: the annotation of every
      parameter other than "return" is looked up, and the first parameter
      without one raises KeyError; when there is none, the hints are those
      of the intended reading. */
  function ArgumentHintsAsWritten(f: Callable, names: seq<string>): (r: Result<seq<(string, TypeSpec)>, HintError>)
    ensures r.Err? <==> exists k :: 0 <= k < |names| && names[k] !in f.annotations
    ensures r.Err? ==> exists k :: 0 <= k < |names| && names[k] == r.error.parameter && names[k] !in f.annotations
                                   && AnnotatedUpTo(f, names, k)
    ensures r.Ok? ==> r.value == ArgumentHintsOf(f, names)
  {
    if names == [] then Ok([])
    else if names[0] !in f.annotations then
      assert AnnotatedUpTo(f, names, 0);
      Err(MissingAnnotation(names[0]))
    else
      match ArgumentHintsAsWritten(f, names[1..])
      case Ok(rest) => Ok([(names[0], Unwrapped(f.annotations[names[0]]))] + rest)
      case Err(e) =>
        var k :| 0 <= k < |names[1..]| && names[1..][k] == e.parameter && names[1..][k] !in f.annotations
                 && AnnotatedUpTo(f, names[1..], k);
        assert names[k + 1] == e.parameter && AnnotatedUpTo(f, names, k + 1);
        Err(e)
  }

  /** As written, a callable without annotations raises, where Any is
      expected for each parameter. */
  lemma ArgumentHintsAsWrittenRejectsUnannotated()
    ensures ArgumentHintsAsWritten(Callable(["x", "y"], map[]), ["x", "y"]) == Err(MissingAnnotation("x"))
    ensures ArgumentHints(Callable(["x", "y"], map[])) == [("x", Leaf(AnyType)), ("y", Leaf(AnyType))]
  {
    var f := Callable(["x", "y"], map[]);
    assert ["x", "y"][1..] == ["y"];
    assert ArgumentNames(["x", "y"]) == ["x", "y"];
  }
}
