/**
 * What scanning contributes, as functions: the type names a class declares
 * and the type names its externally visible surface consumes. The handlers in
 * module ArtifactScanner are proved to add exactly these sets; the lemmas
 * here state what the sets contain.
 */
module Extraction {
  import opened Wrappers
  import opened JvmTypes
  import opened ClassModel

  // ---------------------------------------------------------------------
  // The fold every `forEach` over a list performs: each element adds its
  // contribution to the accumulator, in list order.

  /** The fold of the first `n` elements: the accumulator after `n` steps of a `forEach`. */
  function UnionPrefix<T>(s: seq<T>, n: nat, f: T -> set<string>): set<string>
    requires n <= |s|
  {
    if n == 0 then {} else UnionPrefix(s, n - 1, f) + f(s[n - 1])
  }

  /** The fold of a whole list. */
  function UnionOver<T>(s: seq<T>, f: T -> set<string>): set<string>
  {
    UnionPrefix(s, |s|, f)
  }

  /** One more step of the fold: the next element's contribution joins the accumulator. */
  lemma FoldStep<T>(base: set<string>, s: seq<T>, i: nat, f: T -> set<string>)
    requires i < |s|
    ensures base + UnionPrefix(s, i + 1, f) == (base + UnionPrefix(s, i, f)) + f(s[i])
  {
  }

  /** A step whose element contributes nothing leaves the accumulator as it was. */
  lemma FoldSkip<T>(base: set<string>, s: seq<T>, i: nat, f: T -> set<string>)
    requires i < |s| && f(s[i]) == {}
    ensures base + UnionPrefix(s, i + 1, f) == base + UnionPrefix(s, i, f)
  {
  }

  /** Regrouping a union; lets each handler's step be matched against its specification term by term. */
  lemma UnionAssoc(a: set<string>, b: set<string>, c: set<string>)
    ensures (a + b) + c == a + (b + c)
  {
  }

  /** Adding nothing changes nothing. */
  lemma UnionEmpty(a: set<string>)
    ensures a + {} == a && {} + a == a
  {
  }

  /** A name is in a prefix fold exactly when one of the first `n` elements contributes it. */
  lemma {:induction false} UnionPrefixMembership<T>(s: seq<T>, n: nat, f: T -> set<string>, x: string)
    requires n <= |s|
    ensures x in UnionPrefix(s, n, f) <==> exists i | 0 <= i < n :: x in f(s[i])
  {
    if n > 0 {
      UnionPrefixMembership(s, n - 1, f, x);
    }
  }

  /** A name is in the fold exactly when some element contributes it. */
  lemma UnionOverMembership<T>(s: seq<T>, f: T -> set<string>, x: string)
    ensures x in UnionOver(s, f) <==> exists i | 0 <= i < |s| :: x in f(s[i])
  {
    UnionPrefixMembership(s, |s|, f, x);
  }

  /** Folding two lists one after the other is the union of folding each. */
  lemma UnionOverAppend<T>(a: seq<T>, b: seq<T>, f: T -> set<string>)
    ensures UnionOver(a + b, f) == UnionOver(a, f) + UnionOver(b, f)
  {
    forall x ensures x in UnionOver(a + b, f) <==> x in UnionOver(a, f) + UnionOver(b, f) {
      UnionOverMembership(a + b, f, x);
      UnionOverMembership(a, f, x);
      UnionOverMembership(b, f, x);
      if exists i | 0 <= i < |a + b| :: x in f((a + b)[i]) {
        var i :| 0 <= i < |a + b| && x in f((a + b)[i]);
        if i >= |a| { assert (a + b)[i] == b[i - |a|]; } else { assert (a + b)[i] == a[i]; }
      }
      if exists i | 0 <= i < |a| :: x in f(a[i]) {
        var i :| 0 <= i < |a| && x in f(a[i]);
        assert (a + b)[i] == a[i];
      }
      if exists i | 0 <= i < |b| :: x in f(b[i]) {
        var i :| 0 <= i < |b| && x in f(b[i]);
        assert (a + b)[|a| + i] == b[i];
      }
    }
  }

  /** The fold ignores order and repetition: lists with the same elements fold to the same set. */
  lemma UnionOverSameElements<T>(a: seq<T>, b: seq<T>, f: T -> set<string>)
    requires forall y :: y in a <==> y in b
    ensures UnionOver(a, f) == UnionOver(b, f)
  {
    forall x ensures x in UnionOver(a, f) <==> x in UnionOver(b, f) {
      UnionOverMembership(a, f, x);
      UnionOverMembership(b, f, x);
      if exists i | 0 <= i < |a| :: x in f(a[i]) {
        var i :| 0 <= i < |a| && x in f(a[i]);
        assert a[i] in b;
      }
      if exists i | 0 <= i < |b| :: x in f(b[i]) {
        var i :| 0 <= i < |b| && x in f(b[i]);
        assert b[i] in a;
      }
    }
  }

  // ---------------------------------------------------------------------
  // Annotations

  /**
   * The map `handleAnnotationData` holds after reading the first `n`
   * name/value pairs: a later pair with the same name replaces an earlier one.
   */
  function PairsAfter(ps: seq<ElementValuePair>, n: nat): map<string, AnnotationValue>
    requires n <= |ps|
  {
    if n == 0 then map[] else PairsAfter(ps, n - 1)[ps[n - 1].name := ps[n - 1].value]
  }

  /** The map after reading every pair. */
  function PairMap(ps: seq<ElementValuePair>): (m: map<string, AnnotationValue>)
    ensures m.Keys == set k | 0 <= k < |ps| :: ps[k].name
  {
    PairsAfterKeys(ps, |ps|);
    PairsAfter(ps, |ps|)
  }

  /** The names of the pairs after index `j`. */
  function NamesAfter(ps: seq<ElementValuePair>, j: int): set<string>
    decreases |ps| - j
  {
    if j + 1 >= |ps| || j + 1 < 0 then {} else {ps[j + 1].name} + NamesAfter(ps, j + 1)
  }

  /** The pair at index `j` is the last one carrying its name. */
  predicate LastPairFor(ps: seq<ElementValuePair>, j: int)
  {
    0 <= j < |ps| && ps[j].name !in NamesAfter(ps, j)
  }

  lemma {:induction false} NamesAfterMembership(ps: seq<ElementValuePair>, j: int, n: string)
    requires 0 <= j < |ps|
    ensures n in NamesAfter(ps, j) <==> exists i | j < i < |ps| :: ps[i].name == n
    decreases |ps| - j
  {
    if j + 1 < |ps| {
      NamesAfterMembership(ps, j + 1, n);
    }
  }

  /** No later pair carries the name of the pair at `j`. */
  lemma LastPairForIff(ps: seq<ElementValuePair>, j: int)
    requires 0 <= j < |ps|
    ensures LastPairFor(ps, j) <==> forall i | j < i < |ps| :: ps[i].name != ps[j].name
  {
    NamesAfterMembership(ps, j, ps[j].name);
  }

  /** Every name read so far is a key, and nothing else is. */
  lemma {:induction false} PairsAfterKeys(ps: seq<ElementValuePair>, n: nat)
    requires n <= |ps|
    ensures PairsAfter(ps, n).Keys == set k | 0 <= k < n :: ps[k].name
  {
    if n > 0 {
      PairsAfterKeys(ps, n - 1);
    }
  }

  /** A pair whose name does not occur again among the first `n` pairs supplies the map's value. */
  lemma {:induction false} PairsAfterLastWins(ps: seq<ElementValuePair>, n: nat, j: int)
    requires 0 <= j < n <= |ps|
    requires forall i | j < i < n :: ps[i].name != ps[j].name
    ensures ps[j].name in PairsAfter(ps, n)
    ensures PairsAfter(ps, n)[ps[j].name] == ps[j].value
  {
    if j < n - 1 {
      PairsAfterLastWins(ps, n - 1, j);
    }
  }

  /** When a name repeats, the map keeps the value of its last pair. */
  lemma PairMapLastWins(ps: seq<ElementValuePair>, j: int)
    requires LastPairFor(ps, j)
    ensures ps[j].name in PairMap(ps)
    ensures PairMap(ps)[ps[j].name] == ps[j].value
  {
    LastPairForIff(ps, j);
    PairsAfterLastWins(ps, |ps|, j);
  }

  /** The last index carrying name `n`, searching from a known one. */
  lemma {:induction false} LastIndexOf(ps: seq<ElementValuePair>, n: string, j0: int) returns (j: int)
    requires 0 <= j0 < |ps| && ps[j0].name == n
    ensures LastPairFor(ps, j) && ps[j].name == n
    decreases |ps| - j0
  {
    if i :| j0 < i < |ps| && ps[i].name == n {
      j := LastIndexOf(ps, n, i);
    } else {
      j := j0;
      LastPairForIff(ps, j);
    }
  }

  /**
   * The values of the map are exactly the values of the pairs that are the
   * last ones with their names.
   */
  lemma PairMapValues(ps: seq<ElementValuePair>, v: AnnotationValue)
    ensures v in PairMap(ps).Values <==> exists j | LastPairFor(ps, j) :: ps[j].value == v
  {
    var m := PairMap(ps);
    if v in m.Values {
      var key :| key in m && m[key] == v;
      PairsAfterKeys(ps, |ps|);
      var j0 :| 0 <= j0 < |ps| && ps[j0].name == key;
      var j := LastIndexOf(ps, key, j0);
      PairMapLastWins(ps, j);
    }
    if exists j | LastPairFor(ps, j) :: ps[j].value == v {
      var j :| LastPairFor(ps, j) && ps[j].value == v;
      PairMapLastWins(ps, j);
      assert m[ps[j].name] == v;
    }
  }

  /** Names contributed by one annotation value. */
  function ValueConsumed(v: AnnotationValue): set<string>
    decreases v
  {
    match v
    case ListValue(items) => ValuesConsumed(items, |items|)
    case TypeValue(t) => {ClassName(t)}
    case EnumValue(e, _) => {ClassName(e)}
    case NestedAnnotation(a) => AnnotationConsumed(a)
    case Constant => {}
    case StringValue(_) => {}
  }

  /** Names contributed by the first `n` elements of a list value, in list order. */
  function ValuesConsumed(items: seq<AnnotationValue>, n: nat): set<string>
    requires n <= |items|
    decreases items, n
  {
    if n == 0 then {} else ValuesConsumed(items, n - 1) + ValueConsumed(items[n - 1])
  }

  /**
   * Names contributed by one annotation: its own type, and the values of the
   * pairs that are the last ones with their names (the values the
   * name-to-value map retains).
   */
  function AnnotationConsumed(a: AnnotationNode): set<string>
    decreases a
  {
    {ClassName(a.desc)} + RetainedConsumed(a.elements, |a.elements|)
  }

  /** Names contributed by the retained values among the first `n` pairs. */
  function RetainedConsumed(ps: seq<ElementValuePair>, n: nat): set<string>
    requires n <= |ps|
    decreases ps, n
  {
    if n == 0 then {}
    else RetainedConsumed(ps, n - 1) + (if LastPairFor(ps, n - 1) then ValueConsumed(ps[n - 1].value) else {})
  }

  /** Names contributed by a set of values, whatever order they are visited in. */
  function ConsumedByValues(vs: set<AnnotationValue>): set<string>
  {
    set v, x | v in vs && x in ValueConsumed(v) :: x
  }

  lemma ConsumedByValuesEmpty()
    ensures ConsumedByValues({}) == {}
  {
  }

  /** Visiting one more value adds what that value contributes. */
  lemma ConsumedByValuesAdd(vs: set<AnnotationValue>, v: AnnotationValue)
    ensures ConsumedByValues(vs + {v}) == ConsumedByValues(vs) + ValueConsumed(v)
  {
  }

  /** Names contributed by a list of annotations. */
  function AnnotationsConsumed(anns: seq<AnnotationNode>): set<string>
  {
    UnionOver(anns, AnnotationConsumed)
  }

  /**
   * Names contributed by the four annotation lists every class, field and
   * method carries: visible and invisible annotations, visible and invisible
   * type annotations.
   */
  function DeclarationAnnotationsConsumed(
    visible: seq<AnnotationNode>, invisible: seq<AnnotationNode>,
    visibleType: seq<AnnotationNode>, invisibleType: seq<AnnotationNode>): set<string>
  {
    AnnotationsConsumed(visible) + AnnotationsConsumed(invisible)
    + AnnotationsConsumed(visibleType) + AnnotationsConsumed(invisibleType)
  }

  /** A list value contributes what any of its elements contributes, and nothing else. */
  lemma {:induction false} ValuesConsumedMembership(items: seq<AnnotationValue>, n: nat, x: string)
    requires n <= |items|
    ensures x in ValuesConsumed(items, n) <==> exists i | 0 <= i < n :: x in ValueConsumed(items[i])
  {
    if n > 0 {
      ValuesConsumedMembership(items, n - 1, x);
    }
  }

  lemma {:induction false} RetainedConsumedMembership(ps: seq<ElementValuePair>, n: nat, x: string)
    requires n <= |ps|
    ensures x in RetainedConsumed(ps, n) <==>
            exists j | 0 <= j < n && LastPairFor(ps, j) :: x in ValueConsumed(ps[j].value)
  {
    if n > 0 {
      RetainedConsumedMembership(ps, n - 1, x);
    }
  }

  /**
   * An annotation contributes its own type name and the names of the value of
   * every pair that is the last one with its name; a value whose name is
   * repeated later contributes nothing.
   */
  lemma AnnotationConsumedMembership(a: AnnotationNode, x: string)
    ensures x in AnnotationConsumed(a) <==>
            x == ClassName(a.desc)
            || exists j | LastPairFor(a.elements, j) :: x in ValueConsumed(a.elements[j].value)
  {
    RetainedConsumedMembership(a.elements, |a.elements|, x);
  }

  /**
   * Visiting the values of the name-to-value map contributes exactly what the
   * retained pairs contribute: the map-based handler agrees with
   * `AnnotationConsumed`.
   */
  lemma MapValuesConsumed(a: AnnotationNode)
    ensures {ClassName(a.desc)} + ConsumedByValues(PairMap(a.elements).Values) == AnnotationConsumed(a)
  {
    var ps := a.elements;
    forall x ensures x in ConsumedByValues(PairMap(ps).Values) <==> x in RetainedConsumed(ps, |ps|) {
      RetainedConsumedMembership(ps, |ps|, x);
      if x in ConsumedByValues(PairMap(ps).Values) {
        var v :| v in PairMap(ps).Values && x in ValueConsumed(v);
        PairMapValues(ps, v);
      }
      if x in RetainedConsumed(ps, |ps|) {
        var j :| 0 <= j < |ps| && LastPairFor(ps, j) && x in ValueConsumed(ps[j].value);
        PairMapValues(ps, ps[j].value);
      }
    }
  }

  // ---------------------------------------------------------------------
  // Fields and methods

  /** Dotted forms of a list of internal names. */
  function DottedSet(names: seq<string>): set<string>
  {
    set n | n in names :: Dotted(n)
  }

  /** The non-null results of `objectType` with the `className` extractor over parameter types. */
  function ArgumentsConsumed(args: seq<FieldType>): set<string>
  {
    set t | t in args && ObjectType(Field(t), ClassNameOf).Some? :: ObjectType(Field(t), ClassNameOf).value
  }

  /** What a field contributes once it has passed the visibility filter. */
  function FieldConsumed(f: FieldNode): set<string>
  {
    OptionSet(ObjectType(Field(f.desc), ClassNameOf))
    + DeclarationAnnotationsConsumed(f.visibleAnnotations, f.invisibleAnnotations,
                                     f.visibleTypeAnnotations, f.invisibleTypeAnnotations)
  }

  /**
   * What a method contributes once it has passed the visibility filter. The
   * return-type lookup applies `objectType` to the whole method type.
   */
  function MethodConsumed(m: MethodNode): set<string>
  {
    DottedSet(m.exceptions)
    + OptionSet(ObjectType(MethodType(m), ReturnTypeOf))
    + ArgumentsConsumed(m.argumentTypes)
    + DeclarationAnnotationsConsumed(m.visibleAnnotations, m.invisibleAnnotations,
                                     m.visibleTypeAnnotations, m.invisibleTypeAnnotations)
    + AnnotationsConsumed(Flatten(m.visibleParameterAnnotations))
    + AnnotationsConsumed(Flatten(m.invisibleParameterAnnotations))
  }

  /** What a field adds to `consumed`: nothing unless it is public or protected. */
  function FieldContribution(f: FieldNode): set<string>
  {
    if IsVisible(f.access) then FieldConsumed(f) else {}
  }

  /** What a method adds to `consumed`: nothing unless it is public or protected. */
  function MethodContribution(m: MethodNode): set<string>
  {
    if IsVisible(m.access) then MethodConsumed(m) else {}
  }

  /** Fields in order, each filtered by visibility. */
  function FieldsConsumed(fields: seq<FieldNode>): set<string>
  {
    UnionOver(fields, FieldContribution)
  }

  /** Methods in order, each filtered by visibility. */
  function MethodsConsumed(methods: seq<MethodNode>): set<string>
  {
    UnionOver(methods, MethodContribution)
  }

  /** The return type never reaches the consumed set: changing it changes nothing. */
  lemma MethodConsumedIgnoresReturnType(m: MethodNode, ret: FieldType)
    ensures MethodConsumed(m.(returnType := ret)) == MethodConsumed(m)
  {
  }

  // ---------------------------------------------------------------------
  // Classes

  /** The dotted names of a class's super class, if it has one, and of its interfaces. */
  function ClassHierarchy(node: ClassNode): set<string>
  {
    OptionSet(if node.superName.Some? then Some(Dotted(node.superName.value)) else None)
    + DottedSet(node.interfaces)
  }

  /** What one class adds to `consumed`. */
  function ClassConsumed(node: ClassNode): set<string>
  {
    ClassHierarchy(node)
    + DeclarationAnnotationsConsumed(node.visibleAnnotations, node.invisibleAnnotations,
                                     node.visibleTypeAnnotations, node.invisibleTypeAnnotations)
    + FieldsConsumed(node.fields)
    + MethodsConsumed(node.methods)
  }

  /** The super class and every interface, dotted, are consumed. */
  lemma ClassHierarchyConsumed(node: ClassNode)
    ensures node.superName.Some? ==> Dotted(node.superName.value) in ClassConsumed(node)
    ensures forall i | 0 <= i < |node.interfaces| :: Dotted(node.interfaces[i]) in ClassConsumed(node)
  {
  }

  /** Removing the element at `i`. */
  function RemoveAt<T>(s: seq<T>, i: int): (r: seq<T>)
    requires 0 <= i < |s|
    ensures |r| == |s| - 1
  {
    s[..i] + s[i + 1..]
  }

  /** Dropping an element that contributes nothing leaves the fold unchanged. */
  lemma UnionOverSkip<T>(s: seq<T>, f: T -> set<string>, i: int)
    requires 0 <= i < |s| && f(s[i]) == {}
    ensures UnionOver(RemoveAt(s, i), f) == UnionOver(s, f)
  {
    var r := RemoveAt(s, i);
    forall x ensures x in UnionOver(r, f) <==> x in UnionOver(s, f) {
      UnionOverMembership(r, f, x);
      UnionOverMembership(s, f, x);
      if exists k | 0 <= k < |r| :: x in f(r[k]) {
        var k :| 0 <= k < |r| && x in f(r[k]);
        if k < i { assert r[k] == s[k]; } else { assert r[k] == s[k + 1]; }
      }
      if exists k | 0 <= k < |s| :: x in f(s[k]) {
        var k :| 0 <= k < |s| && x in f(s[k]);
        if k < i { assert r[k] == s[k]; } else { assert r[k - 1] == s[k]; }
      }
    }
  }

  /** A private or package-private field contributes nothing: the class consumes the same without it. */
  lemma HiddenFieldContributesNothing(node: ClassNode, i: int)
    requires 0 <= i < |node.fields| && !IsVisible(node.fields[i].access)
    ensures ClassConsumed(node.(fields := RemoveAt(node.fields, i))) == ClassConsumed(node)
  {
    UnionOverSkip(node.fields, FieldContribution, i);
  }

  /** A private or package-private method contributes nothing: the class consumes the same without it. */
  lemma HiddenMethodContributesNothing(node: ClassNode, i: int)
    requires 0 <= i < |node.methods| && !IsVisible(node.methods[i].access)
    ensures ClassConsumed(node.(methods := RemoveAt(node.methods, i))) == ClassConsumed(node)
  {
    UnionOverSkip(node.methods, MethodContribution, i);
  }

  /** A public or protected field of a class or array-of-class type consumes that class. */
  lemma VisibleFieldTypeConsumed(node: ClassNode, i: int)
    requires 0 <= i < |node.fields| && IsVisible(node.fields[i].access)
    requires ElementType(node.fields[i].desc).Object?
    ensures Dotted(ElementType(node.fields[i].desc).internalName) in ClassConsumed(node)
  {
    var f := node.fields[i];
    var x := Dotted(ElementType(f.desc).internalName);
    ObjectClassName(f.desc);
    assert x in FieldContribution(f);
    UnionOverMembership(node.fields, FieldContribution, x);
  }

  /**
   * A public or protected method consumes every exception it declares and the
   * element class of every parameter whose type is a class or an array of one.
   */
  lemma VisibleMethodSignatureConsumed(node: ClassNode, i: int)
    requires 0 <= i < |node.methods| && IsVisible(node.methods[i].access)
    ensures forall e | e in node.methods[i].exceptions :: Dotted(e) in ClassConsumed(node)
    ensures forall t | t in node.methods[i].argumentTypes && ElementType(t).Object? ::
              Dotted(ElementType(t).internalName) in ClassConsumed(node)
  {
    var m := node.methods[i];
    forall e | e in m.exceptions ensures Dotted(e) in ClassConsumed(node) {
      assert Dotted(e) in MethodContribution(m);
      UnionOverMembership(node.methods, MethodContribution, Dotted(e));
    }
    forall t | t in m.argumentTypes && ElementType(t).Object?
      ensures Dotted(ElementType(t).internalName) in ClassConsumed(node)
    {
      var x := Dotted(ElementType(t).internalName);
      ObjectClassName(t);
      assert x in ArgumentsConsumed(m.argumentTypes);
      assert x in MethodContribution(m);
      UnionOverMembership(node.methods, MethodContribution, x);
    }
  }

  // ---------------------------------------------------------------------
  // Artifacts

  /** What one class adds to `declared`: its own dotted name. */
  function ClassDeclared(node: ClassNode): set<string>
  {
    {Dotted(node.name)}
  }

  /** `declared` after folding a sequence of classes. */
  function NodesDeclared(nodes: seq<ClassNode>): set<string>
  {
    UnionOver(nodes, ClassDeclared)
  }

  /** `consumed` after folding a sequence of classes. */
  function NodesConsumed(nodes: seq<ClassNode>): set<string>
  {
    UnionOver(nodes, ClassConsumed)
  }

  /** The classes a file is read as: none for a missing file or one that is neither a directory nor a jar. */
  function NodesOf(f: ArtifactFile): seq<ClassNode>
  {
    if !f.present then []
    else
      match f.kind
      case Directory => f.classes
      case JarFile => f.classes
      case OtherFile => []
  }

  /** What one file adds to `declared`. */
  function FileDeclared(f: ArtifactFile): set<string>
  {
    NodesDeclared(NodesOf(f))
  }

  /** What one file adds to `consumed`. */
  function FileConsumed(f: ArtifactFile): set<string>
  {
    NodesConsumed(NodesOf(f))
  }

  /** Every class read from an artifact's files, file by file. */
  function AllNodes(files: seq<ArtifactFile>): seq<ClassNode>
  {
    if files == [] then []
    else AllNodes(files[..|files| - 1]) + NodesOf(files[|files| - 1])
  }

  lemma {:induction false} AllNodesMembership(files: seq<ArtifactFile>, n: ClassNode)
    ensures n in AllNodes(files) <==> exists i | 0 <= i < |files| :: n in NodesOf(files[i])
  {
    if files != [] {
      var front := files[..|files| - 1];
      AllNodesMembership(front, n);
      assert forall i | 0 <= i < |front| :: front[i] == files[i];
    }
  }

  /** Folding file by file is folding over all the classes the files are read as. */
  lemma {:induction false} FilesFold(files: seq<ArtifactFile>, n: nat)
    requires n <= |files|
    ensures UnionPrefix(files, n, FileDeclared) == NodesDeclared(AllNodes(files[..n]))
    ensures UnionPrefix(files, n, FileConsumed) == NodesConsumed(AllNodes(files[..n]))
  {
    if n > 0 {
      FilesFold(files, n - 1);
      assert files[..n][..n - 1] == files[..n - 1];
      UnionOverAppend(AllNodes(files[..n - 1]), NodesOf(files[n - 1]), ClassDeclared);
      UnionOverAppend(AllNodes(files[..n - 1]), NodesOf(files[n - 1]), ClassConsumed);
    }
  }

  /** `declared` is exactly the set of dotted names of the classes scanned: never more, never fewer. */
  lemma NodesDeclaredIsNames(nodes: seq<ClassNode>)
    ensures NodesDeclared(nodes) == set n | n in nodes :: Dotted(n.name)
  {
    forall x ensures x in NodesDeclared(nodes) <==> x in (set n | n in nodes :: Dotted(n.name)) {
      UnionOverMembership(nodes, ClassDeclared, x);
    }
  }

  /** A name is consumed exactly when some scanned class consumes it. */
  lemma NodesConsumedMembership(nodes: seq<ClassNode>, x: string)
    ensures x in NodesConsumed(nodes) <==> exists n | n in nodes :: x in ClassConsumed(n)
  {
    UnionOverMembership(nodes, ClassConsumed, x);
  }

  /**
   * The fold does not depend on the order in which classes are found, nor on
   * repetitions: two enumerations of the same classes give the same sets.
   */
  lemma ScanIgnoresOrder(a: seq<ClassNode>, b: seq<ClassNode>)
    requires forall n :: n in a <==> n in b
    ensures NodesDeclared(a) == NodesDeclared(b)
    ensures NodesConsumed(a) == NodesConsumed(b)
  {
    UnionOverSameElements(a, b, ClassDeclared);
    UnionOverSameElements(a, b, ClassConsumed);
  }

  /** A missing file, or one that is neither a directory nor a jar, contributes nothing. */
  lemma IgnoredFileContributesNothing(files: seq<ArtifactFile>, i: int)
    requires 0 <= i < |files|
    requires !files[i].present || files[i].kind == OtherFile
    ensures AllNodes(RemoveAt(files, i)) == AllNodes(files)
  {
    AllNodesSkip(files, i);
  }

  lemma {:induction false} AllNodesSkip(files: seq<ArtifactFile>, i: int)
    requires 0 <= i < |files|
    requires NodesOf(files[i]) == []
    ensures AllNodes(RemoveAt(files, i)) == AllNodes(files)
    decreases |files|
  {
    var n := |files|;
    var rest := RemoveAt(files, i);
    if i == n - 1 {
      assert rest == files[..n - 1];
    } else {
      assert rest[..|rest| - 1] == RemoveAt(files[..n - 1], i);
      assert rest[|rest| - 1] == files[n - 1];
      AllNodesSkip(files[..n - 1], i);
    }
  }
}
