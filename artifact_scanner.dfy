/**
 * The scanner proper: `scanArtifact` creates two mutable sets, reads every
 * class of every file of the artifact, and lets the handlers add type names
 * to them in place. Each handler is proved to add exactly the set the
 * matching function of module Extraction describes.
 */
module ArtifactScanner {
  import opened Wrappers
  import opened JvmTypes
  import opened ClassModel
  import opened Extraction

  /** The outcome of scanning one artifact. */
  datatype ArtifactScanResult = ArtifactScanResult(artifactName: string, declared: set<string>, consumed: set<string>)

  /**
   * The map `handleAnnotationData` builds by reading the annotation's flat
   * `values` list two elements at a time: the name, cast to a string, then its
   * value.
   */
  method CollectPairs(a: AnnotationNode) returns (pairs: map<string, AnnotationValue>)
    ensures pairs == PairMap(a.elements)
  {
    var values := Values(a.elements);
    pairs := map[];
    var i := 0;
    while i < |values|
      invariant 0 <= i <= |values| && i % 2 == 0
      invariant pairs == PairsAfter(a.elements, i / 2)
    {
      assert values[2 * (i / 2)] == StringValue(a.elements[i / 2].name);
      var key := values[i].s;
      var value := values[i + 1];
      pairs := pairs[key := value];
      i := i + 2;
    }
  }

  /** The two mutable sets `scanArtifact` creates and hands to every handler. */
  class Accumulator {
    var declared: set<string>
    var consumed: set<string>

    constructor ()
      ensures declared == {} && consumed == {}
    {
      declared := {};
      consumed := {};
    }

    /** Adds one class: its name to `declared`, its visible surface to `consumed`. */
    method HandleClassData(node: ClassNode)
      modifies this
      ensures declared == old(declared) + ClassDeclared(node)
      ensures consumed == old(consumed) + ClassConsumed(node)
    {
      declared := declared + {Dotted(node.name)};
      ghost var base := consumed;
      ghost var superClass := OptionSet(if node.superName.Some? then Some(Dotted(node.superName.value)) else None);
      if node.superName.Some? {
        consumed := consumed + {Dotted(node.superName.value)};
      } else {
        UnionEmpty(base);
      }
      consumed := consumed + DottedSet(node.interfaces);
      UnionAssoc(base, superClass, DottedSet(node.interfaces));
      ghost var annotations := DeclarationAnnotationsConsumed(
        node.visibleAnnotations, node.invisibleAnnotations,
        node.visibleTypeAnnotations, node.invisibleTypeAnnotations);
      HandleDeclarationAnnotations(node.visibleAnnotations, node.invisibleAnnotations,
                                   node.visibleTypeAnnotations, node.invisibleTypeAnnotations);
      UnionAssoc(base, ClassHierarchy(node), annotations);
      HandleFields(node.fields);
      UnionAssoc(base, ClassHierarchy(node) + annotations, FieldsConsumed(node.fields));
      HandleMethods(node.methods);
      UnionAssoc(base, ClassHierarchy(node) + annotations + FieldsConsumed(node.fields), MethodsConsumed(node.methods));
    }

    /** Hands every public or protected field to `HandleFieldData`, in order; skips the rest. */
    method HandleFields(fields: seq<FieldNode>)
      modifies this
      ensures declared == old(declared)
      ensures consumed == old(consumed) + FieldsConsumed(fields)
    {
      var i := 0;
      while i < |fields|
        invariant 0 <= i <= |fields|
        invariant declared == old(declared)
        invariant consumed == old(consumed) + UnionPrefix(fields, i, FieldContribution)
      {
        if IsVisible(fields[i].access) {
          HandleFieldData(fields[i]);
          FoldStep(old(consumed), fields, i, FieldContribution);
        } else {
          FoldSkip(old(consumed), fields, i, FieldContribution);
        }
        i := i + 1;
      }
    }

    /** Hands every public or protected method to `HandleMethodData`, in order; skips the rest. */
    method HandleMethods(methods: seq<MethodNode>)
      modifies this
      ensures declared == old(declared)
      ensures consumed == old(consumed) + MethodsConsumed(methods)
    {
      for i := 0 to |methods|
        invariant declared == old(declared)
        invariant consumed == old(consumed) + UnionPrefix(methods, i, MethodContribution)
      {
        if IsVisible(methods[i].access) {
          HandleMethodData(methods[i]);
          FoldStep(old(consumed), methods, i, MethodContribution);
        } else {
          FoldSkip(old(consumed), methods, i, MethodContribution);
        }
      }
    }

    /** Hands every class read from one file to `HandleClassData`, in order. */
    method HandleClasses(nodes: seq<ClassNode>)
      modifies this
      ensures declared == old(declared) + NodesDeclared(nodes)
      ensures consumed == old(consumed) + NodesConsumed(nodes)
    {
      for i := 0 to |nodes|
        invariant declared == old(declared) + UnionPrefix(nodes, i, ClassDeclared)
        invariant consumed == old(consumed) + UnionPrefix(nodes, i, ClassConsumed)
      {
        HandleClassData(nodes[i]);
        FoldStep(old(declared), nodes, i, ClassDeclared);
        FoldStep(old(consumed), nodes, i, ClassConsumed);
      }
    }

    /** Handles the files of an artifact, in order. */
    method HandleFiles(files: seq<ArtifactFile>)
      modifies this
      ensures declared == old(declared) + UnionOver(files, FileDeclared)
      ensures consumed == old(consumed) + UnionOver(files, FileConsumed)
    {
      for i := 0 to |files|
        invariant declared == old(declared) + UnionPrefix(files, i, FileDeclared)
        invariant consumed == old(consumed) + UnionPrefix(files, i, FileConsumed)
      {
        HandleFile(files[i]);
        FoldStep(old(declared), files, i, FileDeclared);
        FoldStep(old(consumed), files, i, FileConsumed);
      }
    }

    /**
     * Handles one file of the artifact: a missing file is skipped, a directory
     * or a jar gives its classes, any other file gives none.
     */
    method HandleFile(artifact: ArtifactFile)
      modifies this
      ensures declared == old(declared) + FileDeclared(artifact)
      ensures consumed == old(consumed) + FileConsumed(artifact)
    {
      if artifact.present {
        var nodes := match artifact.kind
          case Directory => artifact.classes
          case JarFile => artifact.classes
          case OtherFile => [];
        HandleClasses(nodes);
      } else {
        UnionEmpty(declared);
        UnionEmpty(consumed);
      }
    }

    /** Adds a visible method's thrown types, parameter types and annotations; never its return type. */
    method HandleMethodData(m: MethodNode)
      modifies this
      ensures declared == old(declared)
      ensures consumed == old(consumed) + MethodConsumed(m)
    {
      ghost var base := consumed;
      var exceptions := DottedSet(m.exceptions);
      consumed := consumed + exceptions;
      // The return-type lookup applies objectType to the whole method type,
      // whose sort is METHOD, so it never yields a name to add.
      var returned := ObjectType(MethodType(m), ReturnTypeOf);
      if returned.Some? {
        assert false;
      }
      UnionEmpty(exceptions);
      var arguments := ArgumentsConsumed(m.argumentTypes);
      consumed := consumed + arguments;
      UnionAssoc(base, exceptions, arguments);
      ghost var signature := exceptions + OptionSet(returned) + arguments;
      ghost var annotations := DeclarationAnnotationsConsumed(
        m.visibleAnnotations, m.invisibleAnnotations, m.visibleTypeAnnotations, m.invisibleTypeAnnotations);
      HandleDeclarationAnnotations(m.visibleAnnotations, m.invisibleAnnotations,
                                   m.visibleTypeAnnotations, m.invisibleTypeAnnotations);
      UnionAssoc(base, signature, annotations);
      HandleAnnotations(Flatten(m.visibleParameterAnnotations));
      UnionAssoc(base, signature + annotations, AnnotationsConsumed(Flatten(m.visibleParameterAnnotations)));
      HandleAnnotations(Flatten(m.invisibleParameterAnnotations));
      UnionAssoc(base, signature + annotations + AnnotationsConsumed(Flatten(m.visibleParameterAnnotations)),
                 AnnotationsConsumed(Flatten(m.invisibleParameterAnnotations)));
    }

    /** Adds a visible field's element class, if it has one, and its annotations. */
    method HandleFieldData(f: FieldNode)
      modifies this
      ensures declared == old(declared)
      ensures consumed == old(consumed) + FieldConsumed(f)
    {
      ghost var base := consumed;
      var t := ObjectType(Field(f.desc), ClassNameOf);
      if t.Some? {
        consumed := consumed + {t.value};
      } else {
        UnionEmpty(base);
      }
      HandleDeclarationAnnotations(f.visibleAnnotations, f.invisibleAnnotations,
                                   f.visibleTypeAnnotations, f.invisibleTypeAnnotations);
      UnionAssoc(base, OptionSet(t), DeclarationAnnotationsConsumed(
        f.visibleAnnotations, f.invisibleAnnotations, f.visibleTypeAnnotations, f.invisibleTypeAnnotations));
    }

    /** Handles the four annotation lists of a class, field or method, one list after the other. */
    method HandleDeclarationAnnotations(
      visible: seq<AnnotationNode>, invisible: seq<AnnotationNode>,
      visibleType: seq<AnnotationNode>, invisibleType: seq<AnnotationNode>)
      modifies this
      ensures declared == old(declared)
      ensures consumed == old(consumed) + DeclarationAnnotationsConsumed(visible, invisible, visibleType, invisibleType)
    {
      ghost var base := consumed;
      HandleAnnotations(visible);
      HandleAnnotations(invisible);
      UnionAssoc(base, AnnotationsConsumed(visible), AnnotationsConsumed(invisible));
      HandleAnnotations(visibleType);
      UnionAssoc(base, AnnotationsConsumed(visible) + AnnotationsConsumed(invisible), AnnotationsConsumed(visibleType));
      HandleAnnotations(invisibleType);
      UnionAssoc(base, AnnotationsConsumed(visible) + AnnotationsConsumed(invisible) + AnnotationsConsumed(visibleType),
                 AnnotationsConsumed(invisibleType));
    }

    /** Hands every annotation of a list to `HandleAnnotationData`, in order. */
    method HandleAnnotations(anns: seq<AnnotationNode>)
      modifies this
      ensures declared == old(declared)
      ensures consumed == old(consumed) + AnnotationsConsumed(anns)
    {
      for i := 0 to |anns|
        invariant declared == old(declared)
        invariant consumed == old(consumed) + UnionPrefix(anns, i, AnnotationConsumed)
      {
        HandleAnnotationData(anns[i]);
        FoldStep(old(consumed), anns, i, AnnotationConsumed);
      }
    }

    /**
     * Adds the annotation's own type, then handles the value of every pair
     * kept in the name-to-value map. `declared` is handed in but never written.
     */
    method HandleAnnotationData(a: AnnotationNode)
      modifies this
      ensures declared == old(declared)
      ensures consumed == old(consumed) + AnnotationConsumed(a)
      decreases a
    {
      consumed := consumed + {ClassName(a.desc)};
      var pairs := CollectPairs(a);
      ghost var start := consumed;
      var remaining := pairs.Values;
      ghost var visited: set<AnnotationValue> := {};
      ConsumedByValuesEmpty();
      UnionEmpty(start);
      while remaining != {}
        invariant visited !! remaining && visited + remaining == pairs.Values
        invariant declared == old(declared)
        invariant consumed == start + ConsumedByValues(visited)
        decreases remaining
      {
        var v :| v in remaining;
        // The value comes from a pair of `a`, so it is smaller than `a`.
        PairMapValues(a.elements, v);
        ghost var j :| LastPairFor(a.elements, j) && a.elements[j].value == v;
        HandleAnnotationValue(v);
        ConsumedByValuesAdd(visited, v);
        UnionAssoc(start, ConsumedByValues(visited), ValueConsumed(v));
        visited := visited + {v};
        remaining := remaining - {v};
      }
      assert visited == pairs.Values;
      UnionAssoc(old(consumed), {ClassName(a.desc)}, ConsumedByValues(visited));
      MapValuesConsumed(a);
    }

    /** Adds the names an annotation value refers to, recursing through lists and nested annotations. */
    method HandleAnnotationValue(v: AnnotationValue)
      modifies this
      ensures declared == old(declared)
      ensures consumed == old(consumed) + ValueConsumed(v)
      decreases v
    {
      match v
      case ListValue(items) =>
        var i := 0;
        while i < |items|
          invariant 0 <= i <= |items|
          invariant declared == old(declared)
          invariant consumed == old(consumed) + ValuesConsumed(items, i)
        {
          HandleAnnotationValue(items[i]);
          UnionAssoc(old(consumed), ValuesConsumed(items, i), ValueConsumed(items[i]));
          i := i + 1;
        }
      case TypeValue(t) =>
        consumed := consumed + {ClassName(t)};
      case EnumValue(enumType, _) =>
        consumed := consumed + {ClassName(enumType)};
      case NestedAnnotation(nested) =>
        HandleAnnotationData(nested);
      case Constant =>
        UnionEmpty(consumed);
      case StringValue(_) =>
        UnionEmpty(consumed);
    }
  }

  /** Scans every file of an artifact, in order; the result is the fold of all classes found. */
  method ScanArtifact(artifactName: string, artifactFiles: seq<ArtifactFile>) returns (r: ArtifactScanResult)
    ensures r.artifactName == artifactName
    ensures r.declared == NodesDeclared(AllNodes(artifactFiles))
    ensures r.consumed == NodesConsumed(AllNodes(artifactFiles))
  {
    var acc := new Accumulator();
    acc.HandleFiles(artifactFiles);
    UnionEmpty(UnionOver(artifactFiles, FileDeclared));
    UnionEmpty(UnionOver(artifactFiles, FileConsumed));
    FilesFold(artifactFiles, |artifactFiles|);
    assert artifactFiles[..|artifactFiles|] == artifactFiles;
    r := ArtifactScanResult(artifactName, acc.declared, acc.consumed);
  }
}
