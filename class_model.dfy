/**
 * The decoded form of one compiled class, as the tree API of the class-file
 * decoder presents it after reading with debug information skipped. Nullable
 * lists of the decoder are sequences here: a null list and an empty list are
 * treated alike by every handler. Descriptor strings appear already decoded.
 */
module ClassModel {
  import opened Wrappers
  import opened JvmTypes

  /**
   * A value of an annotation element: a boxed primitive, a string, a class
   * literal, an enumeration constant (descriptor of the enumeration type and
   * constant name), a nested annotation, or a list of values.
   */
  datatype AnnotationValue =
    | Constant                                  // Byte, Boolean, Character, Short, Integer, Long, Float, Double
    | StringValue(s: string)
    | TypeValue(t: FieldType)
    | EnumValue(enumType: FieldType, constName: string)
    | NestedAnnotation(annotation: AnnotationNode)
    | ListValue(items: seq<AnnotationValue>)

  /** One element of an annotation: its name and its value. */
  datatype ElementValuePair = ElementValuePair(name: string, value: AnnotationValue)

  /**
   * An annotation (or a type annotation: its type reference and path add no
   * type names and are not kept). `desc` is the decoded descriptor of the
   * annotation type; `elements` are its name/value pairs in class-file order,
   * a name possibly repeated.
   */
  datatype AnnotationNode = AnnotationNode(desc: FieldType, elements: seq<ElementValuePair>)

  /** A field, with its decoded field descriptor. */
  datatype FieldNode = FieldNode(
    access: AccessFlags,
    desc: FieldType,
    visibleAnnotations: seq<AnnotationNode>,
    invisibleAnnotations: seq<AnnotationNode>,
    visibleTypeAnnotations: seq<AnnotationNode>,
    invisibleTypeAnnotations: seq<AnnotationNode>)

  /** A method, with its decoded method descriptor split into parameter types and return type. */
  datatype MethodNode = MethodNode(
    access: AccessFlags,
    argumentTypes: seq<FieldType>,
    returnType: FieldType,
    exceptions: seq<string>,
    visibleAnnotations: seq<AnnotationNode>,
    invisibleAnnotations: seq<AnnotationNode>,
    visibleTypeAnnotations: seq<AnnotationNode>,
    invisibleTypeAnnotations: seq<AnnotationNode>,
    visibleParameterAnnotations: seq<seq<AnnotationNode>>,
    invisibleParameterAnnotations: seq<seq<AnnotationNode>>)

  /** The method type its descriptor decodes to. */
  function MethodType(m: MethodNode): JType
  {
    Method(m.argumentTypes, m.returnType)
  }

  datatype ClassNode = ClassNode(
    name: string,
    superName: Option<string>,
    interfaces: seq<string>,
    visibleAnnotations: seq<AnnotationNode>,
    invisibleAnnotations: seq<AnnotationNode>,
    visibleTypeAnnotations: seq<AnnotationNode>,
    invisibleTypeAnnotations: seq<AnnotationNode>,
    fields: seq<FieldNode>,
    methods: seq<MethodNode>)

  // ---------------------------------------------------------------------
  // The decoder stores an annotation's elements in one flat `values` list:
  // each name followed by its value.

  /**
   * The shape of a `values` list the scanner can read: an even number of
   * elements with a string name at every even position.
   */
  predicate NameValueList(values: seq<AnnotationValue>)
  {
    && |values| % 2 == 0
    && forall i | 0 <= i < |values| && i % 2 == 0 :: values[i].StringValue?
  }

  /** The flat `values` list of an annotation with the given elements. */
  function Values(elements: seq<ElementValuePair>): (r: seq<AnnotationValue>)
    ensures |r| == 2 * |elements|
    ensures forall k | 0 <= k < |elements| ::
              r[2 * k] == StringValue(elements[k].name) && r[2 * k + 1] == elements[k].value
  {
    if elements == [] then []
    else [StringValue(elements[0].name), elements[0].value] + Values(elements[1..])
  }

  /** The flat list of any annotation has the shape the scanner reads. */
  lemma ValuesIsNameValueList(ps: seq<ElementValuePair>)
    ensures NameValueList(Values(ps))
  {
    var values := Values(ps);
    forall i | 0 <= i < |values| && i % 2 == 0 ensures values[i].StringValue? {
      assert values[2 * (i / 2)] == StringValue(ps[i / 2].name);
    }
  }

  /**
   * Reading a flat list two elements at a time, the name cast to a string:
   * `None` where the scanner's read fails (a missing value or a name that is
   * not a string).
   */
  function ReadNameValuePairs(values: seq<AnnotationValue>): (r: Option<seq<ElementValuePair>>)
    ensures r.Some? ==> |values| == 2 * |r.value|
    decreases |values|
  {
    if values == [] then Some([])
    else if |values| == 1 || !values[0].StringValue? then None
    else
      match ReadNameValuePairs(values[2..])
      case None => None
      case Some(rest) => Some([ElementValuePair(values[0].s, values[1])] + rest)
  }

  /** Reading succeeds exactly on lists of the decoder's shape. */
  lemma {:induction false} ReadSucceedsIffNameValueList(values: seq<AnnotationValue>)
    ensures ReadNameValuePairs(values).Some? <==> NameValueList(values)
    decreases |values|
  {
    if |values| >= 2 {
      var rest := values[2..];
      ReadSucceedsIffNameValueList(rest);
      assert forall i | 0 <= i < |rest| :: rest[i] == values[i + 2];
      if NameValueList(values) {
        assert NameValueList(rest) by {
          forall i | 0 <= i < |rest| && i % 2 == 0 ensures rest[i].StringValue? {
            assert values[i + 2].StringValue?;
          }
        }
      }
      if values[0].StringValue? && NameValueList(rest) {
        forall i | 0 <= i < |values| && i % 2 == 0 ensures values[i].StringValue? {
          if i >= 2 { assert rest[i - 2] == values[i]; }
        }
      }
    }
  }

  /** Reading the flat list of an annotation gives back its elements. */
  lemma {:induction false} ReadValues(elements: seq<ElementValuePair>)
    ensures ReadNameValuePairs(Values(elements)) == Some(elements)
    decreases |elements|
  {
    if elements != [] {
      var vs := Values(elements);
      assert vs[2..] == Values(elements[1..]);
      ReadValues(elements[1..]);
      assert [elements[0]] + elements[1..] == elements;
    }
  }

  /** Whatever reads successfully is the flat list of what it reads as. */
  lemma {:induction false} ReadIsValues(values: seq<AnnotationValue>)
    requires ReadNameValuePairs(values).Some?
    ensures Values(ReadNameValuePairs(values).value) == values
    decreases |values|
  {
    if values != [] {
      var rest := values[2..];
      ReadIsValues(rest);
      var ps := ReadNameValuePairs(values).value;
      assert ps[1..] == ReadNameValuePairs(rest).value;
      assert values == [values[0], values[1]] + rest;
    }
  }

  /** Every annotation of each parameter, parameter by parameter. */
  function Flatten(lists: seq<seq<AnnotationNode>>): (r: seq<AnnotationNode>)
    ensures forall a :: a in r <==> exists i | 0 <= i < |lists| :: a in lists[i]
  {
    if lists == [] then [] else Flatten(lists[..|lists| - 1]) + lists[|lists| - 1]
  }

  /**
   * One entry of an artifact's file collection. `present` says whether the
   * file exists; `kind` is what the file system reports: a directory, a file
   * with the `jar` extension, or any other file. `classes` holds the decoded
   * classes the file would be read as: every `.class` file under a directory,
   * or every non-directory `.class` entry of a jar.
   */
  datatype FileKind = Directory | JarFile | OtherFile

  datatype ArtifactFile = ArtifactFile(present: bool, kind: FileKind, classes: seq<ClassNode>)
}
