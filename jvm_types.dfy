/**
 * Decoded JVM types, as the class-file decoder hands them to the scanner.
 *
 * The decoder's `Type` has a sort (one of the nine primitive sorts, ARRAY,
 * OBJECT or METHOD). A field descriptor never denotes a method type and an
 * array's element is never a method type, so the model splits the sorts in two
 * levels: `FieldType` for everything a field, parameter or class literal can
 * have, and `JType` for a type of any sort, a method type included. Parsing
 * descriptor strings is the decoder's job and is not modelled.
 */
module JvmTypes {
  import opened Wrappers

  /** An internal class name, such as `java/lang/String`, with every `/` replaced by `.`. */
  function Dotted(s: string): (r: string)
    ensures |r| == |s|
    ensures forall i | 0 <= i < |s| :: r[i] == (if s[i] == '/' then '.' else s[i])
    ensures '/' !in r
  {
    if s == [] then [] else [if s[0] == '/' then '.' else s[0]] + Dotted(s[1..])
  }

  lemma DottedIdempotent(s: string)
    ensures Dotted(Dotted(s)) == Dotted(s)
  {
    var d := Dotted(s);
    assert forall i | 0 <= i < |d| :: d[i] != '/' by {
      forall i | 0 <= i < |d| ensures d[i] != '/' {
        assert d[i] in d;
      }
    }
  }

  /** A name without `/` is left as it is: an already dotted name is a fixed point. */
  lemma DottedWithoutSlash(s: string)
    requires '/' !in s
    ensures Dotted(s) == s
  {
    forall i | 0 <= i < |s| ensures Dotted(s)[i] == s[i] {
      assert s[i] in s;
    }
  }

  datatype PrimitiveKind = Void | Boolean | Char | Byte | Short | Int | Float | Long | Double

  /** A type a field, a parameter, a return value or a class literal can have. */
  datatype FieldType =
    | Primitive(kind: PrimitiveKind)
    | Object(internalName: string)
    | Array(elem: FieldType)

  /** A type of any sort, as produced by decoding any descriptor. */
  datatype JType =
    | Field(t: FieldType)
    | Method(args: seq<FieldType>, ret: FieldType)

  function PrimitiveName(k: PrimitiveKind): string
  {
    match k
    case Void => "void"
    case Boolean => "boolean"
    case Char => "char"
    case Byte => "byte"
    case Short => "short"
    case Int => "int"
    case Float => "float"
    case Long => "long"
    case Double => "double"
  }

  /** The innermost element type of an array type; a non-array type is its own element type. */
  function ElementType(t: FieldType): (e: FieldType)
    ensures !e.Array?
  {
    match t
    case Array(inner) => ElementType(inner)
    case _ => t
  }

  /** Number of array dimensions. */
  function Dimensions(t: FieldType): nat
  {
    match t
    case Array(inner) => 1 + Dimensions(inner)
    case _ => 0
  }

  /** `e` wrapped in `n` array layers. */
  function Wrap(e: FieldType, n: nat): FieldType
  {
    if n == 0 then e else Array(Wrap(e, n - 1))
  }

  lemma WrapOuter(e: FieldType, n: nat)
    ensures Wrap(e, n + 1) == Wrap(Array(e), n)
  {
    if n > 0 {
      WrapOuter(e, n - 1);
    }
  }

  /** Every type is its element type wrapped in one array layer per dimension. */
  lemma {:induction false} ElementTypeWraps(t: FieldType)
    ensures Wrap(ElementType(t), Dimensions(t)) == t
  {
    match t
    case Array(inner) =>
      ElementTypeWraps(inner);
      assert Wrap(ElementType(t), Dimensions(t)) == Array(Wrap(ElementType(inner), Dimensions(inner)));
    case _ =>
  }

  /** Repeated `[]` suffix. */
  function Brackets(n: nat): (r: string)
    ensures |r| == 2 * n
  {
    if n == 0 then "" else Brackets(n - 1) + "[]"
  }

  /**
   * The decoder's `className` of a non-method type: the Java source name of a
   * primitive, the dotted internal name of a class, and the element's name
   * followed by one `[]` per dimension for an array.
   */
  function ClassName(t: FieldType): string
  {
    match t
    case Primitive(k) => PrimitiveName(k)
    case Object(n) => Dotted(n)
    case Array(inner) => ClassName(inner) + "[]"
  }

  lemma {:induction false} ClassNameOfArray(t: FieldType)
    ensures ClassName(t) == ClassName(ElementType(t)) + Brackets(Dimensions(t))
  {
    match t
    case Array(inner) =>
      ClassNameOfArray(inner);
      assert ClassName(t) == ClassName(ElementType(inner)) + Brackets(Dimensions(inner)) + "[]";
    case _ =>
  }

  /** The extractor handed to `objectType` at the field and parameter call sites: the type's `className`. */
  function ClassNameOf(t: JType): Option<string>
  {
    match t
    case Field(f) => Some(ClassName(f))
    // The decoder raises an error for a method type; ObjectType never hands it one.
    case Method(_, _) => None
  }

  /**
   * `objectType`: an OBJECT type gives the extractor's result, an ARRAY type
   * the result for its element type, and every other sort (the primitives and
   * METHOD) gives no name.
   */
  function ObjectType(t: JType, extract: JType -> Option<string>): (r: Option<string>)
    ensures r.Some? ==> t.Field? && ElementType(t.t).Object?
  {
    match t
    case Method(_, _) => None
    case Field(f) => ObjectTypeOfField(f, extract)
  }

  function ObjectTypeOfField(f: FieldType, extract: JType -> Option<string>): (r: Option<string>)
    ensures r.Some? ==> ElementType(f).Object?
  {
    match f
    case Object(_) => extract(Field(f))
    case Array(inner) => ObjectTypeOfField(inner, extract)
    case Primitive(_) => None
  }

  /**
   * A field or parameter type gives the extractor's result for its innermost
   * element type when that is a class, and nothing when it is a primitive.
   */
  lemma {:induction false} ObjectTypeIsElementClass(f: FieldType, extract: JType -> Option<string>)
    ensures ObjectType(Field(f), extract)
         == (if ElementType(f).Object? then extract(Field(ElementType(f))) else None)
  {
    match f
    case Array(inner) => ObjectTypeIsElementClass(inner, extract);
    case _ =>
  }

  /** With the `className` extractor the result is the element's dotted class name. */
  lemma ObjectClassName(f: FieldType)
    ensures ObjectType(Field(f), ClassNameOf)
         == (if ElementType(f).Object? then Some(Dotted(ElementType(f).internalName)) else None)
  {
    ObjectTypeIsElementClass(f, ClassNameOf);
  }

  /** A method type never yields a name, whatever extractor is passed. */
  lemma ObjectTypeOfMethodIsNone(args: seq<FieldType>, ret: FieldType, extract: JType -> Option<string>)
    ensures ObjectType(Method(args, ret), extract) == None
  {
  }

  /** The extractor `handleMethodData` passes for the return type: the return type's element class name. */
  function ReturnTypeOf(t: JType): (r: Option<string>)
    ensures r.Some? ==> t.Method? && ElementType(t.ret).Object?
  {
    match t
    case Method(_, ret) => ObjectType(Field(ret), ClassNameOf)
    // `ObjectType` hands its extractor only a class type, on which the decoder's
    // `returnType` raises an error; since the call site passes a method type,
    // this extractor is never applied at all, and neither case is reached.
    case Field(_) => None
  }

  // Access flags, as the class file stores them.
  type AccessFlags = bv32

  const ACC_PUBLIC: AccessFlags := 0x0001
  const ACC_PRIVATE: AccessFlags := 0x0002
  const ACC_PROTECTED: AccessFlags := 0x0004

  /**
   * The visibility filter applied to fields and methods: public or protected.
   * The masked value is at most 5, so the signed and unsigned readings of
   * `> 0` agree.
   */
  predicate IsVisible(access: AccessFlags)
  {
    access & (ACC_PUBLIC | ACC_PROTECTED) > 0
  }

  lemma VisibleIffPublicOrProtected(access: AccessFlags)
    ensures IsVisible(access) <==> (access & ACC_PUBLIC != 0 || access & ACC_PROTECTED != 0)
  {
  }
}
