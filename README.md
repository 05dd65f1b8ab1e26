# apiscanner, modelled in Dafny

apiscanner is a Gradle plugin. Its task tells which of a project's
dependencies belong in its public ABI, and it works in two stages.

**Scanning.** An `ArtifactScanner` reads every compiled class of an artifact
and fills two sets:
- `declared`: the dotted name of every class it reads;
- `consumed`: every type the class's externally visible surface refers to. That surface is:
  - the super class and the interfaces;
  - the element class of every public or protected field;
  - the thrown types and parameter types of every public or protected method;
  - the type of every annotation on the class and its visible members, and every type an annotation value names: class literals, enumeration types, nested annotations, and lists of these.

**Classification.** The task then classifies the local classes' requirements, meaning the types they consume but do not declare:
- it collects the configuration's dependencies transitively;
- it groups each requirement under every dependency that declares it;
- it lists the requirements nobody declares, except names starting with `java`;
- it lists the first-level dependencies nothing is resolved from.

The project has these parts:

- `jvm_types.dfy` (module `JvmTypes`): decoded JVM types and `objectType`.
  - A type is a `FieldType` (primitive, class, or array of a field type) or a method type.
  - `className` is modelled as the class-file decoder defines it.
  - `objectType` takes an extractor function, as the source does.
  - Also here: the access flags and the public-or-protected visibility filter.
- `class_model.dfy` (module `ClassModel`): the decoded class, field, method and annotation nodes.
  - An annotation stores its name/value pairs.
  - `Values` rebuilds the decoder's flat `values` list from the pairs.
  - `ReadNameValuePairs` reads that list back, failing where the scanner's iterator or cast would fail.
- `extraction.dfy` (module `Extraction`): as functions, what each class, field, method, annotation and annotation value contributes to `declared` and `consumed`, with the lemmas about those sets.
- `artifact_scanner.dfy` (module `ArtifactScanner`): the scanner itself.
  - A class `Accumulator` holds the two mutable sets.
  - Its methods mirror `handleClassData`, `handleMethodData`, `handleFieldData`, `handleAnnotationData` and `handleAnnotationValue`, mutating the sets in place.
  - Each method is proved to add exactly the set the matching function of `Extraction` describes.
  - `ScanArtifact` folds every file of an artifact.
  - `CollectPairs` is the `while` loop that reads the flat `values` list into a name-to-value map.
- `classification.dfy` (module `Classification`): `collectModuleDependencies` and the classification expressions of `scanConfiguration`, as pure functions over sets and maps; also the order of the printed resolved report.
- `string_order.dfy` (module `StringOrder`): the order `String.compareTo` gives; sorted sequences.
- `wrappers.dfy` (module `Wrappers`): `Option`.

Three behaviours of the code that the model reproduces:

- **Method return types are never consumed.** Line 86 of `ArtifactScanner.kt` applies `objectType` to the whole method type. That type's sort is METHOD, so the outer call always yields null. In the model the return-type branch is dead, and `MethodConsumedIgnoresReturnType` proves that a method's return type has no influence on `consumed`.
- **Class literals and enumeration types are not normalized.** Only field and parameter types go through `objectType`, which reduces arrays to their element type and drops primitives. An annotation's own type, a class-literal value and an enumeration type are added through `className`. So an `int.class` value adds `int`, and a `String[].class` value adds `java.lang.String[]`.
- **Only the resolved report is sorted.** Its keys go through `toSortedMap` and each group through `toSortedSet`. The unresolved list and the implementation list are printed in set iteration order.

## Model

| member | source | states |
|---|---|---|
| JvmTypes.Dotted | src/main/kotlin/com/github/fraenkelc/apiscanner/ArtifactScanner.kt:67 | the converted name has the same length, every `/` becomes `.`, every other character is kept, and no `/` remains |
| JvmTypes.DottedIdempotent | src/main/kotlin/com/github/fraenkelc/apiscanner/ArtifactScanner.kt:67 | converting an already converted name changes nothing |
| JvmTypes.DottedWithoutSlash | src/main/kotlin/com/github/fraenkelc/apiscanner/ArtifactScanner.kt:67 | a name without `/` is its own dotted form |
| JvmTypes.ElementType | src/main/kotlin/com/github/fraenkelc/apiscanner/ArtifactScanner.kt:109 | unwrapping arrays ends at a type that is not an array |
| JvmTypes.ElementTypeWraps | src/main/kotlin/com/github/fraenkelc/apiscanner/ArtifactScanner.kt:109 | every type is its element type wrapped in exactly `Dimensions` array layers |
| JvmTypes.ClassNameOfArray | src/main/kotlin/com/github/fraenkelc/apiscanner/ArtifactScanner.kt:149 | `className` of an array type is its element type's name followed by one `[]` per dimension |
| JvmTypes.ObjectType | src/main/kotlin/com/github/fraenkelc/apiscanner/ArtifactScanner.kt:106-111 | only a field type whose element type is a class yields a name; its full meaning is `ObjectTypeIsElementClass` |
| JvmTypes.ObjectTypeOfField | src/main/kotlin/com/github/fraenkelc/apiscanner/ArtifactScanner.kt:106-111 | a field type yields a name only when its innermost element type is a class |
| JvmTypes.ObjectTypeIsElementClass | src/main/kotlin/com/github/fraenkelc/apiscanner/ArtifactScanner.kt:106-111 | for any extractor, `objectType` of a field type is the extractor's result on the innermost element type when that is a class, and null for a primitive or an array of primitives |
| JvmTypes.ObjectClassName | src/main/kotlin/com/github/fraenkelc/apiscanner/ArtifactScanner.kt:99 | with the `className` extractor, a field type yields the dotted name of its element class, or null when the element is primitive |
| JvmTypes.ObjectTypeOfMethodIsNone | src/main/kotlin/com/github/fraenkelc/apiscanner/ArtifactScanner.kt:86 | `objectType` of a method type is null whatever the extractor, so the return-type lookup never yields a name |
| JvmTypes.ReturnTypeOf | src/main/kotlin/com/github/fraenkelc/apiscanner/ArtifactScanner.kt:86 | the return-type extractor yields a name only for a method type whose return element type is a class; `ObjectTypeOfMethodIsNone` shows it is never applied |
| JvmTypes.VisibleIffPublicOrProtected | src/main/kotlin/com/github/fraenkelc/apiscanner/ArtifactScanner.kt:75 | the visibility filter passes exactly the members whose public bit or protected bit is set |
| ClassModel.Values | src/main/kotlin/com/github/fraenkelc/apiscanner/ArtifactScanner.kt:122-128 | the flat list has two entries per pair: the k-th name as a string at position 2k and its value at 2k+1 |
| ClassModel.ValuesIsNameValueList | src/main/kotlin/com/github/fraenkelc/apiscanner/ArtifactScanner.kt:122-128 | the flat list of every annotation has even length and a string at every even position |
| ClassModel.ReadNameValuePairs | src/main/kotlin/com/github/fraenkelc/apiscanner/ArtifactScanner.kt:122-128 | a successful read takes exactly two list entries per pair |
| ClassModel.ReadSucceedsIffNameValueList | src/main/kotlin/com/github/fraenkelc/apiscanner/ArtifactScanner.kt:122-128 | reading succeeds if and only if the list has even length and a string at every even position; otherwise `next()` or the cast fails |
| ClassModel.ReadValues | src/main/kotlin/com/github/fraenkelc/apiscanner/ArtifactScanner.kt:122-128 | reading an annotation's flat list gives back its pairs |
| ClassModel.ReadIsValues | src/main/kotlin/com/github/fraenkelc/apiscanner/ArtifactScanner.kt:122-128 | a list that reads successfully is the flat list of the pairs it reads as |
| ClassModel.Flatten | src/main/kotlin/com/github/fraenkelc/apiscanner/ArtifactScanner.kt:92 | an annotation is in the flattened list exactly when it annotates some parameter |
| Extraction.UnionPrefixMembership | src/main/kotlin/com/github/fraenkelc/apiscanner/ArtifactScanner.kt:58-60 | after n steps of a `forEach` fold, a name is accumulated exactly when one of the first n elements contributes it |
| Extraction.UnionOverMembership | src/main/kotlin/com/github/fraenkelc/apiscanner/ArtifactScanner.kt:58-60 | after a whole `forEach` fold, a name is accumulated exactly when some element contributes it |
| Extraction.UnionOverAppend | src/main/kotlin/com/github/fraenkelc/apiscanner/ArtifactScanner.kt:32-62 | folding two lists one after the other gives the union of folding each |
| Extraction.UnionOverSameElements | src/main/kotlin/com/github/fraenkelc/apiscanner/ArtifactScanner.kt:58-60 | lists with the same elements, in any order and with any repetitions, fold to the same set |
| Extraction.LastPairForIff | src/main/kotlin/com/github/fraenkelc/apiscanner/ArtifactScanner.kt:127 | a pair is the last one with its name exactly when no later pair has that name |
| Extraction.PairsAfterKeys | src/main/kotlin/com/github/fraenkelc/apiscanner/ArtifactScanner.kt:121-129 | after reading n pairs, the map's keys are exactly the first n names |
| Extraction.PairsAfterLastWins | src/main/kotlin/com/github/fraenkelc/apiscanner/ArtifactScanner.kt:127 | a pair whose name does not recur among the first n supplies that name's value after n reads |
| Extraction.PairMap | src/main/kotlin/com/github/fraenkelc/apiscanner/ArtifactScanner.kt:121-129 | the map's keys are exactly the annotation's names; `PairMapLastWins` and `PairMapValues` give its values |
| Extraction.PairMapLastWins | src/main/kotlin/com/github/fraenkelc/apiscanner/ArtifactScanner.kt:127 | when a name repeats, the map keeps the value of its last pair |
| Extraction.PairMapValues | src/main/kotlin/com/github/fraenkelc/apiscanner/ArtifactScanner.kt:121-130 | a value is among the map's values exactly when it belongs to a pair that is the last with its name |
| Extraction.ValuesConsumedMembership | src/main/kotlin/com/github/fraenkelc/apiscanner/ArtifactScanner.kt:148 | a list value contributes what any of its elements contributes, and nothing else |
| Extraction.AnnotationConsumedMembership | src/main/kotlin/com/github/fraenkelc/apiscanner/ArtifactScanner.kt:118-131 | an annotation contributes its own type's name and what the last pair of each name contributes; a value overwritten by a later pair of the same name contributes nothing |
| Extraction.MapValuesConsumed | src/main/kotlin/com/github/fraenkelc/apiscanner/ArtifactScanner.kt:130 | visiting the values of the name-to-value map contributes exactly what the annotation's retained pairs contribute |
| Extraction.MethodConsumedIgnoresReturnType | src/main/kotlin/com/github/fraenkelc/apiscanner/ArtifactScanner.kt:85-86 | replacing a method's return type leaves what the method contributes unchanged |
| Extraction.ClassHierarchyConsumed | src/main/kotlin/com/github/fraenkelc/apiscanner/ArtifactScanner.kt:68-69 | the dotted super class, when there is one, and every dotted interface are consumed by the class |
| Extraction.HiddenFieldContributesNothing | src/main/kotlin/com/github/fraenkelc/apiscanner/ArtifactScanner.kt:75-76 | removing a field that is neither public nor protected leaves what the class consumes unchanged |
| Extraction.HiddenMethodContributesNothing | src/main/kotlin/com/github/fraenkelc/apiscanner/ArtifactScanner.kt:77-78 | removing a method that is neither public nor protected leaves what the class consumes unchanged |
| Extraction.VisibleFieldTypeConsumed | src/main/kotlin/com/github/fraenkelc/apiscanner/ArtifactScanner.kt:99 | a public or protected field whose (innermost element) type is a class makes the class consume that class's dotted name |
| Extraction.VisibleMethodSignatureConsumed | src/main/kotlin/com/github/fraenkelc/apiscanner/ArtifactScanner.kt:84-87 | a public or protected method makes the class consume every thrown type and the element class of every class-typed parameter |
| Extraction.AllNodesMembership | src/main/kotlin/com/github/fraenkelc/apiscanner/ArtifactScanner.kt:32-62 | a class is scanned exactly when some file of the artifact is read as containing it |
| Extraction.FilesFold | src/main/kotlin/com/github/fraenkelc/apiscanner/ArtifactScanner.kt:32-62 | folding file by file gives the same two sets as folding over all classes the files are read as |
| Extraction.NodesDeclaredIsNames | src/main/kotlin/com/github/fraenkelc/apiscanner/ArtifactScanner.kt:67 | `declared` is exactly the set of dotted names of the scanned classes |
| Extraction.NodesConsumedMembership | src/main/kotlin/com/github/fraenkelc/apiscanner/ArtifactScanner.kt:58-60 | a name is consumed exactly when some scanned class consumes it |
| Extraction.ScanIgnoresOrder | src/main/kotlin/com/github/fraenkelc/apiscanner/ArtifactScanner.kt:58-60 | two enumerations of the same classes, in any order, give the same `declared` and `consumed` |
| Extraction.IgnoredFileContributesNothing | src/main/kotlin/com/github/fraenkelc/apiscanner/ArtifactScanner.kt:33-56 | removing a missing file, or one that is neither a directory nor a jar, leaves the scanned classes unchanged |
| ArtifactScanner.CollectPairs | src/main/kotlin/com/github/fraenkelc/apiscanner/ArtifactScanner.kt:121-129 | reading the flat list two entries at a time builds exactly the last-pair-wins map of the annotation's pairs |
| ArtifactScanner.Accumulator.constructor | src/main/kotlin/com/github/fraenkelc/apiscanner/ArtifactScanner.kt:30-31 | both sets start empty |
| ArtifactScanner.Accumulator.HandleClassData | src/main/kotlin/com/github/fraenkelc/apiscanner/ArtifactScanner.kt:66-79 | `declared` gains exactly the class's dotted name; `consumed` gains exactly the hierarchy, annotations, visible fields and visible methods of the class |
| ArtifactScanner.Accumulator.HandleFields | src/main/kotlin/com/github/fraenkelc/apiscanner/ArtifactScanner.kt:75-76 | `consumed` gains what the public and protected fields contribute, and nothing from the others; `declared` is unchanged |
| ArtifactScanner.Accumulator.HandleMethods | src/main/kotlin/com/github/fraenkelc/apiscanner/ArtifactScanner.kt:77-78 | `consumed` gains what the public and protected methods contribute, and nothing from the others; `declared` is unchanged |
| ArtifactScanner.Accumulator.HandleClasses | src/main/kotlin/com/github/fraenkelc/apiscanner/ArtifactScanner.kt:58-60 | the sets gain exactly the fold of the classes read from one file |
| ArtifactScanner.Accumulator.HandleFiles | src/main/kotlin/com/github/fraenkelc/apiscanner/ArtifactScanner.kt:32-62 | the sets gain exactly the fold, file by file, of what each file is read as |
| ArtifactScanner.Accumulator.HandleFile | src/main/kotlin/com/github/fraenkelc/apiscanner/ArtifactScanner.kt:33-57 | a present directory or jar adds its classes; a missing file or any other file adds nothing |
| ArtifactScanner.Accumulator.HandleMethodData | src/main/kotlin/com/github/fraenkelc/apiscanner/ArtifactScanner.kt:81-94 | `consumed` gains exactly the thrown types, the parameter element classes and the names from all annotation lists, the parameter annotations included; the return-type branch is unreachable; `declared` is unchanged |
| ArtifactScanner.Accumulator.HandleFieldData | src/main/kotlin/com/github/fraenkelc/apiscanner/ArtifactScanner.kt:96-104 | `consumed` gains exactly the field's element class, if it has one, and the names from its four annotation lists; `declared` is unchanged |
| ArtifactScanner.Accumulator.HandleDeclarationAnnotations | src/main/kotlin/com/github/fraenkelc/apiscanner/ArtifactScanner.kt:70-73 | `consumed` gains exactly what the visible, invisible, visible type and invisible type annotations contribute |
| ArtifactScanner.Accumulator.HandleAnnotations | src/main/kotlin/com/github/fraenkelc/apiscanner/ArtifactScanner.kt:114-116 | handling a list of annotations (type annotations included) adds the fold of their contributions |
| ArtifactScanner.Accumulator.HandleAnnotationData | src/main/kotlin/com/github/fraenkelc/apiscanner/ArtifactScanner.kt:118-131 | `consumed` gains exactly the annotation's type name and the contributions of the values the map keeps; `declared`, though handed in, is never changed |
| ArtifactScanner.Accumulator.HandleAnnotationValue | src/main/kotlin/com/github/fraenkelc/apiscanner/ArtifactScanner.kt:138-153 | lists recurse element by element, class literals and enumeration constants add their type's `className`, nested annotations recurse, constants and strings add nothing; `declared` is unchanged |
| ArtifactScanner.ScanArtifact | src/main/kotlin/com/github/fraenkelc/apiscanner/ArtifactScanner.kt:29-64 | the result carries the artifact's name, `declared` is the fold of the scanned classes' names and `consumed` the fold of their contributions |
| Classification.Closure | src/main/kotlin/com/github/fraenkelc/apiscanner/ApiScannerTask.kt:82 | a dependency belongs to its own closure |
| Classification.CollectModuleDependencies | src/main/kotlin/com/github/fraenkelc/apiscanner/ApiScannerTask.kt:81-82 | the inputs are collected; `CollectUnfolds` and `CollectIsLeast` pin the rest down |
| Classification.CollectUnfolds | src/main/kotlin/com/github/fraenkelc/apiscanner/ApiScannerTask.kt:81-82 | the collection satisfies the recursive equation it is written as: the inputs plus the collection of every input's children |
| Classification.CollectContainsInput | src/main/kotlin/com/github/fraenkelc/apiscanner/ApiScannerTask.kt:82 | every input dependency is collected |
| Classification.CollectClosedUnderChildren | src/main/kotlin/com/github/fraenkelc/apiscanner/ApiScannerTask.kt:82 | the children of a collected dependency are collected |
| Classification.CollectIsLeast | src/main/kotlin/com/github/fraenkelc/apiscanner/ApiScannerTask.kt:81-82 | every set that holds the inputs and is closed under children holds the collection, so nothing else is collected |
| Classification.Requirements | src/main/kotlin/com/github/fraenkelc/apiscanner/ApiScannerTask.kt:52 | the requirements are consumed, disjoint from the local `declared`, and together with it cover everything consumed |
| Classification.GroupBy | src/main/kotlin/com/github/fraenkelc/apiscanner/ApiScannerTask.kt:57 | a key is present exactly when some element has it, and its group holds exactly the values of the elements with that key |
| Classification.GroupsNonEmpty | src/main/kotlin/com/github/fraenkelc/apiscanner/ApiScannerTask.kt:57 | no group is empty |
| Classification.RequirementSources | src/main/kotlin/com/github/fraenkelc/apiscanner/ApiScannerTask.kt:53-56 | a pair is present exactly when it joins a requirement to a collected dependency that declares it |
| Classification.ResolvedRequirements | src/main/kotlin/com/github/fraenkelc/apiscanner/ApiScannerTask.kt:52-57 | every group holds only requirements; `ResolvedRequirementsExact` gives keys and groups exactly |
| Classification.ResolvedRequirementsExact | src/main/kotlin/com/github/fraenkelc/apiscanner/ApiScannerTask.kt:52-57 | a name is a key exactly when a dependency of that name declares some requirement; its group is exactly the requirements those dependencies declare, and is never empty |
| Classification.UnresolvedRequirements | src/main/kotlin/com/github/fraenkelc/apiscanner/ApiScannerTask.kt:58-59 | the result is a subset of the requirements, disjoint from every group, and contains no name starting with `java`; every requirement is grouped, unresolved, or starts with `java` |
| Classification.ImplementationDependencies | src/main/kotlin/com/github/fraenkelc/apiscanner/ApiScannerTask.kt:73 | the result is disjoint from the resolved keys and holds only first-level names, and it holds every first-level name that is not a key |
| Classification.Classify | src/main/kotlin/com/github/fraenkelc/apiscanner/ApiScannerTask.kt:52-73 | neither a group nor the unresolved list holds a type the local classes declare or do not use |
| Classification.ClassifyResolved | src/main/kotlin/com/github/fraenkelc/apiscanner/ApiScannerTask.kt:52-57 | a type is listed under a name exactly when the local classes use it without declaring it and some collected dependency of that name declares it |
| Classification.ClassifyPartition | src/main/kotlin/com/github/fraenkelc/apiscanner/ApiScannerTask.kt:52-59 | each requirement is either resolved, or unresolved, or neither because it starts with `java`, and never two of these |
| Classification.ResolvedReport | src/main/kotlin/com/github/fraenkelc/apiscanner/ApiScannerTask.kt:67-68 | the report has one entry per key, and every entry is a key |
| Classification.ResolvedReportOrdered | src/main/kotlin/com/github/fraenkelc/apiscanner/ApiScannerTask.kt:67 | the report's keys are strictly increasing |
| Classification.ResolvedReportComplete | src/main/kotlin/com/github/fraenkelc/apiscanner/ApiScannerTask.kt:67 | every key appears in the report |
| Classification.ResolvedReportGroups | src/main/kotlin/com/github/fraenkelc/apiscanner/ApiScannerTask.kt:68 | each entry lists exactly its group's types, strictly increasing |
| StringOrder.LessIrreflexive | src/main/kotlin/com/github/fraenkelc/apiscanner/ApiScannerTask.kt:67-68 | no name sorts before itself |
| StringOrder.LessTransitive | src/main/kotlin/com/github/fraenkelc/apiscanner/ApiScannerTask.kt:67-68 | the order is transitive |
| StringOrder.LessTotal | src/main/kotlin/com/github/fraenkelc/apiscanner/ApiScannerTask.kt:67-68 | of two different names, one sorts before the other |
| StringOrder.LessAsymmetric | src/main/kotlin/com/github/fraenkelc/apiscanner/ApiScannerTask.kt:67-68 | two names never sort before each other |
| StringOrder.LeastExists | src/main/kotlin/com/github/fraenkelc/apiscanner/ApiScannerTask.kt:67-68 | every non-empty set of names has a least element |
| StringOrder.SortedElements | src/main/kotlin/com/github/fraenkelc/apiscanner/ApiScannerTask.kt:68 | a set's sorted listing is strictly increasing and holds exactly the set's elements, each once |

## Left out

- **File access.** Reading files is not modelled:
  - the existence and directory checks;
  - walking a directory;
  - opening a jar and filtering its entries by the `.class` extension.
  
  Each file of an artifact is given as whether it exists, what kind it is, and the decoded classes it would be read as.
- **Decoding.** The class-file decoder (`ClassReader` with debug information skipped) and descriptor parsing are library code. Classes, annotations and types arrive decoded. The exceptions a corrupt class file would raise, which the scanner lets propagate, are not modelled.
- **Nulls.** The decoder's nullable lists and the `filterNotNull` calls are modelled as plain sequences without nulls: a null list acts like an empty one.
- **Ill-formed annotation lists.** A flat annotation `values` list of odd length, or with a non-string name, cannot be built as an `AnnotationNode`. On such a list the scanner fails with an exception; `ReadNameValuePairs` models that failure as `None`.
- **Type-annotation metadata.** The type reference and type path of type annotations carry no type names and are dropped.
- **Task wiring and output.**
  - The Gradle wiring of the task is not modelled: its properties, resolving the configuration, and building one scanner per dependency.
  - Each `Dependency` carries its scan result directly. In the source that result is `ScanArtifact` over the dependency's module artifact files, under its display name.
  - The printing is not modelled, apart from the order of the resolved report.
- **Cyclic graphs.** Dependencies are finite trees of values, so a cyclic dependency graph cannot be represented. On a cycle, the source's recursion would not terminate.
- HandleAnnotationData: the values of the name-to-value map are visited in an arbitrary order, not in the map's insertion order. Only set insertions happen, so the resulting sets are the same.
- GroupBy: groups are sets, not lists. A requirement declared by two dependencies with the same display name appears once, not twice, and the order of a group is not kept.
- UnresolvedRequirements: a set; the source's list follows set iteration order.
- ImplementationDependencies: a set. The source's list follows the iteration order of the first-level set and repeats a name that two first-level dependencies share.
- CollectModuleDependencies: dependencies are compared as values, so two equal dependencies count as one, as they would for equal `ResolvedDependency` objects.
- Less: characters are compared by Unicode code point, whereas `String.compareTo` compares UTF-16 code units. The two orders differ only when characters outside the Basic Multilingual Plane meet characters from U+E000 to U+FFFF.
