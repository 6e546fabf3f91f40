# Roo script generator: a Dafny model

The generator reads an XML Schema and writes a Spring Roo shell script. This project models the logic that builds that script:

- **Type mapper.** It maps XML Schema built-in type names to Roo field types.
- **Field extractor.** It turns one element declaration into a `RooField`: type, cardinality, facets and the unique flag.
- **Name helpers.** Reserved-word escaping, the package prefix derived from the target namespace, and the name of the update script.
- **Field renderer.** `RooField.toString` renders a field as the `field ...` command.
- **First pass of `generateScript`.** For every named complexType or element it prints the entity command, the fields rendered in place and the repository command. It keeps the fields that refer to entities of the schema.
- **Second pass of `generateScript`.** For every kept field it looks up the reciprocal field and classifies the pair: many-to-many, one-to-many, many-to-one, one-to-one, plain reference, scalar field, or nothing. It maintains `alreadyMapped`, `relationCommands` and `mapLater`.

Modules:

| module | contents |
|---|---|
| `Wrappers` | `Option` and `Result` |
| `JavaStrings` | `java.lang.String` and `Integer` operations (`equals`, `indexOf`, `split` with one character, `compareTo`, `parseInt`, `toString`), for ASCII digits and the ASCII case mapping |
| `Fields` | `Cardinality`, the `RooField` record, `ToCommand` (toString), and an independent clause-list description of the rendered line |
| `TypeMapper` | `mapXsdTypeToRooType` |
| `Names` | `convertReservedWords`, `extractPackageFromNamespace` (imperative, with its specification `PackageOf`), the update-script name |
| `FieldExtractor` | `xsdElementToRooField` (imperative, staged like the source; specification `FieldOf`) |
| `EntityBuilder` | the first loop of `generateScript` (imperative; specification `BuildAll`) |
| `Resolver` | the second loop of `generateScript` (imperative; specification `ResolveAll`), the reciprocal lookup and the classification |
| `Generator` | the two loops of `generateScript` joined over the same entity map (imperative; specification `Script`) |

Some definitions differ between the code as written and its evident intent (see "## Findings"). Each such definition has its own `Variant` switch: `AsWritten` reproduces the code and `Corrected` is the evident intent. There are three switches:

- `Context.lookup`: `Corrected` matches the reciprocal field by its schema type.
- `Context.key`: `Corrected` separates the two names of a many-to-many key with `:`.
- `Settings.repository`: `Corrected` names the entity in the repository command by its converted name.

Both output scripts receive the same lines in every modelled section. `Generator.Script` therefore produces one sequence of lines: the first loop's entity sections, the "Entity Relationships" banner, and the second loop's lines. The second loop walks the map that the first loop built.

## Model

| member | source | states |
|---|---|---|
| JavaStrings.IndexOf | src/main/java/com/sarm/utils/spring/roo/RooScriptGenerator.java:754-768 | the result is -1 or an index where the pattern occurs, and no earlier index holds it |
| JavaStrings.ContainsChar | src/main/java/com/sarm/utils/spring/roo/RooScriptGenerator.java:443 | `contains` of a one-character string holds exactly when the character occurs |
| JavaStrings.JavaSplit | src/main/java/com/sarm/utils/spring/roo/RooScriptGenerator.java:771 | no piece contains the separator; without a separator the result is the whole string; otherwise it is all pieces minus the trailing empty ones |
| JavaStrings.SplitAllJoin | src/main/java/com/sarm/utils/spring/roo/RooScriptGenerator.java:777 | joining the pieces with the separator gives the input back |
| JavaStrings.LexLessTotal | src/main/java/com/sarm/utils/spring/roo/RooScriptGenerator.java:552 | `compareTo < 0` is irreflexive, and of two different strings exactly one is smaller |
| JavaStrings.ParseInt | src/main/java/com/sarm/utils/spring/roo/RooScriptGenerator.java:852 | a parsed value is a 32-bit int, the text was an optional sign followed by digits, and the value is the sign applied to the digits' value; conversely, such a text whose value is a 32-bit int always parses |
| JavaStrings.ParseIntNonCanonical | src/main/java/com/sarm/utils/spring/roo/RooScriptGenerator.java:852 | "+5", "007" and "-0" parse to 5, 7 and 0 |
| JavaStrings.ParseIntRejects | src/main/java/com/sarm/utils/spring/roo/RooScriptGenerator.java:852 | "-", "+", "" and "1a" do not parse |
| JavaStrings.ParseIntRange | src/main/java/com/sarm/utils/spring/roo/RooScriptGenerator.java:852 | "2147483648" does not parse, "-2147483648" parses to the least int |
| JavaStrings.IndexOfChar | src/main/java/com/sarm/utils/spring/roo/RooScriptGenerator.java:422 | indexOf of a present character finds it, with no occurrence before |
| JavaStrings.FirstSeparator | src/main/java/com/sarm/utils/spring/roo/RooScriptGenerator.java:422 | the first ':' of x + ":" + y is after x when x has none |
| JavaStrings.DecimalRoundTrip | src/main/java/com/sarm/utils/spring/roo/RooField.java:130-133 | parsing the decimal text of any 32-bit int gives the int back |
| Fields.CommandIsHeaderThenClauses | src/main/java/com/sarm/utils/spring/roo/RooField.java:120-137 | the rendered line is the header followed by the text of the field's clause list |
| Fields.CommandStartsWithHeader | src/main/java/com/sarm/utils/spring/roo/RooField.java:122-125 | every rendered line starts with "field <rooType> --fieldName <fieldName> --class <owningEntity> " ("null" for a null owner) |
| Fields.ClausePresence | src/main/java/com/sarm/utils/spring/roo/RooField.java:126-136 | a clause is rendered iff its attribute is set: the flags when true, lob whenever non-null, valued clauses carrying the attribute's value |
| Fields.ClausesInFixedOrder | src/main/java/com/sarm/utils/spring/roo/RooField.java:126-136 | the clauses appear in strictly increasing rank: unique, notNull, nullRequired, regexp, sizeMin, sizeMax, min, max, transient, value, lob |
| Fields.OptionOfRank | src/main/java/com/sarm/utils/spring/roo/RooField.java:126-136 | the option toString tests at position k, when present, is a clause of rank k |
| Fields.ClauseOptions | src/main/java/com/sarm/utils/spring/roo/RooField.java:126-136 | toString tests eleven optional parts, the one at position k being of rank k |
| Fields.SomesRanked | src/main/java/com/sarm/utils/spring/roo/RooField.java:126-136 | options whose ranks are their positions from a base give clauses of rank at least that base, in strictly increasing order |
| Fields.SomesMember | src/main/java/com/sarm/utils/spring/roo/RooField.java:126-136 | a clause is in the clause list iff one of the options holds it |
| Fields.SomesText | src/main/java/com/sarm/utils/spring/roo/RooField.java:126-136 | the clause list's text equals the concatenated texts of all options, absent options contributing nothing |
| Fields.FlagsText | src/main/java/com/sarm/utils/spring/roo/RooField.java:126-128 | the first three options render as the unique, notNull and nullRequired flags |
| Fields.SizesText | src/main/java/com/sarm/utils/spring/roo/RooField.java:129-131 | options three to five render as the regexp, sizeMin and sizeMax parts |
| Fields.BoundsText | src/main/java/com/sarm/utils/spring/roo/RooField.java:132-133 | options six and seven render as the min and max parts |
| Fields.RestText | src/main/java/com/sarm/utils/spring/roo/RooField.java:134-136 | options eight to ten render as the transient, value and lob parts |
| Fields.LobText | src/main/java/com/sarm/utils/spring/roo/RooField.java:136 | the last option renders as the lob flag, present whenever lob is non-null |
| Fields.ClausesTextAppend | src/main/java/com/sarm/utils/spring/roo/RooField.java:126-136 | the text of two clause lists concatenated is the concatenation of their texts |
| Fields.ClauseAtRank | src/main/java/com/sarm/utils/spring/roo/RooField.java:126-136 | the option at a clause's rank holds that clause iff the field's attribute is set as toString tests it |
| Fields.UnrenderedAttributes | src/main/java/com/sarm/utils/spring/roo/RooField.java:61-66 | cardinality, xsdType, decimalMin, decimalMax and comment never change the rendered line |
| TypeMapper.MapXsdTypeToRooType | src/main/java/com/sarm/utils/spring/roo/RooScriptGenerator.java:945-1036 | it fails exactly when the type equals the XML Schema prefix; a type without the prefix goes straight to the table |
| TypeMapper.PrefixIsStripped | src/main/java/com/sarm/utils/spring/roo/RooScriptGenerator.java:947 | a type starting with the prefix loses prefix-length + 1 characters before the lookup |
| TypeMapper.PrefixedNameUsesLocalPart | src/main/java/com/sarm/utils/spring/roo/RooScriptGenerator.java:947 | "prefix:local" maps like "local" |
| TypeMapper.EmptyPrefixDropsFirstChar | src/main/java/com/sarm/utils/spring/roo/RooScriptGenerator.java:947 | with an empty prefix every non-empty type loses its first character |
| TypeMapper.UnknownNameIsString | src/main/java/com/sarm/utils/spring/roo/RooScriptGenerator.java:1033-1035 | a name outside the table maps to "string" |
| TypeMapper.UnsignedByteRange | src/main/java/com/sarm/utils/spring/roo/RooScriptGenerator.java:1024-1025 | unsignedByte maps to a byte with range 0..255 |
| TypeMapper.UnsignedShortRange | src/main/java/com/sarm/utils/spring/roo/RooScriptGenerator.java:1030-1031 | unsignedShort maps to a short with range 0..65535 |
| TypeMapper.FirstStretchFallsThrough | src/main/java/com/sarm/utils/spring/roo/RooScriptGenerator.java:949-968 | a name not among the first ten table entries falls through to the rest of the table |
| TypeMapper.FifthStretchFallsThrough | src/main/java/com/sarm/utils/spring/roo/RooScriptGenerator.java:1020-1035 | past the last entry, the result is "string" |
| Names.ConvertReservedWords | src/main/java/com/sarm/utils/spring/roo/RooScriptGenerator.java:1058-1070 | the result is the name with every '-' replaced by '_', followed by "1" exactly when that name, lower-cased, is a reserved Java or SQL word |
| Names.ConvertIdempotentWhenNotReserved | src/main/java/com/sarm/utils/spring/roo/RooScriptGenerator.java:1058-1070 | converting a converted non-reserved name changes nothing |
| Names.HyphenAndUnderscoreCollide | src/main/java/com/sarm/utils/spring/roo/RooScriptGenerator.java:1061 | "a-b" and "a_b" convert to the same name |
| Names.ReversedLabels | src/main/java/com/sarm/utils/spring/roo/RooScriptGenerator.java:771-775 | the loop emits the host labels last to first, each followed by "." |
| Names.AppendSegments | src/main/java/com/sarm/utils/spring/roo/RooScriptGenerator.java:777-784 | the loop appends the non-empty path segments in order, each followed by "." |
| Names.ExtractPackageFromNamespace | src/main/java/com/sarm/utils/spring/roo/RooScriptGenerator.java:749-788 | the result is the package of the namespace: scheme and "www." cut, host labels reversed, then non-empty path segments, each dot-terminated |
| Names.PackageEndsWithDot | src/main/java/com/sarm/utils/spring/roo/RooScriptGenerator.java:773-782 | a non-empty package ends with "." |
| Names.PackageHasNoSlash | src/main/java/com/sarm/utils/spring/roo/RooScriptGenerator.java:765-784 | a package never contains '/' |
| Names.SchemeAndWwwAreStripped | src/main/java/com/sarm/utils/spring/roo/RooScriptGenerator.java:754-762 | for "http://www.host/trail" the package is built from host and trail alone |
| Names.DotTerminatedAppend | src/main/java/com/sarm/utils/spring/roo/RooScriptGenerator.java:773-782 | appending a label appends the label and "." |
| Names.NoCharInDotTerminated | src/main/java/com/sarm/utils/spring/roo/RooScriptGenerator.java:773-782 | a character other than '.' that is in no label is not in the dotted result |
| Names.NoSlashInHost | src/main/java/com/sarm/utils/spring/roo/RooScriptGenerator.java:765-769 | the host part contains no '/' |
| Names.AfterFirst | src/main/java/com/sarm/utils/spring/roo/RooScriptGenerator.java:754-762 | the result is the suffix of the string that follows an occurrence of the marker, with no occurrence starting earlier; the whole string when there is none |
| Names.Reverse | src/main/java/com/sarm/utils/spring/roo/RooScriptGenerator.java:772 | the result has the same length with the elements in reverse order |
| Names.NonEmpty | src/main/java/com/sarm/utils/spring/roo/RooScriptGenerator.java:777-783 | the result holds exactly the non-empty segments |
| Names.NonEmptyAppend | src/main/java/com/sarm/utils/spring/roo/RooScriptGenerator.java:777-783 | dropping empty segments distributes over concatenation, so order and repeats are kept |
| Names.NonEmptySingleton | src/main/java/com/sarm/utils/spring/roo/RooScriptGenerator.java:780 | one segment is kept iff it is non-empty |
| Names.NonEmptyKeepsOrderAndRepeats | src/main/java/com/sarm/utils/spring/roo/RooScriptGenerator.java:777-783 | the segments "a", "", "b", "a" give "a", "b", "a" |
| Names.UpdateFileName | src/main/java/com/sarm/utils/spring/roo/RooScriptGenerator.java:317-324 | "Update" is inserted before the last '.', or appended when there is none; the rest of the name is kept |
| Names.UpdateFileNameKeepsName | src/main/java/com/sarm/utils/spring/roo/RooScriptGenerator.java:317-324 | removing the inserted "Update" gives the original name back |
| Names.InsertionPoint | src/main/java/com/sarm/utils/spring/roo/RooScriptGenerator.java:318-320 | the point is the last '.' or the end of a name without '.' |
| FieldExtractor.CardinalityOf | src/main/java/com/sarm/utils/spring/roo/RooScriptGenerator.java:868-891 | (0,1) gives OPTIONAL, (1,1) MANDATORY, (0,unbounded in any case) UNBOUNDED, (1,unbounded) ONE_OR_MORE, every other pair NONE, each as an iff |
| FieldExtractor.AbsentOccursUnrecognised | src/main/java/com/sarm/utils/spring/roo/RooScriptGenerator.java:800-801 | an absent minOccurs or maxOccurs (read as "") gives NONE |
| FieldExtractor.FieldOf | src/main/java/com/sarm/utils/spring/roo/RooScriptGenerator.java:794-894 | extraction fails with "could not determine type" without @type and @base; it succeeds iff the type resolves and maps and every facet it parses parses |
| FieldExtractor.WithExclusiveBounds | src/main/java/com/sarm/utils/spring/roo/RooScriptGenerator.java:849-864 | succeeds iff every bound the raw type asks to parse parses; only the four bound attributes change |
| FieldExtractor.WithLengthBounds | src/main/java/com/sarm/utils/spring/roo/RooScriptGenerator.java:865-866 | succeeds iff every present length facet parses; only sizeMin and sizeMax change |
| FieldExtractor.ApplyExclusiveBounds | src/main/java/com/sarm/utils/spring/roo/RooScriptGenerator.java:849-864 | the statements set the bounds as the specification does |
| FieldExtractor.ApplyLengthBounds | src/main/java/com/sarm/utils/spring/roo/RooScriptGenerator.java:865-866 | the statements set the sizes as the specification does |
| FieldExtractor.ApplyCardinality | src/main/java/com/sarm/utils/spring/roo/RooScriptGenerator.java:868-891 | the if-chain sets cardinality and notNull as the specification does |
| FieldExtractor.XsdElementToRooField | src/main/java/com/sarm/utils/spring/roo/RooScriptGenerator.java:794-894 | filling the record field by field yields FieldOf, including its failures |
| FieldExtractor.StagesOf | src/main/java/com/sarm/utils/spring/roo/RooScriptGenerator.java:796-891 | a successful extraction is the typed record, then the bounds, then the sizes, then the cardinality |
| FieldExtractor.ExtractedTypeAndName | src/main/java/com/sarm/utils/spring/roo/RooScriptGenerator.java:811-843 | the field keeps the resolved raw type, its mapped Roo type and the converted element name |
| FieldExtractor.ExtractedCardinality | src/main/java/com/sarm/utils/spring/roo/RooScriptGenerator.java:868-891 | the cardinality is that of the occurrence pair; notNull is false iff OPTIONAL and true iff MANDATORY |
| FieldExtractor.ExtractedExclusiveBounds | src/main/java/com/sarm/utils/spring/roo/RooScriptGenerator.java:849-864 | min/max are set iff the facet is present and the raw type is exactly int or integer; decimalMin/decimalMax iff it is double or decimal; each holds the parsed value |
| FieldExtractor.ExtractedLengthBounds | src/main/java/com/sarm/utils/spring/roo/RooScriptGenerator.java:865-866 | sizeMin/sizeMax are set iff the length facet is present and hold its parsed value |
| FieldExtractor.ExtractedUnique | src/main/java/com/sarm/utils/spring/roo/RooScriptGenerator.java:827-847 | unique is true iff the documentation mentions "key" in any case or the schema declares the element unique, and is otherwise null |
| FieldExtractor.ExtractedPassThrough | src/main/java/com/sarm/utils/spring/roo/RooScriptGenerator.java:844-846 | pattern, default and documentation pass through; owner, nullRequired, transient and lob stay null |
| FieldExtractor.NotNullClauseFollowsCardinality | src/main/java/com/sarm/utils/spring/roo/RooField.java:127 | an OPTIONAL field renders no "--notNull ", a MANDATORY one does |
| FieldExtractor.KeyAnnotatedFieldIsUnique | src/main/java/com/sarm/utils/spring/roo/RooScriptGenerator.java:827-833 | "--unique " is rendered iff the element is key-annotated or declared unique |
| EntityBuilder.ExtendsClause | src/main/java/com/sarm/utils/spring/roo/RooScriptGenerator.java:412-426 | no clause without a base; a base without ':' gives " --extends base"; a base with ':' gives " --extends " and what follows its first ':' |
| EntityBuilder.ExtendsClausePrefixed | src/main/java/com/sarm/utils/spring/roo/RooScriptGenerator.java:419-424 | a base "prefix:Local" whose prefix has no ':' extends "Local" |
| EntityBuilder.Place | src/main/java/com/sarm/utils/spring/roo/RooScriptGenerator.java:443-471 | a type without ':' is kept unchanged; a target-prefixed type is kept with its second ':'-piece as type, or fails when there is none; a type with ':' and another prefix is exactly the rendered case, printed owned by the entity |
| EntityBuilder.PlacementsOf | src/main/java/com/sarm/utils/spring/roo/RooScriptGenerator.java:437-473 | the placements, when all succeed, are one per element declaration |
| EntityBuilder.PlacementsOfElements | src/main/java/com/sarm/utils/spring/roo/RooScriptGenerator.java:437-473 | the i-th placement is the i-th element declaration extracted and placed; a failure is the exception of the first element that throws |
| EntityBuilder.CollectOutcomes | src/main/java/com/sarm/utils/spring/roo/RooScriptGenerator.java:437-473 | collected placements are the outcomes' values; a failure is the first failed outcome |
| EntityBuilder.ElementsPassOutcomes | src/main/java/com/sarm/utils/spring/roo/RooScriptGenerator.java:437-473 | the inner loop is the fold of its elements' outcomes |
| EntityBuilder.PassOfCollect | src/main/java/com/sarm/utils/spring/roo/RooScriptGenerator.java:437-473 | that fold fails with the first failure, and otherwise keeps the kept placements' fields and prints the rendered ones' lines, in order |
| EntityBuilder.ElementsPassPlacements | src/main/java/com/sarm/utils/spring/roo/RooScriptGenerator.java:437-473 | the inner loop keeps exactly the kept placements' fields and prints exactly the rendered placements' lines, in element order, or fails with the first exception |
| EntityBuilder.KeptPrintedCount | src/main/java/com/sarm/utils/spring/roo/RooScriptGenerator.java:443-471 | every placement is either kept or printed |
| EntityBuilder.ElementsPassPartitions | src/main/java/com/sarm/utils/spring/roo/RooScriptGenerator.java:437-473 | on success, the kept fields and printed lines together number the element declarations |
| EntityBuilder.EntityPass | src/main/java/com/sarm/utils/spring/roo/RooScriptGenerator.java:430-487 | the entity's pass fails exactly when its inner loop does; otherwise it keeps the loop's fields, and its lines are the comment and entity command, the loop's lines, the repository command exactly when active records are off, and a blank line |
| EntityBuilder.EntityCommandCreates | src/main/java/com/sarm/utils/spring/roo/RooScriptGenerator.java:431 | the entity command creates the package-qualified converted name |
| EntityBuilder.RepositoryNamesRawEntity | src/main/java/com/sarm/utils/spring/roo/RooScriptGenerator.java:479-483 | as written, for a name with '-' the repository command refers to the raw name, which differs from the class the entity command created |
| EntityBuilder.RepositoryNamesCreatedEntity | src/main/java/com/sarm/utils/spring/roo/RooScriptGenerator.java:479-483 | corrected, the repository command refers to the class the entity command created |
| EntityBuilder.EntityElements | src/main/java/com/sarm/utils/spring/roo/RooScriptGenerator.java:437-475 | the inner loop keeps and prints what the specification does, and fails exactly when it does |
| EntityBuilder.ElementsPassAt | src/main/java/com/sarm/utils/spring/roo/RooScriptGenerator.java:437-475 | one more element declaration fails with the extraction's or the placement's exception, or adds the field to the kept fields or its line to the printed ones |
| EntityBuilder.BuildEntities | src/main/java/com/sarm/utils/spring/roo/RooScriptGenerator.java:394-489 | the first loop yields the entity map and lines of BuildAll, including its failures |
| EntityBuilder.BuildStep | src/main/java/com/sarm/utils/spring/roo/RooScriptGenerator.java:398-487 | one more declaration is skipped when unnamed, fails when its pass fails, and otherwise adds its fields and lines |
| EntityBuilder.PassFailsOnPrefix | src/main/java/com/sarm/utils/spring/roo/RooScriptGenerator.java:437-440 | an exception on an early element ends the entity's pass |
| EntityBuilder.BuildFailsOnPrefix | src/main/java/com/sarm/utils/spring/roo/RooScriptGenerator.java:394-440 | an exception in an early entity ends the loop |
| EntityBuilder.RenderedLineNamesEntity | src/main/java/com/sarm/utils/spring/roo/RooScriptGenerator.java:463-465 | a field rendered in the first pass names the package-qualified converted entity as its class |
| EntityBuilder.KeptFieldsUnprefixed | src/main/java/com/sarm/utils/spring/roo/RooScriptGenerator.java:447-470 | no field kept for an entity has ':' in its type |
| EntityBuilder.EntityTypesUnprefixed | src/main/java/com/sarm/utils/spring/roo/RooScriptGenerator.java:447-477 | no field in the entity map has ':' in its type |
| EntityBuilder.EntityNames | src/main/java/com/sarm/utils/spring/roo/RooScriptGenerator.java:396-399 | the entity map's keys are exactly the non-empty declared names |
| EntityBuilder.DeclaredNamesStep | src/main/java/com/sarm/utils/spring/roo/RooScriptGenerator.java:396-399 | one more declaration adds its name when it is non-empty |
| Resolver.Reciprocal | src/main/java/com/sarm/utils/spring/roo/RooScriptGenerator.java:729-740 | the result is the first field whose key equals the name, or none when no field matches |
| Resolver.Classify | src/main/java/com/sarm/utils/spring/roo/RooScriptGenerator.java:541-671 | first-match precedence, each case as an iff: both many gives many-to-many; many with a non-many reciprocal gives one-to-many; mandatory with a many reciprocal gives many-to-one; mandatory with a mandatory reciprocal gives one-to-one; NONE, OPTIONAL or mandatory without target fields gives a reference or a scalar by complexType existence; the rest gives nothing |
| Resolver.ResolveField | src/main/java/com/sarm/utils/spring/roo/RooScriptGenerator.java:517-671 | the loop body updates the three collections and the output as one step of the specification |
| Resolver.ResolveEntity | src/main/java/com/sarm/utils/spring/roo/RooScriptGenerator.java:515-672 | the inner loop over an entity's fields performs the specified steps in order |
| Resolver.ResolveRelationships | src/main/java/com/sarm/utils/spring/roo/RooScriptGenerator.java:502-673 | the nested loops, over the map in its iteration order, yield ResolveAll's final state |
| Resolver.PairKeySymmetric | src/main/java/com/sarm/utils/spring/roo/RooScriptGenerator.java:552 | both sides of a pair compute the same many-to-many key |
| Resolver.KeyCollisionAsWritten | src/main/java/com/sarm/utils/spring/roo/RooScriptGenerator.java:552 | the pairs (a, bc) and (ab, c) share the key "abc" |
| Resolver.CollidingPairs | src/main/java/com/sarm/utils/spring/roo/RooScriptGenerator.java:552-557 | after (a, bc) is mapped, the many-to-many line of (ab, c) has no mappedBy when the key is the bare concatenation, and has it when the key is separated |
| Resolver.SeparatedKeyInjective | src/main/java/com/sarm/utils/spring/roo/RooScriptGenerator.java:552 | with ':' between the names, equal keys of names without ':' come from the same unordered pair |
| Resolver.SplitAtSeparator | src/main/java/com/sarm/utils/spring/roo/RooScriptGenerator.java:552 | a key with ':' splits back into its two names |
| Resolver.StepRecords | src/main/java/com/sarm/utils/spring/roo/RooScriptGenerator.java:559-668 | one line is printed unless the field is skipped; a relationship's line is stored under "E:T"; other kinds change neither relationCommands nor alreadyMapped |
| Resolver.ManyToManyMapsPairOnce | src/main/java/com/sarm/utils/spring/roo/RooScriptGenerator.java:552-562 | " --mappedBy <reciprocal>" is appended iff the key is new, the key is then recorded, and the line is printed either way |
| Resolver.OtherSideNotMapped | src/main/java/com/sarm/utils/spring/roo/RooScriptGenerator.java:552-557 | once one side of a pair is mapped, the other side's line has no mappedBy and alreadyMapped is unchanged |
| Resolver.ManyToOneDefers | src/main/java/com/sarm/utils/spring/roo/RooScriptGenerator.java:599-613 | a many-to-one records mapLater["T:E"] = field name iff relationCommands has no "T:E" |
| Resolver.ResolveAllExtends | src/main/java/com/sarm/utils/spring/roo/RooScriptGenerator.java:502-673 | the pass only appends: earlier lines and mapped keys are prefixes of the final ones, and recorded keys remain |
| Resolver.ResolveFieldsExtends | src/main/java/com/sarm/utils/spring/roo/RooScriptGenerator.java:515-672 | the same for the fields of one entity |
| Resolver.StepExtends | src/main/java/com/sarm/utils/spring/roo/RooScriptGenerator.java:517-671 | the same for one field |
| Resolver.ResolveAllKeepsNoDuplicates | src/main/java/com/sarm/utils/spring/roo/RooScriptGenerator.java:553-557 | alreadyMapped never holds a key twice |
| Resolver.ResolveFieldsKeepsNoDuplicates | src/main/java/com/sarm/utils/spring/roo/RooScriptGenerator.java:553-557 | the same for the fields of one entity |
| Resolver.StepKeepsNoDuplicates | src/main/java/com/sarm/utils/spring/roo/RooScriptGenerator.java:553-557 | the same for one field |
| Resolver.ResolveAllIgnoresDeferred | src/main/java/com/sarm/utils/spring/roo/RooScriptGenerator.java:573-613 | mapLater is never read: lines, recorded commands and mapped keys are the same whatever mapLater holds |
| Resolver.ResolveFieldsIgnoresDeferred | src/main/java/com/sarm/utils/spring/roo/RooScriptGenerator.java:573-613 | the same for the fields of one entity |
| Resolver.StepIgnoresDeferred | src/main/java/com/sarm/utils/spring/roo/RooScriptGenerator.java:573-613 | the same for one field |
| Resolver.ReciprocalMissedAsWritten | src/main/java/com/sarm/utils/spring/roo/RooScriptGenerator.java:729-740 | as written, a mandatory field to an entity none of whose fields has the owner's name as rooType is skipped: nothing printed, nothing recorded |
| Resolver.ReciprocalFoundCorrected | src/main/java/com/sarm/utils/spring/roo/RooScriptGenerator.java:588-619 | matched by schema type, the same field with a collection reciprocal becomes a many-to-one, printed and recorded under "E:T" |
| Resolver.CorrectedFindsReciprocal | src/main/java/com/sarm/utils/spring/roo/RooScriptGenerator.java:729-740 | matched by schema type, the reciprocal is found whenever the target has a field typed by the owner |
| Generator.Script | src/main/java/com/sarm/utils/spring/roo/RooScriptGenerator.java:391-673 | fails exactly when the first loop throws, with its exception; otherwise the first loop's lines, then the three banner lines, then the second loop's lines over the map the first loop built |
| Generator.GenerateScript | src/main/java/com/sarm/utils/spring/roo/RooScriptGenerator.java:391-673 | running the first loop, printing the banner and running the second loop over the filled map yields Script |
| Generator.SecondPassSeesFirstPass | src/main/java/com/sarm/utils/spring/roo/RooScriptGenerator.java:477-526 | the second loop visits exactly the non-empty declared names, and every field it classifies has a type without ':' |

## Left out

- File and stream I/O are out of scope: creating the target directory, the two `PrintStream`s, and the lines before the first loop and after the second loop (banner, project, persistence, web-tier and selenium lines). `Generator.Script` produces the lines from the first loop to the end of the second as one sequence, because both scripts receive the same lines there.
- dom4j parsing and XPath are not modelled. An element is an `ElementDecl` record. It carries the first descendant `@base`, the documentation texts and the facet values the extractor selects. The existence of a named complexType is a given set.
- `isElementDefinedAsUnique` is replaced by the input flag `definedAsUnique`, because it evaluates schema XPaths.
- The reserved Java and SQL keyword sets belong to a library that is not part of this model, so they are an uninterpreted pair of sets.
- `Double.parseDouble` is a given partial function, because floating point is out of scope. `Integer.parseInt` is modelled exactly for ASCII digits and 32-bit range.
- JavaStrings.ParseInt: Java's `Integer.parseInt` reads digits with `Character.digit`, so it also accepts non-ASCII Unicode decimal digits (a `minLength` of "١٠" is 10 in Java). The model rejects them, so `FieldOf` fails with NumberFormat there.
- `toLowerCase` and `equalsIgnoreCase` use the ASCII case mapping only. Java's `toLowerCase()` uses full Unicode and the default locale: in a Turkish locale "INT" lower-cases to "ınt", which changes what `convertReservedWords` finds reserved. Neither is modelled.
- HashMap iteration order is an input: a sequence listing every key once.
- The `%%TAG%%` placeholder substitution is modelled as direct concatenation. The two differ only when an inserted name itself contains a placeholder tag.
- `camelToUnderScores`, `main`, `showUsage`, logging and the test classes are out of scope.
- NOTATION, ENTITY and ENTITIES are absent from the type table in the source, so they map to "string" like any unknown name.
- Fields.ToCommand: groups Java's left-to-right concatenation to the right, which yields the same string.
- EntityBuilder.EntityHeader and EntityBuilder.RepositoryLine: group Java's left-to-right concatenation differently, which yields the same string.
- FieldExtractor.FieldOf: a fresh Java record holds null for its strings and cardinality. The model gives them placeholder values that every successful path overwrites.
- Java strings are sequences of UTF-16 code units, so `compareTo`, `length`, `indexOf` and `substring` count code units. The model's strings are sequences of Unicode scalar values. For text with characters outside the Basic Multilingual Plane, the order used by the many-to-many key and the index arithmetic can therefore differ from Java's.
- EntityBuilder.BuildAll: on an exception, the model returns the error without the lines printed so far. The source has already printed those lines to both scripts when it throws.
- `rooField.xsdType` and `owningEntity` are assigned in place in the source. The model makes them record updates, because no other reference observes those records.
- Resolver.ReciprocalMissedAsWritten: states the as-written behaviour for entities whose fields never have the owner's name as rooType. It does not derive this from the type table.

## Findings

| source | as written | input that shows it | evidently intended | confidence | as-written member | corrected member |
|---|---|---|---|---|---|---|
| src/main/java/com/sarm/utils/spring/roo/RooScriptGenerator.java:733 | the reciprocal field is matched by `rooType`, the mapped Roo type such as "string", against the owner entity's name | complexType Person with a mandatory element address of type Address, and complexType Address with an unbounded element residents of type Person: residents has rooType "string", so Person.address finds no reciprocal and prints nothing | match the field's schema type (`xsdType`), so Person.address becomes the many-to-one side | high (not executed) | Resolver.ReciprocalMissedAsWritten | Resolver.ReciprocalFoundCorrected |
| src/main/java/com/sarm/utils/spring/roo/RooScriptGenerator.java:552 | the many-to-many key is the two names concatenated without a separator | entities a, bc, ab and c, with many-to-many pairs (a, bc) and (ab, c): both pairs get the key "abc", so the second pair is not given its mappedBy. The key collides as written. The pairs reach the many-to-many branch only once the reciprocal lookup of the row above is corrected (`lookup` Corrected, `key` AsWritten) | a separator between the names makes the key identify the unordered pair | medium (not executed) | Resolver.CollidingPairs | Resolver.SeparatedKeyInjective |
| src/main/java/com/sarm/utils/spring/roo/RooScriptGenerator.java:481 | the repository command names the entity by its raw name, while the entity command at line 431 uses the converted name | entity "line-item" without active records: the entity command creates pkg.line_item, while the repository command reads "repository jpa --interface pkg.line-itemRepository --entity pkg.line-item" | name the entity by its converted name, as the entity command does | high (not executed) | EntityBuilder.RepositoryNamesRawEntity | EntityBuilder.RepositoryNamesCreatedEntity |
