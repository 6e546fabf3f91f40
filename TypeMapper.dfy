/** The mapping from XML Schema built-in type names (XML Schema Part 2,
    section 3, "Built-in datatypes") to the type arguments of the
    scaffolding tool's "field" command (mapXsdTypeToRooType). */
module TypeMapper {
  import opened Wrappers
  import opened JavaStrings

  /** Why a type name could not be mapped: String.substring was asked to
      start past the end of the name. */
  datatype MapError = StringIndexOutOfBounds(name: string, begin: int)

  /** The names of the first stretch of the table. */
  const FirstNames: seq<string> := [
    "anyURI",
    "base64Binary",
    "boolean",
    "byte",
    "date",
    "dateTime",
    "decimal",
    "double",
    "duration",
    "float"
  ]

  /** The names of the second stretch of the table. */
  const SecondNames: seq<string> := [
    "gDay",
    "gMonth",
    "gMonthDay",
    "gYear",
    "gYearMonth",
    "hexBinary",
    "ID",
    "IDREF",
    "IDREFS",
    "int"
  ]

  /** The names of the third stretch of the table. */
  const ThirdNames: seq<string> := [
    "integer",
    "language",
    "long",
    "Name",
    "NCName",
    "negativeInteger",
    "NMTOKEN",
    "NMTOKENS"
  ]

  /** The names of the fourth stretch of the table. */
  const FourthNames: seq<string> := [
    "nonNegativeInteger",
    "nonPositiveInteger",
    "normalizedString",
    "positiveInteger",
    "QName",
    "short",
    "string"
  ]

  /** The names of the fifth stretch of the table. */
  const FifthNames: seq<string> := [
    "time",
    "token",
    "unsignedByte",
    "unsignedInt",
    "unsignedLong",
    "unsignedShort"
  ]
  /** Every name the table lists, in its order. NOTATION, ENTITY and
      ENTITIES, built-in types of XML Schema Part 2, are not among them. */
  const TableNames: seq<string> := FirstNames + SecondNames + ThirdNames + FourthNames + FifthNames

  /** The table lookup: a chain of String.equals comparisons in the
      table's order, first match wins, and "string" for every name the table
      does not list. The chain is written in five stretches, each falling
      through to the next. */
  function RooTypeOfName(name: string): string {
    FirstStretch(name)
  }

  function FirstStretch(name: string): string {
    if Equals(name, "anyURI") then "other --type java.net.URI"
    else if Equals(name, "base64Binary") then "string"
    else if Equals(name, "boolean") then "boolean"
    else if Equals(name, "byte") then "number --type byte"
    else if Equals(name, "date") then "date --type java.util.Calendar"
    else if Equals(name, "dateTime") then "date --type java.util.Calendar"
    else if Equals(name, "decimal") then "number --type java.math.BigDecimal"
    else if Equals(name, "double") then "number --type double"
    else if Equals(name, "duration") then "long"
    else if Equals(name, "float") then "number --type float"
    else SecondStretch(name)
  }

  function SecondStretch(name: string): string {
    if Equals(name, "gDay") then "string"
    else if Equals(name, "gMonth") then "string"
    else if Equals(name, "gMonthDay") then "string"
    else if Equals(name, "gYear") then "string"
    else if Equals(name, "gYearMonth") then "string"
    else if Equals(name, "hexBinary") then "string"
    else if Equals(name, "ID") then "string"
    else if Equals(name, "IDREF") then "string"
    else if Equals(name, "IDREFS") then "string"
    else if Equals(name, "int") then "number --type int"
    else ThirdStretch(name)
  }

  function ThirdStretch(name: string): string {
    if Equals(name, "integer") then "number --type java.lang.Integer"
    else if Equals(name, "language") then "String"
    else if Equals(name, "long") then "number --type long"
    else if Equals(name, "Name") then "string"
    else if Equals(name, "NCName") then "string"
    else if Equals(name, "negativeInteger") then "number --type int --max -1"
    else if Equals(name, "NMTOKEN") then "string"
    else if Equals(name, "NMTOKENS") then "string"
    else FourthStretch(name)
  }

  function FourthStretch(name: string): string {
    if Equals(name, "nonNegativeInteger") then "number --type int --min -1"
    else if Equals(name, "nonPositiveInteger") then "number --type int --max 0"
    else if Equals(name, "normalizedString") then "string"
    else if Equals(name, "positiveInteger") then "number --type int --min 0"
    else if Equals(name, "QName") then "string"
    else if Equals(name, "short") then "number --type short"
    else if Equals(name, "string") then "string"
    else FifthStretch(name)
  }

  function FifthStretch(name: string): string {
    if Equals(name, "time") then "date --type java.util.Calendar"
    else if Equals(name, "token") then "string"
    else if Equals(name, "unsignedByte") then "number --type byte --min 0 --max 255"
    else if Equals(name, "unsignedInt") then "number --type int --min 0 --max 2147483647"
    else if Equals(name, "unsignedLong") then "number --type long --min 0 --max 18446744073709551615"
    else if Equals(name, "unsignedShort") then "number --type short --min 0 --max 65535"
    else "string"
  }
  /** mapXsdTypeToRooType: a name that starts with the schema's prefix for
      the XML Schema namespace loses that prefix and one more character
      (meant to be the colon, but not checked), then goes through the
      table. A name equal to the prefix makes String.substring throw. */
  function MapXsdTypeToRooType(xsdType: string, xsdNsPrefix: string): (r: Result<string, MapError>)
    ensures r.Failure? <==> xsdType == xsdNsPrefix
    ensures !StartsWith(xsdType, xsdNsPrefix) ==> r == Success(RooTypeOfName(xsdType))
  {
    if StartsWith(xsdType, xsdNsPrefix) then
      if |xsdNsPrefix| + 1 > |xsdType| then Failure(StringIndexOutOfBounds(xsdType, |xsdNsPrefix| + 1))
      else Success(RooTypeOfName(xsdType[|xsdNsPrefix| + 1..]))
    else Success(RooTypeOfName(xsdType))
  }

  lemma FirstStretchFallsThrough(name: string)
    requires name !in FirstNames
    ensures FirstStretch(name) == SecondStretch(name)
  {
  }

  lemma SecondStretchFallsThrough(name: string)
    requires name !in SecondNames
    ensures SecondStretch(name) == ThirdStretch(name)
  {
  }

  lemma ThirdStretchFallsThrough(name: string)
    requires name !in ThirdNames
    ensures ThirdStretch(name) == FourthStretch(name)
  {
  }

  lemma FourthStretchFallsThrough(name: string)
    requires name !in FourthNames
    ensures FourthStretch(name) == FifthStretch(name)
  {
  }

  lemma FifthStretchFallsThrough(name: string)
    requires name !in FifthNames
    ensures FifthStretch(name) == "string"
  {
  }
  /** A name the table does not list maps to "string". */
  lemma UnknownNameIsString(name: string)
    requires name !in TableNames
    ensures RooTypeOfName(name) == "string"
  {
    FirstStretchFallsThrough(name);
    SecondStretchFallsThrough(name);
    ThirdStretchFallsThrough(name);
    FourthStretchFallsThrough(name);
    FifthStretchFallsThrough(name);
  }

  /** A prefixed name ("xs:int" with prefix "xs") is looked up by its
      local part. */
  lemma PrefixedNameUsesLocalPart(xsdNsPrefix: string, local: string)
    ensures MapXsdTypeToRooType(xsdNsPrefix + ":" + local, xsdNsPrefix) == Success(RooTypeOfName(local))
  {
    var t := xsdNsPrefix + ":" + local;
    assert t[..|xsdNsPrefix|] == xsdNsPrefix;
    assert t[|xsdNsPrefix| + 1..] == local;
    PrefixIsStripped(t, xsdNsPrefix);
  }

  /** A name that starts with the prefix, and is not the prefix itself, is
      looked up without its first |prefix| + 1 characters. */
  lemma PrefixIsStripped(xsdType: string, xsdNsPrefix: string)
    requires StartsWith(xsdType, xsdNsPrefix) && xsdType != xsdNsPrefix
    ensures MapXsdTypeToRooType(xsdType, xsdNsPrefix) == Success(RooTypeOfName(xsdType[|xsdNsPrefix| + 1..]))
  {
  }

  /** With an empty prefix every name starts with the prefix, so the first
      character of every non-empty name is dropped before the lookup. */
  lemma EmptyPrefixDropsFirstChar(xsdType: string)
    requires xsdType != []
    ensures MapXsdTypeToRooType(xsdType, "") == Success(RooTypeOfName(xsdType[1..]))
  {
    PrefixIsStripped(xsdType, "");
  }

  /** unsignedByte carries the range of an unsigned byte. */
  lemma UnsignedByteRange()
    ensures RooTypeOfName("unsignedByte") == "number --type byte --min 0 --max 255"
  {
  }

  /** unsignedShort carries the range of an unsigned short. */
  lemma UnsignedShortRange()
    ensures RooTypeOfName("unsignedShort") == "number --type short --min 0 --max 65535"
  {
  }
}
