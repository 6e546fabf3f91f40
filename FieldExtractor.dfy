/** xsdElementToRooField: one element declaration of an entity becomes a
    field record. The declaration is given as the values the generator reads
    from the schema tree; the lookups themselves are not modelled. */
module FieldExtractor {
  import opened Wrappers
  import opened JavaStrings
  import opened Fields
  import opened TypeMapper
  import opened Names

  /** What the extractor reads of an element declaration. Attributes read
      with a "" default (name, type, minOccurs, maxOccurs) are strings; the
      ones read with a null default are Options. */
  datatype ElementDecl = ElementDecl(
    name: string,
    typeAttr: string,
    /** the first @base below the element (a restricted simple type) */
    base: Option<string>,
    minOccurs: string,
    maxOccurs: string,
    defaultValue: Option<string>,
    /** the trimmed text of the first documentation element below it */
    documentation: Option<string>,
    /** whether the element has child nodes */
    hasContent: bool,
    /** the text of the first xs:documentation element below it */
    keyAnnotation: Option<string>,
    pattern: Option<string>,
    minExclusive: Option<string>,
    maxExclusive: Option<string>,
    minLength: Option<string>,
    maxLength: Option<string>,
    /** the answer of isElementDefinedAsUnique for this element */
    definedAsUnique: bool)

  /** The ways the extraction throws. */
  datatype ExtractError =
    | UndeterminedType(elementName: string)
    | TypeMapping(cause: MapError)
    | NumberFormat(text: string)

  const Unbounded: string := "unbounded"
  const HibernateKeyAnnotation: string := "key"

  // ---------------------------------------------------------------------
  // Cardinality
  // ---------------------------------------------------------------------

  /** The occurrence table: the first matching row decides, every other
      pair (absent attributes read as "") is Unrecognised, never an error. */
  function CardinalityOf(minOccurs: string, maxOccurs: string): (c: Cardinality)
    ensures c == Optional <==> minOccurs == "0" && maxOccurs == "1"
    ensures c == Mandatory <==> minOccurs == "1" && maxOccurs == "1"
    ensures c == Cardinality.Unbounded <==> minOccurs == "0" && EqualsIgnoreCase(maxOccurs, Unbounded)
    ensures c == OneOrMore <==> minOccurs == "1" && EqualsIgnoreCase(maxOccurs, Unbounded)
    ensures c == Unrecognised <==>
      !(minOccurs == "0" || minOccurs == "1") || !(maxOccurs == "1" || EqualsIgnoreCase(maxOccurs, Unbounded))
  {
    assert !EqualsIgnoreCase("1", Unbounded) by {
      assert |ToLower("1")| != |ToLower(Unbounded)|;
    }
    if Equals(minOccurs, "0") && Equals(maxOccurs, "1") then Optional
    else if Equals(minOccurs, "1") && Equals(maxOccurs, "1") then Mandatory
    else if Equals(minOccurs, "0") && EqualsIgnoreCase(maxOccurs, Unbounded) then Cardinality.Unbounded
    else if Equals(minOccurs, "1") && EqualsIgnoreCase(maxOccurs, Unbounded) then OneOrMore
    else Unrecognised
  }

  /** An absent minOccurs or maxOccurs gives Unrecognised, whatever the
      other attribute says. */
  lemma AbsentOccursUnrecognised(occurs: string)
    ensures CardinalityOf("", occurs) == Unrecognised
    ensures CardinalityOf(occurs, "") == Unrecognised
  {
    assert !EqualsIgnoreCase("", Unbounded) by {
      assert |ToLower("")| != |ToLower(Unbounded)|;
    }
  }

  /** The notNull flag that goes with a cardinality: false for Optional,
      true for Mandatory, null otherwise. */
  function NotNullOf(c: Cardinality): Option<bool> {
    match c
    case Optional => Some(false)
    case Mandatory => Some(true)
    case _ => None
  }

  // ---------------------------------------------------------------------
  // Type, facets and uniqueness
  // ---------------------------------------------------------------------

  /** The declared type: the type attribute, or else the first @base below
      the element; None when neither exists. */
  function ResolvedType(e: ElementDecl): Option<string> {
    if Equals(e.typeAttr, "") then e.base else Some(e.typeAttr)
  }

  /** The raw type names whose exclusive bounds become Integer bounds. */
  predicate IsIntType(t: string) {
    Equals(t, "int") || Equals(t, "integer")
  }

  /** The raw type names whose exclusive bounds become Double bounds. */
  predicate IsDecimalType(t: string) {
    Equals(t, "double") || Equals(t, "decimal")
  }

  /** Integer.parseInt of a facet value, which throws on bad text. */
  function ParseIntFacet(text: string): Result<int, ExtractError> {
    match ParseInt(text)
    case Some(v) => Success(v)
    case None => Failure(NumberFormat(text))
  }

  /** Double.parseDouble of a facet value; the parser itself is given. */
  function ParseDoubleFacet(text: string, parseDouble: string -> Option<real>): Result<real, ExtractError> {
    match parseDouble(text)
    case Some(v) => Success(v)
    case None => Failure(NumberFormat(text))
  }

  /** An exclusive bound as an Integer: parsed only when the facet is
      present and the raw type is "int" or "integer". */
  function IntBound(t: string, facet: Option<string>): Result<Option<int>, ExtractError> {
    if facet.Some? && IsIntType(t) then
      var v :- ParseIntFacet(facet.value);
      Success(Some(v))
    else Success(None)
  }

  /** An exclusive bound as a Double: parsed only when the facet is present
      and the raw type is "double" or "decimal". */
  function DecimalBound(t: string, facet: Option<string>, parseDouble: string -> Option<real>): Result<Option<real>, ExtractError> {
    if facet.Some? && IsDecimalType(t) then
      var v :- ParseDoubleFacet(facet.value, parseDouble);
      Success(Some(v))
    else Success(None)
  }

  /** A length facet: parsed whenever it is present. */
  function LengthBound(facet: Option<string>): Result<Option<int>, ExtractError> {
    if facet.Some? then
      var v :- ParseIntFacet(facet.value);
      Success(Some(v))
    else Success(None)
  }

  /** The documentation of an element with content mentions the key
      annotation, in any case. */
  predicate KeyAnnotated(e: ElementDecl) {
    e.hasContent && e.keyAnnotation.Some? &&
    Contains(ToLower(e.keyAnnotation.value), ToLower(HibernateKeyAnnotation))
  }

  /** The unique flag: true when key-annotated or defined as unique, null
      otherwise. */
  function UniqueOf(e: ElementDecl): Option<bool> {
    if KeyAnnotated(e) || e.definedAsUnique then Some(true) else None
  }

  /** Every exclusive bound the raw type makes the extractor parse parses. */
  predicate ExclusiveBoundsParse(t: string, e: ElementDecl, parseDouble: string -> Option<real>) {
    (e.minExclusive.Some? && IsIntType(t) ==> ParseInt(e.minExclusive.value).Some?) &&
    (e.minExclusive.Some? && IsDecimalType(t) ==> parseDouble(e.minExclusive.value).Some?) &&
    (e.maxExclusive.Some? && IsIntType(t) ==> ParseInt(e.maxExclusive.value).Some?) &&
    (e.maxExclusive.Some? && IsDecimalType(t) ==> parseDouble(e.maxExclusive.value).Some?)
  }

  /** Every length facet parses. */
  predicate LengthBoundsParse(e: ElementDecl) {
    (e.minLength.Some? ==> ParseInt(e.minLength.value).Some?) &&
    (e.maxLength.Some? ==> ParseInt(e.maxLength.value).Some?)
  }

  // ---------------------------------------------------------------------
  // The extraction, stage by stage
  // ---------------------------------------------------------------------

  /** A fresh field record: every reference is null. The strings and the
      cardinality, null in a fresh Java record, are given placeholders here;
      every path that returns a field sets them. */
  const Blank: RooField := RooField(Unrecognised, "", "", "", None, None, None, None, None, None, None,
                                    None, None, None, None, None, None, None, None)

  /** A new value when there is one, else the current one. */
  function Override<T>(update: Option<T>, current: Option<T>): Option<T> {
    if update.Some? then update else current
  }

  /** The record once the type `t` is resolved and mapped to `rooType`. */
  function Typed(e: ElementDecl, t: string, rooType: string, words: ReservedWords): RooField {
    Blank.(fieldName := ConvertReservedWords(e.name, words), xsdType := t, rooType := rooType,
           regexp := e.pattern, value := e.defaultValue, comment := e.documentation, unique := UniqueOf(e))
  }

  /** The exclusive-bound facets, minimum first, each parsed as the raw
      type demands. */
  function WithExclusiveBounds(field: RooField, e: ElementDecl, parseDouble: string -> Option<real>): (r: Result<RooField, ExtractError>)
    ensures r.Success? <==> ExclusiveBoundsParse(field.xsdType, e, parseDouble)
    ensures r.Success? ==>
      r.value == field.(min := r.value.min, decimalMin := r.value.decimalMin, max := r.value.max, decimalMax := r.value.decimalMax)
  {
    var t := field.xsdType;
    var min :- IntBound(t, e.minExclusive);
    var decimalMin :- DecimalBound(t, e.minExclusive, parseDouble);
    var max :- IntBound(t, e.maxExclusive);
    var decimalMax :- DecimalBound(t, e.maxExclusive, parseDouble);
    Success(field.(min := Override(min, field.min), decimalMin := Override(decimalMin, field.decimalMin),
                   max := Override(max, field.max), decimalMax := Override(decimalMax, field.decimalMax)))
  }

  /** The length facets, minimum first. */
  function WithLengthBounds(field: RooField, e: ElementDecl): (r: Result<RooField, ExtractError>)
    ensures r.Success? <==> LengthBoundsParse(e)
    ensures r.Success? ==> r.value == field.(sizeMin := r.value.sizeMin, sizeMax := r.value.sizeMax)
  {
    var sizeMin :- LengthBound(e.minLength);
    var sizeMax :- LengthBound(e.maxLength);
    Success(field.(sizeMin := Override(sizeMin, field.sizeMin), sizeMax := Override(sizeMax, field.sizeMax)))
  }

  /** The cardinality, and the notNull flag for the two rows that set it. */
  function WithCardinality(field: RooField, e: ElementDecl): RooField {
    var c := CardinalityOf(e.minOccurs, e.maxOccurs);
    field.(cardinality := c, notNull := Override(NotNullOf(c), field.notNull))
  }

  /** The field an element declaration becomes, or the exception the
      extraction throws. `words` are the reserved keywords, `xsdNsPrefix`
      the schema's prefix for the XML Schema namespace. */
  function FieldOf(e: ElementDecl, words: ReservedWords, xsdNsPrefix: string,
                   parseDouble: string -> Option<real>): (r: Result<RooField, ExtractError>)
    ensures ResolvedType(e).None? ==> r == Failure(UndeterminedType(e.name))
    ensures r.Success? <==>
      ResolvedType(e).Some? &&
      MapXsdTypeToRooType(ResolvedType(e).value, xsdNsPrefix).Success? &&
      ExclusiveBoundsParse(ResolvedType(e).value, e, parseDouble) && LengthBoundsParse(e)
  {
    match ResolvedType(e)
    case None => Failure(UndeterminedType(e.name))
    case Some(t) =>
      match MapXsdTypeToRooType(t, xsdNsPrefix)
      case Failure(err) => Failure(TypeMapping(err))
      case Success(rooType) =>
        var bounded :- WithExclusiveBounds(Typed(e, t, rooType, words), e, parseDouble);
        var sized :- WithLengthBounds(bounded, e);
        Success(WithCardinality(sized, e))
  }

  /** The exclusive-bound block of xsdElementToRooField. */
  method ApplyExclusiveBounds(field: RooField, e: ElementDecl, parseDouble: string -> Option<real>)
    returns (r: Result<RooField, ExtractError>)
    ensures r == WithExclusiveBounds(field, e, parseDouble)
  {
    var f := field;
    if e.minExclusive.Some? {
      if IsIntType(f.xsdType) {
        var v := ParseInt(e.minExclusive.value);
        if v.None? {
          return Failure(NumberFormat(e.minExclusive.value));
        }
        f := f.(min := v);
      }
      if IsDecimalType(f.xsdType) {
        var d := parseDouble(e.minExclusive.value);
        if d.None? {
          return Failure(NumberFormat(e.minExclusive.value));
        }
        f := f.(decimalMin := d);
      }
    }
    if e.maxExclusive.Some? {
      if IsIntType(f.xsdType) {
        var v := ParseInt(e.maxExclusive.value);
        if v.None? {
          return Failure(NumberFormat(e.maxExclusive.value));
        }
        f := f.(max := v);
      }
      if IsDecimalType(f.xsdType) {
        var d := parseDouble(e.maxExclusive.value);
        if d.None? {
          return Failure(NumberFormat(e.maxExclusive.value));
        }
        f := f.(decimalMax := d);
      }
    }
    return Success(f);
  }

  /** The length block of xsdElementToRooField. */
  method ApplyLengthBounds(field: RooField, e: ElementDecl) returns (r: Result<RooField, ExtractError>)
    ensures r == WithLengthBounds(field, e)
  {
    var f := field;
    if e.minLength.Some? {
      var v := ParseInt(e.minLength.value);
      if v.None? {
        return Failure(NumberFormat(e.minLength.value));
      }
      f := f.(sizeMin := v);
    }
    if e.maxLength.Some? {
      var v := ParseInt(e.maxLength.value);
      if v.None? {
        return Failure(NumberFormat(e.maxLength.value));
      }
      f := f.(sizeMax := v);
    }
    return Success(f);
  }

  /** The occurrence table of xsdElementToRooField, as its if-chain. */
  method ApplyCardinality(field: RooField, e: ElementDecl) returns (r: RooField)
    ensures r == WithCardinality(field, e)
  {
    r := field;
    if Equals(e.minOccurs, "0") && Equals(e.maxOccurs, "1") {
      r := r.(cardinality := Optional, notNull := Some(false));
    } else if Equals(e.minOccurs, "1") && Equals(e.maxOccurs, "1") {
      r := r.(cardinality := Mandatory, notNull := Some(true));
    } else if Equals(e.minOccurs, "0") && EqualsIgnoreCase(e.maxOccurs, Unbounded) {
      r := r.(cardinality := Cardinality.Unbounded);
    } else if Equals(e.minOccurs, "1") && EqualsIgnoreCase(e.maxOccurs, Unbounded) {
      r := r.(cardinality := OneOrMore);
    } else {
      r := r.(cardinality := Unrecognised);
    }
  }

  /** xsdElementToRooField as the generator runs it: a fresh record filled
      attribute by attribute, each exception thrown where it arises. */
  method XsdElementToRooField(e: ElementDecl, words: ReservedWords, xsdNsPrefix: string,
                              parseDouble: string -> Option<real>) returns (r: Result<RooField, ExtractError>)
    ensures r == FieldOf(e, words, xsdNsPrefix, parseDouble)
  {
    var field := Blank;
    var t := e.typeAttr;
    if Equals(t, "") {
      if e.base.None? {
        return Failure(UndeterminedType(e.name));
      }
      t := e.base.value;
    }
    if e.hasContent {
      if e.keyAnnotation.Some? && Contains(ToLower(e.keyAnnotation.value), ToLower(HibernateKeyAnnotation)) {
        field := field.(unique := Some(true));
      }
    }
    field := field.(fieldName := ConvertReservedWords(e.name, words), xsdType := t);
    var mapped := MapXsdTypeToRooType(t, xsdNsPrefix);
    if mapped.Failure? {
      return Failure(TypeMapping(mapped.error));
    }
    field := field.(rooType := mapped.value, regexp := e.pattern, value := e.defaultValue, comment := e.documentation);
    if e.definedAsUnique {
      field := field.(unique := Some(true));
    }
    assert field == Typed(e, t, mapped.value, words);
    var bounded := ApplyExclusiveBounds(field, e, parseDouble);
    if bounded.Failure? {
      return Failure(bounded.error);
    }
    var sized := ApplyLengthBounds(bounded.value, e);
    if sized.Failure? {
      return Failure(sized.error);
    }
    field := ApplyCardinality(sized.value, e);
    return Success(field);
  }

  // ---------------------------------------------------------------------
  // What an extracted field holds
  // ---------------------------------------------------------------------

  /** A successful extraction goes through the three stages after the type
      is known. */
  lemma StagesOf(e: ElementDecl, words: ReservedWords, xsdNsPrefix: string,
                 parseDouble: string -> Option<real>) returns (typed: RooField, bounded: RooField, sized: RooField)
    requires FieldOf(e, words, xsdNsPrefix, parseDouble).Success?
    ensures ResolvedType(e).Some? && MapXsdTypeToRooType(ResolvedType(e).value, xsdNsPrefix).Success?
    ensures typed == Typed(e, ResolvedType(e).value, MapXsdTypeToRooType(ResolvedType(e).value, xsdNsPrefix).value, words)
    ensures WithExclusiveBounds(typed, e, parseDouble) == Success(bounded)
    ensures WithLengthBounds(bounded, e) == Success(sized)
    ensures FieldOf(e, words, xsdNsPrefix, parseDouble) == Success(WithCardinality(sized, e))
  {
    var t := ResolvedType(e).value;
    var rooType := MapXsdTypeToRooType(t, xsdNsPrefix).value;
    typed := Typed(e, t, rooType, words);
    bounded := WithExclusiveBounds(typed, e, parseDouble).value;
    sized := WithLengthBounds(bounded, e).value;
  }

  /** The field's types are the resolved type and its mapping, and its name
      is the element's name with reserved words escaped. */
  lemma ExtractedTypeAndName(e: ElementDecl, words: ReservedWords, xsdNsPrefix: string,
                             parseDouble: string -> Option<real>)
    requires FieldOf(e, words, xsdNsPrefix, parseDouble).Success?
    ensures var f := FieldOf(e, words, xsdNsPrefix, parseDouble).value;
      ResolvedType(e) == Some(f.xsdType) &&
      MapXsdTypeToRooType(f.xsdType, xsdNsPrefix) == Success(f.rooType) &&
      f.fieldName == ConvertReservedWords(e.name, words)
  {
    var typed, bounded, sized := StagesOf(e, words, xsdNsPrefix, parseDouble);
  }

  /** The cardinality follows the occurrence table; notNull is false exactly
      for OPTIONAL and true exactly for MANDATORY. */
  lemma ExtractedCardinality(e: ElementDecl, words: ReservedWords, xsdNsPrefix: string,
                             parseDouble: string -> Option<real>)
    requires FieldOf(e, words, xsdNsPrefix, parseDouble).Success?
    ensures var f := FieldOf(e, words, xsdNsPrefix, parseDouble).value;
      f.cardinality == CardinalityOf(e.minOccurs, e.maxOccurs) &&
      (f.notNull == Some(false) <==> f.cardinality == Optional) &&
      (f.notNull == Some(true) <==> f.cardinality == Mandatory)
  {
    var typed, bounded, sized := StagesOf(e, words, xsdNsPrefix, parseDouble);
  }

  /** Integer bounds are set exactly for the raw types "int" and "integer",
      Double bounds exactly for "double" and "decimal", from the facets. */
  lemma ExtractedExclusiveBounds(e: ElementDecl, words: ReservedWords, xsdNsPrefix: string,
                                 parseDouble: string -> Option<real>)
    requires FieldOf(e, words, xsdNsPrefix, parseDouble).Success?
    ensures var f := FieldOf(e, words, xsdNsPrefix, parseDouble).value;
      (f.min.Some? <==> e.minExclusive.Some? && IsIntType(f.xsdType)) &&
      (f.max.Some? <==> e.maxExclusive.Some? && IsIntType(f.xsdType)) &&
      (f.decimalMin.Some? <==> e.minExclusive.Some? && IsDecimalType(f.xsdType)) &&
      (f.decimalMax.Some? <==> e.maxExclusive.Some? && IsDecimalType(f.xsdType))
    ensures var f := FieldOf(e, words, xsdNsPrefix, parseDouble).value;
      (f.min.Some? ==> ParseInt(e.minExclusive.value) == f.min) &&
      (f.max.Some? ==> ParseInt(e.maxExclusive.value) == f.max) &&
      (f.decimalMin.Some? ==> parseDouble(e.minExclusive.value) == f.decimalMin) &&
      (f.decimalMax.Some? ==> parseDouble(e.maxExclusive.value) == f.decimalMax)
  {
    var typed, bounded, sized := StagesOf(e, words, xsdNsPrefix, parseDouble);
  }

  /** The size bounds are set exactly when the length facets are present,
      to their parsed values. */
  lemma ExtractedLengthBounds(e: ElementDecl, words: ReservedWords, xsdNsPrefix: string,
                              parseDouble: string -> Option<real>)
    requires FieldOf(e, words, xsdNsPrefix, parseDouble).Success?
    ensures var f := FieldOf(e, words, xsdNsPrefix, parseDouble).value;
      (f.sizeMin.Some? <==> e.minLength.Some?) && (f.sizeMax.Some? <==> e.maxLength.Some?) &&
      (f.sizeMin.Some? ==> ParseInt(e.minLength.value) == f.sizeMin) &&
      (f.sizeMax.Some? ==> ParseInt(e.maxLength.value) == f.sizeMax)
  {
    var typed, bounded, sized := StagesOf(e, words, xsdNsPrefix, parseDouble);
  }

  /** unique is true exactly for key-annotated elements and elements defined
      as unique, and it is never false. */
  lemma ExtractedUnique(e: ElementDecl, words: ReservedWords, xsdNsPrefix: string,
                        parseDouble: string -> Option<real>)
    requires FieldOf(e, words, xsdNsPrefix, parseDouble).Success?
    ensures var f := FieldOf(e, words, xsdNsPrefix, parseDouble).value;
      (f.unique == Some(true) <==> KeyAnnotated(e) || e.definedAsUnique) && f.unique != Some(false)
  {
    var typed, bounded, sized := StagesOf(e, words, xsdNsPrefix, parseDouble);
  }

  /** Pattern, default value and documentation are copied; the owning
      entity and the flags the extractor does not set stay null. */
  lemma ExtractedPassThrough(e: ElementDecl, words: ReservedWords, xsdNsPrefix: string,
                             parseDouble: string -> Option<real>)
    requires FieldOf(e, words, xsdNsPrefix, parseDouble).Success?
    ensures var f := FieldOf(e, words, xsdNsPrefix, parseDouble).value;
      f.regexp == e.pattern && f.value == e.defaultValue && f.comment == e.documentation &&
      f.owningEntity.None? && f.nullRequired.None? && f.tranzient.None? && f.lob.None?
  {
    var typed, bounded, sized := StagesOf(e, words, xsdNsPrefix, parseDouble);
  }

  // ---------------------------------------------------------------------
  // Properties across the extraction and the rendering
  // ---------------------------------------------------------------------

  /** An OPTIONAL field is rendered without "--notNull ", a MANDATORY one
      with it. */
  lemma NotNullClauseFollowsCardinality(e: ElementDecl, words: ReservedWords, xsdNsPrefix: string,
                                        parseDouble: string -> Option<real>)
    requires FieldOf(e, words, xsdNsPrefix, parseDouble).Success?
    ensures var f := FieldOf(e, words, xsdNsPrefix, parseDouble).value;
      (f.cardinality == Optional ==> NotNullClause !in Clauses(f)) &&
      (f.cardinality == Mandatory ==> NotNullClause in Clauses(f))
  {
    var f := FieldOf(e, words, xsdNsPrefix, parseDouble).value;
    ClausePresence(f, NotNullClause);
  }

  /** A key-annotated element is rendered with "--unique ". */
  lemma KeyAnnotatedFieldIsUnique(e: ElementDecl, words: ReservedWords, xsdNsPrefix: string,
                                  parseDouble: string -> Option<real>)
    requires FieldOf(e, words, xsdNsPrefix, parseDouble).Success?
    ensures UniqueClause in Clauses(FieldOf(e, words, xsdNsPrefix, parseDouble).value) <==>
      KeyAnnotated(e) || e.definedAsUnique
  {
    var f := FieldOf(e, words, xsdNsPrefix, parseDouble).value;
    ClausePresence(f, UniqueClause);
  }
}
