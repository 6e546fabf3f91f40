/** The first pass of generateScript: every named top-level complexType or
    element becomes an entity command; its element declarations become
    field records, of which those typed in another namespace are rendered at
    once and the others are kept, under the entity's name, for the
    relationship pass. */
module EntityBuilder {
  import opened Wrappers
  import opened JavaStrings
  import opened Fields
  import opened Names
  import opened FieldExtractor

  /** Which definition a switch selects where the code and its evident
      intent differ: the code as written, or the corrected definition. */
  datatype Variant = AsWritten | Corrected

  /** The generator's settings and what it learnt from the schema root. */
  datatype Settings = Settings(
    words: ReservedWords,
    /** the prefix declared for the XML Schema namespace */
    xsdNsPrefix: string,
    /** the prefix declared for the schema's target namespace */
    targetNsPrefix: string,
    /** the package prefix derived from the target namespace */
    package: string,
    activeRecord: bool,
    parseDouble: string -> Option<real>,
    /** whether the repository command names the entity by its raw name
        (AsWritten) or by its converted name, as the entity command does
        (Corrected) */
    repository: Variant)

  /** A top-level complexType or element: its name ("" when absent), the
      @base of the first xs:extension below it ("" when absent), and the
      element declarations below it. */
  datatype EntityDecl = EntityDecl(name: string, extensionBase: string, elements: seq<ElementDecl>)

  /** The ways the first pass throws. */
  datatype BuildError =
    | Extraction(cause: ExtractError)
    | TypeIndexOutOfBounds(xsdType: string)

  /** Where a field goes: kept for the relationship pass, or rendered. */
  datatype Placement = Deferred(field: RooField) | Rendered(line: string)

  /** The fields kept so far and the lines printed so far. */
  datatype Pass = Pass(fields: seq<RooField>, lines: seq<string>)

  /** The entities kept, by raw name, and the lines printed. */
  datatype Built = Built(entities: map<string, seq<RooField>>, lines: seq<string>)

  const EntityCommand: string := "entity jpa --class "
  const RepositoryCommand: string := "repository jpa --interface "

  /** `"" + b` for a Java boolean. */
  function BoolText(b: bool): string {
    if b then "true" else "false"
  }

  /** The inheritance option: nothing without a base, else the base with
      any prefix up to its first ':' removed. */
  function ExtendsClause(base: string): (r: string)
    ensures base == [] <==> r == []
    ensures base != [] && ':' !in base ==> r == " --extends " + base
    ensures ':' in base ==>
      var k := IndexOf(base, ":");
      0 <= k < |base| && base[k] == ':' && ':' !in base[..k] && r == " --extends " + base[k + 1..]
  {
    if Equals(base, "") then ""
    else
      ContainsChar(base, ':');
      if ':' in base then
        IndexOfChar(base, ':');
        " --extends " + AfterFirst(base, ":")
      else
        " --extends " + AfterFirst(base, ":")
  }

  /** A prefixed base loses its prefix: "tns:Base" extends "Base". */
  lemma ExtendsClausePrefixed(prefix: string, local: string)
    requires ':' !in prefix
    ensures ExtendsClause(prefix + ":" + local) == " --extends " + local
  {
    var base := prefix + ":" + local;
    assert base[|prefix|] == ':';
    FirstSeparator(prefix, local);
    assert base[|prefix| + 1..] == local;
  }

  /** The class the entity command creates: the package and the converted
      name. */
  function CreatedClass(s: Settings, d: EntityDecl): string {
    s.package + ConvertReservedWords(d.name, s.words)
  }

  /** The comment line and the entity command of an entity. Java
      concatenates left to right; the grouping here yields the same string. */
  function EntityHeader(s: Settings, d: EntityDecl): seq<string> {
    ["# " + d.name,
     EntityCommand + CreatedClass(s, d) + " --activeRecord " +
     (BoolText(s.activeRecord) + " --testAutomatically" + ExtendsClause(d.extensionBase))]
  }

  /** The name the repository command gives the entity: the raw name as
      written, the converted name of the entity command when corrected. */
  function RepositoryEntityName(s: Settings, d: EntityDecl): string {
    if s.repository == AsWritten then d.name else ConvertReservedWords(d.name, s.words)
  }

  /** The repository command of an entity. */
  function RepositoryLine(s: Settings, d: EntityDecl): string {
    var entity := s.package + RepositoryEntityName(s, d);
    RepositoryCommand + entity + ("Repository --entity " + entity)
  }

  /** The repository command (only without active records) and a blank
      line. */
  function EntityFooter(s: Settings, d: EntityDecl): seq<string> {
    (if s.activeRecord then [] else [RepositoryLine(s, d)]) + [""]
  }

  /** The decision for one extracted field: a type with a ':' and the
      target prefix keeps its second ':'-piece and is kept; a type with a ':'
      and another prefix is rendered, owned by the entity; a type without
      ':' is kept as it is. */
  function Place(s: Settings, nodeName: string, f: RooField): (r: Result<Placement, BuildError>)
    ensures r.Success? && r.value.Deferred? ==> ':' !in r.value.field.xsdType
    ensures r.Success? && r.value.Rendered? ==>
      r.value.line == ToCommand(f.(owningEntity := Some(s.package + ConvertReservedWords(nodeName, s.words))))
    ensures r.Failure? <==> ':' in f.xsdType && StartsWith(f.xsdType, s.targetNsPrefix) && |JavaSplit(f.xsdType, ':')| < 2
    ensures r.Success? && r.value.Rendered? <==> ':' in f.xsdType && !StartsWith(f.xsdType, s.targetNsPrefix)
    ensures ':' !in f.xsdType ==> r == Success(Deferred(f))
    ensures ':' in f.xsdType && StartsWith(f.xsdType, s.targetNsPrefix) && |JavaSplit(f.xsdType, ':')| >= 2 ==>
      r == Success(Deferred(f.(xsdType := JavaSplit(f.xsdType, ':')[1])))
  {
    ContainsChar(f.xsdType, ':');
    if Contains(f.xsdType, ":") then
      if StartsWith(f.xsdType, s.targetNsPrefix) then
        var pieces := JavaSplit(f.xsdType, ':');
        if |pieces| < 2 then Failure(TypeIndexOutOfBounds(f.xsdType))
        else Success(Deferred(f.(xsdType := pieces[1])))
      else
        Success(Rendered(ToCommand(f.(owningEntity := Some(s.package + ConvertReservedWords(nodeName, s.words))))))
    else Success(Deferred(f))
  }

  /** The inner loop over an entity's element declarations, as a fold. */
  function ElementsPass(s: Settings, nodeName: string, elements: seq<ElementDecl>): Result<Pass, BuildError> {
    if elements == [] then Success(Pass([], []))
    else
      var done :- ElementsPass(s, nodeName, elements[..|elements| - 1]);
      var placed :- PlaceElement(s, nodeName, elements[|elements| - 1]);
      Success(Advance(done, placed))
  }

  /** An element declaration extracted and placed, or the exception. */
  function PlaceElement(s: Settings, nodeName: string, e: ElementDecl): Result<Placement, BuildError> {
    var extracted := FieldOf(e, s.words, s.xsdNsPrefix, s.parseDouble);
    if extracted.Failure? then Failure(Extraction(extracted.error)) else Place(s, nodeName, extracted.value)
  }

  /** The outcome of placing each element declaration, in order. */
  function Outcomes(s: Settings, nodeName: string, elements: seq<ElementDecl>): (r: seq<Result<Placement, BuildError>>)
    ensures |r| == |elements|
    ensures forall i :: 0 <= i < |elements| ==> r[i] == PlaceElement(s, nodeName, elements[i])
  {
    seq(|elements|, i requires 0 <= i < |elements| => PlaceElement(s, nodeName, elements[i]))
  }

  /** The placements of a list of outcomes, or the exception of the first
      one that failed. */
  function Collect(rs: seq<Result<Placement, BuildError>>): (r: Result<seq<Placement>, BuildError>)
    ensures r.Success? ==> |r.value| == |rs|
  {
    if rs == [] then Success([])
    else
      var before :- Collect(rs[..|rs| - 1]);
      var p :- rs[|rs| - 1];
      Success(before + [p])
  }

  /** Collected placements are the outcomes' values; a failure is the
      first failed outcome. */
  lemma {:induction false} CollectOutcomes(rs: seq<Result<Placement, BuildError>>)
    ensures Collect(rs).Success? ==> forall i :: 0 <= i < |rs| ==> rs[i] == Success(Collect(rs).value[i])
    ensures Collect(rs).Failure? ==>
      exists i :: (0 <= i < |rs| && rs[i] == Failure(Collect(rs).error) && forall j :: 0 <= j < i ==> rs[j].Success?)
  {
    if rs != [] {
      var init := rs[..|rs| - 1];
      CollectOutcomes(init);
      if Collect(init).Failure? {
        var i :| 0 <= i < |init| && init[i] == Failure(Collect(init).error) && forall j :: 0 <= j < i ==> init[j].Success?;
        assert rs[i] == init[i];
        assert forall j :: 0 <= j < i ==> rs[j] == init[j];
      } else if rs[|rs| - 1].Failure? {
        assert forall j :: 0 <= j < |rs| - 1 ==> rs[j] == init[j];
      } else {
        assert forall j :: 0 <= j < |rs| - 1 ==> rs[j] == init[j];
      }
    }
  }

  /** The fold of ElementsPass over a list of outcomes. */
  function PassOf(rs: seq<Result<Placement, BuildError>>): Result<Pass, BuildError> {
    if rs == [] then Success(Pass([], []))
    else
      var done :- PassOf(rs[..|rs| - 1]);
      var placed :- rs[|rs| - 1];
      Success(Advance(done, placed))
  }

  /** The inner loop is the fold over the outcomes of its elements. */
  lemma {:induction false} ElementsPassOutcomes(s: Settings, nodeName: string, elements: seq<ElementDecl>)
    ensures ElementsPass(s, nodeName, elements) == PassOf(Outcomes(s, nodeName, elements))
    decreases |elements|
  {
    if elements != [] {
      var init := elements[..|elements| - 1];
      ElementsPassOutcomes(s, nodeName, init);
      var rs := Outcomes(s, nodeName, elements);
      assert rs[..|rs| - 1] == Outcomes(s, nodeName, init);
    }
  }

  /** The placement of every element declaration, in order, or the
      exception of the first one that throws. */
  function PlacementsOf(s: Settings, nodeName: string, elements: seq<ElementDecl>): (r: Result<seq<Placement>, BuildError>)
    ensures r.Success? ==> |r.value| == |elements|
  {
    Collect(Outcomes(s, nodeName, elements))
  }

  /** The i-th placement is the i-th element declaration placed; a failure
      is the exception of the first element that throws. */
  lemma PlacementsOfElements(s: Settings, nodeName: string, elements: seq<ElementDecl>)
    ensures PlacementsOf(s, nodeName, elements).Success? ==>
      forall i :: 0 <= i < |elements| ==>
        PlaceElement(s, nodeName, elements[i]) == Success(PlacementsOf(s, nodeName, elements).value[i])
    ensures PlacementsOf(s, nodeName, elements).Failure? ==>
      exists i :: (0 <= i < |elements| &&
        PlaceElement(s, nodeName, elements[i]) == Failure(PlacementsOf(s, nodeName, elements).error) &&
        forall j :: 0 <= j < i ==> PlaceElement(s, nodeName, elements[j]).Success?)
  {
    CollectOutcomes(Outcomes(s, nodeName, elements));
  }

  /** The fields of the kept placements, in order. */
  function Kept(ps: seq<Placement>): seq<RooField> {
    if ps == [] then []
    else Kept(ps[..|ps| - 1]) + (if ps[|ps| - 1].Deferred? then [ps[|ps| - 1].field] else [])
  }

  /** The lines of the rendered placements, in order. */
  function Printed(ps: seq<Placement>): seq<string> {
    if ps == [] then []
    else Printed(ps[..|ps| - 1]) + (if ps[|ps| - 1].Rendered? then [ps[|ps| - 1].line] else [])
  }

  /** Every placement is either kept or printed. */
  lemma {:induction false} KeptPrintedCount(ps: seq<Placement>)
    ensures |Kept(ps)| + |Printed(ps)| == |ps|
  {
    if ps != [] {
      KeptPrintedCount(ps[..|ps| - 1]);
    }
  }

  /** Folding outcomes fails with the first failure, and otherwise keeps
      the kept placements' fields and prints the rendered placements'
      lines, both in order. */
  lemma {:induction false} PassOfCollect(rs: seq<Result<Placement, BuildError>>)
    ensures Collect(rs).Failure? ==> PassOf(rs) == Failure(Collect(rs).error)
    ensures Collect(rs).Success? ==> PassOf(rs) == Success(Pass(Kept(Collect(rs).value), Printed(Collect(rs).value)))
  {
    if rs != [] {
      var init := rs[..|rs| - 1];
      PassOfCollect(init);
      if Collect(init).Success? && rs[|rs| - 1].Success? {
        var before := Collect(init).value;
        var ps := before + [rs[|rs| - 1].value];
        assert ps[..|ps| - 1] == before;
        assert Advance(Pass(Kept(before), Printed(before)), rs[|rs| - 1].value) == Pass(Kept(ps), Printed(ps));
      }
    }
  }

  /** The pass is the placements of its elements: it fails with the first
      exception, and otherwise keeps the kept placements' fields and prints
      the rendered placements' lines, both in element order. */
  lemma ElementsPassPlacements(s: Settings, nodeName: string, elements: seq<ElementDecl>)
    ensures PlacementsOf(s, nodeName, elements).Failure? ==>
      ElementsPass(s, nodeName, elements) == Failure(PlacementsOf(s, nodeName, elements).error)
    ensures PlacementsOf(s, nodeName, elements).Success? ==>
      ElementsPass(s, nodeName, elements) ==
        Success(Pass(Kept(PlacementsOf(s, nodeName, elements).value), Printed(PlacementsOf(s, nodeName, elements).value)))
  {
    ElementsPassOutcomes(s, nodeName, elements);
    PassOfCollect(Outcomes(s, nodeName, elements));
  }

  /** On success every element declaration becomes exactly one kept field
      or one printed line. */
  lemma ElementsPassPartitions(s: Settings, nodeName: string, elements: seq<ElementDecl>)
    requires ElementsPass(s, nodeName, elements).Success?
    ensures |ElementsPass(s, nodeName, elements).value.fields| + |ElementsPass(s, nodeName, elements).value.lines| == |elements|
  {
    ElementsPassPlacements(s, nodeName, elements);
    KeptPrintedCount(PlacementsOf(s, nodeName, elements).value);
  }

  /** A placed field joins the kept fields or the printed lines. */
  function Advance(done: Pass, placed: Placement): Pass {
    match placed
    case Deferred(g) => Pass(done.fields + [g], done.lines)
    case Rendered(line) => Pass(done.fields, done.lines + [line])
  }

  /** One more element declaration: the pass fails with the extraction's
      or the placement's exception, or advances by the placed field. */
  lemma ElementsPassAt(s: Settings, nodeName: string, elements: seq<ElementDecl>, j: nat, done: Pass)
    requires j < |elements| && ElementsPass(s, nodeName, elements[..j]) == Success(done)
    ensures FieldOf(elements[j], s.words, s.xsdNsPrefix, s.parseDouble).Failure? ==>
      ElementsPass(s, nodeName, elements[..j + 1]) ==
        Failure(Extraction(FieldOf(elements[j], s.words, s.xsdNsPrefix, s.parseDouble).error))
    ensures FieldOf(elements[j], s.words, s.xsdNsPrefix, s.parseDouble).Success? ==>
      var placed := Place(s, nodeName, FieldOf(elements[j], s.words, s.xsdNsPrefix, s.parseDouble).value);
      ElementsPass(s, nodeName, elements[..j + 1]) ==
        if placed.Failure? then Failure(placed.error) else Success(Advance(done, placed.value))
  {
    assert elements[..j + 1][..j] == elements[..j];
  }

  /** The fields kept and the lines printed for one named entity. */
  function EntityPass(s: Settings, d: EntityDecl): (r: Result<Pass, BuildError>)
    ensures r.Success? <==> ElementsPass(s, d.name, d.elements).Success?
    ensures r.Failure? ==> r.error == ElementsPass(s, d.name, d.elements).error
    ensures r.Success? ==>
      var p := ElementsPass(s, d.name, d.elements).value;
      r.value.fields == p.fields &&
      |r.value.lines| == |p.lines| + (if s.activeRecord then 3 else 4) &&
      r.value.lines[..2] == EntityHeader(s, d) &&
      r.value.lines[2..2 + |p.lines|] == p.lines &&
      (!s.activeRecord ==> r.value.lines[|r.value.lines| - 2] == RepositoryLine(s, d)) &&
      r.value.lines[|r.value.lines| - 1] == ""
  {
    var p :- ElementsPass(s, d.name, d.elements);
    Success(Pass(p.fields, EntityHeader(s, d) + p.lines + EntityFooter(s, d)))
  }

  /** The entity command names the created class first. */
  lemma EntityCommandCreates(s: Settings, d: EntityDecl)
    ensures StartsWith(EntityHeader(s, d)[1], EntityCommand + CreatedClass(s, d) + " --activeRecord ")
  {
    StartsWithConcat(EntityCommand + CreatedClass(s, d) + " --activeRecord ",
                     BoolText(s.activeRecord) + " --testAutomatically" + ExtendsClause(d.extensionBase));
  }

  /** As written, the repository command names the raw entity name, while
      the entity command created the converted one: for a name with a '-'
      ("line-item" is created as line_item) the repository refers to a class
      that was never created. */
  lemma RepositoryNamesRawEntity(s: Settings, d: EntityDecl)
    requires s.repository == AsWritten && '-' in d.name
    ensures EndsWith(RepositoryLine(s, d), "Repository --entity " + (s.package + d.name))
    ensures StartsWith(EntityHeader(s, d)[1], EntityCommand + CreatedClass(s, d) + " --activeRecord ")
    ensures s.package + d.name != CreatedClass(s, d)
  {
    EndsWithConcat(RepositoryCommand + s.package + d.name, "Repository --entity " + (s.package + d.name));
    EntityCommandCreates(s, d);
    var converted := ConvertReservedWords(d.name, s.words);
    assert d.name != converted;
    assert (s.package + d.name)[|s.package|..] == d.name;
    assert CreatedClass(s, d)[|s.package|..] == converted;
  }

  /** Corrected, the repository command refers to the class the entity
      command created. */
  lemma RepositoryNamesCreatedEntity(s: Settings, d: EntityDecl)
    requires s.repository == Corrected
    ensures EndsWith(RepositoryLine(s, d), "Repository --entity " + CreatedClass(s, d))
    ensures StartsWith(EntityHeader(s, d)[1], EntityCommand + CreatedClass(s, d) + " --activeRecord ")
  {
    EndsWithConcat(RepositoryCommand + CreatedClass(s, d), "Repository --entity " + CreatedClass(s, d));
    EntityCommandCreates(s, d);
  }

  /** The outer loop over the top-level declarations, as a fold; nameless
      declarations are skipped, and a later declaration of a name replaces
      the fields kept for an earlier one. */
  function BuildAll(s: Settings, decls: seq<EntityDecl>): Result<Built, BuildError> {
    if decls == [] then Success(Built(map[], []))
    else
      var before :- BuildAll(s, decls[..|decls| - 1]);
      var d := decls[|decls| - 1];
      if Equals(d.name, "") then Success(before)
      else
        var p :- EntityPass(s, d);
        Success(Built(before.entities[d.name := p.fields], before.lines + p.lines))
  }

  /** The first loop of generateScript, with its inner loop over the
      element declarations of each entity. */
  method BuildEntities(s: Settings, decls: seq<EntityDecl>) returns (r: Result<Built, BuildError>)
    ensures r == BuildAll(s, decls)
  {
    var entities: map<string, seq<RooField>> := map[];
    var lines: seq<string> := [];
    var i := 0;
    while i < |decls|
      invariant 0 <= i <= |decls|
      invariant BuildAll(s, decls[..i]) == Success(Built(entities, lines))
    {
      var d := decls[i];
      BuildStep(s, decls, i, Built(entities, lines));
      if !Equals(d.name, "") {
        var fields, printed := EntityElements(s, d);
        if fields.Failure? {
          BuildFailsOnPrefix(s, decls, i + 1);
          return Failure(fields.error);
        }
        ghost var before := lines;
        lines := lines + EntityHeader(s, d) + printed;
        entities := entities[d.name := fields.value];
        lines := lines + EntityFooter(s, d);
        AppendAssoc(before, EntityHeader(s, d), printed, EntityFooter(s, d));
      }
      i := i + 1;
    }
    assert decls[..|decls|] == decls;
    return Success(Built(entities, lines));
  }

  /** The inner loop of the first pass for one entity: the fields kept, or
      the exception, and the field lines printed. */
  method EntityElements(s: Settings, d: EntityDecl) returns (r: Result<seq<RooField>, BuildError>, printed: seq<string>)
    ensures ElementsPass(s, d.name, d.elements).Failure? <==> r.Failure?
    ensures r.Failure? ==> r.error == ElementsPass(s, d.name, d.elements).error
    ensures r.Success? ==> ElementsPass(s, d.name, d.elements) == Success(Pass(r.value, printed))
  {
    var containing: seq<RooField> := [];
    printed := [];
    var j := 0;
    while j < |d.elements|
      invariant 0 <= j <= |d.elements|
      invariant ElementsPass(s, d.name, d.elements[..j]) == Success(Pass(containing, printed))
    {
      var el := d.elements[j];
      ElementsPassAt(s, d.name, d.elements, j, Pass(containing, printed));
      var extracted := XsdElementToRooField(el, s.words, s.xsdNsPrefix, s.parseDouble);
      if extracted.Failure? {
        PassFailsOnPrefix(s, d.name, d.elements, j + 1);
        return Failure(Extraction(extracted.error)), printed;
      }
      var field := extracted.value;
      if Contains(field.xsdType, ":") {
        if StartsWith(field.xsdType, s.targetNsPrefix) {
          var pieces := JavaSplit(field.xsdType, ':');
          if |pieces| < 2 {
            PassFailsOnPrefix(s, d.name, d.elements, j + 1);
            return Failure(TypeIndexOutOfBounds(field.xsdType)), printed;
          }
          field := field.(xsdType := pieces[1]);
          containing := containing + [field];
        } else {
          field := field.(owningEntity := Some(s.package + ConvertReservedWords(d.name, s.words)));
          printed := printed + [ToCommand(field)];
        }
      } else {
        containing := containing + [field];
      }
      j := j + 1;
    }
    assert d.elements[..|d.elements|] == d.elements;
    return Success(containing), printed;
  }

  /** Once a prefix of the declarations fails, the whole pass fails with
      the same exception. */
  lemma {:induction false} PassFailsOnPrefix(s: Settings, nodeName: string, elements: seq<ElementDecl>, n: nat)
    requires n <= |elements|
    requires ElementsPass(s, nodeName, elements[..n]).Failure?
    ensures ElementsPass(s, nodeName, elements) == ElementsPass(s, nodeName, elements[..n])
    decreases |elements|
  {
    if n < |elements| {
      assert elements[..|elements| - 1][..n] == elements[..n];
      PassFailsOnPrefix(s, nodeName, elements[..|elements| - 1], n);
    } else {
      assert elements[..n] == elements;
    }
  }

  /** One more declaration: skipped when nameless, else its entity pass is
      added. */
  lemma BuildStep(s: Settings, decls: seq<EntityDecl>, i: nat, before: Built)
    requires i < |decls| && BuildAll(s, decls[..i]) == Success(before)
    ensures Equals(decls[i].name, "") ==> BuildAll(s, decls[..i + 1]) == Success(before)
    ensures !Equals(decls[i].name, "") && EntityPass(s, decls[i]).Failure? ==>
      BuildAll(s, decls[..i + 1]).Failure? && BuildAll(s, decls[..i + 1]).error == EntityPass(s, decls[i]).error
    ensures !Equals(decls[i].name, "") && EntityPass(s, decls[i]).Success? ==>
      BuildAll(s, decls[..i + 1]) ==
        Success(Built(before.entities[decls[i].name := EntityPass(s, decls[i]).value.fields],
                      before.lines + EntityPass(s, decls[i]).value.lines))
  {
    assert decls[..i + 1][..i] == decls[..i];
  }

  lemma AppendAssoc(a: seq<string>, b: seq<string>, c: seq<string>, d: seq<string>)
    ensures a + b + c + d == a + (b + c + d)
  {
  }

  /** Once a prefix of the declarations fails, the whole first pass fails
      with the same exception. */
  lemma {:induction false} BuildFailsOnPrefix(s: Settings, decls: seq<EntityDecl>, n: nat)
    requires n <= |decls|
    requires BuildAll(s, decls[..n]).Failure?
    ensures BuildAll(s, decls) == BuildAll(s, decls[..n])
    decreases |decls|
  {
    if n < |decls| {
      assert decls[..|decls| - 1][..n] == decls[..n];
      BuildFailsOnPrefix(s, decls[..|decls| - 1], n);
    } else {
      assert decls[..n] == decls;
    }
  }

  /** A rendered field line starts with the field's type and name and the
      entity, with its package, as the owning class. */
  lemma RenderedLineNamesEntity(s: Settings, nodeName: string, f: RooField)
    requires Place(s, nodeName, f).Success? && Place(s, nodeName, f).value.Rendered?
    ensures StartsWith(Place(s, nodeName, f).value.line,
      "field " + f.rooType + " --fieldName " + f.fieldName + " --class " + s.package + ConvertReservedWords(nodeName, s.words) + " ")
  {
    CommandStartsWithHeader(f.(owningEntity := Some(s.package + ConvertReservedWords(nodeName, s.words))));
  }

  /** Every field kept for an entity has a type without ':' (the target
      prefix was cut off), so it can name another entity. */
  lemma {:induction false} KeptFieldsUnprefixed(s: Settings, nodeName: string, elements: seq<ElementDecl>)
    requires ElementsPass(s, nodeName, elements).Success?
    ensures forall i :: 0 <= i < |ElementsPass(s, nodeName, elements).value.fields| ==>
      ':' !in ElementsPass(s, nodeName, elements).value.fields[i].xsdType
    decreases |elements|
  {
    if elements != [] {
      KeptFieldsUnprefixed(s, nodeName, elements[..|elements| - 1]);
    }
  }

  /** Every entity kept by the first pass holds only fields whose type has
      no ':'. */
  lemma {:induction false} EntityTypesUnprefixed(s: Settings, decls: seq<EntityDecl>)
    requires BuildAll(s, decls).Success?
    ensures forall name, i ::
      (name in BuildAll(s, decls).value.entities && 0 <= i < |BuildAll(s, decls).value.entities[name]|) ==>
      ':' !in BuildAll(s, decls).value.entities[name][i].xsdType
    decreases |decls|
  {
    if decls != [] {
      var d := decls[|decls| - 1];
      EntityTypesUnprefixed(s, decls[..|decls| - 1]);
      if !Equals(d.name, "") {
        KeptFieldsUnprefixed(s, d.name, d.elements);
      }
    }
  }

  /** The non-empty names among the declarations. */
  function DeclaredNames(decls: seq<EntityDecl>): set<string> {
    set i | 0 <= i < |decls| && decls[i].name != "" :: decls[i].name
  }

  lemma DeclaredNamesStep(decls: seq<EntityDecl>)
    requires decls != []
    ensures DeclaredNames(decls) == DeclaredNames(decls[..|decls| - 1]) +
      (if decls[|decls| - 1].name != "" then {decls[|decls| - 1].name} else {})
  {
    var init := decls[..|decls| - 1];
    forall x | x in DeclaredNames(decls)
      ensures x in DeclaredNames(init) || (decls[|decls| - 1].name != "" && x == decls[|decls| - 1].name)
    {
      var i :| 0 <= i < |decls| && decls[i].name != "" && decls[i].name == x;
      if i < |init| {
        assert init[i] == decls[i];
      }
    }
    forall x | x in DeclaredNames(init) ensures x in DeclaredNames(decls) {
      var i :| 0 <= i < |init| && init[i].name != "" && init[i].name == x;
      assert decls[i] == init[i];
    }
  }

  /** The entities kept are exactly the non-empty names declared. */
  lemma {:induction false} EntityNames(s: Settings, decls: seq<EntityDecl>)
    requires BuildAll(s, decls).Success?
    ensures BuildAll(s, decls).value.entities.Keys == DeclaredNames(decls)
    decreases |decls|
  {
    if decls != [] {
      EntityNames(s, decls[..|decls| - 1]);
      DeclaredNamesStep(decls);
    }
  }
}
