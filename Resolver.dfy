/** The second pass of generateScript: for every kept field of every entity
    the reciprocal field on the entity its type names is looked up, and the
    pair is classified as a relationship (many-to-many, one-to-many,
    many-to-one, one-to-one), a plain reference, a scalar field, or nothing.
    The pass keeps three pieces of state besides the printed lines: the
    many-to-many pairs already given a mappedBy, the relationship commands
    emitted ("E:T" to the command) and the deferred mappedBy names. */
module Resolver {
  import opened Wrappers
  import opened JavaStrings
  import opened Fields
  import opened Names
  import opened EntityBuilder

  /** What the pass needs besides its state: the settings, the entities of
      the first pass, and the names of the complexTypes of the schema. */
  datatype Context = Context(
    settings: Settings,
    /** the reciprocal field is matched by its rooType (AsWritten) or by
        its xsdType (Corrected) */
    lookup: Variant,
    /** the many-to-many key is the bare concatenation of the two names
        (AsWritten) or has a ':' between them (Corrected) */
    key: Variant,
    entities: map<string, seq<RooField>>,
    complexTypes: set<string>)

  /** alreadyMapped, relationCommands, mapLater and the printed lines. */
  datatype State = State(
    alreadyMapped: seq<string>,
    relationCommands: map<string, string>,
    mapLater: map<string, string>,
    out: seq<string>)

  const Initial: State := State([], map[], map[], [])

  /** The classification of a field and its reciprocal. */
  datatype Kind = ManyToMany | OneToMany | ManyToOne | OneToOne | Reference | ScalarField | Nothing {
    /** The four kinds whose command is recorded under "E:T". */
    predicate IsRelationship() {
      this == ManyToMany || this == OneToMany || this == ManyToOne || this == OneToOne
    }
  }

  /** The two characters 13, 10. */
  const CRLF: string := "\r\n"

  // ---------------------------------------------------------------------
  // Reciprocal lookup
  // ---------------------------------------------------------------------

  /** The attribute of a target's field compared with the source entity's
      name. */
  function MatchKey(v: Variant, f: RooField): string {
    match v
    case AsWritten => f.rooType
    case Corrected => f.xsdType
  }

  /** getReferredEntityFromElementDetails: the first field of the target
      whose key equals the source entity's name, or null. */
  function Reciprocal(v: Variant, fields: seq<RooField>, name: string): (r: Option<RooField>)
    ensures r.None? <==> forall i :: 0 <= i < |fields| ==> MatchKey(v, fields[i]) != name
    ensures r.Some? ==> exists i :: (0 <= i < |fields| && fields[i] == r.value && MatchKey(v, fields[i]) == name &&
      forall j :: 0 <= j < i ==> MatchKey(v, fields[j]) != name)
  {
    if fields == [] then None
    else if Equals(MatchKey(v, fields[0]), name) then Some(fields[0])
    else
      var r := Reciprocal(v, fields[1..], name);
      assert forall i :: 1 <= i < |fields| ==> fields[i] == fields[1..][i - 1];
      if r.Some? then
        ghost var i :| (0 <= i < |fields[1..]| && fields[1..][i] == r.value && MatchKey(v, fields[1..][i]) == name &&
          forall j :: 0 <= j < i ==> MatchKey(v, fields[1..][j]) != name);
        assert fields[i + 1] == r.value;
        r
      else r
  }

  // ---------------------------------------------------------------------
  // Classification
  // ---------------------------------------------------------------------

  /** The first-match classification: `c` is the field's cardinality,
      `referred` the reciprocal's (None when there is none),
      `targetFields` the fields of the entity the type names (None when no
      such entity), `isComplexType` whether a complexType of that name
      exists. */
  function Classify(c: Cardinality, referred: Option<Cardinality>, targetFields: Option<seq<RooField>>,
                    isComplexType: bool): (k: Kind)
    ensures k == ManyToMany <==> c.IsMany() && referred.Some? && referred.value.IsMany()
    ensures k == OneToMany <==> c.IsMany() && !(referred.Some? && referred.value.IsMany())
    ensures k == ManyToOne <==> c == Mandatory && referred.Some? && referred.value.IsMany()
    ensures k == OneToOne <==> c == Mandatory && referred == Some(Mandatory)
    ensures k == Reference || k == ScalarField <==>
      (c == Unrecognised || c == Optional ||
       (c == Mandatory && (targetFields.None? || targetFields.value == []) &&
        !(referred.Some? && (referred.value.IsMany() || referred.value == Mandatory))))
    ensures k == Reference ==> isComplexType
    ensures k == ScalarField ==> !isComplexType
    ensures k == Nothing <==>
      c == Mandatory && targetFields.Some? && targetFields.value != [] &&
      !(referred.Some? && (referred.value.IsMany() || referred.value == Mandatory))
  {
    var referredMany := referred.Some? && referred.value.IsMany();
    if c.IsMany() then
      if referredMany then ManyToMany else OneToMany
    else if c == Mandatory && referredMany then ManyToOne
    else if c == Mandatory && referred == Some(Mandatory) then OneToOne
    else if c == Unrecognised || c == Optional || (c == Mandatory && (targetFields.None? || |targetFields.value| == 0)) then
      if isComplexType then Reference else ScalarField
    else Nothing
  }

  // ---------------------------------------------------------------------
  // Commands
  // ---------------------------------------------------------------------

  /** The comment line before a relationship command. */
  function Banner(owner: string, target: string, title: string): string {
    CRLF + "# " + owner + " to " + target + " [" + title + "]" + CRLF
  }

  /** A field command between two entities of the package. */
  function Directive(verb: string, fieldName: string, package: string, target: string, owner: string): string {
    verb + " --fieldName " + fieldName + " --type " + package + target + " --class " + package + owner
  }

  /** The command of a relationship or plain reference, before any
      mappedBy. */
  function RelationCommand(k: Kind, fieldName: string, package: string, target: string, owner: string): string {
    match k
    case ManyToMany =>
      Banner(owner, target, "Many to Many") + Directive("field set", fieldName, package, target, owner) + " --cardinality MANY_TO_MANY"
    case OneToMany =>
      Banner(owner, target, "One to Many") + Directive("field set", fieldName, package, target, owner) + " --cardinality ONE_TO_MANY"
    case ManyToOne =>
      Banner(owner, target, "Many to One") + Directive("field reference", fieldName, package, target, owner) + " --cardinality MANY_TO_ONE"
    case OneToOne =>
      Banner(owner, target, "One to One") + Directive("field reference", fieldName, package, target, owner) + " --cardinality ONE_TO_ONE"
    case _ =>
      CRLF + "# " + owner + " to " + target + " \n" + Directive("field reference", fieldName, package, target, owner)
  }

  /** The many-to-many key of a pair: the two names, the smaller first in
      String.compareTo order, concatenated (AsWritten) or with ':' between
      them (Corrected). */
  function PairKey(v: Variant, a: string, b: string): string {
    var separator := if v == AsWritten then "" else ":";
    if LexLess(a, b) then a + separator + b else b + separator + a
  }

  // ---------------------------------------------------------------------
  // One field, and the whole pass
  // ---------------------------------------------------------------------

  /** The fields of the entity the field's type names, if there is one. */
  function TargetFields(c: Context, f: RooField): Option<seq<RooField>> {
    if f.xsdType in c.entities then Some(c.entities[f.xsdType]) else None
  }

  /** The reciprocal field on that entity, if any. */
  function ReciprocalOf(c: Context, owner: string, f: RooField): Option<RooField> {
    var target := TargetFields(c, f);
    if target.Some? then Reciprocal(c.lookup, target.value, owner) else None
  }

  /** The classification of field `f` of entity `owner`. */
  function KindOf(c: Context, owner: string, f: RooField): Kind {
    var reciprocal := ReciprocalOf(c, owner, f);
    Classify(f.cardinality, if reciprocal.Some? then Some(reciprocal.value.cardinality) else None,
             TargetFields(c, f), f.xsdType in c.complexTypes)
  }

  /** The name of the reciprocal field, "" when there is none. */
  function ReciprocalName(c: Context, owner: string, f: RooField): string {
    var reciprocal := ReciprocalOf(c, owner, f);
    if reciprocal.Some? then reciprocal.value.fieldName else ""
  }

  /** What the pass does with one kept field `f` of entity `owner`. */
  function StepField(c: Context, owner: string, f: RooField, st: State): State {
    var name := ConvertReservedWords(f.fieldName, c.settings.words);
    var target := f.xsdType;
    var package := c.settings.package;
    var k := KindOf(c, owner, f);
    var command := RelationCommand(k, name, package, target, owner);
    match k
    case ManyToMany =>
      var key := PairKey(c.key, owner, target);
      var line := if key in st.alreadyMapped then command else command + " --mappedBy " + ReciprocalName(c, owner, f);
      State(if key in st.alreadyMapped then st.alreadyMapped else st.alreadyMapped + [key],
            st.relationCommands[owner + ":" + target := line], st.mapLater, st.out + [line])
    case ManyToOne =>
      var back := target + ":" + owner;
      State(st.alreadyMapped, st.relationCommands[owner + ":" + target := command],
            if back in st.relationCommands then st.mapLater else st.mapLater[back := name], st.out + [command])
    case OneToMany =>
      st.(relationCommands := st.relationCommands[owner + ":" + target := command], out := st.out + [command])
    case OneToOne =>
      st.(relationCommands := st.relationCommands[owner + ":" + target := command], out := st.out + [command])
    case Reference =>
      st.(out := st.out + [command])
    case ScalarField =>
      st.(out := st.out + [ToCommand(f.(owningEntity := Some(package + ConvertReservedWords(owner, c.settings.words))))])
    case Nothing =>
      st
  }

  /** The inner loop over the fields of one entity. */
  function ResolveFields(c: Context, owner: string, fields: seq<RooField>, st: State): State
    decreases |fields|
  {
    if fields == [] then st else ResolveFields(c, owner, fields[1..], StepField(c, owner, fields[0], st))
  }

  /** The outer loop over the entities, in the map's iteration order. */
  function ResolveAll(c: Context, order: seq<string>, st: State): State
    requires forall i :: 0 <= i < |order| ==> order[i] in c.entities
    decreases |order|
  {
    if order == [] then st
    else ResolveAll(c, order[1..], ResolveFields(c, order[0], c.entities[order[0]], st))
  }

  /** An iteration order of a map: every key exactly once. */
  predicate IterationOrder(entities: map<string, seq<RooField>>, order: seq<string>) {
    (forall name :: name in entities ==> name in order) &&
    (forall i :: 0 <= i < |order| ==> order[i] in entities) &&
    (forall i, j :: 0 <= i < j < |order| ==> order[i] != order[j])
  }

  // ---------------------------------------------------------------------
  // The loops
  // ---------------------------------------------------------------------

  /** The body of the inner loop: classify field `f` of `owner` and update
      the pass's collections and printed lines. */
  method ResolveField(c: Context, owner: string, f: RooField, alreadyMapped: seq<string>,
                      relationCommands: map<string, string>, mapLater: map<string, string>, out: seq<string>)
    returns (alreadyMapped': seq<string>, relationCommands': map<string, string>,
             mapLater': map<string, string>, out': seq<string>)
    ensures State(alreadyMapped', relationCommands', mapLater', out') ==
            StepField(c, owner, f, State(alreadyMapped, relationCommands, mapLater, out))
  {
    alreadyMapped', relationCommands', mapLater', out' := alreadyMapped, relationCommands, mapLater, out;
    var name := ConvertReservedWords(f.fieldName, c.settings.words);
    var target := f.xsdType;
    var k := KindOf(c, owner, f);
    var command := RelationCommand(k, name, c.settings.package, target, owner);
    if k == ManyToMany {
      var key := PairKey(c.key, owner, target);
      if key !in alreadyMapped {
        command := command + " --mappedBy " + ReciprocalName(c, owner, f);
        alreadyMapped' := alreadyMapped + [key];
      }
      out' := out + [command];
      relationCommands' := relationCommands[owner + ":" + target := command];
    } else if k == OneToMany || k == OneToOne {
      out' := out + [command];
      relationCommands' := relationCommands[owner + ":" + target := command];
    } else if k == ManyToOne {
      if target + ":" + owner !in relationCommands {
        mapLater' := mapLater[target + ":" + owner := name];
      }
      out' := out + [command];
      relationCommands' := relationCommands[owner + ":" + target := command];
    } else if k == Reference {
      out' := out + [command];
    } else if k == ScalarField {
      out' := out + [ToCommand(f.(owningEntity := Some(c.settings.package + ConvertReservedWords(owner, c.settings.words))))];
    }
  }

  lemma ResolveFieldsAt(c: Context, owner: string, fields: seq<RooField>, j: nat, st: State)
    requires j < |fields|
    ensures ResolveFields(c, owner, fields[j..], st) == ResolveFields(c, owner, fields[j + 1..], StepField(c, owner, fields[j], st))
  {
    assert fields[j..][1..] == fields[j + 1..];
  }

  lemma ResolveAllAt(c: Context, order: seq<string>, i: nat, st: State)
    requires i < |order| && forall k :: 0 <= k < |order| ==> order[k] in c.entities
    ensures ResolveAll(c, order[i..], st) == ResolveAll(c, order[i + 1..], ResolveFields(c, order[i], c.entities[order[i]], st))
  {
    assert order[i..][1..] == order[i + 1..];
  }

  /** The inner loop: every field of `owner`, in order. */
  method ResolveEntity(c: Context, owner: string, fields: seq<RooField>, alreadyMapped: seq<string>,
                       relationCommands: map<string, string>, mapLater: map<string, string>, out: seq<string>)
    returns (alreadyMapped': seq<string>, relationCommands': map<string, string>,
             mapLater': map<string, string>, out': seq<string>)
    ensures State(alreadyMapped', relationCommands', mapLater', out') ==
            ResolveFields(c, owner, fields, State(alreadyMapped, relationCommands, mapLater, out))
  {
    alreadyMapped', relationCommands', mapLater', out' := alreadyMapped, relationCommands, mapLater, out;
    var j := 0;
    while j < |fields|
      invariant 0 <= j <= |fields|
      invariant ResolveFields(c, owner, fields[j..], State(alreadyMapped', relationCommands', mapLater', out')) ==
                ResolveFields(c, owner, fields, State(alreadyMapped, relationCommands, mapLater, out))
    {
      ResolveFieldsAt(c, owner, fields, j, State(alreadyMapped', relationCommands', mapLater', out'));
      alreadyMapped', relationCommands', mapLater', out' :=
        ResolveField(c, owner, fields[j], alreadyMapped', relationCommands', mapLater', out');
      j := j + 1;
    }
  }

  /** The second loop of generateScript: for each entity in the map's
      iteration order, for each of its fields, classify and emit. */
  method ResolveRelationships(c: Context, order: seq<string>) returns (st: State)
    requires IterationOrder(c.entities, order)
    ensures st == ResolveAll(c, order, Initial)
  {
    var alreadyMapped: seq<string> := [];
    var relationCommands: map<string, string> := map[];
    var mapLater: map<string, string> := map[];
    var out: seq<string> := [];
    var i := 0;
    while i < |order|
      invariant 0 <= i <= |order|
      invariant ResolveAll(c, order[i..], State(alreadyMapped, relationCommands, mapLater, out)) == ResolveAll(c, order, Initial)
    {
      ResolveAllAt(c, order, i, State(alreadyMapped, relationCommands, mapLater, out));
      var owner := order[i];
      alreadyMapped, relationCommands, mapLater, out :=
        ResolveEntity(c, owner, c.entities[owner], alreadyMapped, relationCommands, mapLater, out);
      i := i + 1;
    }
    st := State(alreadyMapped, relationCommands, mapLater, out);
  }

  // ---------------------------------------------------------------------
  // The many-to-many key
  // ---------------------------------------------------------------------

  /** Both sides of a pair compute the same key, whichever is visited
      first. */
  lemma PairKeySymmetric(v: Variant, a: string, b: string)
    ensures PairKey(v, a, b) == PairKey(v, b, a)
  {
    LexLessTotal(a, b);
  }

  /** Two different pairs share a key when the names are concatenated
      without a separator. */
  lemma KeyCollisionAsWritten()
    ensures PairKey(AsWritten, "a", "bc") == PairKey(AsWritten, "ab", "c") == "abc"
    ensures {"a", "bc"} != {"ab", "c"}
  {
    assert LexLess("a", "bc");
    assert LexLess("ab", "c");
    assert "a" !in {"ab", "c"};
  }

  /** With the bare concatenation as key, the pair (ab, c) is not given its
      mappedBy once the pair (a, bc) has been: both pairs have the key
      "abc". With a ':' between the names, both pairs are given theirs. */
  lemma CollidingPairs(c: Context, fa: RooField, fb: RooField, st: State)
    requires KindOf(c, "a", fa) == ManyToMany && fa.xsdType == "bc"
    requires KindOf(c, "ab", fb) == ManyToMany && fb.xsdType == "c"
    requires st.alreadyMapped == []
    ensures var next := StepField(c, "ab", fb, StepField(c, "a", fa, st));
      var plain := RelationCommand(ManyToMany, ConvertReservedWords(fb.fieldName, c.settings.words),
                                   c.settings.package, "c", "ab");
      |next.out| == |st.out| + 2 &&
      next.out[|st.out| + 1] == (if c.key == AsWritten then plain else plain + " --mappedBy " + ReciprocalName(c, "ab", fb))
  {
    var mid := StepField(c, "a", fa, st);
    ManyToManyMapsPairOnce(c, "a", fa, st);
    StepRecords(c, "a", fa, st);
    assert mid.alreadyMapped == [PairKey(c.key, "a", "bc")];
    ManyToManyMapsPairOnce(c, "ab", fb, mid);
    StepRecords(c, "ab", fb, mid);
    if c.key == AsWritten {
      KeyCollisionAsWritten();
    } else {
      assert LexLess("a", "bc") && LexLess("ab", "c");
      assert PairKey(c.key, "a", "bc")[1] != PairKey(c.key, "ab", "c")[1];
    }
  }

  /** A ':' splits a key back into its two names when the first has no ':'. */
  lemma SplitAtSeparator(x1: string, y1: string, x2: string, y2: string)
    requires ':' !in x1 && ':' !in x2
    requires x1 + ":" + y1 == x2 + ":" + y2
    ensures x1 == x2 && y1 == y2
  {
    var s := x1 + ":" + y1;
    FirstSeparator(x1, y1);
    FirstSeparator(x2, y2);
    assert x1 == s[..|x1|] == x2;
    assert y1 == s[|x1| + 1..] == y2;
  }

  /** With a ':' between the names, keys of names without ':' identify
      the unordered pair. */
  lemma SeparatedKeyInjective(a: string, b: string, a': string, b': string)
    requires ':' !in a && ':' !in b && ':' !in a' && ':' !in b'
    requires PairKey(Corrected, a, b) == PairKey(Corrected, a', b')
    ensures {a, b} == {a', b'}
  {
    var x := if LexLess(a, b) then a else b;
    var y := if LexLess(a, b) then b else a;
    var x' := if LexLess(a', b') then a' else b';
    var y' := if LexLess(a', b') then b' else a';
    SplitAtSeparator(x, y, x', y');
  }

  // ---------------------------------------------------------------------
  // What one step records
  // ---------------------------------------------------------------------

  /** A relationship's command is printed and recorded under "E:T"; any
      other kind leaves the recorded commands and the mapped pairs alone,
      and prints one line unless the field is skipped. */
  lemma StepRecords(c: Context, owner: string, f: RooField, st: State)
    ensures var next := StepField(c, owner, f, st);
      |next.out| == |st.out| + (if KindOf(c, owner, f) == Nothing then 0 else 1) &&
      next.out[..|st.out|] == st.out &&
      (KindOf(c, owner, f).IsRelationship() ==>
         next.relationCommands == st.relationCommands[owner + ":" + f.xsdType := next.out[|st.out|]]) &&
      (!KindOf(c, owner, f).IsRelationship() ==>
         next.relationCommands == st.relationCommands && next.alreadyMapped == st.alreadyMapped)
  {
  }

  /** A many-to-many command gets " --mappedBy " and the reciprocal's
      name exactly when its pair was not mapped before; afterwards it is. */
  lemma ManyToManyMapsPairOnce(c: Context, owner: string, f: RooField, st: State)
    requires KindOf(c, owner, f) == ManyToMany
    ensures var next := StepField(c, owner, f, st);
      var key := PairKey(c.key, owner, f.xsdType);
      var command := RelationCommand(ManyToMany, ConvertReservedWords(f.fieldName, c.settings.words),
                                     c.settings.package, f.xsdType, owner);
      key in next.alreadyMapped &&
      (key in st.alreadyMapped ==> next.out[|st.out|] == command && next.alreadyMapped == st.alreadyMapped) &&
      (key !in st.alreadyMapped ==>
         next.out[|st.out|] == command + " --mappedBy " + ReciprocalName(c, owner, f) &&
         next.alreadyMapped == st.alreadyMapped + [key])
  {
  }

  /** Once one side of a many-to-many pair has been given its mappedBy,
      the other side's command carries none. */
  lemma OtherSideNotMapped(c: Context, owner: string, f: RooField, st: State)
    requires KindOf(c, owner, f) == ManyToMany
    requires PairKey(c.key, f.xsdType, owner) in st.alreadyMapped
    ensures StepField(c, owner, f, st).out ==
      st.out + [RelationCommand(ManyToMany, ConvertReservedWords(f.fieldName, c.settings.words),
                                c.settings.package, f.xsdType, owner)]
    ensures StepField(c, owner, f, st).alreadyMapped == st.alreadyMapped
  {
    PairKeySymmetric(c.key, f.xsdType, owner);
  }

  /** A many-to-one whose reverse command has not been emitted defers
      the field's name under "T:E"; otherwise mapLater is unchanged. */
  lemma ManyToOneDefers(c: Context, owner: string, f: RooField, st: State)
    requires KindOf(c, owner, f) == ManyToOne
    ensures var next := StepField(c, owner, f, st);
      var back := f.xsdType + ":" + owner;
      (back !in st.relationCommands ==>
         next.mapLater == st.mapLater[back := ConvertReservedWords(f.fieldName, c.settings.words)]) &&
      (back in st.relationCommands ==> next.mapLater == st.mapLater)
  {
  }

  // ---------------------------------------------------------------------
  // Properties of the whole pass
  // ---------------------------------------------------------------------

  /** `later` continues `earlier`: nothing printed, mapped or recorded is
      lost. */
  predicate Extends(earlier: State, later: State) {
    earlier.alreadyMapped <= later.alreadyMapped &&
    earlier.out <= later.out &&
    earlier.relationCommands.Keys <= later.relationCommands.Keys
  }

  lemma StepExtends(c: Context, owner: string, f: RooField, st: State)
    ensures Extends(st, StepField(c, owner, f, st))
  {
  }

  lemma {:induction false} ResolveFieldsExtends(c: Context, owner: string, fields: seq<RooField>, st: State)
    ensures Extends(st, ResolveFields(c, owner, fields, st))
    decreases |fields|
  {
    if fields != [] {
      var next := StepField(c, owner, fields[0], st);
      StepExtends(c, owner, fields[0], st);
      ResolveFieldsExtends(c, owner, fields[1..], next);
    }
  }

  /** Every line printed, pair mapped and command recorded before the
      pass is still there after it. */
  lemma {:induction false} ResolveAllExtends(c: Context, order: seq<string>, st: State)
    requires forall i :: 0 <= i < |order| ==> order[i] in c.entities
    ensures Extends(st, ResolveAll(c, order, st))
    decreases |order|
  {
    if order != [] {
      var next := ResolveFields(c, order[0], c.entities[order[0]], st);
      ResolveFieldsExtends(c, order[0], c.entities[order[0]], st);
      ResolveAllExtends(c, order[1..], next);
    }
  }

  /** No pair is mapped twice. */
  predicate NoDuplicates(s: seq<string>) {
    forall i, j :: 0 <= i < j < |s| ==> s[i] != s[j]
  }

  lemma StepKeepsNoDuplicates(c: Context, owner: string, f: RooField, st: State)
    requires NoDuplicates(st.alreadyMapped)
    ensures NoDuplicates(StepField(c, owner, f, st).alreadyMapped)
  {
  }

  lemma {:induction false} ResolveFieldsKeepsNoDuplicates(c: Context, owner: string, fields: seq<RooField>, st: State)
    requires NoDuplicates(st.alreadyMapped)
    ensures NoDuplicates(ResolveFields(c, owner, fields, st).alreadyMapped)
    decreases |fields|
  {
    if fields != [] {
      StepKeepsNoDuplicates(c, owner, fields[0], st);
      ResolveFieldsKeepsNoDuplicates(c, owner, fields[1..], StepField(c, owner, fields[0], st));
    }
  }

  /** alreadyMapped never holds a key twice. */
  lemma {:induction false} ResolveAllKeepsNoDuplicates(c: Context, order: seq<string>, st: State)
    requires forall i :: 0 <= i < |order| ==> order[i] in c.entities
    requires NoDuplicates(st.alreadyMapped)
    ensures NoDuplicates(ResolveAll(c, order, st).alreadyMapped)
    decreases |order|
  {
    if order != [] {
      ResolveFieldsKeepsNoDuplicates(c, order[0], c.entities[order[0]], st);
      ResolveAllKeepsNoDuplicates(c, order[1..], ResolveFields(c, order[0], c.entities[order[0]], st));
    }
  }

  /** The state without the deferred names. */
  function WithoutDeferred(st: State): State {
    st.(mapLater := map[])
  }

  lemma StepIgnoresDeferred(c: Context, owner: string, f: RooField, st: State, st': State)
    requires WithoutDeferred(st) == WithoutDeferred(st')
    ensures WithoutDeferred(StepField(c, owner, f, st)) == WithoutDeferred(StepField(c, owner, f, st'))
  {
    assert st.alreadyMapped == st'.alreadyMapped && st.relationCommands == st'.relationCommands && st.out == st'.out;
  }

  lemma {:induction false} ResolveFieldsIgnoresDeferred(c: Context, owner: string, fields: seq<RooField>, st: State, st': State)
    requires WithoutDeferred(st) == WithoutDeferred(st')
    ensures WithoutDeferred(ResolveFields(c, owner, fields, st)) == WithoutDeferred(ResolveFields(c, owner, fields, st'))
    decreases |fields|
  {
    if fields != [] {
      StepIgnoresDeferred(c, owner, fields[0], st, st');
      ResolveFieldsIgnoresDeferred(c, owner, fields[1..], StepField(c, owner, fields[0], st), StepField(c, owner, fields[0], st'));
    }
  }

  /** mapLater is written but never read: the printed lines, the recorded
      commands and the mapped pairs do not depend on it. */
  lemma {:induction false} ResolveAllIgnoresDeferred(c: Context, order: seq<string>, st: State, st': State)
    requires forall i :: 0 <= i < |order| ==> order[i] in c.entities
    requires WithoutDeferred(st) == WithoutDeferred(st')
    ensures WithoutDeferred(ResolveAll(c, order, st)) == WithoutDeferred(ResolveAll(c, order, st'))
    decreases |order|
  {
    if order != [] {
      var fields := c.entities[order[0]];
      ResolveFieldsIgnoresDeferred(c, order[0], fields, st, st');
      ResolveAllIgnoresDeferred(c, order[1..], ResolveFields(c, order[0], fields, st), ResolveFields(c, order[0], fields, st'));
    }
  }

  // ---------------------------------------------------------------------
  // The reciprocal field
  // ---------------------------------------------------------------------

  /** As written, the reciprocal is sought by rooType. A mandatory field
      whose type names an entity with fields is then dropped without any
      command whenever no field of that entity has the owner's name as its
      rooType, which is the case for extracted fields: their rooType is a
      Roo type such as "string" (Person.address of type Address, with
      Address.residents unbounded of type Person, prints nothing). */
  lemma ReciprocalMissedAsWritten(c: Context, owner: string, f: RooField, st: State)
    requires c.lookup == AsWritten && f.cardinality == Mandatory
    requires f.xsdType in c.entities && c.entities[f.xsdType] != []
    requires forall i :: 0 <= i < |c.entities[f.xsdType]| ==> c.entities[f.xsdType][i].rooType != owner
    ensures ReciprocalOf(c, owner, f).None?
    ensures KindOf(c, owner, f) == Nothing
    ensures StepField(c, owner, f, st) == st
  {
  }

  /** Sought by xsdType, the same field finds its reciprocal, and when the
      reciprocal is a collection the field becomes the many-to-one side,
      printed and recorded under "E:T". */
  lemma ReciprocalFoundCorrected(c: Context, owner: string, f: RooField, st: State)
    requires c.lookup == Corrected && f.cardinality == Mandatory
    requires f.xsdType in c.entities
    requires exists i :: 0 <= i < |c.entities[f.xsdType]| && c.entities[f.xsdType][i].xsdType == owner
    requires forall i :: 0 <= i < |c.entities[f.xsdType]| && c.entities[f.xsdType][i].xsdType == owner ==>
      c.entities[f.xsdType][i].cardinality.IsMany()
    ensures KindOf(c, owner, f) == ManyToOne
    ensures StepField(c, owner, f, st).relationCommands.Keys == st.relationCommands.Keys + {owner + ":" + f.xsdType}
    ensures |StepField(c, owner, f, st).out| == |st.out| + 1
  {
    var r := ReciprocalOf(c, owner, f);
    assert r.Some? && r.value.cardinality.IsMany();
  }

  /** Matched by xsdType, the reciprocal is found whenever the target
      has a field whose type names the owner, and it is the first one. */
  lemma CorrectedFindsReciprocal(c: Context, owner: string, f: RooField)
    requires c.lookup == Corrected
    requires f.xsdType in c.entities
    requires exists i :: 0 <= i < |c.entities[f.xsdType]| && c.entities[f.xsdType][i].xsdType == owner
    ensures ReciprocalOf(c, owner, f).Some? && ReciprocalOf(c, owner, f).value.xsdType == owner
    ensures ReciprocalOf(c, owner, f).value in c.entities[f.xsdType]
  {
  }
}
