/** generateScript's two loops joined: the entity sections the first loop
    prints, the banner of the relationship section, and the lines the
    second loop prints while it walks the very map the first loop built. */
module Generator {
  import opened Wrappers
  import opened Fields
  import opened EntityBuilder
  import opened Resolver

  /** The three lines printed between the two loops. */
  const RelationshipsBanner: seq<string> :=
    ["########################", "# Entity Relationships #", "########################"]

  /** The context of the second loop: the entities the first loop kept. */
  function SecondPass(s: Settings, b: Built, lookup: Variant, key: Variant, complexTypes: set<string>): Context {
    Context(s, lookup, key, b.entities, complexTypes)
  }

  /** The entity and relationship sections of a script, or the exception
      of the first loop; `order` is the iteration order of the map the
      first loop built. */
  function Script(s: Settings, decls: seq<EntityDecl>, order: seq<string>, lookup: Variant, key: Variant,
                  complexTypes: set<string>): (r: Result<seq<string>, BuildError>)
    requires BuildAll(s, decls).Success? ==> IterationOrder(BuildAll(s, decls).value.entities, order)
    ensures r.Success? <==> BuildAll(s, decls).Success?
    ensures r.Failure? ==> r.error == BuildAll(s, decls).error
    ensures r.Success? ==>
      var b := BuildAll(s, decls).value;
      |r.value| == |b.lines| + 3 + |ResolveAll(SecondPass(s, b, lookup, key, complexTypes), order, Initial).out| &&
      r.value[..|b.lines|] == b.lines &&
      r.value[|b.lines|..|b.lines| + 3] == RelationshipsBanner &&
      r.value[|b.lines| + 3..] == ResolveAll(SecondPass(s, b, lookup, key, complexTypes), order, Initial).out
  {
    var b :- BuildAll(s, decls);
    var second := ResolveAll(SecondPass(s, b, lookup, key, complexTypes), order, Initial);
    assert (b.lines + RelationshipsBanner + second.out)[..|b.lines|] == b.lines;
    Success(b.lines + RelationshipsBanner + second.out)
  }

  /** generateScript from the entity map to the end of the relationship
      section: the first loop, the banner, then the second loop over the
      map the first loop filled. */
  method GenerateScript(s: Settings, decls: seq<EntityDecl>, order: seq<string>, lookup: Variant, key: Variant,
                        complexTypes: set<string>) returns (r: Result<seq<string>, BuildError>)
    requires BuildAll(s, decls).Success? ==> IterationOrder(BuildAll(s, decls).value.entities, order)
    ensures r == Script(s, decls, order, lookup, key, complexTypes)
  {
    var built := BuildEntities(s, decls);
    if built.Failure? {
      return Failure(built.error);
    }
    var lines := built.value.lines + RelationshipsBanner;
    var st := ResolveRelationships(SecondPass(s, built.value, lookup, key, complexTypes), order);
    lines := lines + st.out;
    r := Success(lines);
  }

  /** What the first loop establishes holds for the map the second loop
      walks: it visits exactly the non-empty declared names, and every
      field it classifies has a type without ':', so a type names an
      entity by its plain name. */
  lemma SecondPassSeesFirstPass(s: Settings, decls: seq<EntityDecl>, order: seq<string>, lookup: Variant,
                                key: Variant, complexTypes: set<string>)
    requires BuildAll(s, decls).Success?
    requires IterationOrder(BuildAll(s, decls).value.entities, order)
    ensures var c := SecondPass(s, BuildAll(s, decls).value, lookup, key, complexTypes);
      (forall name :: name in order <==> name in DeclaredNames(decls)) &&
      (forall i, j :: 0 <= i < |order| && 0 <= j < |c.entities[order[i]]| ==>
        ':' !in c.entities[order[i]][j].xsdType)
  {
    EntityNames(s, decls);
    EntityTypesUnprefixed(s, decls);
  }
}
