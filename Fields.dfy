/** The field record of the generator (RooField.java) with the occurrence
    classification it carries (the CARDINALITY enum of
    RooScriptGenerator.java), and the rendering of a field as one
    "field ..." command line of the scaffolding tool. */
module Fields {
  import opened Wrappers
  import opened JavaStrings

  /** Occurrence classification of a field; `Unrecognised` is the enum's
      NONE, given to every (minOccurs, maxOccurs) pair the table does not
      list. */
  datatype Cardinality = Optional | Mandatory | OneOrMore | Unbounded | Unrecognised {
    /** The two classifications that allow more than one occurrence. */
    predicate IsMany() {
      this == OneOrMore || this == Unbounded
    }
  }

  /** One modelled property of an entity. Reference-typed attributes of the
      source that may be null are Options; `decimalMin` and `decimalMax`
      hold the parsed Double bounds. */
  datatype RooField = RooField(
    cardinality: Cardinality,
    fieldName: string,
    xsdType: string,
    rooType: string,
    owningEntity: Option<string>,
    notNull: Option<bool>,
    nullRequired: Option<bool>,
    decimalMin: Option<real>,
    decimalMax: Option<real>,
    min: Option<int>,
    max: Option<int>,
    sizeMin: Option<int>,
    sizeMax: Option<int>,
    regexp: Option<string>,
    value: Option<string>,
    comment: Option<string>,
    tranzient: Option<bool>,
    unique: Option<bool>,
    lob: Option<bool>)

  /** Java string concatenation of a possibly-null String. */
  function TextOrNull(s: Option<string>): string {
    s.GetOr("null")
  }

  /** A flag option: its text when the flag holds, nothing otherwise. */
  function FlagText(on: bool, text: string): string {
    if on then text else ""
  }

  /** A valued option: its name, the value and a space when the value is
      non-null, nothing otherwise. */
  function ArgText(name: string, arg: Option<string>): string {
    if arg.Some? then name + arg.value + " " else ""
  }

  /** A valued option whose value is a Java Integer. */
  function IntArgText(name: string, arg: Option<int>): string {
    if arg.Some? then name + IntToDecimal(arg.value) + " " else ""
  }

  /** RooField.toString: the command line that declares the field. Java
      concatenates left to right; the concatenation is grouped to the right
      here, which yields the same string. */
  function ToCommand(f: RooField): string {
    "field " + f.rooType + " --fieldName " + f.fieldName + " --class " + TextOrNull(f.owningEntity) + " " +
    (FlagText(f.unique == Some(true), "--unique ") +
    (FlagText(f.notNull == Some(true), "--notNull ") +
    (FlagText(f.nullRequired == Some(true), "--nullRequired ") +
    (ArgText("--regexp ", f.regexp) +
    (IntArgText("--sizeMin ", f.sizeMin) +
    (IntArgText("--sizeMax ", f.sizeMax) +
    (IntArgText("--min ", f.min) +
    (IntArgText("--max ", f.max) +
    (FlagText(f.tranzient == Some(true), "--transient ") +
    (ArgText("--value ", f.value) +
    FlagText(f.lob.Some?, "--lob ")))))))))))
  }

  // ---------------------------------------------------------------------
  // An independent description of the rendered line: a fixed header and a
  // list of optional clauses.
  // ---------------------------------------------------------------------

  /** The optional clauses of a field command. */
  datatype Clause =
    | UniqueClause
    | NotNullClause
    | NullRequiredClause
    | RegexpClause(pattern: string)
    | SizeMinClause(size: int)
    | SizeMaxClause(size: int)
    | MinClause(bound: int)
    | MaxClause(bound: int)
    | TransientClause
    | ValueClause(text: string)
    | LobClause

  /** The position of each clause kind in the fixed order. */
  function Rank(c: Clause): nat {
    match c
    case UniqueClause => 0
    case NotNullClause => 1
    case NullRequiredClause => 2
    case RegexpClause(_) => 3
    case SizeMinClause(_) => 4
    case SizeMaxClause(_) => 5
    case MinClause(_) => 6
    case MaxClause(_) => 7
    case TransientClause => 8
    case ValueClause(_) => 9
    case LobClause => 10
  }

  /** A clause as text: an option name, its argument if any, one space. */
  function ClauseText(c: Clause): string {
    match c
    case UniqueClause => "--unique "
    case NotNullClause => "--notNull "
    case NullRequiredClause => "--nullRequired "
    case RegexpClause(p) => "--regexp " + p + " "
    case SizeMinClause(n) => "--sizeMin " + IntToDecimal(n) + " "
    case SizeMaxClause(n) => "--sizeMax " + IntToDecimal(n) + " "
    case MinClause(n) => "--min " + IntToDecimal(n) + " "
    case MaxClause(n) => "--max " + IntToDecimal(n) + " "
    case TransientClause => "--transient "
    case ValueClause(v) => "--value " + v + " "
    case LobClause => "--lob "
  }

  function ClausesText(cs: seq<Clause>): string {
    if cs == [] then "" else ClauseText(cs[0]) + ClausesText(cs[1..])
  }

  /** The clause of rank `k` that a field calls for, with the value it
      carries; None where it calls for none. */
  function OptionOfRank(f: RooField, k: nat): (r: Option<Clause>)
    ensures r.Some? ==> Rank(r.value) == k
  {
    if k == 0 then (if f.unique == Some(true) then Some(UniqueClause) else None)
    else if k == 1 then (if f.notNull == Some(true) then Some(NotNullClause) else None)
    else if k == 2 then (if f.nullRequired == Some(true) then Some(NullRequiredClause) else None)
    else if k == 3 then (if f.regexp.Some? then Some(RegexpClause(f.regexp.value)) else None)
    else if k == 4 then (if f.sizeMin.Some? then Some(SizeMinClause(f.sizeMin.value)) else None)
    else if k == 5 then (if f.sizeMax.Some? then Some(SizeMaxClause(f.sizeMax.value)) else None)
    else if k == 6 then (if f.min.Some? then Some(MinClause(f.min.value)) else None)
    else if k == 7 then (if f.max.Some? then Some(MaxClause(f.max.value)) else None)
    else if k == 8 then (if f.tranzient == Some(true) then Some(TransientClause) else None)
    else if k == 9 then (if f.value.Some? then Some(ValueClause(f.value.value)) else None)
    else if k == 10 then (if f.lob.Some? then Some(LobClause) else None)
    else None
  }

  /** The option of every rank, in the fixed order. */
  function ClauseOptions(f: RooField): (r: seq<Option<Clause>>)
    ensures |r| == 11
    ensures forall k :: 0 <= k < |r| && r[k].Some? ==> Rank(r[k].value) == k
  {
    seq(11, k requires 0 <= k < 11 => OptionOfRank(f, k))
  }

  /** The clauses present in a list of options, in order. */
  function Somes(os: seq<Option<Clause>>): seq<Clause> {
    if os == [] then [] else (if os[0].Some? then [os[0].value] else []) + Somes(os[1..])
  }

  /** The clauses a field calls for, in the fixed order. */
  function Clauses(f: RooField): seq<Clause> {
    Somes(ClauseOptions(f))
  }

  function OptionalText(c: Option<Clause>): string {
    if c.Some? then ClauseText(c.value) else ""
  }

  /** The text of a list of options: the present clauses' texts. */
  function OptionsText(os: seq<Option<Clause>>): string {
    if os == [] then "" else OptionalText(os[0]) + OptionsText(os[1..])
  }

  /** The part every field command starts with. */
  function Header(f: RooField): string {
    "field " + f.rooType + " --fieldName " + f.fieldName + " --class " + TextOrNull(f.owningEntity) + " "
  }

  lemma {:induction false} ClausesTextAppend(a: seq<Clause>, b: seq<Clause>)
    ensures ClausesText(a + b) == ClausesText(a) + ClausesText(b)
  {
    if a == [] {
      assert a + b == b;
    } else {
      assert (a + b)[0] == a[0] && (a + b)[1..] == a[1..] + b;
      ClausesTextAppend(a[1..], b);
    }
  }

  /** Rendering the present clauses is rendering every option. */
  lemma {:induction false} SomesText(os: seq<Option<Clause>>)
    ensures ClausesText(Somes(os)) == OptionsText(os)
  {
    if os != [] {
      var head := if os[0].Some? then [os[0].value] else [];
      ClausesTextAppend(head, Somes(os[1..]));
      SomesText(os[1..]);
      if head != [] {
        assert head[1..] == [];
      }
    }
  }

  lemma OptionsTextStep(os: seq<Option<Clause>>, i: nat)
    requires i < |os|
    ensures OptionsText(os[i..]) == OptionalText(os[i]) + OptionsText(os[i + 1..])
  {
    assert os[i..][1..] == os[i + 1..];
  }

  /** Options whose ranks are their positions from `base` give clauses
      of rank at least `base`, in strictly increasing rank. */
  lemma {:induction false} SomesRanked(os: seq<Option<Clause>>, base: nat)
    requires forall k :: 0 <= k < |os| && os[k].Some? ==> Rank(os[k].value) == base + k
    ensures forall i :: 0 <= i < |Somes(os)| ==> base <= Rank(Somes(os)[i])
    ensures forall i, j :: 0 <= i < j < |Somes(os)| ==> Rank(Somes(os)[i]) < Rank(Somes(os)[j])
  {
    if os != [] {
      var rest := os[1..];
      assert forall k :: 0 <= k < |rest| && rest[k].Some? ==> Rank(rest[k].value) == base + 1 + k by {
        forall k | 0 <= k < |rest| && rest[k].Some? ensures Rank(rest[k].value) == base + 1 + k {
          assert rest[k] == os[k + 1];
        }
      }
      SomesRanked(rest, base + 1);
      var head := if os[0].Some? then [os[0].value] else [];
      var tail := Somes(rest);
      assert Somes(os) == head + tail;
      forall i | 0 <= i < |head + tail| ensures base <= Rank((head + tail)[i]) {
        if i < |head| {
          assert (head + tail)[i] == os[0].value;
        } else {
          assert (head + tail)[i] == tail[i - |head|];
        }
      }
      forall i, j | 0 <= i < j < |head + tail| ensures Rank((head + tail)[i]) < Rank((head + tail)[j]) {
        assert (head + tail)[j] == tail[j - |head|];
        if i < |head| {
          assert (head + tail)[i] == os[0].value;
        } else {
          assert (head + tail)[i] == tail[i - |head|];
        }
      }
    }
  }

  /** A clause is present exactly when some option holds it. */
  lemma {:induction false} SomesMember(os: seq<Option<Clause>>, c: Clause)
    ensures c in Somes(os) <==> Some(c) in os
  {
    if os != [] {
      SomesMember(os[1..], c);
      assert os == [os[0]] + os[1..];
    }
  }

  lemma FlagsText(f: RooField)
    ensures OptionsText(ClauseOptions(f)) ==
      FlagText(f.unique == Some(true), "--unique ") +
      (FlagText(f.notNull == Some(true), "--notNull ") +
      (FlagText(f.nullRequired == Some(true), "--nullRequired ") + OptionsText(ClauseOptions(f)[3..])))
  {
    var o := ClauseOptions(f);
    assert OptionalText(o[0]) == FlagText(f.unique == Some(true), "--unique ");
    assert OptionalText(o[1]) == FlagText(f.notNull == Some(true), "--notNull ");
    assert OptionalText(o[2]) == FlagText(f.nullRequired == Some(true), "--nullRequired ");
    OptionsTextStep(o, 0);
    OptionsTextStep(o, 1);
    OptionsTextStep(o, 2);
    assert o[0..] == o;
  }

  lemma SizesText(f: RooField)
    ensures OptionsText(ClauseOptions(f)[3..]) ==
      ArgText("--regexp ", f.regexp) +
      (IntArgText("--sizeMin ", f.sizeMin) +
      (IntArgText("--sizeMax ", f.sizeMax) + OptionsText(ClauseOptions(f)[6..])))
  {
    var o := ClauseOptions(f);
    assert OptionalText(o[3]) == ArgText("--regexp ", f.regexp);
    assert OptionalText(o[4]) == IntArgText("--sizeMin ", f.sizeMin);
    assert OptionalText(o[5]) == IntArgText("--sizeMax ", f.sizeMax);
    OptionsTextStep(o, 3);
    OptionsTextStep(o, 4);
    OptionsTextStep(o, 5);
  }

  lemma BoundsText(f: RooField)
    ensures OptionsText(ClauseOptions(f)[6..]) ==
      IntArgText("--min ", f.min) + (IntArgText("--max ", f.max) + OptionsText(ClauseOptions(f)[8..]))
  {
    var o := ClauseOptions(f);
    assert OptionalText(o[6]) == IntArgText("--min ", f.min);
    assert OptionalText(o[7]) == IntArgText("--max ", f.max);
    OptionsTextStep(o, 6);
    OptionsTextStep(o, 7);
  }

  lemma LobText(f: RooField)
    ensures OptionsText(ClauseOptions(f)[10..]) == FlagText(f.lob.Some?, "--lob ")
  {
    var o := ClauseOptions(f);
    assert OptionalText(o[10]) == FlagText(f.lob.Some?, "--lob ");
    OptionsTextStep(o, 10);
    assert o[11..] == [];
  }

  lemma RestText(f: RooField)
    ensures OptionsText(ClauseOptions(f)[8..]) ==
      FlagText(f.tranzient == Some(true), "--transient ") +
      (ArgText("--value ", f.value) + FlagText(f.lob.Some?, "--lob "))
  {
    var o := ClauseOptions(f);
    assert OptionalText(o[8]) == FlagText(f.tranzient == Some(true), "--transient ");
    assert OptionalText(o[9]) == ArgText("--value ", f.value);
    OptionsTextStep(o, 8);
    OptionsTextStep(o, 9);
    LobText(f);
  }

  /** The rendered line is the header followed by the field's clauses, in
      order, each clause followed by one space. */
  lemma CommandIsHeaderThenClauses(f: RooField)
    ensures ToCommand(f) == Header(f) + ClausesText(Clauses(f))
  {
    SomesText(ClauseOptions(f));
    FlagsText(f);
    SizesText(f);
    BoundsText(f);
    RestText(f);
  }

  /** Every field command begins with its type, name and owning class. */
  lemma CommandStartsWithHeader(f: RooField)
    ensures StartsWith(ToCommand(f), "field " + f.rooType + " --fieldName " + f.fieldName + " --class " + TextOrNull(f.owningEntity) + " ")
  {
    CommandIsHeaderThenClauses(f);
    assert ToCommand(f)[..|Header(f)|] == Header(f);
  }

  /** The clauses appear in the fixed order unique, notNull, nullRequired,
      regexp, sizeMin, sizeMax, min, max, transient, value, lob: ranks
      strictly increase along the list, so no kind appears twice. */
  lemma ClausesInFixedOrder(f: RooField)
    ensures forall i, j :: 0 <= i < j < |Clauses(f)| ==> Rank(Clauses(f)[i]) < Rank(Clauses(f)[j])
  {
    SomesRanked(ClauseOptions(f), 0);
  }

  /** Whether a field calls for a clause: the Boolean flags need a
      non-null true, the valued clauses need that non-null value, and the
      lob clause needs only a non-null lob, whatever its value. */
  predicate Present(f: RooField, c: Clause) {
    match c
    case UniqueClause => f.unique == Some(true)
    case NotNullClause => f.notNull == Some(true)
    case NullRequiredClause => f.nullRequired == Some(true)
    case RegexpClause(p) => f.regexp == Some(p)
    case SizeMinClause(n) => f.sizeMin == Some(n)
    case SizeMaxClause(n) => f.sizeMax == Some(n)
    case MinClause(n) => f.min == Some(n)
    case MaxClause(n) => f.max == Some(n)
    case TransientClause => f.tranzient == Some(true)
    case ValueClause(v) => f.value == Some(v)
    case LobClause => f.lob.Some?
  }

  /** The option at a clause's rank holds it exactly when the field calls
      for it. */
  lemma ClauseAtRank(f: RooField, c: Clause)
    ensures Rank(c) < 11 && (ClauseOptions(f)[Rank(c)] == Some(c) <==> Present(f, c))
  {
  }

  /** A clause appears in the rendered line exactly when the field calls
      for it. */
  lemma ClausePresence(f: RooField, c: Clause)
    ensures c in Clauses(f) <==> Present(f, c)
  {
    SomesMember(ClauseOptions(f), c);
    ClauseAtRank(f, c);
  }

  /** The decimal bounds, the comment, the cardinality and the XML Schema
      type never reach the rendered line. */
  lemma UnrenderedAttributes(f: RooField, c: Cardinality, t: string, lo: Option<real>, hi: Option<real>, doc: Option<string>)
    ensures ToCommand(f.(cardinality := c, xsdType := t, decimalMin := lo, decimalMax := hi, comment := doc)) == ToCommand(f)
  {
  }
}
