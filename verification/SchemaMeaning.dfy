/** Inlining keeps what a schema accepts.

    The reference meaning follows JSON Schema Core, draft 2020-12: a "$ref" applies the schema it
    names beside its siblings (section 8.2.3.1), "$defs" asserts nothing (section 8.2.4), and an
    applicator judges an instance by what its subschemas accept (section 10). The vocabulary is a
    parameter: which keywords take schemas, which others each keyword depends on, and what each
    asserts are arbitrary, so the results hold for every applicator and every assertion. */
module SchemaMeaning {
  import opened Wrappers
  import opened SchemaInliner

  /** How the value of a keyword is read: not at all, as a plain value, as one schema, as a list
      of schemas, or as schemas by name. */
  datatype Shape = Annotation | Plain | One | Many | Named

  /** What the value of a keyword means: itself, or the instances its subschemas accept. */
  datatype Meaning =
    | Value(value: Json)
    | Accepted(instances: iset<Json>)
    | AcceptedInOrder(list: seq<iset<Json>>)
    | AcceptedByName(names: map<string, iset<Json>>)

  /** The keywords of one schema with their meanings. */
  type View = map<string, Meaning>

  /** `looksAt` names the keywords beside it that a keyword depends on; it is given these only. */
  datatype Vocabulary = Vocabulary(
    shape: string -> Shape, looksAt: string -> set<string>, holds: (string, View, Json) -> bool)

  /** The keyword asserts something. */
  predicate Asserts(k: string, words: Vocabulary) {
    k != REF && k != DEFS && words.shape(k) != Annotation
  }

  predicate Sees(k: string, j: string, words: Vocabulary) {
    j == k || j in words.looksAt(k)
  }

  ghost function Visible(view: View, k: string, words: Vocabulary): View {
    map j | j in view && Sees(k, j, words) :: view[j]
  }

  ghost predicate Satisfies(view: View, words: Vocabulary, instance: Json) {
    forall k :: k in view ==> words.holds(k, Visible(view, k, words), instance)
  }

  ghost function Satisfying(view: View, words: Vocabulary): iset<Json> {
    iset instance | Satisfies(view, words, instance)
  }

  /** A Boolean schema judges every instance alike. */
  predicate Always(b: bool, instance: Json) {
    b
  }

  /** The instances that `schema` accepts; references nested deeper than `fuel` accept none. */
  ghost function Accepts(schema: Json, defs: Definitions, words: Vocabulary, fuel: nat): iset<Json>
    decreases fuel, schema, 1
  {
    match schema
    case Bool(b) => iset instance | Always(b, instance)
    case Obj(fields) =>
      var own := Satisfying(ViewOf(schema, defs, words, fuel), words);
      if HasRef(fields) then
        var name := RefName(fields[REF]);
        if name.None? || name.value !in defs || fuel == 0 then iset{}
        else Accepts(defs[name.value], defs, words, fuel - 1) * own
      else own
    case _ => iset{}
  }

  ghost function ViewOf(schema: Json, defs: Definitions, words: Vocabulary, fuel: nat): View
    requires schema.Obj?
    decreases fuel, schema, 0
  {
    map k | k in schema.fields && Asserts(k, words) :: MeaningOf(words.shape(k), schema.fields[k], defs, words, fuel)
  }

  /** A list or dictionary of schemas that is none counts as a plain value. */
  ghost function MeaningOf(shape: Shape, value: Json, defs: Definitions, words: Vocabulary, fuel: nat): Meaning
    decreases fuel, value, 2
  {
    if shape == One then
      Accepted(Accepts(value, defs, words, fuel))
    else if shape == Many && value.Arr? then
      AcceptedInOrder(seq(|value.items|, i requires 0 <= i < |value.items| =>
        Accepts(value.items[i], defs, words, fuel)))
    else if shape == Named && value.Obj? then
      AcceptedByName(map p | p in value.fields :: Accepts(value.fields[p], defs, words, fuel))
    else
      Value(value)
  }

  /** A schema's own keywords, inlined: all but its "$ref", or all but its "$defs". */
  function Own(schema: Json, defs: Definitions, fuel: nat): (own: Json)
    requires schema.Obj?
    ensures own.Obj?
  {
    Obj(InlinedFields(schema, {if HasRef(schema.fields) then REF else DEFS}, defs, fuel))
  }

  /** The keywords beside a "$ref" override those of the definition without changing what the two
      assert together: no assertion of either side gains or loses a keyword it depends on, itself
      included, and those it finds on both sides have the same value. */
  predicate Compatible(base: map<string, Json>, over: map<string, Json>, words: Vocabulary) {
    && (forall k, j :: k in over && Asserts(k, words) && j in base && Asserts(j, words) && Sees(k, j, words) ==>
          j in over)
    && (forall k, j :: k in base && Asserts(k, words) && j in over && Asserts(j, words) && Sees(k, j, words) ==>
          j in base && base[j] == over[j])
  }

  /** What the inliner asks of a schema: among schemas by name none is called "$defs" and none of
      their names is taken for a reference; the values of plain assertions, which it walks as
      though they were schemas, hold neither key; and what stands beside a reference is compatible
      with the definition. */
  predicate WellFormed(schema: Json, defs: Definitions, words: Vocabulary, fuel: nat)
    decreases fuel, schema, 1
  {
    schema.Obj? ==>
      && (HasRef(schema.fields) && RefName(schema.fields[REF]).Some? &&
          RefName(schema.fields[REF]).value in defs && fuel > 0 ==>
            var target := defs[RefName(schema.fields[REF]).value];
            var resolved := Inline(target, defs, fuel - 1);
            && WellFormed(target, defs, words, fuel - 1)
            && (resolved.Some? && resolved.value.Obj? ==>
                  Compatible(resolved.value.fields, Own(schema, defs, fuel).fields, words)))
      && forall k :: k in schema.fields && Asserts(k, words) ==>
           WellFormedValue(words.shape(k), schema.fields[k], defs, words, fuel)
  }

  predicate WellFormedValue(shape: Shape, value: Json, defs: Definitions, words: Vocabulary, fuel: nat)
    decreases fuel, value, 2
  {
    if shape == One then
      WellFormed(value, defs, words, fuel)
    else if shape == Many && value.Arr? then
      forall i :: 0 <= i < |value.items| ==> WellFormed(value.items[i], defs, words, fuel)
    else if shape == Named && value.Obj? then
      && !HasRef(value.fields) && DEFS !in value.fields
      && forall p :: p in value.fields ==> WellFormed(value.fields[p], defs, words, fuel)
    else
      Clean(value)
  }

  /** Inlining keeps what `schema` accepts, and leaves no reference in it. */
  ghost predicate Preserved(schema: Json, defs: Definitions, words: Vocabulary, fuel: nat, more: nat) {
    && Inline(schema, defs, fuel).Some?
    && (Inline(schema, defs, fuel).value.Obj? ==> !HasRef(Inline(schema, defs, fuel).value.fields))
    && Accepts(schema, defs, words, more) == Accepts(Inline(schema, defs, fuel).value, map[], words, 0)
  }

  // ---------------------------------------------------------------- one schema's own keywords

  lemma FieldsInlined(schema: Json, k: string, defs: Definitions, fuel: nat)
    requires schema.Obj? && k in schema.fields && k != (if HasRef(schema.fields) then REF else DEFS)
    requires Inline(schema, defs, fuel).Some?
    ensures k in Own(schema, defs, fuel).fields
    ensures Inline(schema.fields[k], defs, fuel) == Some(Own(schema, defs, fuel).fields[k])
  {
  }

  lemma OwnFields(schema: Json, defs: Definitions, fuel: nat)
    requires schema.Obj? && Inline(schema, defs, fuel).Some?
    ensures Own(schema, defs, fuel).fields.Keys ==
            schema.fields.Keys - {if HasRef(schema.fields) then REF else DEFS}
    ensures !HasRef(Own(schema, defs, fuel).fields)
  {
    if !HasRef(schema.fields) && REF in schema.fields {
      assert Inline(schema.fields[REF], defs, fuel) == Some(Null);
    }
  }

  /** The value of a keyword, inlined, means what it meant. */
  lemma {:induction false} MeaningKept(
    shape: Shape, value: Json, defs: Definitions, words: Vocabulary, fuel: nat, more: nat)
    requires WellFormedValue(shape, value, defs, words, fuel) && Inline(value, defs, fuel).Some? && fuel <= more
    ensures MeaningOf(shape, value, defs, words, more) ==
            MeaningOf(shape, Inline(value, defs, fuel).value, map[], words, 0)
    decreases fuel, value, 4
  {
    if shape == One {
      MeaningPreserved(value, defs, words, fuel, more);
    } else if shape == Many && value.Arr? {
      ListKept(value, defs, words, fuel, more);
    } else if shape == Named && value.Obj? {
      NamesKept(value, defs, words, fuel, more);
    } else {
      CleanIsUnchanged(value, defs, fuel);
    }
  }

  lemma {:induction false} ListKept(list: Json, defs: Definitions, words: Vocabulary, fuel: nat, more: nat)
    requires list.Arr? && WellFormedValue(Many, list, defs, words, fuel)
    requires Inline(list, defs, fuel).Some? && fuel <= more
    ensures MeaningOf(Many, list, defs, words, more) == MeaningOf(Many, Inline(list, defs, fuel).value, map[], words, 0)
    decreases fuel, list, 3
  {
    var result := Inline(list, defs, fuel).value;
    assert result.Arr? && |result.items| == |list.items|;
    forall i | 0 <= i < |list.items|
      ensures Accepts(list.items[i], defs, words, more) == Accepts(result.items[i], map[], words, 0)
    {
      assert Inline(list.items[i], defs, fuel) == Some(result.items[i]);
      MeaningPreserved(list.items[i], defs, words, fuel, more);
    }
    hide Accepts, Inline, WellFormedValue;
    assert MeaningOf(Many, list, defs, words, more).list == MeaningOf(Many, result, map[], words, 0).list;
  }

  lemma {:induction false} NamesKept(named: Json, defs: Definitions, words: Vocabulary, fuel: nat, more: nat)
    requires named.Obj? && WellFormedValue(Named, named, defs, words, fuel)
    requires Inline(named, defs, fuel).Some? && fuel <= more
    ensures MeaningOf(Named, named, defs, words, more) ==
            MeaningOf(Named, Inline(named, defs, fuel).value, map[], words, 0)
    decreases fuel, named, 3
  {
    var result := Own(named, defs, fuel);
    assert Inline(named, defs, fuel).value == result;
    OwnFields(named, defs, fuel);
    forall p | p in named.fields
      ensures p in result.fields
      ensures Accepts(named.fields[p], defs, words, more) == Accepts(result.fields[p], map[], words, 0)
    {
      FieldsInlined(named, p, defs, fuel);
      MeaningPreserved(named.fields[p], defs, words, fuel, more);
    }
    hide Accepts, Inline, WellFormedValue, Own;
    assert MeaningOf(Named, named, defs, words, more).names == MeaningOf(Named, result, map[], words, 0).names;
  }

  /** The keywords of one schema, inlined, mean what they meant. */
  lemma {:induction false} OwnPreserved(schema: Json, defs: Definitions, words: Vocabulary, fuel: nat, more: nat)
    requires schema.Obj? && WellFormed(schema, defs, words, fuel) && Inline(schema, defs, fuel).Some? && fuel <= more
    ensures ViewOf(schema, defs, words, more) == ViewOf(Own(schema, defs, fuel), map[], words, 0)
    decreases fuel, schema, 1
  {
    var own := Own(schema, defs, fuel);
    OwnFields(schema, defs, fuel);
    hide Inline, Own, MeaningOf, WellFormedValue;
    forall k | k in schema.fields && Asserts(k, words)
      ensures k in own.fields
      ensures MeaningOf(words.shape(k), schema.fields[k], defs, words, more) ==
              MeaningOf(words.shape(k), own.fields[k], map[], words, 0)
    {
      FieldsInlined(schema, k, defs, fuel);
      MeaningKept(words.shape(k), schema.fields[k], defs, words, fuel, more);
    }
  }

  // ---------------------------------------------------------------- merging

  /** No keyword of either side sees something else after the merge. */
  ghost predicate Undisturbed(base: View, over: View, words: Vocabulary) {
    && (forall k :: k in base ==> Visible(base + over, k, words) == Visible(base, k, words))
    && (forall k :: k in over ==> Visible(base + over, k, words) == Visible(over, k, words))
  }

  /** The merged keywords hold together exactly where those of both sides do. */
  ghost predicate MergesFor(base: View, over: View, words: Vocabulary) {
    Satisfying(base + over, words) == Satisfying(base, words) * Satisfying(over, words)
  }

  lemma UndisturbedMerges(base: View, over: View, words: Vocabulary)
    requires Undisturbed(base, over, words)
    ensures MergesFor(base, over, words)
  {
    hide Visible;
    forall instance
      ensures Satisfies(base + over, words, instance) <==>
              Satisfies(base, words, instance) && Satisfies(over, words, instance)
    {
      forall k | k in base + over
        ensures k in base ==> Visible(base + over, k, words) == Visible(base, k, words)
        ensures k in over ==> Visible(base + over, k, words) == Visible(over, k, words)
      {
      }
    }
  }

  lemma CompatibleIsUndisturbed(base: map<string, Json>, over: map<string, Json>, words: Vocabulary)
    requires Compatible(base, over, words)
    ensures Undisturbed(ViewOf(Obj(base), map[], words, 0), ViewOf(Obj(over), map[], words, 0), words)
  {
    hide MeaningOf, Asserts, Sees;
  }

  lemma MergedView(base: map<string, Json>, over: map<string, Json>, words: Vocabulary)
    ensures ViewOf(Obj(base + over), map[], words, 0) ==
            ViewOf(Obj(base), map[], words, 0) + ViewOf(Obj(over), map[], words, 0)
  {
    hide MeaningOf, Asserts;
  }

  /** Merging compatible keywords accepts what both sides accept. */
  lemma MergedAccepts(base: map<string, Json>, over: map<string, Json>, words: Vocabulary)
    requires Compatible(base, over, words) && !HasRef(base) && !HasRef(over)
    ensures Accepts(Obj(base + over), map[], words, 0) ==
            Accepts(Obj(base), map[], words, 0) * Accepts(Obj(over), map[], words, 0)
  {
    CompatibleIsUndisturbed(base, over, words);
    MergedView(base, over, words);
    hide Compatible, Undisturbed, Satisfying, ViewOf;
    UndisturbedMerges(ViewOf(Obj(base), map[], words, 0), ViewOf(Obj(over), map[], words, 0), words);
  }

  // ---------------------------------------------------------------- references

  lemma ReferenceInlined(schema: Json, defs: Definitions, words: Vocabulary, fuel: nat)
    requires schema.Obj? && HasRef(schema.fields)
    requires Inline(schema, defs, fuel).Some? && WellFormed(schema, defs, words, fuel)
    ensures REF in schema.fields && fuel > 0
    ensures RefName(schema.fields[REF]).Some? && RefName(schema.fields[REF]).value in defs
    ensures var target := defs[RefName(schema.fields[REF]).value];
            var resolved := Inline(target, defs, fuel - 1);
            && WellFormed(target, defs, words, fuel - 1)
            && resolved.Some? && resolved.value.Obj?
            && Compatible(resolved.value.fields, Own(schema, defs, fuel).fields, words)
            && Inline(schema, defs, fuel).value == Obj(resolved.value.fields + Own(schema, defs, fuel).fields)
  {
    hide WellFormedValue, Compatible;
  }

  /** A reference may be replaced by its definition, overridden by what stands beside it. */
  lemma {:induction false} ReferencePreserved(
    schema: Json, defs: Definitions, words: Vocabulary, fuel: nat, more: nat)
    requires schema.Obj? && HasRef(schema.fields) && WellFormed(schema, defs, words, fuel)
    requires Inline(schema, defs, fuel).Some? && fuel <= more
    ensures Preserved(schema, defs, words, fuel, more)
    decreases fuel, schema, 2
  {
    ReferenceInlined(schema, defs, words, fuel);
    OwnFields(schema, defs, fuel);
    hide Inline, WellFormed, Own, Compatible, RefName, ViewOf, Satisfying;
    var target := defs[RefName(schema.fields[REF]).value];
    var resolved, own := Inline(target, defs, fuel - 1).value, Own(schema, defs, fuel);
    MeaningPreserved(target, defs, words, fuel - 1, more - 1);
    OwnPreserved(schema, defs, words, fuel, more);
    MergedAccepts(resolved.fields, own.fields, words);
  }

  /** The main result: whatever inlines accepts the same instances, with no definitions at all. */
  lemma {:induction false} MeaningPreserved(
    schema: Json, defs: Definitions, words: Vocabulary, fuel: nat, more: nat)
    requires WellFormed(schema, defs, words, fuel) && Inline(schema, defs, fuel).Some? && fuel <= more
    ensures Preserved(schema, defs, words, fuel, more)
    decreases fuel, schema, 3
  {
    if schema.Obj? {
      if HasRef(schema.fields) {
        ReferencePreserved(schema, defs, words, fuel, more);
      } else {
        OwnFields(schema, defs, fuel);
        OwnPreserved(schema, defs, words, fuel, more);
        hide WellFormed, ViewOf;
        assert Inline(schema, defs, fuel).value == Own(schema, defs, fuel);
      }
    }
  }

  /** A whole schema, against its own definitions: the result needs none, and means the same. */
  lemma InlinedSchemaStandsAlone(schema: map<string, Json>, words: Vocabulary, fuel: nat, more: nat)
    requires InlineSchema(schema, fuel).Some? && fuel <= more
    requires WellFormed(Obj(schema), DefinitionsOf(schema), words, fuel) && Tidy(Obj(schema))
    requires forall name :: name in DefinitionsOf(schema) ==> Tidy(DefinitionsOf(schema)[name])
    ensures Clean(InlineSchema(schema, fuel).value)
    ensures Accepts(Obj(schema), DefinitionsOf(schema), words, more) ==
            Accepts(InlineSchema(schema, fuel).value, map[], words, 0)
  {
    MeaningPreserved(Obj(schema), DefinitionsOf(schema), words, fuel, more);
    TidyNeverLeaks(Obj(schema), {}, DefinitionsOf(schema), fuel);
    CleanExactlyWhen(Obj(schema), DefinitionsOf(schema), fuel);
  }

  // ---------------------------------------------------------------- where the meaning is lost

  /** `Compatible`, for keywords with their meanings. */
  ghost predicate CompatibleViews(base: View, over: View, words: Vocabulary) {
    && (forall k, j :: k in over && j in base && Sees(k, j, words) ==> j in over)
    && (forall k, j :: k in base && j in over && Sees(k, j, words) ==> j in base && base[j] == over[j])
  }

  /** Merging means the same as asserting both, whatever the keywords assert. */
  ghost predicate MergesFaithfully(base: View, over: View, words: Vocabulary) {
    forall holds :: MergesFor(base, over, words.(holds := holds))
  }

  /** The vocabulary in which a single keyword fails, and only where it sees `seen`. */
  ghost function FailingOnly(k: string, seen: View, words: Vocabulary): Vocabulary {
    words.(holds := (other, visible, instance) => !(other == k && visible == seen))
  }

  /** A keyword that sees something else after a merge may assert nothing there, although it
      rejects every instance where it was written. */
  lemma DisturbedKeywordIsLost(side: View, merged: View, k: string, words: Vocabulary, instance: Json)
    requires k in side && Visible(merged, k, words) != Visible(side, k, words)
    ensures var failing := FailingOnly(k, Visible(side, k, words), words);
      !Satisfies(side, failing, instance) && Satisfies(merged, failing, instance)
  {
    var failing := FailingOnly(k, Visible(side, k, words), words);
    assert !failing.holds(k, Visible(side, k, failing), instance);
    assert Visible(side, k, failing) == Visible(side, k, words);
    assert Visible(merged, k, failing) == Visible(merged, k, words);
  }

  /** A merge is faithful exactly if no keyword of either side gains, loses or exchanges anything
      that it sees. */
  lemma FaithfulExactlyWhen(base: View, over: View, words: Vocabulary)
    ensures MergesFaithfully(base, over, words) <==> CompatibleViews(base, over, words)
  {
    UndisturbedIsCompatible(base, over, words);
    hide CompatibleViews;
    if Undisturbed(base, over, words) {
      forall holds ensures MergesFor(base, over, words.(holds := holds)) {
        SameSight(base, over, words, holds);
        UndisturbedMerges(base, over, words.(holds := holds));
      }
    } else {
      var k, side :| (side == base || side == over) && k in side &&
        Visible(base + over, k, words) != Visible(side, k, words);
      DisturbedKeywordIsLost(side, base + over, k, words, Null);
      var failing := FailingOnly(k, Visible(side, k, words), words);
      assert Null in Satisfying(base + over, failing) && Null !in Satisfying(side, failing);
      assert !MergesFor(base, over, words.(holds := failing.holds));
    }
  }

  lemma SameSight(base: View, over: View, words: Vocabulary, holds: (string, View, Json) -> bool)
    ensures Undisturbed(base, over, words.(holds := holds)) == Undisturbed(base, over, words)
  {
    forall view: View, k: string ensures Visible(view, k, words.(holds := holds)) == Visible(view, k, words) {
    }
  }

  lemma UndisturbedIsCompatible(base: View, over: View, words: Vocabulary)
    ensures Undisturbed(base, over, words) <==> CompatibleViews(base, over, words)
  {
    if Undisturbed(base, over, words) {
      forall k, j | k in over && j in base && Sees(k, j, words) ensures j in over {
        assert j in Visible(base + over, k, words);
        assert j in Visible(over, k, words);
      }
      forall k, j | k in base && j in over && Sees(k, j, words) ensures j in base && base[j] == over[j] {
        assert j in Visible(base + over, k, words);
        assert j in Visible(base, k, words);
      }
    }
  }

  /** Neither an annotation nor an applicator. */
  predicate PlainKeywords(fields: map<string, Json>, words: Vocabulary) {
    forall k :: k in fields && Asserts(k, words) ==> words.shape(k) == Plain
  }

  lemma PlainView(fields: map<string, Json>, defs: Definitions, words: Vocabulary, fuel: nat)
    requires PlainKeywords(fields, words)
    ensures ViewOf(Obj(fields), defs, words, fuel) == map k | k in fields && Asserts(k, words) :: Value(fields[k])
  {
  }

  /** A reference to the definition `name` with `siblings` beside it. */
  function ReferenceTo(name: string, siblings: map<string, Json>): Json {
    Obj(siblings[REF := Str(PREFIX + name)])
  }

  lemma CleanReference(defs: Definitions, name: string, siblings: map<string, Json>)
    requires name in defs && defs[name].Obj? && Clean(defs[name]) && Clean(Obj(siblings))
    ensures HasRef(ReferenceTo(name, siblings).fields)
    ensures RefName(ReferenceTo(name, siblings).fields[REF]) == Some(name)
    ensures Inline(ReferenceTo(name, siblings), defs, 1) == Some(Obj(defs[name].fields + siblings))
  {
    var schema := ReferenceTo(name, siblings);
    assert RefName(schema.fields[REF]) == Some(name) by {
      assert (PREFIX + name)[|PREFIX|..] == name;
    }
    CleanIsUnchanged(defs[name], defs, 0);
    forall k | k in siblings ensures Inline(siblings[k], defs, 1) == Some(siblings[k]) {
      CleanIsUnchanged(siblings[k], defs, 1);
    }
    assert InlinedFields(schema, {REF}, defs, 1) == siblings;
  }

  lemma CleanMerged(base: map<string, Json>, over: map<string, Json>)
    requires Clean(Obj(base)) && Clean(Obj(over))
    ensures !HasRef(base) && !HasRef(over) && !HasRef(base + over)
  {
  }

  lemma OwnAccepts(fields: map<string, Json>, defs: Definitions, words: Vocabulary, fuel: nat)
    requires !HasRef(fields)
    ensures Accepts(Obj(fields), defs, words, fuel) == Satisfying(ViewOf(Obj(fields), defs, words, fuel), words)
  {
    hide Satisfying, ViewOf;
  }

  lemma ReferenceAccepts(schema: Json, name: string, defs: Definitions, words: Vocabulary, fuel: nat)
    requires schema.Obj? && HasRef(schema.fields) && RefName(schema.fields[REF]) == Some(name)
    requires name in defs && fuel > 0
    ensures Accepts(schema, defs, words, fuel) ==
            Accepts(defs[name], defs, words, fuel - 1) * Satisfying(ViewOf(schema, defs, words, fuel), words)
  {
    hide Satisfying, ViewOf;
  }

  /** For a reference to plain keywords, keeping the meaning is merging faithfully. */
  lemma PlainReference(defs: Definitions, name: string, siblings: map<string, Json>, words: Vocabulary)
    requires name in defs && defs[name].Obj? && Clean(defs[name]) && Clean(Obj(siblings))
    requires PlainKeywords(defs[name].fields, words) && PlainKeywords(siblings, words)
    ensures Preserved(ReferenceTo(name, siblings), defs, words, 1, 1) <==>
            MergesFor(ViewOf(Obj(defs[name].fields), map[], words, 0), ViewOf(Obj(siblings), map[], words, 0), words)
  {
    var schema, base := ReferenceTo(name, siblings), defs[name].fields;
    hide Inline, Accepts, ViewOf, Clean, PlainKeywords, RefName, Asserts, Satisfying;
    CleanReference(defs, name, siblings);
    CleanMerged(base, siblings);
    PlainViews(defs, base, siblings, schema.fields, words);
    MergedView(base, siblings, words);
    ReferenceAccepts(schema, name, defs, words, 1);
    OwnAccepts(base, defs, words, 0);
    OwnAccepts(base + siblings, map[], words, 0);
  }

  /** Plain keywords mean the same anywhere, and a "$ref" beside them does not matter. */
  lemma PlainViews(
    defs: Definitions, base: map<string, Json>, siblings: map<string, Json>, schema: map<string, Json>,
    words: Vocabulary)
    requires PlainKeywords(base, words) && PlainKeywords(siblings, words)
    requires REF in schema && schema == siblings[REF := schema[REF]]
    ensures ViewOf(Obj(base), defs, words, 0) == ViewOf(Obj(base), map[], words, 0)
    ensures ViewOf(Obj(schema), defs, words, 1) == ViewOf(Obj(siblings), map[], words, 0)
  {
    PlainView(base, map[], words, 0);
    PlainView(base, defs, words, 0);
    PlainView(siblings, map[], words, 0);
    PlainView(schema, defs, words, 1);
    hide ViewOf;
  }

  /** A whole schema, end to end: the definition it carries takes the place of the reference, and
      the definitions themselves are gone. */
  lemma OwnDefinitionsAreUsed(defs: Definitions, name: string, p: string)
    requires name in defs && defs[name].Obj? && Clean(defs[name]) && p != REF && p != DEFS
    ensures var schema := map["properties" := Obj(map[p := ReferenceTo(name, map[])]), DEFS := Obj(defs)];
      InlineSchema(schema, 1) == Some(Obj(map["properties" := Obj(map[p := defs[name]])]))
  {
    var reference := ReferenceTo(name, map[]);
    CleanReference(defs, name, map[]);
    assert defs[name].fields + map[] == defs[name].fields;
    var properties := map[p := reference];
    SingleProperty(p, reference, defs[name], defs);
    SingleProperty("properties", Obj(properties), Obj(map[p := defs[name]]), defs);
    var schema := map["properties" := Obj(properties), DEFS := Obj(defs)];
    assert DefinitionsOf(schema) == defs;
    WithoutDefinitions(schema, defs);
    assert schema - {DEFS} == map["properties" := Obj(properties)];
  }

  lemma SingleProperty(p: string, value: Json, inlined: Json, defs: Definitions)
    requires p != REF && p != DEFS && Inline(value, defs, 1) == Some(inlined)
    ensures Inline(Obj(map[p := value]), defs, 1) == Some(Obj(map[p := inlined]))
  {
    var node := Obj(map[p := value]);
    assert InlinedFields(node, {DEFS}, defs, 1) == map[p := inlined];
  }

  /** A schema's own "$defs" is left out. */
  lemma WithoutDefinitions(schema: map<string, Json>, defs: Definitions)
    requires !HasRef(schema)
    ensures Inline(Obj(schema), defs, 1) == Inline(Obj(schema - {DEFS}), defs, 1)
  {
    var rest := schema - {DEFS};
    assert !HasRef(rest);
    assert InlinedFields(Obj(schema), {DEFS}, defs, 1) == InlinedFields(Obj(rest), {DEFS}, defs, 1);
    hide InlinedFields;
    if k :| k in schema && k != DEFS && Inline(schema[k], defs, 1).None? {
      assert k in rest && rest[k] == schema[k];
    }
    if k :| k in rest && k != DEFS && Inline(rest[k], defs, 1).None? {
      assert k in schema && schema[k] == rest[k];
    }
  }

  /** A reference to plain keywords, with plain keywords beside it, keeps its meaning whatever
      they assert exactly if the two sides are compatible. */
  lemma SiblingsExactlyWhen(defs: Definitions, name: string, siblings: map<string, Json>, words: Vocabulary)
    requires name in defs && defs[name].Obj? && Clean(defs[name]) && Clean(Obj(siblings))
    requires PlainKeywords(defs[name].fields, words) && PlainKeywords(siblings, words)
    ensures (forall holds :: Preserved(ReferenceTo(name, siblings), defs, words.(holds := holds), 1, 1)) <==>
            Compatible(defs[name].fields, siblings, words)
  {
    var base := defs[name].fields;
    var left, right := ViewOf(Obj(base), map[], words, 0), ViewOf(Obj(siblings), map[], words, 0);
    forall holds
      ensures Preserved(ReferenceTo(name, siblings), defs, words.(holds := holds), 1, 1) <==>
              MergesFor(left, right, words.(holds := holds))
    {
      PlainReference(defs, name, siblings, words.(holds := holds));
      PlainMeaning(base, words, holds);
      PlainMeaning(siblings, words, holds);
      hide *;
    }
    FaithfulExactlyWhen(left, right, words);
    PlainCompatible(base, siblings, words);
    hide Preserved, MergesFor, CompatibleViews, Compatible, Clean, PlainKeywords, ViewOf, ReferenceTo;
  }

  lemma PlainMeaning(fields: map<string, Json>, words: Vocabulary, holds: (string, View, Json) -> bool)
    requires PlainKeywords(fields, words)
    ensures PlainKeywords(fields, words.(holds := holds))
    ensures ViewOf(Obj(fields), map[], words.(holds := holds), 0) == ViewOf(Obj(fields), map[], words, 0)
  {
    PlainView(fields, map[], words, 0);
    PlainView(fields, map[], words.(holds := holds), 0);
    hide ViewOf;
  }

  lemma PlainCompatible(base: map<string, Json>, over: map<string, Json>, words: Vocabulary)
    requires PlainKeywords(base, words) && PlainKeywords(over, words)
    ensures CompatibleViews(ViewOf(Obj(base), map[], words, 0), ViewOf(Obj(over), map[], words, 0), words) <==>
            Compatible(base, over, words)
  {
    PlainView(base, map[], words, 0);
    PlainView(over, map[], words, 0);
    hide ViewOf, Asserts, Sees, PlainKeywords;
  }

  /** Among schemas by name, one called "$defs" is dropped, and it is the only one. */
  lemma NamesStayExactlyWhen(named: map<string, Json>, defs: Definitions, fuel: nat)
    requires !HasRef(named) && Inline(Obj(named), defs, fuel).Some?
    ensures Inline(Obj(named), defs, fuel).value.fields.Keys == named.Keys <==> DEFS !in named
  {
    OwnFields(Obj(named), defs, fuel);
    assert Inline(Obj(named), defs, fuel).value == Own(Obj(named), defs, fuel);
  }

  // ---------------------------------------------------------------- draft 2020-12

  /** Keywords that never reject an instance (section 9 of JSON Schema Validation). */
  const ANNOTATIONS: set<string> :=
    {"title", "description", "default", "examples", "deprecated", "readOnly", "writeOnly", "$comment"}

  function DraftShape(k: string): Shape {
    if k in ANNOTATIONS then Annotation
    else if k in {"additionalProperties", "propertyNames", "items", "contains", "not", "if", "then", "else"} then One
    else if k in {"allOf", "anyOf", "oneOf", "prefixItems"} then Many
    else if k in {"properties", "patternProperties", "dependentSchemas"} then Named
    else Plain
  }

  function DraftLooksAt(k: string): set<string> {
    match k
    case "additionalProperties" => {"properties", "patternProperties"}
    case "items" => {"prefixItems"}
    case "contains" => {"minContains", "maxContains"}
    case "then" => {"if"}
    case "else" => {"if"}
    case _ => {}
  }

  /** The applicators of section 10 of JSON Schema Core; regular expressions and all other
      assertions are arbitrary. */
  ghost function Draft(matches: (string, string) -> bool, assertion: (string, Json, Json) -> bool): Vocabulary {
    Vocabulary(DraftShape, DraftLooksAt,
               (k, view, instance) => DraftHolds(k, view, instance, matches, assertion))
  }

  ghost predicate DraftHolds(
    k: string, view: View, instance: Json, matches: (string, string) -> bool, assertion: (string, Json, Json) -> bool)
  {
    k in view &&
    match view[k]
    case Accepted(instances) => OneHolds(k, instances, view, instance, matches)
    case AcceptedInOrder(list) => ManyHold(k, list, instance)
    case AcceptedByName(names) => NamedHold(k, names, instance, matches)
    case Value(value) => k in {"minContains", "maxContains"} || assertion(k, value, instance)
  }

  ghost predicate OneHolds(
    k: string, instances: iset<Json>, view: View, instance: Json, matches: (string, string) -> bool)
  {
    match k
    case "additionalProperties" =>
      instance.Obj? ==> forall p :: p in instance.fields && !Declared(p, view, matches) ==>
        instance.fields[p] in instances
    case "propertyNames" => instance.Obj? ==> forall p :: p in instance.fields ==> Str(p) in instances
    case "items" =>
      instance.Arr? ==> forall i :: PrefixLength(view) <= i < |instance.items| ==> instance.items[i] in instances
    case "contains" =>
      instance.Arr? ==>
        var found := |set i: nat | i < |instance.items| && instance.items[i] in instances|;
        && Bound("minContains", view, 1) <= found <= Bound("maxContains", view, |instance.items|)
    case "not" => instance !in instances
    case "then" => Condition(view, true, instance) ==> instance in instances
    case "else" => Condition(view, false, instance) ==> instance in instances
    case _ => true
  }

  ghost predicate Declared(p: string, view: View, matches: (string, string) -> bool) {
    || ("properties" in view && view["properties"].AcceptedByName? && p in view["properties"].names)
    || ("patternProperties" in view && view["patternProperties"].AcceptedByName? &&
        exists pattern :: pattern in view["patternProperties"].names && matches(pattern, p))
  }

  ghost function PrefixLength(view: View): nat {
    if "prefixItems" in view && view["prefixItems"].AcceptedInOrder? then |view["prefixItems"].list| else 0
  }

  ghost function Bound(k: string, view: View, otherwise: nat): int {
    if k in view && view[k].Value? && view[k].value.Num? then view[k].value.n else otherwise
  }

  ghost predicate Condition(view: View, outcome: bool, instance: Json) {
    "if" in view && view["if"].Accepted? && (instance in view["if"].instances) == outcome
  }

  ghost predicate ManyHold(k: string, list: seq<iset<Json>>, instance: Json) {
    var accepting := set i: nat | i < |list| && instance in list[i];
    match k
    case "allOf" => forall i: nat :: i < |list| ==> i in accepting
    case "anyOf" => accepting != {}
    case "oneOf" => |accepting| == 1
    case _ =>
      instance.Arr? ==> forall i :: 0 <= i < |list| && i < |instance.items| ==> instance.items[i] in list[i]
  }

  ghost predicate NamedHold(
    k: string, names: map<string, iset<Json>>, instance: Json, matches: (string, string) -> bool)
  {
    instance.Obj? ==>
    match k
    case "properties" => forall p :: p in names && p in instance.fields ==> instance.fields[p] in names[p]
    case "patternProperties" =>
      forall pattern, p :: pattern in names && p in instance.fields && matches(pattern, p) ==>
        instance.fields[p] in names[pattern]
    case _ => forall p :: p in names && p in instance.fields ==> instance in names[p]
  }

  /** A definition that declares `p`, and beside the reference to it `additionalProperties` set to
      false: the sibling sees no properties and rejects every object with members, until the merge
      lets it see those of the definition. */
  lemma SiblingOpensUp(p: string, matches: (string, string) -> bool, assertion: (string, Json, Json) -> bool)
    requires p != REF && p != DEFS
    ensures var words := Draft(matches, assertion);
      var schema := ReferenceTo("D", map["additionalProperties" := Bool(false)]);
      var defs := map["D" := Obj(map["properties" := Obj(map[p := Bool(true)])])];
      var instance := Obj(map[p := Null]);
      && Inline(schema, defs, 1).Some?
      && instance !in Accepts(schema, defs, words, 1)
      && instance in Accepts(Inline(schema, defs, 1).value, map[], words, 0)
  {
    var words, instance := Draft(matches, assertion), Obj(map[p := Null]);
    var base, over := map["properties" := Obj(map[p := Bool(true)])], map["additionalProperties" := Bool(false)];
    var defs := map["D" := Obj(base)];
    var schema := ReferenceTo("D", over);
    SmallSchemas(p);
    CleanReference(defs, "D", over);
    CleanMerged(base, over);
    hide Inline, Accepts, Satisfies, Clean, ViewOf, HasRef, RefName, Draft, Asserts;
    OwnAccepts(base + over, map[], words, 0);
    ReferenceAccepts(schema, "D", defs, words, 1);
    ViewsOfSmall(p, words, defs);
    ClosedAlone(ViewOf(schema, defs, words, 1), p, matches, assertion);
    ClosedBeside(ViewOf(Obj(base + over), map[], words, 0), p, matches, assertion);
  }

  lemma SmallSchemas(p: string)
    requires p != REF && p != DEFS
    ensures Clean(Obj(map["properties" := Obj(map[p := Bool(true)])]))
    ensures Clean(Obj(map["additionalProperties" := Bool(false)]))
  {
    assert Clean(Obj(map[p := Bool(true)]));
  }

  lemma ViewsOfSmall(p: string, words: Vocabulary, defs: Definitions)
    requires words.shape == DraftShape
    ensures var view := ViewOf(ReferenceTo("D", map["additionalProperties" := Bool(false)]), defs, words, 1);
      view.Keys == {"additionalProperties"} && view["additionalProperties"] == Accepted(iset{})
    ensures var view := ViewOf(Obj(map["properties" := Obj(map[p := Bool(true)])] +
                                   map["additionalProperties" := Bool(false)]), map[], words, 0);
      && view.Keys == {"properties", "additionalProperties"}
      && view["additionalProperties"] == Accepted(iset{})
      && view["properties"].AcceptedByName? && view["properties"].names.Keys == {p}
      && Null in view["properties"].names[p]
  {
    hide MeaningOf, Accepts, Asserts, DraftShape;
    SmallShapes(words);
    MeaningsOfSmall(p, words, defs, 1);
    MeaningsOfSmall(p, words, map[], 0);
  }

  lemma SmallShapes(words: Vocabulary)
    requires words.shape == DraftShape
    ensures Asserts("properties", words) && words.shape("properties") == Named
    ensures Asserts("additionalProperties", words) && words.shape("additionalProperties") == One
    ensures !Asserts(REF, words)
  {
  }

  lemma MeaningsOfSmall(p: string, words: Vocabulary, defs: Definitions, fuel: nat)
    ensures MeaningOf(One, Bool(false), defs, words, fuel) == Accepted(iset{})
    ensures var meaning := MeaningOf(Named, Obj(map[p := Bool(true)]), defs, words, fuel);
      meaning.AcceptedByName? && meaning.names.Keys == {p} && Null in meaning.names[p]
  {
    assert Accepts(Bool(false), defs, words, fuel) == iset{};
    assert Null in Accepts(Bool(true), defs, words, fuel);
  }

  lemma ClosedAlone(
    view: View, p: string, matches: (string, string) -> bool, assertion: (string, Json, Json) -> bool)
    requires view.Keys == {"additionalProperties"} && view["additionalProperties"] == Accepted(iset{})
    ensures !Satisfies(view, Draft(matches, assertion), Obj(map[p := Null]))
  {
    var words, instance := Draft(matches, assertion), Obj(map[p := Null]);
    var visible := Visible(view, "additionalProperties", words);
    assert visible == view;
    assert p in instance.fields && !Declared(p, visible, matches);
    assert !OneHolds("additionalProperties", iset{}, visible, instance, matches);
  }

  lemma ClosedBeside(
    view: View, p: string, matches: (string, string) -> bool, assertion: (string, Json, Json) -> bool)
    requires view.Keys == {"properties", "additionalProperties"}
    requires view["additionalProperties"] == Accepted(iset{})
    requires view["properties"].AcceptedByName? && view["properties"].names.Keys == {p}
    requires Null in view["properties"].names[p]
    ensures Satisfies(view, Draft(matches, assertion), Obj(map[p := Null]))
  {
    var words, instance := Draft(matches, assertion), Obj(map[p := Null]);
    var visible := Visible(view, "additionalProperties", words);
    assert "properties" in visible && Declared(p, visible, matches);
    assert OneHolds("additionalProperties", iset{}, visible, instance, matches);
    assert NamedHold("properties", view["properties"].names, instance, matches);
  }
}
