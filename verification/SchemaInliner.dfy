/** Inlining local `$ref`s (src/release_sentinel/webmcp/contracts.py).

    A dictionary is a map, so which of several errors is raised first is not modelled: None is
    any exception. `fuel` bounds how deeply references may be nested in one another; running out
    is Python's RecursionError. */
module SchemaInliner {
  import opened Sets
  import opened Sorting
  import opened Wrappers

  datatype Json =
    | Null
    | Bool(b: bool)
    | Num(n: int)
    | Str(s: string)
    | Arr(items: seq<Json>)
    | Obj(fields: map<string, Json>)

  type Definitions = map<string, Json>

  const REF: string := "$ref"
  const DEFS: string := "$defs"
  const PREFIX: string := "#/$defs/"

  /** `node.get("$ref")` is not None. */
  predicate HasRef(fields: map<string, Json>) {
    REF in fields && !fields[REF].Null?
  }

  /** The definition a supported reference names. */
  function RefName(ref: Json): Option<string> {
    if ref.Str? && PREFIX <= ref.s then Some(ref.s[|PREFIX|..]) else None
  }

  /** Only texts that begin with "#/$defs/" are supported, and name what follows. */
  lemma RefNameMeaning(ref: Json, name: string)
    ensures RefName(ref) == Some(name) <==> ref == Str("#/$defs/" + name)
  {
    if ref == Str("#/$defs/" + name) {
      assert ("#/$defs/" + name)[|PREFIX|..] == name;
    }
  }

  function Inline(node: Json, defs: Definitions, fuel: nat): Option<Json>
    decreases fuel, node
  {
    match node
    case Arr(items) =>
      if exists i :: 0 <= i < |items| && Inline(items[i], defs, fuel).None? then None
      else Some(Arr(seq(|items|, i requires 0 <= i < |items| && Inline(items[i], defs, fuel).Some? =>
        Inline(items[i], defs, fuel).value)))
    case Obj(fields) =>
      if HasRef(fields) then
        var name := RefName(fields[REF]);
        if name.None? || name.value !in defs || fuel == 0 then None
        else
          var resolved := Inline(defs[name.value], defs, fuel - 1);
          if resolved.None? || !resolved.value.Obj? then None
          else if exists k :: k in fields && k != REF && Inline(fields[k], defs, fuel).None? then None
          else Some(Obj(resolved.value.fields + InlinedFields(node, {REF}, defs, fuel)))
      else
        if exists k :: k in fields && k != DEFS && Inline(fields[k], defs, fuel).None? then None
        else Some(Obj(InlinedFields(node, {DEFS}, defs, fuel)))
    case _ => Some(node)
  }

  /** The fields other than `skipped`, each inlined. */
  function InlinedFields(node: Json, skipped: set<string>, defs: Definitions, fuel: nat): map<string, Json>
    requires node.Obj?
    decreases fuel, node, 0
  {
    map k | k in node.fields && k !in skipped && Inline(node.fields[k], defs, fuel).Some? ::
      Inline(node.fields[k], defs, fuel).value
  }

  /** The definitions a whole schema carries. A "$defs" that is not a dictionary makes every
      reference raise, as an empty one does. */
  function DefinitionsOf(schema: map<string, Json>): Definitions {
    if DEFS in schema && schema[DEFS].Obj? then schema[DEFS].fields else map[]
  }

  function InlineSchema(schema: map<string, Json>, fuel: nat): Option<Json> {
    Inline(Obj(schema), DefinitionsOf(schema), fuel)
  }

  // ---------------------------------------------------------------- when inlining succeeds

  /** Every reference the inliner follows from `node` has the supported form and names a
      definition of a rank below `level`. */
  predicate RefsBelow(node: Json, rank: map<string, nat>, level: nat) {
    match node
    case Arr(items) => forall i :: 0 <= i < |items| ==> RefsBelow(items[i], rank, level)
    case Obj(fields) =>
      if HasRef(fields) then
        var name := RefName(fields[REF]);
        && name.Some? && name.value in rank && rank[name.value] < level
        && forall k :: k in fields && k != REF ==> RefsBelow(fields[k], rank, level)
      else
        forall k :: k in fields && k != DEFS ==> RefsBelow(fields[k], rank, level)
    case _ => true
  }

  /** The ranked definitions are objects that refer only to definitions of lower rank. */
  ghost predicate Layered(defs: Definitions, rank: map<string, nat>) {
    forall name :: name in rank ==>
      name in defs && defs[name].Obj? && RefsBelow(defs[name], rank, rank[name])
  }

  lemma {:induction false} ObjectsStayObjects(node: Json, defs: Definitions, fuel: nat)
    requires Inline(node, defs, fuel).Some?
    ensures Inline(node, defs, fuel).value.Obj? <==> node.Obj?
  {
    match node
    case Arr(items) =>
    case Obj(fields) =>
    case _ =>
  }

  lemma {:induction false} LayeredSucceeds(node: Json, defs: Definitions, rank: map<string, nat>, fuel: nat)
    requires Layered(defs, rank) && RefsBelow(node, rank, fuel)
    ensures Inline(node, defs, fuel).Some?
    decreases fuel, node
  {
    match node
    case Arr(items) =>
      forall i | 0 <= i < |items| ensures Inline(items[i], defs, fuel).Some? {
        LayeredSucceeds(items[i], defs, rank, fuel);
      }
    case Obj(fields) =>
      var skipped := if HasRef(fields) then REF else DEFS;
      forall k | k in fields && k != skipped ensures Inline(fields[k], defs, fuel).Some? {
        LayeredSucceeds(fields[k], defs, rank, fuel);
      }
      if HasRef(fields) {
        var name := RefName(fields[REF]).value;
        RefsBelowMonotone(defs[name], rank, rank[name], fuel - 1);
        LayeredSucceeds(defs[name], defs, rank, fuel - 1);
        ObjectsStayObjects(defs[name], defs, fuel - 1);
      }
    case _ =>
  }

  lemma {:induction false} RefsBelowMonotone(node: Json, rank: map<string, nat>, level: nat, higher: nat)
    requires RefsBelow(node, rank, level) && level <= higher
    ensures RefsBelow(node, rank, higher)
  {
    match node
    case Arr(items) =>
      forall i | 0 <= i < |items| ensures RefsBelow(items[i], rank, higher) {
        RefsBelowMonotone(items[i], rank, level, higher);
      }
    case Obj(fields) =>
      forall k | k in fields && k != (if HasRef(fields) then REF else DEFS)
        ensures RefsBelow(fields[k], rank, higher)
      {
        RefsBelowMonotone(fields[k], rank, level, higher);
      }
    case _ =>
  }

  /** A deeper stack never changes a result. */
  lemma {:induction false} MoreFuelSameResult(node: Json, defs: Definitions, fuel: nat, more: nat)
    requires Inline(node, defs, fuel).Some? && fuel <= more
    ensures Inline(node, defs, more) == Inline(node, defs, fuel)
    decreases fuel, node
  {
    match node
    case Arr(items) =>
      forall i | 0 <= i < |items| ensures Inline(items[i], defs, more) == Inline(items[i], defs, fuel) {
        MoreFuelSameResult(items[i], defs, fuel, more);
      }
      assert Inline(node, defs, more).value.items == Inline(node, defs, fuel).value.items;
    case Obj(fields) =>
      forall k | k in fields && k != (if HasRef(fields) then REF else DEFS)
        ensures Inline(fields[k], defs, more) == Inline(fields[k], defs, fuel)
      {
        MoreFuelSameResult(fields[k], defs, fuel, more);
      }
      if HasRef(fields) {
        MoreFuelSameResult(defs[RefName(fields[REF]).value], defs, fuel - 1, more - 1);
        assert InlinedFields(node, {REF}, defs, more) == InlinedFields(node, {REF}, defs, fuel);
      } else {
        assert InlinedFields(node, {DEFS}, defs, more) == InlinedFields(node, {DEFS}, defs, fuel);
      }
    case _ =>
  }

  /** The least depth at which a definition inlines. */
  function LeastFuel(node: Json, defs: Definitions, fuel: nat): (least: nat)
    requires Inline(node, defs, fuel).Some?
    ensures least <= fuel && Inline(node, defs, least).Some?
    ensures forall f: nat :: f < least ==> Inline(node, defs, f).None?
  {
    if fuel == 0 || Inline(node, defs, fuel - 1).None? then
      assert forall f: nat :: f < fuel ==> Inline(node, defs, f).None? by {
        forall f: nat | f < fuel ensures Inline(node, defs, f).None? {
          if Inline(node, defs, f).Some? { MoreFuelSameResult(node, defs, f, fuel - 1); }
        }
      }
      fuel
    else
      LeastFuel(node, defs, fuel - 1)
  }

  /** The definitions that inline within `fuel`, ranked by the depth they need. */
  ghost function Ranks(defs: Definitions, fuel: nat): map<string, nat> {
    map name | name in defs && defs[name].Obj? && Inline(defs[name], defs, fuel).Some? ::
      LeastFuel(defs[name], defs, fuel)
  }

  lemma {:induction false} SuccessIsRanked(node: Json, defs: Definitions, fuel: nat, top: nat)
    requires Inline(node, defs, fuel).Some? && fuel <= top
    ensures RefsBelow(node, Ranks(defs, top), fuel)
    decreases fuel, node
  {
    match node
    case Arr(items) =>
      forall i | 0 <= i < |items| ensures RefsBelow(items[i], Ranks(defs, top), fuel) {
        SuccessIsRanked(items[i], defs, fuel, top);
      }
    case Obj(fields) =>
      forall k | k in fields && k != (if HasRef(fields) then REF else DEFS)
        ensures RefsBelow(fields[k], Ranks(defs, top), fuel)
      {
        SuccessIsRanked(fields[k], defs, fuel, top);
      }
      if HasRef(fields) {
        var target := defs[RefName(fields[REF]).value];
        MoreFuelSameResult(target, defs, fuel - 1, top);
        ObjectsStayObjects(target, defs, fuel - 1);
        assert LeastFuel(target, defs, top) <= fuel - 1;
      }
    case _ =>
  }

  lemma {:induction false} RanksAreLayered(defs: Definitions, top: nat)
    ensures Layered(defs, Ranks(defs, top))
  {
    var rank := Ranks(defs, top);
    forall name | name in rank ensures RefsBelow(defs[name], rank, rank[name]) {
      SuccessIsRanked(defs[name], defs, rank[name], top);
    }
  }

  /** Inlining succeeds exactly when the definitions the schema reaches can be put in layers. The
      depth needed is the height of the layers. */
  lemma {:induction false} SucceedsIffLayered(node: Json, defs: Definitions, fuel: nat)
    ensures Inline(node, defs, fuel).Some? <==>
            exists rank :: Layered(defs, rank) && RefsBelow(node, rank, fuel)
  {
    if Inline(node, defs, fuel).Some? {
      RanksAreLayered(defs, fuel);
      SuccessIsRanked(node, defs, fuel, fuel);
    }
    forall rank | Layered(defs, rank) && RefsBelow(node, rank, fuel) ensures Inline(node, defs, fuel).Some? {
      LayeredSucceeds(node, defs, rank, fuel);
    }
  }

  /** A definition that refers to itself exhausts every stack. */
  lemma {:induction false} SelfReferenceNeverEnds(defs: Definitions, name: string, fuel: nat)
    requires name in defs && defs[name] == Obj(map[REF := Str(PREFIX + name)])
    ensures Inline(defs[name], defs, fuel).None?
  {
    assert (PREFIX + name)[|PREFIX|..] == name;
    assert RefName(defs[name].fields[REF]) == Some(name);
    if fuel == 0 {
    } else {
      SelfReferenceNeverEnds(defs, name, fuel - 1);
    }
  }

  // ---------------------------------------------------------------- cycles

  /** Inlining `node` follows a reference to `name`. */
  predicate Follows(node: Json, name: string) {
    match node
    case Arr(items) => exists i :: 0 <= i < |items| && Follows(items[i], name)
    case Obj(fields) =>
      if HasRef(fields) then
        || RefName(fields[REF]) == Some(name)
        || exists k :: k in fields && k != REF && Follows(fields[k], name)
      else
        exists k :: k in fields && k != DEFS && Follows(fields[k], name)
    case _ => false
  }

  /** Every reference followed from `node` has the supported form and names an object. */
  predicate Supported(node: Json, defs: Definitions) {
    match node
    case Arr(items) => forall i :: 0 <= i < |items| ==> Supported(items[i], defs)
    case Obj(fields) =>
      if HasRef(fields) then
        var name := RefName(fields[REF]);
        && name.Some? && name.value in defs && defs[name.value].Obj?
        && forall k :: k in fields && k != REF ==> Supported(fields[k], defs)
      else
        forall k :: k in fields && k != DEFS ==> Supported(fields[k], defs)
    case _ => true
  }

  /** The names in `trail` are followed one after the other, the first from `root`. */
  predicate Trail(root: Json, defs: Definitions, trail: seq<string>) {
    trail == [] ||
    var n := |trail| - 1;
    && Trail(root, defs, trail[..n])
    && if n == 0 then Follows(root, trail[0])
       else trail[n - 1] in defs && Follows(defs[trail[n - 1]], trail[n])
  }

  ghost predicate Acyclic(root: Json, defs: Definitions) {
    forall trail :: Trail(root, defs, trail) ==> Distinct(trail)
  }

  ghost predicate AllSupported(root: Json, defs: Definitions) {
    && Supported(root, defs)
    && forall trail :: Trail(root, defs, trail) && trail != [] && trail[|trail| - 1] in defs ==>
         Supported(defs[trail[|trail| - 1]], defs)
  }

  lemma {:induction false} FollowsSupported(node: Json, defs: Definitions, name: string)
    requires Supported(node, defs) && Follows(node, name)
    ensures name in defs && defs[name].Obj?
  {
    match node
    case Arr(items) =>
      var i :| 0 <= i < |items| && Follows(items[i], name);
      FollowsSupported(items[i], defs, name);
    case Obj(fields) =>
      if !(HasRef(fields) && RefName(fields[REF]) == Some(name)) {
        var k :| k in fields && k != (if HasRef(fields) then REF else DEFS) && Follows(fields[k], name);
        FollowsSupported(fields[k], defs, name);
      }
  }

  lemma LastInDefs(root: Json, defs: Definitions, trail: seq<string>)
    requires AllSupported(root, defs) && Trail(root, defs, trail) && trail != []
    ensures trail[|trail| - 1] in defs
  {
    hide Follows, Supported;
    var n := |trail| - 1;
    if n == 0 {
      FollowsSupported(root, defs, trail[0]);
    } else {
      assert trail[..n][|trail[..n]| - 1] == trail[n - 1];
      FollowsSupported(defs[trail[n - 1]], defs, trail[n]);
    }
  }

  lemma {:induction false} TrailInDefs(root: Json, defs: Definitions, trail: seq<string>)
    requires AllSupported(root, defs) && Trail(root, defs, trail)
    ensures forall i :: 0 <= i < |trail| ==> trail[i] in defs
  {
    if trail == [] {
    } else {
      var n := |trail| - 1;
      TrailInDefs(root, defs, trail[..n]);
      LastInDefs(root, defs, trail);
      hide Follows, Supported, AllSupported, Trail;
      assert forall i :: 0 <= i < n ==> trail[..n][i] == trail[i];
    }
  }

  /** A trail without repetitions is no longer than there are definitions. */
  lemma TrailIsShort(root: Json, defs: Definitions, trail: seq<string>)
    requires AllSupported(root, defs) && Trail(root, defs, trail) && Distinct(trail)
    ensures |trail| <= |defs|
  {
    TrailInDefs(root, defs, trail);
    ElementsSize(trail);
    SubsetSize(Elements(trail), defs.Keys);
    assert |defs.Keys| == |defs|;
  }

  /** From part of the definition that ends `trail`, every further reference extends it. */
  ghost predicate Extends(root: Json, defs: Definitions, trail: seq<string>, node: Json) {
    forall name :: Follows(node, name) ==> Trail(root, defs, trail + [name])
  }

  lemma ExtendsPart(root: Json, defs: Definitions, trail: seq<string>, node: Json, part: Json)
    requires Extends(root, defs, trail, node)
    requires forall name :: Follows(part, name) ==> Follows(node, name)
    ensures Extends(root, defs, trail, part)
  {
    hide Follows, Trail;
  }

  lemma {:induction false} AcyclicSucceeds(
    root: Json, defs: Definitions, trail: seq<string>, node: Json, fuel: nat)
    requires Acyclic(root, defs) && AllSupported(root, defs)
    requires Trail(root, defs, trail) && Extends(root, defs, trail, node) && Supported(node, defs)
    requires fuel + |trail| >= |defs|
    ensures Inline(node, defs, fuel).Some?
    decreases fuel, node
  {
    hide Trail, Acyclic, AllSupported, Extends;
    match node
    case Arr(items) =>
      forall i | 0 <= i < |items| ensures Inline(items[i], defs, fuel).Some? {
        ExtendsPart(root, defs, trail, node, items[i]);
        AcyclicSucceeds(root, defs, trail, items[i], fuel);
      }
    case Obj(fields) =>
      forall k | k in fields && k != (if HasRef(fields) then REF else DEFS)
        ensures Inline(fields[k], defs, fuel).Some?
      {
        ExtendsPart(root, defs, trail, node, fields[k]);
        AcyclicSucceeds(root, defs, trail, fields[k], fuel);
      }
      if HasRef(fields) {
        var name := RefName(fields[REF]).value;
        AcyclicFollows(root, defs, trail, node, name);
        AcyclicSucceeds(root, defs, trail + [name], defs[name], fuel - 1);
        ObjectsStayObjects(defs[name], defs, fuel - 1);
      }
    case _ =>
  }

  lemma AcyclicFollows(root: Json, defs: Definitions, trail: seq<string>, node: Json, name: string)
    requires Acyclic(root, defs) && AllSupported(root, defs)
    requires Trail(root, defs, trail) && Extends(root, defs, trail, node) && Follows(node, name) && name in defs
    ensures |trail| < |defs|
    ensures Trail(root, defs, trail + [name]) && Supported(defs[name], defs)
    ensures Extends(root, defs, trail + [name], defs[name])
  {
    hide Follows, Supported;
    var longer := trail + [name];
    TrailIsShort(root, defs, longer);
    assert longer[|longer| - 1] == name;
    forall next | Follows(defs[name], next) ensures Trail(root, defs, longer + [next]) {
      assert (longer + [next])[..|longer|] == longer;
    }
  }

  lemma {:induction false} FollowsBelow(node: Json, rank: map<string, nat>, level: nat, name: string)
    requires RefsBelow(node, rank, level) && Follows(node, name)
    ensures name in rank && rank[name] < level
  {
    match node
    case Arr(items) =>
      var i :| 0 <= i < |items| && Follows(items[i], name);
      FollowsBelow(items[i], rank, level, name);
    case Obj(fields) =>
      if !(HasRef(fields) && RefName(fields[REF]) == Some(name)) {
        var k :| k in fields && k != (if HasRef(fields) then REF else DEFS) && Follows(fields[k], name);
        FollowsBelow(fields[k], rank, level, name);
      }
  }

  lemma LastFalls(root: Json, defs: Definitions, rank: map<string, nat>, level: nat, trail: seq<string>)
    requires Layered(defs, rank) && RefsBelow(root, rank, level) && Trail(root, defs, trail) && trail != []
    requires |trail| > 1 ==> trail[|trail| - 2] in rank
    ensures trail[|trail| - 1] in rank
    ensures |trail| > 1 ==> rank[trail[|trail| - 1]] < rank[trail[|trail| - 2]]
  {
    hide Follows, RefsBelow;
    var n := |trail| - 1;
    if n == 0 {
      FollowsBelow(root, rank, level, trail[0]);
    } else {
      FollowsBelow(defs[trail[n - 1]], rank, rank[trail[n - 1]], trail[n]);
    }
  }

  lemma OneMoreFalls(rank: map<string, nat>, trail: seq<string>, n: nat)
    requires |trail| == n + 1 && trail[n] in rank
    requires forall i :: 0 <= i < n ==> trail[..n][i] in rank
    requires forall i, j :: 0 <= i < j < n ==> rank[trail[..n][j]] < rank[trail[..n][i]]
    requires n > 0 ==> trail[n - 1] in rank && rank[trail[n]] < rank[trail[n - 1]]
    ensures forall i :: 0 <= i < |trail| ==> trail[i] in rank
    ensures forall i, j :: 0 <= i < j < |trail| ==> rank[trail[j]] < rank[trail[i]]
  {
    var init := trail[..n];
    assert forall i :: 0 <= i < n ==> init[i] == trail[i];
  }

  /** Along a trail the ranks fall. */
  lemma {:induction false} RanksFall(
    root: Json, defs: Definitions, rank: map<string, nat>, level: nat, trail: seq<string>)
    requires Layered(defs, rank) && RefsBelow(root, rank, level) && Trail(root, defs, trail)
    ensures forall i :: 0 <= i < |trail| ==> trail[i] in rank
    ensures forall i, j :: 0 <= i < j < |trail| ==> rank[trail[j]] < rank[trail[i]]
  {
    if trail == [] {
    } else {
      var n := |trail| - 1;
      RanksFall(root, defs, rank, level, trail[..n]);
      if n > 0 {
        assert trail[..n][n - 1] == trail[n - 1];
      }
      LastFalls(root, defs, rank, level, trail);
      hide Follows, RefsBelow, Layered, Trail;
      OneMoreFalls(rank, trail, n);
    }
  }

  lemma {:induction false} RankedIsSupported(node: Json, defs: Definitions, rank: map<string, nat>, level: nat)
    requires Layered(defs, rank) && RefsBelow(node, rank, level)
    ensures Supported(node, defs)
  {
    match node
    case Arr(items) =>
      forall i | 0 <= i < |items| ensures Supported(items[i], defs) {
        RankedIsSupported(items[i], defs, rank, level);
      }
    case Obj(fields) =>
      forall k | k in fields && k != (if HasRef(fields) then REF else DEFS) ensures Supported(fields[k], defs) {
        RankedIsSupported(fields[k], defs, rank, level);
      }
    case _ =>
  }

  /** Success shows that everything reached is supported and that nothing is reached twice. */
  lemma SuccessIsAcyclic(root: Json, defs: Definitions, fuel: nat)
    requires Inline(root, defs, fuel).Some?
    ensures Acyclic(root, defs) && AllSupported(root, defs)
  {
    var rank := Ranks(defs, fuel);
    RanksAreLayered(defs, fuel);
    SuccessIsRanked(root, defs, fuel, fuel);
    RankedIsSupported(root, defs, rank, fuel);
    forall trail | Trail(root, defs, trail)
      ensures Distinct(trail)
      ensures trail != [] && trail[|trail| - 1] in defs ==> Supported(defs[trail[|trail| - 1]], defs)
    {
      RanksFall(root, defs, rank, fuel, trail);
      if trail != [] {
        var last := trail[|trail| - 1];
        RankedIsSupported(defs[last], defs, rank, rank[last]);
      }
    }
  }

  /** Inlining succeeds at some depth exactly when every reference reached is supported and no
      chain of references returns to a definition it has passed, and then a depth of the number
      of definitions is enough. */
  lemma SucceedsIffAcyclic(root: Json, defs: Definitions)
    ensures Inline(root, defs, |defs|).Some? <==> Acyclic(root, defs) && AllSupported(root, defs)
    ensures (exists fuel: nat :: Inline(root, defs, fuel).Some?) <==> Inline(root, defs, |defs|).Some?
  {
    if Acyclic(root, defs) && AllSupported(root, defs) {
      forall name | Follows(root, name) ensures Trail(root, defs, [] + [name]) {
        assert ([] + [name])[..0] == [];
      }
      AcyclicSucceeds(root, defs, [], root, |defs|);
    }
    if fuel: nat :| Inline(root, defs, fuel).Some? {
      SuccessIsAcyclic(root, defs, fuel);
    }
  }

  /** A schema that reaches a cycle exhausts every depth. */
  lemma CycleNeverEnds(root: Json, defs: Definitions, trail: seq<string>, i: nat, j: nat, fuel: nat)
    requires Trail(root, defs, trail) && i < j < |trail| && trail[i] == trail[j]
    ensures Inline(root, defs, fuel).None?
  {
    if Inline(root, defs, fuel).Some? {
      SuccessIsAcyclic(root, defs, fuel);
    }
  }

  // ---------------------------------------------------------------- what the result is free of

  /** No dictionary anywhere in `node` has a "$ref" or a "$defs". */
  predicate Clean(node: Json) {
    match node
    case Arr(items) => forall i :: 0 <= i < |items| ==> Clean(items[i])
    case Obj(fields) =>
      REF !in fields && DEFS !in fields && forall k :: k in fields ==> Clean(fields[k])
    case _ => true
  }

  /** `node` is clean apart from the fields in `hidden`. */
  predicate CleanBut(node: Json, hidden: set<string>) {
    if node.Obj? then
      forall k :: k in node.fields && k !in hidden ==> k != REF && k != DEFS && Clean(node.fields[k])
    else Clean(node)
  }

  /** Inlining leaves a "$ref" or "$defs" behind: a null "$ref", which is not taken for a
      reference, or a "$defs" beside a "$ref", which only the other branch drops, unless a
      sibling of a reference to it overrides the place (`hidden`). */
  predicate Leaks(node: Json, hidden: set<string>, defs: Definitions, fuel: nat)
    decreases fuel, node
  {
    match node
    case Arr(items) => exists i :: 0 <= i < |items| && Leaks(items[i], {}, defs, fuel)
    case Obj(fields) =>
      if HasRef(fields) then
        var name := RefName(fields[REF]);
        || (DEFS in fields && DEFS !in hidden)
        || (exists k :: k in fields && k != REF && k !in hidden && Leaks(fields[k], {}, defs, fuel))
        || (name.Some? && name.value in defs && fuel > 0 &&
            Leaks(defs[name.value], hidden + (fields.Keys - {REF}), defs, fuel - 1))
      else
        || (REF in fields && REF !in hidden)
        || exists k :: k in fields && k != DEFS && k !in hidden && Leaks(fields[k], {}, defs, fuel)
    case _ => false
  }

  lemma {:induction false} CleanButExactly(node: Json, hidden: set<string>, defs: Definitions, fuel: nat)
    requires Inline(node, defs, fuel).Some?
    ensures CleanBut(Inline(node, defs, fuel).value, hidden) <==> !Leaks(node, hidden, defs, fuel)
    decreases fuel, node
  {
    match node
    case Arr(items) =>
      var result := Inline(node, defs, fuel).value;
      forall i | 0 <= i < |items| ensures Clean(result.items[i]) <==> !Leaks(items[i], {}, defs, fuel) {
        CleanButExactly(items[i], {}, defs, fuel);
        CleanIsCleanBut(Inline(items[i], defs, fuel).value);
      }
    case Obj(fields) =>
      forall k | k in fields && k != (if HasRef(fields) then REF else DEFS)
        ensures Inline(fields[k], defs, fuel).Some?
        ensures Clean(Inline(fields[k], defs, fuel).value) <==> !Leaks(fields[k], {}, defs, fuel)
      {
        CleanButExactly(fields[k], {}, defs, fuel);
        CleanIsCleanBut(Inline(fields[k], defs, fuel).value);
      }
      if HasRef(fields) {
        var target := defs[RefName(fields[REF]).value];
        CleanButExactly(target, hidden + (fields.Keys - {REF}), defs, fuel - 1);
        ReferenceCleanBut(node, hidden, defs, fuel);
      } else {
        PlainCleanBut(node, hidden, defs, fuel);
      }
    case _ =>
  }

  /** The fields of a dictionary that are inlined in place, a "$ref" or a "$defs" aside. */
  ghost predicate FieldsExact(node: Json, defs: Definitions, fuel: nat)
    requires node.Obj?
  {
    forall k :: k in node.fields && k != (if HasRef(node.fields) then REF else DEFS) ==>
      && Inline(node.fields[k], defs, fuel).Some?
      && (Clean(Inline(node.fields[k], defs, fuel).value) <==> !Leaks(node.fields[k], {}, defs, fuel))
  }

  lemma PlainCleanBut(node: Json, hidden: set<string>, defs: Definitions, fuel: nat)
    requires node.Obj? && !HasRef(node.fields) && Inline(node, defs, fuel).Some? && FieldsExact(node, defs, fuel)
    ensures CleanBut(Inline(node, defs, fuel).value, hidden) <==> !Leaks(node, hidden, defs, fuel)
  {
    hide Clean;
    var result := Inline(node, defs, fuel).value;
    assert result.fields.Keys == node.fields.Keys - {DEFS};
  }

  lemma ReferenceCleanBut(node: Json, hidden: set<string>, defs: Definitions, fuel: nat)
    requires node.Obj? && HasRef(node.fields) && Inline(node, defs, fuel).Some? && FieldsExact(node, defs, fuel)
    requires var target := defs[RefName(node.fields[REF]).value];
      CleanBut(Inline(target, defs, fuel - 1).value, hidden + (node.fields.Keys - {REF})) <==>
      !Leaks(target, hidden + (node.fields.Keys - {REF}), defs, fuel - 1)
    ensures CleanBut(Inline(node, defs, fuel).value, hidden) <==> !Leaks(node, hidden, defs, fuel)
  {
    var target := defs[RefName(node.fields[REF]).value];
    var base, own := Inline(target, defs, fuel - 1).value.fields, InlinedFields(node, {REF}, defs, fuel);
    assert own.Keys == node.fields.Keys - {REF};
    OwnCleanBut(node, hidden, defs, fuel);
    hide Clean, CleanBut, FieldsExact;
    OverridingHides(base, own, hidden);
  }

  lemma OwnCleanBut(node: Json, hidden: set<string>, defs: Definitions, fuel: nat)
    requires node.Obj? && HasRef(node.fields) && FieldsExact(node, defs, fuel)
    ensures CleanBut(Obj(InlinedFields(node, {REF}, defs, fuel)), hidden) <==>
      && (DEFS in node.fields ==> DEFS in hidden)
      && forall k :: k in node.fields && k != REF && k !in hidden ==> !Leaks(node.fields[k], {}, defs, fuel)
  {
    hide Clean, Leaks, Inline;
    var own := InlinedFields(node, {REF}, defs, fuel);
    assert own.Keys == node.fields.Keys - {REF};
  }

  lemma CleanIsCleanBut(node: Json)
    ensures Clean(node) <==> CleanBut(node, {})
  {
    match node
    case Obj(fields) =>
      if CleanBut(node, {}) {
        assert REF in fields ==> REF !in {};
        assert DEFS in fields ==> DEFS !in {};
      }
    case _ =>
  }

  lemma OverridingHides(base: map<string, Json>, over: map<string, Json>, hidden: set<string>)
    ensures CleanBut(Obj(base + over), hidden) <==>
            CleanBut(Obj(base), hidden + over.Keys) && CleanBut(Obj(over), hidden)
  {
    var both := base + over;
    if CleanBut(Obj(both), hidden) {
      forall k | k in base && k !in hidden + over.Keys ensures k != REF && k != DEFS && Clean(base[k]) {
        assert both[k] == base[k];
      }
      forall k | k in over && k !in hidden ensures k != REF && k != DEFS && Clean(over[k]) {
        assert both[k] == over[k];
      }
    }
  }

  /** The exact condition: what is inlined is free of "$ref" and "$defs" unless it leaks one. */
  lemma CleanExactlyWhen(node: Json, defs: Definitions, fuel: nat)
    requires Inline(node, defs, fuel).Some?
    ensures Clean(Inline(node, defs, fuel).value) <==> !Leaks(node, {}, defs, fuel)
  {
    CleanButExactly(node, {}, defs, fuel);
    CleanIsCleanBut(Inline(node, defs, fuel).value);
  }

  /** What the schema generator writes: no null "$ref" and no "$defs" beside a "$ref". */
  predicate Tidy(node: Json) {
    match node
    case Arr(items) => forall i :: 0 <= i < |items| ==> Tidy(items[i])
    case Obj(fields) =>
      && (REF in fields ==> HasRef(fields) && DEFS !in fields)
      && forall k :: k in fields && k != DEFS && k != REF ==> Tidy(fields[k])
    case _ => true
  }

  lemma {:induction false} TidyNeverLeaks(node: Json, hidden: set<string>, defs: Definitions, fuel: nat)
    requires Tidy(node) && forall name :: name in defs ==> Tidy(defs[name])
    ensures !Leaks(node, hidden, defs, fuel)
    decreases fuel, node
  {
    match node
    case Arr(items) =>
      forall i | 0 <= i < |items| ensures !Leaks(items[i], {}, defs, fuel) {
        TidyNeverLeaks(items[i], {}, defs, fuel);
      }
    case Obj(fields) =>
      forall k | k in fields && k != DEFS && k != REF ensures !Leaks(fields[k], {}, defs, fuel) {
        TidyNeverLeaks(fields[k], {}, defs, fuel);
      }
      if HasRef(fields) && RefName(fields[REF]).Some? && RefName(fields[REF]).value in defs && fuel > 0 {
        TidyNeverLeaks(defs[RefName(fields[REF]).value], hidden + (fields.Keys - {REF}), defs, fuel - 1);
      }
    case _ =>
  }

  /** A null "$ref" is not taken for a reference, and stays. */
  lemma NullRefSurvives(defs: Definitions, fuel: nat)
    ensures Inline(Obj(map[REF := Null]), defs, fuel) == Some(Obj(map[REF := Null]))
  {
    CleanIsUnchanged(Null, defs, fuel);
    assert InlinedFields(Obj(map[REF := Null]), {DEFS}, defs, fuel) == map[REF := Null];
  }

  /** A "$defs" beside a "$ref" stays. */
  lemma SiblingDefsSurvive(defs: Definitions, name: string, fuel: nat)
    requires name in defs && defs[name] == Obj(map[]) && fuel > 0
    ensures Inline(Obj(map[REF := Str(PREFIX + name), DEFS := Null]), defs, fuel) == Some(Obj(map[DEFS := Null]))
  {
    var node := Obj(map[REF := Str(PREFIX + name), DEFS := Null]);
    assert REF != DEFS;
    assert node.fields[REF] == Str(PREFIX + name);
    assert (PREFIX + name)[|PREFIX|..] == name;
    assert RefName(node.fields[REF]) == Some(name);
    CleanIsUnchanged(Null, defs, fuel);
    CleanIsUnchanged(Obj(map[]), defs, fuel - 1);
    var siblings := InlinedFields(node, {REF}, defs, fuel);
    assert siblings == map[DEFS := Null];
    assert map[] + siblings == siblings;
  }

  /** A schema without either keyword is returned as it is; so inlining a clean result again,
      against any definitions, changes nothing. */
  lemma {:induction false} CleanIsUnchanged(node: Json, defs: Definitions, fuel: nat)
    requires Clean(node)
    ensures Inline(node, defs, fuel) == Some(node)
  {
    match node
    case Arr(items) =>
      forall i | 0 <= i < |items| ensures Inline(items[i], defs, fuel) == Some(items[i]) {
        CleanIsUnchanged(items[i], defs, fuel);
      }
      assert Inline(node, defs, fuel).value.items == items;
    case Obj(fields) =>
      forall k | k in fields ensures Inline(fields[k], defs, fuel) == Some(fields[k]) {
        CleanIsUnchanged(fields[k], defs, fuel);
      }
      assert InlinedFields(node, {DEFS}, defs, fuel) == fields;
    case _ =>
  }
}
