/** Validating the changes an agent proposes (`_validate_changes` in
    src/release_sentinel/remediation/service.py). */
module Repair {
  import opened Wrappers
  import opened Sets
  import opened Bytes
  import opened Framing
  import opened Paths

  datatype RepairError =
    | EmptyRepair
    | TooManyFiles
    | BadPath(reason: PathError)
    | UnauthorizedWrite(path: string)
    | FileTooLarge(path: string)
    | BadBaseDigest
    | NotADirectory
    | BadRepository(cause: HashError)
    | BaseMismatch
    | DestinationExists
    | CopyFailed
    | EscapedStagingRoot
    | ReplacesSymlink
    | EmbeddedNul
    | WriteConflict
    | NoSourceChange

  const MAX_FILE_BYTES: nat := 256 * 1024
  const MAX_CHANGED_FILES: nat := 16

  /** A `Mapping[str, str]` in iteration order. */
  type Changes = seq<(string, string)>

  // ----- Validation -----

  function CheckChange(change: (string, string), allowed: set<string>): (r: Result<string, RepairError>)
    ensures r.Err? ==> r.error.BadPath? || r.error.UnauthorizedWrite? || r.error.FileTooLarge?
  {
    match NormalizeRelpath(change.0)
    case Err(reason) => Err(BadPath(reason))
    case Ok(path) =>
      if path !in allowed then Err(UnauthorizedWrite(path))
      else if |Utf8(change.1)| > MAX_FILE_BYTES then Err(FileTooLarge(path))
      else Ok(path)
  }

  ghost predicate Acceptable(changes: Changes, allowed: set<string>) {
    && 0 < |changes| <= MAX_CHANGED_FILES
    && forall i :: 0 <= i < |changes| ==> CheckChange(changes[i], allowed).Ok?
  }

  /** A change is accepted under its normal form, exactly if that is allowed and the content has
      at most 256 KiB; otherwise it fails for the first of the three reasons that applies. */
  lemma CheckChangeMeaning(change: (string, string), allowed: set<string>)
    ensures match (NormalizeRelpath(change.0), CheckChange(change, allowed))
      case (Ok(path), Ok(accepted)) => accepted == path && path in allowed && |Utf8(change.1)| <= 262144
      case (Ok(path), Err(FileTooLarge(named))) => named == path && path in allowed && |Utf8(change.1)| > 262144
      case (Ok(path), Err(error)) => error == UnauthorizedWrite(path) && path !in allowed
      case (Err(reason), checked) => checked == Err(BadPath(reason))
  {
    hide Utf8, NormalizeRelpath;
  }

  /** `normalized[path] = content` for each change in turn: later occurrences override. */
  function Collected(changes: Changes, allowed: set<string>): map<string, string> {
    if changes == [] then map[]
    else
      var last := changes[|changes| - 1];
      var m := Collected(changes[..|changes| - 1], allowed);
      match CheckChange(last, allowed)
      case Ok(path) => m[path := last.1]
      case Err(_) => m
  }

  /** The whole mapping is validated or the first offending change is reported. */
  method ValidateChanges(changes: Changes, allowed: set<string>) returns (r: Result<map<string, string>, RepairError>)
    ensures r.Ok? <==> Acceptable(changes, allowed)
    ensures r.Ok? ==> r.value == Collected(changes, allowed)
    ensures r == Err(EmptyRepair) <==> changes == []
    ensures r == Err(TooManyFiles) <==> |changes| > 16
    ensures r.Err? && 0 < |changes| <= MAX_CHANGED_FILES ==>
              exists i :: 0 <= i < |changes| && CheckChange(changes[i], allowed) == Err(r.error)
                          && forall j :: 0 <= j < i ==> CheckChange(changes[j], allowed).Ok?
  {
    hide CheckChange;
    if changes == [] {
      return Err(EmptyRepair);
    }
    if |changes| > MAX_CHANGED_FILES {
      return Err(TooManyFiles);
    }
    var normalized: map<string, string> := map[];
    for i := 0 to |changes|
      invariant forall j :: 0 <= j < i ==> CheckChange(changes[j], allowed).Ok?
      invariant normalized == Collected(changes[..i], allowed)
    {
      var checked := CheckChange(changes[i], allowed);
      if checked.Err? {
        return Err(checked.error);
      }
      assert changes[..i + 1][..i] == changes[..i];
      normalized := normalized[checked.value := changes[i].1];
    }
    assert changes[..|changes|] == changes;
    return Ok(normalized);
  }

  /** Change `i` is the last one for its path. */
  ghost predicate LastFor(changes: Changes, allowed: set<string>, i: nat, path: string)
    requires i < |changes|
  {
    && CheckChange(changes[i], allowed) == Ok(path)
    && forall j :: i < j < |changes| ==> CheckChange(changes[j], allowed) != Ok(path)
  }

  /** The result holds exactly the accepted paths, each with the content of its last occurrence. */
  lemma {:induction false} CollectedMeaning(changes: Changes, allowed: set<string>, path: string)
    ensures path in Collected(changes, allowed) <==>
            exists i: nat :: i < |changes| && LastFor(changes, allowed, i, path)
    ensures forall i: nat :: i < |changes| && LastFor(changes, allowed, i, path) ==>
              path in Collected(changes, allowed) && Collected(changes, allowed)[path] == changes[i].1
  {
    hide CheckChange;
    if changes == [] {
    } else {
      var n := |changes| - 1;
      var init := changes[..n];
      CollectedMeaning(init, allowed, path);
      if CheckChange(changes[n], allowed) == Ok(path) {
        assert LastFor(changes, allowed, n, path);
      } else {
        forall i: nat | i < n
          ensures LastFor(changes, allowed, i, path) <==> LastFor(init, allowed, i, path)
        {
          assert init[i] == changes[i];
          assert forall j :: i < j < n ==> init[j] == changes[j];
        }
      }
    }
  }

  lemma {:induction false} CollectedSize(changes: Changes, allowed: set<string>)
    ensures |Collected(changes, allowed)| <= |changes|
  {
    if changes == [] {
    } else {
      CollectedSize(changes[..|changes| - 1], allowed);
    }
  }

  /** The accepted paths are allowed and plain, and would be accepted as they stand. */
  lemma CollectedAllowed(changes: Changes, allowed: set<string>, p: string)
    requires p in Collected(changes, allowed)
    ensures p in allowed && PlainParts(Split(p))
    ensures CheckChange((p, Collected(changes, allowed)[p]), allowed) == Ok(p)
  {
    CollectedMeaning(changes, allowed, p);
    var i: nat :| i < |changes| && LastFor(changes, allowed, i, p);
    NormalizeMeaning(changes[i].0);
  }

  /** The items of a dictionary in some iteration order. */
  ghost predicate ItemsOf(items: Changes, m: map<string, string>) {
    && (forall i :: 0 <= i < |items| ==> items[i].0 in m && items[i].1 == m[items[i].0])
    && (forall p :: p in m ==> exists i :: 0 <= i < |items| && items[i].0 == p)
    && (forall i, j :: 0 <= i < j < |items| ==> items[i].0 != items[j].0)
  }

  lemma ItemsCount(items: Changes, m: map<string, string>)
    requires ItemsOf(items, m)
    ensures |items| <= |m|
  {
    var keys := seq(|items|, i requires 0 <= i < |items| => items[i].0);
    ElementsSize(keys);
    SubsetSize(Elements(keys), m.Keys);
  }

  /** Validating validated changes again, in any order, accepts them and changes nothing. */
  lemma ValidationIdempotent(changes: Changes, allowed: set<string>, items: Changes)
    requires Acceptable(changes, allowed) && ItemsOf(items, Collected(changes, allowed))
    ensures Acceptable(items, allowed) && Collected(items, allowed) == Collected(changes, allowed)
  {
    hide CheckChange, Collected;
    var m := Collected(changes, allowed);
    forall i | 0 <= i < |items|
      ensures CheckChange(items[i], allowed) == Ok(items[i].0)
    {
      CollectedAllowed(changes, allowed, items[i].0);
      assert items[i] == (items[i].0, m[items[i].0]);
    }
    ItemsCount(items, m);
    CollectedSize(changes, allowed);
    SomethingCollected(changes, allowed);
    forall p
      ensures p in Collected(items, allowed) <==> p in m
      ensures p in m ==> p in Collected(items, allowed) && Collected(items, allowed)[p] == m[p]
    {
      CollectedMeaning(items, allowed, p);
      if p in m {
        var i :| 0 <= i < |items| && items[i].0 == p;
        assert LastFor(items, allowed, i, p);
      }
    }
    assert Collected(items, allowed) == m;
  }

  lemma SomethingCollected(changes: Changes, allowed: set<string>)
    requires Acceptable(changes, allowed)
    ensures Collected(changes, allowed) != map[]
  {
    var n := |changes| - 1;
    var path := CheckChange(changes[n], allowed).value;
    CollectedMeaning(changes, allowed, path);
    assert LastFor(changes, allowed, n, path);
  }
}
