/** Repair paths (`_normalize_relpath` in src/release_sentinel/remediation/service.py) and the
    part of `pathlib` they rely on. */
module Paths {
  import opened Wrappers

  datatype PathError = NotRelative | Unsafe

  /** `raw.replace("\\", "/")` */
  function Slashed(raw: string): (s: string)
    ensures |s| == |raw|
    ensures forall i :: 0 <= i < |s| ==> s[i] == if raw[i] == '\\' then '/' else raw[i]
  {
    seq(|raw|, i requires 0 <= i < |raw| => if raw[i] == '\\' then '/' else raw[i])
  }

  /** `s.split("/")` */
  function Split(s: string): (parts: seq<string>)
    ensures parts != []
  {
    if s == [] then [""]
    else
      var rest := Split(s[1..]);
      if s[0] == '/' then [""] + rest else [[s[0]] + rest[0]] + rest[1..]
  }

  /** `"/".join(parts)` */
  function JoinPath(parts: seq<string>): string {
    if parts == [] then ""
    else if |parts| == 1 then parts[0]
    else parts[0] + "/" + JoinPath(parts[1..])
  }

  /** `PurePosixPath` drops empty and "." components. */
  function Kept(components: seq<string>): seq<string> {
    if components == [] then []
    else if components[0] == "" || components[0] == "." then Kept(components[1..])
    else [components[0]] + Kept(components[1..])
  }

  function Parts(s: string): seq<string> {
    Kept(Split(s))
  }

  predicate IsAbsolute(s: string) {
    s != [] && s[0] == '/'
  }

  function NormalizeRelpath(raw: string): Result<string, PathError> {
    var candidate := Slashed(raw);
    var parts := Parts(candidate);
    if IsAbsolute(candidate) || parts == [] then Err(NotRelative)
    else if exists i :: 0 <= i < |parts| && parts[i] in {"", ".", ".."} then Err(Unsafe)
    else Ok(JoinPath(parts))
  }

  // ----- Components -----

  predicate PlainComponent(part: string) {
    part != "" && part != "." && part != ".." && '/' !in part && '\\' !in part
  }

  /** The components of a path that stays below the directory it is joined to. */
  predicate PlainParts(parts: seq<string>) {
    parts != [] && forall i :: 0 <= i < |parts| ==> PlainComponent(parts[i])
  }

  lemma {:induction false} SplitHasNoSlash(s: string)
    ensures forall i :: 0 <= i < |Split(s)| ==> '/' !in Split(s)[i]
    ensures '\\' !in s ==> forall i :: 0 <= i < |Split(s)| ==> '\\' !in Split(s)[i]
    ensures '\0' !in s ==> forall i :: 0 <= i < |Split(s)| ==> '\0' !in Split(s)[i]
  {
    if s == [] {
    } else {
      SplitHasNoSlash(s[1..]);
      var rest := Split(s[1..]);
      assert s == [s[0]] + s[1..];
      if s[0] != '/' {
        assert Split(s)[0] == [s[0]] + rest[0];
        forall i | 1 <= i < |Split(s)|
          ensures Split(s)[i] == rest[i]
        {
        }
      } else {
        forall i | 1 <= i < |Split(s)|
          ensures Split(s)[i] == rest[i - 1]
        {
        }
      }
    }
  }

  lemma {:induction false} KeptComponents(components: seq<string>)
    ensures forall part :: part in Kept(components) <==> part in components && part != "" && part != "."
  {
    if components == [] {
    } else {
      KeptComponents(components[1..]);
      assert components == [components[0]] + components[1..];
    }
  }

  lemma KeptHead(component: string, rest: seq<string>)
    ensures Kept([]) == []
    ensures Kept([component] + rest) == (if component in {"", "."} then [] else [component]) + Kept(rest)
  {
    assert ([component] + rest)[1..] == rest;
  }

  /** Everything but empty and "." components stays, in order and as often as it occurs. */
  lemma {:induction false} KeptConcat(a: seq<string>, b: seq<string>, component: string)
    ensures Kept(a + b) == Kept(a) + Kept(b)
    ensures Kept([component]) == if component in {"", "."} then [] else [component]
  {
    hide Kept;
    KeptHead(component, []);
    assert [component] + [] == [component];
    if a == [] {
      assert a + b == b;
    } else {
      KeptConcat(a[1..], b, component);
      KeptHead(a[0], a[1..]);
      KeptHead(a[0], a[1..] + b);
      assert a == [a[0]] + a[1..];
      assert a + b == [a[0]] + (a[1..] + b);
    }
  }

  lemma {:induction false} SplitPrefix(part: string, rest: string)
    requires '/' !in part
    ensures Split(part + "/" + rest) == [part] + Split(rest)
    ensures Split(part) == [part]
  {
    if part == [] {
      assert part + "/" + rest == "/" + rest;
      assert ("/" + rest)[1..] == rest;
    } else {
      var s := part + "/" + rest;
      assert part == [part[0]] + part[1..];
      assert s[1..] == part[1..] + "/" + rest;
      SplitPrefix(part[1..], rest);
    }
  }

  /** Joining and splitting are inverse on components without slashes. */
  lemma {:induction false} SplitJoin(parts: seq<string>)
    requires parts != [] && forall i :: 0 <= i < |parts| ==> '/' !in parts[i]
    ensures Split(JoinPath(parts)) == parts
  {
    if |parts| == 1 {
      SplitPrefix(parts[0], "");
    } else {
      SplitPrefix(parts[0], JoinPath(parts[1..]));
      SplitJoin(parts[1..]);
      assert parts == [parts[0]] + parts[1..];
    }
  }

  lemma {:induction false} JoinOfSplit(s: string)
    ensures JoinPath(Split(s)) == s
  {
    if s == [] {
    } else {
      JoinOfSplit(s[1..]);
      var rest := Split(s[1..]);
      if s[0] == '/' {
        assert JoinPath(Split(s)) == "" + "/" + JoinPath(rest);
      } else {
        assert |rest| == 1 ==> JoinPath(Split(s)) == [s[0]] + rest[0];
        assert |rest| > 1 ==> JoinPath(Split(s)) == [s[0]] + rest[0] + "/" + JoinPath(rest[1..]);
      }
    }
  }

  lemma {:induction false} KeptPlain(parts: seq<string>)
    requires forall i :: 0 <= i < |parts| ==> PlainComponent(parts[i])
    ensures Kept(parts) == parts
  {
    if parts == [] {
    } else {
      KeptPlain(parts[1..]);
    }
  }

  lemma {:induction false} JoinHas(parts: seq<string>, c: char)
    requires c != '/' && forall i :: 0 <= i < |parts| ==> c !in parts[i]
    ensures c !in JoinPath(parts)
  {
    if |parts| <= 1 {
    } else {
      JoinHas(parts[1..], c);
    }
  }

  lemma SlashedIdentity(s: string)
    requires '\\' !in s
    ensures Slashed(s) == s
  {
  }

  /** A path of plain components is its own normal form. */
  lemma PlainIsNormal(parts: seq<string>)
    requires PlainParts(parts)
    ensures NormalizeRelpath(JoinPath(parts)) == Ok(JoinPath(parts))
    ensures Split(JoinPath(parts)) == parts
  {
    var p := JoinPath(parts);
    JoinHas(parts, '\\');
    SlashedIdentity(p);
    SplitJoin(parts);
    KeptPlain(parts);
    assert parts[0] != "" && '/' !in parts[0];
    assert p[0] == parts[0][0];
    assert parts[0][0] in parts[0];
  }

  /** A raw path is accepted exactly when it does not begin with a slash of either kind, names
      something and has no ".." component. The normal form has plain components, and normalising
      it again changes nothing. */
  lemma NormalizeMeaning(raw: string)
    ensures var parts := Parts(Slashed(raw));
            var relative := raw == "" || raw[0] !in {'/', '\\'};
            && (NormalizeRelpath(raw).Ok? <==> relative && parts != [] && ".." !in parts)
            && (NormalizeRelpath(raw) == Err(Unsafe) <==> relative && ".." in parts)
            && (NormalizeRelpath(raw).Ok? ==>
                  && PlainParts(parts)
                  && Split(NormalizeRelpath(raw).value) == parts
                  && NormalizeRelpath(NormalizeRelpath(raw).value) == NormalizeRelpath(raw))
  {
    var candidate := Slashed(raw);
    var parts := Parts(candidate);
    KeptComponents(Split(candidate));
    SplitHasNoSlash(candidate);
    assert '\\' !in candidate;
    if ".." in parts {
      var i :| 0 <= i < |parts| && parts[i] == "..";
      assert parts[i] in {"", ".", ".."};
    } else {
      forall i | 0 <= i < |parts|
        ensures PlainComponent(parts[i])
      {
        assert parts[i] in Kept(Split(candidate));
        var j :| 0 <= j < |Split(candidate)| && Split(candidate)[j] == parts[i];
      }
    }
    if NormalizeRelpath(raw).Ok? {
      PlainIsNormal(parts);
    }
  }

  // ----- Resolving below a root -----

  /** `(root / rel).resolve()` without symlinks: "." stays, ".." goes up. */
  function Resolve(at: seq<string>, components: seq<string>): seq<string>
    decreases |components|
  {
    if components == [] then at
    else
      var c := components[0];
      Resolve(
        if c == "" || c == "." then at
        else if c == ".." then (if at == [] then [] else at[..|at| - 1])
        else at + [c],
        components[1..])
  }

  /** A component is undone by ".." after it, and the top has no parent. */
  lemma ResolveSteps(at: seq<string>, component: string)
    requires PlainComponent(component)
    ensures Resolve(at, [component, ".."]) == at
    ensures Resolve(at, [".", component]) == Resolve(at, ["", component]) == at + [component]
    ensures Resolve([], ["..", component]) == [component]
  {
    assert [component, ".."][1..] == [".."] && [".."][1..] == [];
    assert [".", component][1..] == ["", component][1..] == [component];
    assert [component][1..] == [] && ["..", component][1..] == [component];
    assert (at + [component])[..|at|] == at;
    assert Resolve(at, [component]) == at + [component];
    assert Resolve([], [component]) == [] + [component];
  }

  /** Plain components never leave the root. */
  lemma {:induction false} ResolvePlain(at: seq<string>, parts: seq<string>)
    requires forall i :: 0 <= i < |parts| ==> PlainComponent(parts[i])
    ensures Resolve(at, parts) == at + parts
    decreases |parts|
  {
    if parts == [] {
    } else {
      ResolvePlain(at + [parts[0]], parts[1..]);
      assert at + parts == at + [parts[0]] + parts[1..];
    }
  }
}
