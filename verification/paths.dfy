/** `_short_repr`: abbreviate a file path for display.

    A path is given already split into its components, as `pathlib` would
    split it: an optional root followed by the names between separators. */
module Paths {
  import opened Strings

  /** A POSIX path: `rooted` when it starts at "/", then its components. */
  datatype PosixPath = PosixPath(rooted: bool, comps: seq<string>) {

    /** `Path.parts`: the root (as "/") first if there is one. */
    function Parts(): seq<string>
    {
      (if rooted then ["/"] else []) + comps
    }

    /** `Path.name`: the last component, "" when there is none. */
    function Name(): string
    {
      if |comps| == 0 then "" else comps[|comps| - 1]
    }

    /** `str(Path)`: components joined by "/", "." for the empty path. */
    function Str(): string
    {
      if rooted then "/" + Join(comps, "/")
      else if |comps| == 0 then "."
      else Join(comps, "/")
    }

    /** The form `pathlib` produces: no empty component, none holding a
        separator, none equal to ".". */
    predicate Valid()
    {
      forall i :: 0 <= i < |comps| ==> ValidComponent(comps[i])
    }
  }

  predicate ValidComponent(c: string)
  {
    c != "" && c != "." && '/' !in c
  }

  function Max(a: int, b: int): int
  {
    if a < b then b else a
  }

  function Reverse(s: seq<string>): (r: seq<string>)
    ensures |r| == |s|
    ensures forall i :: 0 <= i < |s| ==> r[i] == s[|s| - 1 - i]
  {
    if |s| == 0 then [] else Reverse(s[1..]) + [s[0]]
  }

  /** `str(Path(p, rep))` for a single component `p`. */
  function PathJoin(p: string, rep: string): (r: string)
    ensures EndsWith(r, rep)
    ensures |r| == |p| + |rep| + (if p == "/" then 0 else 1)
  {
    if p == "/" then "/" + rep else p + "/" + rep
  }

  /** What `str(Path(p, rep))` puts before `rep`: `p` and one separator,
      none after the root. */
  lemma PathJoinPrefix(p: string, rep: string)
    ensures var r := PathJoin(p, rep);
      r[..|r| - |rep|] == (if p == "/" then "/" else p + "/")
  {
    var r := PathJoin(p, rep);
    var prefix := if p == "/" then "/" else p + "/";
    assert r == prefix + rep;
  }

  /** The text of a run of path parts, as `str(Path(*parts))` prints it. */
  function Render(parts: seq<string>): string
  {
    if |parts| > 0 && parts[0] == "/" then "/" + Join(parts[1..], "/")
    else Join(parts, "/")
  }

  /** The loop of `_short_repr`: prepend the parents (innermost first) while
      the length test passes; the first one that fails is replaced by "..."
      and ends the walk. */
  function Walk(rep: string, parents: seq<string>, truncate: int): string
    decreases |parents|
  {
    if |parents| == 0 then rep
    else if |rep| + |parents[0]| < truncate - 3 then
      Walk(PathJoin(parents[0], rep), parents[1..], truncate)
    else PathJoin("...", rep)
  }

  /** The walk keeps what it started from at the end, and grows it past
      the larger of its own length and the limit by at most ".../". */
  lemma {:induction false} WalkKeepsName(rep: string, parents: seq<string>, truncate: int)
    ensures var r := Walk(rep, parents, truncate);
      && EndsWith(r, rep)
      && |r| <= Max(|rep|, truncate - 3) + 4
    decreases |parents|
  {
    if |parents| > 0 && |rep| + |parents[0]| < truncate - 3 {
      var next := PathJoin(parents[0], rep);
      WalkKeepsName(next, parents[1..], truncate);
      EndsWithTransitive(Walk(next, parents[1..], truncate), next, rep);
    }
  }

  lemma EndsWithTransitive(a: string, b: string, c: string)
    requires EndsWith(a, b) && EndsWith(b, c)
    ensures EndsWith(a, c)
  {
    assert a[|a| - |c|..] == a[|a| - |b|..][|b| - |c|..];
  }

  /** `_short_repr(path, shorten, truncate)`. */
  function ShortRepr(path: PosixPath, shorten: bool, truncate: int): string
  {
    var t := Max(truncate, 10);
    var parts := path.Parts();
    var name := path.Name();
    if !shorten then path.Str()
    else if |name| > t then name[..t - 2] + "..."
    else if |parts| > 1 then Walk(name, Reverse(parts)[1..], t)
    else name
  }

  /** What `_short_repr` promises about its result. */
  lemma ShortReprBounds(path: PosixPath, shorten: bool, truncate: int)
    ensures var r := ShortRepr(path, shorten, truncate);
      var t := Max(truncate, 10);
      // without shortening, the path is printed in full
      && (!shorten ==> r == path.Str())
      // a name longer than the effective limit is cut to limit - 2
      // characters followed by "..."
      && (shorten && |path.Name()| > t ==>
            |r| == t + 1 && r[..t - 2] == path.Name()[..t - 2] && r[t - 2..] == "...")
      // otherwise the result ends with the file name
      && (shorten && |path.Name()| <= t ==> EndsWith(r, path.Name()))
      // and never exceeds the effective limit by more than ".../"
      && (shorten ==> |r| <= t + 4)
  {
    var parts := path.Parts();
    if shorten && |path.Name()| <= Max(truncate, 10) && |parts| > 1 {
      WalkKeepsName(path.Name(), Reverse(parts)[1..], Max(truncate, 10));
    }
  }

  /** Component `j` of `parts` passes the length test when the parts after
      it have been rendered. */
  predicate Fits(parts: seq<string>, j: nat, truncate: int)
    requires j < |parts|
  {
    |Render(parts[j + 1..])| + |parts[j]| < truncate - 3
  }

  /** The parts of a valid path: a root only in front, every other part a
      valid component. */
  predicate WellFormedParts(parts: seq<string>)
  {
    forall i :: 0 <= i < |parts| ==> (parts[i] == "/" && i == 0) || ValidComponent(parts[i])
  }

  lemma ValidParts(path: PosixPath)
    requires path.Valid()
    ensures WellFormedParts(path.Parts())
  {
    var parts := path.Parts();
    var off := if path.rooted then 1 else 0;
    forall i | 0 <= i < |parts|
      ensures (parts[i] == "/" && i == 0) || ValidComponent(parts[i])
    {
      if i >= off {
        assert parts[i] == path.comps[i - off];
      }
    }
  }

  /** Prepending a part to a rendered run of later parts renders the longer
      run. */
  lemma RenderPrepend(parts: seq<string>, i: nat)
    requires WellFormedParts(parts)
    requires 1 <= i < |parts|
    ensures Render(parts[i - 1..]) == PathJoin(parts[i - 1], Render(parts[i..]))
  {
    assert ValidComponent(parts[i]);
    assert parts[i - 1..][1..] == parts[i..];
    if parts[i - 1] != "/" {
      assert ValidComponent(parts[i - 1]);
    }
  }

  /** Which parts pass the length test. */
  function FitFlags(parts: seq<string>, truncate: int): (ok: seq<bool>)
    ensures |ok| == |parts|
    ensures forall k :: 0 <= k < |parts| ==> ok[k] == Fits(parts, k, truncate)
  {
    seq(|parts|, k requires 0 <= k < |parts| => Fits(parts, k, truncate))
  }

  /** Where a walk down from position `i` stops: the highest position
      below `i` whose flag is false, or -1 when there is none. */
  function StopIndex(ok: seq<bool>, i: nat): (j: int)
    requires i <= |ok|
    ensures -1 <= j < i
    decreases i
  {
    if i == 0 then -1
    else if !ok[i - 1] then i - 1
    else StopIndex(ok, i - 1)
  }

  /** `StopIndex` is the highest false flag: its flag is false, and every
      flag above it is true. */
  lemma {:induction false} StopIndexIsHighestMisfit(ok: seq<bool>, i: nat)
    requires i <= |ok|
    ensures var j := StopIndex(ok, i);
      && (j >= 0 ==> !ok[j])
      && forall k :: j < k < i ==> ok[k]
    decreases i
  {
    if i > 0 && ok[i - 1] {
      StopIndexIsHighestMisfit(ok, i - 1);
    }
  }

  /** What the walk prints when it stops at part `j` (-1: never). */
  function Outcome(parts: seq<string>, j: int): string
    requires -1 <= j < |parts|
  {
    if j < 0 then Render(parts) else ".../" + Render(parts[j + 1..])
  }

  lemma ReverseStep(parts: seq<string>, i: nat)
    requires 1 <= i <= |parts|
    ensures Reverse(parts[..i])[0] == parts[i - 1]
    ensures Reverse(parts[..i])[1..] == Reverse(parts[..i - 1])
  {
    var a := Reverse(parts[..i]);
    var b := Reverse(parts[..i - 1]);
    assert forall k :: 0 <= k < |b| ==> a[1..][k] == b[k];
  }

  /** One step of the walk below part `i`, in terms of rendered runs. */
  lemma WalkStep(parts: seq<string>, i: nat, truncate: int)
    requires WellFormedParts(parts)
    requires 1 <= i <= |parts| - 1
    ensures var r := Walk(Render(parts[i..]), Reverse(parts[..i]), truncate);
      if Fits(parts, i - 1, truncate)
      then r == Walk(Render(parts[i - 1..]), Reverse(parts[..i - 1]), truncate)
      else r == ".../" + Render(parts[i..])
  {
    ReverseStep(parts, i);
    if Fits(parts, i - 1, truncate) {
      RenderPrepend(parts, i);
    }
  }

  /** Walking from part `i` down prints the outcome of stopping at
      `StopIndex`: `w`, the text the walk produces, is that outcome. */
  lemma {:induction false} WalkFrom(parts: seq<string>, i: nat, truncate: int, w: string)
    requires WellFormedParts(parts)
    requires 1 <= i <= |parts| - 1
    requires w == Walk(Render(parts[i..]), Reverse(parts[..i]), truncate)
    ensures w == Outcome(parts, StopIndex(FitFlags(parts, truncate), i))
    decreases i
  {
    if !FitFlags(parts, truncate)[i - 1] {
      WalkStops(parts, i, truncate, w);
    } else if i == 1 {
      WalkPastFirst(parts, truncate, w);
    } else {
      WalkContinues(parts, i, truncate);
      WalkFrom(parts, i - 1, truncate, w);
    }
  }

  /** A walk past a fitting first part prints the whole run. */
  lemma WalkPastFirst(parts: seq<string>, truncate: int, w: string)
    requires WellFormedParts(parts)
    requires 2 <= |parts|
    requires FitFlags(parts, truncate)[0]
    requires w == Walk(Render(parts[1..]), Reverse(parts[..1]), truncate)
    ensures w == Outcome(parts, StopIndex(FitFlags(parts, truncate), 1))
  {
    WalkStep(parts, 1, truncate);
    StopIndexStep(FitFlags(parts, truncate), 1);
    WalkDone(parts, truncate);
  }

  /** A walk that meets a misfit at `i - 1` stops there. */
  lemma WalkStops(parts: seq<string>, i: nat, truncate: int, w: string)
    requires WellFormedParts(parts)
    requires 1 <= i <= |parts| - 1
    requires !FitFlags(parts, truncate)[i - 1]
    requires w == Walk(Render(parts[i..]), Reverse(parts[..i]), truncate)
    ensures w == Outcome(parts, StopIndex(FitFlags(parts, truncate), i))
  {
    assert !Fits(parts, i - 1, truncate);
    WalkStep(parts, i, truncate);
    StopIndexStep(FitFlags(parts, truncate), i);
    assert w == ".../" + Render(parts[i..]);
  }

  /** Past a fitting part `i - 1` the walk goes on from `i - 1`, and so
      does the search for the stopping point. */
  lemma WalkContinues(parts: seq<string>, i: nat, truncate: int)
    requires WellFormedParts(parts)
    requires 2 <= i <= |parts| - 1
    requires FitFlags(parts, truncate)[i - 1]
    ensures Walk(Render(parts[i..]), Reverse(parts[..i]), truncate)
      == Walk(Render(parts[i - 1..]), Reverse(parts[..i - 1]), truncate)
    ensures StopIndex(FitFlags(parts, truncate), i) == StopIndex(FitFlags(parts, truncate), i - 1)
  {
    WalkStep(parts, i, truncate);
    StopIndexStep(FitFlags(parts, truncate), i);
  }

  /** One step of `StopIndex` down from `i`. */
  lemma StopIndexStep(ok: seq<bool>, i: nat)
    requires 1 <= i <= |ok|
    ensures StopIndex(ok, i) == if ok[i - 1] then StopIndex(ok, i - 1) else i - 1
  {
  }

  /** A walk with every parent prepended prints the whole run. */
  lemma WalkDone(parts: seq<string>, truncate: int)
    ensures Walk(Render(parts[0..]), Reverse(parts[..0]), truncate) == Outcome(parts, -1)
  {
    assert parts[0..] == parts;
    assert Reverse(parts[..0]) == [];
  }

  /** For a path with parents and a name within the limit, `_short_repr`
      prints the outcome of the walk over its parts. */
  lemma ShortReprWalks(path: PosixPath, truncate: int)
    requires path.Valid()
    requires |path.Name()| <= Max(truncate, 10) && |path.Parts()| > 1
    ensures var parts := path.Parts();
      ShortRepr(path, true, truncate) == Outcome(parts, StopIndex(FitFlags(parts, Max(truncate, 10)), |parts| - 1))
  {
    var t := Max(truncate, 10);
    var parts := path.Parts();
    var n := |parts|;
    ValidParts(path);
    assert path.Name() == parts[n - 1];
    assert ValidComponent(parts[n - 1]);
    assert Render(parts[n - 1..]) == path.Name();
    assert Reverse(parts)[1..] == Reverse(parts[..n - 1]);
    WalkFrom(parts, n - 1, t, Walk(Render(parts[n - 1..]), Reverse(parts[..n - 1]), t));
  }

  /** The shape of an abbreviated path whose name is within the limit.
      A path with no parent prints its name. For a path with parents, the
      walk stops at `j`, the innermost parent that fails the length test
      (every parent inside it passes): with no such parent the whole path
      is printed, otherwise ".../" followed by the parts after `j`. */
  lemma ShortReprShape(path: PosixPath, truncate: int)
    requires path.Valid()
    requires |path.Name()| <= Max(truncate, 10)
    ensures var r := ShortRepr(path, true, truncate);
      var parts := path.Parts();
      var ok := FitFlags(parts, Max(truncate, 10));
      && (|parts| <= 1 ==> r == path.Name())
      && (|parts| > 1 ==>
            var j := StopIndex(ok, |parts| - 1);
            && r == (if j < 0 then path.Str() else ".../" + Render(parts[j + 1..]))
            && (j >= 0 ==> !ok[j])
            && (forall k :: j < k < |parts| - 1 ==> ok[k]))
  {
    var t := Max(truncate, 10);
    var parts := path.Parts();
    if |parts| > 1 {
      var ok := FitFlags(parts, t);
      var j := StopIndex(ok, |parts| - 1);
      ShortReprWalks(path, truncate);
      assert ShortRepr(path, true, truncate) == Outcome(parts, j);
      StopIndexIsHighestMisfit(ok, |parts| - 1);
      if j < 0 {
        RenderIsStr(path);
      }
    }
  }

  lemma RenderIsStr(path: PosixPath)
    requires path.Valid() && |path.comps| > 0
    ensures Render(path.Parts()) == path.Str()
  {
    if path.rooted {
      assert path.Parts()[1..] == path.comps;
    } else {
      assert path.Parts() == path.comps;
      assert ValidComponent(path.comps[0]);
    }
  }
}
