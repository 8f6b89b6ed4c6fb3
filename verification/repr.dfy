/** `_repr_niimgs`: the display string of a path or of a (nested) list of
    paths. */
module Repr {
  import opened Strings
  import opened Paths

  /** What can be displayed: a single path (a `str` or a `Path`), or a list
      of such things, possibly nested. */
  datatype Niimgs = Single(path: PosixPath) | Many(items: seq<Niimgs>)

  /** Lists longer than this are abbreviated when shortening. */
  const ListMaxDisplay: nat := 3

  /** `_short_repr`'s default limit, the one `_repr_niimgs` uses. */
  const DefaultTruncate: int := 20

  /** Separator between the first and last item of an abbreviated list. */
  const ElidedSep: string := ",\n         ...\n "

  /** Separator between the items of a long list printed in full. */
  const LongSep: string := ",\n "

  /** Separator between the items of a short list. */
  const ShortSep: string := ", "

  /** How a list is printed once each of its items has been: abbreviated
      to its first and last item when shortening and longer than three,
      otherwise every item, one per line when longer than three. */
  function FormatList(shown: seq<string>, shorten: bool): (r: string)
    ensures |r| >= 2 && r[0] == '[' && r[|r| - 1] == ']'
  {
    if shorten && |shown| > ListMaxDisplay then
      "[" + shown[0] + ElidedSep + shown[|shown| - 1] + "]"
    else if |shown| > ListMaxDisplay then "[" + Join(shown, LongSep) + "]"
    else "[" + Join(shown, ShortSep) + "]"
  }

  /** `_repr_niimgs(niimgs, shorten)` for strings, paths and lists. */
  function ReprNiimgs(n: Niimgs, shorten: bool): string
    decreases n
  {
    match n
    case Single(path) => ShortRepr(path, shorten, DefaultTruncate)
    case Many(items) => FormatList(Shown(items, shorten), shorten)
  }

  /** The items of a list, each printed with the same flag. */
  function Shown(items: seq<Niimgs>, shorten: bool): (shown: seq<string>)
    ensures |shown| == |items|
    decreases items
  {
    if |items| == 0 then []
    else [ReprNiimgs(items[0], shorten)] + Shown(items[1..], shorten)
  }

  /** Item `i` of a list is printed as `_repr_niimgs` prints it alone. */
  lemma {:induction false} ShownAt(items: seq<Niimgs>, shorten: bool, i: nat)
    requires i < |items|
    ensures Shown(items, shorten)[i] == ReprNiimgs(items[i], shorten)
    decreases i
  {
    if i > 0 {
      ShownAt(items[1..], shorten, i - 1);
    }
  }

  /** With shortening, a list of more than three items shows its first and
      last items only. */
  lemma ShortenedListShowsEnds(items: seq<Niimgs>)
    requires |items| > ListMaxDisplay
    ensures ReprNiimgs(Many(items), true)
         == "[" + ReprNiimgs(items[0], true) + ElidedSep + ReprNiimgs(items[|items| - 1], true) + "]"
  {
    var shown := Shown(items, true);
    assert ReprNiimgs(Many(items), true) == FormatList(shown, true);
    FormatListShortened(shown);
    ShownAt(items, true, 0);
    ShownAt(items, true, |items| - 1);
  }

  lemma FormatListShortened(shown: seq<string>)
    requires |shown| > ListMaxDisplay
    ensures FormatList(shown, true) == "[" + shown[0] + ElidedSep + shown[|shown| - 1] + "]"
  {
  }

  /** Hence lists that agree on their first and last items print the same
      when shortened, whatever lies between. */
  lemma ShortenedListIgnoresMiddle(a: seq<Niimgs>, b: seq<Niimgs>)
    requires |a| > ListMaxDisplay && |b| > ListMaxDisplay
    requires a[0] == b[0] && a[|a| - 1] == b[|b| - 1]
    ensures ReprNiimgs(Many(a), true) == ReprNiimgs(Many(b), true)
  {
    ShortenedListShowsEnds(a);
    ShortenedListShowsEnds(b);
  }

  /** Nesting depth of at most `d`: a path has depth 0, a list one more
      than its deepest item. */
  predicate DepthAtMost(n: Niimgs, d: nat)
    decreases n
  {
    match n
    case Single(_) => true
    case Many(items) => d > 0 && forall i :: 0 <= i < |items| ==> DepthAtMost(items[i], d - 1)
  }

  /** The longest shortened display of anything nested `d` deep: a path
      prints in at most 24 characters, and a list in at most three items'
      worth plus brackets and two ", " separators. */
  function Bound(d: nat): nat
  {
    if d == 0 then DefaultTruncate + 4 else 3 * Bound(d - 1) + 6
  }

  /** With shortening, the display length depends on the nesting depth
      only, never on how many paths a list holds. */
  lemma {:induction false} ShortenedReprBounded(n: Niimgs, d: nat)
    requires DepthAtMost(n, d)
    ensures |ReprNiimgs(n, true)| <= Bound(d)
    decreases n
  {
    match n
    case Single(path) =>
      ShortReprBounds(path, true, DefaultTruncate);
    case Many(items) =>
      var shown := Shown(items, true);
      forall i | 0 <= i < |shown|
        ensures |shown[i]| <= Bound(d - 1)
      {
        ShownAt(items, true, i);
        ShortenedReprBounded(items[i], d - 1);
      }
      BoundAtLeast(d - 1);
      FormatListBounded(shown, Bound(d - 1));
  }

  /** A shortened list whose items print in at most `b >= 24` characters
      prints in at most `3 * b + 6`. */
  lemma FormatListBounded(shown: seq<string>, b: nat)
    requires b >= 24
    requires forall i :: 0 <= i < |shown| ==> |shown[i]| <= b
    ensures |FormatList(shown, true)| <= 3 * b + 6
  {
    if |shown| > ListMaxDisplay {
      assert |FormatList(shown, true)| == 2 + |shown[0]| + |ElidedSep| + |shown[|shown| - 1]|;
    } else if |shown| > 0 {
      JoinLength(shown, ShortSep, b);
      assert |shown| * b <= 3 * b;
    }
  }

  lemma {:induction false} BoundAtLeast(d: nat)
    ensures Bound(d) >= 24
  {
    if d > 0 {
      BoundAtLeast(d - 1);
    }
  }

  /** `p` is one of the paths `n` displays, at any depth. */
  ghost predicate HoldsPath(n: Niimgs, p: PosixPath)
    decreases n
  {
    match n
    case Single(q) => q == p
    case Many(items) => exists i :: 0 <= i < |items| && HoldsPath(items[i], p)
  }

  /** A list printed in full (without shortening, or with at most three
      items) is every item's own display, in order, joined by ", " when
      there are at most three and by ",\n " when there are more. */
  lemma FullListIsJoin(items: seq<Niimgs>, shorten: bool)
    requires !(shorten && |items| > ListMaxDisplay)
    ensures ReprNiimgs(Many(items), shorten)
      == "[" + Join(seq(|items|, i requires 0 <= i < |items| => ReprNiimgs(items[i], shorten)),
                    if |items| > ListMaxDisplay then LongSep else ShortSep) + "]"
  {
    var each := seq(|items|, i requires 0 <= i < |items| => ReprNiimgs(items[i], shorten));
    forall i | 0 <= i < |items|
      ensures Shown(items, shorten)[i] == each[i]
    {
      ShownAt(items, shorten, i);
    }
    assert Shown(items, shorten) == each;
  }

  /** A list printed in full (without shortening, or with at most three
      items) shows every one of its items. */
  lemma ListShowsEveryItem(items: seq<Niimgs>, shorten: bool, i: nat)
    requires !(shorten && |items| > ListMaxDisplay)
    requires i < |items|
    ensures Contains(ReprNiimgs(Many(items), shorten), ReprNiimgs(items[i], shorten))
  {
    var shown := Shown(items, shorten);
    var sep := if |items| > ListMaxDisplay then LongSep else ShortSep;
    var body := Join(shown, sep);
    var r := ReprNiimgs(Many(items), shorten);
    assert r == "[" + (body + "]");
    ShownAt(items, shorten, i);
    JoinContains(shown, sep, i);
    ContainsConcat(body, "]");
    ContainsConcat("[", body + "]");
    ContainsTransitive(body + "]", body, shown[i]);
    ContainsTransitive(r, body + "]", shown[i]);
  }

  /** Without shortening nothing is lost: the display contains the full
      text of every path, at every depth, since the flag is passed down
      unchanged. */
  lemma {:induction false} FullReprShowsEveryPath(n: Niimgs, p: PosixPath)
    requires HoldsPath(n, p)
    ensures Contains(ReprNiimgs(n, false), p.Str())
    decreases n
  {
    match n
    case Single(q) =>
      ContainsSelf(p.Str());
    case Many(items) =>
      var i :| 0 <= i < |items| && HoldsPath(items[i], p);
      FullReprShowsEveryPath(items[i], p);
      ListShowsEveryItem(items, false, i);
      ContainsTransitive(ReprNiimgs(n, false), ReprNiimgs(items[i], false), p.Str());
  }
}
