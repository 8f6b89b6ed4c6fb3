/** `_is_binary_niimg`: an image is binary when, after non-finite values
    are zeroed, its distinct values are exactly 0 and 1. */
module Binary {
  import opened Wrappers
  import opened ImageData

  predicate StrictlyIncreasing(u: seq<real>)
  {
    forall i, j :: 0 <= i < j < |u| ==> u[i] < u[j]
  }

  function Elems(s: seq<real>): set<real>
  {
    set x | x in s
  }

  /** Inserts `x` into a sorted, duplicate-free sequence. */
  function Insert(x: real, u: seq<real>): (r: seq<real>)
    requires StrictlyIncreasing(u)
    ensures StrictlyIncreasing(r)
    ensures Elems(r) == Elems(u) + {x}
  {
    if |u| == 0 then [x]
    else if x < u[0] then [x] + u
    else if x == u[0] then u
    else
      var rest := Insert(x, u[1..]);
      PrependSmallest(x, u, rest);
      [u[0]] + rest
  }

  /** Putting back the head of `u` in front of `x` inserted into its tail. */
  lemma PrependSmallest(x: real, u: seq<real>, rest: seq<real>)
    requires StrictlyIncreasing(u) && |u| > 0 && u[0] < x
    requires StrictlyIncreasing(rest) && Elems(rest) == Elems(u[1..]) + {x}
    ensures StrictlyIncreasing([u[0]] + rest)
    ensures Elems([u[0]] + rest) == Elems(u) + {x}
  {
    var r := [u[0]] + rest;
    assert u == [u[0]] + u[1..];
    assert Elems(u) == {u[0]} + Elems(u[1..]);
    assert Elems(r) == {u[0]} + Elems(rest);
    forall i, j | 0 <= i < j < |r|
      ensures r[i] < r[j]
    {
      assert r[j] == rest[j - 1] && r[j] in Elems(rest);
      if i > 0 {
        assert r[i] == rest[i - 1];
      }
    }
  }

  /** `np.unique`: the distinct values, in increasing order. */
  function Unique(s: seq<real>): (u: seq<real>)
    ensures StrictlyIncreasing(u)
    ensures Elems(u) == Elems(s)
  {
    if |s| == 0 then []
    else
      assert s == s[..|s| - 1] + [s[|s| - 1]];
      assert Elems(s) == Elems(s[..|s| - 1]) + {s[|s| - 1]};
      Insert(s[|s| - 1], Unique(s[..|s| - 1]))
  }

  /** The numbers of an all-finite array. */
  function Numbers(data: seq<Value>): (xs: seq<real>)
    requires AllFinite(data)
    ensures |xs| == |data|
    ensures forall i :: 0 <= i < |data| ==> Finite(xs[i]) == data[i]
  {
    seq(|data|, i requires 0 <= i < |data| => data[i].r)
  }

  /** The distinct values an image holds once non-finite values are zeroed. */
  function SanitisedValues(data: seq<Value>): set<real>
  {
    set i | 0 <= i < |data| :: Zeroed(data[i])
  }

  datatype BinaryCheck = BinaryCheck(isBinary: bool, img: Image)

  /** `_is_binary_niimg(img)` for an image already loaded (`load_niimg` with
      no dtype returns the image itself): sanitise through the image, then
      compare the sorted distinct values with [0, 1]. The image is returned
      as the sanitising left it. */
  function IsBinaryNiimg(img: Image): (b: BinaryCheck)
    // the check reads the caller's image in place: afterwards it holds the
    // sanitised data, and a binary image has at least two voxels
    ensures Current(b.img) == EnsureFinite(Current(img)).data
    ensures b.isBinary ==> |Current(img)| >= 2
  {
    var safe := SafeGetData(img, true, false);
    var unique := Unique(Numbers(safe.data));
    if |unique| != 2 then BinaryCheck(false, safe.img)
    else
      assert unique[0] in Elems(unique) && unique[1] in Elems(unique);
      TwoValuesNeedTwoEntries(Numbers(safe.data), unique[0], unique[1]);
      BinaryCheck(unique == [0.0, 1.0], safe.img)
  }

  lemma TwoValuesNeedTwoEntries(xs: seq<real>, a: real, b: real)
    requires a in xs && b in xs && a != b
    ensures |xs| >= 2
  {
  }

  lemma FirstThree(u: seq<real>)
    ensures StrictlyIncreasing(u) && |u| >= 3 ==> u[0] < u[1] && u[1] < u[2]
  {
  }

  /** A sorted, duplicate-free sequence holds exactly 0 and 1 iff it is [0, 1]. */
  lemma ZeroOneSorted(u: seq<real>)
    requires StrictlyIncreasing(u)
    ensures Elems(u) == {0.0, 1.0} <==> u == [0.0, 1.0]
  {
    FirstThree(u);
    if Elems(u) == {0.0, 1.0} {
      assert 0.0 in u && 1.0 in u;
      assert |u| >= 2;
      assert forall i :: 0 <= i < |u| ==> u[i] in Elems(u);
      assert u[0] in Elems(u) && u[1] in Elems(u);
    }
  }

  /** The values of the sanitised array are the original values with
      non-finite ones read as zero. */
  lemma NumbersAreSanitisedValues(img: Image)
    ensures var data := SafeGetData(img, true, false).data;
      Elems(Numbers(data)) == SanitisedValues(Current(img))
  {
    var data := SafeGetData(img, true, false).data;
    var xs := Numbers(data);
    var cur := Current(img);
    forall x | x in Elems(xs)
      ensures x in SanitisedValues(cur)
    {
      var i :| 0 <= i < |xs| && xs[i] == x;
      assert Zeroed(cur[i]) == x;
    }
    forall x | x in SanitisedValues(cur)
      ensures x in Elems(xs)
    {
      var i :| 0 <= i < |cur| && Zeroed(cur[i]) == x;
      assert xs[i] == x;
    }
  }

  /** An image is binary iff its distinct values, with non-finite values
      counted as 0, are exactly {0, 1}. */
  lemma {:induction false} IsBinaryIff(img: Image)
    ensures IsBinaryNiimg(img).isBinary <==> SanitisedValues(Current(img)) == {0.0, 1.0}
  {
    var data := SafeGetData(img, true, false).data;
    var unique := Unique(Numbers(data));
    NumbersAreSanitisedValues(img);
    ZeroOneSorted(unique);
  }

  /** An image whose sanitised values are all equal is never binary. */
  lemma ConstantNeverBinary(img: Image)
    requires forall i, j :: 0 <= i < |Current(img)| && 0 <= j < |Current(img)| ==>
      Zeroed(Current(img)[i]) == Zeroed(Current(img)[j])
    ensures !IsBinaryNiimg(img).isBinary
  {
    IsBinaryIff(img);
    var cur := Current(img);
    if SanitisedValues(cur) == {0.0, 1.0} {
      assert false;
    }
  }

  /** A NaN next to a 1 makes a binary image: the NaN is read as 0. */
  lemma NanAndOneIsBinary()
    ensures IsBinaryNiimg(Image([NonFinite, Finite(1.0)], false, None, 0)).isBinary
  {
    var img := Image([NonFinite, Finite(1.0)], false, None, 0);
    var cur := Current(img);
    assert cur == [NonFinite, Finite(1.0)];
    assert Zeroed(cur[0]) == 0.0 && Zeroed(cur[1]) == 1.0;
    forall x | x in SanitisedValues(cur)
      ensures x == 0.0 || x == 1.0
    {
      var i :| 0 <= i < |cur| && Zeroed(cur[i]) == x;
      assert i == 0 || i == 1;
    }
    assert SanitisedValues(cur) == {0.0, 1.0};
    IsBinaryIff(img);
  }

  /** `load_niimg` on an image reads its data once (for the dtype) before
      `_is_binary_niimg` sanitises it. That earlier read fills the same
      cache the sanitising read would fill, so the answer and the image
      left behind are as if the check had read the image itself. */
  lemma LoadingFirstChangesNothing(img: Image)
    ensures IsBinaryNiimg(GetData(img).img) == IsBinaryNiimg(img)
  {
  }
}
