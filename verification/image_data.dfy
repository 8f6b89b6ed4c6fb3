/** Reading an image's voxel data: the one-slot memo of `_get_data` and the
    finite-sanitising `_safe_get_data`.

    An image is modelled as a value; every operation returns the image as it
    is afterwards, so the cache writes of the source stay visible. */
module ImageData {
  import opened Wrappers

  /** One voxel value: a finite number, or NaN / +inf / -inf. */
  datatype Value = Finite(r: real) | NonFinite

  /** A nibabel image as far as data access goes.
      - `dataobj`: the values held by the image's data object;
      - `inMemory`: the data object is itself a numpy array, so
        `np.asanyarray` hands back that very array (for an on-disk proxy it
        builds a fresh one);
      - `cache`: the `_data_cache` slot (`None` until the first read);
      - `readCount`: how many times the data object has been read. */
  datatype Image = Image(dataobj: seq<Value>, inMemory: bool, cache: Option<seq<Value>>, readCount: nat)

  /** The array a data read returns right now. */
  function Current(img: Image): seq<Value>
  {
    img.cache.GetOr(img.dataobj)
  }

  /** Images straight from construction: nothing cached, nothing read. */
  predicate Fresh(img: Image)
  {
    img.cache.None? && img.readCount == 0
  }

  /** The memo's invariant: the data object has been read exactly once if
      something is cached and never otherwise; when the data object is an
      in-memory array, the cache is that same array. */
  predicate ReadOnce(img: Image)
  {
    && img.readCount == (if img.cache.Some? then 1 else 0)
    && (img.inMemory && img.cache.Some? ==> img.cache.value == img.dataobj)
  }

  datatype Fetched = Fetched(data: seq<Value>, img: Image)

  /** `_get_data(img)`: return the cached array, or read the data object
      once and cache what was read. */
  function GetData(img: Image): (f: Fetched)
    ensures f.data == Current(img)
    ensures f.img.cache == Some(f.data)
    ensures f.img.dataobj == img.dataobj && f.img.inMemory == img.inMemory
    ensures f.img.readCount == img.readCount + (if img.cache.None? then 1 else 0)
  {
    if img.cache.Some? then Fetched(img.cache.value, img)
    else
      var data := img.dataobj;
      Fetched(data, img.(cache := Some(data), readCount := img.readCount + 1))
  }

  /** `k` consecutive calls of `_get_data` on the same image. */
  function FetchTimes(img: Image, k: nat): Image
    decreases k
  {
    if k == 0 then img else FetchTimes(GetData(img).img, k - 1)
  }

  /** Memoisation: however many times the data of a fresh image is asked
      for, the data object is read once, and every call after the first
      returns the cached array, which is the data object's content. */
  lemma {:induction false} GetDataReadsOnce(img: Image, k: nat)
    requires Fresh(img) && k >= 1
    ensures FetchTimes(img, k).readCount == 1
    ensures FetchTimes(img, k).cache == Some(img.dataobj)
    ensures GetData(FetchTimes(img, k)).data == img.dataobj
  {
    var once := GetData(img).img;
    assert once.readCount == 1 && once.cache == Some(img.dataobj);
    CachedIsStable(once, k - 1);
  }

  /** Once something is cached, further calls change nothing. */
  lemma {:induction false} CachedIsStable(img: Image, k: nat)
    requires img.cache.Some?
    ensures FetchTimes(img, k) == img
    decreases k
  {
    if k > 0 {
      assert GetData(img).img == img;
      CachedIsStable(img, k - 1);
    }
  }

  /** The sanitised copy of a value: non-finite values become zero. */
  function Zeroed(v: Value): real
  {
    match v
    case Finite(x) => x
    case NonFinite => 0.0
  }

  predicate AllFinite(data: seq<Value>)
  {
    forall i :: 0 <= i < |data| ==> data[i].Finite?
  }

  /** `data[~np.isfinite(data)] = 0`. */
  function ReplaceNonFinite(data: seq<Value>): (r: seq<Value>)
    ensures |r| == |data|
    ensures forall i :: 0 <= i < |data| && data[i].NonFinite? ==> r[i] == Finite(0.0)
    ensures forall i :: 0 <= i < |data| && data[i].Finite? ==> r[i] == data[i]
  {
    if |data| == 0 then []
    else
      var head := if data[0].Finite? then data[0] else Finite(0.0);
      [head] + ReplaceNonFinite(data[1..])
  }

  /** `np.logical_not(np.isfinite(data)).sum()`. */
  function CountNonFinite(data: seq<Value>): (n: nat)
    ensures n <= |data|
    ensures n > 0 <==> exists i :: 0 <= i < |data| && data[i].NonFinite?
  {
    if |data| == 0 then 0
    else
      var rest := CountNonFinite(data[1..]);
      assert forall i :: 1 <= i < |data| ==> data[i] == data[1..][i - 1];
      (if data[0].NonFinite? then 1 else 0) + rest
  }

  /** The sanitised array and whether the warning was raised. */
  datatype Sanitised = Sanitised(data: seq<Value>, warned: bool)

  /** The `ensure_finite` branch of `_safe_get_data`: warn and zero the
      non-finite entries if there are any. */
  function EnsureFinite(data: seq<Value>): (s: Sanitised)
    ensures |s.data| == |data|
    ensures AllFinite(s.data)
    ensures forall i :: 0 <= i < |data| && data[i].NonFinite? ==> s.data[i] == Finite(0.0)
    ensures forall i :: 0 <= i < |data| && data[i].Finite? ==> s.data[i] == data[i]
    ensures s.warned <==> exists i :: 0 <= i < |data| && data[i].NonFinite?
  {
    if CountNonFinite(data) > 0 then Sanitised(ReplaceNonFinite(data), true)
    else Sanitised(data, false)
  }

  /** Sanitising is idempotent: a second pass finds nothing to warn about
      and changes nothing. */
  lemma EnsureFiniteIdempotent(data: seq<Value>)
    ensures EnsureFinite(EnsureFinite(data).data) == Sanitised(EnsureFinite(data).data, false)
  {
  }

  /** What `_safe_get_data` returns, with the image as it is afterwards. */
  datatype SafeData = SafeData(data: seq<Value>, warned: bool, img: Image)

  /** `_safe_get_data(img, ensure_finite, copy_data)`.

      With `copy_data` the reading and zeroing happen on a deep copy, so the
      caller's image is untouched. Without it the data is read through the
      caller's image, which caches it, and the zeroing writes into that
      cached array (and into the data object when it is that same array). */
  function SafeGetData(img: Image, ensureFinite: bool, copyData: bool): (res: SafeData)
    // the values returned: the image's data, with non-finite values zeroed
    // when asked to
    ensures |res.data| == |Current(img)|
    ensures !ensureFinite ==> res.data == Current(img)
    ensures ensureFinite ==> AllFinite(res.data)
    ensures forall i :: 0 <= i < |res.data| && Current(img)[i].Finite? ==> res.data[i] == Current(img)[i]
    ensures ensureFinite ==>
      forall i :: 0 <= i < |res.data| && Current(img)[i].NonFinite? ==> res.data[i] == Finite(0.0)
    // a warning exactly when sanitising found a non-finite value
    ensures res.warned <==> ensureFinite && exists i :: 0 <= i < |Current(img)| && Current(img)[i].NonFinite?
    // copy_data leaves the caller's image exactly as it was
    ensures copyData ==> res.img == img
    // otherwise the returned array is the caller's cached array
    ensures !copyData ==> res.img.cache == Some(res.data)
    // the zeroing reaches the data object only when it is the cached array
    // itself (an in-memory array); a proxy's data object is read into a new
    // array and keeps its values
    ensures !copyData ==>
      res.img.dataobj == (if img.inMemory && res.warned then res.data else img.dataobj)
    ensures !copyData ==> res.img.inMemory == img.inMemory
    // the data object is read once more exactly when nothing was cached
    ensures !copyData ==> res.img.readCount == img.readCount + (if img.cache.None? then 1 else 0)
  {
    var fetched := GetData(img);
    var s := if ensureFinite then EnsureFinite(fetched.data) else Sanitised(fetched.data, false);
    if copyData then SafeData(s.data, s.warned, img)
    else if s.warned then
      // the in-place write lands in the cached array
      var written := fetched.img.(cache := Some(s.data));
      SafeData(s.data, true, if img.inMemory then written.(dataobj := s.data) else written)
    else SafeData(s.data, false, fetched.img)
  }

  /** `_safe_get_data` keeps the memo invariant: the data object is read at
      most once over the life of the image. */
  lemma SafeGetDataKeepsReadOnce(img: Image, ensureFinite: bool, copyData: bool)
    requires ReadOnce(img)
    ensures ReadOnce(SafeGetData(img, ensureFinite, copyData).img)
  {
  }

  /** Despite being documented as free of side effects, `_safe_get_data`
      without `copy_data` leaves the zeroed array in the image's cache, so
      every later read of the image sees zeros where the non-finite values
      were. With an in-memory data object the data object changes too. */
  lemma SafeGetDataSanitisesCache(img: Image)
    ensures var res := SafeGetData(img, true, false);
      && Current(res.img) == res.data
      && AllFinite(Current(res.img))
      && (img.inMemory && res.warned ==> res.img.dataobj == res.data)
      && (res.warned ==> Current(res.img) != Current(img))
  {
    var res := SafeGetData(img, true, false);
    if res.warned {
      var i :| 0 <= i < |Current(img)| && Current(img)[i].NonFinite?;
      assert res.data[i] != Current(img)[i];
    }
  }
}
