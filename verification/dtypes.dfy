/** The dtype-conversion decision `_get_target_dtype`: given the dtype of an
    image's data and a requested target (none, "auto" or an explicit dtype),
    decide which dtype the data must be cast to, if any. */
module DTypes {
  import opened Wrappers

  /** numpy's one-character dtype kinds. */
  datatype Kind =
    | Bool          // 'b'
    | SignedInt     // 'i'
    | UnsignedInt   // 'u'
    | Float         // 'f'
    | Complex       // 'c'
    | TimeDelta     // 'm'
    | DateTime      // 'M'
    | Object        // 'O'
    | Bytes         // 'S'
    | Unicode       // 'U'
    | Void          // 'V'
  {
    /** The character numpy reports as `dtype.kind`. */
    function Code(): char
    {
      match this
      case Bool => 'b'
      case SignedInt => 'i'
      case UnsignedInt => 'u'
      case Float => 'f'
      case Complex => 'c'
      case TimeDelta => 'm'
      case DateTime => 'M'
      case Object => 'O'
      case Bytes => 'S'
      case Unicode => 'U'
      case Void => 'V'
    }
  }

  /** A numpy dtype: its kind, its name (`int32`, `float64`, ...) and
      whether its bytes are in the machine's native order. `>f4` on a
      little-endian machine is a non-native float32; one-byte dtypes have
      no byte order and count as native. Two dtypes compare equal exactly
      when all three parts agree, so `np.float32 == np.dtype('>f4')` is
      false on such a machine. */
  datatype DType = DType(kind: Kind, name: string, native: bool)

  /** `np.int32` and `np.float32`, which stand for native-order dtypes. */
  const Int32: DType := DType(SignedInt, "int32", true)
  const Float32: DType := DType(Float, "float32", true)

  /** The `target_dtype` argument: `None`, the string "auto", or a dtype. */
  datatype Target = NoTarget | Auto | Explicit(dtype: DType)

  /** The dtype "auto" stands for: int32 for signed-integer data, float32
      for every other kind. */
  function AutoTarget(dtype: DType): (t: DType)
    ensures t == Int32 <==> dtype.kind == SignedInt
    ensures t == Float32 <==> dtype.kind != SignedInt
  {
    if dtype.kind.Code() == 'i' then Int32 else Float32
  }

  /** `_get_target_dtype(dtype, target_dtype)`: `None` when no cast is
      needed, otherwise the dtype to cast to. */
  function GetTargetDtype(dtype: DType, target: Target): (r: Option<DType>)
    // no target, no conversion
    ensures target.NoTarget? ==> r.None?
    // never asks to cast to the dtype the data already has
    ensures r.Some? ==> r.value != dtype
    // "auto": int32 exactly for signed-integer data, float32 otherwise
    ensures target.Auto? ==>
      (r.None? <==> dtype == AutoTarget(dtype)) &&
      (r.Some? ==> (r.value == Int32 <==> dtype.kind == SignedInt)) &&
      (r.Some? ==> (r.value == Float32 <==> dtype.kind != SignedInt)) &&
      // data in the non-native byte order is always cast
      (!dtype.native ==> r.Some?)
    // explicit: a cast exactly when the dtypes differ, and to that dtype
    ensures target.Explicit? ==>
      (r.None? <==> target.dtype == dtype) &&
      (r.Some? ==> r.value == target.dtype)
  {
    if target.NoTarget? then None
    else
      var resolved := if target.Auto? then AutoTarget(dtype) else target.dtype;
      if resolved == dtype then None else Some(resolved)
  }

  /** The dtype the data ends up with: the cast target if one is needed,
      the original dtype otherwise. */
  function Converted(dtype: DType, target: Target): DType
  {
    GetTargetDtype(dtype, target).GetOr(dtype)
  }

  /** The decision is idempotent: once the data has the dtype the rule
      chose, asking again with the same target requests no further cast. */
  lemma GetTargetDtypeIdempotent(dtype: DType, target: Target)
    ensures GetTargetDtype(Converted(dtype, target), target) == None
  {
    var c := Converted(dtype, target);
    if target.Auto? && c != dtype {
      // the cast went to int32 or float32, each of which "auto" maps to itself
      assert c == AutoTarget(dtype);
      assert AutoTarget(c) == c;
    }
  }

  /** A float32 image stored big-endian on a little-endian machine is cast
      to native float32 under "auto", although kind and name already match. */
  lemma AutoCastsBigEndianFloat32()
    ensures GetTargetDtype(DType(Float, "float32", false), Auto) == Some(Float32)
  {
  }
}
