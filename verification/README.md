# nilearn niimg helpers, modelled in Dafny

This project models the small helpers in nilearn's `nilearn/_utils/niimg.py`. nilearn uses them to read neuro-imaging volumes, check them and print them:

- **Target data types.** `_get_target_dtype` decides whether image data must be cast, and to which numpy data type. A dtype is modelled as `DTypes.DType`: its numpy kind code, its name and whether it is in native byte order. The target is one of none, `"auto"` or an explicit dtype.
- **The data memo.** `_get_data` reads an image's data object once and caches the array on the image. `ImageData.Image` holds four things:
  - the data object, as a flat sequence of voxel values;
  - whether `np.asanyarray` hands back that same array;
  - the cache slot;
  - a count of reads of the data object.
- **Finite data.** `_safe_get_data` returns that data. Under `ensure_finite` it zeroes every NaN or infinity and warns. The zeroing is in place: without `copy_data` it lands in the caller's cached array. For an in-memory image it lands in the data object itself. The model keeps that side effect visible, in `ImageData.SafeGetData`.
- **The binary check.** `_is_binary_niimg` calls an image binary when its sanitised distinct values are exactly {0, 1}. `Binary.Unique` models `np.unique` as a strictly increasing sequence.
- **Short names.** `_short_repr` shortens a file path for display. `Paths.PosixPath` is a POSIX path held as an optional root plus its components, with `Parts`, `Name` and `Str` as pathlib defines them.
- **Collections.** `_repr_niimgs` prints a path, or a nested list of paths, through `_short_repr`. When shortening (the default), lists of more than three items are elided to their first and last item; otherwise every item is printed.

The modules follow the source's structure:

- `Wrappers`: `Option`.
- `Strings`: joining and substring facts.
- `DTypes`: `_get_target_dtype`.
- `ImageData`: `_get_data` and `_safe_get_data`.
- `Binary`: `_is_binary_niimg`.
- `Paths`: `_short_repr`.
- `Repr`: `_repr_niimgs`.

Where the docstrings and the code disagree, the model follows the code:

- The `_safe_get_data` docstring promises "no side effect on the image". The code writes the zeroed values into the cached array when `copy_data` is false, and so does `ImageData.SafeGetData`.
- The `_get_target_dtype` and `load_niimg` docstrings (lines 81-83 and 107-109) say `"auto"` converts discrete data to int32. The code (line 93) picks int32 only for the signed-integer kind `'i'`, so unsigned-integer and boolean data go to float32. `DTypes.AutoTarget` follows the code.
- The `_repr_niimgs` docstring says long file names are truncated at 20 characters. `_short_repr` returns up to `max(truncate, 10) + 4` characters: a name that fits is kept whole. A parent directory is prepended only while `len(rep) + len(p) < truncate - 3` (line 267), which keeps the result at most `truncate - 3` characters long, because the joining `/` is not counted. So only the `.../` prefix (line 270) can take the result beyond the limit. `Paths.ShortReprBounds` states this bound.

## Model

| member | source | states |
|---|---|---|
| DTypes.AutoTarget | nilearn/_utils/niimg.py:92-93 | `"auto"` picks int32 exactly when the dtype's kind code is `'i'`, and float32 exactly when it is not |
| DTypes.GetTargetDtype | nilearn/_utils/niimg.py:71-94 | no target gives no conversion. A returned dtype always differs from the input dtype. Under `"auto"`, no conversion happens exactly when the dtype already is the automatic choice, and a conversion goes to int32 for signed integers and to float32 otherwise. Data in the non-native byte order is always cast under `"auto"`. An explicit target gives no conversion exactly when it equals the dtype, and otherwise gives that target |
| DTypes.AutoCastsBigEndianFloat32 | nilearn/_utils/niimg.py:92-94 | a big-endian float32 dtype on a little-endian machine is cast to native float32 under `"auto"`, because numpy's dtype equality includes the byte order |
| DTypes.GetTargetDtypeIdempotent | nilearn/_utils/niimg.py:90-94 | after converting to the dtype asked for, asking again with the same target requests no further conversion |
| ImageData.GetData | nilearn/_utils/niimg.py:17-27 | returns the cached array if there is one, and otherwise the data object. Afterwards that array is cached. The data object and its aliasing are unchanged. The data object is read only when nothing was cached |
| ImageData.GetDataReadsOnce | nilearn/_utils/niimg.py:23-27 | any number (≥ 1) of `_get_data` calls on a fresh image reads the data object exactly once, caches it, and keeps returning it |
| ImageData.CachedIsStable | nilearn/_utils/niimg.py:23-24 | once something is cached, further `_get_data` calls leave the image exactly as it is |
| ImageData.ReplaceNonFinite | nilearn/_utils/niimg.py:60-66 | the masked assignment keeps the length, turns each non-finite voxel into 0, and leaves each finite voxel as it was |
| ImageData.CountNonFinite | nilearn/_utils/niimg.py:60-61 | the mask sum is at most the number of voxels, and is positive exactly when some voxel is non-finite |
| ImageData.EnsureFinite | nilearn/_utils/niimg.py:59-66 | the result has the same length and only finite values. Non-finite voxels become 0 and finite ones are kept. The warning is raised exactly when the input holds a non-finite value |
| ImageData.EnsureFiniteIdempotent | nilearn/_utils/niimg.py:59-66 | sanitising sanitised data changes nothing and does not warn |
| ImageData.SafeGetData | nilearn/_utils/niimg.py:30-68 | returns the image's current data: unchanged without `ensure_finite`, and with non-finite values zeroed under it. The warning is raised exactly when `ensure_finite` finds a non-finite value. `copy_data` leaves the caller's image as it was. Without `copy_data`, the returned array is the one cached on the caller's image. The data object then changes only for an in-memory image that had non-finite values: a proxy's data object is read into a new array and keeps its values. The aliasing flag is kept, and the data object is read once more exactly when nothing was cached |
| ImageData.SafeGetDataKeepsReadOnce | nilearn/_utils/niimg.py:51-58 | the invariant "the data object is read at most once, and an in-memory cache is the data object" is preserved |
| ImageData.SafeGetDataSanitisesCache | nilearn/_utils/niimg.py:51-66 | without `copy_data`, the caller's image afterwards reads back the returned (sanitised, all-finite) data. A warning means the image's visible data changed, and for an in-memory image so did its data object |
| Binary.Insert | nilearn/_utils/niimg.py:166 | inserting into a strictly increasing sequence keeps it strictly increasing and adds exactly the new value to its elements |
| Binary.Unique | nilearn/_utils/niimg.py:166 | `np.unique`: a strictly increasing sequence with exactly the input's values |
| Binary.IsBinaryNiimg | nilearn/_utils/niimg.py:149-169 | the check leaves the image holding its sanitised data. An image reported binary has at least two voxels |
| Binary.LoadingFirstChangesNothing | nilearn/_utils/niimg.py:129 | the `_get_data` read that `load_niimg` makes before the check changes neither the answer nor the image left behind |
| Binary.ZeroOneSorted | nilearn/_utils/niimg.py:167-169 | a strictly increasing sequence of reals has the values {0, 1} exactly when it is `[0, 1]`, which is what the length test plus the sorted comparison decide |
| Binary.NumbersAreSanitisedValues | nilearn/_utils/niimg.py:165-166 | the values `np.unique` sees are exactly the image's values with non-finite ones read as 0 |
| Binary.IsBinaryIff | nilearn/_utils/niimg.py:164-169 | an image is binary exactly when its values, with NaN and infinity read as 0, form the set {0, 1} |
| Binary.ConstantNeverBinary | nilearn/_utils/niimg.py:167-168 | an image whose sanitised voxels are all equal is never binary |
| Binary.NanAndOneIsBinary | nilearn/_utils/niimg.py:165-169 | the image [NaN, 1] is binary, because its NaN is zeroed before the test |
| Strings.Join | nilearn/_utils/niimg.py:224-234 | `sep.join(xs)`. Its properties are stated by `Repr.FullListIsJoin` and `Repr.ListShowsEveryItem` |
| Paths.PosixPath.Parts | nilearn/_utils/niimg.py:265-266 | `Path.parts`: the root `/` first when there is one, then the components |
| Paths.PosixPath.Name | nilearn/_utils/niimg.py:262-264 | `Path.name`: the last component, or `""` when there is none |
| Paths.PosixPath.Str | nilearn/_utils/niimg.py:260-261 | `str(Path)`: the components joined by `/`, after a leading `/` when rooted, and `.` for the empty path. `Paths.RenderIsStr` relates it to the walk's rendering |
| Paths.ShortRepr | nilearn/_utils/niimg.py:255-272 | `_short_repr` itself. Its properties are stated by `Paths.ShortReprBounds` and `Paths.ShortReprShape` |
| Paths.Reverse | nilearn/_utils/niimg.py:266 | `parts[::-1]`: same length, with index i holding the element at the mirrored position |
| Paths.PathJoin | nilearn/_utils/niimg.py:268-270 | `str(Path(p, rep))` ends with `rep` and is exactly as long as `p`, `rep` and one separator (none after the root `/`) |
| Paths.PathJoinPrefix | nilearn/_utils/niimg.py:268-270 | what `str(Path(p, rep))` puts before `rep` is exactly `p` followed by `/`, or just `/` when `p` is the root |
| Paths.Walk | nilearn/_utils/niimg.py:265-271 | the loop of `_short_repr` over the parent directories. Its properties are stated by `Paths.WalkKeepsName` and `Paths.WalkFrom` |
| Paths.WalkKeepsName | nilearn/_utils/niimg.py:265-271 | the walk keeps the name at the end. Its result is at most four characters longer than the larger of the name and `truncate - 3` |
| Paths.ShortReprBounds | nilearn/_utils/niimg.py:255-272 | with t = max(truncate, 10): without shortening the result is `str(path)`. A name longer than t gives its first t - 2 characters followed by `...`. Otherwise the result ends with the file name. Any shortened result is at most t + 4 characters long |
| Paths.StopIndexIsHighestMisfit | nilearn/_utils/niimg.py:266-271 | the walk stops at the innermost parent that does not fit, and every parent between it and the name fits |
| Paths.WalkFrom | nilearn/_utils/niimg.py:264-271 | walking outward from any level gives the parts below the first misfit, prefixed with `.../`, or the whole rendered path if every parent fits |
| Paths.ShortReprWalks | nilearn/_utils/niimg.py:264-272 | a short name on a path with parents is shortened by the walk from the file name outward |
| Paths.ShortReprShape | nilearn/_utils/niimg.py:255-272 | for a valid path whose name fits: a path of at most one part gives its name. Otherwise, with j the innermost parent for which `len(rep) + len(p) < truncate - 3` fails: the result is the whole path when there is no such parent, and otherwise `.../` followed by the parts below j. Every parent below j fits, so each was prepended |
| Repr.ReprNiimgs | nilearn/_utils/niimg.py:197-234 | `_repr_niimgs` for paths and lists. Its properties are stated by `Repr.FullListIsJoin`, `Repr.ShortenedListShowsEnds`, `Repr.ShortenedReprBounded` and `Repr.FullReprShowsEveryPath` |
| Repr.Shown | nilearn/_utils/niimg.py:225-233 | the items' reprs form a list as long as the collection |
| Repr.ShownAt | nilearn/_utils/niimg.py:230-233 | entry i of that list is the repr of item i, shortened the same way |
| Repr.FormatList | nilearn/_utils/niimg.py:223-234 | every collection repr is enclosed in brackets |
| Repr.ShortenedListShowsEnds | nilearn/_utils/niimg.py:223-227 | a shortened collection of more than three items prints as `[first,\n         ...\n last]` |
| Repr.ShortenedListIgnoresMiddle | nilearn/_utils/niimg.py:223-227 | two long collections with the same first and last items have the same shortened repr |
| Repr.FormatListBounded | nilearn/_utils/niimg.py:223-234 | for items of at most b ≥ 24 characters each, the shortened list repr is at most 3b + 6 characters long. Some lower bound on b is needed because the elided separator alone is 16 characters; 24 is the bound of a single shortened path |
| Repr.ShortenedReprBounded | nilearn/_utils/niimg.py:216-234 | the shortened repr of a nesting of depth d is bounded by a constant that depends only on d, however many paths it holds |
| Repr.FullListIsJoin | nilearn/_utils/niimg.py:228-234 | a collection printed in full is each item's own repr, in order, joined by `", "` for at most three items and by `",\n "` for more, between brackets |
| Repr.ListShowsEveryItem | nilearn/_utils/niimg.py:228-234 | a collection printed in full contains the repr of each of its items |
| Repr.FullReprShowsEveryPath | nilearn/_utils/niimg.py:216-234 | with `shorten=False`, the repr of any nesting contains `str(path)` for every path in it |

## Left out

- `load_niimg`, `copy_img` and `img_data_dtype`: file loading, casting and header handling through nibabel are outside this model. `_is_binary_niimg` takes an image that is already loaded. For such an image, `load_niimg` with no dtype returns the same object after one `_get_data` call (line 129). That call fills the data cache, and for a proxy image it reads the data object. The sanitising read at line 58 would fill the same cache, so the end state is the same. `Binary.LoadingFirstChangesNothing` states this.
- Deep copy: `copy.deepcopy` under `copy_data` is modelled only as "the caller's image is left as it was".
- Garbage collection: the `gc.collect()` call has no observable effect on the data.
- Warnings: the warning message is modelled as a boolean flag, not as a message.
- Voxel data: values are real numbers or a single non-finite marker, held as a flat sequence. NaN and the two infinities are not told apart, and shape, numpy storage types and floating-point rounding are not modelled.
- Casting: the cast to the chosen target dtype is not performed. `_get_target_dtype` only decides it.
- Dtype comparison: numpy's comparison of a dtype with a Python type object (`np.int32 == dtype`) is modelled as equality of kind, name and native byte order. Other dtype attributes are not modelled: structured fields, sub-array shapes, metadata, and the size of flexible types.
- Path parsing: paths arrive already split into components. pathlib's parsing and normalisation of a string, Windows paths, `stringify_path`, and the `repr()` of arbitrary objects are not modelled.
- `Paths.ShortReprShape` assumes components that are non-empty, contain no `/` and are not `.`. pathlib's own parsing guarantees that.
- Nibabel objects in `_repr_niimgs`: the branches for objects with `get_filename` (lines 236-250) and the `repr()` fallback (line 252) depend on nibabel image classes and are not modelled.
- Repr.ReprNiimgs: states nothing in its own contract. Its behaviour is stated by the `Repr` lemmas listed above: `Repr.FullListIsJoin` for lists printed in full, `Repr.ShortenedListShowsEnds` for shortened long lists, and `Paths.ShortReprBounds` for single paths.
- Paths.ShortRepr: states nothing in its own contract. Its behaviour is stated by `Paths.ShortReprBounds` and `Paths.ShortReprShape`.
