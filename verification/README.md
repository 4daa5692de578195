# AssemblyScript array dispatch and string codec, in Dafny

This project models two small, pure marshaling components of a host-side codec for values that
live in the linear memory of an AssemblyScript guest. It also models the error type both of them return.

- **`Array<T>` version dispatch** (`src/asc/native_types/array/mod.rs`). The guest's array
  object has two binary layouts. One is used by API versions up to and including 0.0.4. The other
  is used by every later version. `Array<T>` is a tagged union over the two. `new` picks the layout
  from the heap's reported API version. `from_asc_bytes` picks it from the version passed in.
  `to_vec` and `to_asc_bytes` delegate to the layout that is present.
  Versions are `(major, minor, patch)` triples. They are ordered by precedence as in section 11
  of Semantic Versioning 2.0.0 (module `SemVer`).
  The two layouts are not part of this model. Their four operations are passed in as a record of
  functions (`AscArrays.Layout`), and each operation may fail. So every property of the dispatcher
  holds whatever the layouts do. The round trips hold whenever the layouts' own round trips hold.
- **Type-id table** (`src/asc/native_types/array/mod.rs:66-142`). This is the registry that gives
  each instantiation `Array<T>` the id the guest's garbage collector needs
  (`AscIndexIds.ArrayIndexAscTypeId`). It is a total function from a closed datatype of element
  types to a datatype of ids. It is proved injective. No element type maps to the Ethereum array
  id, because that entry is commented out in the source.
- **`AscString`, API version 0.0.5** (`src/asc/native_types/string/v0_0_5.rs`).
  - `new` refuses content whose size in bytes exceeds `u32::MAX`.
  - `to_asc_bytes` writes each UTF-16 code unit low byte first (the byte order of section 3.1 of
    RFC 2781). It then appends zero bytes until the content plus the 20-byte object header reaches
    the next power of two. The header itself is not emitted.
  - `from_asc_bytes` reads two-byte chunks and refuses a trailing unpaired byte.
  - `content_len` gives the content's size in bytes, padding excluded.
  - Surrogates are carried verbatim. The checks of section 2.2 of RFC 2781 are not made.
- **`AscError`** (`src/errors.rs:27-45`). This becomes the datatype `Errors.AscError`, and
  `Result<T, AscError>` becomes `Errors.Result<T>`. The `?` operator of the source is Dafny's `:-`.

`to_asc_bytes` and `from_asc_bytes` of the string build a `Vec` in a loop. They are methods with
loops (`AscStrings.ToAscBytes`, `AscStrings.FromAscBytes`), each proved equal to a specification
function (`AscBytes`, `Decode`), and the properties are proved about those functions. The rest is
pure and is modelled as functions and lemmas.

Integers are unbounded in Dafny. `u8`, `u16` and `u32` are subset types (module `Ints`), and the
byte split of a code unit (`as u8`, `>> 8`) is written as `% 256` and `/ 256`.

Two details of the string codec:
- The encoded string is `next_power_of_two(2n + 20) - 20` bytes long. The 20 header bytes are
  counted but not produced, so the empty string encodes to 12 zero bytes
  (`AscStrings.AscBytesPaddingExamples`).
- A trailing unpaired byte is reported as `Plain` with the decoder's message. An even-length
  input whose unit count is too large fails with `SizeNotFit`, coming from `new`.

The data model:
- `Errors.AscError` is `AscError` (`src/errors.rs:27-45`).
- `AscArrays.Array` is the two-variant `Array<T>` (`src/asc/native_types/array/mod.rs:22-25`). Its
  type parameters are the two layouts' own array types.
- `AscStrings.AscString` is `AscString` (`src/asc/native_types/string/v0_0_5.rs:8-15`). Its
  predicate `Valid()` is what `new` establishes: `byteLength` counts the code units, and their
  size in bytes fits a `u32`.

## Model

| member | source | states |
|---|---|---|
| `SemVer.Compare` | src/asc/native_types/array/mod.rs:30 | Version comparison says "equal" exactly when the two triples are equal. |
| `SemVer.LessOrEqualIsLexicographic` | src/asc/native_types/array/mod.rs:30 | `a <= b` holds exactly when (major, minor, patch) of `a` is lexicographically at most that of `b`. |
| `SemVer.LessOrEqualIsTotalOrder` | src/asc/native_types/array/mod.rs:55 | `<=` on versions is reflexive, antisymmetric, transitive and total. |
| `AscArrays.IsLegacyExactly` | src/asc/native_types/array/mod.rs:30 | The legacy rule `version <= 0.0.4` holds exactly for versions 0.0.0 through 0.0.4. |
| `AscArrays.DispatchExamples` | src/asc/native_types/array/mod.rs:29-34 | 0.0.3 and 0.0.4 select the legacy layout. 0.0.5, 0.1.0 and 1.0.0 select the current layout. |
| `AscArrays.New` | src/asc/native_types/array/mod.rs:28-35 | A built array's variant is the legacy one exactly when the heap's version is `<= 0.0.4`. The selected layout's error is returned unchanged and no variant is produced. The resulting heap is the one the layout left. |
| `AscArrays.ToVec` | src/asc/native_types/array/mod.rs:37-42 | The result is exactly what the present variant's own `to_vec` returns. No version is consulted. |
| `AscArrays.ToAscBytes` | src/asc/native_types/array/mod.rs:46-51 | The result is exactly what the present variant's own `to_asc_bytes` returns. |
| `AscArrays.FromAscBytes` | src/asc/native_types/array/mod.rs:53-63 | The `<= 0.0.4` rule is applied to the explicit version. The layout's error propagates unchanged. On success, the variant matches the version. |
| `AscArrays.NewAndFromAscBytesAgree` | src/asc/native_types/array/mod.rs:28-63 | For the same version, `new` and `from_asc_bytes` never yield different variants. |
| `AscArrays.NewThenToVec` | src/asc/native_types/array/mod.rs:28-42 | If both layouts return from `to_vec` what `new` was given, then so does the dispatcher. |
| `AscArrays.ToAscBytesThenFromAscBytes` | src/asc/native_types/array/mod.rs:46-63 | If both layouts decode their own bytes, the dispatcher decodes an array's bytes back to that array under any version that selects its layout. |
| `AscIndexIds.ArrayIndexAscTypeId` | src/asc/native_types/array/mod.rs:66-142 | Every registered element type has exactly one id. The table read backwards from that id gives back the element type. |
| `AscIndexIds.ArrayIndexAscTypeIdInjective` | src/asc/native_types/array/mod.rs:66-142 | No two element types share an id. |
| `AscIndexIds.EthereumValueNotRegistered` | src/asc/native_types/array/mod.rs:74-76 | No element type maps to the Ethereum value array id. |
| `AscIndexIds.RegisteredIdsAreUsed` | src/asc/native_types/array/mod.rs:66-142 | Every array id except the Ethereum one is the id of exactly one element type. |
| `AscStrings.New` | src/asc/native_types/string/v0_0_5.rs:18-27 | Fails, with `SizeNotFit`, exactly when `2 * len > u32::MAX`. Otherwise it stores the content verbatim with `byte_length == len` (a count of code units). |
| `AscStrings.NewSizeBoundary` | src/asc/native_types/string/v0_0_5.rs:19-21 | 2^31 - 1 code units are accepted and 2^31 are refused with `SizeNotFit`. |
| `AscStrings.NextPowerOfTwo` | src/asc/native_types/string/v0_0_5.rs:44 | The result is a power of two, is at least `n`, and its half is below `n` (or it is 1). |
| `AscStrings.NextPowerOfTwoIsLeast` | src/asc/native_types/string/v0_0_5.rs:44 | No power of two at or above `n` is smaller than `NextPowerOfTwo(n)`. |
| `AscStrings.ExtraCapacity` | src/asc/native_types/string/v0_0_5.rs:42-45 | The padding is even. It brings `2 * byte_length + 20` up to a power of two and is smaller than that total. |
| `AscStrings.ToAscBytes` | src/asc/native_types/string/v0_0_5.rs:31-49 | The loop's output is the little-endian encoding of the units followed by the padding (`AscBytes`). It never fails. |
| `AscStrings.AscBytesLayout` | src/asc/native_types/string/v0_0_5.rs:35-40 | Byte `2i` is `content[i] % 256` and byte `2i+1` is `content[i] / 256`. |
| `AscStrings.AscBytesPaddingIsZero` | src/asc/native_types/string/v0_0_5.rs:45-46 | Every byte at index `>= 2n` is zero. |
| `AscStrings.AscBytesLength` | src/asc/native_types/string/v0_0_5.rs:42-46 | The output length is `next_power_of_two(2n + 20) - 20`. Adding 20 gives a power of two. The padding is even and the length is at least `2n`. |
| `AscStrings.AscBytesLengthOnlyOnCount` | src/asc/native_types/string/v0_0_5.rs:42-46 | Strings with the same number of units encode to the same length, whatever the units are. |
| `AscStrings.AscBytesPaddingExamples` | src/asc/native_types/string/v0_0_5.rs:42-46 | The empty string encodes to 12 zero bytes. Ten units encode to 44 bytes. |
| `AscStrings.Decode` | src/asc/native_types/string/v0_0_5.rs:52-77 | Succeeds exactly when the length is even and at most `u32::MAX`. Fails with `Plain` exactly when the length is odd, and with `SizeNotFit` for every even length that fails. On success it holds `len/2` units, with unit `i == b[2i] + 256*b[2i+1]`, and the string is valid. |
| `AscStrings.FromAscBytes` | src/asc/native_types/string/v0_0_5.rs:52-77 | The chunk loop stops at an unpaired trailing byte before reading it, and its result is exactly `Decode`. The API version is not consulted. |
| `AscStrings.ContentLen` | src/asc/native_types/string/v0_0_5.rs:79-81 | For a valid string, returns the size in bytes of the encoded content (`2n`), whatever bytes it is given. |
| `AscStrings.ContentLenExcludesPadding` | src/asc/native_types/string/v0_0_5.rs:79-81 | `content_len` is at most the encoded length. The bytes before it are exactly the encoded content and every byte after it is zero padding. |
| `AscStrings.DecodeEncodeUnits` | src/asc/native_types/string/v0_0_5.rs:35-40 | Reading back little-endian bytes gives the original code units. |
| `AscStrings.EncodeDecodeUnits` | src/asc/native_types/string/v0_0_5.rs:64-75 | Re-encoding the units read from an even-length byte sequence gives those bytes back. |
| `AscStrings.RoundTrip` | src/asc/native_types/string/v0_0_5.rs:18-81 | For content within the size limit, decoding the first `content_len` bytes of the encoding returns exactly the string `new` built. |
| `AscStrings.DecodeWholeEncoding` | src/asc/native_types/string/v0_0_5.rs:31-77 | Decoding the whole padded encoding gives `new(content ++ zero units)`, because the padding is even. This succeeds exactly when the padded length fits a `u32`. |

## Left out

- The inner layouts `v0_0_4::Array` and `v0_0_5::Array` are not part of this model. Neither is the `AscHeap` trait's reading, writing and allocation. The layouts are a parameter, and the heap is a reported API version plus memory of an unspecified type.
- The numeric values of `IndexForAscTypeId` are not part of this model, and neither are its non-array ids. The ids are distinct constructors.
- `f32` and `f64` appear only as registry keys (`F32`, `F64`). Floating point is not modelled.
- Version ordering ignores semver pre-release and build metadata. The dispatch only ever compares `major.minor.patch` triples, and the three parts are unbounded naturals rather than `u64`.
- `From<AscError> for wasmer::RuntimeError` (`src/errors.rs:47-51`) is left out. It is a foreign call plus string formatting.
- `BigNumberErr`, `BigIntOutOfRangeError` and the feature-gated `MemoryAccessError` are kept only as the origin of one `Transparent` constructor. Their payloads come from other libraries.
- The display texts of the errors are left out. `Plain` carries the one message the string decoder uses.
- `usize` is taken to be 64 bits wide. `next_power_of_two` of `2n + 20` cannot overflow then, because `2n <= u32::MAX`. A narrower target is not modelled.
- `AscString` and `Array` are values. The source's ownership, borrowing and `Box` copies have no counterpart.
- `src/lib.rs` only wires modules together and re-exports them, so it is not part of this model.
