/**
 * The type ids (`IndexForAscTypeId`) that the guest's garbage collector needs
 * on a freshly placed `Array<T>`, one per element type `T` that arrays are
 * instantiated with. Only the array ids are modelled, and as distinct
 * constructors rather than numbers.
 */
module AscIndexIds {

  /** The element types `T` for which `Array<T>` has an id. */
  datatype ElementType =
    | Bool
    | Uint8Array
    | StoreValue                       // AscPtr<AscEnum<StoreValueKind>>
    | JsonValue                        // AscPtr<AscEnum<JsonValueKind>>
    | String                           // AscPtr<AscString>
    | TypedMapEntryStringJsonValue     // AscPtr<AscTypedMapEntry<AscString, AscEnum<JsonValueKind>>>
    | TypedMapEntryStringStoreValue    // AscPtr<AscTypedMapEntry<AscString, AscEnum<StoreValueKind>>>
    | U8 | U16 | U32 | U64
    | I8 | I16 | I32 | I64
    | F32 | F64
    | BigDecimal                       // AscPtr<AscBigDecimal>

  /** The array ids; `ArrayEthereumValue` exists, but no element type is registered under it. */
  datatype IndexForAscTypeId =
    | ArrayBool
    | ArrayUint8Array
    | ArrayEthereumValue
    | ArrayStoreValue
    | ArrayJsonValue
    | ArrayString
    | ArrayTypedMapEntryStringJsonValue
    | ArrayTypedMapEntryStringStoreValue
    | ArrayU8 | ArrayU16 | ArrayU32 | ArrayU64
    | ArrayI8 | ArrayI16 | ArrayI32 | ArrayI64
    | ArrayF32 | ArrayF64
    | ArrayBigDecimal

  datatype Option<T> = None | Some(value: T)

  /** The reverse reading of the table, used to show that no id is shared. */
  function RegisteredElement(id: IndexForAscTypeId): Option<ElementType> {
    match id
    case ArrayBool => Some(Bool)
    case ArrayUint8Array => Some(Uint8Array)
    case ArrayEthereumValue => None
    case ArrayStoreValue => Some(StoreValue)
    case ArrayJsonValue => Some(JsonValue)
    case ArrayString => Some(String)
    case ArrayTypedMapEntryStringJsonValue => Some(TypedMapEntryStringJsonValue)
    case ArrayTypedMapEntryStringStoreValue => Some(TypedMapEntryStringStoreValue)
    case ArrayU8 => Some(U8)
    case ArrayU16 => Some(U16)
    case ArrayU32 => Some(U32)
    case ArrayU64 => Some(U64)
    case ArrayI8 => Some(I8)
    case ArrayI16 => Some(I16)
    case ArrayI32 => Some(I32)
    case ArrayI64 => Some(I64)
    case ArrayF32 => Some(F32)
    case ArrayF64 => Some(F64)
    case ArrayBigDecimal => Some(BigDecimal)
  }

  /** `<Array<T> as AscIndexId>::INDEX_ASC_TYPE_ID`: every element type has exactly one id, which identifies it. */
  function ArrayIndexAscTypeId(t: ElementType): (id: IndexForAscTypeId)
    ensures RegisteredElement(id) == Some(t)
  {
    match t
    case Bool => ArrayBool
    case Uint8Array => ArrayUint8Array
    case StoreValue => ArrayStoreValue
    case JsonValue => ArrayJsonValue
    case String => ArrayString
    case TypedMapEntryStringJsonValue => ArrayTypedMapEntryStringJsonValue
    case TypedMapEntryStringStoreValue => ArrayTypedMapEntryStringStoreValue
    case U8 => ArrayU8
    case U16 => ArrayU16
    case U32 => ArrayU32
    case U64 => ArrayU64
    case I8 => ArrayI8
    case I16 => ArrayI16
    case I32 => ArrayI32
    case I64 => ArrayI64
    case F32 => ArrayF32
    case F64 => ArrayF64
    case BigDecimal => ArrayBigDecimal
  }

  /** No two element types share an id. */
  lemma ArrayIndexAscTypeIdInjective(s: ElementType, t: ElementType)
    ensures ArrayIndexAscTypeId(s) == ArrayIndexAscTypeId(t) ==> s == t
  {
    assert RegisteredElement(ArrayIndexAscTypeId(s)) == Some(s);
    assert RegisteredElement(ArrayIndexAscTypeId(t)) == Some(t);
  }

  /** The Ethereum value array is not registered: no element type maps to its id. */
  lemma EthereumValueNotRegistered(t: ElementType)
    ensures ArrayIndexAscTypeId(t) != ArrayEthereumValue
  {
    assert RegisteredElement(ArrayIndexAscTypeId(t)) == Some(t);
  }

  /** Every id other than the Ethereum one is the id of exactly the element type read back from it. */
  lemma RegisteredIdsAreUsed(id: IndexForAscTypeId)
    ensures id != ArrayEthereumValue ==>
      RegisteredElement(id).Some? && ArrayIndexAscTypeId(RegisteredElement(id).value) == id
  {
  }
}
