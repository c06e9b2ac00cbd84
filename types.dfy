/** Shared vocabulary of the Interaction Model message layer: the fixed-width
    integers of the wire format, Option and Nullable, the crate's error kinds,
    the protocol status codes and an abstract view of a decoded TLV element. */
module ImTypes {

  type u8 = x: int | 0 <= x < 0x100
  type u16 = x: int | 0 <= x < 0x1_0000
  type u32 = x: int | 0 <= x < 0x1_0000_0000
  type u64 = x: int | 0 <= x < 0x1_0000_0000_0000_0000

  /** Endpoint, cluster and attribute identifiers (data_model::objects). */
  type EndptId = u16
  type ClusterId = u32
  type AttrId = u16

  /** Rust's `x as u16` on a u32: keeps the low 16 bits. */
  function TruncU16(x: u32): u16
  {
    x % 0x1_0000
  }

  datatype Option<+T> = None | Some(value: T)

  /** The TLV `Nullable`: present-but-null is a state of its own. */
  datatype Nullable<+T> = Null | NotNull(value: T)

  datatype Result<+R, +E> = Ok(value: R) | Err(error: E)

  /** The crate's error kinds that this layer produces; every other kind
      (a codec failure, say) is `OtherError`. */
  datatype Error = Invalid | CommandNotFound | OtherError(code: nat)

  /** The protocol status enumeration, kept abstract: only `Success` and
      `Failure` are named here. */
  datatype IMStatusCode = Success | Failure | OtherStatus(code: u8)

  /** The status that `Error::Invalid` converts into; the conversion table
      itself is not part of this model and is taken as the generic failure. */
  const InvalidStatus: IMStatusCode := Failure

  /** A decoded TLV element as `attr_list_write` sees it: the null
      sentinel, an array whose members can be iterated, an element that is
      confirmed to be an array but cannot be entered, or any other element
      (an opaque handle). */
  datatype Element =
    | NullElement
    | Array(items: seq<Element>)
    | BadArray
    | OtherElement(handle: nat)
  {
    /** `TLVElement::confirm_array().is_ok()` */
    predicate IsArray() { Array? || BadArray? }
  }

  /** An attribute or command payload produced by cluster code
      (`EncodeValue`): opaque at this layer. */
  datatype EncodeValue = EncodeValue(handle: nat)
}
