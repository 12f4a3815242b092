/** The records the password canister keeps and the shapes of its replies. */
module Types {

  const U64_MAX: int := 0xFFFF_FFFF_FFFF_FFFF

  /** An unsigned 64-bit integer, as used for ids, the id counter and timestamps. */
  type u64 = x: int | 0 <= x <= U64_MAX

  newtype byte = x: int | 0 <= x < 256

  /** A caller identity. The store only ever compares two of them for equality. */
  datatype Principal = Principal(bytes: seq<byte>)

  /** A stored password record. `createdAt` is refreshed by every successful update. */
  datatype Password = Password(value: string, createdAt: u64, owner: Principal)

  /** The input shape of update, validate and uniqueness calls: a value and nothing else. */
  datatype PasswordPayload = PasswordPayload(value: string)

  /** Every fallible endpoint reports failure as a human-readable message. */
  datatype Result<T> = Ok(value: T) | Err(error: string)

  const NotFoundMsg: string := "Password not found."
  const UnauthorizedMsg: string := "Unauthorized: You do not own this password."
  const UpdatedMsg: string := "Password updated successfully."
  const DeletedMsg: string := "Password deleted successfully."
}
