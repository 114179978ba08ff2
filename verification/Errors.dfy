/** Return codes. */
module Errors {
  /** No return code: the call reads or writes where there is no memory, and promises nothing. */
  const UNDEFINED: int := 1

  const ERR_FILE_IO_ERROR: int := -0x0002
  const ERR_BAD_INPUT_DATA: int := -0x0004
  const ERR_INVALID_CHARACTER: int := -0x0006
  const ERR_BUFFER_TOO_SMALL: int := -0x0008
  const ERR_NEGATIVE_VALUE: int := -0x000A
  const ERR_DIVISION_BY_ZERO: int := -0x000C
  const ERR_NOT_ACCEPTABLE: int := -0x000E
  const ERR_ALLOC_FAILED: int := -0x0010

  const ERR_ASN1_OUT_OF_DATA: int := -0x0060
  const ERR_ASN1_UNEXPECTED_TAG: int := -0x0062
  const ERR_ASN1_INVALID_LENGTH: int := -0x0064
  const ERR_ASN1_LENGTH_MISMATCH: int := -0x0066
  const ERR_ASN1_BUF_TOO_SMALL: int := -0x006C

  const ERR_ECP_BAD_INPUT_DATA: int := -0x4F80
}
