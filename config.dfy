/** Build-time configuration of the interning engine and the small wrapper types it uses. */
module IstrConfig {

  /** A byte of string data. */
  type byte = bv8

  /** ISTR_BYTES_IN_HASH: the hash field is one byte wide. */
  const BYTES_IN_HASH: nat := 1

  /** ISTR_BYTES_IN_LEN: the length field is one byte wide. */
  const BYTES_IN_LEN: nat := 1

  /** Q_HASH_MASK = (1 << (8 * ISTR_BYTES_IN_HASH)) - 1. */
  const Q_HASH_MASK: nat := 255

  /** 1 << (8 * ISTR_BYTES_IN_LEN): the first length the length field cannot hold. */
  const LEN_LIMIT: nat := 256

  /** ISTR_ALLOC_ENTRIES_INIT: capacity of the static pool and the minimum chunk size. */
  const ALLOC_ENTRIES_INIT: nat := 10

  /** The reserved handle meaning "no such string" (the first enum value of the generated ids). */
  const NULL: nat := 0

  datatype Option<T> = None | Some(value: T)
}
