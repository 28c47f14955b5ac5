/** The exception codes of the protocol, and the errno values that libmodbus makes of them and adds to them. */
module Errors {
  import opened Bytes

  const ENOBASE: int := 112345678
  const ILLEGAL_FUNCTION: byte := 1
  const ILLEGAL_DATA_ADDRESS: byte := 2
  const ILLEGAL_DATA_VALUE: byte := 3
  const EXCEPTION_MAX: byte := 12
  const EMBXILADD: int := ENOBASE + 2
  const EMBXGTAR: int := ENOBASE + 11
  const EMBBADCRC: int := EMBXGTAR + 1
  const EMBBADDATA: int := EMBXGTAR + 2
  const EMBBADEXC: int := EMBXGTAR + 3
  const EMBMDATA: int := EMBXGTAR + 5
  const EMBBADSLAVE: int := EMBXGTAR + 6

  /** No errno of libmodbus: a wait that ends in silence leaves one of the operating system. */
  const NO_REPLY: int := 0
}
