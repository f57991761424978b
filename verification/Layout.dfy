/** Constants of the two keymaster message layouts: the HAL side and the
    firmware side, and the library's own return codes. */
module Layout {
  import opened Bytes

  datatype SepResult =
    | Success
    | BadParameter
    | CmdBufferTooBig
    | RspBufferTooSmall
    | HeciConnectFailed
    | OutOfMemory
    | HeciSndRcvFailed
    | Failure

  // HAL command ids.
  const KM_GENERATE_KEYPAIR: u32 := 1
  const KM_IMPORT_KEYPAIR: u32 := 2
  const KM_GET_KEYPAIR_PUBLIC: u32 := 3
  const KM_SIGN_DATA: u32 := 6
  const KM_VERIFY_DATA: u32 := 7
  const KM_RSP_FLAG: u32 := 0x8000_0000

  const KEY_TYPE_RSA: u32 := 1

  // HAL results.
  const KM_RESULT_SUCCESS: u32 := 0
  const KM_RESULT_INVALID_INPUT: u32 := 1
  const KM_RESULT_NOT_SUPPORTED: u32 := 2
  const KM_RESULT_FAILURE: u32 := 0xFFFF_FFFF

  // Firmware command class and ids.
  const CLASS_KEY_MASTER: u32 := 1
  const FW_GET_CAPS: u32 := 0
  const FW_GEN_KEY: u32 := 1
  const FW_IMPORT_KEY: u32 := 2
  const FW_GET_PUBLIC_KEY: u32 := 3
  const FW_SIGN_DATA: u32 := 5
  const FW_VERIFY_DATA: u32 := 6

  // Firmware response codes.
  const RESPONSE_SUCCESS: u32 := 0
  const RESPONSE_FAILURE: u32 := 1
  const RESPONSE_INVALID_PARAMS: u32 := 2
  const RESPONSE_NOT_SUPPORTED: u32 := 3
  const RESPONSE_INVALID_MSG_FORMAT: u32 := 5

  const FW_KEY_TYPE_RSA: u32 := 0

  const EXPONENT_SIZE := 4
  const MAX_KEY_SIZE := 256
  const MAX_MTU := 4096
  const MAX_HECI_MSG_SIZE := 3072

  // Header sizes: HAL command and response, firmware request and response.
  const HAL_CMD_SIZE := 8
  const HAL_RSP_SIZE := 12
  const REQ_HEADER_SIZE := 12
  const RESP_HEADER_SIZE := 20
}
