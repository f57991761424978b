/** The translation of a firmware response into the caller's response buffer. */
module Responses {
  import opened Bytes
  import opened Layout

  // ---------------------------------------------------------------- the firmware's side

  function CmdIdOf(resp: seq<byte>): u32
    requires |resp| >= RESP_HEADER_SIZE
  {
    U32At(resp, 8)
  }

  function CodeOf(resp: seq<byte>): u32
    requires |resp| >= RESP_HEADER_SIZE
  {
    U32At(resp, 12)
  }

  // A successful response whose payload goes to the caller.
  predicate Carries(resp: seq<byte>)
    requires |resp| >= RESP_HEADER_SIZE
  {
    CodeOf(resp) == RESPONSE_SUCCESS
    && CmdIdOf(resp) in {FW_GEN_KEY, FW_IMPORT_KEY, FW_GET_PUBLIC_KEY, FW_SIGN_DATA}
  }

  predicate MadeKey(resp: seq<byte>)
    requires |resp| >= RESP_HEADER_SIZE
  {
    CodeOf(resp) == RESPONSE_SUCCESS && CmdIdOf(resp) in {FW_GEN_KEY, FW_IMPORT_KEY}
  }

  // A successful response whose first word after the header is looked at.
  predicate HasTail(resp: seq<byte>)
    requires |resp| >= RESP_HEADER_SIZE
  {
    CodeOf(resp) == RESPONSE_SUCCESS && CmdIdOf(resp) in {FW_GET_PUBLIC_KEY, FW_SIGN_DATA, FW_VERIFY_DATA}
  }

  // The length the firmware declares for its payload: OutputSize, KeySize or SignatureSize.
  function PayloadSize(resp: seq<byte>): u32
    requires |resp| >= RESP_HEADER_SIZE && Carries(resp)
    requires HasTail(resp) ==> |resp| >= 24
  {
    if MadeKey(resp) then U32At(resp, 16) else U32At(resp, 20)
  }

  // The caller's bytes a payload-carrying response takes, before any wrap.
  function NeededSize(resp: seq<byte>): nat
    requires |resp| >= RESP_HEADER_SIZE && Carries(resp)
    requires HasTail(resp) ==> |resp| >= 24
  {
    PayloadSize(resp) + if CmdIdOf(resp) == FW_GET_PUBLIC_KEY then 28 else 16
  }

  datatype FwReply =
    | FwKeyBlob(blob: seq<byte>)
    | FwPublicKey(modulus: seq<byte>, exponent: seq<byte>)
    | FwSignature(signature: seq<byte>)
    | FwVerified(ok: bool)
    | FwUnlisted
    | FwError(code: u32)

  // The response by the firmware's layout, where it holds all it declares.
  function ParseReply(resp: seq<byte>): Option<FwReply>
  {
    if |resp| < RESP_HEADER_SIZE || (HasTail(resp) && |resp| < 24) then None
    else if CodeOf(resp) != RESPONSE_SUCCESS then Some(FwError(CodeOf(resp)))
    else if MadeKey(resp) then
      var n := U32At(resp, 16);
      if 20 + n <= |resp| then Some(FwKeyBlob(resp[20..20 + n])) else None
    else if CmdIdOf(resp) == FW_GET_PUBLIC_KEY then
      var n := U32At(resp, 20);
      if 28 + n <= |resp| then Some(FwPublicKey(resp[28..28 + n], resp[24..28])) else None
    else if CmdIdOf(resp) == FW_SIGN_DATA then
      var n := U32At(resp, 20);
      if 24 + n <= |resp| then Some(FwSignature(resp[24..24 + n])) else None
    else if CmdIdOf(resp) == FW_VERIFY_DATA then Some(FwVerified(U32At(resp, 20) != 0))
    else Some(FwUnlisted)
  }

  // ---------------------------------------------------------------- the caller's side

  datatype HalReply =
    | HalKeyBlob(blob: seq<byte>)
    | HalPublicKey(keyType: u32, modulus: seq<byte>, exponent: seq<byte>)
    | HalSignature(signature: seq<byte>)
    | HalStatus(result: u32)

  // What a client that sent command id reads from its buffer by the HAL layout.
  function ParseHal(id: u32, rsp: seq<byte>): Option<HalReply>
  {
    if |rsp| < HAL_RSP_SIZE || U32At(rsp, 4) < 4 || 8 + U32At(rsp, 4) > |rsp| then None
    else
      var end := 8 + U32At(rsp, 4);
      if U32At(rsp, 8) != KM_RESULT_SUCCESS || id == KM_VERIFY_DATA then Some(HalStatus(U32At(rsp, 8)))
      else if end < 16 then None
      else if id in {KM_GENERATE_KEYPAIR, KM_IMPORT_KEYPAIR} then
        var n := U32At(rsp, 12);
        if 16 + n <= end then Some(HalKeyBlob(rsp[16..16 + n])) else None
      else if id == KM_SIGN_DATA then
        var n := U32At(rsp, 12);
        if 16 + n <= end then Some(HalSignature(rsp[16..16 + n])) else None
      else if id == KM_GET_KEYPAIR_PUBLIC && end >= 24 then
        var m, e := U32At(rsp, 16), U32At(rsp, 20);
        if 24 + m + e <= end
        then Some(HalPublicKey(U32At(rsp, 12), rsp[24..24 + m], rsp[24 + m..24 + m + e])) else None
      else None
  }

  // The HAL result for a failing response code.
  function FailureResult(code: u32): u32
  {
    if code in {RESPONSE_INVALID_PARAMS, RESPONSE_INVALID_MSG_FORMAT} then KM_RESULT_INVALID_INPUT
    else if code == RESPONSE_NOT_SUPPORTED then KM_RESULT_NOT_SUPPORTED
    else KM_RESULT_FAILURE
  }

  // The same reply in the caller's terms.
  function HalMeaning(r: FwReply): HalReply
  {
    match r
    case FwKeyBlob(b) => HalKeyBlob(b)
    case FwPublicKey(m, e) => HalPublicKey(KEY_TYPE_RSA, m, e)
    case FwSignature(s) => HalSignature(s)
    case FwVerified(ok) => HalStatus(if ok then KM_RESULT_SUCCESS else KM_RESULT_FAILURE)
    case FwUnlisted => HalStatus(KM_RESULT_SUCCESS)
    case FwError(code) => HalStatus(FailureResult(code))
  }

  // ---------------------------------------------------------------- the translation

  // The memory accesses of the translation stay inside the response buffer of
  // size + 8 bytes and the caller's buffer of size bytes.
  predicate Safe(resp: seq<byte>, size: nat)
    requires |resp| >= size + 8 && size >= HAL_RSP_SIZE
  {
    && (HasTail(resp) ==> size >= 16)
    && (Carries(resp) ==> NeededSize(resp) < U32_RANGE || size < NeededSize(resp) - U32_RANGE)
  }

  function LengthAndResult(length: u32, result: u32): (s: seq<byte>)
    ensures |s| == 8
  {
    Le32(length) + Le32(result)
  }

  // The payload as the HAL structures lay it out.
  function HalPayload(r: FwReply): seq<byte>
    requires r.FwKeyBlob? || r.FwPublicKey? || r.FwSignature?
    requires r.FwKeyBlob? ==> |r.blob| < U32_RANGE
    requires r.FwSignature? ==> |r.signature| < U32_RANGE
    requires r.FwPublicKey? ==> |r.modulus| < U32_RANGE && |r.exponent| < U32_RANGE
  {
    match r
    case FwKeyBlob(b) => Le32(|b|) + b
    case FwPublicKey(m, e) => Le32(KEY_TYPE_RSA) + Le32(|m|) + Le32(|e|) + m + e
    case FwSignature(s) => Le32(|s|) + s
  }

  // Result, caller's buffer and reported length.
  datatype Answer = Answer(result: SepResult, rsp: seq<byte>, length: u32)

  lemma SafePayload(resp: seq<byte>, size: nat)
    requires |resp| == size + 8 && size >= HAL_RSP_SIZE && size + 8 < U32_RANGE && Safe(resp, size)
    requires Carries(resp) && size >= Wrap32(NeededSize(resp))
    ensures NeededSize(resp) == Wrap32(NeededSize(resp)) <= size
    ensures ParseReply(resp).Some?
    ensures var r := ParseReply(resp).value;
            && (r.FwKeyBlob? || r.FwPublicKey? || r.FwSignature?)
            && (r.FwKeyBlob? ==> |r.blob| < U32_RANGE)
            && (r.FwSignature? ==> |r.signature| < U32_RANGE)
            && (r.FwPublicKey? ==> |r.modulus| < U32_RANGE && |r.exponent| == 4)
            && |HalPayload(r)| == NeededSize(resp) - HAL_RSP_SIZE
  {
  }

  function Translation(resp: seq<byte>, caller: seq<byte>, size: u32): Answer
    requires size >= HAL_RSP_SIZE && |resp| == size + 8 < U32_RANGE && Safe(resp, size)
    requires size <= |caller|
  {
    if CodeOf(resp) != RESPONSE_SUCCESS then
      Answer(Success, Overwrite(caller, 4, LengthAndResult(4, FailureResult(CodeOf(resp)))), 12)
    else if CmdIdOf(resp) == FW_VERIFY_DATA then
      var verdict := if U32At(resp, 20) != 0 then KM_RESULT_SUCCESS else KM_RESULT_FAILURE;
      Answer(Success, Overwrite(caller, 4, LengthAndResult(4, verdict)), 12)
    else if Carries(resp) then
      var n := Wrap32(NeededSize(resp));
      if size < n then
        Answer(RspBufferTooSmall, Overwrite(caller, 4, LengthAndResult(Wrap32(n - 8), KM_RESULT_SUCCESS)), n)
      else
        SafePayload(resp, size);
        var head := LengthAndResult(n - 8, KM_RESULT_SUCCESS);
        Answer(Success, Overwrite(caller, 4, head + HalPayload(ParseReply(resp).value)), n)
    else
      // Neither length is touched.
      Answer(Success, Overwrite(caller, 8, Le32(KM_RESULT_SUCCESS)), size)
  }

  // The response id, by the number that selects it.
  function RspId(selector: u32): u32
  {
    if selector == FW_GEN_KEY then KM_RSP_FLAG + KM_GENERATE_KEYPAIR
    else if selector == FW_IMPORT_KEY then KM_RSP_FLAG + KM_IMPORT_KEYPAIR
    else if selector == FW_GET_PUBLIC_KEY then KM_RSP_FLAG + KM_GET_KEYPAIR_PUBLIC
    else if selector == FW_SIGN_DATA then KM_RSP_FLAG + KM_SIGN_DATA
    else if selector == FW_VERIFY_DATA then KM_RSP_FLAG + KM_VERIFY_DATA
    else 0
  }
}
