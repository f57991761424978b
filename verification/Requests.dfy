/** The firmware request messages, what a HAL command means, and the translation
    of one into the other. */
module Requests {
  import opened Bytes
  import opened Layout

  // ---------------------------------------------------------------- HAL commands

  // GetPublic keeps the length word and the bytes that follow it apart: the
  // library never looks at the former.
  datatype HalCommand =
    | Generate(keyType: u32, modulusBits: u32, reserved: u32, publicExponent: seq<byte>)
    | Import(keyType: u32, modulus: seq<byte>, publicExponent: seq<byte>, privateExponent: seq<byte>)
    | GetPublic(blobLength: u32, area: seq<byte>)
    | Sign(keyBlob: seq<byte>, data: seq<byte>)
    | Verify(keyBlob: seq<byte>, data: seq<byte>, signature: seq<byte>)

  function CommandId(c: HalCommand): u32
  {
    match c
    case Generate(_, _, _, _) => KM_GENERATE_KEYPAIR
    case Import(_, _, _, _) => KM_IMPORT_KEYPAIR
    case GetPublic(_, _) => KM_GET_KEYPAIR_PUBLIC
    case Sign(_, _) => KM_SIGN_DATA
    case Verify(_, _, _) => KM_VERIFY_DATA
  }

  ghost predicate Encodable(c: HalCommand)
  {
    match c
    case Generate(_, _, _, e) => |e| == 8
    case Import(_, m, e, d) => |m| + |e| + |d| + 16 < U32_RANGE
    case GetPublic(_, a) => |a| + 4 < U32_RANGE
    case Sign(b, d) => |b| + |d| + 8 < U32_RANGE
    case Verify(b, d, s) => |b| + |d| + |s| + 12 < U32_RANGE
  }

  function HalData(c: HalCommand): seq<byte>
    requires Encodable(c)
  {
    match c
    case Generate(kt, bits, r, e) => Le32(kt) + Le32(bits) + Le32(r) + e
    case Import(kt, m, e, d) => Le32(kt) + Le32(|m|) + Le32(|e|) + Le32(|d|) + m + e + d
    case GetPublic(n, a) => Le32(n) + a
    case Sign(b, d) => Le32(|b|) + Le32(|d|) + b + d
    case Verify(b, d, s) => Le32(|b|) + Le32(|d|) + Le32(|s|) + b + d + s
  }

  // The command buffer a HAL client builds.
  function HalBytes(c: HalCommand): seq<byte>
    requires Encodable(c)
  {
    Le32(CommandId(c)) + Le32(|HalData(c)|) + HalData(c)
  }

  predicate Known(id: u32)
  {
    id in {KM_GENERATE_KEYPAIR, KM_IMPORT_KEYPAIR, KM_GET_KEYPAIR_PUBLIC, KM_SIGN_DATA, KM_VERIFY_DATA}
  }

  // The smallest cmd_data_length each builder accepts.
  function MinData(id: u32, keyOpaqueSize: u32): nat
    requires Known(id)
  {
    if id == KM_GENERATE_KEYPAIR then 20
    else if id == KM_IMPORT_KEYPAIR then 16
    else if id == KM_GET_KEYPAIR_PUBLIC then 4 + keyOpaqueSize
    else if id == KM_SIGN_DATA then 8
    else 12
  }

  // The builder goes on to the payload of the command.
  predicate LongEnough(cmd: seq<byte>, keyOpaqueSize: u32)
    requires |cmd| >= HAL_CMD_SIZE
  {
    Known(U32At(cmd, 0)) && U32At(cmd, 4) >= MinData(U32At(cmd, 0), keyOpaqueSize)
  }

  // The builder's limits on key type and inner lengths.
  predicate WithinLimits(cmd: seq<byte>, keyOpaqueSize: u32)
    requires |cmd| >= HAL_CMD_SIZE
    requires LongEnough(cmd, keyOpaqueSize) && HAL_CMD_SIZE + U32At(cmd, 4) <= |cmd|
  {
    var id := U32At(cmd, 0);
    if id == KM_GENERATE_KEYPAIR then U32At(cmd, 8) == KEY_TYPE_RSA
    else if id == KM_IMPORT_KEYPAIR then
      U32At(cmd, 16) <= EXPONENT_SIZE && U32At(cmd, 12) <= MAX_KEY_SIZE && U32At(cmd, 20) <= MAX_KEY_SIZE
    else if id == KM_GET_KEYPAIR_PUBLIC then true
    else if id == KM_SIGN_DATA then U32At(cmd, 12) <= MAX_KEY_SIZE && U32At(cmd, 8) <= keyOpaqueSize
    else U32At(cmd, 12) <= MAX_KEY_SIZE && U32At(cmd, 16) <= MAX_KEY_SIZE && U32At(cmd, 8) <= keyOpaqueSize
  }

  // The bytes the inner lengths of an import, sign or verify command lay claim to.
  function InnerSize(cmd: seq<byte>): nat
    requires |cmd| >= HAL_CMD_SIZE && HAL_CMD_SIZE + U32At(cmd, 4) <= |cmd|
    requires LongEnough(cmd, 0)
  {
    var id := U32At(cmd, 0);
    if id == KM_IMPORT_KEYPAIR then 16 + U32At(cmd, 12) + U32At(cmd, 16) + U32At(cmd, 20)
    else if id == KM_SIGN_DATA then 8 + U32At(cmd, 8) + U32At(cmd, 12)
    else if id == KM_VERIFY_DATA then 12 + U32At(cmd, 8) + U32At(cmd, 12) + U32At(cmd, 16)
    else 0
  }

  // What the library leaves to its caller: the lengths written in the command are
  // the lengths of what is there, as far as the builder relies on them.
  ghost predicate Readable(cmd: seq<byte>, keyOpaqueSize: u32)
  {
    && |cmd| >= HAL_CMD_SIZE
    && (LongEnough(cmd, keyOpaqueSize) ==>
          && HAL_CMD_SIZE + U32At(cmd, 4) <= |cmd|
          && (WithinLimits(cmd, keyOpaqueSize) ==> InnerSize(cmd) <= U32At(cmd, 4)))
  }

  ghost predicate Accepted(cmd: seq<byte>, keyOpaqueSize: u32)
    requires Readable(cmd, keyOpaqueSize)
  {
    LongEnough(cmd, keyOpaqueSize) && WithinLimits(cmd, keyOpaqueSize)
  }

  // The command a buffer holds, read field by field at the offsets of the HAL structures.
  ghost function HalOf(cmd: seq<byte>, keyOpaqueSize: u32): HalCommand
    requires Readable(cmd, keyOpaqueSize) && Accepted(cmd, keyOpaqueSize)
  {
    var id := U32At(cmd, 0);
    if id == KM_GENERATE_KEYPAIR then
      Generate(U32At(cmd, 8), U32At(cmd, 12), U32At(cmd, 16), cmd[20..28])
    else if id == KM_IMPORT_KEYPAIR then
      var m, e, d := U32At(cmd, 12), U32At(cmd, 16), U32At(cmd, 20);
      Import(U32At(cmd, 8), cmd[24..24 + m], cmd[24 + m..24 + m + e], cmd[24 + m + e..24 + m + e + d])
    else if id == KM_GET_KEYPAIR_PUBLIC then
      GetPublic(U32At(cmd, 8), cmd[12..8 + U32At(cmd, 4)])
    else if id == KM_SIGN_DATA then
      var b, d := U32At(cmd, 8), U32At(cmd, 12);
      Sign(cmd[16..16 + b], cmd[16 + b..16 + b + d])
    else
      var b, d, s := U32At(cmd, 8), U32At(cmd, 12), U32At(cmd, 16);
      Verify(cmd[20..20 + b], cmd[20 + b..20 + b + d], cmd[20 + b + d..20 + b + d + s])
  }

  // The answer to a command that is not accepted.
  ghost function Rejection(cmd: seq<byte>, keyOpaqueSize: u32): SepResult
    requires Readable(cmd, keyOpaqueSize) && !Accepted(cmd, keyOpaqueSize)
  {
    if !Known(U32At(cmd, 0)) then Failure
    else if LongEnough(cmd, keyOpaqueSize) && U32At(cmd, 0) in {KM_SIGN_DATA, KM_VERIFY_DATA} then CmdBufferTooBig
    else BadParameter
  }

  // ---------------------------------------------------------------- firmware requests

  datatype FwRequest =
    | FwGenerate(keySize: u32, exponent: seq<byte>)
    | FwImport(keySize: u32, exponent: seq<byte>, modulus: seq<byte>, privateExponent: seq<byte>)
    | FwGetPublic(keyOpaque: seq<byte>)
    | FwSign(dataSize: u32, data: seq<byte>, keyOpaque: seq<byte>)
    | FwVerify(dataSize: u32, data: seq<byte>, signatureSize: u32, signature: seq<byte>, keyOpaque: seq<byte>)

  // Bytes of each request structure, with its zero-length KeyOpaque array.
  function FixedSize(id: u32): nat
    requires Known(id)
  {
    if id == KM_GENERATE_KEYPAIR then 20
    else if id == KM_GET_KEYPAIR_PUBLIC then 12
    else if id == KM_SIGN_DATA then 272
    else 532
  }

  // The allocated size of a request.
  function RequestSize(id: u32, keyOpaqueSize: u32): nat
    requires Known(id)
  {
    if id == KM_IMPORT_KEYPAIR then FixedSize(id) else FixedSize(id) + keyOpaqueSize
  }

  function FwId(id: u32): u32
    requires Known(id)
  {
    if id == KM_SIGN_DATA then FW_SIGN_DATA
    else if id == KM_VERIFY_DATA then FW_VERIFY_DATA
    else id
  }

  // An independent reading of the firmware layout.
  function ParseFw(r: seq<byte>): Option<FwRequest>
  {
    if |r| < REQ_HEADER_SIZE || U32At(r, 0) != CLASS_KEY_MASTER || |r| < REQ_HEADER_SIZE + U32At(r, 8) then None
    else
      var id, end := U32At(r, 4), REQ_HEADER_SIZE + U32At(r, 8);
      if id == FW_GEN_KEY && end == 20 then
        Some(FwGenerate(U32At(r, 12), r[16..20]))
      else if id == FW_IMPORT_KEY && end == 532 then
        Some(FwImport(U32At(r, 12), r[16..20], r[20..276], r[276..532]))
      else if id == FW_GET_PUBLIC_KEY then
        Some(FwGetPublic(r[12..end]))
      else if id == FW_SIGN_DATA && end >= 272 then
        Some(FwSign(U32At(r, 12), r[16..272], r[272..end]))
      else if id == FW_VERIFY_DATA && end >= 532 then
        Some(FwVerify(U32At(r, 12), r[16..272], U32At(r, 272), r[276..532], r[532..end]))
      else None
  }

  ghost predicate WellSized(m: FwRequest, keyOpaqueSize: u32)
  {
    match m
    case FwGenerate(_, e) => |e| == 4
    case FwImport(_, e, n, d) => |e| == 4 && |n| == |d| == MAX_KEY_SIZE
    case FwGetPublic(o) => |o| == keyOpaqueSize && keyOpaqueSize + 12 < U32_RANGE
    case FwSign(_, d, o) => |d| == MAX_KEY_SIZE && |o| == keyOpaqueSize && keyOpaqueSize + 272 < U32_RANGE
    case FwVerify(_, d, _, s, o) =>
      |d| == |s| == MAX_KEY_SIZE && |o| == keyOpaqueSize && keyOpaqueSize + 532 < U32_RANGE
  }

  function Header(id: u32, inputSize: u32): (h: seq<byte>)
    ensures |h| == REQ_HEADER_SIZE
  {
    Le32(CLASS_KEY_MASTER) + Le32(id) + Le32(inputSize)
  }

  // The whole request buffer.  Only generate is longer than its InputSize says.
  function Wire(m: FwRequest, keyOpaqueSize: u32): seq<byte>
    requires WellSized(m, keyOpaqueSize)
  {
    match m
    case FwGenerate(k, e) => Header(FW_GEN_KEY, 8) + Le32(k) + e + Zeros(keyOpaqueSize)
    case FwImport(k, e, n, d) => Header(FW_IMPORT_KEY, 520) + Le32(k) + e + n + d
    case FwGetPublic(o) => Header(FW_GET_PUBLIC_KEY, keyOpaqueSize) + o
    case FwSign(n, d, o) => Header(FW_SIGN_DATA, 260 + keyOpaqueSize) + Le32(n) + d + o
    case FwVerify(n, d, k, s, o) =>
      Header(FW_VERIFY_DATA, 520 + keyOpaqueSize) + Le32(n) + d + Le32(k) + s + o
  }

  // The integer 0 <= n < 2^32 as four big-endian bytes: I2OSP of section 4.1 of RFC 8017.
  function I2osp4(n: u32): (s: seq<byte>)
    ensures |s| == 4
  {
    [n / 0x100_0000, n / 0x1_0000 % 0x100, n / 0x100 % 0x100, n % 0x100]
  }

  predicate Fits(c: HalCommand, keyOpaqueSize: u32)
  {
    match c
    case Generate(kt, _, _, e) => kt == KEY_TYPE_RSA && |e| == 8
    case Import(_, m, e, d) => |e| <= EXPONENT_SIZE && |m| <= MAX_KEY_SIZE && |d| <= MAX_KEY_SIZE
    case GetPublic(_, a) => keyOpaqueSize <= |a|
    case Sign(b, d) => |d| <= MAX_KEY_SIZE && |b| <= keyOpaqueSize
    case Verify(b, d, s) => |d| <= MAX_KEY_SIZE && |s| <= MAX_KEY_SIZE && |b| <= keyOpaqueSize
  }

  // What a command asks of the firmware.
  function Translate(c: HalCommand, keyOpaqueSize: u32): FwRequest
    requires Fits(c, keyOpaqueSize)
  {
    match c
    case Generate(_, bits, _, e) => FwGenerate(bits / 8, I2osp4(Wrap32(LittleEndian(e))))
    case Import(_, m, e, d) => FwImport(|m|, LeftPadded(e, 4), Padded(m, MAX_KEY_SIZE), Padded(d, MAX_KEY_SIZE))
    case GetPublic(_, a) => FwGetPublic(a[..keyOpaqueSize])
    case Sign(b, d) => FwSign(|d|, Padded(d, MAX_KEY_SIZE), Padded(b, keyOpaqueSize))
    case Verify(b, d, s) =>
      FwVerify(|d|, Padded(d, MAX_KEY_SIZE), |s|, Padded(s, MAX_KEY_SIZE), Padded(b, keyOpaqueSize))
  }
}
