/** The in-place translation of a response into the caller's buffer. */
module ResponseWriter {
  import opened Bytes
  import opened Layout
  import opened Responses
  import opened ResponseProofs

  method SetResponseCmdId(selector: u32, rsp: array?<byte>) returns (result: SepResult)
    requires rsp != null ==> rsp.Length >= HAL_RSP_SIZE
    modifies rsp
    ensures rsp == null ==> result == BadParameter
    ensures rsp != null ==> result == Success && rsp[..] == Overwrite(old(rsp[..]), 0, Le32(RspId(selector)))
  {
    if rsp == null {
      return BadParameter;
    }
    match selector {
      case 1 => PutU32(rsp, 0, KM_RSP_FLAG + KM_GENERATE_KEYPAIR);
      case 2 => PutU32(rsp, 0, KM_RSP_FLAG + KM_IMPORT_KEYPAIR);
      case 3 => PutU32(rsp, 0, KM_RSP_FLAG + KM_GET_KEYPAIR_PUBLIC);
      case 5 => PutU32(rsp, 0, KM_RSP_FLAG + KM_SIGN_DATA);
      case 6 => PutU32(rsp, 0, KM_RSP_FLAG + KM_VERIFY_DATA);
      case _ => PutU32(rsp, 0, 0);
    }
    result := Success;
  }

  // Two neighbouring stores are one.
  lemma StoresMerge(s: seq<byte>, off: nat, d: seq<byte>, e: seq<byte>)
    requires off + |d| + |e| <= |s|
    ensures Overwrite(Overwrite(s, off, d), off + |d|, e) == Overwrite(s, off, d + e)
    ensures Overwrite(Overwrite(s, off + |d|, e), off, d) == Overwrite(s, off, d + e)
  {
  }

  method SetLengthAndResult(rsp: array<byte>, length: u32, result: u32)
    requires rsp.Length >= HAL_RSP_SIZE
    modifies rsp
    ensures rsp[..] == Overwrite(old(rsp[..]), 4, LengthAndResult(length, result))
  {
    PutU32(rsp, 8, result);
    PutU32(rsp, 4, length);
    StoresMerge(old(rsp[..]), 4, Le32(length), Le32(result));
  }

  method SetResponseStatusAndData(resp: array?<byte>, rsp: array?<byte>, rspLength: U32Cell?, size: u32)
    returns (result: SepResult)
    requires resp != null && rsp != null && rspLength != null ==> rsp != resp && Ready(resp[..], rsp[..], size)
    requires rspLength != null ==> rspLength.value == size
    modifies rsp, rspLength
    ensures resp == null || rsp == null || rspLength == null ==> result == BadParameter
    ensures resp != null && rsp != null && rspLength != null ==>
      Answer(result, rsp[..], rspLength.value) == Translation(old(resp[..]), old(rsp[..]), size)
  {
    if resp == null || rsp == null || rspLength == null {
      return BadParameter;
    }
    var fw := resp[..];
    var code, cmdId := CodeOf(fw), CmdIdOf(fw);
    if code == RESPONSE_SUCCESS {
      if cmdId in {FW_GEN_KEY, FW_IMPORT_KEY} {
        result := SetKeyBlob(fw, rsp, rspLength, size);
      } else if cmdId == FW_GET_PUBLIC_KEY {
        result := SetPublicKey(fw, rsp, rspLength, size);
      } else if cmdId == FW_SIGN_DATA {
        result := SetSignature(fw, rsp, rspLength, size);
      } else if cmdId == FW_VERIFY_DATA {
        SetLengthAndResult(rsp, 4, if U32At(fw, 20) != 0 then KM_RESULT_SUCCESS else KM_RESULT_FAILURE);
        rspLength.value := HAL_RSP_SIZE;
        result := Success;
      } else {
        PutU32(rsp, 8, KM_RESULT_SUCCESS);
        result := Success;
      }
    } else {
      SetLengthAndResult(rsp, 4, FailureResult(code));
      rspLength.value := HAL_RSP_SIZE;
      result := Success;
    }
  }

  // The case of a generated or imported key.
  method SetKeyBlob(fw: seq<byte>, rsp: array<byte>, rspLength: U32Cell, size: u32) returns (result: SepResult)
    requires Ready(fw, rsp[..], size) && MadeKey(fw)
    modifies rsp, rspLength
    ensures Answer(result, rsp[..], rspLength.value) == Translation(fw, old(rsp[..]), size)
  {
    hide Overwrite, Translation, LengthAndResult;
    var n: int := U32At(fw, 16);
    var length: int := Wrap32(4 + n + 4);
    BlobStores(fw, 20, rsp[..], size);
    SetLengthAndResult(rsp, length, KM_RESULT_SUCCESS);
    rspLength.value := Wrap32(12 + length - 4);
    if size < rspLength.value {
      return RspBufferTooSmall;
    }
    PutU32(rsp, 12, n);
    Store(rsp, 16, fw[20..20 + n]);
    result := Success;
  }

  method SetSignature(fw: seq<byte>, rsp: array<byte>, rspLength: U32Cell, size: u32) returns (result: SepResult)
    requires Ready(fw, rsp[..], size) && CodeOf(fw) == RESPONSE_SUCCESS && CmdIdOf(fw) == FW_SIGN_DATA
    modifies rsp, rspLength
    ensures Answer(result, rsp[..], rspLength.value) == Translation(fw, old(rsp[..]), size)
  {
    hide Overwrite, Translation, LengthAndResult;
    var n: int := U32At(fw, 20);
    var length: int := Wrap32(4 + n + 4);
    BlobStores(fw, 24, rsp[..], size);
    SetLengthAndResult(rsp, length, KM_RESULT_SUCCESS);
    rspLength.value := Wrap32(12 + length - 4);
    if size < rspLength.value {
      return RspBufferTooSmall;
    }
    PutU32(rsp, 12, n);
    Store(rsp, 16, fw[24..24 + n]);
    result := Success;
  }

  method SetPublicKey(fw: seq<byte>, rsp: array<byte>, rspLength: U32Cell, size: u32) returns (result: SepResult)
    requires Ready(fw, rsp[..], size) && CodeOf(fw) == RESPONSE_SUCCESS && CmdIdOf(fw) == FW_GET_PUBLIC_KEY
    modifies rsp, rspLength
    ensures Answer(result, rsp[..], rspLength.value) == Translation(fw, old(rsp[..]), size)
  {
    hide Overwrite, Translation, LengthAndResult;
    var n: int := U32At(fw, 20);
    var length: int := Wrap32(4 + 8 + EXPONENT_SIZE + n + 4);
    PublicKeyStores(fw, rsp[..], size);
    SetLengthAndResult(rsp, length, KM_RESULT_SUCCESS);
    rspLength.value := Wrap32(12 + length - 4);
    if size < rspLength.value {
      return RspBufferTooSmall;
    }
    PutU32(rsp, 12, KEY_TYPE_RSA);
    PutU32(rsp, 16, n);
    PutU32(rsp, 20, EXPONENT_SIZE);
    Store(rsp, 24, fw[28..28 + n]);
    Store(rsp, 24 + n, fw[24..28]);
    result := Success;
  }

  // A length word and that many bytes, from offset from of a response: the payload of
  // a key blob (from 20) and of a signature (from 24).
  lemma BlobStores(fw: seq<byte>, from: nat, caller: seq<byte>, size: u32)
    requires Ready(fw, caller, size) && Carries(fw) && CmdIdOf(fw) != FW_GET_PUBLIC_KEY
    requires from == if MadeKey(fw) then 20 else 24
    ensures var n: int := PayloadSize(fw);
            var length: int := Wrap32(n + 8);
            var first := Overwrite(caller, 4, LengthAndResult(length, KM_RESULT_SUCCESS));
            if size < Wrap32(length + 8)
            then Translation(fw, caller, size) == Answer(RspBufferTooSmall, first, Wrap32(length + 8))
            else
              && from + n <= |fw| && 16 + n <= size && Wrap32(length + 8) == 16 + n
              && Translation(fw, caller, size)
                   == Answer(Success, Overwrite(Overwrite(first, 12, Le32(n)), 16, fw[from..from + n]), 16 + n)
  {
    hide Overwrite, LengthAndResult, U32At, Le32;
    var n: int := PayloadSize(fw);
    var length: int := Wrap32(n + 8);
    var head := LengthAndResult(length, KM_RESULT_SUCCESS);
    WrapTwice(n + 8, 8);
    if size >= Wrap32(length + 8) {
      SafePayload(fw, size);
      BlobMerge(caller, head, n, fw[from..from + n]);
      assert HalPayload(ParseReply(fw).value) == Le32(n) + fw[from..from + n];
    } else {
      WrapTwice(n + 16, -8);
    }
  }

  lemma BlobMerge(caller: seq<byte>, head: seq<byte>, n: u32, data: seq<byte>)
    requires |head| == 8 && |data| == n && 16 + n <= |caller|
    ensures Overwrite(Overwrite(Overwrite(caller, 4, head), 12, Le32(n)), 16, data)
              == Overwrite(caller, 4, head + (Le32(n) + data))
  {
  }

  lemma PublicKeyStores(fw: seq<byte>, caller: seq<byte>, size: u32)
    requires Ready(fw, caller, size) && Carries(fw) && CmdIdOf(fw) == FW_GET_PUBLIC_KEY
    ensures var n: int := PayloadSize(fw);
            var length: int := Wrap32(n + 20);
            var first := Overwrite(caller, 4, LengthAndResult(length, KM_RESULT_SUCCESS));
            if size < Wrap32(length + 8)
            then Translation(fw, caller, size) == Answer(RspBufferTooSmall, first, Wrap32(length + 8))
            else
              && 28 + n <= |fw| && 28 + n <= size && Wrap32(length + 8) == 28 + n
              && var lengths :=
                   Overwrite(Overwrite(Overwrite(first, 12, Le32(KEY_TYPE_RSA)), 16, Le32(n)), 20, Le32(4));
                 Translation(fw, caller, size)
                   == Answer(Success, Overwrite(Overwrite(lengths, 24, fw[28..28 + n]), 24 + n, fw[24..28]), 28 + n)
  {
    hide Overwrite, LengthAndResult;
    var n: int := PayloadSize(fw);
    var length: int := Wrap32(n + 20);
    var head := LengthAndResult(length, KM_RESULT_SUCCESS);
    WrapTwice(n + 20, 8);
    if size >= Wrap32(length + 8) {
      SafePayload(fw, size);
      PublicKeyMerge(caller, head, n, fw[28..28 + n], fw[24..28]);
    } else {
      WrapTwice(n + 28, -8);
    }
  }

  lemma PublicKeyMerge(caller: seq<byte>, head: seq<byte>, n: u32, m: seq<byte>, e: seq<byte>)
    requires |head| == 8 && |m| == n && |e| == 4 && 28 + n <= |caller| && n + 28 < U32_RANGE
    ensures var first := Overwrite(caller, 4, head);
            var lengths := Overwrite(Overwrite(Overwrite(first, 12, Le32(KEY_TYPE_RSA)), 16, Le32(n)), 20, Le32(4));
            Overwrite(Overwrite(lengths, 24, m), 24 + n, e)
              == Overwrite(caller, 4, head + HalPayload(FwPublicKey(m, e)))
  {
  }

  lemma WrapTwice(a: int, b: int)
    ensures Wrap32(Wrap32(a) + b) == Wrap32(a + b)
  {
  }
}
