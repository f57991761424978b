/** The in-place construction of firmware requests: the five command builders and
    the dispatch that allocates and clears their buffer. */
module RequestBuilder {
  import opened Bytes
  import opened Layout
  import opened Requests
  import opened RequestProofs
  import opened Reversal
  import opened Transport

  // A freshly cleared request with its class and command id filled in.
  function Blank(id: u32, size: nat): (s: seq<byte>)
    requires size >= REQ_HEADER_SIZE
    ensures |s| == size
  {
    Header(id, 0) + Zeros(size - REQ_HEADER_SIZE)
  }

  lemma LittleEndianLow4(e: seq<byte>)
    requires |e| == 8
    ensures Reversed(e[..4]) == I2osp4(Wrap32(LittleEndian(e)))
  {
    var a: int, b: int, c: int, d: int := e[0], e[1], e[2], e[3];
    var high := LittleEndian(e[1..][1..][1..][1..]);
    assert LittleEndian(e) == a + 0x100 * LittleEndian(e[1..]);
    assert LittleEndian(e[1..]) == b + 0x100 * LittleEndian(e[1..][1..]);
    assert LittleEndian(e[1..][1..]) == c + 0x100 * LittleEndian(e[1..][1..][1..]);
    assert LittleEndian(e[1..][1..][1..]) == d + 0x100 * high;
    var low := a + 0x100 * b + 0x1_0000 * c + 0x100_0000 * d;
    assert LittleEndian(e) == low + U32_RANGE * high;
    LowWord(low, high);
    WordDigits(a, b, c, d);
  }

  lemma LowWord(low: u32, high: nat)
    ensures (low + U32_RANGE * high) % U32_RANGE == low
  {
  }

  lemma WordDigits(a: byte, b: byte, c: byte, d: byte)
    ensures var n: int := a as int + 0x100 * b as int + 0x1_0000 * c as int + 0x100_0000 * d as int;
            0 <= n < U32_RANGE && I2osp4(n) == [d, c, b, a]
  {
    var x: int, y: int, z: int, w: int := a, b, c, d;
    var n := x + 0x100 * y + 0x1_0000 * z + 0x100_0000 * w;
    assert n == x + 0x100 * (y + 0x100 * (z + 0x100 * w));
    assert n / 0x100 == y + 0x100 * (z + 0x100 * w);
    assert n / 0x1_0000 == n / 0x100 / 0x100 == z + 0x100 * w;
    assert n / 0x100_0000 == n / 0x1_0000 / 0x100 == w;
  }

  // ---------------------------------------------------------------- generate

  // The buffer the generate builder leaves, store by store.
  function GenerateImage(c: seq<byte>, keyOpaqueSize: u32): seq<byte>
    requires |c| >= 28
  {
    var r1 := Overwrite(Blank(FW_GEN_KEY, 20 + keyOpaqueSize), 12, Le32(U32At(c, 12) / 8));
    var r2 := Overwrite(r1, 16, c[20..24]);
    var r3 := Overwrite(r2, 16, Reversed(r2[16..20]));
    Overwrite(r3, 8, Le32(8))
  }

  lemma GenerateStored(k: u32, e: seq<byte>, e': seq<byte>, keyOpaqueSize: u32)
    requires |e| == |e'| == 4
    ensures var r1 := Overwrite(Blank(FW_GEN_KEY, 20 + keyOpaqueSize), 12, Le32(k));
            var r3 := Overwrite(Overwrite(r1, 16, e), 16, e');
            Overwrite(r3, 8, Le32(8)) == Wire(FwGenerate(k, e'), keyOpaqueSize)
  {
  }

  lemma GenerateBuilt(c: seq<byte>, keyOpaqueSize: u32)
    requires Readable(c, keyOpaqueSize) && U32At(c, 0) == KM_GENERATE_KEYPAIR && Accepted(c, keyOpaqueSize)
    ensures GenerateImage(c, keyOpaqueSize) == Wire(Translate(HalOf(c, keyOpaqueSize), keyOpaqueSize), keyOpaqueSize)
  {
    var e := c[20..28];
    var r1 := Overwrite(Blank(FW_GEN_KEY, 20 + keyOpaqueSize), 12, Le32(U32At(c, 12) / 8));
    assert c[20..24] == e[..4];
    OverwriteAt(r1, 16, e[..4]);
    LittleEndianLow4(e);
    GenerateStored(U32At(c, 12) / 8, e[..4], Reversed(e[..4]), keyOpaqueSize);
  }

  method GenerateKeypairCmdBuf(cmd: seq<byte>, fw: array<byte>, ghost keyOpaqueSize: u32)
    returns (result: SepResult)
    requires Readable(cmd, keyOpaqueSize) && U32At(cmd, 0) == KM_GENERATE_KEYPAIR
    requires fw[..] == Blank(FW_GEN_KEY, 20 + keyOpaqueSize)
    modifies fw
    ensures !Accepted(cmd, keyOpaqueSize) ==> result == Rejection(cmd, keyOpaqueSize)
    ensures Accepted(cmd, keyOpaqueSize) ==>
      result == Success && fw[..] == Wire(Translate(HalOf(cmd, keyOpaqueSize), keyOpaqueSize), keyOpaqueSize)
  {
    if U32At(cmd, 4) < 20 {
      return BadParameter;
    }
    if U32At(cmd, 8) != KEY_TYPE_RSA {
      return BadParameter;
    }
    PutU32(fw, 12, U32At(cmd, 12) / 8);
    // Only the low four of the exponent's eight bytes are taken.
    Store(fw, 16, cmd[20..20 + EXPONENT_SIZE]);
    SwapByteOrder(fw, 16, EXPONENT_SIZE);
    PutU32(fw, 8, 8);
    result := Success;

    assert fw[..] == GenerateImage(cmd, keyOpaqueSize);
    GenerateBuilt(cmd, keyOpaqueSize);
  }

  // ---------------------------------------------------------------- import

  function ImportImage(n: seq<byte>, e: seq<byte>, d: seq<byte>): seq<byte>
    requires |n| <= MAX_KEY_SIZE && |e| <= 4 && |d| <= MAX_KEY_SIZE
  {
    var r1 := Overwrite(Blank(FW_IMPORT_KEY, 532), 12, Le32(|n|));
    var r3 := Overwrite(Overwrite(r1, 20, n), 16, Zeros(4));
    var r5 := Overwrite(Overwrite(r3, 20 - |e|, e), 276, d);
    Overwrite(r5, 8, Le32(520))
  }

  lemma ImportStored(n: seq<byte>, e: seq<byte>, d: seq<byte>)
    requires |n| <= MAX_KEY_SIZE && |e| <= 4 && |d| <= MAX_KEY_SIZE
    ensures ImportImage(n, e, d)
              == Wire(FwImport(|n|, LeftPadded(e, 4), Padded(n, MAX_KEY_SIZE), Padded(d, MAX_KEY_SIZE)), 0)
  {
  }

  lemma ImportBuilt(c: seq<byte>, keyOpaqueSize: u32)
    requires Readable(c, keyOpaqueSize) && U32At(c, 0) == KM_IMPORT_KEYPAIR && Accepted(c, keyOpaqueSize)
    ensures var m, e, d := U32At(c, 12), U32At(c, 16), U32At(c, 20);
            ImportImage(c[24..24 + m], c[24 + m..24 + m + e], c[24 + m + e..24 + m + e + d])
              == Wire(Translate(HalOf(c, keyOpaqueSize), keyOpaqueSize), keyOpaqueSize)
  {
    var h := HalOf(c, keyOpaqueSize);
    ImportStored(h.modulus, h.publicExponent, h.privateExponent);
  }

  method ImportKeypairCmdBuf(cmd: seq<byte>, fw: array<byte>, ghost keyOpaqueSize: u32) returns (result: SepResult)
    requires Readable(cmd, keyOpaqueSize) && U32At(cmd, 0) == KM_IMPORT_KEYPAIR
    requires fw[..] == Blank(FW_IMPORT_KEY, 532)
    modifies fw
    ensures !Accepted(cmd, keyOpaqueSize) ==> result == Rejection(cmd, keyOpaqueSize)
    ensures Accepted(cmd, keyOpaqueSize) ==>
      result == Success && fw[..] == Wire(Translate(HalOf(cmd, keyOpaqueSize), keyOpaqueSize), keyOpaqueSize)
  {
    hide Wire, Overwrite, Translate, HalOf, Blank;
    if U32At(cmd, 4) < 16 {
      return BadParameter;
    }
    var m, e, d := U32At(cmd, 12), U32At(cmd, 16), U32At(cmd, 20);
    if !(e <= EXPONENT_SIZE && m <= MAX_KEY_SIZE && d <= MAX_KEY_SIZE) {
      return BadParameter;
    }
    PutU32(fw, 12, m);
    Store(fw, 20, cmd[24..24 + m]);
    Clear(fw, 16, EXPONENT_SIZE);
    Store(fw, 16 + EXPONENT_SIZE - e, cmd[24 + m..24 + m + e]);
    Store(fw, 276, cmd[24 + m + e..24 + m + e + d]);
    PutU32(fw, 8, 520);
    result := Success;

    ImportBuilt(cmd, keyOpaqueSize);
  }

  // ---------------------------------------------------------------- get public key

  lemma GetPublicStored(o: seq<byte>, keyOpaqueSize: u32)
    requires |o| == keyOpaqueSize && 12 + keyOpaqueSize < U32_RANGE
    ensures Overwrite(Overwrite(Blank(FW_GET_PUBLIC_KEY, 12 + keyOpaqueSize), 12, o), 8, Le32(keyOpaqueSize))
              == Wire(FwGetPublic(o), keyOpaqueSize)
  {
    var blank := Blank(FW_GET_PUBLIC_KEY, 12 + keyOpaqueSize);
    var r := Overwrite(Overwrite(blank, 12, o), 8, Le32(keyOpaqueSize));
    OverwriteAt(blank, 12, o);
    OverwriteAt(Overwrite(blank, 12, o), 8, Le32(keyOpaqueSize));
    OverwriteElsewhere(Overwrite(blank, 12, o), 8, Le32(keyOpaqueSize), 12, |r|);
    assert r[..8] == blank[..8] == Le32(CLASS_KEY_MASTER) + Le32(FW_GET_PUBLIC_KEY);
    assert r == r[..8] + r[8..12] + r[12..|r|];
  }

  lemma GetPublicBuilt(c: seq<byte>, keyOpaqueSize: u32)
    requires Readable(c, keyOpaqueSize) && U32At(c, 0) == KM_GET_KEYPAIR_PUBLIC && Accepted(c, keyOpaqueSize)
    requires 12 + keyOpaqueSize < U32_RANGE
    ensures Overwrite(Overwrite(Blank(FW_GET_PUBLIC_KEY, 12 + keyOpaqueSize), 12, c[12..12 + keyOpaqueSize]),
                      8, Le32(keyOpaqueSize))
              == Wire(Translate(HalOf(c, keyOpaqueSize), keyOpaqueSize), keyOpaqueSize)
  {
    hide Wire, Overwrite, Blank;
    var o := c[12..12 + keyOpaqueSize];
    assert HalOf(c, keyOpaqueSize).area[..keyOpaqueSize] == o;
    GetPublicStored(o, keyOpaqueSize);
  }

  method GetPublicKeypairCmdBuf(cmd: seq<byte>, fw: array<byte>, keyOpaqueSize: u32)
    returns (result: SepResult)
    requires Readable(cmd, keyOpaqueSize) && U32At(cmd, 0) == KM_GET_KEYPAIR_PUBLIC
    requires 12 + keyOpaqueSize < U32_RANGE && fw[..] == Blank(FW_GET_PUBLIC_KEY, 12 + keyOpaqueSize)
    modifies fw
    ensures !Accepted(cmd, keyOpaqueSize) ==> result == Rejection(cmd, keyOpaqueSize)
    ensures Accepted(cmd, keyOpaqueSize) ==>
      result == Success && fw[..] == Wire(Translate(HalOf(cmd, keyOpaqueSize), keyOpaqueSize), keyOpaqueSize)
  {
    if U32At(cmd, 4) < 4 + keyOpaqueSize {
      return BadParameter;
    }
    Store(fw, 12, cmd[12..12 + keyOpaqueSize]);
    PutU32(fw, 8, keyOpaqueSize);
    result := Success;

    GetPublicBuilt(cmd, keyOpaqueSize);
  }

  // ---------------------------------------------------------------- sign

  function SignImage(d: seq<byte>, b: seq<byte>, keyOpaqueSize: u32): seq<byte>
    requires |d| <= MAX_KEY_SIZE && |b| <= keyOpaqueSize && 272 + keyOpaqueSize < U32_RANGE
  {
    var r1 := Overwrite(Blank(FW_SIGN_DATA, 272 + keyOpaqueSize), 12, Le32(|d|));
    var r3 := Overwrite(Overwrite(r1, 272, b), 16, d);
    Overwrite(r3, 8, Le32(260 + keyOpaqueSize))
  }

  lemma SignStored(d: seq<byte>, b: seq<byte>, keyOpaqueSize: u32)
    requires |d| <= MAX_KEY_SIZE && |b| <= keyOpaqueSize && 272 + keyOpaqueSize < U32_RANGE
    ensures SignImage(d, b, keyOpaqueSize)
              == Wire(FwSign(|d|, Padded(d, MAX_KEY_SIZE), Padded(b, keyOpaqueSize)), keyOpaqueSize)
  {
  }

  lemma SignBuilt(c: seq<byte>, keyOpaqueSize: u32)
    requires Readable(c, keyOpaqueSize) && U32At(c, 0) == KM_SIGN_DATA && Accepted(c, keyOpaqueSize)
    requires 272 + keyOpaqueSize < U32_RANGE
    ensures var b, d := U32At(c, 8), U32At(c, 12);
            SignImage(c[16 + b..16 + b + d], c[16..16 + b], keyOpaqueSize)
              == Wire(Translate(HalOf(c, keyOpaqueSize), keyOpaqueSize), keyOpaqueSize)
  {
    var h := HalOf(c, keyOpaqueSize);
    SignStored(h.data, h.keyBlob, keyOpaqueSize);
  }

  method SignDataCmdBuf(cmd: seq<byte>, fw: array<byte>, keyOpaqueSize: u32) returns (result: SepResult)
    requires Readable(cmd, keyOpaqueSize) && U32At(cmd, 0) == KM_SIGN_DATA
    requires 272 + keyOpaqueSize < U32_RANGE && fw[..] == Blank(FW_SIGN_DATA, 272 + keyOpaqueSize)
    modifies fw
    ensures !Accepted(cmd, keyOpaqueSize) ==> result == Rejection(cmd, keyOpaqueSize)
    ensures Accepted(cmd, keyOpaqueSize) ==>
      result == Success && fw[..] == Wire(Translate(HalOf(cmd, keyOpaqueSize), keyOpaqueSize), keyOpaqueSize)
  {
    hide Wire, Overwrite, Translate, HalOf, Blank;
    if U32At(cmd, 4) < 8 {
      return BadParameter;
    }
    var b, d := U32At(cmd, 8), U32At(cmd, 12);
    PutU32(fw, 12, d);
    if !(d <= MAX_KEY_SIZE && b <= keyOpaqueSize) {
      return CmdBufferTooBig;
    }
    Store(fw, 272, cmd[16..16 + b]);
    Store(fw, 16, cmd[16 + b..16 + b + d]);
    PutU32(fw, 8, 260 + keyOpaqueSize);
    result := Success;

    SignBuilt(cmd, keyOpaqueSize);
  }

  // ---------------------------------------------------------------- verify

  function VerifyImage(d: seq<byte>, s: seq<byte>, b: seq<byte>, keyOpaqueSize: u32): seq<byte>
    requires |d| <= MAX_KEY_SIZE && |s| <= MAX_KEY_SIZE && |b| <= keyOpaqueSize && 532 + keyOpaqueSize < U32_RANGE
  {
    var r1 := Overwrite(Blank(FW_VERIFY_DATA, 532 + keyOpaqueSize), 12, Le32(|d|));
    var r3 := Overwrite(Overwrite(r1, 272, Le32(|s|)), 532, b);
    var r5 := Overwrite(Overwrite(r3, 16, d), 276, s);
    Overwrite(r5, 8, Le32(520 + keyOpaqueSize))
  }

  lemma VerifyStored(d: seq<byte>, s: seq<byte>, b: seq<byte>, keyOpaqueSize: u32)
    requires |d| <= MAX_KEY_SIZE && |s| <= MAX_KEY_SIZE && |b| <= keyOpaqueSize && 532 + keyOpaqueSize < U32_RANGE
    ensures VerifyImage(d, s, b, keyOpaqueSize)
              == Wire(FwVerify(|d|, Padded(d, MAX_KEY_SIZE), |s|, Padded(s, MAX_KEY_SIZE),
                               Padded(b, keyOpaqueSize)), keyOpaqueSize)
  {
  }

  lemma VerifyBuilt(c: seq<byte>, keyOpaqueSize: u32)
    requires Readable(c, keyOpaqueSize) && U32At(c, 0) == KM_VERIFY_DATA && Accepted(c, keyOpaqueSize)
    requires 532 + keyOpaqueSize < U32_RANGE
    ensures var b, d, s := U32At(c, 8), U32At(c, 12), U32At(c, 16);
            VerifyImage(c[20 + b..20 + b + d], c[20 + b + d..20 + b + d + s], c[20..20 + b], keyOpaqueSize)
              == Wire(Translate(HalOf(c, keyOpaqueSize), keyOpaqueSize), keyOpaqueSize)
  {
    var h := HalOf(c, keyOpaqueSize);
    VerifyStored(h.data, h.signature, h.keyBlob, keyOpaqueSize);
  }

  method VerifyDataCmdBuf(cmd: seq<byte>, fw: array<byte>, keyOpaqueSize: u32) returns (result: SepResult)
    requires Readable(cmd, keyOpaqueSize) && U32At(cmd, 0) == KM_VERIFY_DATA
    requires 532 + keyOpaqueSize < U32_RANGE && fw[..] == Blank(FW_VERIFY_DATA, 532 + keyOpaqueSize)
    modifies fw
    ensures !Accepted(cmd, keyOpaqueSize) ==> result == Rejection(cmd, keyOpaqueSize)
    ensures Accepted(cmd, keyOpaqueSize) ==>
      result == Success && fw[..] == Wire(Translate(HalOf(cmd, keyOpaqueSize), keyOpaqueSize), keyOpaqueSize)
  {
    hide Wire, Overwrite, Translate, HalOf, Blank;
    if U32At(cmd, 4) < 12 {
      return BadParameter;
    }
    var b, d, s := U32At(cmd, 8), U32At(cmd, 12), U32At(cmd, 16);
    PutU32(fw, 12, d);
    if d > MAX_KEY_SIZE {
      return CmdBufferTooBig;
    }
    PutU32(fw, 272, s);
    if s > MAX_KEY_SIZE {
      return CmdBufferTooBig;
    }
    if b > keyOpaqueSize {
      return CmdBufferTooBig;
    }
    Store(fw, 532, cmd[20..20 + b]);
    Store(fw, 16, cmd[20 + b..20 + b + d]);
    Store(fw, 276, cmd[20 + b + d..20 + b + d + s]);
    PutU32(fw, 8, 520 + keyOpaqueSize);
    result := Success;

    VerifyBuilt(cmd, keyOpaqueSize);
  }

  // ---------------------------------------------------------------- dispatch

  // The request is allocated, cleared, given its class and command id, and filled in.
  // A request that was allocated is handed back even if its builder fails.
  method GenerateCmdBuf(p: Platform, cmd: seq<byte>, keyOpaqueSize: u32, available: bool)
    returns (result: SepResult, request: array?<byte>)
    requires Readable(cmd, keyOpaqueSize) && SizeFits(U32At(cmd, 0), keyOpaqueSize)
    modifies p`live
    ensures request != null <==> Known(U32At(cmd, 0)) && available
    ensures request == null ==> p.live == old(p.live)
    ensures request == null ==> result == if Known(U32At(cmd, 0)) then OutOfMemory else Failure
    ensures request != null ==> fresh(request) && p.live == old(p.live) + {request}
    ensures request != null ==> request.Length == RequestSize(U32At(cmd, 0), keyOpaqueSize)
    ensures request != null && !Accepted(cmd, keyOpaqueSize) ==> result == Rejection(cmd, keyOpaqueSize)
    ensures request != null && Accepted(cmd, keyOpaqueSize) ==>
      result == Success && request[..] == Wire(Translate(HalOf(cmd, keyOpaqueSize), keyOpaqueSize), keyOpaqueSize)
  {
    hide Wire, Overwrite, Translate, HalOf, Blank, Accepted, Rejection;
    var id := U32At(cmd, 0);
    if !Known(id) {
      return Failure, null;
    }
    request := p.Malloc(RequestSize(id, keyOpaqueSize), available);
    if request == null {
      return OutOfMemory, null;
    }
    Prepare(request, FwId(id));
    if id == KM_GENERATE_KEYPAIR {
      result := GenerateKeypairCmdBuf(cmd, request, keyOpaqueSize);
    } else if id == KM_IMPORT_KEYPAIR {
      result := ImportKeypairCmdBuf(cmd, request, keyOpaqueSize);
    } else if id == KM_GET_KEYPAIR_PUBLIC {
      result := GetPublicKeypairCmdBuf(cmd, request, keyOpaqueSize);
    } else if id == KM_SIGN_DATA {
      result := SignDataCmdBuf(cmd, request, keyOpaqueSize);
    } else {
      result := VerifyDataCmdBuf(cmd, request, keyOpaqueSize);
    }
  }

  // Clearing, then CmdClass and CmdId.
  method Prepare(request: array<byte>, id: u32)
    requires request.Length >= REQ_HEADER_SIZE
    modifies request
    ensures request[..] == Blank(id, request.Length)
  {
    var n := request.Length;
    Clear(request, 0, n);
    PutU32(request, 0, CLASS_KEY_MASTER);
    PutU32(request, 4, id);
    PrepareStored(request[..], old(request[..]), id, n);
  }

  lemma PrepareStored(r: seq<byte>, s: seq<byte>, id: u32, n: nat)
    requires n == |s| >= REQ_HEADER_SIZE
    requires r == Overwrite(Overwrite(Overwrite(s, 0, Zeros(n)), 0, Le32(CLASS_KEY_MASTER)), 4, Le32(id))
    ensures r == Blank(id, n)
  {
  }
}
