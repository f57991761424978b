/** The memory a request builder writes, against the memory it was given. */
module RequestMemory {
  import opened Bytes
  import opened Layout
  import opened Requests
  import opened RequestProofs

  // What malloc is asked for: a 32-bit sum of the structure and the opaque size.
  function Allocated(id: u32, keyOpaqueSize: u32): u32
    requires Known(id)
  {
    Wrap32(RequestSize(id, keyOpaqueSize))
  }

  // Every range of the request that is stored into for an accepted command.
  ghost function Stores(cmd: seq<byte>, keyOpaqueSize: u32): seq<Range>
    requires Readable(cmd, keyOpaqueSize) && Accepted(cmd, keyOpaqueSize)
  {
    [Range(0, 4), Range(4, 8), Range(8, 12)]
    + match HalOf(cmd, keyOpaqueSize)
      case Generate(_, _, _, _) => [Range(12, 16), Range(16, 20)]
      case Import(_, n, e, d) =>
        [Range(12, 16), Range(20, 20 + |n|), Range(16, 20), Range(20 - |e|, 20), Range(276, 276 + |d|)]
      case GetPublic(_, _) => [Range(12, 12 + keyOpaqueSize)]
      case Sign(b, d) => [Range(12, 16), Range(272, 272 + |b|), Range(16, 16 + |d|)]
      case Verify(b, d, s) =>
        [Range(12, 16), Range(272, 276), Range(532, 532 + |b|), Range(16, 16 + |d|), Range(276, 276 + |s|)]
  }

  lemma Fields(cmd: seq<byte>, keyOpaqueSize: u32)
    requires Readable(cmd, keyOpaqueSize) && Accepted(cmd, keyOpaqueSize)
    ensures Fits(HalOf(cmd, keyOpaqueSize), keyOpaqueSize) && CommandId(HalOf(cmd, keyOpaqueSize)) == U32At(cmd, 0)
  {
  }

  // The stores stay inside the request exactly when the size asked for does not wrap.
  lemma RequestSizing(cmd: seq<byte>, keyOpaqueSize: u32)
    requires Readable(cmd, keyOpaqueSize) && Accepted(cmd, keyOpaqueSize)
    ensures Inside(Stores(cmd, keyOpaqueSize), Allocated(U32At(cmd, 0), keyOpaqueSize)) <==>
            SizeFits(U32At(cmd, 0), keyOpaqueSize)
  {
    hide HalOf, U32At;
    Fields(cmd, keyOpaqueSize);
    var w := Stores(cmd, keyOpaqueSize);
    match HalOf(cmd, keyOpaqueSize)
    case Generate(_, _, _, _) => assert w[4] == Range(16, 20);
    case Import(_, n, e, d) =>
    case GetPublic(_, _) => assert w[2] == Range(8, 12);
    case Sign(b, d) => assert w[4] == Range(272, 272 + |b|);
    case Verify(b, d, s) => assert w[5] == Range(532, 532 + |b|);
  }

  // The list is that of the builder: what it does not name is zero as it was cleared.
  lemma StoresFrame(cmd: seq<byte>, keyOpaqueSize: u32)
    requires Readable(cmd, keyOpaqueSize) && Accepted(cmd, keyOpaqueSize) && SizeFits(U32At(cmd, 0), keyOpaqueSize)
    ensures var c := HalOf(cmd, keyOpaqueSize);
            && Fits(c, keyOpaqueSize) && WellSized(Translate(c, keyOpaqueSize), keyOpaqueSize)
            && var m := Wire(Translate(c, keyOpaqueSize), keyOpaqueSize);
               && |m| == Allocated(U32At(cmd, 0), keyOpaqueSize)
               && forall i :: 0 <= i < |m| && !Within(i, Stores(cmd, keyOpaqueSize)) ==> m[i] == 0
  {
    hide HalOf, U32At, Wire, Padded, LeftPadded;
    AcceptedFits(cmd, keyOpaqueSize);
    var c := HalOf(cmd, keyOpaqueSize);
    var m, w := Wire(Translate(c, keyOpaqueSize), keyOpaqueSize), Stores(cmd, keyOpaqueSize);
    forall i | 0 <= i < |m| && !Within(i, w) ensures m[i] == 0 {
      assert !(w[0].lo <= i < w[0].hi) && !(w[1].lo <= i < w[1].hi) && !(w[2].lo <= i < w[2].hi);
      assert !(w[3].lo <= i < w[3].hi);
      assert |w| > 4 ==> !(w[4].lo <= i < w[4].hi);
      assert |w| > 5 ==> !(w[5].lo <= i < w[5].hi);
      assert |w| > 6 ==> !(w[6].lo <= i < w[6].hi);
      assert |w| > 7 ==> !(w[7].lo <= i < w[7].hi);
      match c
      case Generate(_, _, _, _) => GenerateZero(Translate(c, keyOpaqueSize), keyOpaqueSize, i);
      case Import(_, n, e, d) => ImportZero(LeftPadded(e, 4), n, d, keyOpaqueSize, i);
      case GetPublic(_, _) =>
      case Sign(b, d) => SignZero(d, b, keyOpaqueSize, i);
      case Verify(b, d, s) => VerifyZero(d, s, b, keyOpaqueSize, i);
    }
  }

  lemma GenerateZero(m: FwRequest, keyOpaqueSize: u32, i: nat)
    requires m.FwGenerate? && WellSized(m, keyOpaqueSize) && 20 <= i < |Wire(m, keyOpaqueSize)|
    ensures Wire(m, keyOpaqueSize)[i] == 0
  {
  }

  lemma ImportZero(e: seq<byte>, n: seq<byte>, d: seq<byte>, keyOpaqueSize: u32, i: nat)
    requires |e| == 4 && |n| <= MAX_KEY_SIZE && |d| <= MAX_KEY_SIZE
    requires 20 + |n| <= i < 276 || 276 + |d| <= i < 532
    ensures var m := Wire(FwImport(|n|, e, Padded(n, MAX_KEY_SIZE), Padded(d, MAX_KEY_SIZE)), keyOpaqueSize);
            |m| == 532 && m[i] == 0
  {
  }

  lemma SignZero(d: seq<byte>, b: seq<byte>, keyOpaqueSize: u32, i: nat)
    requires |d| <= MAX_KEY_SIZE && |b| <= keyOpaqueSize && 272 + keyOpaqueSize < U32_RANGE
    requires 16 + |d| <= i < 272 || 272 + |b| <= i < 272 + keyOpaqueSize
    ensures var m := Wire(FwSign(|d|, Padded(d, MAX_KEY_SIZE), Padded(b, keyOpaqueSize)), keyOpaqueSize);
            |m| == 272 + keyOpaqueSize && m[i] == 0
  {
  }

  lemma VerifyZero(d: seq<byte>, s: seq<byte>, b: seq<byte>, keyOpaqueSize: u32, i: nat)
    requires |d| <= MAX_KEY_SIZE && |s| <= MAX_KEY_SIZE && |b| <= keyOpaqueSize && 532 + keyOpaqueSize < U32_RANGE
    requires 16 + |d| <= i < 272 || 276 + |s| <= i < 532 || 532 + |b| <= i < 532 + keyOpaqueSize
    ensures var m := Wire(FwVerify(|d|, Padded(d, MAX_KEY_SIZE), |s|, Padded(s, MAX_KEY_SIZE),
                                   Padded(b, keyOpaqueSize)), keyOpaqueSize);
            |m| == 532 + keyOpaqueSize && m[i] == 0
  {
  }

  // An opaque size sixteen short of 2^32: 256 bytes are asked for, and the key blob
  // belongs at offset 272.
  lemma HugeOpaqueSize()
    ensures var cmd: seq<byte>, k := HalBytes(Sign([], [])), 0xFFFF_FFF0;
            && Readable(cmd, k) && Accepted(cmd, k) && U32At(cmd, 0) == KM_SIGN_DATA
            && Allocated(KM_SIGN_DATA, k) == 256 && !Inside(Stores(cmd, k), 256)
  {
    hide HalBytes, Readable, Accepted, Stores, U32At, Le32, Inside;
    var c, k := Sign([], []), 0xFFFF_FFF0;
    HalBytesUnderstood(c, [], k);
    CommandStart(c, []);
    assert HalBytes(c) + [] == HalBytes(c);
    RequestSizing(HalBytes(c), k);
  }
}
