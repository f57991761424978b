/** What the request translation promises: the firmware can read back what the
    client asked for. */
module RequestProofs {
  import opened Bytes
  import opened Layout
  import opened Requests

  // ---------------------------------------------------------------- values

  lemma I2ospValue(n: u32)
    ensures Os2ip(I2osp4(n)) == n
  {
    var s: seq<byte> := I2osp4(n);
    var a: int, b: int, c: int, d: int := s[0], s[1], s[2], s[3];
    assert s[..3][..2][..1] == [s[0]] && s[..3][..2] == [s[0], s[1]] && s[..3] == [s[0], s[1], s[2]];
    assert [s[0]][..0] == [] && [s[0], s[1]][..1] == [s[0]] && [s[0], s[1], s[2]][..2] == [s[0], s[1]];
    assert Os2ip([s[0]]) == s[0];
    assert Os2ip([s[0], s[1]]) == a * 0x100 + b;
    assert Os2ip([s[0], s[1], s[2]]) == (a * 0x100 + b) * 0x100 + c;
    assert Os2ip(s) == ((a * 0x100 + b) * 0x100 + c) * 0x100 + d;
    assert n / 0x1_0000 == n / 0x100 / 0x100 && n / 0x100_0000 == n / 0x1_0000 / 0x100;
  }

  // The exponent sent with a generate command is the client's little-endian number
  // modulo 2^32, and the one sent with an import is the client's big-endian number.
  lemma ExponentValue(c: HalCommand, keyOpaqueSize: u32)
    requires Fits(c, keyOpaqueSize)
    ensures c.Generate? ==>
      Os2ip(Translate(c, keyOpaqueSize).exponent) == LittleEndian(c.publicExponent) % U32_RANGE
    ensures c.Import? ==> Os2ip(Translate(c, keyOpaqueSize).exponent) == Os2ip(c.publicExponent)
  {
    match c
    case Generate(_, _, _, e) => I2ospValue(Wrap32(LittleEndian(e)));
    case Import(_, _, e, _) => Os2ipLeadingZeros(4 - |e|, e);
    case _ =>
  }

  // ---------------------------------------------------------------- recovery

  // The command fills the front of the field, and zeros the rest of it.
  predicate FieldHolds(field: seq<byte>, d: seq<byte>)
  {
    |d| <= |field| && field[..|d|] == d && field[|d|..] == Zeros(|field| - |d|)
  }

  // Everything of a command that its request carries.  Lengths that are not sent
  // are only known up to trailing zeros, and what no field of the command fills is zero.
  ghost predicate Recovers(m: FwRequest, c: HalCommand, keyOpaqueSize: u32)
  {
    match c
    case Generate(_, bits, _, e) =>
      m.FwGenerate? && m.keySize == bits / 8 && Os2ip(m.exponent) == LittleEndian(e) % U32_RANGE
    case Import(_, n, e, d) =>
      && m.FwImport? && m.keySize == |n|
      && FieldHolds(m.modulus, n) && Os2ip(m.exponent) == Os2ip(e)
      && FieldHolds(m.privateExponent, d) && StripZeros(m.privateExponent) == StripZeros(d)
    case GetPublic(_, a) =>
      m.FwGetPublic? && keyOpaqueSize <= |a| && m.keyOpaque == a[..keyOpaqueSize]
    case Sign(b, d) =>
      && m.FwSign? && m.dataSize == |d| && FieldHolds(m.data, d)
      && FieldHolds(m.keyOpaque, b) && StripZeros(m.keyOpaque) == StripZeros(b)
    case Verify(b, d, s) =>
      && m.FwVerify? && m.dataSize == |d| && FieldHolds(m.data, d)
      && m.signatureSize == |s| && FieldHolds(m.signature, s)
      && FieldHolds(m.keyOpaque, b) && StripZeros(m.keyOpaque) == StripZeros(b)
  }

  lemma TranslationRecovers(c: HalCommand, keyOpaqueSize: u32)
    requires Fits(c, keyOpaqueSize)
    ensures Recovers(Translate(c, keyOpaqueSize), c, keyOpaqueSize)
  {
    ExponentValue(c, keyOpaqueSize);
    match c
    case Import(_, n, e, d) => StripPadding(d, MAX_KEY_SIZE);
    case Sign(b, d) => StripPadding(b, keyOpaqueSize);
    case Verify(b, d, s) => StripPadding(b, keyOpaqueSize);
    case _ =>
  }

  // ---------------------------------------------------------------- the firmware's reading

  lemma HeaderWords(id: u32, inputSize: u32, rest: seq<byte>)
    ensures var r := Header(id, inputSize) + rest;
            U32At(r, 0) == CLASS_KEY_MASTER && U32At(r, 4) == id && U32At(r, 8) == inputSize
  {
    var r := Header(id, inputSize) + rest;
    assert r[0..4] == Le32(CLASS_KEY_MASTER) && r[4..8] == Le32(id) && r[8..12] == Le32(inputSize);
    WordInField(r, 0, CLASS_KEY_MASTER);
    WordInField(r, 4, id);
    WordInField(r, 8, inputSize);
  }

  // The four words of fixed meaning at the start of every request but get-public.
  lemma LeadingWords(r: seq<byte>, id: u32, inputSize: u32, size: u32, rest: seq<byte>)
    requires r == Header(id, inputSize) + Le32(size) + rest
    ensures |r| == 16 + |rest| && r[16..] == rest
    ensures U32At(r, 0) == CLASS_KEY_MASTER && U32At(r, 4) == id && U32At(r, 8) == inputSize && U32At(r, 12) == size
  {
    assert r == Header(id, inputSize) + (Le32(size) + rest);
    HeaderWords(id, inputSize, Le32(size) + rest);
    assert r[12..16] == Le32(size);
    WordInField(r, 12, size);
  }

  lemma GenerateParses(k: u32, e: seq<byte>, r: seq<byte>, keyOpaqueSize: u32)
    requires |e| == 4 && r == Wire(FwGenerate(k, e), keyOpaqueSize)
    ensures ParseFw(r) == Some(FwGenerate(k, e)) && |r| == 20 + keyOpaqueSize && U32At(r, 8) == 8
  {
    assert r == Header(FW_GEN_KEY, 8) + Le32(k) + (e + Zeros(keyOpaqueSize));
    LeadingWords(r, FW_GEN_KEY, 8, k, e + Zeros(keyOpaqueSize));
    assert r[16..20] == r[16..][..4] == e;
  }

  lemma ImportParses(k: u32, e: seq<byte>, n: seq<byte>, d: seq<byte>, r: seq<byte>)
    requires |e| == 4 && |n| == |d| == MAX_KEY_SIZE && r == Wire(FwImport(k, e, n, d), 0)
    ensures ParseFw(r) == Some(FwImport(k, e, n, d)) && |r| == 532 && U32At(r, 8) == 520
  {
    assert r == Header(FW_IMPORT_KEY, 520) + Le32(k) + (e + n + d);
    LeadingWords(r, FW_IMPORT_KEY, 520, k, e + n + d);
    assert r[16..20] == r[16..][..4] == e;
    assert r[20..276] == r[16..][4..260] == n;
    assert r[276..532] == r[16..][260..516] == d;
  }

  lemma GetPublicParses(o: seq<byte>, r: seq<byte>, keyOpaqueSize: u32)
    requires WellSized(FwGetPublic(o), keyOpaqueSize) && r == Wire(FwGetPublic(o), keyOpaqueSize)
    ensures ParseFw(r) == Some(FwGetPublic(o)) && |r| == 12 + keyOpaqueSize && U32At(r, 8) == keyOpaqueSize
  {
    HeaderWords(FW_GET_PUBLIC_KEY, keyOpaqueSize, o);
    assert r[12..12 + keyOpaqueSize] == o;
  }

  lemma SignParses(n: u32, d: seq<byte>, o: seq<byte>, r: seq<byte>, keyOpaqueSize: u32)
    requires WellSized(FwSign(n, d, o), keyOpaqueSize) && r == Wire(FwSign(n, d, o), keyOpaqueSize)
    ensures ParseFw(r) == Some(FwSign(n, d, o)) && |r| == 272 + keyOpaqueSize && U32At(r, 8) == 260 + keyOpaqueSize
  {
    assert r == Header(FW_SIGN_DATA, 260 + keyOpaqueSize) + Le32(n) + (d + o);
    LeadingWords(r, FW_SIGN_DATA, 260 + keyOpaqueSize, n, d + o);
    assert r[16..272] == r[16..][..256] == d;
    assert r[272..272 + keyOpaqueSize] == r[16..][256..] == o;
  }

  lemma VerifyParses(n: u32, d: seq<byte>, k: u32, s: seq<byte>, o: seq<byte>, r: seq<byte>, keyOpaqueSize: u32)
    requires WellSized(FwVerify(n, d, k, s, o), keyOpaqueSize)
    requires r == Wire(FwVerify(n, d, k, s, o), keyOpaqueSize)
    ensures ParseFw(r) == Some(FwVerify(n, d, k, s, o))
    ensures |r| == 532 + keyOpaqueSize && U32At(r, 8) == 520 + keyOpaqueSize
  {
    var rest := d + Le32(k) + s + o;
    assert r == Header(FW_VERIFY_DATA, 520 + keyOpaqueSize) + Le32(n) + rest;
    LeadingWords(r, FW_VERIFY_DATA, 520 + keyOpaqueSize, n, rest);
    assert rest[..256] == d && rest[256..260] == Le32(k) && rest[260..516] == s && rest[516..] == o;
    assert r[16..272] == r[16..][..256];
    assert r[272..276] == r[16..][256..260];
    assert r[276..532] == r[16..][260..516];
    assert r[532..532 + keyOpaqueSize] == r[16..][516..];
    WordInField(r, 272, k);
  }

  // The firmware reads from the buffer the very request it was built for, and the
  // buffer's length and InputSize agree except for generate's surplus.
  lemma WireParses(m: FwRequest, keyOpaqueSize: u32)
    requires WellSized(m, keyOpaqueSize)
    ensures ParseFw(Wire(m, keyOpaqueSize)) == Some(m)
    ensures REQ_HEADER_SIZE + U32At(Wire(m, keyOpaqueSize), 8)
              == |Wire(m, keyOpaqueSize)| - (if m.FwGenerate? then keyOpaqueSize else 0)
  {
    var r := Wire(m, keyOpaqueSize);
    match m
    case FwGenerate(k, e) => GenerateParses(k, e, r, keyOpaqueSize);
    case FwImport(k, e, n, d) => ImportParses(k, e, n, d, r);
    case FwGetPublic(o) => GetPublicParses(o, r, keyOpaqueSize);
    case FwSign(n, d, o) => SignParses(n, d, o, r, keyOpaqueSize);
    case FwVerify(n, d, k, s, o) => VerifyParses(n, d, k, s, o, r, keyOpaqueSize);
  }

  lemma HeaderFromWords(r: seq<byte>)
    requires |r| >= 12 && U32At(r, 0) == CLASS_KEY_MASTER
    ensures r == Header(U32At(r, 4), U32At(r, 8)) + r[12..]
  {
    FieldOfWord(r, 0);
    FieldOfWord(r, 4);
    FieldOfWord(r, 8);
    assert r == r[0..4] + r[4..8] + r[8..12] + r[12..];
  }

  lemma VerifyDetermined(r: seq<byte>, keyOpaqueSize: u32)
    requires ParseFw(r).Some? && ParseFw(r).value.FwVerify? && |r| == 532 + keyOpaqueSize < U32_RANGE
    requires U32At(r, 8) == 520 + keyOpaqueSize
    ensures r == Wire(ParseFw(r).value, keyOpaqueSize)
  {
    HeaderFromWords(r);
    FieldOfWord(r, 12);
    FieldOfWord(r, 272);
    assert r[532..12 + U32At(r, 8)] == r[532..];
    assert r[12..] == Le32(U32At(r, 12)) + r[16..272] + Le32(U32At(r, 272)) + r[276..532] + r[532..];
  }

  lemma SignDetermined(r: seq<byte>, keyOpaqueSize: u32)
    requires ParseFw(r).Some? && ParseFw(r).value.FwSign? && |r| == 272 + keyOpaqueSize < U32_RANGE
    requires U32At(r, 8) == 260 + keyOpaqueSize
    ensures r == Wire(ParseFw(r).value, keyOpaqueSize)
  {
    HeaderFromWords(r);
    FieldOfWord(r, 12);
    assert r[272..12 + U32At(r, 8)] == r[272..];
    assert r[12..] == Le32(U32At(r, 12)) + r[16..272] + r[272..];
  }

  lemma GetPublicDetermined(r: seq<byte>, keyOpaqueSize: u32)
    requires ParseFw(r).Some? && ParseFw(r).value.FwGetPublic? && |r| == 12 + keyOpaqueSize < U32_RANGE
    requires U32At(r, 8) == keyOpaqueSize
    ensures r == Wire(ParseFw(r).value, keyOpaqueSize)
  {
    HeaderFromWords(r);
    assert r[12..12 + U32At(r, 8)] == r[12..];
  }

  lemma ImportDetermined(r: seq<byte>)
    requires ParseFw(r).Some? && ParseFw(r).value.FwImport? && |r| == 532
    ensures r == Wire(ParseFw(r).value, 0)
  {
    HeaderFromWords(r);
    FieldOfWord(r, 12);
    assert r[12..] == Le32(U32At(r, 12)) + r[16..20] + r[20..276] + r[276..532];
  }

  lemma GenerateDetermined(r: seq<byte>, keyOpaqueSize: u32)
    requires ParseFw(r).Some? && ParseFw(r).value.FwGenerate? && |r| == 20 + keyOpaqueSize
    requires r[20..] == Zeros(keyOpaqueSize)
    ensures r == Wire(ParseFw(r).value, keyOpaqueSize)
  {
    HeaderFromWords(r);
    FieldOfWord(r, 12);
    assert r[12..] == Le32(U32At(r, 12)) + r[16..20] + r[20..];
  }

  // Conversely, a buffer of the right size whose surplus is zero and that the
  // firmware reads as m is the wire form of m: no byte is left unaccounted for.
  lemma ParseDeterminesWire(r: seq<byte>, m: FwRequest, keyOpaqueSize: u32)
    requires WellSized(m, keyOpaqueSize) && ParseFw(r) == Some(m)
    requires |r| == |Wire(m, keyOpaqueSize)|
    requires m.FwGenerate? ==> r[20..] == Zeros(keyOpaqueSize)
    ensures r == Wire(m, keyOpaqueSize)
  {
    WireParses(m, keyOpaqueSize);
    match m
    case FwGenerate(k, e) => GenerateDetermined(r, keyOpaqueSize);
    case FwImport(k, e, n, d) => ImportDetermined(r);
    case FwGetPublic(o) => GetPublicDetermined(r, keyOpaqueSize);
    case FwSign(n, d, o) => SignDetermined(r, keyOpaqueSize);
    case FwVerify(n, d, k, s, o) => VerifyDetermined(r, keyOpaqueSize);
  }

  // ---------------------------------------------------------------- the client's view

  // No uint32 sum of the request's size wraps.
  ghost predicate SizeFits(id: u32, keyOpaqueSize: u32)
  {
    Known(id) ==> RequestSize(id, keyOpaqueSize) < U32_RANGE
  }

  lemma WireSize(m: FwRequest, keyOpaqueSize: u32)
    requires WellSized(m, keyOpaqueSize)
    ensures |Wire(m, keyOpaqueSize)| == match m
      case FwGenerate(_, _) => 20 + keyOpaqueSize
      case FwImport(_, _, _, _) => 532
      case FwGetPublic(_) => 12 + keyOpaqueSize
      case FwSign(_, _, _) => 272 + keyOpaqueSize
      case FwVerify(_, _, _, _, _) => 532 + keyOpaqueSize
  {
  }

  lemma AcceptedFits(cmd: seq<byte>, keyOpaqueSize: u32)
    requires Readable(cmd, keyOpaqueSize) && Accepted(cmd, keyOpaqueSize)
    requires SizeFits(U32At(cmd, 0), keyOpaqueSize)
    ensures Fits(HalOf(cmd, keyOpaqueSize), keyOpaqueSize)
    ensures WellSized(Translate(HalOf(cmd, keyOpaqueSize), keyOpaqueSize), keyOpaqueSize)
    ensures CommandId(HalOf(cmd, keyOpaqueSize)) == U32At(cmd, 0)
    ensures |Wire(Translate(HalOf(cmd, keyOpaqueSize), keyOpaqueSize), keyOpaqueSize)|
              == RequestSize(U32At(cmd, 0), keyOpaqueSize)
  {
    WireSize(Translate(HalOf(cmd, keyOpaqueSize), keyOpaqueSize), keyOpaqueSize);
  }

  // The whole round trip, for every buffer the library accepts.
  lemma RequestRoundTrip(cmd: seq<byte>, keyOpaqueSize: u32)
    requires Readable(cmd, keyOpaqueSize) && Accepted(cmd, keyOpaqueSize)
    requires SizeFits(U32At(cmd, 0), keyOpaqueSize)
    ensures var c := HalOf(cmd, keyOpaqueSize);
            && Fits(c, keyOpaqueSize)
            && WellSized(Translate(c, keyOpaqueSize), keyOpaqueSize)
            && var r := ParseFw(Wire(Translate(c, keyOpaqueSize), keyOpaqueSize));
               && r.Some? && Recovers(r.value, c, keyOpaqueSize)
               // generate's surplus, which no field covers, is zero as well
               && (c.Generate? ==> Wire(Translate(c, keyOpaqueSize), keyOpaqueSize)[20..] == Zeros(keyOpaqueSize))
  {
    AcceptedFits(cmd, keyOpaqueSize);
    var c := HalOf(cmd, keyOpaqueSize);
    TranslationRecovers(c, keyOpaqueSize);
    WireParses(Translate(c, keyOpaqueSize), keyOpaqueSize);
  }

  lemma SliceOfSlice(s: seq<byte>, t: seq<byte>, at: nat, lo: nat, hi: nat)
    requires at + |t| <= |s| && s[at..at + |t|] == t && lo <= hi <= |t|
    ensures s[at + lo..at + hi] == t[lo..hi]
  {
    var a, b := s[at + lo..at + hi], t[lo..hi];
    forall i | 0 <= i < |a| ensures a[i] == b[i] {
      assert s[at..at + |t|][lo + i] == t[lo + i];
    }
  }

  ghost predicate Holds(cmd: seq<byte>, c: HalCommand)
    requires Encodable(c)
  {
    && 8 + |HalData(c)| <= |cmd|
    && U32At(cmd, 0) == CommandId(c) && U32At(cmd, 4) == |HalData(c)|
    && cmd[8..8 + |HalData(c)|] == HalData(c)
  }

  ghost predicate Understood(cmd: seq<byte>, c: HalCommand, keyOpaqueSize: u32)
  {
    && Readable(cmd, keyOpaqueSize)
    && (Accepted(cmd, keyOpaqueSize) <==> Fits(c, keyOpaqueSize))
    && (Fits(c, keyOpaqueSize) ==> HalOf(cmd, keyOpaqueSize) == c)
  }

  lemma CommandWord(cmd: seq<byte>, c: HalCommand, off: nat, n: u32)
    requires Encodable(c) && Holds(cmd, c)
    requires off + 4 <= |HalData(c)| && HalData(c)[off..off + 4] == Le32(n)
    ensures U32At(cmd, 8 + off) == n
  {
    SliceOfSlice(cmd, HalData(c), 8, off, off + 4);
    WordInField(cmd, 8 + off, n);
  }

  lemma GenerateUnderstood(cmd: seq<byte>, c: HalCommand, keyOpaqueSize: u32)
    requires Encodable(c) && c.Generate? && Holds(cmd, c)
    ensures Understood(cmd, c, keyOpaqueSize)
  {
    var data := HalData(c);
    assert data[0..4] == Le32(c.keyType) && data[4..8] == Le32(c.modulusBits) && data[8..12] == Le32(c.reserved);
    CommandWord(cmd, c, 0, c.keyType);
    CommandWord(cmd, c, 4, c.modulusBits);
    CommandWord(cmd, c, 8, c.reserved);
    SliceOfSlice(cmd, data, 8, 12, 20);
  }

  lemma ImportLayout(c: HalCommand, data: seq<byte>)
    requires Encodable(c) && c.Import? && data == HalData(c)
    ensures var m, e, d := |c.modulus|, |c.publicExponent|, |c.privateExponent|;
            && |data| == 16 + m + e + d
            && data[0..4] == Le32(c.keyType) && data[4..8] == Le32(m)
            && data[8..12] == Le32(e) && data[12..16] == Le32(d)
            && data[16..16 + m] == c.modulus && data[16 + m..16 + m + e] == c.publicExponent
            && data[16 + m + e..16 + m + e + d] == c.privateExponent
  {
  }

  lemma VerifyLayout(c: HalCommand, data: seq<byte>)
    requires Encodable(c) && c.Verify? && data == HalData(c)
    ensures var b, d, s := |c.keyBlob|, |c.data|, |c.signature|;
            && |data| == 12 + b + d + s
            && data[0..4] == Le32(b) && data[4..8] == Le32(d) && data[8..12] == Le32(s)
            && data[12..12 + b] == c.keyBlob && data[12 + b..12 + b + d] == c.data
            && data[12 + b + d..12 + b + d + s] == c.signature
  {
  }

  lemma ImportWords(cmd: seq<byte>, c: HalCommand)
    requires Encodable(c) && c.Import? && Holds(cmd, c)
    ensures U32At(cmd, 8) == c.keyType && U32At(cmd, 12) == |c.modulus|
    ensures U32At(cmd, 16) == |c.publicExponent| && U32At(cmd, 20) == |c.privateExponent|
  {
    ImportLayout(c, HalData(c));
    CommandWord(cmd, c, 0, c.keyType);
    CommandWord(cmd, c, 4, |c.modulus|);
    CommandWord(cmd, c, 8, |c.publicExponent|);
    CommandWord(cmd, c, 12, |c.privateExponent|);
  }

  lemma ImportSlices(cmd: seq<byte>, c: HalCommand)
    requires Encodable(c) && c.Import? && Holds(cmd, c)
    ensures var m, e, d := |c.modulus|, |c.publicExponent|, |c.privateExponent|;
            && U32At(cmd, 4) == 16 + m + e + d && 24 + m + e + d <= |cmd|
            && cmd[24..24 + m] == c.modulus && cmd[24 + m..24 + m + e] == c.publicExponent
            && cmd[24 + m + e..24 + m + e + d] == c.privateExponent
  {
    var data, m, e, d := HalData(c), |c.modulus|, |c.publicExponent|, |c.privateExponent|;
    ImportLayout(c, data);
    SliceOfSlice(cmd, data, 8, 16, 16 + m);
    SliceOfSlice(cmd, data, 8, 16 + m, 16 + m + e);
    SliceOfSlice(cmd, data, 8, 16 + m + e, 16 + m + e + d);
  }

  lemma ImportUnderstood(cmd: seq<byte>, c: HalCommand, keyOpaqueSize: u32)
    requires Encodable(c) && c.Import? && Holds(cmd, c)
    ensures Understood(cmd, c, keyOpaqueSize)
  {
    ImportWords(cmd, c);
    ImportSlices(cmd, c);
    ImportFromFields(cmd, c, keyOpaqueSize);
  }

  lemma ImportFromFields(cmd: seq<byte>, c: HalCommand, keyOpaqueSize: u32)
    requires c.Import?
    requires var m, e, d := |c.modulus|, |c.publicExponent|, |c.privateExponent|;
             && 24 + m + e + d <= |cmd| && U32At(cmd, 0) == KM_IMPORT_KEYPAIR && U32At(cmd, 4) == 16 + m + e + d
             && U32At(cmd, 8) == c.keyType && U32At(cmd, 12) == m && U32At(cmd, 16) == e && U32At(cmd, 20) == d
             && cmd[24..24 + m] == c.modulus && cmd[24 + m..24 + m + e] == c.publicExponent
             && cmd[24 + m + e..24 + m + e + d] == c.privateExponent
    ensures Understood(cmd, c, keyOpaqueSize)
  {
  }

  lemma GetPublicUnderstood(cmd: seq<byte>, c: HalCommand, keyOpaqueSize: u32)
    requires Encodable(c) && c.GetPublic? && Holds(cmd, c)
    ensures Understood(cmd, c, keyOpaqueSize)
  {
    assert HalData(c)[0..4] == Le32(c.blobLength);
    CommandWord(cmd, c, 0, c.blobLength);
    SliceOfSlice(cmd, HalData(c), 8, 4, 4 + |c.area|);
  }

  lemma SignUnderstood(cmd: seq<byte>, c: HalCommand, keyOpaqueSize: u32)
    requires Encodable(c) && c.Sign? && Holds(cmd, c)
    ensures Understood(cmd, c, keyOpaqueSize)
  {
    var data, b, d := HalData(c), |c.keyBlob|, |c.data|;
    assert data[0..4] == Le32(b) && data[4..8] == Le32(d);
    CommandWord(cmd, c, 0, b);
    CommandWord(cmd, c, 4, d);
    SliceOfSlice(cmd, data, 8, 8, 8 + b);
    SliceOfSlice(cmd, data, 8, 8 + b, 8 + b + d);
  }

  lemma VerifyWords(cmd: seq<byte>, c: HalCommand)
    requires Encodable(c) && c.Verify? && Holds(cmd, c)
    ensures U32At(cmd, 8) == |c.keyBlob| && U32At(cmd, 12) == |c.data| && U32At(cmd, 16) == |c.signature|
  {
    VerifyLayout(c, HalData(c));
    CommandWord(cmd, c, 0, |c.keyBlob|);
    CommandWord(cmd, c, 4, |c.data|);
    CommandWord(cmd, c, 8, |c.signature|);
  }

  lemma VerifySlices(cmd: seq<byte>, c: HalCommand)
    requires Encodable(c) && c.Verify? && Holds(cmd, c)
    ensures var b, d, s := |c.keyBlob|, |c.data|, |c.signature|;
            && U32At(cmd, 4) == 12 + b + d + s && 20 + b + d + s <= |cmd|
            && cmd[20..20 + b] == c.keyBlob && cmd[20 + b..20 + b + d] == c.data
            && cmd[20 + b + d..20 + b + d + s] == c.signature
  {
    var data, b, d, s := HalData(c), |c.keyBlob|, |c.data|, |c.signature|;
    VerifyLayout(c, data);
    SliceOfSlice(cmd, data, 8, 12, 12 + b);
    SliceOfSlice(cmd, data, 8, 12 + b, 12 + b + d);
    SliceOfSlice(cmd, data, 8, 12 + b + d, 12 + b + d + s);
  }

  lemma VerifyUnderstood(cmd: seq<byte>, c: HalCommand, keyOpaqueSize: u32)
    requires Encodable(c) && c.Verify? && Holds(cmd, c)
    ensures Understood(cmd, c, keyOpaqueSize)
  {
    VerifyWords(cmd, c);
    VerifySlices(cmd, c);
    VerifyFromFields(cmd, c, keyOpaqueSize);
  }

  lemma VerifyFromFields(cmd: seq<byte>, c: HalCommand, keyOpaqueSize: u32)
    requires c.Verify?
    requires var b, d, s := |c.keyBlob|, |c.data|, |c.signature|;
             && 20 + b + d + s <= |cmd| && U32At(cmd, 0) == KM_VERIFY_DATA && U32At(cmd, 4) == 12 + b + d + s
             && U32At(cmd, 8) == b && U32At(cmd, 12) == d && U32At(cmd, 16) == s
             && cmd[20..20 + b] == c.keyBlob && cmd[20 + b..20 + b + d] == c.data
             && cmd[20 + b + d..20 + b + d + s] == c.signature
    ensures Understood(cmd, c, keyOpaqueSize)
  {
  }

  // A client that lays a command out as the HAL header says has it accepted exactly
  // when it fits, and understood as written, whatever follows it in the buffer.
  lemma HalBytesUnderstood(c: HalCommand, tail: seq<byte>, keyOpaqueSize: u32)
    requires Encodable(c)
    ensures Understood(HalBytes(c) + tail, c, keyOpaqueSize)
  {
    var cmd, data := HalBytes(c) + tail, HalData(c);
    assert cmd[0..4] == Le32(CommandId(c)) && cmd[4..8] == Le32(|data|) && cmd[8..8 + |data|] == data;
    WordInField(cmd, 0, CommandId(c));
    WordInField(cmd, 4, |data|);
    match c
    case Generate(_, _, _, _) => GenerateUnderstood(cmd, c, keyOpaqueSize);
    case Import(_, _, _, _) => ImportUnderstood(cmd, c, keyOpaqueSize);
    case GetPublic(_, _) => GetPublicUnderstood(cmd, c, keyOpaqueSize);
    case Sign(_, _) => SignUnderstood(cmd, c, keyOpaqueSize);
    case Verify(_, _, _) => VerifyUnderstood(cmd, c, keyOpaqueSize);
  }

  lemma CommandStart(c: HalCommand, tail: seq<byte>)
    requires Encodable(c)
    ensures |HalBytes(c) + tail| >= 8 && U32At(HalBytes(c) + tail, 0) == CommandId(c)
  {
    assert (HalBytes(c) + tail)[0..4] == Le32(CommandId(c));
    WordInField(HalBytes(c) + tail, 0, CommandId(c));
  }
}
