/** The bounded log formatter: a fixed buffer of 1024 characters, appends that
    truncate, and a final pass that leaves exactly one newline. */
module Log {
  import opened Bytes
  import opened LogText
  import opened LogProofs

  // snprintf of text into the buffer from off: as much as leaves room for the null.
  function Printed(b: string, off: nat, text: Text): (r: string)
    requires off < |b|
    ensures |r| == |b|
  {
    var k := Min(|text|, |b| - off - 1);
    b[..off] + text[..k] + [NUL] + b[off + k + 1..]
  }

  method Print(buffer: array<char>, off: nat, text: Text) returns (written: nat)
    requires off < buffer.Length
    modifies buffer
    ensures written == |text| && buffer[..] == Printed(old(buffer[..]), off, text)
  {
    var k := Min(|text|, buffer.Length - off - 1);
    for i := 0 to k
      invariant forall j :: 0 <= j < buffer.Length ==>
        buffer[j] == if off <= j < off + i then text[j - off] else old(buffer[j])
    {
      buffer[off + i] := text[i];
    }
    buffer[off + k] := NUL;
    written := |text|;
    assert buffer[..] == Printed(old(buffer[..]), off, text);
  }

  // Terminate the string in the buffer with exactly one newline and a null.
  method NewlineTerminate(buffer: array<char>, bufferLen: int, totalWritten: int) returns (length: int)
    requires bufferLen == buffer.Length
    modifies buffer
    ensures var k := LastText(old(buffer[..]), ScanFrom(bufferLen, totalWritten));
            length == k + 2 && buffer[..] == Terminated(old(buffer[..]), k)
  {
    var i := if totalWritten > bufferLen - 3 then bufferLen - 3 else totalWritten;
    while i >= 0
      invariant i <= bufferLen - 3
      invariant LastText(buffer[..], ScanFrom(bufferLen, totalWritten)) == LastText(buffer[..], i)
      invariant buffer[..] == old(buffer[..])
    {
      if buffer[i] != NUL && buffer[i] != NEWLINE {
        buffer[i + 1] := NEWLINE;
        buffer[i + 2] := NUL;
        break;
      }
      i := i - 1;
    }
    length := i + 2;
  }

  // ---------------------------------------------------------------- the buffer's contents

  // The buffer holds the C string t (which may begin with a null when nothing was
  // ever written in front of it).
  ghost predicate Starts(b: string, t: string)
  {
    |b| == BUFFER_SIZE && |t| < BUFFER_SIZE && b[..|t|] == t
  }

  ghost predicate Holds(b: string, t: string)
  {
    Starts(b, t) && b[|t|] == NUL
  }

  lemma AppendFits(b: string, t: string, text: Text)
    requires Starts(b, t) && |t| + |text| < BUFFER_SIZE
    ensures Holds(Printed(b, |t|, text), t + text)
  {
  }

  // An append that does not fit leaves the first 1023 characters of the whole, and the
  // marker is then written over the last of them.
  lemma AppendOverflows(b: string, t: string, text: Text)
    requires Starts(b, t) && |t| + |text| >= BUFFER_SIZE
    ensures var r := Printed(Printed(b, |t|, text), MARKER_AT, MARKER);
            |r| == BUFFER_SIZE && r[..MARKER_AT] == (t + text)[..MARKER_AT]
            && (NUL !in t ==> CString(r) == TooLong(t + text))
            && (t != "" && t[0] == NUL ==> CString(r) == "")
  {
    MarkerText();
    var k := BUFFER_SIZE - 1 - |t|;
    var p := Printed(b, |t|, text);
    assert p[..BUFFER_SIZE - 1] == t + text[..k];
    assert p[..MARKER_AT] == p[..BUFFER_SIZE - 1][..MARKER_AT] == (t + text)[..MARKER_AT];
    MarkerOver(p);
    var r := Printed(p, MARKER_AT, MARKER);
    if NUL !in t {
      CStringIs(r, TooLong(t + text));
    }
    if t != "" {
      assert r[0] == r[..MARKER_AT][0] == t[0];
    }
  }

  lemma MarkerOver(p: string)
    requires |p| == BUFFER_SIZE
    ensures var r := Printed(p, MARKER_AT, MARKER);
            |r| == BUFFER_SIZE && r[..MARKER_AT] == p[..MARKER_AT]
            && r[..MARKER_AT + 22] == p[..MARKER_AT] + MARKER && r[MARKER_AT + 22] == NUL
  {
  }

  // newline_terminate on a held text is Normalised, when the text says something.
  lemma NormaliseHeld(b: string, t: Text)
    requires Holds(b, t)
    ensures var k := LastText(b, ScanFrom(BUFFER_SIZE, |t|));
            if HasText(t) then k + 2 == |Normalised(t)| && Holds(Terminated(b, k), Normalised(t)) else k == -1
  {
  }

  // What the buffer holds after an append of one byte's digits.
  lemma HexGrows(base: string, bytes: seq<byte>, i: nat)
    requires i < |bytes|
    ensures base + Hex(bytes[..i + 1])
              == base + Hex(bytes[..i]) + HexPair(bytes[i]) + (if i % 8 == 7 then [NEWLINE] else "")
    ensures base + Hex(bytes[..i + 1]) <= base + Hex(bytes)
    ensures base + Hex(bytes[..i]) + HexPair(bytes[i]) <= base + Hex(bytes)
  {
    hide Hex, HexPair;
    HexStepAt(bytes, i);
    HexPrefix(bytes, i + 1);
    var here, pair, end := Hex(bytes[..i]), HexPair(bytes[i]), if i % 8 == 7 then [NEWLINE] else "";
    AfterBase(base, here, pair, end);
    Behind(base, here + pair + end, Hex(bytes));
    Behind(base, here + pair, Hex(bytes));
  }

  lemma AfterBase(base: string, here: string, pair: string, end: string)
    ensures base + (here + pair + end) == base + here + pair + end
    ensures base + (here + pair) == base + here + pair
    ensures here + pair <= here + pair + end
  {
  }

  lemma Behind(base: string, s: string, t: string)
    requires s <= t
    ensures base + s <= base + t
  {
  }

  lemma HexStepAt(bytes: seq<byte>, i: nat)
    requires i < |bytes|
    ensures Hex(bytes[..i + 1])
              == Hex(bytes[..i]) + HexPair(bytes[i]) + (if i % 8 == 7 then [NEWLINE] else "")
  {
    var next := bytes[..i + 1];
    assert next[..i] == bytes[..i] && next[i] == bytes[i];
    HexStep(next);
  }

  lemma {:induction false} HexPrefix(bytes: seq<byte>, i: nat)
    requires i <= |bytes|
    ensures Hex(bytes[..i]) <= Hex(bytes)
    decreases |bytes|
  {
    if i == |bytes| {
      assert bytes[..i] == bytes;
    } else {
      var n := |bytes| - 1;
      HexPrefix(bytes[..n], i);
      assert bytes[..n][..i] == bytes[..i];
    }
  }

  // A text that already overflows has the same cut as any text it begins.
  lemma SameStart(base: string, bytes: seq<byte>, t: string)
    requires t <= base + Hex(bytes) && |t| >= BUFFER_SIZE && NUL !in base
    ensures TooLong(t) == TooLong(base + Hex(bytes))
  {
  }

  // The scan of a text without text characters meets none from its second character.
  lemma NoTextToFind(b: string, t: Text)
    requires Holds(b, t) && !HasText(t)
    ensures t == "" ==> b[0] == NUL
    ensures t != "" ==> b[0] == NEWLINE && LastText(b, 1) == -1 && Terminated(b, -1) == b
  {
  }

  // ---------------------------------------------------------------- the two entry points

  class TxeiLog {
    var minLevel: int
    var android: bool   // messages go to the Android logger, which adds the tag itself

    constructor (minLevel: int, android: bool)
      ensures this.minLevel == minLevel && this.android == android
    {
      this.minLevel, this.android := minLevel, android;
    }

    // Tag and first text, common to both entry points.  Reports whether they fitted.
    method Begin(buffer: array<char>, tag: Text, text: Text) returns (fits: bool, total: int)
      requires buffer.Length == BUFFER_SIZE && buffer[..] == seq(BUFFER_SIZE, _ => NUL)
      modifies buffer
      ensures fits <==> |Prefix(android, tag)| < BUFFER_SIZE && |Prefix(android, tag) + text| < BUFFER_SIZE
      ensures fits ==> total == |Prefix(android, tag) + text| && Holds(buffer[..], Prefix(android, tag) + text)
      ensures !fits && |Prefix(android, tag)| >= BUFFER_SIZE ==> CString(buffer[..]) == TooLong(Prefix(android, tag))
      ensures !fits && |Prefix(android, tag)| < BUFFER_SIZE ==>
        CString(buffer[..]) == TooLong(Prefix(android, tag) + text)
    {
      hide Printed, TooLong;
      total := 0;
      ghost var b0 := buffer[..];
      if !android {
        var written := Print(buffer, total, tag + " - ");
        total := total + written;
        assert "" + (tag + " - ") == tag + " - ";
        if total >= BUFFER_SIZE {
          AppendOverflows(b0, "", tag + " - ");
          var _ := Print(buffer, MARKER_AT, MARKER);
          fits := false;
          return;
        }
        AppendFits(b0, "", tag + " - ");
      }
      ghost var b1 := buffer[..];
      var written := Print(buffer, total, text);
      total := total + written;
      if total >= BUFFER_SIZE {
        AppendOverflows(b1, Prefix(android, tag), text);
        var _ := Print(buffer, MARKER_AT, MARKER);
        fits := false;
        return;
      }
      AppendFits(b1, Prefix(android, tag), text);
      fits := true;
    }

    // An ordinary message; text is the expanded format, None if formatting failed.
    method Log(level: int, tag: Option<Text>, text: Option<Text>) returns (printed: Option<Text>)
      ensures printed ==
        if tag.None? || text.None? || minLevel > level then None
        else Some(Logged(android, tag.value, text.value))
    {
      if tag.None? || text.None? || minLevel > level {
        return None;
      }
      var buffer := new char[BUFFER_SIZE](_ => NUL);
      assert buffer[..] == seq(BUFFER_SIZE, _ => NUL);
      var fits, total := Begin(buffer, tag.value, text.value);
      if fits {
        ghost var t, b := Prefix(android, tag.value) + text.value, buffer[..];
        NormaliseHeld(b, t);
        total := NewlineTerminate(buffer, BUFFER_SIZE, total);
        CStringIs(buffer[..], if HasText(t) then Normalised(t) else t);
      }
      printed := Some(CString(buffer[..]));
    }

    // The hex part of a dump, behind what the buffer holds already.
    method AppendHex(buffer: array<char>, total: int, bytes: seq<byte>, ghost base: string)
      returns (fits: bool, total': int)
      requires buffer.Length == BUFFER_SIZE && Starts(buffer[..], base) && base != "" && total == |base|
      requires NUL !in base || base[0] == NUL
      modifies buffer
      ensures fits <==> |base + Hex(bytes)| < BUFFER_SIZE
      ensures fits ==> total' == |base + Hex(bytes)| && Starts(buffer[..], base + Hex(bytes))
      ensures fits && bytes != [] ==> Holds(buffer[..], base + Hex(bytes))
      ensures fits && bytes == [] ==> buffer[..] == old(buffer[..])
      ensures !fits ==> CString(buffer[..]) == if base[0] == NUL then "" else TooLong(base + Hex(bytes))
    {
      hide Printed, TooLong, Hex, HexPair;
      total' := total;
      var i := 0;
      HexLength([]);
      assert bytes[..0] == [] && base + Hex([]) == base;
      while i < |bytes|
        invariant 0 <= i <= |bytes|
        invariant total' == |base + Hex(bytes[..i])| && Starts(buffer[..], base + Hex(bytes[..i]))
        invariant i > 0 ==> Holds(buffer[..], base + Hex(bytes[..i]))
        invariant i == 0 ==> buffer[..] == old(buffer[..])
      {
        ghost var t, b := base + Hex(bytes[..i]), buffer[..];
        ghost var pair := HexPair(bytes[i]);
        HexGrows(base, bytes, i);
        var written := Print(buffer, total', HexPair(bytes[i]));
        total' := total' + written;
        if total' >= BUFFER_SIZE {
          AppendOverflows(b, t, pair);
          if base[0] != NUL {
            SameStart(base, bytes, t + pair);
          }
          var _ := Print(buffer, MARKER_AT, MARKER);
          return false, total';
        }
        AppendFits(b, t, pair);
        if i % 8 == 7 {
          ghost var b' := buffer[..];
          written := Print(buffer, total', [NEWLINE]);
          total' := total' + written;
          if total' >= BUFFER_SIZE {
            AppendOverflows(b', t + pair, [NEWLINE]);
            if base[0] != NUL {
              SameStart(base, bytes, t + pair + [NEWLINE]);
            }
            var _ := Print(buffer, MARKER_AT, MARKER);
            return false, total';
          }
          AppendFits(b', t + pair, [NEWLINE]);
        }
        i := i + 1;
      }
      assert bytes[..i] == bytes;
      fits := true;
    }

    // Everything after the first text: its newline, the hex part and the last newline.
    method DumpRest(buffer: array<char>, total: int, bytes: seq<byte>, ghost first: Text)
      requires buffer.Length == BUFFER_SIZE && Holds(buffer[..], first) && total == |first|
      modifies buffer
      ensures CString(buffer[..]) == DumpBelow(first, bytes)
    {
      hide Normalised, TooLong, Hex, HasText, LastText;
      ghost var b := buffer[..];
      NormaliseHeld(b, first);
      var start := NewlineTerminate(buffer, BUFFER_SIZE, total);
      ghost var base := if HasText(first) then Normalised(first) else [b[0]];
      if !HasText(first) {
        NoTextToFind(b, first);
      }
      ghost var b1 := buffer[..];
      HexLength([]);
      var fits, total' := AppendHex(buffer, start, bytes, base);
      if fits {
        ghost var b2 := buffer[..];
        var _ := NewlineTerminate(buffer, BUFFER_SIZE, total');
        DumpEnds(b1, b2, first, base, bytes);
      }
    }

    // A labelled hex dump; text is the expanded label, None if formatting failed.
    method LogBuf(level: int, tag: Option<Text>, text: Option<Text>, buf: Option<seq<byte>>, len: int)
      returns (printed: Option<Text>)
      requires buf.Some? ==> len <= |buf.value|
      ensures printed ==
        if tag.None? || text.None? || buf.None? || minLevel > level then None
        else Some(Dump(android, tag.value, text.value, if len < 0 then [] else buf.value[..len]))
    {
      hide TooLong, DumpBelow;
      if tag.None? || text.None? || buf.None? || minLevel > level {
        return None;
      }
      var buffer := new char[BUFFER_SIZE](_ => NUL);
      assert buffer[..] == seq(BUFFER_SIZE, _ => NUL);
      var fits, total := Begin(buffer, tag.value, text.value);
      if fits {
        DumpRest(buffer, total, if len < 0 then [] else buf.value[..len], Prefix(android, tag.value) + text.value);
      }
      printed := Some(CString(buffer[..]));
    }
  }

  // The last newline_terminate of a dump that fitted.
  lemma DumpEnds(b1: string, b2: string, first: Text, base: string, bytes: seq<byte>)
    requires if HasText(first) then base == Normalised(first) && Holds(b1, base)
             else
               && Holds(b1, first) && base == [b1[0]]
               && (first == "" ==> base == [NUL]) && (first != "" ==> base == [NEWLINE])
    requires |base + Hex(bytes)| < BUFFER_SIZE && Starts(b2, base + Hex(bytes))
    requires if bytes == [] then b2 == b1 else Holds(b2, base + Hex(bytes))
    ensures var k := LastText(b2, ScanFrom(BUFFER_SIZE, |base + Hex(bytes)|));
            CString(Terminated(b2, k)) == DumpBelow(first, bytes)
  {
    hide Hex, LastText;
    var full := base + Hex(bytes);
    var k := LastText(b2, ScanFrom(BUFFER_SIZE, |full|));
    if !HasText(first) && first == "" {
      assert b2[0] == b2[..|full|][0] == NUL;
      LastTextBelow(b2, ScanFrom(BUFFER_SIZE, |full|));
    } else if !HasText(first) && bytes == [] {
      NoTextToFind(b1, first);
      assert Hex([]) == "" by { HexLength([]); }
      assert full == base;
      CStringIs(b2, first);
    } else {
      if bytes == [] {
        assert Hex([]) == "" by { HexLength([]); }
        assert full == base;
      }
      NormaliseHeld(b2, full);
      CStringIs(Terminated(b2, k), Message(full));
    }
  }

  lemma LastTextBelow(b: string, i: int)
    requires 0 <= i <= |b| - 3 && b[0] == NUL
    ensures CString(Terminated(b, LastText(b, i))) == ""
  {
  }
}
