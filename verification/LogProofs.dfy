/** What a reader can rely on in a hex dump. */
module LogProofs {
  import opened Bytes
  import opened LogText

  // ---------------------------------------------------------------- reading a dump back

  function Value(c: char): Option<nat>
  {
    if '0' <= c <= '9' then Some(c as int - '0' as int)
    else if 'A' <= c <= 'F' then Some(c as int - 'A' as int + 10)
    else None
  }

  function Unbroken(s: string): (t: string)
    ensures |t| <= |s|
  {
    if s == "" then ""
    else Unbroken(s[..|s| - 1]) + (if s[|s| - 1] == NEWLINE then "" else [s[|s| - 1]])
  }

  function Pairs(s: string): Option<seq<byte>>
  {
    if s == "" then Some([])
    else if |s| == 1 then None
    else
      var front, high, low := Pairs(s[..|s| - 2]), Value(s[|s| - 2]), Value(s[|s| - 1]);
      if front.None? || high.None? || low.None? || high.value >= 16 || low.value >= 16 then None
      else Some(front.value + [16 * high.value + low.value])
  }

  // The bytes that the hex part of a dump stands for.
  function ParseHex(s: string): Option<seq<byte>>
  {
    Pairs(Unbroken(s))
  }

  lemma DigitValue(n: nat)
    requires n < 16
    ensures Value(Digit(n)) == Some(n)
  {
  }

  // The digits alone.
  function Digits(bytes: seq<byte>): (s: string)
    ensures |s| == 2 * |bytes|
  {
    if bytes == [] then "" else Digits(bytes[..|bytes| - 1]) + HexPair(bytes[|bytes| - 1])
  }

  lemma UnbrokenPair(s: string, b: byte)
    ensures Unbroken(s + HexPair(b)) == Unbroken(s) + HexPair(b)
  {
    var p := HexPair(b);
    var one, two := s + [p[0]], s + p;
    assert two[..|two| - 1] == one && one[..|one| - 1] == s;
    assert Unbroken(two) == Unbroken(one) + [p[1]];
    assert Unbroken(one) == Unbroken(s) + [p[0]];
    assert [p[0]] + [p[1]] == p;
  }

  lemma UnbrokenNewline(s: string)
    ensures Unbroken(s + [NEWLINE]) == Unbroken(s)
  {
  }

  lemma {:induction false} UnbrokenHex(bytes: seq<byte>)
    ensures Unbroken(Hex(bytes)) == Digits(bytes)
  {
    hide HexPair;
    if bytes != [] {
      var n := |bytes| - 1;
      var body := Hex(bytes[..n]) + HexPair(bytes[n]);
      UnbrokenHex(bytes[..n]);
      UnbrokenPair(Hex(bytes[..n]), bytes[n]);
      if n % 8 == 7 {
        UnbrokenNewline(body);
      } else {
        assert Hex(bytes) == body;
      }
    }
  }

  lemma PairsStep(s: string, front: seq<byte>, b: byte)
    requires Pairs(s) == Some(front)
    ensures Pairs(s + HexPair(b)) == Some(front + [b])
  {
    var t := s + HexPair(b);
    assert t[..|t| - 2] == s && t[|t| - 2] == Digit(b / 16) && t[|t| - 1] == Digit(b % 16);
    DigitValue(b / 16);
    DigitValue(b % 16);
  }

  lemma {:induction false} PairsDigits(bytes: seq<byte>)
    ensures Pairs(Digits(bytes)) == Some(bytes)
  {
    if bytes != [] {
      var n := |bytes| - 1;
      PairsDigits(bytes[..n]);
      PairsStep(Digits(bytes[..n]), bytes[..n], bytes[n]);
      assert bytes[..n] + [bytes[n]] == bytes;
    }
  }

  lemma HexParses(bytes: seq<byte>)
    ensures ParseHex(Hex(bytes)) == Some(bytes)
  {
    UnbrokenHex(bytes);
    PairsDigits(bytes);
  }

  // Length of the hex part: two digits a byte and a break after every eighth.
  lemma {:induction false} HexLength(bytes: seq<byte>)
    ensures |Hex(bytes)| == 2 * |bytes| + |bytes| / 8
    ensures bytes != [] ==> |Strip(Hex(bytes))| == 2 * |bytes| + (|bytes| - 1) / 8 > 0
  {
    hide Strip;
    if bytes != [] {
      var n := |bytes| - 1;
      HexLength(bytes[..n]);
      HexStep(bytes);
      Eighth(n);
      StripBody(Hex(bytes[..n]), bytes[n], n % 8 == 7);
    }
  }

  lemma HexStep(bytes: seq<byte>)
    requires bytes != []
    ensures var n := |bytes| - 1;
            Hex(bytes) == Hex(bytes[..n]) + HexPair(bytes[n]) + (if n % 8 == 7 then [NEWLINE] else "")
  {
  }

  lemma Eighth(n: nat)
    ensures (n + 1) / 8 == n / 8 + (if n % 8 == 7 then 1 else 0)
  {
  }

  lemma StripBody(front: string, b: byte, broken: bool)
    ensures Strip(front + HexPair(b) + (if broken then [NEWLINE] else "")) == front + HexPair(b)
  {
  }

  lemma StripAppend(s: string, t: string)
    requires Strip(t) != ""
    ensures Strip(s + t) == s + Strip(t)
  {
    StripUnique(s + t, s + Strip(t));
  }

  lemma {:induction false} UnbrokenStrip(s: string)
    ensures Unbroken(Strip(s)) == Unbroken(s)
    decreases |s|
  {
    if s != "" && s[|s| - 1] == NEWLINE {
      UnbrokenStrip(s[..|s| - 1]);
    }
  }

  // ---------------------------------------------------------------- main results

  ghost predicate OneNewline(s: string)
  {
    |s| >= 2 && s[|s| - 1] == NEWLINE && s[|s| - 2] != NEWLINE
  }

  // The text of the first line fits and says something.
  ghost predicate GoodLine(android: bool, tag: Text, caption: Text)
  {
    |Prefix(android, tag) + caption| < BUFFER_SIZE && HasText(Prefix(android, tag) + caption)
  }

  // The whole formatted text fits: under 1024 characters, and at most 1022 of them
  // before the final newlines.
  ghost predicate DumpFits(android: bool, tag: Text, caption: Text, bytes: seq<byte>)
    requires GoodLine(android, tag, caption)
  {
    var line := Normalised(Prefix(android, tag) + caption);
    |line| + 2 * |bytes| + |bytes| / 8 < BUFFER_SIZE
    && (bytes != [] ==> |line| + 2 * |bytes| + (|bytes| - 1) / 8 <= BUFFER_SIZE - 2)
  }

  lemma TailParses(bytes: seq<byte>)
    requires bytes != []
    ensures ParseHex(Strip(Hex(bytes)) + [NEWLINE]) == Some(bytes)
  {
    UnbrokenNewline(Strip(Hex(bytes)));
    UnbrokenStrip(Hex(bytes));
    HexParses(bytes);
  }

  lemma BodyFits(line: Text, bytes: seq<byte>)
    requires bytes != [] && |line| + |Hex(bytes)| < BUFFER_SIZE
    requires |line| + |Strip(Hex(bytes))| <= BUFFER_SIZE - 2
    ensures var out := Message(line + Hex(bytes));
            out == line + Strip(Hex(bytes)) + [NEWLINE] && OneNewline(out)
  {
    hide Hex, Strip;
    HexLength(bytes);
    StripAppend(line, Hex(bytes));
    CutKeepsStripped(line + Hex(bytes));
    StripEnd(Hex(bytes));
  }

  lemma StripEnd(s: string)
    requires Strip(s) != ""
    ensures Strip(s)[|Strip(s)| - 1] != NEWLINE
  {
  }

  lemma AfterLine(line: string, tail: string)
    ensures line <= line + tail && (line + tail)[|line|..] == tail
    ensures tail == "" ==> line + tail == line
  {
  }

  // A dump that fits is its first line followed by a hex part that reads back as the
  // bytes, with one newline at the very end.
  lemma DumpReadsBack(android: bool, tag: Text, caption: Text, bytes: seq<byte>)
    requires GoodLine(android, tag, caption) && DumpFits(android, tag, caption, bytes)
    ensures var line := Normalised(Prefix(android, tag) + caption);
            var out := Dump(android, tag, caption, bytes);
            && line <= out && ParseHex(out[|line|..]) == Some(bytes) && OneNewline(out) && |out| < BUFFER_SIZE
            && (bytes != [] ==> out == line + Strip(Hex(bytes)) + [NEWLINE])
  {
    hide Strip, ParseHex, Normalised, HasText, Hex, OneNewline;
    var line := Normalised(Prefix(android, tag) + caption);
    HexLength(bytes);
    if bytes == [] {
      LineIsNormal(Prefix(android, tag) + caption);
      HexParses([]);
      AfterLine(line, Hex([]));
    } else {
      BodyFits(line, bytes);
      TailParses(bytes);
      var tail := Strip(Hex(bytes)) + [NEWLINE];
      assert line + Strip(Hex(bytes)) + [NEWLINE] == line + tail;
      AfterLine(line, tail);
    }
  }

  // Cutting to 1022 characters loses nothing when only newlines are cut.
  lemma CutKeepsStripped(t: Text)
    requires |Strip(t)| <= BUFFER_SIZE - 2
    ensures Strip(t[..Min(|t|, BUFFER_SIZE - 2)]) == Strip(t)
  {
    StripUnique(t[..Min(|t|, BUFFER_SIZE - 2)], Strip(t));
  }

  // Normalising a normalised line changes nothing, and it ends in one newline.
  lemma LineIsNormal(t: Text)
    requires HasText(t)
    ensures HasText(Normalised(t)) && Normalised(Normalised(t)) == Normalised(t) && OneNewline(Normalised(t))
  {
    var s := Strip(t[..Min(|t|, BUFFER_SIZE - 2)]);
    StripUnique(s + [NEWLINE], s);
    CutKeepsStripped(s + [NEWLINE]);
  }

  // Whether a dump is complete can be told beforehand: exactly when it fits does a
  // reader find the bytes after its first line.
  lemma DumpCompleteIff(android: bool, tag: Text, caption: Text, bytes: seq<byte>)
    requires GoodLine(android, tag, caption)
    ensures var line := Normalised(Prefix(android, tag) + caption);
            var out := Dump(android, tag, caption, bytes);
            DumpFits(android, tag, caption, bytes) <==>
              line <= out && ParseHex(out[|line|..]) == Some(bytes)
  {
    hide Strip, ParseHex, Normalised, HasText, Hex, TooLong;
    var line := Normalised(Prefix(android, tag) + caption);
    var full := line + Hex(bytes);
    HexLength(bytes);
    if DumpFits(android, tag, caption, bytes) {
      DumpReadsBack(android, tag, caption, bytes);
    } else if |full| >= BUFFER_SIZE {
      TooLongDoesNotParse(line, bytes);
    } else {
      OneDigitShort(line, bytes);
    }
  }

  lemma {:induction false} PairsLength(s: string)
    ensures Pairs(s).Some? ==> |s| == 2 * |Pairs(s).value|
    ensures Pairs(s).Some? ==> forall i :: 0 <= i < |s| ==> Value(s[i]).Some?
    decreases |s|
  {
    if |s| >= 2 {
      PairsLength(s[..|s| - 2]);
      if Pairs(s).Some? {
        forall i | 0 <= i < |s| ensures Value(s[i]).Some? {
          if i < |s| - 2 {
            assert s[..|s| - 2][i] == s[i];
          }
        }
      }
    }
  }

  lemma {:induction false} UnbrokenKeeps(s: string, i: nat)
    requires i < |s| && s[i] != NEWLINE
    ensures s[i] in Unbroken(s)
    decreases |s|
  {
    if i < |s| - 1 {
      UnbrokenKeeps(s[..|s| - 1], i);
    } else {
      var u := Unbroken(s);
      assert u[|u| - 1] == s[i];
    }
  }

  lemma NotHex(s: string, i: nat)
    requires i < |s| && s[i] != NEWLINE && Value(s[i]).None?
    ensures ParseHex(s).None?
  {
    UnbrokenKeeps(s, i);
    PairsLength(Unbroken(s));
  }

  lemma MarkerText()
    ensures |MARKER| == 22 && MARKER[2] == '.' && MARKER[20] == ')'
  {
  }

  // A cut-off dump shows its marker, and that is not hex.
  lemma TooLongDoesNotParse(line: Text, bytes: seq<byte>)
    requires |line| < BUFFER_SIZE <= |line + Hex(bytes)| && bytes != []
    ensures var out := TooLong(line + Hex(bytes));
            line <= out ==> ParseHex(out[|line|..]) != Some(bytes)
  {
    hide Hex;
    MarkerText();
    var out := TooLong(line + Hex(bytes));
    if line <= out {
      MarkerDoesNotParse((line + Hex(bytes))[..MARKER_AT], MARKER, |line|, bytes);
    }
  }

  lemma MarkerDoesNotParse(front: string, marker: string, from: nat, bytes: seq<byte>)
    requires |front| == MARKER_AT && |marker| == 22 && marker[2] == '.' && marker[20] == ')'
    requires from <= |front + marker| && bytes != []
    ensures ParseHex((front + marker)[from..]) != Some(bytes)
  {
    var out := front + marker;
    var rest := out[from..];
    if from <= MARKER_AT {
      assert rest[MARKER_AT + 2 - from] == out[MARKER_AT + 2] == '.';
      NotHex(rest, MARKER_AT + 2 - from);
    } else if from <= MARKER_AT + 20 {
      assert rest[MARKER_AT + 20 - from] == out[MARKER_AT + 20] == ')';
      NotHex(rest, MARKER_AT + 20 - from);
    } else {
      PairsLength(Unbroken(rest));
    }
  }

  // With 1023 characters before the newline the last hex digit is lost.
  lemma OneDigitShort(line: Text, bytes: seq<byte>)
    requires bytes != [] && |line| + |Hex(bytes)| == BUFFER_SIZE - 1 && |Strip(Hex(bytes))| == |Hex(bytes)|
    ensures var out := Message(line + Hex(bytes));
            line <= out && ParseHex(out[|line|..]) != Some(bytes)
  {
    hide Hex, Unbroken, Pairs;
    var n, h := |Hex(bytes)| - 1, Hex(bytes);
    HexLastPair(bytes);
    var front, pair := h[..n - 1], HexPair(bytes[|bytes| - 1]);
    var cut := line + h[..n];
    assert (line + h)[..BUFFER_SIZE - 2] == cut;
    StripUnique(cut, cut);
    var out := Message(line + h);
    assert out == cut + [NEWLINE] && out[|line|..] == h[..n] + [NEWLINE];
    UnbrokenNewline(h[..n]);
    UnbrokenLast(h);
    UnbrokenHex(bytes);
    PairsLength(Unbroken(h[..n]));
  }

  lemma HexLastPair(bytes: seq<byte>)
    requires bytes != [] && |Strip(Hex(bytes))| == |Hex(bytes)|
    ensures var h := Hex(bytes);
            |h| >= 2 && h[|h| - 1] != NEWLINE && h[|h| - 2] != NEWLINE
  {
  }

  lemma UnbrokenLast(s: string)
    requires s != "" && s[|s| - 1] != NEWLINE
    ensures |Unbroken(s)| == |Unbroken(s[..|s| - 1])| + 1
  {
  }

  // ---------------------------------------------------------------- what is printed where

  // The tag goes into the text of a message unless the destination is the Android
  // logger, which gets it apart.
  lemma AndroidTextHasNoTag(tag: Text, tag': Text, text: Text, bytes: seq<byte>)
    ensures Logged(true, tag, text) == Logged(true, tag', text)
    ensures Dump(true, tag, text, bytes) == Dump(true, tag', text, bytes)
  {
  }

  // A message is the text, cut at 999 characters with the marker when it has 1024 or
  // more, and otherwise cut at 1022 and ended by one newline.
  lemma LoggedText(android: bool, tag: Text, text: Text)
    ensures var t := if android then text else tag + " - " + text;
            && (|t| >= 1024 ==> Logged(android, tag, text) == t[..999] + "...(message too long)\n")
            && (|t| < 1024 && (exists i :: 0 <= i < |t| && i < 1022 && t[i] != '\n') ==>
                  Logged(android, tag, text) == Strip(t[..Min(|t|, 1022)]) + "\n")
            && (|t| < 1024 && (forall i :: 0 <= i < |t| && i < 1022 ==> t[i] == '\n') ==>
                  Logged(android, tag, text) == t)
  {
    hide Strip;
    var t := if android then text else tag + " - " + text;
    assert Prefix(android, tag) + text == t;
    if |Prefix(android, tag)| >= 1024 {
      assert t[..999] == Prefix(android, tag)[..999];
    }
    NoTextIff(t[..Min(|t|, 1022)]);
  }

  lemma NoTextIff(s: string)
    ensures Strip(s) == "" <==> forall i :: 0 <= i < |s| ==> s[i] == NEWLINE
  {
  }

  lemma MessageKeeps(line: Text, hex: Text)
    requires 0 < |line| <= 1022 && line[|line| - 1] != NEWLINE
    ensures var out := Message(line + [NEWLINE] + hex);
            line[..Min(|line|, 999)] <= out && (|line| + 1 + |hex| < 1024 ==> line <= out)
  {
    var t := line + [NEWLINE] + hex;
    if |t| < 1024 {
      var cut := t[..Min(|t|, 1022)];
      assert line <= cut && cut[|line| - 1] != NEWLINE;
      assert |Strip(cut)| >= |line|;
    } else {
      assert t[..999][..Min(|line|, 999)] == line[..Min(|line|, 999)];
    }
  }

  // A dump starts with its label line, and is cut like a message.
  lemma DumpStartsWithLine(android: bool, tag: Text, caption: Text, bytes: seq<byte>)
    ensures var t := if android then caption else tag + " - " + caption;
            var out := Dump(android, tag, caption, bytes);
            && (|t| >= 1024 ==> out == t[..999] + "...(message too long)\n")
            && (|t| < 1024 ==>
                  var line := Strip(t[..Min(|t|, 1022)]);
                  && line[..Min(|line|, 999)] <= out
                  && (line != "" && |line| + 1 + |Hex(bytes)| < 1024 ==> line <= out))
  {
    hide Strip, Hex;
    var t := if android then caption else tag + " - " + caption;
    assert Prefix(android, tag) + caption == t;
    if |Prefix(android, tag)| >= 1024 {
      assert t[..999] == Prefix(android, tag)[..999];
    }
    if |t| < 1024 && HasText(t) {
      MessageKeeps(Strip(t[..Min(|t|, 1022)]), Hex(bytes));
    }
  }
}
