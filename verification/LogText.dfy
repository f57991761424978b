/** The text of a log message: what the bounded formatter is meant to produce. */
module LogText {
  import opened Bytes

  const NUL: char := '\0'
  const NEWLINE: char := '\n'

  const BUFFER_SIZE := 1024
  const MARKER_AT := 999
  const MARKER: string := "...(message too long)\n"

  // A C string's characters.
  type Text = s: string | NUL !in s witness ""

  // The C string at the start of a buffer.
  function CString(b: string): (s: Text)
  {
    if b == [] || b[0] == NUL then "" else [b[0]] + CString(b[1..])
  }

  lemma {:induction false} CStringIs(b: string, s: Text)
    requires |s| < |b| && b[..|s|] == s && b[|s|] == NUL
    ensures CString(b) == s
  {
    if s != "" {
      assert b[0] == s[0] && b[1..][..|s| - 1] == b[..|s|][1..] == s[1..];
      CStringIs(b[1..], s[1..]);
    }
  }

  predicate Blank(c: char)
  {
    c == NUL || c == NEWLINE
  }

  // The last character that is neither null nor newline, scanning back from i.
  function LastText(b: string, i: int): (k: int)
    requires i < |b|
    ensures k <= i && (0 <= k ==> !Blank(b[k]))
    ensures forall j :: 0 <= j <= i && k < j ==> Blank(b[j])
    ensures i >= 0 ==> k >= -1
    decreases i + 1
  {
    if i < 0 || !Blank(b[i]) then i else LastText(b, i - 1)
  }

  // What newline_terminate leaves: one newline and a null after the last text character.
  function Terminated(b: string, k: int): (r: string)
    requires k + 2 < |b|
    ensures |r| == |b|
  {
    if k < 0 then b else b[k + 1 := NEWLINE][k + 2 := NUL]
  }

  // The index from which newline_terminate scans.
  function ScanFrom(length: int, written: int): int
  {
    if written > length - 3 then length - 3 else written
  }

  // Whenever the scan meets a text character, one newline and the null follow it, what
  // stands before is kept, and a second pass with the result changes nothing.  The
  // buffer then holds the text up to that character and the newline as a string of the
  // length returned, exactly when no null stands before that character.
  lemma NewlineTerminates(b: string, written: int)
    requires |b| >= 3 && written >= 0
    requires LastText(b, ScanFrom(|b|, written)) >= 0
    ensures var k := LastText(b, ScanFrom(|b|, written));
            var r := Terminated(b, k);
            && b[k] != NEWLINE && k + 2 < |b| && r[..k + 3] == b[..k + 1] + [NEWLINE, NUL]
            && (CString(r) == b[..k + 1] + [NEWLINE] <==> NUL !in b[..k])
            && (|CString(r)| == k + 2 <==> NUL !in b[..k])
            && LastText(r, ScanFrom(|b|, k + 2)) == k && Terminated(r, k) == r
  {
    hide LastText, CString, Blank;
    var k := LastText(b, ScanFrom(|b|, written));
    var r := Terminated(b, k);
    LastTextIs(b, ScanFrom(|b|, written));
    TerminatedParts(b, k);
    if NUL !in b[..k] {
      CStringIs(r, b[..k + 1] + [NEWLINE]);
    } else {
      CutAtNull(r, k);
    }
    Rescan(r, k, ScanFrom(|b|, k + 2));
  }

  lemma LastTextIs(b: string, i: int)
    requires i < |b| && LastText(b, i) >= 0
    ensures var k := LastText(b, i); k <= i && b[k] != NUL && b[k] != NEWLINE && !Blank(b[k])
  {
  }

  lemma TerminatedParts(b: string, k: nat)
    requires k + 2 < |b| && !Blank(b[k])
    ensures var r := Terminated(b, k);
            && r[..k] == b[..k] && r[k] == b[k] && r[k + 1] == NEWLINE && r[k + 2] == NUL
            && b[..k + 1] == b[..k] + [b[k]]
            && r[..k + 2] == b[..k + 1] + [NEWLINE] && r[..k + 3] == b[..k + 1] + [NEWLINE, NUL]
            && !Blank(r[k]) && Blank(r[k + 1]) && Blank(r[k + 2])
            && Terminated(r, k) == r
  {
  }

  lemma {:induction false} CutAtNull(r: string, k: nat)
    requires k < |r| && NUL in r[..k]
    ensures |CString(r)| < k
  {
    if r[0] != NUL {
      assert r[..k] == [r[0]] + r[1..][..k - 1];
      CutAtNull(r[1..], k - 1);
    }
  }

  // A scan that starts on the newline or the null just written finds the same text.
  lemma Rescan(r: string, k: nat, from: int)
    requires k <= from <= k + 2 < |r| && !Blank(r[k]) && Blank(r[k + 1]) && Blank(r[k + 2])
    ensures LastText(r, from) == k
  {
  }

  // ---------------------------------------------------------------- specification

  function Strip(s: string): (t: string)
    ensures t <= s
    ensures t == "" || t[|t| - 1] != NEWLINE
    ensures forall j :: |t| <= j < |s| ==> s[j] == NEWLINE
  {
    if s != "" && s[|s| - 1] == NEWLINE then Strip(s[..|s| - 1]) else s
  }

  lemma {:induction false} StripUnique(s: string, t: string)
    requires t <= s && (t == "" || t[|t| - 1] != NEWLINE)
    requires forall j :: |t| <= j < |s| ==> s[j] == NEWLINE
    ensures Strip(s) == t
  {
  }

  // At most 1022 characters survive, then one newline.
  function Normalised(t: Text): (r: Text)
    ensures 0 < |r| <= BUFFER_SIZE - 1
  {
    Strip(t[..Min(|t|, BUFFER_SIZE - 2)]) + [NEWLINE]
  }

  predicate HasText(t: Text)
  {
    Strip(t[..Min(|t|, BUFFER_SIZE - 2)]) != ""
  }

  function TooLong(t: Text): (r: Text)
    requires |t| >= BUFFER_SIZE
  {
    t[..MARKER_AT] + MARKER
  }

  // One message: cut off with a marker if it does not fit, ended by one newline otherwise.
  function Message(t: Text): Text
  {
    if |t| >= BUFFER_SIZE then TooLong(t) else if HasText(t) then Normalised(t) else t
  }

  function Prefix(android: bool, tag: Text): Text
  {
    if android then "" else tag + " - "
  }

  // What an ordinary message prints.
  function Logged(android: bool, tag: Text, text: Text): Text
  {
    var prefix := Prefix(android, tag);
    if |prefix| >= BUFFER_SIZE then TooLong(prefix) else Message(prefix + text)
  }

  function Digit(n: nat): (c: char)
    requires n < 16
    ensures c != NUL && c != NEWLINE
  {
    "0123456789ABCDEF"[n]
  }

  function HexPair(b: byte): (s: Text)
    ensures |s| == 2 && NEWLINE !in s
  {
    [Digit(b / 16), Digit(b % 16)]
  }

  // Two digits a byte, a line break after every eighth.
  function Hex(bytes: seq<byte>): (s: Text)
  {
    if bytes == [] then ""
    else
      var n := |bytes| - 1;
      Hex(bytes[..n]) + HexPair(bytes[n]) + (if n % 8 == 7 then [NEWLINE] else "")
  }

  // A dump whose first text fits.  Without a text character in it the hex part starts
  // at the second character of the buffer, over whatever is there.
  function DumpBelow(first: Text, bytes: seq<byte>): Text
  {
    if HasText(first) then Message(Normalised(first) + Hex(bytes))
    else if first == "" then ""
    else if bytes == [] then first
    else Message([NEWLINE] + Hex(bytes))
  }

  // The whole of a hex dump.
  function Dump(android: bool, tag: Text, caption: Text, bytes: seq<byte>): Text
  {
    var prefix := Prefix(android, tag);
    if |prefix| >= BUFFER_SIZE then TooLong(prefix)
    else if |prefix + caption| >= BUFFER_SIZE then TooLong(prefix + caption)
    else DumpBelow(prefix + caption, bytes)
  }
}
