/** The byte-level view of the memory-mapped log file: what a line is, what
    `readline()` returns from a cursor, and the two string operations the
    search applies to a line (`strip()` and `startswith`). The file is
    assumed to be single-byte ASCII text, so decoding a line is the identity. */
module Lines {

  /** One byte of the mapped file. */
  type byte = b: int | 0 <= b < 256

  type Bytes = seq<byte>

  const NEWLINE: byte := 10

  /** `p` is a line start: offset 0, or the offset just after a newline byte. */
  predicate IsLineStart(data: Bytes, p: int)
  {
    0 <= p <= |data| && (p == 0 || data[p - 1] == NEWLINE)
  }

  /** Where `readline()` leaves the cursor when it starts at `c`: just past the
      next newline at or after `c`, or the end of the file. */
  function LineEnd(data: Bytes, c: nat): (e: nat)
    requires c <= |data|
    ensures c <= e <= |data|
    ensures c < |data| ==> c < e
    ensures e < |data| ==> 0 < e && data[e - 1] == NEWLINE
    ensures forall i :: c <= i < e - 1 ==> data[i] != NEWLINE
    decreases |data| - c
  {
    if c == |data| then c
    else if data[c] == NEWLINE then c + 1
    else LineEnd(data, c + 1)
  }

  /** The bytes `readline()` returns from offset `c`: up to and including the
      next newline, or up to the end of the file. */
  function LineAt(data: Bytes, c: nat): Bytes
    requires c <= |data|
  {
    data[c..LineEnd(data, c)]
  }

  /** A line read inside the file is not empty, holds no newline before its
      last byte, and ends with a newline unless it runs to the end of the file. */
  lemma LineAtShape(data: Bytes, c: nat)
    requires c < |data|
    ensures var line := LineAt(data, c);
      0 < |line| && c + |line| == LineEnd(data, c) &&
      (forall i :: 0 <= i < |line| - 1 ==> line[i] != NEWLINE) &&
      (c + |line| < |data| ==> line[|line| - 1] == NEWLINE)
  {
  }

  /** `readline()` leaves the cursor at a line start or at the end of the file. */
  lemma LineEndIsLineStart(data: Bytes, c: nat)
    requires c <= |data|
    ensures LineEnd(data, c) == |data| || IsLineStart(data, LineEnd(data, c))
  {
  }

  /** After a line start `c`, the next line start is where `readline()` stops:
      no offset strictly between the two is a line start. */
  lemma NoLineStartInsideLine(data: Bytes, c: nat, q: int)
    requires c <= |data| && c < q < LineEnd(data, c)
    ensures !IsLineStart(data, q)
  {
    assert data[q - 1] != NEWLINE;
  }

  /** The line that ends exactly at the line start `e` (no newline in between)
      is the whole of `data[c..e]`. */
  lemma {:induction false} LineEndAtNextStart(data: Bytes, c: nat, e: nat)
    requires c < e <= |data| && IsLineStart(data, e)
    requires forall i :: c <= i < e - 1 ==> data[i] != NEWLINE
    ensures LineEnd(data, c) == e
    decreases e - c
  {
    if data[c] != NEWLINE {
      LineEndAtNextStart(data, c + 1, e);
    }
  }

  /** Python's `str.isspace()` on an ASCII character: tab, line feed, vertical
      tab, form feed, carriage return, the four separators 0x1c-0x1f, space. */
  predicate IsSpace(b: byte)
  {
    9 <= b <= 13 || 28 <= b <= 32
  }

  /** `lstrip()`: leading whitespace removed. */
  function LeftStrip(s: Bytes): Bytes
    decreases |s|
  {
    if |s| > 0 && IsSpace(s[0]) then LeftStrip(s[1..]) else s
  }

  /** `rstrip()`: trailing whitespace removed. */
  function RightStrip(s: Bytes): Bytes
    decreases |s|
  {
    if |s| > 0 && IsSpace(s[|s| - 1]) then RightStrip(s[..|s| - 1]) else s
  }

  /** `strip()`: whitespace removed from both ends. */
  function Strip(s: Bytes): Bytes
  {
    RightStrip(LeftStrip(s))
  }

  /** `startswith`: `prefix` is an initial segment of `s` (always true of the
      empty prefix). */
  predicate StartsWith(s: Bytes, prefix: Bytes)
  {
    |prefix| <= |s| && s[..|prefix|] == prefix
  }

  /** `lstrip()` returns the longest suffix that does not start with
      whitespace: what it drops is all whitespace. */
  lemma {:induction false} LeftStripSpec(s: Bytes)
    ensures |LeftStrip(s)| <= |s| && LeftStrip(s) == s[|s| - |LeftStrip(s)|..]
    ensures forall i :: 0 <= i < |s| - |LeftStrip(s)| ==> IsSpace(s[i])
    ensures LeftStrip(s) == [] || !IsSpace(LeftStrip(s)[0])
    decreases |s|
  {
    if |s| > 0 && IsSpace(s[0]) {
      LeftStripSpec(s[1..]);
    }
  }

  /** `rstrip()` returns the longest prefix that does not end with
      whitespace: what it drops is all whitespace. */
  lemma {:induction false} RightStripSpec(s: Bytes)
    ensures |RightStrip(s)| <= |s| && RightStrip(s) == s[..|RightStrip(s)|]
    ensures forall i :: |RightStrip(s)| <= i < |s| ==> IsSpace(s[i])
    ensures RightStrip(s) == [] || !IsSpace(RightStrip(s)[|RightStrip(s)| - 1])
    decreases |s|
  {
    if |s| > 0 && IsSpace(s[|s| - 1]) {
      RightStripSpec(s[..|s| - 1]);
    }
  }

  /** `rstrip()` keeps every byte up to the last non-whitespace one. */
  lemma RightStripKeeps(l: Bytes, n: nat)
    requires 0 < n <= |l| && !IsSpace(l[n - 1])
    ensures n <= |RightStrip(l)|
  {
    RightStripSpec(l);
  }

  /** For a prefix whose last byte is not whitespace (every date string is
      one), testing the stripped line is testing the line with its leading
      whitespace skipped: trailing whitespace never matters. */
  lemma StrippedStartsWith(s: Bytes, prefix: Bytes)
    requires prefix == [] || !IsSpace(prefix[|prefix| - 1])
    ensures StartsWith(Strip(s), prefix) <==> StartsWith(LeftStrip(s), prefix)
  {
    var l := LeftStrip(s);
    var r := RightStrip(l);
    var n := |prefix|;
    RightStripSpec(l);
    if StartsWith(l, prefix) && n > 0 {
      assert l[n - 1] == prefix[n - 1];
      RightStripKeeps(l, n);
      assert r[..n] == l[..n];
    }
    if StartsWith(r, prefix) {
      assert l[..n] == r[..n];
    }
  }
}
