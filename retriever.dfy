/** `LogRetriever`: the position estimate of `binary_search_position`, the
    scan loop of `extract_logs`, and `extract_logs` itself. The mapped file is
    an immutable byte sequence; the output file is the returned sequence of
    lines, in the order they were written. */
module Retriever {
  import opened Lines
  import opened Calendar
  import opened Align
  import opened Refine

  /** `file_size // 365`: the estimated bytes of one day of logs. */
  function DaySize(size: nat): nat
  {
    size / 365
  }

  /** `days_diff * day_size`: the estimate before alignment. */
  function Estimate(size: nat, target: Date, refYear: int): int
    requires 1 <= target.month <= 12
  {
    DaysDiff(target, refYear) * DaySize(size)
  }

  /** The aligned estimate that `refine_search` starts from. */
  function Seed(data: Bytes, target: Date, refYear: int): (p: nat)
    requires 1 <= target.month <= 12
    ensures InFile(data, p)
  {
    NearestLineStart(data, Estimate(|data|, target, refYear))
  }

  /** What `binary_search_position` returns: a pair of positions, the pair
      `(None, None)` after a `ValueError`, or nothing because it never returns. */
  datatype Search = Positions(start: nat, end: nat) | NoPositions | SearchHangs

  /** The specification of `BinarySearchPosition`. */
  function SearchSpec(data: Bytes, target: Bytes, refYear: int): Search
  {
    match ParseDate(target)
    case None => NoPositions
    case Some(d) =>
      if !ValidDate(Date(refYear, 1, 1)) then NoPositions
      else
        match RefineSpec(data, target, Seed(data, d, refYear), DaySize(|data|))
        case Hangs => SearchHangs
        case Range(s, e) => Positions(s, e)
  }

  /** `binary_search_position(mm, target_date)`, with the current year passed
      in as `refYear`. */
  method BinarySearchPosition(data: Bytes, target: Bytes, refYear: int) returns (r: Search)
    ensures r == SearchSpec(data, target, refYear)
    ensures r.NoPositions? <==> ParseDate(target).None? || !ValidDate(Date(refYear, 1, 1))
    ensures r.Positions? ==> r.start <= r.end && InFile(data, r.start) && InFile(data, r.end)
    ensures r.Positions? && |data| > 0 ==> r.end < |data|
  {
    var fileSize := |data|;
    var daySize := fileSize / 365;
    var parsed := ParseDate(target);
    if parsed.None? || !ValidDate(Date(refYear, 1, 1)) {
      // `strptime` or `datetime(...)` raised `ValueError`.
      return NoPositions;
    }
    var daysDiff := DaysDiff(parsed.value, refYear);
    var initialPos := FindNearestLineStart(data, daysDiff * daySize);
    var refined := RefineSearch(data, initialPos, target, daySize);
    match refined
    case Hangs =>
      r := SearchHangs;
    case Range(s, e) =>
      r := Positions(s, e);
  }

  /** Every target in a year before the reference year seeds the search at
      offset 0. */
  lemma EarlierYearSeedsAtZero(data: Bytes, target: Date, refYear: int)
    requires ValidDate(target) && ValidDate(Date(refYear, 1, 1)) && target.year < refYear
    ensures Seed(data, target, refYear) == 0
  {
    DaysDiffSign(target, refYear);
    NegativeTimesNat(DaysDiff(target, refYear), DaySize(|data|));
  }

  lemma NegativeTimesNat(a: int, b: nat)
    requires a < 0
    ensures a * b <= 0
  {
    if b > 0 {
      MulAtLeast(b, -a);
      assert a * b == -(b * -a);
    }
  }

  /** A file under 365 bytes has a day size of 0, so every search starts at 0. */
  lemma SmallFileSeedsAtZero(data: Bytes, target: Date, refYear: int)
    requires 1 <= target.month <= 12 && |data| < 365
    ensures Seed(data, target, refYear) == 0
  {
  }

  // ---------------------------------------------------------------------
  // The extraction pass.

  predicate Increasing(ps: seq<nat>)
  {
    forall i, j :: 0 <= i < j < |ps| ==> ps[i] < ps[j]
  }

  /** Every position of `ps` is an offset `readline()` can start from. */
  predicate AllWithin(data: Bytes, ps: seq<nat>)
  {
    forall i :: 0 <= i < |ps| ==> ps[i] <= |data|
  }

  /** The line starts in `[lo, hi)`, in file order. */
  function LineStartsIn(data: Bytes, lo: nat, hi: int): (ps: seq<nat>)
    requires lo <= |data| && hi <= |data|
    ensures forall i :: 0 <= i < |ps| ==> lo <= ps[i] < hi && IsLineStart(data, ps[i])
    ensures Increasing(ps)
    decreases hi - lo
  {
    if hi <= lo then []
    else LineStartsIn(data, lo, hi - 1) + (if IsLineStart(data, hi - 1) then [hi - 1] else [])
  }

  /** `LineStartsIn` misses no line start of the range. */
  lemma {:induction false} LineStartsInComplete(data: Bytes, lo: nat, hi: int, p: nat)
    requires lo <= |data| && hi <= |data|
    requires lo <= p < hi && IsLineStart(data, p)
    ensures p in LineStartsIn(data, lo, hi)
    decreases hi - lo
  {
    if p < hi - 1 {
      LineStartsInComplete(data, lo, hi - 1, p);
    }
  }

  /** The positions of `ps` whose unstripped line starts with `target`, in the
      order of `ps`. */
  function Selected(data: Bytes, target: Bytes, ps: seq<nat>): (ms: seq<nat>)
    requires AllWithin(data, ps)
    ensures forall i :: 0 <= i < |ms| ==> ms[i] in ps
    ensures AllWithin(data, ms)
    decreases |ps|
  {
    if ps == [] then []
    else
      var last := ps[|ps| - 1];
      Selected(data, target, ps[..|ps| - 1]) +
        (if StartsWith(LineAt(data, last), target) then [last] else [])
  }

  /** `Selected` keeps exactly the positions whose line starts with the target. */
  lemma {:induction false} SelectedMembers(data: Bytes, target: Bytes, ps: seq<nat>)
    requires AllWithin(data, ps)
    ensures forall i :: 0 <= i < |Selected(data, target, ps)| ==>
              StartsWith(LineAt(data, Selected(data, target, ps)[i]), target)
    ensures forall j :: 0 <= j < |ps| && StartsWith(LineAt(data, ps[j]), target) ==>
              ps[j] in Selected(data, target, ps)
    decreases |ps|
  {
    if ps != [] {
      var init := ps[..|ps| - 1];
      SelectedMembers(data, target, init);
      assert forall j :: 0 <= j < |init| ==> init[j] == ps[j];
    }
  }

  /** `Selected` keeps the order of `ps`. */
  lemma {:induction false} SelectedIncreasing(data: Bytes, target: Bytes, ps: seq<nat>)
    requires AllWithin(data, ps) && Increasing(ps)
    ensures Increasing(Selected(data, target, ps))
    decreases |ps|
  {
    if ps != [] {
      var init := ps[..|ps| - 1];
      SelectedIncreasing(data, target, init);
      var ms := Selected(data, target, init);
      forall i | 0 <= i < |ms|
        ensures ms[i] < ps[|ps| - 1]
      {
        assert ms[i] in init;
      }
    }
  }

  /** The lines read at the positions `ps`. */
  function LinesAt(data: Bytes, ps: seq<nat>): (ls: seq<Bytes>)
    requires AllWithin(data, ps)
    ensures |ls| == |ps|
    decreases |ps|
  {
    if ps == [] then [] else LinesAt(data, ps[..|ps| - 1]) + [LineAt(data, ps[|ps| - 1])]
  }

  /** `LinesAt` reads one line per position, in order. */
  lemma {:induction false} LinesAtIndex(data: Bytes, ps: seq<nat>, k: nat)
    requires AllWithin(data, ps) && k < |ps|
    ensures LinesAt(data, ps)[k] == LineAt(data, ps[k])
    decreases |ps|
  {
    var init := ps[..|ps| - 1];
    if k < |init| {
      LinesAtIndex(data, init, k);
    }
  }

  /** What the scan of `extract_logs` writes for the range `[start, end)`:
      every line beginning at a line start in the range whose text starts
      with the target, verbatim, in file order. */
  function Extracted(data: Bytes, target: Bytes, start: nat, end: int): seq<Bytes>
    requires start <= |data| && end <= |data|
  {
    LinesAt(data, Selected(data, target, LineStartsIn(data, start, end)))
  }

  /** Line starts in `[lo, a)` and `[lo, b)` are the same when none lies in `[a, b)`. */
  lemma {:induction false} LineStartsInFlat(data: Bytes, lo: nat, a: int, b: int)
    requires lo <= a <= b <= |data|
    requires forall q :: a <= q < b ==> !IsLineStart(data, q)
    ensures LineStartsIn(data, lo, a) == LineStartsIn(data, lo, b)
    decreases b - a
  {
    if a < b {
      LineStartsInFlat(data, lo, a, b - 1);
    }
  }

  /** Reading the line at a line start `c` adds exactly `c` to the line starts
      passed over. */
  lemma LineStartsInStep(data: Bytes, lo: nat, c: nat)
    requires lo <= c < |data| && IsLineStart(data, c)
    ensures LineStartsIn(data, lo, LineEnd(data, c)) == LineStartsIn(data, lo, c) + [c]
  {
    var e := LineEnd(data, c);
    forall q | c + 1 <= q < e
      ensures !IsLineStart(data, q)
    {
      NoLineStartInsideLine(data, c, q);
    }
    LineStartsInFlat(data, lo, c + 1, e);
  }

  lemma SelectedAppend(data: Bytes, target: Bytes, ps: seq<nat>, c: nat)
    requires AllWithin(data, ps) && c <= |data|
    ensures Selected(data, target, ps + [c]) ==
              Selected(data, target, ps) + (if StartsWith(LineAt(data, c), target) then [c] else [])
  {
    assert (ps + [c])[..|ps|] == ps;
  }

  lemma LinesAtAppend(data: Bytes, ms: seq<nat>, c: nat)
    requires AllWithin(data, ms) && c <= |data|
    ensures LinesAt(data, ms + [c]) == LinesAt(data, ms) + [LineAt(data, c)]
  {
    assert (ms + [c])[..|ms|] == ms;
  }

  /** Reading the line at a line start `c` extends what has been written by
      that line exactly when it starts with the target. */
  lemma ExtractedStep(data: Bytes, target: Bytes, start: nat, c: nat)
    requires start <= c < |data| && IsLineStart(data, c)
    ensures Extracted(data, target, start, LineEnd(data, c)) ==
              Extracted(data, target, start, c) +
              (if StartsWith(LineAt(data, c), target) then [LineAt(data, c)] else [])
  {
    var ps := LineStartsIn(data, start, c);
    var line := LineAt(data, c);
    var add := if StartsWith(line, target) then [c] else [];
    assert LineStartsIn(data, start, LineEnd(data, c)) == ps + [c] by {
      LineStartsInStep(data, start, c);
    }
    assert Selected(data, target, ps + [c]) == Selected(data, target, ps) + add by {
      SelectedAppend(data, target, ps, c);
    }
    assert LinesAt(data, Selected(data, target, ps) + add) ==
           LinesAt(data, Selected(data, target, ps)) + (if StartsWith(line, target) then [line] else []) by {
      if StartsWith(line, target) {
        LinesAtAppend(data, Selected(data, target, ps), c);
      } else {
        assert Selected(data, target, ps) + add == Selected(data, target, ps);
      }
    }
  }

  /** A cursor that stops inside the line holding `end` has passed over the
      same line starts as `end`. */
  lemma ExtractedOvershoot(data: Bytes, target: Bytes, start: nat, c: nat, end: int)
    requires start <= c < |data| && c < end <= LineEnd(data, c)
    ensures LineStartsIn(data, start, end) == LineStartsIn(data, start, LineEnd(data, c))
  {
    forall q | end <= q < LineEnd(data, c)
      ensures !IsLineStart(data, q)
    {
      NoLineStartInsideLine(data, c, q);
    }
    LineStartsInFlat(data, start, end, LineEnd(data, c));
  }

  /** What one `readline()` of the scan loop does to the cursor and to the
      lines written. */
  lemma ScanStep(data: Bytes, target: Bytes, start: nat, c: nat, end: nat)
    requires start <= c < end <= |data| && IsLineStart(data, c)
    ensures c < LineEnd(data, c) && (LineEnd(data, c) == |data| || IsLineStart(data, LineEnd(data, c)))
    ensures Extracted(data, target, start, LineEnd(data, c)) ==
              Extracted(data, target, start, c) +
              (if StartsWith(LineAt(data, c), target) then [LineAt(data, c)] else [])
    ensures end < LineEnd(data, c) ==>
              Extracted(data, target, start, LineEnd(data, c)) == Extracted(data, target, start, end)
  {
    LineEndIsLineStart(data, c);
    ExtractedStep(data, target, start, c);
    if end < LineEnd(data, c) {
      ExtractedOvershoot(data, target, start, c, end);
    }
  }

  /** The scan loop of `extract_logs`: from `start_pos`, read line after line
      while the cursor is below `end_pos`, and write the lines that start with
      the target. */
  method ScanRange(data: Bytes, target: Bytes, start: nat, end: nat) returns (out: seq<Bytes>)
    requires IsLineStart(data, start) && end <= |data|
    ensures out == Extracted(data, target, start, end)
  {
    var cursor := start;
    out := [];
    while cursor < end
      invariant start <= cursor <= |data| && (cursor == |data| || IsLineStart(data, cursor))
      invariant out == Extracted(data, target, start, cursor)
      invariant end < cursor ==> Extracted(data, target, start, cursor) == Extracted(data, target, start, end)
      decreases |data| - cursor
    {
      // `readline()` returns the line and leaves the cursor at its end.
      var line := LineAt(data, cursor);
      var next := LineEnd(data, cursor);
      ScanStep(data, target, start, cursor, end);
      if StartsWith(line, target) {
        out := out + [line];
      }
      cursor := next;
    }
  }

  /** The extraction writes, in file order, exactly the lines that begin at a
      line start in `[start, end)` and start with the target, each including
      its newline. */
  lemma ExtractedCharacterised(data: Bytes, target: Bytes, start: nat, end: int, k: int)
    requires start <= |data| && end <= |data|
    requires 0 <= k < |Extracted(data, target, start, end)|
    ensures var ms := Selected(data, target, LineStartsIn(data, start, end));
      |Extracted(data, target, start, end)| == |ms| && Increasing(ms) &&
      Extracted(data, target, start, end)[k] == LineAt(data, ms[k]) &&
      start <= ms[k] < end && IsLineStart(data, ms[k]) &&
      StartsWith(LineAt(data, ms[k]), target)
  {
    var ps := LineStartsIn(data, start, end);
    SelectedMembers(data, target, ps);
    SelectedIncreasing(data, target, ps);
    LinesAtIndex(data, Selected(data, target, ps), k);
  }

  /** ... and every such line is written. */
  lemma ExtractedComplete(data: Bytes, target: Bytes, start: nat, end: int, p: nat)
    requires start <= |data| && end <= |data|
    requires start <= p < end && IsLineStart(data, p) && StartsWith(LineAt(data, p), target)
    ensures p in Selected(data, target, LineStartsIn(data, start, end))
    ensures exists k :: 0 <= k < |Selected(data, target, LineStartsIn(data, start, end))| &&
              Selected(data, target, LineStartsIn(data, start, end))[k] == p &&
              Extracted(data, target, start, end)[k] == LineAt(data, p)
    ensures LineAt(data, p) in Extracted(data, target, start, end)
  {
    var ps := LineStartsIn(data, start, end);
    SelectedMembers(data, target, ps);
    var ms := Selected(data, target, ps);
    LineStartsInComplete(data, start, end, p);
    var j :| 0 <= j < |ps| && ps[j] == p;
    assert p in ms;
    var k :| 0 <= k < |ms| && ms[k] == p;
    LinesAtIndex(data, ms, k);
    assert Extracted(data, target, start, end)[k] == LineAt(data, p);
  }

  /** The bytes of a sequence of lines laid end to end. */
  function Concat(lines: seq<Bytes>): Bytes
  {
    if lines == [] then [] else Concat(lines[..|lines| - 1]) + lines[|lines| - 1]
  }

  lemma SplitAt(data: Bytes, a: nat, b: nat, c: nat)
    requires a <= b <= c <= |data|
    ensures data[a..c] == data[a..b] + data[b..c]
  {
  }

  /** A block of lines that all start with the target, between two line
      starts, is written out byte for byte. */
  lemma {:induction false} BlockExtracted(data: Bytes, target: Bytes, start: nat, end: nat)
    requires start <= end <= |data| && IsLineStart(data, start) && IsLineStart(data, end)
    requires forall q :: start <= q < end && IsLineStart(data, q) ==> StartsWith(LineAt(data, q), target)
    ensures Concat(Extracted(data, target, start, end)) == data[start..end]
    decreases end
  {
    if start < end {
      var p := LineStartAtOrBefore(data, end - 1);
      assert start > 0 ==> data[start - 1] == NEWLINE;
      assert start <= p;
      LineEndAtNextStart(data, p, end);
      assert StartsWith(LineAt(data, p), target);
      ExtractedStep(data, target, start, p);
      BlockExtracted(data, target, start, p);
      var lines := Extracted(data, target, start, end);
      assert lines == Extracted(data, target, start, p) + [data[p..end]];
      assert lines[..|lines| - 1] == Extracted(data, target, start, p);
      SplitAt(data, start, p, end);
    }
  }

  // ---------------------------------------------------------------------
  // extract_logs.

  /** What `extract_logs` does: return False (no output file), write the
      given lines and return True, or never return. */
  datatype Extraction = Failed | Written(lines: seq<Bytes>) | NeverReturns

  /** The specification of `ExtractLogs`. */
  function ExtractSpec(data: Bytes, target: Bytes, refYear: int): Extraction
  {
    if |data| == 0 then Failed
    else
      match SearchSpec(data, target, refYear)
      case NoPositions => Failed
      case SearchHangs => NeverReturns
      case Positions(s, e) => Written(Extracted(data, target, s, e))
  }

  /** `extract_logs(target_date, output_file)` on the mapped file `data`. */
  method ExtractLogs(data: Bytes, target: Bytes, refYear: int) returns (r: Extraction)
    ensures r == ExtractSpec(data, target, refYear)
    ensures r.Failed? <==> |data| == 0 || ParseDate(target).None? || !ValidDate(Date(refYear, 1, 1))
    ensures r.Written? ==> forall k :: 0 <= k < |r.lines| ==> StartsWith(r.lines[k], target)
  {
    if |data| == 0 {
      // `mmap` refuses an empty file; the `ValueError` is caught and False returned.
      return Failed;
    }
    var positions := BinarySearchPosition(data, target, refYear);
    match positions
    case NoPositions =>
      r := Failed;
    case SearchHangs =>
      r := NeverReturns;
    case Positions(s, e) =>
      var lines := ScanRange(data, target, s, e);
      r := Written(lines);
      forall k | 0 <= k < |lines|
        ensures StartsWith(lines[k], target)
      {
        ExtractedCharacterised(data, target, s, e, k);
      }
  }

  /** A line that matches a parsed target holds at least the ten bytes of
      the date. */
  lemma MatchHoldsDate(data: Bytes, target: Bytes, e: nat)
    requires e <= |data| && ParseDate(target).Some? && Matches(data, target, e)
    ensures e + |target| <= LineEnd(data, e) && |target| == 10
  {
    var line := LineAt(data, e);
    LeftStripSpec(line);
    RightStripSpec(LeftStrip(line));
  }

  /** With a stride under 10 the forward step never leaves a matching line,
      so the forward loop never ends once it stands on one. */
  lemma SmallStrideAlwaysHangs(data: Bytes, target: Bytes, stride: nat, e: nat)
    requires InFile(data, e) && ParseDate(target).Some? && stride < 10
    requires Matches(data, target, e)
    ensures ForwardExit(data, target, stride, e).Loops?
  {
    MatchHoldsDate(data, target, e);
    ForwardLoopsOnLongLine(data, target, stride, e);
  }

  /** With a day size under 100 (a stride under 10), a matching seed makes
      the search run forever, and a non-matching one collapses the range to
      the seed. */
  lemma SmallStrideDichotomy(data: Bytes, target: Bytes, seed: nat, daySize: nat)
    requires InFile(data, seed) && ParseDate(target).Some? && daySize < 100
    ensures RefineSpec(data, target, seed, daySize) ==
              if seed < |data| && Matches(data, target, seed) then Hangs else Range(seed, seed)
  {
    if seed < |data| && Matches(data, target, seed) {
      SmallStrideAlwaysHangs(data, target, Stride(daySize), seed);
    } else {
      MismatchAtSeed(data, target, seed, daySize);
    }
  }

  /** When the line at the seed does not start with the target, the range
      collapses to the seed and nothing is written, yet the call succeeds. */
  lemma MismatchAtSeedWritesNothing(data: Bytes, target: Bytes, refYear: int)
    requires |data| > 0 && ParseDate(target).Some? && ValidDate(Date(refYear, 1, 1))
    requires !Matches(data, target, Seed(data, ParseDate(target).value, refYear))
    ensures ExtractSpec(data, target, refYear) == Written([])
  {
    var seed := Seed(data, ParseDate(target).value, refYear);
    MismatchAtSeed(data, target, seed, DaySize(|data|));
  }

  /** A file under 36500 bytes has a stride under 10: the call writes nothing
      when the line at the seed does not match, and never returns when it does. */
  lemma SmallFileDichotomy(data: Bytes, target: Bytes, refYear: int)
    requires 0 < |data| < 36500 && ParseDate(target).Some? && ValidDate(Date(refYear, 1, 1))
    ensures var seed := Seed(data, ParseDate(target).value, refYear);
      ExtractSpec(data, target, refYear) ==
        if Matches(data, target, seed) then NeverReturns else Written([])
  {
    var seed := Seed(data, ParseDate(target).value, refYear);
    assert DaySize(|data|) < 100;
    SmallStrideDichotomy(data, target, seed, DaySize(|data|));
  }

  // ---------------------------------------------------------------------
  // A worked example.

  /** The lines of a small example log, each ending in a newline:
      `2024-12-01 10:00:00 INFO a`, `2024-12-02 09:00:00 INFO b`,
      `2024-12-02 09:05:00 WARN c` and `2024-12-03 08:00:00 INFO d`. */
  function ExampleLine(k: nat): (line: Bytes)
    requires k < 4
    ensures |line| == 27
  {
    if k == 0 then [50, 48, 50, 52, 45, 49, 50, 45, 48, 49, 32, 49, 48, 58, 48, 48, 58, 48, 48, 32, 73, 78, 70, 79, 32, 97, 10]
    else if k == 1 then [50, 48, 50, 52, 45, 49, 50, 45, 48, 50, 32, 48, 57, 58, 48, 48, 58, 48, 48, 32, 73, 78, 70, 79, 32, 98, 10]
    else if k == 2 then [50, 48, 50, 52, 45, 49, 50, 45, 48, 50, 32, 48, 57, 58, 48, 53, 58, 48, 48, 32, 87, 65, 82, 78, 32, 99, 10]
    else [50, 48, 50, 52, 45, 49, 50, 45, 48, 51, 32, 48, 56, 58, 48, 48, 58, 48, 48, 32, 73, 78, 70, 79, 32, 100, 10]
  }

  function ExampleFile(): Bytes
  {
    ExampleLine(0) + (ExampleLine(1) + ExampleLine(2) + ExampleLine(3))
  }

  /** The target text `2024-12-02`. */
  function ExampleTarget(): Bytes
  {
    [50, 48, 50, 52, 45, 49, 50, 45, 48, 50]
  }

  /** The example target is the text of 2024-12-02. */
  lemma ExampleTargetParses()
    ensures ParseDate(ExampleTarget()) == Some(Date(2024, 12, 2))
  {
    var s := ExampleTarget();
    assert s[..4] == [50, 48, 50, 52] && s[5..7] == [49, 50] && s[8..] == [48, 50];
    assert DecimalValue([50, 48, 50]) == 202 by {
      assert [50, 48, 50][..2] == [50, 48];
      assert [50, 48][..1] == [50];
      assert [50][..0] == [];
    }
    assert DecimalValue([50, 48, 50, 52]) == 2024 by {
      assert [50, 48, 50, 52][..3] == [50, 48, 50];
    }
    assert DecimalValue([49, 50]) == 12 by {
      assert [49, 50][..1] == [49];
      assert [49][..0] == [];
    }
    assert DecimalValue([48, 50]) == 2 by {
      assert [48, 50][..1] == [48];
      assert [48][..0] == [];
    }
  }

  /** A file whose first line starts without whitespace and differs from a
      target (whose last byte is not whitespace) at byte `k`, before its
      newline, does not match at offset 0. */
  lemma FirstLineMismatch(first: Bytes, rest: Bytes, target: Bytes, k: nat)
    requires k < |first| && k < |target|
    requires !IsSpace(first[0]) && !IsSpace(target[|target| - 1])
    requires forall i :: 0 <= i < k ==> first[i] != NEWLINE
    requires first[k] != target[k]
    ensures !Matches(first + rest, target, 0)
  {
    MismatchAtByte(first + rest, target, 0, k);
  }

  /** The first line of the example file is not from 2024-12-02. */
  lemma ExampleFirstLineMisses()
    ensures !Matches(ExampleFile(), ExampleTarget(), 0)
  {
    var first := ExampleLine(0);
    assert first[9] == 49 && !IsSpace(first[0]);
    assert forall i :: 0 <= i < 9 ==> first[i] != NEWLINE;
    FirstLineMismatch(first, ExampleLine(1) + ExampleLine(2) + ExampleLine(3), ExampleTarget(), 9);
  }

  /** On this file (108 bytes, so a day size of 0) the search seeds at offset
      0 whatever the reference year; the first line is not from 2024-12-02, so
      the call succeeds and writes nothing, although two 2024-12-02 lines are
      in the file. */
  lemma ExampleWritesNothing(refYear: int)
    requires ValidDate(Date(refYear, 1, 1))
    ensures ExtractSpec(ExampleFile(), ExampleTarget(), refYear) == Written([])
  {
    ExampleTargetParses();
    ExampleFirstLineMisses();
    var data := ExampleFile();
    assert |data| == 108;
    assert Seed(data, Date(2024, 12, 2), refYear) == 0 by {
      SmallFileSeedsAtZero(data, Date(2024, 12, 2), refYear);
    }
    MismatchAtSeedWritesNothing(data, ExampleTarget(), refYear);
  }
}
