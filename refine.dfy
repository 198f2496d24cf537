/** `refine_search`: from the aligned seed, step backwards and forwards by a
    tenth of a day's estimated size, re-aligning after every step, while the
    line under the cursor starts with the target date.

    Neither loop of the source is guaranteed to end. A step that re-aligns to
    the position it started from, on a line that matches, makes the next
    iteration identical to the last one, so the source repeats it forever.
    The model detects exactly that state and reports it as `Loops`/`Hangs`;
    `BackwardRun` and `ForwardRun` run the loops literally, guard check by
    guard check, and the lemmas below show that `Loops` is returned exactly
    when the literal loop never exits. */
module Refine {
  import opened Lines
  import opened Align

  /** The test both loops apply at offset `p`: the line read there, stripped
      of surrounding whitespace, starts with the target text. */
  predicate Matches(data: Bytes, target: Bytes, p: nat)
    requires p <= |data|
  {
    StartsWith(Strip(LineAt(data, p)), target)
  }

  /** A line that starts without whitespace and differs from a target
      (whose last byte is not whitespace) at byte `k`, before its newline,
      does not match. */
  lemma MismatchAtByte(data: Bytes, target: Bytes, c: nat, k: nat)
    requires c + k < |data| && k < |target|
    requires !IsSpace(data[c]) && !IsSpace(target[|target| - 1])
    requires forall i :: c <= i < c + k ==> data[i] != NEWLINE
    requires data[c + k] != target[k]
    ensures !Matches(data, target, c)
  {
    var line := LineAt(data, c);
    assert c + k < LineEnd(data, c);
    assert line[k] == data[c + k] && line[0] == data[c];
    assert LeftStrip(line) == line;
    StrippedStartsWith(line, target);
  }

  /** Without the first of those conditions the lemma fails: the line
      ` 2024-12-02` differs from `2024-12-02` at byte 0 and still matches,
      because the strip drops the leading space. */
  lemma LeadingSpaceStillMatches()
    ensures var target: Bytes := [50, 48, 50, 52, 45, 49, 50, 45, 48, 50];
      var data: Bytes := [32] + target + [NEWLINE];
      data[0] != target[0] && Matches(data, target, 0)
  {
    var target: Bytes := [50, 48, 50, 52, 45, 49, 50, 45, 48, 50];
    var data: Bytes := [32] + target + [NEWLINE];
    var line := LineAt(data, 0);
    assert line == data by {
      LineAtShape(data, 0);
      assert forall i :: 0 <= i < |target| + 1 ==> data[i] != NEWLINE;
      LineEndAtNextStart(data, 0, |data|);
    }
    assert LeftStrip(line) == target + [NEWLINE] by {
      assert LeftStrip(line[1..]) == line[1..];
    }
    assert Strip(line) == target by {
      assert RightStrip(target + [NEWLINE]) == target by {
        assert (target + [NEWLINE])[..|target|] == target;
      }
    }
  }

  /** `day_size // 10`. */
  function Stride(daySize: nat): nat
  {
    daySize / 10
  }

  /** A position a loop can stand on: a line start inside the file, or
      offset 0 of an empty file. */
  predicate InFile(data: Bytes, p: int)
  {
    IsLineStart(data, p) && (p < |data| || p == 0)
  }

  /** One step of the backward loop: `find_nearest_line_start(start_pos - stride)`. */
  function BackwardStep(data: Bytes, stride: nat, s: nat): nat
  {
    NearestLineStart(data, s - stride)
  }

  /** One step of the forward loop: `find_nearest_line_start(end_pos + stride)`. */
  function ForwardStep(data: Bytes, stride: nat, e: nat): nat
  {
    NearestLineStart(data, e + stride)
  }

  /** How a refinement loop ends: it leaves at a position, or it repeats one
      iteration forever. */
  datatype LoopExit = ExitsAt(pos: nat) | Loops

  /** Where the backward loop leaves when it starts at `s`. */
  function BackwardExit(data: Bytes, target: Bytes, stride: nat, s: nat): (r: LoopExit)
    requires InFile(data, s)
    ensures r.ExitsAt? ==> InFile(data, r.pos) && r.pos <= s
    ensures r.ExitsAt? ==> r.pos == 0 || !Matches(data, target, r.pos)
    ensures stride > 0 ==> r.ExitsAt?
    decreases s
  {
    if s == 0 || !Matches(data, target, s) then ExitsAt(s)
    else
      var next := BackwardStep(data, stride, s);
      if next == s then Loops else BackwardExit(data, target, stride, next)
  }

  /** Where the forward loop leaves when it starts at `e`. */
  function ForwardExit(data: Bytes, target: Bytes, stride: nat, e: nat): (r: LoopExit)
    requires InFile(data, e)
    ensures r.ExitsAt? ==> InFile(data, r.pos) && e <= r.pos
    ensures r.ExitsAt? && |data| > 0 ==> r.pos < |data| && !Matches(data, target, r.pos)
    decreases |data| - e
  {
    if e >= |data| || !Matches(data, target, e) then ExitsAt(e)
    else
      var next := ForwardStep(data, stride, e);
      NearestIsGreatest(data, e + stride, e);
      if next == e then Loops else ForwardExit(data, target, stride, next)
  }

  /** One turn of the backward loop, as `BackwardExit` sees it. */
  lemma BackwardExitUnfold(data: Bytes, target: Bytes, stride: nat, s: nat)
    requires InFile(data, s) && s > 0 && Matches(data, target, s)
    ensures BackwardStep(data, stride, s) != s ==>
              BackwardExit(data, target, stride, s) == BackwardExit(data, target, stride, BackwardStep(data, stride, s))
    ensures BackwardStep(data, stride, s) == s ==> BackwardExit(data, target, stride, s) == Loops
    ensures InFile(data, BackwardStep(data, stride, s)) && BackwardStep(data, stride, s) <= s
  {
  }

  /** One turn of the forward loop, as `ForwardExit` sees it. */
  lemma ForwardExitUnfold(data: Bytes, target: Bytes, stride: nat, e: nat)
    requires InFile(data, e) && e < |data| && Matches(data, target, e)
    ensures ForwardStep(data, stride, e) != e ==>
              ForwardExit(data, target, stride, e) == ForwardExit(data, target, stride, ForwardStep(data, stride, e))
    ensures ForwardStep(data, stride, e) == e ==> ForwardExit(data, target, stride, e) == Loops
    ensures InFile(data, ForwardStep(data, stride, e)) && e <= ForwardStep(data, stride, e)
  {
    NearestIsGreatest(data, e + stride, e);
  }

  /** The state of a loop after a bounded number of guard checks. */
  datatype Run = Done(pos: nat) | Running

  /** The backward loop run literally for at most `fuel` guard checks. */
  function BackwardRun(data: Bytes, target: Bytes, stride: nat, s: nat, fuel: nat): Run
    requires InFile(data, s)
    decreases fuel
  {
    if fuel == 0 then Running
    else if !(s > 0) then Done(s)
    else if !Matches(data, target, s) then Done(s)
    else BackwardRun(data, target, stride, BackwardStep(data, stride, s), fuel - 1)
  }

  /** The forward loop run literally for at most `fuel` guard checks. */
  function ForwardRun(data: Bytes, target: Bytes, stride: nat, e: nat, fuel: nat): Run
    requires InFile(data, e)
    decreases fuel
  {
    if fuel == 0 then Running
    else if !(e < |data|) then Done(e)
    else if !Matches(data, target, e) then Done(e)
    else ForwardRun(data, target, stride, ForwardStep(data, stride, e), fuel - 1)
  }

  /** When `BackwardExit` says `Loops`, the literal backward loop never exits. */
  lemma {:induction false} BackwardRunLoops(data: Bytes, target: Bytes, stride: nat, s: nat, fuel: nat)
    requires InFile(data, s) && BackwardExit(data, target, stride, s).Loops?
    ensures BackwardRun(data, target, stride, s, fuel) == Running
    decreases fuel
  {
    if fuel > 0 {
      // Only a stride of 0 loops, and then the step stays at `s`.
      NearestOfLineStart(data, s);
      BackwardRunLoops(data, target, stride, s, fuel - 1);
    }
  }

  /** Otherwise the literal backward loop exits where `BackwardExit` says,
      within `s + 1` guard checks, and at no other position. */
  lemma {:induction false} BackwardRunExits(data: Bytes, target: Bytes, stride: nat, s: nat, fuel: nat)
    requires InFile(data, s) && BackwardExit(data, target, stride, s).ExitsAt?
    ensures fuel > s ==> BackwardRun(data, target, stride, s, fuel) == Done(BackwardExit(data, target, stride, s).pos)
    ensures BackwardRun(data, target, stride, s, fuel).Done? ==>
              BackwardRun(data, target, stride, s, fuel) == Done(BackwardExit(data, target, stride, s).pos)
    decreases fuel
  {
    if fuel > 0 && s > 0 && Matches(data, target, s) {
      BackwardExitUnfold(data, target, stride, s);
      BackwardRunExits(data, target, stride, BackwardStep(data, stride, s), fuel - 1);
    }
  }

  /** When `ForwardExit` says `Loops`, the literal forward loop never exits. */
  lemma {:induction false} ForwardRunLoops(data: Bytes, target: Bytes, stride: nat, e: nat, fuel: nat)
    requires InFile(data, e) && ForwardExit(data, target, stride, e).Loops?
    ensures ForwardRun(data, target, stride, e, fuel) == Running
    decreases fuel
  {
    if fuel > 0 {
      var next := ForwardStep(data, stride, e);
      ForwardExitUnfold(data, target, stride, e);
      if next != e {
        ForwardRunLoops(data, target, stride, next, fuel - 1);
      } else {
        ForwardRunLoops(data, target, stride, e, fuel - 1);
      }
    }
  }

  /** Otherwise the literal forward loop exits where `ForwardExit` says,
      within `|data| - e + 1` guard checks, and at no other position. */
  lemma {:induction false} ForwardRunExits(data: Bytes, target: Bytes, stride: nat, e: nat, fuel: nat)
    requires InFile(data, e) && ForwardExit(data, target, stride, e).ExitsAt?
    ensures fuel > |data| - e ==> ForwardRun(data, target, stride, e, fuel) == Done(ForwardExit(data, target, stride, e).pos)
    ensures ForwardRun(data, target, stride, e, fuel).Done? ==>
              ForwardRun(data, target, stride, e, fuel) == Done(ForwardExit(data, target, stride, e).pos)
    decreases fuel
  {
    if fuel > 0 && e < |data| && Matches(data, target, e) {
      ForwardExitUnfold(data, target, stride, e);
      ForwardRunExits(data, target, stride, ForwardStep(data, stride, e), fuel - 1);
    }
  }

  /** `Loops` means the literal backward loop exits after no number of steps. */
  lemma BackwardLoopsIffNeverExits(data: Bytes, target: Bytes, stride: nat, s: nat)
    requires InFile(data, s)
    ensures BackwardExit(data, target, stride, s).Loops? <==>
              forall fuel: nat :: BackwardRun(data, target, stride, s, fuel) == Running
  {
    if BackwardExit(data, target, stride, s).Loops? {
      forall fuel: nat {
        BackwardRunLoops(data, target, stride, s, fuel);
      }
    } else {
      BackwardRunExits(data, target, stride, s, s + 1);
    }
  }

  /** `Loops` means the literal forward loop exits after no number of steps. */
  lemma ForwardLoopsIffNeverExits(data: Bytes, target: Bytes, stride: nat, e: nat)
    requires InFile(data, e)
    ensures ForwardExit(data, target, stride, e).Loops? <==>
              forall fuel: nat :: ForwardRun(data, target, stride, e, fuel) == Running
  {
    if ForwardExit(data, target, stride, e).Loops? {
      forall fuel: nat {
        ForwardRunLoops(data, target, stride, e, fuel);
      }
    } else {
      ForwardRunExits(data, target, stride, e, |data| - e + 1);
    }
  }

  /** From a matching line past offset 0, the backward loop runs forever
      exactly when the stride is 0; it moves strictly down otherwise. */
  lemma BackwardLoopsIffZeroStride(data: Bytes, target: Bytes, stride: nat, s: nat)
    requires InFile(data, s) && s > 0 && Matches(data, target, s)
    ensures BackwardExit(data, target, stride, s).Loops? <==> stride == 0
    ensures stride > 0 ==> BackwardStep(data, stride, s) < s
  {
    if stride == 0 {
      NearestOfLineStart(data, s);
    }
  }

  /** From a matching line, the forward loop runs forever when the stride is 0. */
  lemma ForwardLoopsWithZeroStride(data: Bytes, target: Bytes, e: nat)
    requires InFile(data, e) && e < |data| && Matches(data, target, e)
    ensures ForwardExit(data, target, 0, e).Loops?
  {
    NearestOfLineStart(data, e);
  }

  /** The forward step stays where it is exactly when no line starts in
      `(e, min(e + stride, size - 1)]`: on a matching line longer than the
      stride, or on the last line. */
  lemma ForwardStepStaysIff(data: Bytes, stride: nat, e: nat)
    requires InFile(data, e) && e < |data|
    ensures ForwardStep(data, stride, e) == e <==>
              forall q :: e < q <= Clamp(|data|, e + stride) ==> !IsLineStart(data, q)
  {
    NearestIsGreatest(data, e + stride, e);
    forall q | e < q <= Clamp(|data|, e + stride) && IsLineStart(data, q)
      ensures ForwardStep(data, stride, e) != e
    {
      NearestIsGreatest(data, e + stride, q);
    }
  }

  /** On a matching line longer than the stride, the forward step lands
      inside the same line and re-aligns back to `e`: the forward loop never
      ends, wherever the line is in the file. */
  lemma ForwardLoopsOnLongLine(data: Bytes, target: Bytes, stride: nat, e: nat)
    requires InFile(data, e) && e < |data| && Matches(data, target, e)
    requires e + stride < LineEnd(data, e)
    ensures ForwardExit(data, target, stride, e).Loops?
  {
    forall q | e < q <= Clamp(|data|, e + stride)
      ensures !IsLineStart(data, q)
    {
      NoLineStartInsideLine(data, e, q);
    }
    ForwardStepStaysIff(data, stride, e);
    ForwardExitUnfold(data, target, stride, e);
  }

  /** When every line from `e` to the end of the file matches (the target is
      the last date in the file), the forward loop never exits. */
  lemma {:induction false} ForwardLoopsWhenTailMatches(data: Bytes, target: Bytes, stride: nat, e: nat)
    requires InFile(data, e) && e < |data|
    requires forall q :: e <= q < |data| && IsLineStart(data, q) ==> Matches(data, target, q)
    ensures ForwardExit(data, target, stride, e).Loops?
    decreases |data| - e
  {
    var next := ForwardStep(data, stride, e);
    NearestIsGreatest(data, e + stride, e);
    if next != e {
      ForwardLoopsWhenTailMatches(data, target, stride, next);
    }
  }

  /** The outcome of `refine_search(mm, seed, target, day_size)`. */
  datatype Refined = Range(start: nat, end: nat) | Hangs

  /** The specification of `RefineSearch`: the backward loop, then the forward
      loop, each started at the seed. */
  function RefineSpec(data: Bytes, target: Bytes, seed: nat, daySize: nat): Refined
    requires InFile(data, seed)
  {
    match BackwardExit(data, target, Stride(daySize), seed)
    case Loops => Hangs
    case ExitsAt(s) =>
      match ForwardExit(data, target, Stride(daySize), seed)
      case Loops => Hangs
      case ExitsAt(e) => Range(s, e)
  }

  /** The backward loop of `refine_search` (`while start_pos > 0`). */
  method SearchBackward(data: Bytes, target: Bytes, stride: nat, seed: nat) returns (r: LoopExit)
    requires InFile(data, seed)
    ensures r == BackwardExit(data, target, stride, seed)
    ensures r.ExitsAt? ==> InFile(data, r.pos) && r.pos <= seed
    ensures r.ExitsAt? ==> r.pos == 0 || !Matches(data, target, r.pos)
  {
    var startPos := seed;
    while startPos > 0
      invariant InFile(data, startPos) && startPos <= seed
      invariant BackwardExit(data, target, stride, startPos) == BackwardExit(data, target, stride, seed)
      decreases startPos
    {
      if !Matches(data, target, startPos) {
        break;
      }
      var next := FindNearestLineStart(data, startPos - stride);
      assert next == BackwardStep(data, stride, startPos);
      BackwardExitUnfold(data, target, stride, startPos);
      if next == startPos {
        // The next iteration would be this one again.
        return Loops;
      }
      startPos := next;
    }
    r := ExitsAt(startPos);
  }

  /** The forward loop of `refine_search` (`while end_pos < file_size`). */
  method SearchForward(data: Bytes, target: Bytes, stride: nat, seed: nat) returns (r: LoopExit)
    requires InFile(data, seed)
    ensures r == ForwardExit(data, target, stride, seed)
    ensures r.ExitsAt? ==> InFile(data, r.pos) && seed <= r.pos
    ensures r.ExitsAt? && |data| > 0 ==> r.pos < |data| && !Matches(data, target, r.pos)
  {
    var size := |data|;
    var endPos := seed;
    while endPos < size
      invariant InFile(data, endPos) && seed <= endPos
      invariant ForwardExit(data, target, stride, endPos) == ForwardExit(data, target, stride, seed)
      decreases size - endPos
    {
      if !Matches(data, target, endPos) {
        break;
      }
      var next := FindNearestLineStart(data, endPos + stride);
      assert next == ForwardStep(data, stride, endPos);
      ForwardExitUnfold(data, target, stride, endPos);
      if next == endPos {
        // The next iteration would be this one again.
        return Loops;
      }
      endPos := next;
    }
    assert ForwardExit(data, target, stride, endPos) == ExitsAt(endPos);
    r := ExitsAt(endPos);
  }

  /** `refine_search`: the backward loop, then the forward loop, both from
      the seed, with `stride = day_size // 10`. */
  method RefineSearch(data: Bytes, seed: nat, target: Bytes, daySize: nat) returns (r: Refined)
    requires InFile(data, seed)
    ensures r == RefineSpec(data, target, seed, daySize)
    ensures r.Range? ==> r.start <= seed <= r.end && InFile(data, r.start) && InFile(data, r.end)
    ensures r.Range? ==> r.start == 0 || !Matches(data, target, r.start)
    ensures r.Range? && |data| > 0 ==> r.end < |data| && !Matches(data, target, r.end)
  {
    var stride := daySize / 10;
    var back := SearchBackward(data, target, stride, seed);
    if back.Loops? {
      return Hangs;
    }
    var forth := SearchForward(data, target, stride, seed);
    if forth.Loops? {
      return Hangs;
    }
    r := Range(back.pos, forth.pos);
  }

  /** A seed whose line does not match collapses the range to `(seed, seed)`,
      also when the seed is 0. */
  lemma MismatchAtSeed(data: Bytes, target: Bytes, seed: nat, daySize: nat)
    requires InFile(data, seed) && (seed < |data| ==> !Matches(data, target, seed))
    ensures RefineSpec(data, target, seed, daySize) == Range(seed, seed)
  {
  }

  /** Under a stride of 0 (a day size under 10 bytes) a matching seed makes
      the search run forever; otherwise the range collapses to the seed. */
  lemma ZeroStride(data: Bytes, target: Bytes, seed: nat, daySize: nat)
    requires InFile(data, seed) && seed < |data| && daySize < 10
    ensures RefineSpec(data, target, seed, daySize) ==
              if Matches(data, target, seed) then Hangs else Range(seed, seed)
  {
    if Matches(data, target, seed) {
      if seed > 0 {
        BackwardLoopsIffZeroStride(data, target, 0, seed);
      } else {
        ForwardLoopsWithZeroStride(data, target, seed);
      }
    }
  }
}
