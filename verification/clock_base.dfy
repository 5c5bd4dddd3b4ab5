/** Clock-base normalisation: every tick is rescaled from the file's
    resolution to 48 ticks per quarter note, and entries that land on the
    same tick are resolved so that ticks become strictly increasing
    (ControllerSource::convert_clock_base, Track::convert_clock_base,
    Sequence::convert_clock_base).

    The C++ loop erases entries in place. The model scans the entries left
    to right and records the indices that survive; the erasure of entry
    `i - 1` becomes the replacement of the last recorded index. */
module ClockBase {
  import opened Bytes
  import opened SequenceModel
  import opened Selection
  import opened Results

  /** The engine's fixed resolution, in ticks per quarter note. */
  const TargetResolution: int := 48

  /** `t * (48 / from)` truncated toward zero. The C++ multiplies by the float
      `48.0f / from`; the model uses the exact rational. */
  function Rescale(t: int, from: int): int
    requires from > 0
  {
    TruncDiv(t * TargetResolution, from)
  }

  lemma RescaleMonotone(a: int, c: int, from: int)
    requires from > 0 && a <= c
    ensures Rescale(a, from) <= Rescale(c, from)
  {
    TruncDivMonotone(a * TargetResolution, c * TargetResolution, from);
  }

  lemma RescaleAtTarget(t: int)
    ensures Rescale(t, TargetResolution) == t
  {
    if t < 0 {
      assert (-t * 48) / 48 == -t;
    }
  }

  /** Whether entry `i` (duration `d`) displaces the surviving entry before it
      (duration `prevDuration`) when both land on the same tick. The longer
      duration wins, except that a Note always displaces a Rest and a Rest
      never displaces a Note. A controller curve is scanned with every entry
      audible, so for curves only the durations decide. */
  predicate Displaces(d: int, prevDuration: int, curIsRest: bool, prevIsRest: bool) {
    && (d > prevDuration || (!curIsRest && prevIsRest))
    && !(curIsRest && !prevIsRest)
  }

  /** The rescaled tick of every entry. Entry `i` is rescaled when the loop
      reaches it, from its original tick, so these can be computed up front. */
  function ScaledTicks(ticks: seq<int>, from: int): (r: seq<int>)
    requires from > 0
    ensures |r| == |ticks|
    ensures forall k :: 0 <= k < |ticks| ==> r[k] == Rescale(ticks[k], from)
  {
    seq(|ticks|, k requires 0 <= k < |ticks| => Rescale(ticks[k], from))
  }

  /** The rescaled distance from each entry to the next, or to `total` for
      the last, computed on the original ticks (the loop reads entry `i + 1`
      before rescaling it). */
  function Durations(ticks: seq<int>, from: int, total: int): (r: seq<int>)
    requires from > 0
    ensures |r| == |ticks|
    ensures forall k :: 0 <= k < |ticks| ==> r[k] == Rescale(NextTick(ticks, k, total) - ticks[k], from)
  {
    seq(|ticks|, k requires 0 <= k < |ticks| => Rescale(NextTick(ticks, k, total) - ticks[k], from))
  }

  /** The tick of the entry after `k`, or `total` after the last. */
  function NextTick(ticks: seq<int>, k: nat, total: int): int
    requires k < |ticks|
  {
    if k + 1 < |ticks| then ticks[k + 1] else total
  }

  lemma ScaledTicksMonotone(ticks: seq<int>, from: int)
    requires from > 0 && Nondecreasing(ticks)
    ensures Nondecreasing(ScaledTicks(ticks, from))
  {
    forall k, l | 0 <= k < l < |ticks|
      ensures Rescale(ticks[k], from) <= Rescale(ticks[l], from)
    {
      RescaleMonotone(ticks[k], ticks[l], from);
    }
  }

  /** The state of the scan: surviving indices, and the duration recorded
      for the last of them. */
  datatype Scan = Scan(kept: seq<nat>, prevDuration: int)

  function Last(kept: seq<nat>): nat
    requires |kept| > 0
  {
    kept[|kept| - 1]
  }

  /** One pass of the loop body on entry `i`: the first entry is kept; an
      entry on a new tick is kept; on a collision either the last survivor is
      erased in its favour or the entry itself is erased. */
  function Step(scaled: seq<int>, durs: seq<int>, rests: seq<bool>, s: Scan, i: nat): (r: Scan)
    requires |durs| == |scaled| && |rests| == |scaled| && i < |scaled|
    requires forall k :: 0 <= k < |s.kept| ==> s.kept[k] < i
    ensures |s.kept| > 0 && scaled[i] == scaled[Last(s.kept)] && rests[i] && !rests[Last(s.kept)] ==> r == s
    ensures |s.kept| > 0 && scaled[i] == scaled[Last(s.kept)] && !rests[i] && rests[Last(s.kept)] ==>
              r.kept == s.kept[..|s.kept| - 1] + [i]
    ensures |s.kept| > 0 && scaled[i] == scaled[Last(s.kept)] && rests[i] == rests[Last(s.kept)] ==>
              (r.kept == s.kept[..|s.kept| - 1] + [i] <==> durs[i] > s.prevDuration)
  {
    if |s.kept| == 0 then Scan([i], durs[i])
    else
      var last := Last(s.kept);
      if scaled[i] != scaled[last] then Scan(s.kept + [i], durs[i])
      else if Displaces(durs[i], s.prevDuration, rests[i], rests[last]) then
        Scan(s.kept[..|s.kept| - 1] + [i], durs[i])
      else s
  }

  function ScanFrom(scaled: seq<int>, durs: seq<int>, rests: seq<bool>, s: Scan, i: nat): (r: Scan)
    requires |durs| == |scaled| && |rests| == |scaled| && i <= |scaled|
    requires IsSelection(s.kept, i)
    requires i > 0 ==> |s.kept| > 0
    ensures IsSelection(r.kept, |scaled|)
    ensures |scaled| > 0 ==> |r.kept| > 0
    decreases |scaled| - i
  {
    if i == |scaled| then s
    else ScanFrom(scaled, durs, rests, Step(scaled, durs, rests, s, i), i + 1)
  }

  /** The indices that survive normalisation, in order. */
  function Survivors(ticks: seq<int>, rests: seq<bool>, from: int, total: int): (kept: seq<nat>)
    requires |rests| == |ticks| && from > 0
    ensures IsSelection(kept, |ticks|)
    ensures |ticks| > 0 ==> |kept| > 0
  {
    ScanFrom(ScaledTicks(ticks, from), Durations(ticks, from, total), rests, Scan([], 0), 0).kept
  }

  // ---------------------------------------------------------------------------
  // Invariant of the scan

  /** A tick that carries a Note among the entries seen so far carries a Note
      among the survivors. */
  ghost predicate NotesWin(scaled: seq<int>, rests: seq<bool>, kept: seq<nat>, i: nat)
    requires |rests| == |scaled| && i <= |scaled|
    requires IsSelection(kept, i)
  {
    forall j, k ::
      (0 <= j < i && 0 <= k < |kept| && !rests[j] && scaled[kept[k]] == scaled[j]) ==> !rests[kept[k]]
  }

  /** Rests stay apart among the survivors, and a surviving rest can only be
      the entry just scanned. */
  ghost predicate RestsApart(rests: seq<bool>, kept: seq<nat>, i: nat)
    requires i <= |rests|
    requires IsSelection(kept, i)
  {
    && (|kept| > 0 && rests[Last(kept)] ==> Last(kept) == i - 1)
    && NoAdjacentRests(Pick(rests, kept))
  }

  ghost predicate ScanInv(scaled: seq<int>, rests: seq<bool>, s: Scan, i: nat)
    requires |rests| == |scaled| && i <= |scaled|
  {
    && IsSelection(s.kept, i)
    && (i == 0 <==> |s.kept| == 0)
    && (i > 0 ==> scaled[Last(s.kept)] == scaled[i - 1])
    && StrictlyIncreasing(Pick(scaled, s.kept))
    && Covered(scaled, s.kept, i)
    && NotesWin(scaled, rests, s.kept, i)
    && (NoAdjacentRests(rests) ==> RestsApart(rests, s.kept, i))
  }

  lemma StepFirst(scaled: seq<int>, durs: seq<int>, rests: seq<bool>, s: Scan)
    requires |durs| == |scaled| && |rests| == |scaled| && 0 < |scaled|
    requires ScanInv(scaled, rests, s, 0)
    ensures ScanInv(scaled, rests, Step(scaled, durs, rests, s, 0), 1)
  {
    var r := Step(scaled, durs, rests, s, 0);
    assert r.kept == [0];
    assert Pick(scaled, r.kept) == [scaled[0]];
    assert Pick(rests, r.kept) == [rests[0]];
  }

  lemma AppendKeepsOrder(scaled: seq<int>, kept: seq<nat>, i: nat)
    requires i < |scaled| && 0 < |kept|
    requires IsSelection(kept, i)
    requires StrictlyIncreasing(Pick(scaled, kept))
    requires scaled[Last(kept)] < scaled[i]
    ensures StrictlyIncreasing(Pick(scaled, kept + [i]))
  {
    var picked := Pick(scaled, kept);
    var n := |kept|;
    assert forall k :: 0 <= k < n ==> picked[k] <= picked[n - 1];
    assert Pick(scaled, kept + [i]) == picked + [scaled[i]];
  }

  lemma AppendKeepsNotes(scaled: seq<int>, rests: seq<bool>, kept: seq<nat>, i: nat)
    requires |rests| == |scaled| && 0 < i < |scaled| && 0 < |kept|
    requires IsSelection(kept, i) && IsSelection(kept + [i], i + 1)
    requires Nondecreasing(scaled)
    requires scaled[Last(kept)] == scaled[i - 1] < scaled[i]
    requires NotesWin(scaled, rests, kept, i)
    ensures NotesWin(scaled, rests, kept + [i], i + 1)
  {
    assert forall j :: 0 <= j < i ==> scaled[j] <= scaled[i - 1];
  }

  /** The ticks seen so far all appear among the survivors' ticks. */
  ghost predicate Covered(scaled: seq<int>, kept: seq<nat>, i: nat)
    requires i <= |scaled| && forall k :: 0 <= k < |kept| ==> kept[k] < |scaled|
  {
    forall j :: 0 <= j < i ==> scaled[j] in Pick(scaled, kept)
  }

  lemma AppendKeepsCover(scaled: seq<int>, kept: seq<nat>, i: nat)
    requires i < |scaled| && IsSelection(kept, i) && Covered(scaled, kept, i)
    ensures Covered(scaled, kept + [i], i + 1)
  {
    var p := Pick(scaled, kept + [i]);
    assert p == Pick(scaled, kept) + [scaled[i]];
  }

  lemma AppendKeepsRests(rests: seq<bool>, kept: seq<nat>, i: nat)
    requires 0 < i < |rests| && 0 < |kept| && IsSelection(kept, i) && IsSelection(kept + [i], i + 1)
    requires NoAdjacentRests(rests) && RestsApart(rests, kept, i)
    ensures RestsApart(rests, kept + [i], i + 1)
  {
    var picked := Pick(rests, kept);
    assert Pick(rests, kept + [i]) == picked + [rests[i]];
    assert picked[|kept| - 1] == rests[Last(kept)];
  }

  lemma StepAppend(scaled: seq<int>, durs: seq<int>, rests: seq<bool>, s: Scan, i: nat)
    requires |durs| == |scaled| && |rests| == |scaled| && 0 < i < |scaled|
    requires Nondecreasing(scaled)
    requires ScanInv(scaled, rests, s, i)
    requires scaled[i] != scaled[Last(s.kept)]
    ensures ScanInv(scaled, rests, Step(scaled, durs, rests, s, i), i + 1)
  {
    var kept := s.kept + [i];
    assert Step(scaled, durs, rests, s, i).kept == kept;
    assert scaled[Last(s.kept)] < scaled[i] by {
      assert scaled[i - 1] <= scaled[i];
    }
    assert IsSelection(kept, i + 1);
    assert Last(kept) == i;
    AppendKeepsOrder(scaled, s.kept, i);
    AppendKeepsNotes(scaled, rests, s.kept, i);
    assert Covered(scaled, kept, i + 1) by {
      AppendKeepsCover(scaled, s.kept, i);
    }
    if NoAdjacentRests(rests) {
      AppendKeepsRests(rests, s.kept, i);
    }
  }

  lemma ReplaceKeepsCover(scaled: seq<int>, kept: seq<nat>, i: nat)
    requires i < |scaled| && 0 < |kept| && IsSelection(kept, i) && Covered(scaled, kept, i)
    requires scaled[i] == scaled[Last(kept)]
    ensures Covered(scaled, kept[..|kept| - 1] + [i], i + 1)
  {
    var front := kept[..|kept| - 1];
    assert kept == front + [Last(kept)];
    assert Pick(scaled, front + [i]) == Pick(scaled, kept);
  }

  lemma ReplaceKeepsRests(rests: seq<bool>, kept: seq<nat>, i: nat)
    requires 0 < i < |rests| && 0 < |kept| && IsSelection(kept, i)
    requires NoAdjacentRests(rests) && RestsApart(rests, kept, i)
    requires rests[i] ==> rests[Last(kept)]
    requires IsSelection(kept[..|kept| - 1] + [i], i + 1)
    ensures RestsApart(rests, kept[..|kept| - 1] + [i], i + 1)
  {
    var n := |kept|;
    var front := kept[..n - 1];
    assert kept == front + [Last(kept)];
    assert Pick(rests, kept) == Pick(rests, front) + [rests[Last(kept)]];
    assert Pick(rests, front + [i]) == Pick(rests, front) + [rests[i]];
  }

  lemma ReplaceKeepsNotes(scaled: seq<int>, rests: seq<bool>, kept: seq<nat>, i: nat)
    requires |rests| == |scaled| && 0 < i < |scaled| && 0 < |kept| && IsSelection(kept, i)
    requires scaled[i] == scaled[Last(kept)] && (rests[i] ==> rests[Last(kept)])
    requires StrictlyIncreasing(Pick(scaled, kept))
    requires NotesWin(scaled, rests, kept, i)
    requires IsSelection(kept[..|kept| - 1] + [i], i + 1)
    ensures NotesWin(scaled, rests, kept[..|kept| - 1] + [i], i + 1)
  {
    var n := |kept|;
    var next := kept[..n - 1] + [i];
    forall j, k | 0 <= j < i + 1 && 0 <= k < n && !rests[j] && scaled[next[k]] == scaled[j]
      ensures !rests[next[k]]
    {
      if k == n - 1 {
        if j < i {
          assert scaled[kept[n - 1]] == scaled[j];
        }
      } else if j == i {
        assert false;
      } else {
        assert next[k] == kept[k];
      }
    }
  }

  lemma StepReplace(scaled: seq<int>, durs: seq<int>, rests: seq<bool>, s: Scan, i: nat)
    requires |durs| == |scaled| && |rests| == |scaled| && 0 < i < |scaled|
    requires Nondecreasing(scaled)
    requires ScanInv(scaled, rests, s, i)
    requires scaled[i] == scaled[Last(s.kept)]
    requires Displaces(durs[i], s.prevDuration, rests[i], rests[Last(s.kept)])
    ensures ScanInv(scaled, rests, Step(scaled, durs, rests, s, i), i + 1)
  {
    var n, last := |s.kept|, Last(s.kept);
    var front := s.kept[..n - 1];
    var kept := front + [i];
    assert Step(scaled, durs, rests, s, i).kept == kept;
    assert s.kept == front + [last];
    assert IsSelection(kept, i + 1);
    assert Last(kept) == i;
    assert Pick(scaled, kept) == Pick(scaled, s.kept) by {
      assert Pick(scaled, kept) == Pick(scaled, front) + [scaled[i]];
      assert Pick(scaled, s.kept) == Pick(scaled, front) + [scaled[last]];
    }
    ReplaceKeepsNotes(scaled, rests, s.kept, i);
    assert Covered(scaled, kept, i + 1) by {
      ReplaceKeepsCover(scaled, s.kept, i);
    }
    if NoAdjacentRests(rests) {
      ReplaceKeepsRests(rests, s.kept, i);
    }
  }

  lemma StepDrop(scaled: seq<int>, durs: seq<int>, rests: seq<bool>, s: Scan, i: nat)
    requires |durs| == |scaled| && |rests| == |scaled| && 0 < i < |scaled|
    requires Nondecreasing(scaled)
    requires ScanInv(scaled, rests, s, i)
    requires scaled[i] == scaled[Last(s.kept)]
    requires !Displaces(durs[i], s.prevDuration, rests[i], rests[Last(s.kept)])
    ensures ScanInv(scaled, rests, Step(scaled, durs, rests, s, i), i + 1)
  {
    var n := |s.kept|;
    var picked := Pick(scaled, s.kept);
    assert Step(scaled, durs, rests, s, i) == s;
    assert picked[n - 1] == scaled[i];
    assert forall k :: 0 <= k < n - 1 ==> picked[k] < picked[n - 1];
  }

  lemma StepKeepsInv(scaled: seq<int>, durs: seq<int>, rests: seq<bool>, s: Scan, i: nat)
    requires |durs| == |scaled| && |rests| == |scaled| && i < |scaled|
    requires Nondecreasing(scaled)
    requires ScanInv(scaled, rests, s, i)
    ensures ScanInv(scaled, rests, Step(scaled, durs, rests, s, i), i + 1)
  {
    if i == 0 {
      StepFirst(scaled, durs, rests, s);
    } else if scaled[i] != scaled[Last(s.kept)] {
      StepAppend(scaled, durs, rests, s, i);
    } else if Displaces(durs[i], s.prevDuration, rests[i], rests[Last(s.kept)]) {
      StepReplace(scaled, durs, rests, s, i);
    } else {
      StepDrop(scaled, durs, rests, s, i);
    }
  }

  /** One iteration of the scan keeps the invariant and leaves the rest of
      the scan to run from the new state. */
  lemma ScanAdvance(scaled: seq<int>, durs: seq<int>, rests: seq<bool>, s: Scan, i: nat) returns (next: Scan)
    requires |durs| == |scaled| && |rests| == |scaled| && i < |scaled|
    requires Nondecreasing(scaled)
    requires ScanInv(scaled, rests, s, i)
    ensures ScanInv(scaled, rests, next, i + 1)
    ensures ScanFrom(scaled, durs, rests, s, i) == ScanFrom(scaled, durs, rests, next, i + 1)
  {
    next := Step(scaled, durs, rests, s, i);
    StepKeepsInv(scaled, durs, rests, s, i);
  }

  lemma {:induction false} ScanFromKeepsInv(scaled: seq<int>, durs: seq<int>, rests: seq<bool>, s: Scan, i: nat)
    requires |durs| == |scaled| && |rests| == |scaled| && i <= |scaled|
    requires Nondecreasing(scaled)
    requires ScanInv(scaled, rests, s, i)
    ensures ScanInv(scaled, rests, ScanFrom(scaled, durs, rests, s, i), |scaled|)
    decreases |scaled| - i
  {
    if i < |scaled| {
      var next := ScanAdvance(scaled, durs, rests, s, i);
      ScanFromKeepsInv(scaled, durs, rests, next, i + 1);
      var out := ScanFrom(scaled, durs, rests, next, i + 1);
      assert ScanFrom(scaled, durs, rests, s, i) == out;
    } else {
      assert ScanFrom(scaled, durs, rests, s, i) == s;
    }
  }

  /** On nondecreasing input the survivors have strictly increasing rescaled
      ticks, every rescaled tick of the input is still present, a tick that
      held a Note still holds a Note, and (when the input has no two adjacent
      rests) neither do the survivors. */
  lemma SurvivorsNormalise(ticks: seq<int>, rests: seq<bool>, from: int, total: int)
    requires |rests| == |ticks| && from > 0
    requires Nondecreasing(ticks)
    ensures var scaled := ScaledTicks(ticks, from);
            var kept := Survivors(ticks, rests, from, total);
            && StrictlyIncreasing(Pick(scaled, kept))
            && (forall j :: 0 <= j < |ticks| ==> scaled[j] in Pick(scaled, kept))
            && NotesWin(scaled, rests, kept, |ticks|)
            && (NoAdjacentRests(rests) ==> NoAdjacentRests(Pick(rests, kept)))
  {
    var scaled := ScaledTicks(ticks, from);
    ScaledTicksMonotone(ticks, from);
    assert Pick(scaled, []) == [];
    ScanFromKeepsInv(scaled, Durations(ticks, from, total), rests, Scan([], 0), 0);
  }

  /** At the target resolution, strictly increasing input loses nothing. */
  lemma {:induction false} ScanFromKeepsAll(scaled: seq<int>, durs: seq<int>, rests: seq<bool>, s: Scan, i: nat)
    requires |durs| == |scaled| && |rests| == |scaled| && i <= |scaled|
    requires StrictlyIncreasing(scaled)
    requires s.kept == All(i)
    ensures ScanFrom(scaled, durs, rests, s, i).kept == All(|scaled|)
    decreases |scaled| - i
  {
    if i < |scaled| {
      var r := Step(scaled, durs, rests, s, i);
      assert i > 0 ==> Last(s.kept) == i - 1;
      assert r.kept == All(i + 1);
      ScanFromKeepsAll(scaled, durs, rests, r, i + 1);
    }
  }

  lemma SurvivorsAtTarget(ticks: seq<int>, rests: seq<bool>, total: int)
    requires |rests| == |ticks|
    requires StrictlyIncreasing(ticks)
    ensures Survivors(ticks, rests, TargetResolution, total) == All(|ticks|)
  {
    var scaled := ScaledTicks(ticks, TargetResolution);
    forall k | 0 <= k < |ticks| ensures scaled[k] == ticks[k] {
      RescaleAtTarget(ticks[k]);
    }
    assert scaled == ticks;
    ScanFromKeepsAll(scaled, Durations(ticks, TargetResolution, total), rests, Scan([], 0), 0);
  }

  // ---------------------------------------------------------------------------
  // Curves, tracks and the whole sequence

  function RescaleEvent(e: ControllerEvent, from: int): ControllerEvent
    requires from > 0
  {
    e.(ticks := Rescale(e.ticks, from))
  }

  function RescaleNote(n: NoteEvent, from: int): NoteEvent
    requires from > 0
  {
    n.(ticks := Rescale(n.ticks, from))
  }

  function RescaleEvents(evs: seq<ControllerEvent>, from: int): (r: seq<ControllerEvent>)
    requires from > 0
    ensures |r| == |evs|
    ensures forall k :: 0 <= k < |evs| ==> r[k] == RescaleEvent(evs[k], from)
  {
    seq(|evs|, k requires 0 <= k < |evs| => RescaleEvent(evs[k], from))
  }

  function RescaleNotes(notes: seq<NoteEvent>, from: int): (r: seq<NoteEvent>)
    requires from > 0
    ensures |r| == |notes|
    ensures forall k :: 0 <= k < |notes| ==> r[k] == RescaleNote(notes[k], from)
  {
    seq(|notes|, k requires 0 <= k < |notes| => RescaleNote(notes[k], from))
  }

  function NoRests(n: nat): (r: seq<bool>)
    ensures |r| == n && forall k :: 0 <= k < n ==> !r[k]
  {
    seq(n, _ => false)
  }

  /** ControllerSource::convert_clock_base: the surviving samples, rescaled,
      values unchanged. */
  function ConvertEvents(evs: seq<ControllerEvent>, from: int, total: int): (r: seq<ControllerEvent>)
    requires from > 0
    ensures |evs| > 0 ==> |r| > 0
    ensures SubsequenceOf(r, RescaleEvents(evs, from))
  {
    var kept := Survivors(EventTicks(evs), NoRests(|evs|), from, total);
    var r := Pick(RescaleEvents(evs, from), kept);
    assert SubsequenceOf(r, RescaleEvents(evs, from)) by {
      assert IsSelection(kept, |RescaleEvents(evs, from)|);
    }
    r
  }

  /** Track::convert_clock_base: the surviving timeline entries, rescaled. */
  function ConvertNotes(notes: seq<NoteEvent>, from: int, total: int): (r: seq<NoteEvent>)
    requires from > 0
    ensures |notes| > 0 ==> |r| > 0
    ensures SubsequenceOf(r, RescaleNotes(notes, from))
  {
    var kept := Survivors(NoteTicks(notes), RestFlags(notes), from, total);
    var r := Pick(RescaleNotes(notes, from), kept);
    assert SubsequenceOf(r, RescaleNotes(notes, from)) by {
      assert IsSelection(kept, |RescaleNotes(notes, from)|);
    }
    r
  }

  /** A normalised curve has strictly increasing ticks, and every rescaled
      tick of the original is still sampled. */
  lemma ConvertEventsNormalises(evs: seq<ControllerEvent>, from: int, total: int)
    requires from > 0
    requires Nondecreasing(EventTicks(evs))
    ensures StrictlyIncreasing(EventTicks(ConvertEvents(evs, from, total)))
    ensures forall j :: 0 <= j < |evs| ==>
              Rescale(evs[j].ticks, from) in EventTicks(ConvertEvents(evs, from, total))
  {
    var ticks := EventTicks(evs);
    var kept := Survivors(ticks, NoRests(|evs|), from, total);
    SurvivorsNormalise(ticks, NoRests(|evs|), from, total);
    assert EventTicks(ConvertEvents(evs, from, total)) == Pick(ScaledTicks(ticks, from), kept);
  }

  /** A normalised timeline has strictly increasing ticks; a rescaled tick
      that held a Note still holds a Note; rests stay apart. */
  lemma ConvertNotesNormalises(notes: seq<NoteEvent>, from: int, total: int)
    requires from > 0
    requires Nondecreasing(NoteTicks(notes))
    ensures var r := ConvertNotes(notes, from, total);
            && StrictlyIncreasing(NoteTicks(r))
            && (forall j :: 0 <= j < |notes| ==> Rescale(notes[j].ticks, from) in NoteTicks(r))
            && (forall j, k ::
                  (0 <= j < |notes| && 0 <= k < |r| && notes[j].kind.Note? &&
                   r[k].ticks == Rescale(notes[j].ticks, from)) ==> r[k].kind.Note?)
            && (NoAdjacentRests(RestFlags(notes)) ==> NoAdjacentRests(RestFlags(r)))
  {
    var ticks, rests := NoteTicks(notes), RestFlags(notes);
    var kept := Survivors(ticks, rests, from, total);
    SurvivorsNormalise(ticks, rests, from, total);
    var r := ConvertNotes(notes, from, total);
    assert r == Pick(RescaleNotes(notes, from), kept);
    PickedNotes(notes, from, kept);
    var scaled := ScaledTicks(ticks, from);
    assert NoteTicks(r) == Pick(scaled, kept);
    assert StrictlyIncreasing(NoteTicks(r));
    assert forall j :: 0 <= j < |notes| ==> Rescale(notes[j].ticks, from) == scaled[j];
    assert RestFlags(r) == Pick(rests, kept);
  }

  lemma PickedNotes(notes: seq<NoteEvent>, from: int, kept: seq<nat>)
    requires from > 0
    requires IsSelection(kept, |notes|)
    requires NotesWin(ScaledTicks(NoteTicks(notes), from), RestFlags(notes), kept, |notes|)
    ensures var r := Pick(RescaleNotes(notes, from), kept);
            && NoteTicks(r) == Pick(ScaledTicks(NoteTicks(notes), from), kept)
            && RestFlags(r) == Pick(RestFlags(notes), kept)
            && (forall j, k ::
                  (0 <= j < |notes| && 0 <= k < |r| && notes[j].kind.Note? &&
                   r[k].ticks == Rescale(notes[j].ticks, from)) ==> r[k].kind.Note?)
  {
    var r := Pick(RescaleNotes(notes, from), kept);
    var scaled, rests := ScaledTicks(NoteTicks(notes), from), RestFlags(notes);
    assert forall k :: 0 <= k < |r| ==> r[k].ticks == scaled[kept[k]] && r[k].kind == notes[kept[k]].kind;
    assert NoteTicks(r) == Pick(scaled, kept);
    assert RestFlags(r) == Pick(rests, kept);
  }

  /** Sequence::convert_clock_base: every source and every track is
      normalised against the old total, then the total is rescaled and the
      resolution becomes 48. A resolution of 0 makes the scale factor
      `48.0f / 0` infinite, so the C++ conversion back to ticks is undefined:
      the model reports it. */
  function ConvertSequence(s: Sequence): (r: Result<Sequence>)
    ensures r.Fail? <==> s.ticksPerQuarter == 0
    ensures r.Fail? ==> r.error == ZeroResolution
    ensures r.Ok? ==> r.value.ticksPerQuarter == TargetResolution
    ensures r.Ok? ==> r.value.totalTicks == Rescale(s.totalTicks, s.ticksPerQuarter)
    ensures r.Ok? ==> |r.value.sources| == |s.sources| && |r.value.tracks| == |s.tracks|
    ensures r.Ok? ==> forall i :: 0 <= i < |s.sources| ==>
              r.value.sources[i] == s.sources[i].(events := ConvertEvents(s.sources[i].events, s.ticksPerQuarter, s.totalTicks))
    ensures r.Ok? ==> forall i :: 0 <= i < |s.tracks| ==>
              r.value.tracks[i] == s.tracks[i].(notes := ConvertNotes(s.tracks[i].notes, s.ticksPerQuarter, s.totalTicks))
    ensures r.Ok? ==> r.value.(sources := s.sources, tracks := s.tracks, ticksPerQuarter := s.ticksPerQuarter,
                               totalTicks := s.totalTicks) == s
  {
    if s.ticksPerQuarter == 0 then Fail(ZeroResolution)
    else
      var from, total := s.ticksPerQuarter, s.totalTicks;
      var sources := seq(|s.sources|, i requires 0 <= i < |s.sources| =>
        s.sources[i].(events := ConvertEvents(s.sources[i].events, from, total)));
      var tracks := seq(|s.tracks|, i requires 0 <= i < |s.tracks| =>
        s.tracks[i].(notes := ConvertNotes(s.tracks[i].notes, from, total)));
      Ok(s.(sources := sources, tracks := tracks, totalTicks := Rescale(total, from),
            ticksPerQuarter := TargetResolution))
  }

  /** Every curve and timeline of `s` has nondecreasing ticks. */
  ghost predicate SortedSequence(s: Sequence) {
    && (forall i :: 0 <= i < |s.sources| ==> Nondecreasing(EventTicks(s.sources[i].events)))
    && (forall i :: 0 <= i < |s.tracks| ==> Nondecreasing(NoteTicks(s.tracks[i].notes)))
  }

  /** Every curve and timeline of `s` has strictly increasing ticks. */
  ghost predicate NormalisedSequence(s: Sequence) {
    && (forall i :: 0 <= i < |s.sources| ==> StrictlyIncreasing(EventTicks(s.sources[i].events)))
    && (forall i :: 0 <= i < |s.tracks| ==> StrictlyIncreasing(NoteTicks(s.tracks[i].notes)))
  }

  lemma ConvertSequenceNormalises(s: Sequence)
    requires SortedSequence(s)
    ensures ConvertSequence(s).Ok? ==> NormalisedSequence(ConvertSequence(s).value)
  {
    if s.ticksPerQuarter == 0 { return; }
    var r := ConvertSequence(s).value;
    forall i | 0 <= i < |s.sources|
      ensures StrictlyIncreasing(EventTicks(r.sources[i].events))
    {
      ConvertEventsNormalises(s.sources[i].events, s.ticksPerQuarter, s.totalTicks);
    }
    forall i | 0 <= i < |s.tracks|
      ensures StrictlyIncreasing(NoteTicks(r.tracks[i].notes))
    {
      ConvertNotesNormalises(s.tracks[i].notes, s.ticksPerQuarter, s.totalTicks);
    }
  }

  /** A strictly increasing curve at 48 ticks per quarter is left unchanged. */
  lemma EventsAtTarget(evs: seq<ControllerEvent>, total: int)
    requires StrictlyIncreasing(EventTicks(evs))
    ensures ConvertEvents(evs, TargetResolution, total) == evs
  {
    SurvivorsAtTarget(EventTicks(evs), NoRests(|evs|), total);
    forall k | 0 <= k < |evs| ensures RescaleEvent(evs[k], TargetResolution) == evs[k] {
      RescaleAtTarget(evs[k].ticks);
    }
  }

  /** A strictly increasing timeline at 48 ticks per quarter is left unchanged. */
  lemma NotesAtTarget(notes: seq<NoteEvent>, total: int)
    requires StrictlyIncreasing(NoteTicks(notes))
    ensures ConvertNotes(notes, TargetResolution, total) == notes
  {
    SurvivorsAtTarget(NoteTicks(notes), RestFlags(notes), total);
    forall k | 0 <= k < |notes| ensures RescaleNote(notes[k], TargetResolution) == notes[k] {
      RescaleAtTarget(notes[k].ticks);
    }
  }

  /** A normalised sequence at 48 ticks per quarter is left unchanged. */
  lemma ConvertSequenceAtTarget(s: Sequence)
    requires s.ticksPerQuarter == TargetResolution
    requires NormalisedSequence(s)
    ensures ConvertSequence(s) == Ok(s)
  {
    var r := ConvertSequence(s).value;
    RescaleAtTarget(s.totalTicks);
    forall i | 0 <= i < |s.sources| ensures r.sources[i] == s.sources[i] {
      EventsAtTarget(s.sources[i].events, s.totalTicks);
    }
    forall i | 0 <= i < |s.tracks| ensures r.tracks[i] == s.tracks[i] {
      NotesAtTarget(s.tracks[i].notes, s.totalTicks);
    }
    assert r.sources == s.sources && r.tracks == s.tracks;
  }

  /** Normalising twice is normalising once. */
  lemma ConvertSequenceIdempotent(s: Sequence)
    requires SortedSequence(s)
    ensures ConvertSequence(s).Ok? ==> ConvertSequence(ConvertSequence(s).value) == ConvertSequence(s)
  {
    if s.ticksPerQuarter > 0 {
      ConvertSequenceNormalises(s);
      ConvertSequenceAtTarget(ConvertSequence(s).value);
    }
  }
}
