/** The passes that shrink controller curves before encoding:
    Sequence::trim_events, and Sequence::optimize run for every (track,
    bound source) pair by optimize_track_sources / optimize_all.

    Optimize has two passes. The silence-masking pass walks the curve against
    the track's timeline and erases a sample that was taken during a rest
    when the next sample also falls in silence (or on a note onset); the tail
    sample is dropped when it lies at or after the final rest. The flat-run
    pass erases every sample whose value repeats the previous survivor. */
module Optimizer {
  import opened SequenceModel
  import opened Selection
  import opened Results
  import ClockBase

  // ---------------------------------------------------------------------------
  // trim_events

  /** Pops trailing samples while the last one is at or after `total`. */
  function TrimTail(evs: seq<ControllerEvent>, total: int): (r: seq<ControllerEvent>)
    ensures |r| <= |evs| && r == evs[..|r|]
    ensures forall k :: |r| <= k < |evs| ==> evs[k].ticks >= total
    ensures |r| > 0 ==> r[|r| - 1].ticks < total
  {
    if |evs| > 0 && evs[|evs| - 1].ticks >= total then TrimTail(evs[..|evs| - 1], total)
    else evs
  }

  /** On a sorted curve, trimming leaves exactly the samples before `total`. */
  lemma TrimTailSorted(evs: seq<ControllerEvent>, total: int)
    requires Nondecreasing(EventTicks(evs))
    ensures forall k :: 0 <= k < |TrimTail(evs, total)| ==> TrimTail(evs, total)[k].ticks < total
  {
    var r := TrimTail(evs, total);
    if |r| > 0 {
      forall k | 0 <= k < |r| ensures r[k].ticks < total {
        assert EventTicks(evs)[k] <= EventTicks(evs)[|r| - 1];
      }
    }
  }

  /** Sequence::trim_events applied to every source. The loop reads the
      last sample before checking the length, so an empty source is an
      error. */
  function TrimEvents(s: Sequence): (r: Result<Sequence>)
    ensures r.Fail? <==> exists i :: 0 <= i < |s.sources| && |s.sources[i].events| == 0
    ensures r.Fail? ==> r.error == EmptyEventList
    ensures r.Ok? ==>
              && |r.value.sources| == |s.sources|
              && r.value.(sources := s.sources) == s
              && forall i :: 0 <= i < |s.sources| ==>
                   && r.value.sources[i].(events := s.sources[i].events) == s.sources[i]
                   && |r.value.sources[i].events| <= |s.sources[i].events|
                   && r.value.sources[i].events == s.sources[i].events[..|r.value.sources[i].events|]
                   && (forall k :: |r.value.sources[i].events| <= k < |s.sources[i].events| ==>
                         s.sources[i].events[k].ticks >= s.totalTicks)
  {
    if exists i :: 0 <= i < |s.sources| && |s.sources[i].events| == 0 then Fail(EmptyEventList)
    else
      var sources := seq(|s.sources|, i requires 0 <= i < |s.sources| =>
        s.sources[i].(events := TrimTail(s.sources[i].events, s.totalTicks)));
      Ok(s.(sources := sources))
  }

  /** After trimming, every sorted source lies strictly before the end. */
  lemma TrimEventsBounds(s: Sequence)
    requires forall i :: 0 <= i < |s.sources| ==> Nondecreasing(EventTicks(s.sources[i].events))
    ensures TrimEvents(s).Ok? ==>
              forall i, k :: 0 <= i < |s.sources| && 0 <= k < |TrimEvents(s).value.sources[i].events| ==>
                TrimEvents(s).value.sources[i].events[k].ticks < s.totalTicks
  {
    forall i | 0 <= i < |s.sources| {
      TrimTailSorted(s.sources[i].events, s.totalTicks);
    }
  }

  // ---------------------------------------------------------------------------
  // The note cursor

  /** The inner search loop: from entry `n`, advance while the entry starts
      at or before `t`, stopping at the end of the list. The optimiser then
      steps back one entry. */
  function Search(notes: seq<NoteEvent>, n: nat, t: int): (m: nat)
    requires n < |notes|
    ensures n <= m <= |notes|
    ensures forall k :: n <= k < m ==> notes[k].ticks <= t
    ensures m < |notes| ==> notes[m].ticks > t
    decreases |notes| - n
  {
    if notes[n].ticks <= t then (if n + 1 >= |notes| then n + 1 else Search(notes, n + 1, t))
    else n
  }

  /** The last timeline entry starting at or before `t`: the entry sounding
      (or resting) at tick `t`. */
  function Governing(notes: seq<NoteEvent>, t: int): (r: nat)
    requires |notes| > 0 && notes[0].ticks <= t
    ensures r < |notes| && notes[r].ticks <= t
    ensures forall k :: r < k < |notes| ==> notes[k].ticks > t
  {
    if notes[|notes| - 1].ticks <= t then |notes| - 1
    else Governing(notes[..|notes| - 1], t)
  }

  /** On a sorted timeline the cursor finds the governing entry. */
  lemma SearchFindsGoverning(notes: seq<NoteEvent>, n: nat, t: int)
    requires n < |notes| && notes[n].ticks <= t
    requires Nondecreasing(NoteTicks(notes))
    ensures Search(notes, n, t) >= 1
    ensures notes[0].ticks <= t
    ensures Search(notes, n, t) - 1 == Governing(notes, t)
  {
    var m := Search(notes, n, t);
    assert NoteTicks(notes)[0] <= NoteTicks(notes)[n];
    var g := Governing(notes, t);
    assert m > n;
    assert notes[m - 1].ticks <= t;
    if m < |notes| {
      assert forall k :: m <= k < |notes| ==> NoteTicks(notes)[m] <= NoteTicks(notes)[k];
      assert g < m;
    }
  }

  // ---------------------------------------------------------------------------
  // Silence masking

  /** The masking loop's state: surviving sample indices, the note cursor,
      and whether the previous sample was governed by a rest. */
  datatype MaskState = MaskState(kept: seq<nat>, note: nat, lastRest: bool)

  /** Sample `t` falls in silence: its entry is a rest, or it lies exactly on
      a note's onset. */
  predicate SilentAt(entry: NoteEvent, t: int) {
    entry.kind.Rest? || (entry.ticks == t && entry.kind.Note?)
  }

  ghost predicate MaskWellFormed(st: MaskState, j: nat) {
    && IsSelection(st.kept, j)
    && (j > 0 ==> |st.kept| > 0 && ClockBase.Last(st.kept) == j - 1)
    && (j == 0 ==> |st.kept| == 0 && !st.lastRest)
  }

  /** One pass of the masking loop on sample `j`. */
  function MaskStep(notes: seq<NoteEvent>, evs: seq<ControllerEvent>, st: MaskState, j: nat)
    : (r: Result<MaskState>)
    requires j < |evs| && st.note < |notes|
    requires MaskWellFormed(st, j)
    ensures r.Ok? ==> MaskWellFormed(r.value, j + 1) && r.value.note < |notes|
  {
    var m := Search(notes, st.note, evs[j].ticks);
    if m == 0 then Fail(NoteIndexBelowZero)
    else
      var n := m - 1;
      var kept := if SilentAt(notes[n], evs[j].ticks) && st.lastRest
        then st.kept[..|st.kept| - 1] + [j]   // erase the previous sample
        else st.kept + [j];
      Ok(MaskState(kept, n, notes[n].kind.Rest?))
  }

  function MaskFrom(notes: seq<NoteEvent>, evs: seq<ControllerEvent>, st: MaskState, j: nat)
    : (r: Result<MaskState>)
    requires j <= |evs| && st.note < |notes|
    requires MaskWellFormed(st, j)
    ensures r.Ok? ==> MaskWellFormed(r.value, |evs|)
    decreases |evs| - j
  {
    if j == |evs| then Ok(st)
    else
      var next :- MaskStep(notes, evs, st, j);
      MaskFrom(notes, evs, next, j + 1)
  }

  /** The first pass of Sequence::optimize: the surviving samples after
      silence masking and the tail check. */
  function Masked(track: Track, src: ControllerSource): (r: Result<seq<ControllerEvent>>)
    ensures |track.notes| == 0 ==> r == Fail(EmptyNoteList)
    ensures |track.notes| > 0 && |src.events| == 0 ==> r == Fail(EmptyEventList)
    ensures |track.notes| > 0 && |src.events| > 0 && src.events[0].ticks < track.notes[0].ticks ==>
              r == Fail(NoteIndexBelowZero)
    ensures r.Ok? ==> SubsequenceOf(r.value, src.events)
  {
    var notes, evs := track.notes, src.events;
    if |notes| == 0 then Fail(EmptyNoteList)
    else if |evs| == 0 then Fail(EmptyEventList)
    else
      var st :- MaskFrom(notes, evs, MaskState([], 0, false), 0);
      var kept := TailCheck(notes, evs, st.kept);
      var r := Pick(evs, kept);
      assert SubsequenceOf(r, evs) by {
        assert IsSelection(kept, |evs|);
      }
      Ok(r)
  }

  /** The tail check: the last sample goes when the timeline ends in a rest
      that starts at or before it. */
  predicate TailDropped(notes: seq<NoteEvent>, evs: seq<ControllerEvent>)
    requires |notes| > 0 && |evs| > 0
  {
    notes[|notes| - 1].kind == Rest && evs[|evs| - 1].ticks >= notes[|notes| - 1].ticks
  }

  /** The tail check on the masking loop's survivors, whose last one is
      always the last sample. */
  function TailCheck(notes: seq<NoteEvent>, evs: seq<ControllerEvent>, kept: seq<nat>): (r: seq<nat>)
    requires |notes| > 0 && |evs| > 0
    requires IsSelection(kept, |evs|) && |kept| > 0 && ClockBase.Last(kept) == |evs| - 1
    ensures IsSelection(r, |evs|)
    ensures forall j :: j in r <==> j in kept && !(j == |evs| - 1 && TailDropped(notes, evs))
  {
    if TailDropped(notes, evs) then
      SelectionDropLast(kept, |evs|);
      kept[..|kept| - 1]
    else kept
  }

  /** Reference rule for the first pass: sample `j` survives when masking
      keeps it and it is not the tail sample the tail check drops. */
  ghost predicate MaskSurvives(notes: seq<NoteEvent>, evs: seq<ControllerEvent>, j: nat)
    requires MaskReady(notes, evs) && j < |evs|
  {
    MaskReadyBounds(notes, evs);
    MaskKeeps(notes, evs, j) && !(j == |evs| - 1 && TailDropped(notes, evs))
  }

  /** The positions MaskSurvives names, in order. */
  ghost function MaskSurvivors(notes: seq<NoteEvent>, evs: seq<ControllerEvent>): (r: seq<nat>)
    requires MaskReady(notes, evs)
    ensures IsSelection(r, |evs|)
    ensures forall j :: 0 <= j < |evs| ==> (j in r <==> MaskSurvives(notes, evs, j))
    ensures |r| > 0 <==> exists j :: 0 <= j < |evs| && MaskSurvives(notes, evs, j)
  {
    var flags := seq(|evs|, j requires 0 <= j < |evs| => MaskSurvives(notes, evs, j));
    var r := Where(flags);
    assert forall j :: 0 <= j < |evs| ==> flags[j] == MaskSurvives(notes, evs, j);
    WhereNonEmpty(flags);
    r
  }

  /** On sorted inputs whose first sample is not before the first entry, the
      first pass succeeds and keeps exactly the samples MaskSurvives names. */
  lemma MaskedCharacterised(track: Track, src: ControllerSource)
    requires MaskReady(track.notes, src.events)
    ensures Masked(track, src) == Ok(Pick(src.events, MaskSurvivors(track.notes, src.events)))
  {
    var notes, evs := track.notes, src.events;
    MaskCharacterised(notes, evs);
    var st := MaskFrom(notes, evs, MaskState([], 0, false), 0).value;
    assert MaskWellFormed(st, |evs|);
    var kept := TailCheck(notes, evs, st.kept);
    assert Masked(track, src) == Ok(Pick(evs, kept));
    forall j | 0 <= j < |evs| ensures (j in kept <==> MaskSurvives(notes, evs, j)) {
      assert j in st.kept <==> MaskKeeps(notes, evs, j);
    }
    SelectionsAgree(kept, MaskSurvivors(notes, evs), |evs|);
  }

  /** Whether the masking pass keeps sample `j` (before the tail check): the
      last sample is always kept; an earlier one is erased exactly when it is
      governed by a rest and the next sample falls in silence. */
  ghost predicate MaskKeeps(notes: seq<NoteEvent>, evs: seq<ControllerEvent>, j: nat)
    requires |notes| > 0 && j < |evs|
    requires forall k :: 0 <= k < |evs| ==> notes[0].ticks <= evs[k].ticks
  {
    || j == |evs| - 1
    || !(notes[Governing(notes, evs[j].ticks)].kind.Rest? &&
         SilentAt(notes[Governing(notes, evs[j + 1].ticks)], evs[j + 1].ticks))
  }

  ghost predicate MaskInv(notes: seq<NoteEvent>, evs: seq<ControllerEvent>, st: MaskState, j: nat)
    requires |notes| > 0 && 0 < j <= |evs|
    requires forall k :: 0 <= k < |evs| ==> notes[0].ticks <= evs[k].ticks
  {
    && MaskWellFormed(st, j)
    && st.note == Governing(notes, evs[j - 1].ticks)
    && st.lastRest == notes[st.note].kind.Rest?
    && (forall i :: 0 <= i < j - 1 ==> (i in st.kept <==> MaskKeeps(notes, evs, i)))
  }

  /** Sorted inputs with the first sample at or after the first entry: the
      conditions under which the masking loop stays in bounds. */
  ghost predicate MaskReady(notes: seq<NoteEvent>, evs: seq<ControllerEvent>) {
    && |notes| > 0 && |evs| > 0
    && Nondecreasing(NoteTicks(notes))
    && Nondecreasing(EventTicks(evs))
    && notes[0].ticks <= evs[0].ticks
  }

  lemma MaskReadyBounds(notes: seq<NoteEvent>, evs: seq<ControllerEvent>)
    requires MaskReady(notes, evs)
    ensures forall k :: 0 <= k < |evs| ==> notes[0].ticks <= evs[k].ticks
  {
    assert forall k :: 0 <= k < |evs| ==> EventTicks(evs)[0] <= EventTicks(evs)[k];
  }

  lemma MaskStepKeepsInv(notes: seq<NoteEvent>, evs: seq<ControllerEvent>, st: MaskState, j: nat)
    requires MaskReady(notes, evs)
    requires forall k :: 0 <= k < |evs| ==> notes[0].ticks <= evs[k].ticks
    requires j < |evs| && st.note < |notes|
    requires MaskWellFormed(st, j)
    requires j == 0 ==> st.note == 0
    requires j > 0 ==> MaskInv(notes, evs, st, j)
    ensures MaskStep(notes, evs, st, j).Ok?
    ensures MaskInv(notes, evs, MaskStep(notes, evs, st, j).value, j + 1)
  {
    if j == 0 {
      MaskStepFirst(notes, evs, st);
    } else {
      MaskStepNext(notes, evs, st, j);
    }
  }

  lemma MaskStepFirst(notes: seq<NoteEvent>, evs: seq<ControllerEvent>, st: MaskState)
    requires MaskReady(notes, evs)
    requires forall k :: 0 <= k < |evs| ==> notes[0].ticks <= evs[k].ticks
    requires st == MaskState([], 0, false)
    ensures MaskStep(notes, evs, st, 0).Ok?
    ensures MaskInv(notes, evs, MaskStep(notes, evs, st, 0).value, 1)
  {
    SearchFindsGoverning(notes, 0, evs[0].ticks);
    var r := MaskStep(notes, evs, st, 0).value;
    assert r.kept == [0];
  }

  lemma MaskStepNext(notes: seq<NoteEvent>, evs: seq<ControllerEvent>, st: MaskState, j: nat)
    requires MaskReady(notes, evs)
    requires forall k :: 0 <= k < |evs| ==> notes[0].ticks <= evs[k].ticks
    requires 0 < j < |evs| && st.note < |notes|
    requires MaskInv(notes, evs, st, j)
    ensures MaskStep(notes, evs, st, j).Ok?
    ensures MaskInv(notes, evs, MaskStep(notes, evs, st, j).value, j + 1)
  {
    var t := evs[j].ticks;
    assert EventTicks(evs)[j - 1] <= EventTicks(evs)[j];
    assert notes[st.note].ticks <= t;
    SearchFindsGoverning(notes, st.note, t);
    var n := Governing(notes, t);
    var r := MaskStep(notes, evs, st, j).value;
    assert r.note == n && r.lastRest == notes[n].kind.Rest?;
    var erase := SilentAt(notes[n], t) && st.lastRest;
    assert MaskKeeps(notes, evs, j - 1) <==> !erase;
    assert r.kept == if erase then st.kept[..|st.kept| - 1] + [j] else st.kept + [j];
    KeptTracksMask(notes, evs, st.kept, r.kept, j, erase);
  }

  /** The survivors after sample `j` agree with MaskKeeps on every sample
      before `j`, given that they did before `j - 1`. */
  lemma KeptTracksMask(notes: seq<NoteEvent>, evs: seq<ControllerEvent>, kept: seq<nat>, next: seq<nat>,
                       j: nat, erase: bool)
    requires |notes| > 0 && 0 < j < |evs|
    requires forall k :: 0 <= k < |evs| ==> notes[0].ticks <= evs[k].ticks
    requires 0 < |kept| && IsSelection(kept, j) && ClockBase.Last(kept) == j - 1
    requires next == if erase then kept[..|kept| - 1] + [j] else kept + [j]
    requires MaskKeeps(notes, evs, j - 1) <==> !erase
    requires forall i :: 0 <= i < j - 1 ==> (i in kept <==> MaskKeeps(notes, evs, i))
    ensures forall i :: 0 <= i < j ==> (i in next <==> MaskKeeps(notes, evs, i))
  {
    KeptUpdate(kept, j, erase);
  }

  /** Appending survivor `j`, possibly in place of survivor `j - 1`. */
  lemma KeptUpdate(kept: seq<nat>, j: nat, erase: bool)
    requires 0 < j && IsSelection(kept, j) && |kept| > 0 && ClockBase.Last(kept) == j - 1
    ensures var r := if erase then kept[..|kept| - 1] + [j] else kept + [j];
            && (forall i :: 0 <= i < j - 1 ==> (i in r <==> i in kept))
            && (j - 1 in r <==> !erase)
  {
    var front := kept[..|kept| - 1];
    assert kept == front + [j - 1];
    assert forall i :: i in front ==> i < j - 1;
  }

  lemma {:induction false} MaskFromKeepsInv(notes: seq<NoteEvent>, evs: seq<ControllerEvent>, st: MaskState, j: nat)
    requires MaskReady(notes, evs)
    requires forall k :: 0 <= k < |evs| ==> notes[0].ticks <= evs[k].ticks
    requires j <= |evs| && st.note < |notes|
    requires MaskWellFormed(st, j)
    requires j == 0 ==> st.note == 0
    requires j > 0 ==> MaskInv(notes, evs, st, j)
    ensures MaskFrom(notes, evs, st, j).Ok?
    ensures MaskInv(notes, evs, MaskFrom(notes, evs, st, j).value, |evs|)
    decreases |evs| - j
  {
    if j < |evs| {
      MaskStepKeepsInv(notes, evs, st, j);
      MaskFromKeepsInv(notes, evs, MaskStep(notes, evs, st, j).value, j + 1);
    }
  }

  /** On sorted inputs the masking loop never steps before the first entry,
      and it keeps exactly the samples MaskKeeps describes. */
  lemma MaskCharacterised(notes: seq<NoteEvent>, evs: seq<ControllerEvent>)
    requires MaskReady(notes, evs)
    ensures forall k :: 0 <= k < |evs| ==> notes[0].ticks <= evs[k].ticks
    ensures MaskFrom(notes, evs, MaskState([], 0, false), 0).Ok?
    ensures var kept := MaskFrom(notes, evs, MaskState([], 0, false), 0).value.kept;
            forall i :: 0 <= i < |evs| ==> (i in kept <==> MaskKeeps(notes, evs, i))
  {
    MaskReadyBounds(notes, evs);
    MaskFromKeepsInv(notes, evs, MaskState([], 0, false), 0);
    var st := MaskFrom(notes, evs, MaskState([], 0, false), 0).value;
    assert ClockBase.Last(st.kept) == |evs| - 1;
  }

  /** A sample governed by a sounding note (and not on its onset) survives
      masking: only samples taken in silence are ever erased. */
  lemma MaskKeepsSoundingSamples(notes: seq<NoteEvent>, evs: seq<ControllerEvent>, i: nat)
    requires MaskReady(notes, evs)
    requires i < |evs|
    requires forall k :: 0 <= k < |evs| ==> notes[0].ticks <= evs[k].ticks
    requires notes[Governing(notes, evs[i].ticks)].kind.Note?
    ensures MaskFrom(notes, evs, MaskState([], 0, false), 0).Ok? &&
            i in MaskFrom(notes, evs, MaskState([], 0, false), 0).value.kept
  {
    MaskCharacterised(notes, evs);
  }

  // ---------------------------------------------------------------------------
  // Flat runs

  /** The flat-run loop: `lastValue` is the value of the previous survivor. */
  function FlatFrom(evs: seq<ControllerEvent>, i: nat, lastValue: real, kept: seq<nat>): (r: seq<nat>)
    requires 0 < i <= |evs|
    requires IsSelection(kept, i)
    ensures IsSelection(r, |evs|)
    ensures |kept| <= |r| && r[..|kept|] == kept
    decreases |evs| - i
  {
    if i == |evs| then kept
    else if evs[i].value == lastValue then FlatFrom(evs, i + 1, lastValue, kept)
    else FlatFrom(evs, i + 1, evs[i].value, kept + [i])
  }

  /** The second pass of Sequence::optimize, as surviving indices. */
  function FlatRuns(evs: seq<ControllerEvent>): (kept: seq<nat>)
    requires |evs| > 0
    ensures IsSelection(kept, |evs|)
    ensures |kept| > 0 && kept[0] == 0
  {
    FlatFrom(evs, 1, evs[0].value, [0])
  }

  /** Reference rule: a sample survives the flat-run pass when it is the
      first or its value differs from the sample just before it. */
  predicate ChangesValue(evs: seq<ControllerEvent>, i: nat)
    requires i < |evs|
  {
    i == 0 || evs[i].value != evs[i - 1].value
  }

  /** No two neighbouring samples share a value. */
  ghost predicate DistinctNeighbours(evs: seq<ControllerEvent>) {
    forall k :: 0 <= k < |evs| - 1 ==> evs[k].value != evs[k + 1].value
  }

  ghost predicate FlatInv(evs: seq<ControllerEvent>, i: nat, lastValue: real, kept: seq<nat>)
    requires 0 < i <= |evs|
  {
    && IsSelection(kept, i) && |kept| > 0 && kept[0] == 0
    && lastValue == evs[i - 1].value
    && lastValue == evs[ClockBase.Last(kept)].value
    && (forall j :: 0 <= j < i ==> (j in kept <==> ChangesValue(evs, j)))
    && DistinctNeighbours(Pick(evs, kept))
  }

  lemma {:induction false} FlatFromKeepsInv(evs: seq<ControllerEvent>, i: nat, lastValue: real, kept: seq<nat>)
    requires 0 < i <= |evs|
    requires FlatInv(evs, i, lastValue, kept)
    ensures FlatInv(evs, |evs|, evs[|evs| - 1].value, FlatFrom(evs, i, lastValue, kept))
    decreases |evs| - i
  {
    if i < |evs| {
      if evs[i].value == lastValue {
        assert !ChangesValue(evs, i);
        FlatFromKeepsInv(evs, i + 1, lastValue, kept);
      } else {
        var kept' := kept + [i];
        assert Pick(evs, kept') == Pick(evs, kept) + [evs[i]];
        assert FlatInv(evs, i + 1, evs[i].value, kept');
        FlatFromKeepsInv(evs, i + 1, evs[i].value, kept');
      }
    }
  }

  /** The flat-run pass keeps exactly the samples that change value, and
      leaves no two neighbours with the same value. */
  lemma FlatRunsCharacterised(evs: seq<ControllerEvent>)
    requires |evs| > 0
    ensures forall j :: 0 <= j < |evs| ==> (j in FlatRuns(evs) <==> ChangesValue(evs, j))
    ensures DistinctNeighbours(Pick(evs, FlatRuns(evs)))
  {
    assert Pick(evs, [0]) == [evs[0]];
    FlatFromKeepsInv(evs, 1, evs[0].value, [0]);
  }

  /** A curve without flat runs is left whole, so the pass is idempotent. */
  lemma FlatRunsKeepsDistinct(evs: seq<ControllerEvent>)
    requires |evs| > 0
    requires DistinctNeighbours(evs)
    ensures Pick(evs, FlatRuns(evs)) == evs
  {
    var kept := FlatRuns(evs);
    FlatRunsCharacterised(evs);
    forall j | 0 <= j < |evs| ensures j in kept {
      if j > 0 { assert evs[j - 1].value != evs[j].value; }
    }
    SelectionOfAll(kept, |evs|);
  }

  /** A selection that contains every position is the identity. */
  lemma SelectionOfAll(kept: seq<nat>, n: nat)
    requires IsSelection(kept, n)
    requires forall j :: 0 <= j < n ==> j in kept
    ensures kept == All(n)
  {
    SelectionPrefix(kept, n, n);
    if |kept| > n {
      SelectionLowerBound(kept, n, n);
    }
  }

  /** The first `k` survivors of such a selection are 0, 1, ..., k-1. */
  lemma {:induction false} SelectionPrefix(kept: seq<nat>, n: nat, k: nat)
    requires IsSelection(kept, n) && k <= n
    requires forall j :: 0 <= j < n ==> j in kept
    ensures k <= |kept|
    ensures forall i :: 0 <= i < k ==> kept[i] == i
  {
    if k > 0 {
      SelectionPrefix(kept, n, k - 1);
      assert k - 1 in kept;
      var m :| 0 <= m < |kept| && kept[m] == k - 1;
      SelectionLowerBound(kept, n, m);
      assert m == k - 1;
    }
  }

  lemma {:induction false} SelectionLowerBound(kept: seq<nat>, n: nat, k: nat)
    requires IsSelection(kept, n) && k < |kept|
    ensures kept[k] >= k
  {
    if k > 0 { SelectionLowerBound(kept, n, k - 1); }
  }

  /** The flat-run pass, on samples. */
  function FlatRunEvents(evs: seq<ControllerEvent>): (r: seq<ControllerEvent>)
    ensures |evs| > 0 ==> |r| > 0 && r[0] == evs[0]
    ensures |evs| > 0 ==> SubsequenceOf(r, evs)
    ensures DistinctNeighbours(r)
  {
    if |evs| == 0 then []
    else
      FlatRunsCharacterised(evs);
      var r := Pick(evs, FlatRuns(evs));
      assert SubsequenceOf(r, evs) by {
        assert IsSelection(FlatRuns(evs), |evs|);
      }
      r
  }

  lemma FlatRunEventsIdempotent(evs: seq<ControllerEvent>)
    ensures FlatRunEvents(FlatRunEvents(evs)) == FlatRunEvents(evs)
  {
    var r := FlatRunEvents(evs);
    if |r| > 0 {
      FlatRunsKeepsDistinct(r);
    }
  }

  // ---------------------------------------------------------------------------
  // Sequence::optimize and its drivers

  /** Sequence::optimize(track, source): silence masking, the tail check and
      flat-run collapse. Reading `events[0]` of a list that masking emptied is
      reported as a failure. */
  function Optimize(track: Track, src: ControllerSource): (r: Result<seq<ControllerEvent>>)
    ensures |track.notes| == 0 ==> r == Fail(EmptyNoteList)
    ensures |src.events| == 0 ==> r.Fail?
    ensures r.Ok? ==> |r.value| > 0
    ensures r.Ok? ==> SubsequenceOf(r.value, src.events)
    ensures r.Ok? ==> DistinctNeighbours(r.value)
    ensures r.Ok? ==> && Masked(track, src).Ok? && |Masked(track, src).value| > 0
                      && r.value[0] == Masked(track, src).value[0]
  {
    var masked :- Masked(track, src);
    if |masked| == 0 then Fail(EmptyEventList)
    else
      var r := FlatRunEvents(masked);
      SubsequenceTransitive(r, masked, src.events);
      Ok(r)
  }

  /** Optimize is the first pass followed by the flat-run pass: a failing
      first pass is Optimize's failure (a cursor at -1 when the first sample
      precedes the first entry), a first pass that keeps nothing fails on
      reading `events[0]`, and otherwise the result is exactly the flat-run
      pass over the survivors. */
  lemma OptimizeStages(track: Track, src: ControllerSource)
    ensures Masked(track, src).Fail? ==> Optimize(track, src) == Masked(track, src)
    ensures Masked(track, src).Ok? && |Masked(track, src).value| == 0 ==> Optimize(track, src) == Fail(EmptyEventList)
    ensures Masked(track, src).Ok? && |Masked(track, src).value| > 0 ==>
              Optimize(track, src) == Ok(FlatRunEvents(Masked(track, src).value))
    ensures |track.notes| > 0 && |src.events| > 0 && src.events[0].ticks < track.notes[0].ticks ==>
              Optimize(track, src) == Fail(NoteIndexBelowZero)
  {
  }

  /** What Optimize returns. An empty timeline or curve is reported, and so
      is a first sample before the first entry (the note cursor steps back
      to -1). On sorted inputs whose first sample is not before the first
      entry, Optimize succeeds exactly when some sample survives the first
      pass, and then returns the flat-run pass over exactly those survivors. */
  lemma OptimizeCharacterised(track: Track, src: ControllerSource)
    ensures |track.notes| == 0 ==> Optimize(track, src) == Fail(EmptyNoteList)
    ensures |track.notes| > 0 && |src.events| == 0 ==> Optimize(track, src) == Fail(EmptyEventList)
    ensures |track.notes| > 0 && |src.events| > 0 && src.events[0].ticks < track.notes[0].ticks ==>
              Optimize(track, src) == Fail(NoteIndexBelowZero)
    ensures MaskReady(track.notes, src.events) ==>
              (Optimize(track, src).Ok? <==> exists j :: 0 <= j < |src.events| && MaskSurvives(track.notes, src.events, j))
    ensures MaskReady(track.notes, src.events) && Optimize(track, src).Ok? ==>
              Optimize(track, src).value == FlatRunEvents(Pick(src.events, MaskSurvivors(track.notes, src.events)))
  {
    if MaskReady(track.notes, src.events) {
      MaskedCharacterised(track, src);
    }
    OptimizeStages(track, src);
  }

  /** Source `j` has been through the optimiser: its curve is non-empty and
      has no two equal neighbours. */
  ghost predicate SourceOptimised(s: Sequence, j: int) {
    0 <= j < |s.sources| && |s.sources[j].events| > 0 && DistinctNeighbours(s.sources[j].events)
  }

  /** `now` carries exactly the optimised form of the curve `orig`. */
  ghost predicate OptimisedFrom(track: Track, orig: ControllerSource, now: ControllerSource) {
    Optimize(track, orig).Ok? && now.events == Optimize(track, orig).value
  }

  /** Replaces the events of source `idx` by their optimised form, when the
      parameter is bound. */
  function OptimizeSlot(s: Sequence, track: Track, idx: int): (r: Result<Sequence>)
    ensures idx == NoSource ==> r == Ok(s)
    ensures !ValidBinding(s.sources, idx) ==> r == Fail(BadSourceIndex(idx))
    ensures 0 <= idx < |s.sources| ==> (r.Ok? <==> Optimize(track, s.sources[idx]).Ok?)
    ensures r.Ok? ==> OnlyEventsShrink(s, r.value)
    ensures r.Ok? && idx != NoSource ==>
              && 0 <= idx < |s.sources|
              && r.value.sources[idx].events == Optimize(track, s.sources[idx]).value
              && SourceOptimised(r.value, idx)
    ensures r.Ok? ==> forall i :: 0 <= i < |s.sources| && i != idx ==> r.value.sources[i] == s.sources[i]
  {
    if idx == NoSource then
      OnlyEventsShrinkReflexive(s);
      Ok(s)
    else if !(0 <= idx < |s.sources|) then Fail(BadSourceIndex(idx))
    else
      var evs :- Optimize(track, s.sources[idx]);
      var r := s.(sources := s.sources[idx := s.sources[idx].(events := evs)]);
      assert OnlyEventsShrink(s, r) by {
        forall i | 0 <= i < |s.sources| ensures SubsequenceOf(r.sources[i].events, s.sources[i].events) {
          if i != idx { SubsequenceReflexive(s.sources[i].events); }
        }
      }
      Ok(r)
  }

  /** `r` differs from `s` only by erasing samples from sources. */
  ghost predicate OnlyEventsShrink(s: Sequence, r: Sequence) {
    && r.(sources := s.sources) == s
    && |r.sources| == |s.sources|
    && forall i :: 0 <= i < |s.sources| ==>
         && r.sources[i].(events := s.sources[i].events) == s.sources[i]
         && SubsequenceOf(r.sources[i].events, s.sources[i].events)
  }

  lemma OnlyEventsShrinkReflexive(s: Sequence)
    ensures OnlyEventsShrink(s, s)
  {
    forall i | 0 <= i < |s.sources| ensures SubsequenceOf(s.sources[i].events, s.sources[i].events) {
      SubsequenceReflexive(s.sources[i].events);
    }
  }

  lemma OnlyEventsShrinkTransitive(a: Sequence, b: Sequence, c: Sequence)
    requires OnlyEventsShrink(a, b) && OnlyEventsShrink(b, c)
    ensures OnlyEventsShrink(a, c)
  {
    forall i | 0 <= i < |a.sources| ensures SubsequenceOf(c.sources[i].events, a.sources[i].events) {
      SubsequenceTransitive(c.sources[i].events, b.sources[i].events, a.sources[i].events);
    }
  }

  /** A track's five bindings, in the order optimize_track_sources visits
      them: echo, fine pitch, pan, vibrato, volume. */
  function Bindings(t: Track): (r: seq<int>)
    ensures |r| == 5
  {
    [t.echoSource, t.pitchSource, t.panSource, t.vibratoSource, t.volumeSource]
  }

  /** Binding `k` is the only one naming its source. */
  ghost predicate Once(bs: seq<int>, k: int) {
    0 <= k < |bs| && forall l :: 0 <= l < |bs| && l != k ==> bs[l] != bs[k]
  }

  /** Every slot of `bs` can be optimised on the curves of `s`: it is
      unbound, or it names an existing source that no other slot names and
      whose curve Optimize accepts. */
  ghost predicate SlotsReady(s: Sequence, track: Track, bs: seq<int>) {
    forall k :: 0 <= k < |bs| ==>
      && ValidBinding(s.sources, bs[k])
      && (bs[k] != NoSource ==> Once(bs, k) && Optimize(track, s.sources[bs[k]]).Ok?)
  }

  /** Optimising the slots `bs` in order. */
  function OptimizeSlots(s: Sequence, track: Track, bs: seq<int>): (r: Result<Sequence>)
    ensures SlotsReady(s, track, bs) ==> r.Ok?
    ensures r.Ok? ==> OnlyEventsShrink(s, r.value)
    ensures r.Ok? ==> forall k :: 0 <= k < |bs| ==> ValidBinding(s.sources, bs[k])
    ensures r.Ok? ==> forall k :: 0 <= k < |bs| && bs[k] != NoSource ==> SourceOptimised(r.value, bs[k])
    ensures r.Ok? ==> forall i :: 0 <= i < |s.sources| && i !in bs ==> r.value.sources[i] == s.sources[i]
    ensures r.Ok? ==> forall k :: Once(bs, k) && 0 <= bs[k] < |s.sources| ==>
              OptimisedFrom(track, s.sources[bs[k]], r.value.sources[bs[k]])
    decreases |bs|
  {
    if |bs| == 0 then
      OnlyEventsShrinkReflexive(s);
      Ok(s)
    else
      var s1 :- OptimizeSlot(s, track, bs[0]);
      SlotsReadyStep(s, s1, track, bs);
      var r :- OptimizeSlots(s1, track, bs[1..]);
      SlotsStep(s, s1, r, track, bs);
      Ok(r)
  }

  /** A ready first slot succeeds, and the remaining slots stay ready: the
      first slot changed only its own source, which no later slot names. */
  lemma SlotsReadyStep(s: Sequence, s1: Sequence, track: Track, bs: seq<int>)
    requires |bs| > 0 && OptimizeSlot(s, track, bs[0]) == Ok(s1)
    ensures SlotsReady(s, track, bs) ==> SlotsReady(s1, track, bs[1..])
  {
    if SlotsReady(s, track, bs) {
      forall k | 0 <= k < |bs[1..]|
        ensures && ValidBinding(s1.sources, bs[1..][k])
                && (bs[1..][k] != NoSource ==> Once(bs[1..], k) && Optimize(track, s1.sources[bs[1..][k]]).Ok?)
      {
        var b := bs[k + 1];
        assert ValidBinding(s.sources, b);
        if b != NoSource {
          assert Once(bs, k + 1);
          assert b != bs[0];
          assert s1.sources[b] == s.sources[b];
          assert Once(bs[1..], k) by {
            forall l | 0 <= l < |bs[1..]| && l != k ensures bs[1..][l] != bs[1..][k] {
              assert bs[1..][l] == bs[l + 1];
            }
          }
        }
      }
    }
  }

  /** The first slot, then the rest. */
  lemma SlotsStep(s: Sequence, s1: Sequence, r: Sequence, track: Track, bs: seq<int>)
    requires |bs| > 0 && OptimizeSlot(s, track, bs[0]) == Ok(s1)
    requires OnlyEventsShrink(s1, r)
    requires forall k :: 0 <= k < |bs[1..]| ==> ValidBinding(s1.sources, bs[1..][k])
    requires forall k :: 0 <= k < |bs[1..]| && bs[1..][k] != NoSource ==> SourceOptimised(r, bs[1..][k])
    requires forall i :: 0 <= i < |s1.sources| && i !in bs[1..] ==> r.sources[i] == s1.sources[i]
    requires forall k :: Once(bs[1..], k) && 0 <= bs[1..][k] < |s1.sources| ==>
               OptimisedFrom(track, s1.sources[bs[1..][k]], r.sources[bs[1..][k]])
    ensures OnlyEventsShrink(s, r)
    ensures forall k :: 0 <= k < |bs| ==> ValidBinding(s.sources, bs[k])
    ensures forall k :: 0 <= k < |bs| && bs[k] != NoSource ==> SourceOptimised(r, bs[k])
    ensures forall i :: 0 <= i < |s.sources| && i !in bs ==> r.sources[i] == s.sources[i]
    ensures forall k :: Once(bs, k) && 0 <= bs[k] < |s.sources| ==>
              OptimisedFrom(track, s.sources[bs[k]], r.sources[bs[k]])
  {
    OnlyEventsShrinkTransitive(s, s1, r);
    SlotsValid(s, s1, bs);
    SlotsOptimised(s1, r, track, bs);
    SlotsFrame(s, s1, r, track, bs);
    SlotsExact(s, s1, r, track, bs);
  }

  lemma SlotsValid(s: Sequence, s1: Sequence, bs: seq<int>)
    requires |bs| > 0 && ValidBinding(s.sources, bs[0]) && |s1.sources| == |s.sources|
    requires forall k :: 0 <= k < |bs[1..]| ==> ValidBinding(s1.sources, bs[1..][k])
    ensures forall k :: 0 <= k < |bs| ==> ValidBinding(s.sources, bs[k])
  {
    forall k | 0 <= k < |bs| ensures ValidBinding(s.sources, bs[k]) {
      if k > 0 { assert bs[k] == bs[1..][k - 1]; }
    }
  }

  lemma SlotsOptimised(s1: Sequence, r: Sequence, track: Track, bs: seq<int>)
    requires |bs| > 0 && (bs[0] != NoSource ==> SourceOptimised(s1, bs[0]))
    requires |r.sources| == |s1.sources|
    requires forall k :: 0 <= k < |bs[1..]| && bs[1..][k] != NoSource ==> SourceOptimised(r, bs[1..][k])
    requires forall i :: 0 <= i < |s1.sources| && i !in bs[1..] ==> r.sources[i] == s1.sources[i]
    ensures forall k :: 0 <= k < |bs| && bs[k] != NoSource ==> SourceOptimised(r, bs[k])
  {
    forall k | 0 <= k < |bs| && bs[k] != NoSource ensures SourceOptimised(r, bs[k]) {
      if k > 0 {
        assert bs[k] == bs[1..][k - 1];
      } else if bs[0] in bs[1..] {
        var l :| 0 <= l < |bs[1..]| && bs[1..][l] == bs[0];
      }
    }
  }

  lemma SlotsFrame(s: Sequence, s1: Sequence, r: Sequence, track: Track, bs: seq<int>)
    requires |bs| > 0 && |s1.sources| == |s.sources| == |r.sources|
    requires forall i :: 0 <= i < |s.sources| && i != bs[0] ==> s1.sources[i] == s.sources[i]
    requires forall i :: 0 <= i < |s1.sources| && i !in bs[1..] ==> r.sources[i] == s1.sources[i]
    ensures forall i :: 0 <= i < |s.sources| && i !in bs ==> r.sources[i] == s.sources[i]
  {
    forall i | 0 <= i < |s.sources| && i !in bs ensures r.sources[i] == s.sources[i] {
      assert i != bs[0] && i !in bs[1..];
    }
  }

  lemma SlotsExact(s: Sequence, s1: Sequence, r: Sequence, track: Track, bs: seq<int>)
    requires |bs| > 0 && |s1.sources| == |s.sources| == |r.sources|
    requires 0 <= bs[0] < |s.sources| ==> OptimisedFrom(track, s.sources[bs[0]], s1.sources[bs[0]])
    requires forall i :: 0 <= i < |s.sources| && i != bs[0] ==> s1.sources[i] == s.sources[i]
    requires forall i :: 0 <= i < |s1.sources| && i !in bs[1..] ==> r.sources[i] == s1.sources[i]
    requires forall k :: Once(bs[1..], k) && 0 <= bs[1..][k] < |s1.sources| ==>
               OptimisedFrom(track, s1.sources[bs[1..][k]], r.sources[bs[1..][k]])
    ensures forall k :: Once(bs, k) && 0 <= bs[k] < |s.sources| ==>
              OptimisedFrom(track, s.sources[bs[k]], r.sources[bs[k]])
  {
    forall k | Once(bs, k) && 0 <= bs[k] < |s.sources|
      ensures OptimisedFrom(track, s.sources[bs[k]], r.sources[bs[k]])
    {
      if k == 0 {
        assert bs[0] !in bs[1..];
      } else {
        assert bs[k] == bs[1..][k - 1] && bs[k] != bs[0];
        assert Once(bs[1..], k - 1) by {
          forall l | 0 <= l < |bs[1..]| && l != k - 1 ensures bs[1..][l] != bs[1..][k - 1] {
            assert bs[1..][l] == bs[l + 1];
          }
        }
      }
    }
  }

  /** optimize_track_sources: echo, fine pitch, pan, vibrato, then volume.
      Every source the track binds ends up optimised, a source it binds in
      one slot only is exactly the optimised form of its original curve, and
      every other source is untouched. */
  function OptimizeTrackSources(s: Sequence, t: nat): (r: Result<Sequence>)
    requires t < |s.tracks|
    ensures SlotsReady(s, s.tracks[t], Bindings(s.tracks[t])) ==> r.Ok?
    ensures r.Ok? ==> OnlyEventsShrink(s, r.value)
    ensures r.Ok? ==> forall k :: 0 <= k < 5 ==> ValidBinding(s.sources, Bindings(s.tracks[t])[k])
    ensures r.Ok? ==> TrackOptimised(r.value, s.tracks[t])
    ensures r.Ok? ==> forall i :: 0 <= i < |s.sources| && i !in Bindings(s.tracks[t]) ==> r.value.sources[i] == s.sources[i]
    ensures r.Ok? ==> forall k :: Once(Bindings(s.tracks[t]), k) && 0 <= Bindings(s.tracks[t])[k] < |s.sources| ==>
              OptimisedFrom(s.tracks[t], s.sources[Bindings(s.tracks[t])[k]], r.value.sources[Bindings(s.tracks[t])[k]])
  {
    OptimizeSlots(s, s.tracks[t], Bindings(s.tracks[t]))
  }

  /** Every source track `tr` binds is optimised in `s`. */
  ghost predicate TrackOptimised(s: Sequence, tr: Track) {
    forall k :: 0 <= k < |Bindings(tr)| && Bindings(tr)[k] != NoSource ==> SourceOptimised(s, Bindings(tr)[k])
  }

  /** No track from `t` on binds source `i`. */
  ghost predicate UnboundFrom(s: Sequence, t: nat, i: int) {
    forall u :: t <= u < |s.tracks| ==> i !in Bindings(s.tracks[u])
  }

  /** Slot `k` of track `u` binds a source that no other slot of the tracks
      from `t` on binds. */
  ghost predicate BoundOnceFrom(s: Sequence, t: nat, u: int, k: int) {
    && t <= u < |s.tracks| && 0 <= k < 5 && Bindings(s.tracks[u])[k] != NoSource
    && forall v, l :: t <= v < |s.tracks| && 0 <= l < 5 && (v != u || l != k) ==>
         Bindings(s.tracks[v])[l] != Bindings(s.tracks[u])[k]
  }

  /** The tracks from `t` on can all be optimised on the curves of `s`: every
      binding is unbound, or names an existing source bound by no other slot,
      whose curve Optimize accepts for that track. */
  ghost predicate ReadyFrom(s: Sequence, t: nat) {
    forall u, k :: t <= u < |s.tracks| && 0 <= k < 5 ==>
      && ValidBinding(s.sources, Bindings(s.tracks[u])[k])
      && (Bindings(s.tracks[u])[k] != NoSource ==>
            && BoundOnceFrom(s, t, u, k)
            && Optimize(s.tracks[u], s.sources[Bindings(s.tracks[u])[k]]).Ok?)
  }

  /** Every source bound by exactly one slot of the tracks from `t` on holds,
      in `r`, the optimised form of its curve in `s` for that slot's track. */
  ghost predicate OnceOptimised(s: Sequence, t: nat, r: Sequence) {
    forall u, k :: BoundOnceFrom(s, t, u, k) && 0 <= Bindings(s.tracks[u])[k] < |s.sources| <= |r.sources| ==>
      OptimisedFrom(s.tracks[u], s.sources[Bindings(s.tracks[u])[k]], r.sources[Bindings(s.tracks[u])[k]])
  }

  function OptimizeFrom(s: Sequence, t: nat): (r: Result<Sequence>)
    requires t <= |s.tracks|
    ensures ReadyFrom(s, t) ==> r.Ok?
    ensures r.Ok? ==> OnlyEventsShrink(s, r.value)
    ensures r.Ok? ==> forall u :: t <= u < |s.tracks| ==> TrackOptimised(r.value, s.tracks[u])
    ensures r.Ok? ==> forall i :: 0 <= i < |s.sources| && UnboundFrom(s, t, i) ==> r.value.sources[i] == s.sources[i]
    ensures r.Ok? ==> OnceOptimised(s, t, r.value)
    decreases |s.tracks| - t
  {
    if t == |s.tracks| then
      OnlyEventsShrinkReflexive(s);
      Ok(s)
    else
      var s1 :- OptimizeTrackSources(s, t);
      assert s1.tracks == s.tracks;
      FromReadyStep(s, s1, t);
      var r :- OptimizeFrom(s1, t + 1);
      FromStep(s, s1, r, t);
      FromExact(s, s1, r, t);
      Ok(r)
  }

  /** Ready tracks: track `t` succeeds and the later tracks stay ready, as
      the sources track `t` changed are bound by no later track. */
  lemma FromReadyStep(s: Sequence, s1: Sequence, t: nat)
    requires t < |s.tracks| && s1.tracks == s.tracks && |s1.sources| == |s.sources|
    requires forall i :: 0 <= i < |s.sources| && i !in Bindings(s.tracks[t]) ==> s1.sources[i] == s.sources[i]
    ensures ReadyFrom(s, t) ==> ReadyFrom(s1, t + 1)
  {
    if ReadyFrom(s, t) {
      forall u, k | t + 1 <= u < |s1.tracks| && 0 <= k < 5
        ensures && ValidBinding(s1.sources, Bindings(s1.tracks[u])[k])
                && (Bindings(s1.tracks[u])[k] != NoSource ==>
                      && BoundOnceFrom(s1, t + 1, u, k)
                      && Optimize(s1.tracks[u], s1.sources[Bindings(s1.tracks[u])[k]]).Ok?)
      {
        var b := Bindings(s.tracks[u])[k];
        assert ValidBinding(s.sources, b);
        if b != NoSource {
          assert BoundOnceFrom(s, t, u, k);
          assert b !in Bindings(s.tracks[t]) by {
            forall l | 0 <= l < 5 ensures Bindings(s.tracks[t])[l] != b {}
          }
          assert s1.sources[b] == s.sources[b];
        }
      }
    }
  }

  /** A source bound once from track `t` on is exact after track `t` and the
      later tracks. */
  lemma FromExact(s: Sequence, s1: Sequence, r: Sequence, t: nat)
    requires t < |s.tracks| && OptimizeTrackSources(s, t) == Ok(s1)
    requires OnlyEventsShrink(s1, r)
    requires forall i :: 0 <= i < |s1.sources| && UnboundFrom(s1, t + 1, i) ==> r.sources[i] == s1.sources[i]
    requires OnceOptimised(s1, t + 1, r)
    ensures OnceOptimised(s, t, r)
  {
    assert s1.tracks == s.tracks;
    forall u, k | BoundOnceFrom(s, t, u, k) && 0 <= Bindings(s.tracks[u])[k] < |s.sources| <= |r.sources|
      ensures OptimisedFrom(s.tracks[u], s.sources[Bindings(s.tracks[u])[k]], r.sources[Bindings(s.tracks[u])[k]])
    {
      var b := Bindings(s.tracks[u])[k];
      if u == t {
        FromExactHere(s, s1, r, t, k);
      } else {
        assert b !in Bindings(s.tracks[t]) by {
          forall l | 0 <= l < 5 ensures Bindings(s.tracks[t])[l] != b {}
        }
        assert s1.sources[b] == s.sources[b];
        assert BoundOnceFrom(s1, t + 1, u, k);
      }
    }
  }

  /** Slot `k` of track `t` itself: optimised once by track `t`, then left
      alone by the later tracks. */
  lemma FromExactHere(s: Sequence, s1: Sequence, r: Sequence, t: nat, k: int)
    requires t < |s.tracks| && OptimizeTrackSources(s, t) == Ok(s1)
    requires OnlyEventsShrink(s1, r)
    requires forall i :: 0 <= i < |s1.sources| && UnboundFrom(s1, t + 1, i) ==> r.sources[i] == s1.sources[i]
    requires BoundOnceFrom(s, t, t, k) && 0 <= Bindings(s.tracks[t])[k] < |s.sources|
    ensures OptimisedFrom(s.tracks[t], s.sources[Bindings(s.tracks[t])[k]], r.sources[Bindings(s.tracks[t])[k]])
  {
    var bs := Bindings(s.tracks[t]);
    var b := bs[k];
    assert s1.tracks == s.tracks;
    assert Once(bs, k);
    assert OptimisedFrom(s.tracks[t], s.sources[b], s1.sources[b]);
    assert UnboundFrom(s1, t + 1, b) by {
      forall u | t + 1 <= u < |s1.tracks| ensures b !in Bindings(s1.tracks[u]) {
        forall l | 0 <= l < 5 ensures Bindings(s1.tracks[u])[l] != b {}
      }
    }
  }

  /** Track `t`, then the tracks after it. */
  lemma FromStep(s: Sequence, s1: Sequence, r: Sequence, t: nat)
    requires t < |s.tracks| && OptimizeTrackSources(s, t) == Ok(s1)
    requires OnlyEventsShrink(s1, r)
    requires forall u :: t + 1 <= u < |s1.tracks| ==> TrackOptimised(r, s1.tracks[u])
    requires forall i :: 0 <= i < |s1.sources| && UnboundFrom(s1, t + 1, i) ==> r.sources[i] == s1.sources[i]
    ensures OnlyEventsShrink(s, r)
    ensures forall u :: t <= u < |s.tracks| ==> TrackOptimised(r, s.tracks[u])
    ensures forall i :: 0 <= i < |s.sources| && UnboundFrom(s, t, i) ==> r.sources[i] == s.sources[i]
  {
    OnlyEventsShrinkTransitive(s, s1, r);
    assert s1.tracks == s.tracks;
    var bs := Bindings(s.tracks[t]);
    forall k | 0 <= k < |bs| && bs[k] != NoSource ensures SourceOptimised(r, bs[k]) {
      if !UnboundFrom(s1, t + 1, bs[k]) {
        var u :| t + 1 <= u < |s1.tracks| && bs[k] in Bindings(s1.tracks[u]);
        var l :| 0 <= l < 5 && Bindings(s1.tracks[u])[l] == bs[k];
        assert TrackOptimised(r, s1.tracks[u]);
      }
    }
    forall i | 0 <= i < |s.sources| && UnboundFrom(s, t, i) ensures r.sources[i] == s.sources[i] {
      assert i !in Bindings(s.tracks[t]);
      assert UnboundFrom(s1, t + 1, i);
    }
  }

  /** optimize_all: every track's bound sources, track by track. The tracks
      and settings are untouched, every source only loses samples, every
      source some track binds ends up optimised, and a source no track binds
      is untouched. */
  function OptimizeAll(s: Sequence): (r: Result<Sequence>)
    ensures ReadyFrom(s, 0) ==> r.Ok?
    ensures r.Ok? ==> OnceOptimised(s, 0, r.value)
    ensures r.Ok? ==> OnlyEventsShrink(s, r.value)
    ensures r.Ok? ==> forall u :: 0 <= u < |s.tracks| ==> TrackOptimised(r.value, s.tracks[u])
    ensures r.Ok? ==> forall i :: 0 <= i < |s.sources| && UnboundFrom(s, 0, i) ==> r.value.sources[i] == s.sources[i]
  {
    OptimizeFrom(s, 0)
  }
}
