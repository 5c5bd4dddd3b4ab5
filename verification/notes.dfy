/** A track's note section in create_m64: each timeline entry becomes a rest
    command or one of three note encodings, with the note number written
    relative to a movable 64-wide window (the "note group"). Built as
    commands first, then serialised; the section has no end marker. */
module NoteSection {
  import opened Bytes
  import opened SequenceModel
  import opened Results

  /** NOTE_BIAS: the note number of window 0's first key. */
  const NoteBias: int := 21

  datatype NoteCmd =
    | Group(group: int)                                                      // C2, group * 64
    | RestFor(duration: int)                                                 // C0, duration
    | Combined(pitch: int, duration: int, velocity: Byte, percentage: Byte)  // mode 1
    | Single(pitch: int, duration: int, velocity: Byte)                      // mode 2
    | Repeat(pitch: int, velocity: Byte, percentage: Byte)                   // mode 3

  // ---------------------------------------------------------------------------
  // The note window

  /** The first adjustment loop: step the window down until the note is not
      below it. */
  function LowerGroup(note: int, g: int): (r: int)
    ensures r <= g
    ensures note - (r * 64 + NoteBias) >= 0
    ensures r < g ==> note - (r * 64 + NoteBias) < 64
    decreases if note - (g * 64 + NoteBias) < 0 then g * 64 + NoteBias - note else 0
  {
    if note - (g * 64 + NoteBias) < 0 then LowerGroup(note, g - 1) else g
  }

  /** The second loop: step the window up until the note is inside it. */
  function RaiseGroup(note: int, g: int): (r: int)
    requires note - (g * 64 + NoteBias) >= 0
    ensures r >= g
    ensures 0 <= note - (r * 64 + NoteBias) < 64
    decreases note - (g * 64 + NoteBias)
  {
    if note - (g * 64 + NoteBias) >= 64 then RaiseGroup(note, g + 1) else g
  }

  /** The window holding `note`, found by moving from the current one. */
  function AdjustGroup(note: int, current: int): (g: int)
    ensures 0 <= note - (g * 64 + NoteBias) < 64
  {
    RaiseGroup(note, LowerGroup(note, current))
  }

  /** Whatever window the search starts from, it ends at the one window
      that holds the note: floor((note - 21) / 64). */
  lemma AdjustGroupIsFloor(note: int, current: int)
    ensures AdjustGroup(note, current) == (note - NoteBias) / 64
  {
    var g := AdjustGroup(note, current);
    var x := note - NoteBias;
    var q := x / 64;
    assert q * 64 <= x < q * 64 + 64;
    BelowNextMultiple(g, q, 64);
    BelowNextMultiple(q, g, 64);
  }

  // ---------------------------------------------------------------------------
  // Building the commands

  /** A note's velocity, scaled by the track's multiplier and clamped to
      [0,1], as a percentage byte. */
  function Velocity(v: real, multiplier: real): (b: Byte)
    ensures b <= 100
  {
    var c := Clamp01(v * multiplier);
    assert 0.0 <= c * 100.0 <= 100.0;
    FloatByte(c * 100.0)
  }

  /** The share of a note+rest pair that is rest, scaled to 255. */
  function RestShare(combined: int, own: int): real
    requires combined != 0
  {
    (combined - own) as real / combined as real * 255.0
  }

  /** The play percentage byte. The float division by a zero combined
      duration, and a share whose truncation is no byte, have no defined
      value in C++: both are reported. On a timeline where the note lies
      inside the pair the share is always a byte. */
  function PlayPercentage(combined: int, own: int): (r: Result<Byte>)
    ensures combined == 0 ==> r == Fail(ZeroDuration)
    ensures 0 <= own <= combined && combined > 0 ==> r.Ok?
    ensures r.Fail? && combined != 0 ==> r == Fail(ByteOutOfRange)
    ensures r.Ok? ==> combined != 0 && r.value == Trunc(RestShare(combined, own))
  {
    if combined == 0 then Fail(ZeroDuration)
    else
      RestShareInside(combined, own);
      var share := RestShare(combined, own);
      if !FitsByte(share) then Fail(ByteOutOfRange)
      else Ok(FloatByte(share))
  }

  /** A note inside its pair leaves a share between 0 and 255. */
  lemma RestShareInside(combined: int, own: int)
    requires combined != 0
    ensures 0 <= own <= combined ==> FitsByte(RestShare(combined, own))
  {
    if 0 <= own <= combined {
      var q := (combined - own) as real / combined as real;
      assert q * combined as real == (combined - own) as real;
      assert 0.0 <= q <= 1.0;
      assert 0.0 <= q * 255.0 <= 255.0;
    }
  }

  /** The encoding chosen for a note: 1 (note and following rest in one
      command), 3 (the same, repeating the previous duration) or 2 (note
      alone). */
  function ChooseMode(nextIsRest: bool, combined: int, prevDuration: int): (mode: int)
    ensures mode == 1 || mode == 2 || mode == 3
    ensures mode != 2 <==> nextIsRest && combined <= 255
    ensures mode == 3 <==> nextIsRest && combined <= 255 && combined == prevDuration
  {
    if nextIsRest && combined <= 255 then (if combined == prevDuration then 3 else 1)
    else 2
  }

  /** Ticks from entry `j` to the next entry, or to the end of the sequence. */
  function Span(notes: seq<NoteEvent>, total: int, j: nat, k: nat): int
    requires j < |notes|
  {
    (if j + k < |notes| then notes[j + k].ticks else total) - notes[j].ticks
  }

  /** Number of timeline entries a command stands for. */
  function Consumed(cmds: seq<NoteCmd>): nat {
    if |cmds| == 0 then 0
    else
      (match cmds[0]
       case Group(_) => 0
       case RestFor(_) => 1
       case Single(_, _, _) => 1
       case Combined(_, _, _, _) => 2
       case Repeat(_, _, _) => 2)
      + Consumed(cmds[1..])
  }

  lemma ConsumedAppend(a: seq<NoteCmd>, b: seq<NoteCmd>)
    ensures Consumed(a + b) == Consumed(a) + Consumed(b)
  {
    if |a| > 0 {
      assert (a + b)[1..] == a[1..] + b;
      ConsumedAppend(a[1..], b);
    } else {
      assert a + b == b;
    }
  }

  /** The pitch field of a note command (0 for the others). */
  function PitchOf(c: NoteCmd): int {
    match c
    case Combined(p, _, _, _) => p
    case Single(p, _, _) => p
    case Repeat(p, _, _) => p
    case _ => 0
  }

  /** The commands one loop iteration writes, and the state it leaves: the
      next entry to read, the window and the previous duration. */
  datatype Emitted = Emitted(cmds: seq<NoteCmd>, next: nat, group: int, prevDuration: int)

  /** One iteration of the note loop at entry `j`. A rest lasts until the
      next entry (or the end). A note first moves the window if needed, then
      picks its encoding from the following entry and the span up to the
      entry after it. */
  function EntryStep(notes: seq<NoteEvent>, total: int, direct: bool, velocityMultiplier: real,
                     j: nat, group: int, prevDuration: int): (r: Result<Emitted>)
    requires j < |notes|
    ensures r.Ok? ==> j < r.value.next <= |notes| && Consumed(r.value.cmds) == r.value.next - j
    ensures r.Ok? && !direct ==> forall k :: 0 <= k < |r.value.cmds| ==> 0 <= PitchOf(r.value.cmds[k]) < 64
    ensures r.Ok? && direct ==> forall k :: 0 <= k < |r.value.cmds| ==> !r.value.cmds[k].Group?
  {
    var e := notes[j];
    if e.kind == Rest then
      Ok(Emitted([RestFor(Span(notes, total, j, 1))], j + 1, group, prevDuration))
    else
      var note := e.pitch as int;
      var g := if direct then group else AdjustGroup(note, group);
      var change := if !direct && g != group then [Group(g)] else [];
      var own := Span(notes, total, j, 1);
      var combined := Span(notes, total, j, 2);
      var nextIsRest := j + 1 < |notes| && notes[j + 1].kind == Rest;
      var mode := ChooseMode(nextIsRest, combined, prevDuration);
      var p := if direct then note else note - (g * 64 + NoteBias);
      var vel := Velocity(e.velocity, velocityMultiplier);
      if mode == 2 then
        ConsumedAppend(change, [Single(p, own, vel)]);
        Ok(Emitted(change + [Single(p, own, vel)], j + 1, g, own))
      else
        var pct :- PlayPercentage(combined, own);
        var c := if mode == 1 then Combined(p, combined, vel, pct) else Repeat(p, vel, pct);
        ConsumedAppend(change, [c]);
        Ok(Emitted(change + [c], j + 2, g, if mode == 1 then combined else prevDuration))
  }

  /** Note-section commands for entries `j..`, with the current window and
      the previous note duration. */
  function NoteCommandsFrom(notes: seq<NoteEvent>, total: int, direct: bool, velocityMultiplier: real,
                            j: nat, group: int, prevDuration: int): (r: Result<seq<NoteCmd>>)
    requires j <= |notes|
    ensures r.Ok? ==> Consumed(r.value) == |notes| - j
    ensures r.Ok? && !direct ==> forall k :: 0 <= k < |r.value| ==> 0 <= PitchOf(r.value[k]) < 64
    ensures r.Ok? && direct ==> forall k :: 0 <= k < |r.value| ==> !r.value[k].Group?
    decreases |notes| - j
  {
    if j == |notes| then Ok([])
    else
      var step :- EntryStep(notes, total, direct, velocityMultiplier, j, group, prevDuration);
      var rest :- NoteCommandsFrom(notes, total, direct, velocityMultiplier, step.next, step.group, step.prevDuration);
      ConsumedAppend(step.cmds, rest);
      Ok(step.cmds + rest)
  }

  /** A track's note section, from window 0 and a previous duration of 0. */
  function NoteCommands(t: Track, total: int): (r: Result<seq<NoteCmd>>)
    ensures r.Ok? ==> Consumed(r.value) == |t.notes|
  {
    NoteCommandsFrom(t.notes, total, t.mapDirectly, t.velocityMultiplier, 0, 0, 0)
  }

  /** Entries `j..` have strictly increasing ticks before the end. */
  ghost predicate OrderedFrom(notes: seq<NoteEvent>, total: int) {
    && StrictlyIncreasing(NoteTicks(notes))
    && (|notes| > 0 ==> notes[|notes| - 1].ticks < total)
  }

  /** On such a timeline every span is positive. */
  lemma SpansPositive(notes: seq<NoteEvent>, total: int, j: nat)
    requires OrderedFrom(notes, total) && j < |notes|
    ensures 0 < Span(notes, total, j, 1) <= Span(notes, total, j, 2)
  {
    var n := |notes|;
    assert NoteTicks(notes)[j] <= NoteTicks(notes)[n - 1];
    if j + 1 < n {
      assert NoteTicks(notes)[j] < NoteTicks(notes)[j + 1];
    }
    if j + 2 < n {
      assert NoteTicks(notes)[j] < NoteTicks(notes)[j + 2];
    }
  }

  /** With strictly increasing ticks before the end of the sequence no
      combined duration is 0, so the section is always produced. */
  lemma {:induction false} NoteCommandsFromOk(notes: seq<NoteEvent>, total: int, direct: bool, velocityMultiplier: real,
                                              j: nat, group: int, prevDuration: int)
    requires j <= |notes| && OrderedFrom(notes, total)
    ensures NoteCommandsFrom(notes, total, direct, velocityMultiplier, j, group, prevDuration).Ok?
    decreases |notes| - j
  {
    if j < |notes| {
      SpansPositive(notes, total, j);
      var step := EntryStep(notes, total, direct, velocityMultiplier, j, group, prevDuration);
      assert step.Ok?;
      NoteCommandsFromOk(notes, total, direct, velocityMultiplier, step.value.next, step.value.group, step.value.prevDuration);
    }
  }

  // ---------------------------------------------------------------------------
  // Replaying the commands

  /** What a player tracks while reading a note section. */
  datatype Player = Player(time: int, group: int, lastDuration: int)

  /** A sounded note: its onset and note number. */
  datatype Onset = Onset(ticks: int, note: int)

  /** The note number a pitch field stands for under the current window. */
  function Sounded(direct: bool, group: int, p: int): int {
    if direct then p else group * 64 + NoteBias + p
  }

  /** One command: a window change, a rest, or a note that sounds at the
      current time and advances it (a repeat by the last written duration). */
  function ReplayOne(c: NoteCmd, direct: bool, st: Player): (seq<Onset>, Player) {
    match c
    case Group(g) => ([], st.(group := g))
    case RestFor(d) => ([], st.(time := st.time + d))
    case Single(p, d, _) =>
      ([Onset(st.time, Sounded(direct, st.group, p))], st.(time := st.time + d, lastDuration := d))
    case Combined(p, d, _, _) =>
      ([Onset(st.time, Sounded(direct, st.group, p))], st.(time := st.time + d, lastDuration := d))
    case Repeat(p, _, _) =>
      ([Onset(st.time, Sounded(direct, st.group, p))], st.(time := st.time + st.lastDuration))
  }

  function Replay(cmds: seq<NoteCmd>, direct: bool, st: Player): (seq<Onset>, Player) {
    if |cmds| == 0 then ([], st)
    else
      var (o1, s1) := ReplayOne(cmds[0], direct, st);
      var (o2, s2) := Replay(cmds[1..], direct, s1);
      (o1 + o2, s2)
  }

  lemma ReplaySingle(c: NoteCmd, direct: bool, st: Player)
    ensures Replay([c], direct, st) == ReplayOne(c, direct, st)
  {
    var (o1, s1) := ReplayOne(c, direct, st);
    assert [c][1..] == [];
    assert o1 + [] == o1;
  }

  lemma {:induction false} ReplayAppend(a: seq<NoteCmd>, b: seq<NoteCmd>, direct: bool, st: Player)
    ensures var (oa, sa) := Replay(a, direct, st);
            var (ob, sb) := Replay(b, direct, sa);
            Replay(a + b, direct, st) == (oa + ob, sb)
    decreases |a|
  {
    if |a| == 0 {
      assert a + b == b;
      var (ob, sb) := Replay(b, direct, st);
      assert [] + ob == ob;
    } else {
      assert (a + b)[1..] == a[1..] + b;
      var (o1, s1) := ReplayOne(a[0], direct, st);
      ReplayAppend(a[1..], b, direct, s1);
      var (o2, s2) := Replay(a[1..], direct, s1);
      var (ob, sb) := Replay(b, direct, s2);
      assert o1 + (o2 + ob) == (o1 + o2) + ob;
    }
  }

  /** Reference: the onsets and note numbers of the Note entries from `j`. */
  function NoteOnsets(notes: seq<NoteEvent>, j: nat): seq<Onset>
    requires j <= |notes|
    decreases |notes| - j
  {
    if j == |notes| then []
    else (if notes[j].kind == Note then [Onset(notes[j].ticks, notes[j].pitch)] else []) + NoteOnsets(notes, j + 1)
  }

  /** Where the player should stand before entry `j`. */
  function StartOf(notes: seq<NoteEvent>, total: int, j: nat): int
    requires j <= |notes|
  {
    if j < |notes| then notes[j].ticks else total
  }

  /** A Note entry's commands: an optional window change, then one note
      command sounding the entry's note and lasting until the next entry. */
  lemma NoteStepShape(notes: seq<NoteEvent>, total: int, direct: bool, velocityMultiplier: real,
                      j: nat, group: int, prevDuration: int)
    requires j < |notes| && notes[j].kind == Note
    requires EntryStep(notes, total, direct, velocityMultiplier, j, group, prevDuration).Ok?
    ensures var step := EntryStep(notes, total, direct, velocityMultiplier, j, group, prevDuration).value;
            var c := step.cmds[|step.cmds| - 1];
            && |step.cmds| > 0
            && step.cmds == (if |step.cmds| == 1 then [] else [Group(step.group)]) + [c]
            && (|step.cmds| == 1 <==> step.group == group)
            && Sounded(direct, step.group, PitchOf(c)) == notes[j].pitch
            && ReplayOne(c, direct, Player(notes[j].ticks, step.group, prevDuration))
               == ([Onset(notes[j].ticks, notes[j].pitch)],
                   Player(StartOf(notes, total, step.next), step.group, step.prevDuration))
            && (step.next == j + 1 || (step.next == j + 2 && notes[j + 1].kind == Rest))
  {
  }

  /** One iteration's commands sound the Note entries it consumed and bring
      the player to the next entry, with the window and previous duration
      the loop carries on with. */
  lemma ReplayStep(notes: seq<NoteEvent>, total: int, direct: bool, velocityMultiplier: real,
                   j: nat, group: int, prevDuration: int)
    requires j < |notes|
    requires EntryStep(notes, total, direct, velocityMultiplier, j, group, prevDuration).Ok?
    ensures var step := EntryStep(notes, total, direct, velocityMultiplier, j, group, prevDuration).value;
            var (onsets, end) := Replay(step.cmds, direct, Player(notes[j].ticks, group, prevDuration));
            && end == Player(StartOf(notes, total, step.next), step.group, step.prevDuration)
            && onsets + NoteOnsets(notes, step.next) == NoteOnsets(notes, j)
  {
    if notes[j].kind == Rest {
      var st := Player(notes[j].ticks, group, prevDuration);
      ReplaySingle(RestFor(Span(notes, total, j, 1)), direct, st);
      assert NoteOnsets(notes, j) == [] + NoteOnsets(notes, j + 1);
    } else {
      ReplayNoteStep(notes, total, direct, velocityMultiplier, j, group, prevDuration);
    }
  }

  /** ReplayStep for a Note entry. */
  lemma ReplayNoteStep(notes: seq<NoteEvent>, total: int, direct: bool, velocityMultiplier: real,
                       j: nat, group: int, prevDuration: int)
    requires j < |notes| && notes[j].kind == Note
    requires EntryStep(notes, total, direct, velocityMultiplier, j, group, prevDuration).Ok?
    ensures var step := EntryStep(notes, total, direct, velocityMultiplier, j, group, prevDuration).value;
            var (onsets, end) := Replay(step.cmds, direct, Player(notes[j].ticks, group, prevDuration));
            && end == Player(StartOf(notes, total, step.next), step.group, step.prevDuration)
            && onsets + NoteOnsets(notes, step.next) == NoteOnsets(notes, j)
  {
    var step := EntryStep(notes, total, direct, velocityMultiplier, j, group, prevDuration).value;
    NoteStepShape(notes, total, direct, velocityMultiplier, j, group, prevDuration);
    ReplayShaped(notes, total, direct, j, group, prevDuration, step);
  }

  /** Replaying an optional window change followed by one note command that
      sounds entry `j` and reaches the entry after the ones it consumed. */
  lemma ReplayShaped(notes: seq<NoteEvent>, total: int, direct: bool, j: nat, group: int, prevDuration: int,
                     step: Emitted)
    requires j < |notes| && notes[j].kind == Note && |step.cmds| > 0 && step.next <= |notes|
    requires var c := step.cmds[|step.cmds| - 1];
             && step.cmds == (if |step.cmds| == 1 then [] else [Group(step.group)]) + [c]
             && (|step.cmds| == 1 ==> step.group == group)
             && ReplayOne(c, direct, Player(notes[j].ticks, step.group, prevDuration))
                == ([Onset(notes[j].ticks, notes[j].pitch)],
                    Player(StartOf(notes, total, step.next), step.group, step.prevDuration))
    requires step.next == j + 1 || (step.next == j + 2 && notes[j + 1].kind == Rest)
    ensures var (onsets, end) := Replay(step.cmds, direct, Player(notes[j].ticks, group, prevDuration));
            && end == Player(StartOf(notes, total, step.next), step.group, step.prevDuration)
            && onsets + NoteOnsets(notes, step.next) == NoteOnsets(notes, j)
  {
    var st := Player(notes[j].ticks, group, prevDuration);
    var st1 := Player(notes[j].ticks, step.group, prevDuration);
    var c := step.cmds[|step.cmds| - 1];
    var heard := [Onset(notes[j].ticks, notes[j].pitch)];
    ReplaySingle(c, direct, st1);
    if |step.cmds| > 1 {
      assert ReplayOne(Group(step.group), direct, st) == ([], st1);
      ReplaySingle(Group(step.group), direct, st);
      ReplayAppend([Group(step.group)], [c], direct, st);
      assert Replay(step.cmds, direct, st).0 == [] + heard;
    } else {
      assert step.cmds == [c] && st1 == st;
    }
    assert Replay(step.cmds, direct, st).0 == heard;
    assert NoteOnsets(notes, j) == heard + NoteOnsets(notes, j + 1);
    if step.next == j + 2 {
      assert NoteOnsets(notes, j + 1) == [] + NoteOnsets(notes, j + 2);
    }
  }

  /** Replaying the section from entry `j` sounds every Note entry at its
      tick with its note number, and ends at the end of the sequence. */
  lemma {:induction false} ReplayFrom(notes: seq<NoteEvent>, total: int, direct: bool, velocityMultiplier: real,
                                      j: nat, group: int, prevDuration: int)
    requires j <= |notes|
    requires NoteCommandsFrom(notes, total, direct, velocityMultiplier, j, group, prevDuration).Ok?
    ensures var cmds := NoteCommandsFrom(notes, total, direct, velocityMultiplier, j, group, prevDuration).value;
            var (onsets, end) := Replay(cmds, direct, Player(StartOf(notes, total, j), group, prevDuration));
            onsets == NoteOnsets(notes, j) && end.time == total
    decreases |notes| - j
  {
    if j < |notes| {
      var step := EntryStep(notes, total, direct, velocityMultiplier, j, group, prevDuration).value;
      var rest := NoteCommandsFrom(notes, total, direct, velocityMultiplier, step.next, step.group, step.prevDuration).value;
      ReplayStep(notes, total, direct, velocityMultiplier, j, group, prevDuration);
      ReplayFrom(notes, total, direct, velocityMultiplier, step.next, step.group, step.prevDuration);
      ReplayAppend(step.cmds, rest, direct, Player(notes[j].ticks, group, prevDuration));
    }
  }

  /** The onsets `delta` ticks later. */
  function Shifted(onsets: seq<Onset>, delta: int): (r: seq<Onset>)
    ensures |r| == |onsets|
  {
    seq(|onsets|, k requires 0 <= k < |onsets| => Onset(onsets[k].ticks + delta, onsets[k].note))
  }

  /** Starting the player `delta` ticks later moves every onset and the end
      by `delta`, and changes nothing else. */
  lemma {:induction false} ReplayShift(cmds: seq<NoteCmd>, direct: bool, st: Player, delta: int)
    ensures var (onsets, end) := Replay(cmds, direct, st);
            Replay(cmds, direct, st.(time := st.time + delta)) == (Shifted(onsets, delta), end.(time := end.time + delta))
    decreases |cmds|
  {
    if |cmds| > 0 {
      var (o1, s1) := ReplayOne(cmds[0], direct, st);
      var (o2, s2) := Replay(cmds[1..], direct, s1);
      ReplayOneShift(cmds[0], direct, st, delta);
      ReplayShift(cmds[1..], direct, s1, delta);
      assert Shifted(o1 + o2, delta) == Shifted(o1, delta) + Shifted(o2, delta);
    }
  }

  lemma ReplayOneShift(c: NoteCmd, direct: bool, st: Player, delta: int)
    ensures var (onsets, end) := ReplayOne(c, direct, st);
            ReplayOne(c, direct, st.(time := st.time + delta)) == (Shifted(onsets, delta), end.(time := end.time + delta))
  {
    if !c.Group? && !c.RestFor? {
      var heard := [Onset(st.time, Sounded(direct, st.group, c.pitch))];
      assert Shifted(heard, delta) == [Onset(st.time + delta, Sounded(direct, st.group, c.pitch))];
    }
  }

  /** A whole section, replayed from time 0 with window 0 and no previous
      duration, sounds exactly the track's notes, each moved earlier by the
      first entry's tick, and lasts until the end of the sequence less that
      tick. When the first entry is at tick 0, as the reader's leading rest
      makes it, the notes sound at their own ticks and the section lasts
      until the end of the sequence. */
  lemma ReplayNoteCommands(t: Track, total: int)
    requires NoteCommands(t, total).Ok?
    ensures var start := StartOf(t.notes, total, 0);
            var (onsets, end) := Replay(NoteCommands(t, total).value, t.mapDirectly, Player(0, 0, 0));
            onsets == Shifted(NoteOnsets(t.notes, 0), -start) && end.time == total - start
    ensures |t.notes| > 0 && t.notes[0].ticks == 0 ==>
              var (onsets, end) := Replay(NoteCommands(t, total).value, t.mapDirectly, Player(0, 0, 0));
              onsets == NoteOnsets(t.notes, 0) && end.time == total
  {
    var start := StartOf(t.notes, total, 0);
    var cmds := NoteCommands(t, total).value;
    ReplayFrom(t.notes, total, t.mapDirectly, t.velocityMultiplier, 0, 0, 0);
    ReplayShift(cmds, t.mapDirectly, Player(start, 0, 0), -start);
    assert Player(start, 0, 0).(time := start + -start) == Player(0, 0, 0);
    var onsets := NoteOnsets(t.notes, 0);
    assert Shifted(onsets, 0) == onsets;
  }

  // ---------------------------------------------------------------------------
  // Serialisation

  const RestOp: Byte := 0xC0
  const GroupOp: Byte := 0xC2

  function EncodeNote(c: NoteCmd): (r: seq<Byte>)
    ensures |r| > 0
  {
    match c
    case Group(g) => [GroupOp, ToByte(g * 64)]
    case RestFor(d) => [RestOp] + VarLen(d)
    case Combined(p, d, v, pct) => [ToByte(p)] + VarLen(d) + [v, pct]
    case Single(p, d, v) => [ToByte(64 + p)] + VarLen(d) + [v]
    case Repeat(p, v, pct) => [ToByte(128 + p), v, pct]
  }

  function EncodeNotes(cmds: seq<NoteCmd>): seq<Byte> {
    if |cmds| == 0 then [] else EncodeNote(cmds[0]) + EncodeNotes(cmds[1..])
  }

  /** Reads one command at `pos`; returns it and the position after it. */
  function DecodeNote(bytes: seq<Byte>, pos: nat): (r: Option<(NoteCmd, nat)>)
    ensures r.Some? ==> pos < r.value.1 <= |bytes|
  {
    if pos >= |bytes| then None
    else
      var b := bytes[pos];
      if b == GroupOp then
        (if pos + 1 < |bytes| then Some((Group(Signed(bytes[pos + 1]) / 64), pos + 2)) else None)
      else if b == RestOp then
        match ReadVarLen(bytes, pos + 1)
        case None => None
        case Some((d, next)) => Some((RestFor(d), next))
      else if b < 64 then
        match ReadVarLen(bytes, pos + 1)
        case None => None
        case Some((d, next)) =>
          if next + 1 < |bytes| then Some((Combined(b, d, bytes[next], bytes[next + 1]), next + 2)) else None
      else if b < 128 then
        match ReadVarLen(bytes, pos + 1)
        case None => None
        case Some((d, next)) =>
          if next < |bytes| then Some((Single(b - 64, d, bytes[next]), next + 1)) else None
      else if b < 192 then
        (if pos + 2 < |bytes| then Some((Repeat(b - 128, bytes[pos + 1], bytes[pos + 2]), pos + 3)) else None)
      else None
  }

  /** Reads commands from `pos` to the end of the buffer. */
  function DecodeNotes(bytes: seq<Byte>, pos: nat): Option<seq<NoteCmd>>
    requires pos <= |bytes|
    decreases |bytes| - pos
  {
    if pos == |bytes| then Some([])
    else
      match DecodeNote(bytes, pos)
      case None => None
      case Some((c, next)) =>
        match DecodeNotes(bytes, next)
        case None => None
        case Some(rest) => Some([c] + rest)
  }

  /** A command the byte form represents unambiguously: a window whose
      `g * 64` fits a signed byte, a pitch inside the window and a duration
      that fits the duration field. */
  predicate DecodableNote(c: NoteCmd) {
    match c
    case Group(g) => -2 <= g < 2
    case RestFor(d) => 0 <= d < 0x8000
    case Combined(p, d, _, _) => 0 <= p < 64 && 0 <= d < 0x8000
    case Single(p, d, _) => 0 <= p < 64 && 0 <= d < 0x8000
    case Repeat(p, _, _) => 0 <= p < 64
  }

  /** Every command of the list is decodable. */
  ghost predicate AllDecodable(cmds: seq<NoteCmd>) {
    forall k :: 0 <= k < |cmds| ==> DecodableNote(cmds[k])
  }

  lemma AllDecodableAppend(a: seq<NoteCmd>, b: seq<NoteCmd>)
    requires AllDecodable(a) && AllDecodable(b)
    ensures AllDecodable(a + b)
  {
    forall k | 0 <= k < |a + b| ensures DecodableNote((a + b)[k]) {
      if k >= |a| {
        assert (a + b)[k] == b[k - |a|];
      }
    }
  }

  /** A window change decodes back for windows -2..1, those whose `g * 64`
      fits the signed byte the driver reads. */
  lemma DecodeGroup(pre: seq<Byte>, g: int, post: seq<Byte>)
    requires -2 <= g < 2
    ensures DecodeNote(pre + EncodeNote(Group(g)) + post, |pre|) == Some((Group(g), |pre| + 2))
  {
    var buf := pre + EncodeNote(Group(g)) + post;
    assert buf[|pre|] == GroupOp && buf[|pre| + 1] == ToByte(g * 64);
    SignedToByte(g * 64);
  }

  lemma DecodeRest(pre: seq<Byte>, d: int, post: seq<Byte>)
    requires 0 <= d < 0x8000
    ensures DecodeNote(pre + EncodeNote(RestFor(d)) + post, |pre|) == Some((RestFor(d), |pre| + 1 + |VarLen(d)|))
  {
    var buf := pre + EncodeNote(RestFor(d)) + post;
    assert buf == (pre + [RestOp]) + VarLen(d) + post;
    assert buf[|pre|] == RestOp;
    VarLenRoundTrip(pre + [RestOp], d, post);
  }

  lemma DecodeCombined(pre: seq<Byte>, p: int, d: int, v: Byte, pct: Byte, post: seq<Byte>)
    requires 0 <= p < 64 && 0 <= d < 0x8000
    ensures DecodeNote(pre + EncodeNote(Combined(p, d, v, pct)) + post, |pre|)
            == Some((Combined(p, d, v, pct), |pre| + 3 + |VarLen(d)|))
  {
    var buf := pre + EncodeNote(Combined(p, d, v, pct)) + post;
    assert buf == (pre + [ToByte(p)]) + VarLen(d) + ([v, pct] + post);
    assert buf[|pre|] == p;
    VarLenRoundTrip(pre + [ToByte(p)], d, [v, pct] + post);
    var next := |pre| + 1 + |VarLen(d)|;
    assert buf[next] == v && buf[next + 1] == pct;
  }

  lemma DecodeSingle(pre: seq<Byte>, p: int, d: int, v: Byte, post: seq<Byte>)
    requires 0 <= p < 64 && 0 <= d < 0x8000
    ensures DecodeNote(pre + EncodeNote(Single(p, d, v)) + post, |pre|)
            == Some((Single(p, d, v), |pre| + 2 + |VarLen(d)|))
  {
    var buf := pre + EncodeNote(Single(p, d, v)) + post;
    assert buf == (pre + [ToByte(64 + p)]) + VarLen(d) + ([v] + post);
    assert buf[|pre|] == 64 + p;
    VarLenRoundTrip(pre + [ToByte(64 + p)], d, [v] + post);
    assert buf[|pre| + 1 + |VarLen(d)|] == v;
  }

  lemma DecodeRepeat(pre: seq<Byte>, p: int, v: Byte, pct: Byte, post: seq<Byte>)
    requires 0 <= p < 64
    ensures DecodeNote(pre + EncodeNote(Repeat(p, v, pct)) + post, |pre|) == Some((Repeat(p, v, pct), |pre| + 3))
  {
    var buf := pre + EncodeNote(Repeat(p, v, pct)) + post;
    assert buf[|pre|] == 128 + p && buf[|pre| + 1] == v && buf[|pre| + 2] == pct;
  }

  /** One decodable command, wherever it sits, reads back as itself. */
  lemma DecodeOne(pre: seq<Byte>, c: NoteCmd, post: seq<Byte>)
    requires DecodableNote(c)
    ensures DecodeNote(pre + EncodeNote(c) + post, |pre|) == Some((c, |pre| + |EncodeNote(c)|))
  {
    match c
    case Group(g) => DecodeGroup(pre, g, post);
    case RestFor(d) => DecodeRest(pre, d, post);
    case Combined(p, d, v, pct) => DecodeCombined(pre, p, d, v, pct, post);
    case Single(p, d, v) => DecodeSingle(pre, p, d, v, post);
    case Repeat(p, v, pct) => DecodeRepeat(pre, p, v, pct, post);
  }

  /** A serialised list is its first command's bytes followed by the rest's. */
  lemma EncodeNotesHead(pre: seq<Byte>, cmds: seq<NoteCmd>)
    requires |cmds| > 0
    ensures pre + EncodeNotes(cmds) == (pre + EncodeNote(cmds[0])) + EncodeNotes(cmds[1..])
  {
  }

  /** A decodable command in front of bytes that read back as `tail` makes
      the whole read back as the command followed by `tail`. */
  lemma DecodeNotesCons(pre: seq<Byte>, c: NoteCmd, rest: seq<Byte>, tail: seq<NoteCmd>)
    requires DecodableNote(c)
    requires DecodeNotes(pre + EncodeNote(c) + rest, |pre| + |EncodeNote(c)|) == Some(tail)
    ensures DecodeNotes(pre + EncodeNote(c) + rest, |pre|) == Some([c] + tail)
  {
    DecodeOne(pre, c, rest);
  }

  /** Equal buffers decode alike. */
  lemma DecodeNotesSame(a: seq<Byte>, b: seq<Byte>, pos: nat, x: seq<NoteCmd>, y: seq<NoteCmd>)
    requires a == b && x == y && pos <= |a|
    requires DecodeNotes(a, pos) == Some(x)
    ensures DecodeNotes(b, pos) == Some(y)
  {
  }

  lemma ConsSplit(cmds: seq<NoteCmd>)
    requires |cmds| > 0
    ensures [cmds[0]] + cmds[1..] == cmds
  {
  }

  /** Once the rest of a list reads back, so does the whole list. */
  lemma RoundTripStep(pre: seq<Byte>, cmds: seq<NoteCmd>)
    requires |cmds| > 0 && DecodableNote(cmds[0])
    requires DecodeNotes(pre + EncodeNote(cmds[0]) + EncodeNotes(cmds[1..]), |pre| + |EncodeNote(cmds[0])|)
             == Some(cmds[1..])
    ensures DecodeNotes(pre + EncodeNotes(cmds), |pre|) == Some(cmds)
  {
    var split := pre + EncodeNote(cmds[0]) + EncodeNotes(cmds[1..]);
    DecodeNotesCons(pre, cmds[0], EncodeNotes(cmds[1..]), cmds[1..]);
    EncodeNotesHead(pre, cmds);
    ConsSplit(cmds);
    DecodeNotesSame(split, pre + EncodeNotes(cmds), |pre|, [cmds[0]] + cmds[1..], cmds);
  }

  /** Any list of such commands, serialised at the end of a buffer, decodes
      back to itself. */
  lemma {:induction false} NoteRoundTrip(pre: seq<Byte>, cmds: seq<NoteCmd>)
    requires AllDecodable(cmds)
    ensures DecodeNotes(pre + EncodeNotes(cmds), |pre|) == Some(cmds)
    decreases |cmds|
  {
    if |cmds| == 0 {
      assert pre + EncodeNotes(cmds) == pre;
    } else {
      NoteRoundTrip(pre + EncodeNote(cmds[0]), cmds[1..]);
      RoundTripStep(pre, cmds);
    }
  }

  /** The first pitch whose window, 2, no longer fits the signed window
      byte: `2 * 64` is stored as 0x80, which reads back as window -2. Every
      MIDI note (0..127) lies below it. */
  const WindowLimit: int := 2 * 64 + NoteBias

  /** On a track with strictly increasing ticks, all at or after 0 and before
      the end, every pitch below WindowLimit (every MIDI note, including
      0..20, whose window is -1), and every gap below 0x8000 ticks, the
      serialised section reads back as its commands. */
  lemma NoteSectionDecodes(t: Track, total: int, pre: seq<Byte>)
    requires !t.mapDirectly
    requires OrderedFrom(t.notes, total)
    requires forall k :: 0 <= k < |t.notes| ==> 0 <= t.notes[k].ticks && t.notes[k].pitch < WindowLimit
    requires total < 0x8000
    ensures NoteCommands(t, total).Ok?
    ensures DecodeNotes(pre + EncodeNotes(NoteCommands(t, total).value), |pre|) == Some(NoteCommands(t, total).value)
  {
    NoteCommandsFromOk(t.notes, total, false, t.velocityMultiplier, 0, 0, 0);
    NoteCommandsDecodable(t.notes, total, t.velocityMultiplier, 0, 0, 0);
    NoteRoundTrip(pre, NoteCommands(t, total).value);
  }

  /** One iteration on such a timeline writes only decodable commands. */
  lemma StepDecodable(notes: seq<NoteEvent>, total: int, velocityMultiplier: real,
                      j: nat, group: int, prevDuration: int)
    requires j < |notes| && OrderedFrom(notes, total)
    requires 0 <= notes[j].ticks && notes[j].pitch < WindowLimit
    requires total < 0x8000
    requires EntryStep(notes, total, false, velocityMultiplier, j, group, prevDuration).Ok?
    ensures AllDecodable(EntryStep(notes, total, false, velocityMultiplier, j, group, prevDuration).value.cmds)
  {
    SpansPositive(notes, total, j);
    var n := |notes|;
    assert notes[j].ticks <= NoteTicks(notes)[n - 1] < total;
    assert Span(notes, total, j, 1) < 0x8000 && Span(notes, total, j, 2) < 0x8000;
    if notes[j].kind == Note {
      AdjustGroupIsFloor(notes[j].pitch as int, group);
    }
  }

  lemma {:induction false} NoteCommandsDecodable(notes: seq<NoteEvent>, total: int, velocityMultiplier: real,
                                                 j: nat, group: int, prevDuration: int)
    requires j <= |notes| && OrderedFrom(notes, total)
    requires forall k :: 0 <= k < |notes| ==> 0 <= notes[k].ticks && notes[k].pitch < WindowLimit
    requires total < 0x8000
    requires NoteCommandsFrom(notes, total, false, velocityMultiplier, j, group, prevDuration).Ok?
    ensures AllDecodable(NoteCommandsFrom(notes, total, false, velocityMultiplier, j, group, prevDuration).value)
    decreases |notes| - j
  {
    if j < |notes| {
      var step := EntryStep(notes, total, false, velocityMultiplier, j, group, prevDuration).value;
      StepDecodable(notes, total, velocityMultiplier, j, group, prevDuration);
      NoteCommandsDecodable(notes, total, velocityMultiplier, step.next, step.group, step.prevDuration);
      var rest := NoteCommandsFrom(notes, total, false, velocityMultiplier, step.next, step.group, step.prevDuration).value;
      assert NoteCommandsFrom(notes, total, false, velocityMultiplier, j, group, prevDuration).value == step.cmds + rest;
      AllDecodableAppend(step.cmds, rest);
    }
  }
}
