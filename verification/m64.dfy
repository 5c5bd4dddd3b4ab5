/** create_m64: the whole sequence file. A header (bank, enabled-track mask,
    one pointer slot per track, master volume, tempo stream) is followed by
    each track's controller section and then each track's note section. The
    16-bit pointers are written as zeros and back-patched once the section
    they point to starts. */
module M64 {
  import opened Bytes
  import opened SequenceModel
  import opened Results
  import opened ControlSection
  import opened NoteSection

  // ---------------------------------------------------------------------------
  // Positions in a buffer

  /** `piece` sits in `buf` at `pos`. */
  ghost predicate Holds(buf: seq<Byte>, pos: int, piece: seq<Byte>) {
    0 <= pos && pos + |piece| <= |buf| && buf[pos..pos + |piece|] == piece
  }

  /** `a` and `b` agree on the positions `lo..hi`. */
  ghost predicate AgreeOn(a: seq<Byte>, b: seq<Byte>, lo: int, hi: int) {
    0 <= lo <= hi <= |a| && hi <= |b| && forall k :: lo <= k < hi ==> a[k] == b[k]
  }

  lemma HoldsTransfer(a: seq<Byte>, b: seq<Byte>, pos: int, piece: seq<Byte>)
    requires Holds(a, pos, piece) && AgreeOn(a, b, pos, pos + |piece|)
    ensures Holds(b, pos, piece)
  {
    assert b[pos..pos + |piece|] == a[pos..pos + |piece|];
  }

  lemma HoldsSuffix(buf: seq<Byte>, piece: seq<Byte>)
    ensures Holds(buf + piece, |buf|, piece)
  {
    assert (buf + piece)[|buf|..|buf| + |piece|] == piece;
  }

  /** The big-endian 16-bit word at `pos`. */
  function ReadBE16(buf: seq<Byte>, pos: nat): int
    requires pos + 1 < |buf|
  {
    buf[pos] as int * 256 + buf[pos + 1] as int
  }

  /** A pointer written for position `v` reads back as `v` modulo 65536. */
  lemma PointerReadsBack(buf: seq<Byte>, pos: nat, v: int)
    requires Holds(buf, pos, BigEndian16(v))
    ensures pos + 1 < |buf| && ReadBE16(buf, pos) == v % 0x10000
  {
    assert buf[pos] == BigEndian16(v)[0] && buf[pos + 1] == BigEndian16(v)[1];
  }

  // ---------------------------------------------------------------------------
  // Header

  /** `90|i` followed by an empty pointer, for each of the first `n` tracks. */
  function TrackSlots(n: nat): (r: seq<Byte>)
    requires n <= 16
    ensures |r| == 3 * n
    ensures forall i :: 0 <= i < n ==> r[3 * i] == 0x90 + i && r[3 * i + 1] == 0 && r[3 * i + 2] == 0
  {
    if n == 0 then [] else TrackSlots(n - 1) + [0x90 + (n - 1), 0, 0]
  }

  /** Bank select and the mask of enabled tracks. */
  function Preamble(s: Sequence): (r: seq<Byte>)
    requires 1 <= |s.tracks| <= 16
    ensures |r| == 5
  {
    [0xD3, s.bank, 0xD7] + BigEndian16(BitMaskFromValue[|s.tracks| - 1])
  }

  /** The mask has the low bit of each of the `n` tracks set. */
  lemma PreambleMask(s: Sequence)
    requires 1 <= |s.tracks| <= 16
    ensures Preamble(s) == [0xD3, s.bank, 0xD7] + BigEndian16(Pow2(|s.tracks|) - 1)
  {
    BitMaskIsLowOnes(|s.tracks|);
  }

  /** Master volume and the tempo stream. The volume byte is defined only
      when it fits, which `Build` checks before writing it. */
  function Master(s: Sequence, tempo: seq<ControlCmd>): seq<Byte> {
    [0xDB, FloatByte(s.volume * 100.0)] + EncodeCmds(tempo)
  }

  function SlotAt(i: int): int { 6 + 3 * i }

  function Header(s: Sequence, tempo: seq<ControlCmd>): (r: seq<Byte>)
    requires 1 <= |s.tracks| <= 16
    ensures |r| == 5 + 3 * |s.tracks| + |Master(s, tempo)|
  {
    Preamble(s) + TrackSlots(|s.tracks|) + Master(s, tempo)
  }

  /** What the header phase leaves in place, whatever the later phases add:
      the preamble, the `90|i` opcodes of `n` tracks and the master part. */
  ghost predicate HeaderHolds(buf: seq<Byte>, pre: seq<Byte>, n: nat, master: seq<Byte>) {
    && |pre| == 5
    && Holds(buf, 0, pre)
    && (forall j :: 0 <= j < n ==> 5 + 3 * j < |buf| && buf[5 + 3 * j] == 0x90 + j)
    && Holds(buf, 5 + 3 * n, master)
  }

  lemma ThreeParts(a: seq<Byte>, b: seq<Byte>, c: seq<Byte>)
    ensures Holds(a + b + c, 0, a) && Holds(a + b + c, |a|, b) && Holds(a + b + c, |a| + |b|, c)
  {
    var h := a + b + c;
    assert h[0..|a|] == a;
    assert h[|a|..|a| + |b|] == b;
    assert h[|a| + |b|..|a| + |b| + |c|] == c;
  }

  lemma HeaderLaidOut(s: Sequence, tempo: seq<ControlCmd>)
    requires 1 <= |s.tracks| <= 16
    ensures HeaderHolds(Header(s, tempo), Preamble(s), |s.tracks|, Master(s, tempo))
  {
    var n := |s.tracks|;
    var h := Header(s, tempo);
    var slots := TrackSlots(n);
    ThreeParts(Preamble(s), slots, Master(s, tempo));
    forall j | 0 <= j < n ensures h[5 + 3 * j] == 0x90 + j {
      assert h[5 + 3 * j] == slots[3 * j];
    }
  }

  /** Header facts survive a change of two bytes at `x` when `x` is a pointer
      slot or lies past the header. */
  lemma HeaderKept(a: seq<Byte>, b: seq<Byte>, pre: seq<Byte>, n: nat, master: seq<Byte>, x: int, slot: int)
    requires HeaderHolds(a, pre, n, master) && |a| <= |b|
    requires forall k :: 0 <= k < |a| && k != x && k != x + 1 ==> b[k] == a[k]
    requires (0 <= slot < n && x == SlotAt(slot)) || x >= 5 + 3 * n + |master|
    ensures HeaderHolds(b, pre, n, master)
  {
    HoldsTransfer(a, b, 0, pre);
    HoldsTransfer(a, b, 5 + 3 * n, master);
  }

  // ---------------------------------------------------------------------------
  // Sections laid back to back

  /** The sizes of the pieces, each grown by `extra` bytes. */
  function Sizes(pieces: seq<seq<Byte>>, extra: nat): (r: seq<nat>)
    ensures |r| == |pieces|
    ensures forall k :: 0 <= k < |pieces| ==> r[k] == |pieces[k]| + extra
  {
    seq(|pieces|, k requires 0 <= k < |pieces| => |pieces[k]| + extra)
  }

  /** Where section `j` of a chain ending at `end` should end. */
  function NextStart(starts: seq<int>, j: int, end: int): int
    requires 0 <= j < |starts|
  {
    if j + 1 < |starts| then starts[j + 1] else end
  }

  /** Sections of the given sizes start at `starts`, the first at `from`,
      each where the previous one ends, the last ending at `end`. */
  ghost predicate Chain(starts: seq<int>, sizes: seq<nat>, from: int, end: int) {
    && |starts| <= |sizes|
    && (|starts| == 0 ==> end == from)
    && (|starts| > 0 ==> starts[0] == from)
    && forall j :: 0 <= j < |starts| ==> starts[j] + sizes[j] == NextStart(starts, j, end)
  }

  lemma ChainExtend(starts: seq<int>, sizes: seq<nat>, from: int, end: int)
    requires Chain(starts, sizes, from, end) && |starts| < |sizes|
    ensures Chain(starts + [end], sizes, from, end + sizes[|starts|])
  {
    var ns := starts + [end];
    forall j | 0 <= j < |ns|
      ensures ns[j] + sizes[j] == NextStart(ns, j, end + sizes[|starts|])
    {
      if j < |starts| {
        assert ns[j] == starts[j];
        assert starts[j] + sizes[j] == NextStart(starts, j, end);
        if j + 1 < |starts| {
          assert ns[j + 1] == starts[j + 1];
        }
      }
    }
  }

  /** Dropping the last section of a chain leaves a chain ending where it starts. */
  lemma ChainInit(starts: seq<int>, sizes: seq<nat>, from: int, end: int)
    requires Chain(starts, sizes, from, end) && |starts| > 0
    ensures Chain(starts[..|starts| - 1], sizes, from, starts[|starts| - 1])
    ensures starts[|starts| - 1] + sizes[|starts| - 1] == end
  {
    var m := |starts| - 1;
    assert starts[m] + sizes[m] == NextStart(starts, m, end);
    var init := starts[..m];
    if m > 0 {
      assert init[0] == starts[0];
    }
    forall j | 0 <= j < |init|
      ensures init[j] + sizes[j] == NextStart(init, j, starts[m])
    {
      assert init[j] == starts[j];
      assert starts[j] + sizes[j] == NextStart(starts, j, end);
      if j + 1 < |init| {
        assert init[j + 1] == starts[j + 1];
      }
    }
  }

  /** A chain's sections lie between `from` and `end`, in order, without
      overlapping. */
  lemma {:induction false} ChainOrdered(starts: seq<int>, sizes: seq<nat>, from: int, end: int)
    requires Chain(starts, sizes, from, end)
    ensures from <= end
    ensures forall j :: 0 <= j < |starts| ==> from <= starts[j] && starts[j] + sizes[j] <= end
    ensures forall j, k :: 0 <= j < k < |starts| ==> starts[j] + sizes[j] <= starts[k]
    decreases |starts|
  {
    if |starts| > 0 {
      var m := |starts| - 1;
      ChainInit(starts, sizes, from, end);
      ChainOrdered(starts[..m], sizes, from, starts[m]);
      assert forall j :: 0 <= j < m ==> starts[..m][j] == starts[j];
    }
  }

  /** Section `j` of a chain lies between its two ends. */
  lemma ChainWithin(starts: seq<int>, sizes: seq<nat>, from: int, end: int, j: int)
    requires Chain(starts, sizes, from, end) && 0 <= j < |starts|
    ensures from <= starts[j] && starts[j] + sizes[j] <= end
  {
    ChainOrdered(starts, sizes, from, end);
  }

  /** Section `j` of a chain ends before a later section `k` starts. */
  lemma ChainBefore(starts: seq<int>, sizes: seq<nat>, from: int, end: int, j: int, k: int)
    requires Chain(starts, sizes, from, end) && 0 <= j < k < |starts|
    ensures starts[j] + sizes[j] <= starts[k]
  {
    ChainOrdered(starts, sizes, from, end);
  }

  // ---------------------------------------------------------------------------
  // Controller sections

  /** The bytes of a track's controller section after its `C4 90 pointer`
      lead-in: instrument, defaults and the command stream. */
  function ControlBody(s: Sequence, t: Track): (r: Result<seq<Byte>>)
    ensures r.Ok? <==> TrackControl(s, t).Ok?
  {
    var (defaults, cmds) :- TrackControl(s, t);
    Ok([0xC1, t.instrument] + defaults + EncodeCmds(cmds))
  }

  /** The controller loop from track `i`, with the section starts found so
      far. Each section writes `C4`, points the track's header slot at it,
      then leaves an empty note pointer and the body. */
  function ControlPhase(buf: seq<Byte>, bodies: seq<seq<Byte>>, i: nat, starts: seq<nat>): (r: (seq<Byte>, seq<nat>))
    requires i <= |bodies| <= 16 && 5 + 3 * |bodies| <= |buf|
    ensures |r.1| == |starts| + |bodies| - i && |buf| <= |r.0|
    decreases |bodies| - i
  {
    if i == |bodies| then (buf, starts)
    else
      var c4 := |buf|;
      var next := WriteBE16(buf + [0xC4], SlotAt(i), c4) + [0x90, 0, 0] + bodies[i];
      ControlPhase(next, bodies, i + 1, starts + [c4])
  }

  /** Track `j`'s header slot points at `start`, where its section's `C4 90`
      lead-in and, after the note pointer, its body sit. */
  ghost predicate SectionAt(buf: seq<Byte>, j: int, start: int, body: seq<Byte>) {
    && Holds(buf, SlotAt(j), BigEndian16(start))
    && Holds(buf, start, [0xC4, 0x90])
    && Holds(buf, start + 4, body)
  }

  ghost predicate ControlsPlaced(buf: seq<Byte>, bodies: seq<seq<Byte>>, starts: seq<nat>) {
    forall j :: 0 <= j < |starts| && j < |bodies| ==> SectionAt(buf, j, starts[j], bodies[j])
  }

  /** A section survives a two-byte change at `x` outside its three parts. */
  lemma SectionKept(a: seq<Byte>, b: seq<Byte>, j: int, start: int, body: seq<Byte>, x: int)
    requires SectionAt(a, j, start, body) && |a| <= |b|
    requires forall k :: 0 <= k < |a| && k != x && k != x + 1 ==> b[k] == a[k]
    requires x + 2 <= SlotAt(j) || x >= SlotAt(j) + 2
    requires x + 2 <= start || x >= start + 2
    requires x + 2 <= start + 4 || x >= start + 4 + |body|
    ensures SectionAt(b, j, start, body)
  {
    HoldsTransfer(a, b, SlotAt(j), BigEndian16(start));
    HoldsTransfer(a, b, start, [0xC4, 0x90]);
    HoldsTransfer(a, b, start + 4, body);
  }

  /** One controller section leaves every earlier byte alone except the two
      bytes of the track's header slot. */
  lemma ControlStepFrame(buf: seq<Byte>, i: nat, body: seq<Byte>)
    requires SlotAt(i) + 1 < |buf|
    ensures var next := WriteBE16(buf + [0xC4], SlotAt(i), |buf|) + [0x90, 0, 0] + body;
            && |next| == |buf| + 4 + |body|
            && (forall k :: 0 <= k < |buf| && k != SlotAt(i) && k != SlotAt(i) + 1 ==> next[k] == buf[k])
            && SectionAt(next, i, |buf|, body)
  {
    var patched := WriteBE16(buf + [0xC4], SlotAt(i), |buf|);
    var next := patched + [0x90, 0, 0] + body;
    assert next[SlotAt(i)..SlotAt(i) + 2] == patched[SlotAt(i)..SlotAt(i) + 2];
    assert next[|buf|..|buf| + 2] == [0xC4, 0x90];
    assert next[|buf| + 4..|buf| + 4 + |body|] == body;
  }

  lemma ControlStepPlaced(buf: seq<Byte>, bodies: seq<seq<Byte>>, i: nat, starts: seq<nat>, from: int)
    requires i == |starts| < |bodies| <= 16 && 5 + 3 * |bodies| <= from
    requires Chain(starts, Sizes(bodies, 4), from, |buf|) && ControlsPlaced(buf, bodies, starts)
    ensures var next := WriteBE16(buf + [0xC4], SlotAt(i), |buf|) + [0x90, 0, 0] + bodies[i];
            ControlsPlaced(next, bodies, starts + [|buf|])
  {
    var next := WriteBE16(buf + [0xC4], SlotAt(i), |buf|) + [0x90, 0, 0] + bodies[i];
    ControlStepFrame(buf, i, bodies[i]);
    ChainOrdered(starts, Sizes(bodies, 4), from, |buf|);
    var ns := starts + [|buf|];
    forall j | 0 <= j < |ns| && j < |bodies| ensures SectionAt(next, j, ns[j], bodies[j]) {
      if j < i {
        assert ns[j] == starts[j];
        SectionKept(buf, next, j, starts[j], bodies[j], SlotAt(i));
      }
    }
  }

  lemma ControlStep(buf: seq<Byte>, bodies: seq<seq<Byte>>, i: nat, starts: seq<nat>, pre: seq<Byte>, master: seq<Byte>)
    requires i == |starts| < |bodies| <= 16 && 5 + 3 * |bodies| + |master| <= |buf|
    requires HeaderHolds(buf, pre, |bodies|, master)
    requires Chain(starts, Sizes(bodies, 4), 5 + 3 * |bodies| + |master|, |buf|)
    requires ControlsPlaced(buf, bodies, starts)
    ensures var next := WriteBE16(buf + [0xC4], SlotAt(i), |buf|) + [0x90, 0, 0] + bodies[i];
            && HeaderHolds(next, pre, |bodies|, master)
            && Chain(starts + [|buf|], Sizes(bodies, 4), 5 + 3 * |bodies| + |master|, |next|)
            && ControlsPlaced(next, bodies, starts + [|buf|])
  {
    var next := WriteBE16(buf + [0xC4], SlotAt(i), |buf|) + [0x90, 0, 0] + bodies[i];
    ControlStepFrame(buf, i, bodies[i]);
    HeaderKept(buf, next, pre, |bodies|, master, SlotAt(i), i);
    ChainExtend(starts, Sizes(bodies, 4), 5 + 3 * |bodies| + |master|, |buf|);
    ControlStepPlaced(buf, bodies, i, starts, 5 + 3 * |bodies| + |master|);
  }

  lemma {:induction false} ControlPhaseLayout(buf: seq<Byte>, bodies: seq<seq<Byte>>, i: nat, starts: seq<nat>,
                                              pre: seq<Byte>, master: seq<Byte>)
    requires i == |starts| <= |bodies| <= 16 && 5 + 3 * |bodies| + |master| <= |buf|
    requires HeaderHolds(buf, pre, |bodies|, master)
    requires Chain(starts, Sizes(bodies, 4), 5 + 3 * |bodies| + |master|, |buf|)
    requires ControlsPlaced(buf, bodies, starts)
    ensures var (out, all) := ControlPhase(buf, bodies, i, starts);
            && HeaderHolds(out, pre, |bodies|, master)
            && Chain(all, Sizes(bodies, 4), 5 + 3 * |bodies| + |master|, |out|)
            && ControlsPlaced(out, bodies, all)
    decreases |bodies| - i
  {
    if i < |bodies| {
      var next := WriteBE16(buf + [0xC4], SlotAt(i), |buf|) + [0x90, 0, 0] + bodies[i];
      ControlStep(buf, bodies, i, starts, pre, master);
      ControlPhaseLayout(next, bodies, i + 1, starts + [|buf|], pre, master);
    }
  }

  // ---------------------------------------------------------------------------
  // Note sections

  /** The bytes of a track's note section. */
  function NoteBody(s: Sequence, t: Track): (r: Result<seq<Byte>>)
    ensures r.Ok? <==> NoteCommands(t, s.totalTicks).Ok?
  {
    var cmds :- NoteCommands(t, s.totalTicks);
    Ok(EncodeNotes(cmds))
  }

  /** Every controller section's note pointer lies inside the buffer. */
  ghost predicate PointersInside(buf: seq<Byte>, controls: seq<nat>) {
    forall j :: 0 <= j < |controls| ==> controls[j] + 3 < |buf|
  }

  /** The note loop from track `i`: point the track's controller section at
      the end of the buffer, then append the track's note section. */
  function NotePhase(buf: seq<Byte>, controls: seq<nat>, notes: seq<seq<Byte>>, i: nat, starts: seq<nat>)
    : (r: (seq<Byte>, seq<nat>))
    requires i <= |notes| == |controls|
    requires PointersInside(buf, controls)
    ensures |r.1| == |starts| + |notes| - i && |buf| <= |r.0|
    decreases |notes| - i
  {
    if i == |notes| then (buf, starts)
    else
      var start := |buf|;
      NotePhase(WriteBE16(buf, controls[i] + 2, start) + notes[i], controls, notes, i + 1, starts + [start])
  }

  /** Track `j`'s controller section points at `start`, where its notes sit. */
  ghost predicate NotesAt(buf: seq<Byte>, control: int, start: int, notes: seq<Byte>) {
    Holds(buf, control + 2, BigEndian16(start)) && Holds(buf, start, notes)
  }

  ghost predicate NotesPlaced(buf: seq<Byte>, controls: seq<nat>, notes: seq<seq<Byte>>, starts: seq<nat>) {
    forall j :: 0 <= j < |starts| && j < |notes| && j < |controls| ==> NotesAt(buf, controls[j], starts[j], notes[j])
  }

  /** One note section leaves every earlier byte alone except the two bytes
      of the track's note pointer. */
  lemma NoteStepFrame(buf: seq<Byte>, at: nat, enc: seq<Byte>)
    requires at + 1 < |buf|
    ensures var next := WriteBE16(buf, at, |buf|) + enc;
            && |next| == |buf| + |enc|
            && (forall k :: 0 <= k < |buf| && k != at && k != at + 1 ==> next[k] == buf[k])
            && Holds(next, at, BigEndian16(|buf|))
            && Holds(next, |buf|, enc)
  {
    var next := WriteBE16(buf, at, |buf|) + enc;
    assert next[at..at + 2] == WriteBE16(buf, at, |buf|)[at..at + 2];
    assert next[|buf|..|buf| + |enc|] == enc;
  }

  /** Patching track `i`'s note pointer keeps every controller section, since
      the pointer lies inside that track's own lead-in. */
  lemma NotePatchKeepsControls(buf: seq<Byte>, next: seq<Byte>, bodies: seq<seq<Byte>>, controls: seq<nat>,
                               from: int, end: int, i: nat)
    requires i < |bodies| == |controls| && 5 + 3 * |bodies| <= from
    requires Chain(controls, Sizes(bodies, 4), from, end) && ControlsPlaced(buf, bodies, controls)
    requires |buf| <= |next|
    requires forall k :: 0 <= k < |buf| && k != controls[i] + 2 && k != controls[i] + 3 ==> next[k] == buf[k]
    ensures ControlsPlaced(next, bodies, controls)
  {
    ChainOrdered(controls, Sizes(bodies, 4), from, end);
    forall j | 0 <= j < |controls| && j < |bodies| ensures SectionAt(next, j, controls[j], bodies[j]) {
      SectionKept(buf, next, j, controls[j], bodies[j], controls[i] + 2);
    }
  }

  /** A track's note pointer and notes survive a two-byte change at `x`
      outside both. */
  lemma NotesKept(a: seq<Byte>, b: seq<Byte>, control: int, start: int, notes: seq<Byte>, x: int)
    requires NotesAt(a, control, start, notes) && |a| <= |b|
    requires forall k :: 0 <= k < |a| && k != x && k != x + 1 ==> b[k] == a[k]
    requires x + 2 <= control + 2 || x >= control + 4
    requires x + 2 <= start || x >= start + |notes|
    ensures NotesAt(b, control, start, notes)
  {
    HoldsTransfer(a, b, control + 2, BigEndian16(start));
    HoldsTransfer(a, b, start, notes);
  }

  lemma NoteStepPlaced(buf: seq<Byte>, bodies: seq<seq<Byte>>, controls: seq<nat>, notes: seq<seq<Byte>>,
                       i: nat, starts: seq<nat>, from: int, end: int)
    requires i == |starts| < |bodies| == |notes| == |controls| && controls[i] + 3 < |buf|
    requires Chain(controls, Sizes(bodies, 4), from, end)
    requires Chain(starts, Sizes(notes, 0), end, |buf|) && NotesPlaced(buf, controls, notes, starts)
    ensures var next := WriteBE16(buf, controls[i] + 2, |buf|) + notes[i];
            NotesPlaced(next, controls, notes, starts + [|buf|])
  {
    var next := WriteBE16(buf, controls[i] + 2, |buf|) + notes[i];
    NoteStepFrame(buf, controls[i] + 2, notes[i]);
    ChainWithin(controls, Sizes(bodies, 4), from, end, i);
    var ns := starts + [|buf|];
    forall j | 0 <= j < |ns| && j < |notes| && j < |controls| ensures NotesAt(next, controls[j], ns[j], notes[j]) {
      if j < i {
        assert ns[j] == starts[j];
        ChainBefore(controls, Sizes(bodies, 4), from, end, j, i);
        ChainWithin(starts, Sizes(notes, 0), end, |buf|, j);
        NotesKept(buf, next, controls[j], starts[j], notes[j], controls[i] + 2);
      }
    }
  }

  /** Patching track `i`'s note pointer and appending its note section
      leaves the header and every controller section in place. */
  lemma NoteStepKeeps(buf: seq<Byte>, bodies: seq<seq<Byte>>, controls: seq<nat>, enc: seq<Byte>,
                      i: nat, pre: seq<Byte>, master: seq<Byte>, end: int)
    requires i < |bodies| == |controls| <= 16 && controls[i] + 3 < |buf|
    requires HeaderHolds(buf, pre, |bodies|, master)
    requires Chain(controls, Sizes(bodies, 4), 5 + 3 * |bodies| + |master|, end) && ControlsPlaced(buf, bodies, controls)
    ensures var next := WriteBE16(buf, controls[i] + 2, |buf|) + enc;
            HeaderHolds(next, pre, |bodies|, master) && ControlsPlaced(next, bodies, controls)
  {
    var from := 5 + 3 * |bodies| + |master|;
    var next := WriteBE16(buf, controls[i] + 2, |buf|) + enc;
    NoteStepFrame(buf, controls[i] + 2, enc);
    ChainWithin(controls, Sizes(bodies, 4), from, end, i);
    HeaderKept(buf, next, pre, |bodies|, master, controls[i] + 2, -1);
    NotePatchKeepsControls(buf, next, bodies, controls, from, end, i);
  }

  /** One turn of the note loop. */
  lemma NotePhaseStep(buf: seq<Byte>, controls: seq<nat>, notes: seq<seq<Byte>>, i: nat, starts: seq<nat>)
    returns (next: seq<Byte>)
    requires i < |notes| == |controls| && PointersInside(buf, controls)
    ensures next == WriteBE16(buf, controls[i] + 2, |buf|) + notes[i]
    ensures PointersInside(next, controls)
    ensures NotePhase(buf, controls, notes, i, starts) == NotePhase(next, controls, notes, i + 1, starts + [|buf|])
  {
    next := WriteBE16(buf, controls[i] + 2, |buf|) + notes[i];
  }

  /** Past the last track the note loop leaves everything as it is. */
  lemma NotePhaseDone(buf: seq<Byte>, controls: seq<nat>, notes: seq<seq<Byte>>, i: nat, starts: seq<nat>)
    requires i == |notes| == |controls| && PointersInside(buf, controls)
    ensures NotePhase(buf, controls, notes, i, starts) == (buf, starts)
  {
  }

  /** One note-phase step keeps the header and the controller sections and
      leaves the rest of the phase to run from the next buffer. */
  lemma KeepsAdvance(buf: seq<Byte>, bodies: seq<seq<Byte>>, controls: seq<nat>, notes: seq<seq<Byte>>,
                     i: nat, starts: seq<nat>, pre: seq<Byte>, master: seq<Byte>, end: int) returns (next: seq<Byte>)
    requires i == |starts| < |bodies| == |notes| == |controls| <= 16
    requires PointersInside(buf, controls)
    requires HeaderHolds(buf, pre, |bodies|, master)
    requires Chain(controls, Sizes(bodies, 4), 5 + 3 * |bodies| + |master|, end) && ControlsPlaced(buf, bodies, controls)
    ensures PointersInside(next, controls)
    ensures NotePhase(buf, controls, notes, i, starts) == NotePhase(next, controls, notes, i + 1, starts + [|buf|])
    ensures HeaderHolds(next, pre, |bodies|, master) && ControlsPlaced(next, bodies, controls)
  {
    next := NotePhaseStep(buf, controls, notes, i, starts);
    NoteStepKeeps(buf, bodies, controls, notes[i], i, pre, master, end);
  }

  /** The note loop leaves the header and every controller section in place. */
  lemma {:induction false} NotePhaseKeeps(buf: seq<Byte>, bodies: seq<seq<Byte>>, controls: seq<nat>, notes: seq<seq<Byte>>,
                                          i: nat, starts: seq<nat>, pre: seq<Byte>, master: seq<Byte>, end: int)
    returns (out: seq<Byte>, all: seq<nat>)
    requires i == |starts| <= |bodies| == |notes| == |controls| <= 16
    requires PointersInside(buf, controls)
    requires HeaderHolds(buf, pre, |bodies|, master)
    requires Chain(controls, Sizes(bodies, 4), 5 + 3 * |bodies| + |master|, end) && ControlsPlaced(buf, bodies, controls)
    ensures (out, all) == NotePhase(buf, controls, notes, i, starts)
    ensures HeaderHolds(out, pre, |bodies|, master) && ControlsPlaced(out, bodies, controls)
    decreases |notes| - i
  {
    if i < |notes| {
      var next := KeepsAdvance(buf, bodies, controls, notes, i, starts, pre, master, end);
      out, all := NotePhaseKeeps(next, bodies, controls, notes, i + 1, starts + [|buf|], pre, master, end);
    } else {
      out, all := buf, starts;
      NotePhaseDone(buf, controls, notes, i, starts);
    }
  }

  /** One note-phase step extends the chain of note sections by the one it
      appends and leaves the rest of the phase to run from the next buffer. */
  lemma PlacesAdvance(buf: seq<Byte>, bodies: seq<seq<Byte>>, controls: seq<nat>, notes: seq<seq<Byte>>,
                      i: nat, starts: seq<nat>, from: int, end: int) returns (next: seq<Byte>)
    requires i == |starts| < |bodies| == |notes| == |controls|
    requires PointersInside(buf, controls)
    requires Chain(controls, Sizes(bodies, 4), from, end)
    requires Chain(starts, Sizes(notes, 0), end, |buf|) && NotesPlaced(buf, controls, notes, starts)
    ensures PointersInside(next, controls)
    ensures NotePhase(buf, controls, notes, i, starts) == NotePhase(next, controls, notes, i + 1, starts + [|buf|])
    ensures Chain(starts + [|buf|], Sizes(notes, 0), end, |next|) && NotesPlaced(next, controls, notes, starts + [|buf|])
  {
    next := NotePhaseStep(buf, controls, notes, i, starts);
    ChainExtend(starts, Sizes(notes, 0), end, |buf|);
    NoteStepPlaced(buf, bodies, controls, notes, i, starts, from, end);
  }

  /** The note loop lays the note sections back to back from `end` and
      points each track's note pointer at its section. */
  lemma {:induction false} NotePhasePlaces(buf: seq<Byte>, bodies: seq<seq<Byte>>, controls: seq<nat>, notes: seq<seq<Byte>>,
                                           i: nat, starts: seq<nat>, from: int, end: int)
    returns (out: seq<Byte>, all: seq<nat>)
    requires i == |starts| <= |bodies| == |notes| == |controls|
    requires PointersInside(buf, controls)
    requires Chain(controls, Sizes(bodies, 4), from, end)
    requires Chain(starts, Sizes(notes, 0), end, |buf|) && NotesPlaced(buf, controls, notes, starts)
    ensures (out, all) == NotePhase(buf, controls, notes, i, starts)
    ensures Chain(all, Sizes(notes, 0), end, |out|) && NotesPlaced(out, controls, notes, all)
    decreases |notes| - i
  {
    if i < |notes| {
      var next := PlacesAdvance(buf, bodies, controls, notes, i, starts, from, end);
      out, all := NotePhasePlaces(next, bodies, controls, notes, i + 1, starts + [|buf|], from, end);
    } else {
      out, all := buf, starts;
      NotePhaseDone(buf, controls, notes, i, starts);
    }
  }

  lemma NotePhaseLayout(buf: seq<Byte>, bodies: seq<seq<Byte>>, controls: seq<nat>, notes: seq<seq<Byte>>,
                        i: nat, starts: seq<nat>, pre: seq<Byte>, master: seq<Byte>, end: int)
    returns (out: seq<Byte>, all: seq<nat>)
    requires i == |starts| <= |bodies| == |notes| == |controls| <= 16
    requires PointersInside(buf, controls)
    requires HeaderHolds(buf, pre, |bodies|, master)
    requires Chain(controls, Sizes(bodies, 4), 5 + 3 * |bodies| + |master|, end) && ControlsPlaced(buf, bodies, controls)
    requires Chain(starts, Sizes(notes, 0), end, |buf|) && NotesPlaced(buf, controls, notes, starts)
    ensures (out, all) == NotePhase(buf, controls, notes, i, starts)
    ensures && HeaderHolds(out, pre, |bodies|, master)
            && ControlsPlaced(out, bodies, controls)
            && Chain(all, Sizes(notes, 0), end, |out|)
            && NotesPlaced(out, controls, notes, all)
  {
    var kept, _ := NotePhaseKeeps(buf, bodies, controls, notes, i, starts, pre, master, end);
    out, all := NotePhasePlaces(buf, bodies, controls, notes, i, starts, 5 + 3 * |bodies| + |master|, end);
  }

  // ---------------------------------------------------------------------------
  // The whole file

  /** After the controller phase every note pointer lies inside the buffer. */
  lemma ControlPhaseBounds(s: Sequence, tempo: seq<ControlCmd>, bodies: seq<seq<Byte>>)
    requires 1 <= |s.tracks| <= 16 && |bodies| == |s.tracks|
    ensures var r := ControlPhase(Header(s, tempo), bodies, 0, []);
            PointersInside(r.0, r.1)
  {
    HeaderLaidOut(s, tempo);
    ControlPhaseInside(Header(s, tempo), bodies, Preamble(s), Master(s, tempo));
  }

  /** The same over any header that holds its parts. */
  lemma ControlPhaseInside(h: seq<Byte>, bodies: seq<seq<Byte>>, pre: seq<Byte>, master: seq<Byte>)
    requires |bodies| <= 16 && |h| == 5 + 3 * |bodies| + |master|
    requires HeaderHolds(h, pre, |bodies|, master)
    ensures var r := ControlPhase(h, bodies, 0, []);
            PointersInside(r.0, r.1)
  {
    var from := 5 + 3 * |bodies| + |master|;
    assert Chain([], Sizes(bodies, 4), from, |h|);
    ControlPhaseLayout(h, bodies, 0, [], pre, master);
    var r := ControlPhase(h, bodies, 0, []);
    ChainOrdered(r.1, Sizes(bodies, 4), from, |r.0|);
  }

  /** The file and the section starts the writer recorded. */
  datatype Image = Image(bytes: seq<Byte>, tempo: seq<ControlCmd>, controls: seq<nat>, notes: seq<nat>)

  /** Sequences the writer handles: 1 to 16 tracks (the mask table and the
      `90|i` opcodes have no more), a master volume whose percentage is a
      byte, a usable tempo source, and every track with usable controller
      sources and a note timeline. */
  predicate Encodable(s: Sequence) {
    && 1 <= |s.tracks| <= 16
    && FitsByte(s.volume * 100.0)
    && TempoCommands(s).Ok?
    && (forall i :: 0 <= i < |s.tracks| ==> TrackControl(s, s.tracks[i]).Ok?)
    && (forall i :: 0 <= i < |s.tracks| ==> NoteCommands(s.tracks[i], s.totalTicks).Ok?)
  }

  /** Every track's controller section body, in track order. */
  function ControlBodies(s: Sequence): (r: Result<seq<seq<Byte>>>)
    ensures r.Ok? <==> forall i :: 0 <= i < |s.tracks| ==> ControlBody(s, s.tracks[i]).Ok?
    ensures r.Ok? ==> |r.value| == |s.tracks|
    ensures r.Ok? ==> forall i :: 0 <= i < |s.tracks| ==> ControlBody(s, s.tracks[i]) == Ok(r.value[i])
  {
    CollectEach(s.tracks, t => ControlBody(s, t))
  }

  /** Every track's note section, in track order. */
  function NoteBodies(s: Sequence): (r: Result<seq<seq<Byte>>>)
    ensures r.Ok? <==> forall i :: 0 <= i < |s.tracks| ==> NoteBody(s, s.tracks[i]).Ok?
    ensures r.Ok? ==> |r.value| == |s.tracks|
    ensures r.Ok? ==> forall i :: 0 <= i < |s.tracks| ==> NoteBody(s, s.tracks[i]) == Ok(r.value[i])
  {
    CollectEach(s.tracks, t => NoteBody(s, t))
  }

  /** The two loops of create_m64 over precomputed section bytes. */
  function Assemble(s: Sequence, tempo: seq<ControlCmd>, bodies: seq<seq<Byte>>, notes: seq<seq<Byte>>): (r: Image)
    requires 1 <= |s.tracks| <= 16 && |bodies| == |notes| == |s.tracks|
    ensures |r.controls| == |r.notes| == |s.tracks|
  {
    var control := ControlPhase(Header(s, tempo), bodies, 0, []);
    ControlPhaseBounds(s, tempo, bodies);
    var note := NotePhase(control.0, control.1, notes, 0, []);
    Image(note.0, tempo, control.1, note.1)
  }

  /** create_m64 with the positions it records. Each track's section bytes
      depend only on the sequence, so they are computed before the buffer is
      assembled; the bytes are those of the interleaved loop. */
  function Build(s: Sequence): (r: Result<Image>)
    ensures r.Ok? <==> Encodable(s)
    ensures !(1 <= |s.tracks| <= 16) ==> r == Fail(TrackCount(|s.tracks|))
    ensures 1 <= |s.tracks| <= 16 && !FitsByte(s.volume * 100.0) ==> r == Fail(ByteOutOfRange)
    ensures r.Ok? ==> |r.value.controls| == |r.value.notes| == |s.tracks|
  {
    var n := |s.tracks|;
    if !(1 <= n <= 16) then Fail(TrackCount(n))
    else if !FitsByte(s.volume * 100.0) then Fail(ByteOutOfRange)
    else
      var tempo :- TempoCommands(s);
      var bodies :- ControlBodies(s);
      var notes :- NoteBodies(s);
      Ok(Assemble(s, tempo, bodies, notes))
  }

  /** create_m64: the bytes of the sequence file. */
  function CreateM64(s: Sequence): (r: Result<seq<Byte>>)
    ensures r.Ok? <==> Encodable(s)
    ensures !(1 <= |s.tracks| <= 16) ==> r == Fail(TrackCount(|s.tracks|))
    ensures 1 <= |s.tracks| <= 16 && !FitsByte(s.volume * 100.0) ==> r == Fail(ByteOutOfRange)
  {
    var img :- Build(s);
    Ok(img.bytes)
  }

  /** A successful build is the assembly of the tempo stream and of every
      track's section bytes. */
  lemma BuildAssembles(s: Sequence)
    requires Build(s).Ok?
    ensures 1 <= |s.tracks| <= 16
    ensures TempoCommands(s).Ok? && ControlBodies(s).Ok? && NoteBodies(s).Ok?
    ensures Build(s) == Ok(Assemble(s, TempoCommands(s).value, ControlBodies(s).value, NoteBodies(s).value))
  {
  }

  /** What the two loops leave in the buffer over given section bytes,
      stated with the invariants the loops keep. */
  lemma PhasesLaidOut(s: Sequence, tempo: seq<ControlCmd>, bodies: seq<seq<Byte>>, notes: seq<seq<Byte>>)
    requires 1 <= |s.tracks| <= 16 && |bodies| == |notes| == |s.tracks|
    ensures var img := Assemble(s, tempo, bodies, notes);
            var n := |s.tracks|;
            var from := 5 + 3 * n + |Master(s, tempo)|;
            && img.tempo == tempo
            && HeaderHolds(img.bytes, Preamble(s), n, Master(s, tempo))
            && Chain(img.controls, Sizes(bodies, 4), from, img.notes[0])
            && Chain(img.notes, Sizes(notes, 0), img.notes[0], |img.bytes|)
            && ControlsPlaced(img.bytes, bodies, img.controls)
            && NotesPlaced(img.bytes, img.controls, notes, img.notes)
  {
    var n := |s.tracks|;
    var h := Header(s, tempo);
    var from := 5 + 3 * n + |Master(s, tempo)|;
    HeaderLaidOut(s, tempo);
    assert Chain([], Sizes(bodies, 4), from, |h|);
    ControlPhaseLayout(h, bodies, 0, [], Preamble(s), Master(s, tempo));
    var c := ControlPhase(h, bodies, 0, []);
    ControlPhaseBounds(s, tempo, bodies);
    var d := NotePhase(c.0, c.1, notes, 0, []);
    assert Assemble(s, tempo, bodies, notes) == Image(d.0, tempo, c.1, d.1);
    assert Chain([], Sizes(notes, 0), |c.0|, |c.0|);
    var out, all := NotePhaseLayout(c.0, bodies, c.1, notes, 0, [], Preamble(s), Master(s, tempo), |c.0|);
    assert d.1[0] == |c.0|;
  }

  /** The header the two loops leave in place over given section bytes. */
  lemma AssembleHeader(s: Sequence, tempo: seq<ControlCmd>, bodies: seq<seq<Byte>>, notes: seq<seq<Byte>>)
    requires 1 <= |s.tracks| <= 16 && |bodies| == |notes| == |s.tracks|
    ensures var img := Assemble(s, tempo, bodies, notes);
            var n := |s.tracks|;
            && img.tempo == tempo
            && Holds(img.bytes, 0, [0xD3, s.bank, 0xD7] + BigEndian16(Pow2(n) - 1))
            && (forall j :: 0 <= j < n ==> img.bytes[5 + 3 * j] == 0x90 + j)
            && Holds(img.bytes, 5 + 3 * n, Master(s, tempo))
  {
    PhasesLaidOut(s, tempo, bodies, notes);
    PreambleMask(s);
  }

  /** The sections the two loops lay out over given section bytes. */
  lemma AssembleSections(s: Sequence, tempo: seq<ControlCmd>, bodies: seq<seq<Byte>>, notes: seq<seq<Byte>>)
    requires 1 <= |s.tracks| <= 16 && |bodies| == |notes| == |s.tracks|
    ensures var img := Assemble(s, tempo, bodies, notes);
            var n := |s.tracks|;
            && |img.controls| == |img.notes| == n
            && Chain(img.controls, Sizes(bodies, 4), 5 + 3 * n + |Master(s, tempo)|, img.notes[0])
            && Chain(img.notes, Sizes(notes, 0), img.notes[0], |img.bytes|)
            && (forall j :: 0 <= j < n ==> SectionAt(img.bytes, j, img.controls[j], bodies[j]))
            && (forall j :: 0 <= j < n ==> NotesAt(img.bytes, img.controls[j], img.notes[j], notes[j]))
  {
    PhasesLaidOut(s, tempo, bodies, notes);
  }

  /** The layout create_m64 produces. The header holds the bank, the mask
      with the low `n` bits set, the `90|i` slot opcodes and the master part;
      the controller sections follow it back to back in track order, each
      pointed at by its track's slot and opening with `C4 90`; the note
      sections follow the last controller section back to back, each pointed
      at from its track's lead-in, and the last one ends the file. */
  lemma M64Layout(s: Sequence)
    requires Build(s).Ok?
    ensures var img := Build(s).value;
            var n := |s.tracks|;
            var bodies := ControlBodies(s).value;
            var notes := NoteBodies(s).value;
            && TempoCommands(s) == Ok(img.tempo)
            && Holds(img.bytes, 0, [0xD3, s.bank, 0xD7] + BigEndian16(Pow2(n) - 1))
            && (forall j :: 0 <= j < n ==> img.bytes[5 + 3 * j] == 0x90 + j)
            && Holds(img.bytes, 5 + 3 * n, Master(s, img.tempo))
            && Chain(img.controls, Sizes(bodies, 4), 5 + 3 * n + |Master(s, img.tempo)|, img.notes[0])
            && Chain(img.notes, Sizes(notes, 0), img.notes[0], |img.bytes|)
            && (forall j :: 0 <= j < n ==> SectionAt(img.bytes, j, img.controls[j], bodies[j]))
            && (forall j :: 0 <= j < n ==> NotesAt(img.bytes, img.controls[j], img.notes[j], notes[j]))
  {
    BuildAssembles(s);
    AssembleHeader(s, TempoCommands(s).value, ControlBodies(s).value, NoteBodies(s).value);
    AssembleSections(s, TempoCommands(s).value, ControlBodies(s).value, NoteBodies(s).value);
  }

  /** The part of the layout that the pointers lead through. */
  lemma M64Sections(s: Sequence)
    requires Build(s).Ok?
    ensures ControlBodies(s).Ok? && NoteBodies(s).Ok?
    ensures var img := Build(s).value;
            && |img.controls| == |img.notes| == |ControlBodies(s).value| == |NoteBodies(s).value| == |s.tracks|
            && (forall j :: 0 <= j < |s.tracks| ==> SectionAt(img.bytes, j, img.controls[j], ControlBodies(s).value[j]))
            && (forall j :: 0 <= j < |s.tracks| ==> NotesAt(img.bytes, img.controls[j], img.notes[j], NoteBodies(s).value[j]))
  {
    M64Layout(s);
  }

  /** Following track `j`'s two pointers. */
  lemma TrackPointers(buf: seq<Byte>, j: nat, control: int, start: int, body: seq<Byte>, notes: seq<Byte>)
    requires SectionAt(buf, j, control, body) && NotesAt(buf, control, start, notes)
    ensures PointerPair(buf, j, control, start)
    ensures 0 <= start && start + |notes| <= |buf|
  {
    PointerReadsBack(buf, SlotAt(j), control);
    PointerReadsBack(buf, control + 2, start);
    assert buf[control..control + 2] == [0xC4, 0x90];
  }

  /** Track `j`'s slot reads as `control` and its controller section, which
      starts with `C4 90`, holds a note pointer that reads as `start`, both
      modulo 65536. */
  ghost predicate PointerPair(buf: seq<Byte>, j: nat, control: int, start: int) {
    && SlotAt(j) + 1 < |buf| && 0 <= control && control + 3 < |buf|
    && ReadBE16(buf, SlotAt(j)) == control % 0x10000
    && buf[control] == 0xC4 && buf[control + 1] == 0x90
    && ReadBE16(buf, control + 2) == start % 0x10000
  }

  /** Every track's pointers lead to its sections (modulo 65536). */
  ghost predicate PointersFollow(buf: seq<Byte>, controls: seq<nat>, starts: seq<nat>) {
    && |controls| == |starts|
    && forall j :: 0 <= j < |controls| ==> PointerPair(buf, j, controls[j], starts[j])
  }

  /** Every track's pointers read back exactly as the sections' positions. */
  ghost predicate PointersExact(buf: seq<Byte>, controls: seq<nat>, starts: seq<nat>) {
    forall j :: 0 <= j < |controls| && j < |starts| && SlotAt(j) + 1 < |buf| && controls[j] + 3 < |buf| ==>
      ReadBE16(buf, SlotAt(j)) == controls[j] && ReadBE16(buf, controls[j] + 2) == starts[j]
  }

  /** In a buffer shorter than 64 KiB the 16-bit pointers are exact. */
  lemma PairExact(buf: seq<Byte>, j: nat, control: int, start: int)
    requires |buf| < 0x10000 && 0 <= start <= |buf|
    requires PointerPair(buf, j, control, start)
    ensures ReadBE16(buf, SlotAt(j)) == control && ReadBE16(buf, control + 2) == start
  {
  }

  /** Following every track's pointers in a buffer whose sections are placed. */
  lemma PlacedPointers(buf: seq<Byte>, controls: seq<nat>, starts: seq<nat>, bodies: seq<seq<Byte>>, notes: seq<seq<Byte>>)
    requires |controls| == |starts| == |bodies| == |notes|
    requires forall j :: 0 <= j < |controls| ==> SectionAt(buf, j, controls[j], bodies[j])
    requires forall j :: 0 <= j < |controls| ==> NotesAt(buf, controls[j], starts[j], notes[j])
    ensures PointersFollow(buf, controls, starts)
    ensures |buf| < 0x10000 ==> PointersExact(buf, controls, starts)
  {
    forall j | 0 <= j < |controls|
      ensures PointerPair(buf, j, controls[j], starts[j])
      ensures |buf| < 0x10000 ==> ReadBE16(buf, SlotAt(j)) == controls[j] && ReadBE16(buf, controls[j] + 2) == starts[j]
    {
      TrackPointers(buf, j, controls[j], starts[j], bodies[j], notes[j]);
      if |buf| < 0x10000 {
        PairExact(buf, j, controls[j], starts[j]);
      }
    }
  }

  /** Reading the file back: each slot's pointer leads to its track's
      controller section, whose note pointer leads to its note section. The
      pointers are 16 bits wide, so a position is recovered modulo 65536; in
      a file shorter than 64 KiB it is recovered exactly. */
  lemma M64PointersResolve(s: Sequence)
    requires Build(s).Ok?
    ensures |Build(s).value.controls| == |s.tracks|
    ensures PointersFollow(Build(s).value.bytes, Build(s).value.controls, Build(s).value.notes)
    ensures |Build(s).value.bytes| < 0x10000 ==> PointersExact(Build(s).value.bytes, Build(s).value.controls, Build(s).value.notes)
  {
    var img := Build(s).value;
    M64Sections(s);
    PlacedPointers(img.bytes, img.controls, img.notes, ControlBodies(s).value, NoteBodies(s).value);
  }
}
