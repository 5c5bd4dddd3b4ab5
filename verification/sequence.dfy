/** The in-memory sequence that the converter builds from a MIDI file and
    transforms before writing it out: notes and rests per track, controller
    curves ("sources") shared through indices, and the song-wide settings. */
module SequenceModel {
  import opened Bytes

  datatype NoteKind = Note | Rest

  /** An entry of a track's timeline. A Rest carries pitch and velocity too
      (both zero when built), but they are never read. */
  datatype NoteEvent = NoteEvent(kind: NoteKind, ticks: int, pitch: Byte, velocity: real)

  /** One sample of a controller curve; `value` is nominally in [0,1]. */
  datatype ControllerEvent = ControllerEvent(ticks: int, value: real)

  datatype SourceKind = FinePitch | Volume | Pan | Tempo | Unknown | UserFixed

  /** A controller curve. Its samples are post-processed by
      `value * multiplier + baseValue`, clamped to [0,1]. */
  datatype ControllerSource = ControllerSource(
    kind: SourceKind,
    controllerNumber: int,
    events: seq<ControllerEvent>,
    baseValue: real,
    multiplier: real)

  /** The value of `PARAM_SOURCE_NONE`: a parameter bound to no source. */
  const NoSource: int := -1

  /** A track: its timeline, its instrument and five optional source indices. */
  datatype Track = Track(
    instrument: Byte,
    notes: seq<NoteEvent>,
    pitchSource: int,
    volumeSource: int,
    panSource: int,
    echoSource: int,
    vibratoSource: int,
    velocityMultiplier: real,
    mapDirectly: bool)

  datatype Sequence = Sequence(
    sources: seq<ControllerSource>,
    tracks: seq<Track>,
    ticksPerQuarter: nat,
    totalTicks: int,
    tempoSource: int,
    bank: Byte,
    volume: real,
    vibratoRange: real,
    finePitchRange: real)

  /** A freshly cleared source of the given kind. */
  function NewSource(kind: SourceKind, controllerNumber: int): ControllerSource {
    ControllerSource(kind, controllerNumber, [], 0.0, 1.0)
  }

  /** A cleared track: no notes, every parameter unbound. */
  function EmptyTrack(): Track {
    Track(0, [], NoSource, NoSource, NoSource, NoSource, NoSource, 1.0, false)
  }

  /** A sequence with the constructor's defaults. */
  function NewSequence(ticksPerQuarter: nat, totalTicks: int): Sequence {
    Sequence([], [], ticksPerQuarter, totalTicks, NoSource, 0, 1.0, 4.0, 12.0)
  }

  /** `value * multiplier + base`, clamped to [0,1]. */
  function Clamp01(v: real): (r: real)
    ensures 0.0 <= r <= 1.0
    ensures 0.0 <= v <= 1.0 ==> r == v
    ensures v > 1.0 ==> r == 1.0
    ensures v < 0.0 ==> r == 0.0
  {
    if v > 1.0 then 1.0 else if v < 0.0 then 0.0 else v
  }

  /** ControllerSource::get: the post-processed value of sample `i`, which
      lies in [0,1] whatever the multiplier and base value. */
  function Get(src: ControllerSource, i: nat): (r: real)
    requires i < |src.events|
    ensures 0.0 <= r <= 1.0
    ensures var raw := src.events[i].value * src.multiplier + src.baseValue;
            0.0 <= raw <= 1.0 ==> r == raw
  {
    Clamp01(src.events[i].value * src.multiplier + src.baseValue)
  }

  // ---------------------------------------------------------------------------
  // Orderings

  /** The tick column of a controller curve, and below that of a note
      timeline. The two element types are distinct datatypes, so the
      projection is written once for each; every ordering property is then
      stated, and proved, once over the plain `seq<int>` they produce. */
  function EventTicks(evs: seq<ControllerEvent>): (r: seq<int>)
    ensures |r| == |evs|
    ensures forall k :: 0 <= k < |evs| ==> r[k] == evs[k].ticks
  {
    seq(|evs|, k requires 0 <= k < |evs| => evs[k].ticks)
  }

  function NoteTicks(notes: seq<NoteEvent>): (r: seq<int>)
    ensures |r| == |notes|
    ensures forall k :: 0 <= k < |notes| ==> r[k] == notes[k].ticks
  {
    seq(|notes|, k requires 0 <= k < |notes| => notes[k].ticks)
  }

  function RestFlags(notes: seq<NoteEvent>): (r: seq<bool>)
    ensures |r| == |notes|
    ensures forall k :: 0 <= k < |notes| ==> r[k] == notes[k].kind.Rest?
  {
    seq(|notes|, k requires 0 <= k < |notes| => notes[k].kind.Rest?)
  }

  ghost predicate Nondecreasing(ts: seq<int>) {
    forall k, l :: 0 <= k < l < |ts| ==> ts[k] <= ts[l]
  }

  ghost predicate StrictlyIncreasing(ts: seq<int>) {
    forall k, l :: 0 <= k < l < |ts| ==> ts[k] < ts[l]
  }

  /** No two adjacent timeline entries are both rests. */
  ghost predicate NoAdjacentRests(rests: seq<bool>) {
    forall k :: 0 <= k < |rests| - 1 ==> !(rests[k] && rests[k + 1])
  }

  /** `i` is -1 or a valid index into `sources`. */
  predicate ValidBinding(sources: seq<ControllerSource>, i: int) {
    i == NoSource || 0 <= i < |sources|
  }

  // ---------------------------------------------------------------------------
  // Source registration

  /** The lookup test of get_source_index: same kind when no controller
      number is asked for, or an Unknown source with that controller number. */
  predicate MatchesSource(src: ControllerSource, kind: SourceKind, controllerNumber: int) {
    || (src.kind == kind && controllerNumber == -1)
    || (src.kind == Unknown && src.controllerNumber == controllerNumber)
  }

  /** get_source_index: the first matching source, or a new source of that
      kind and number appended at the end. */
  function GetSourceIndex(sources: seq<ControllerSource>, kind: SourceKind, controllerNumber: int)
    : (r: (seq<ControllerSource>, nat))
    ensures r.1 < |r.0|
    ensures (exists k :: 0 <= k < |sources| && MatchesSource(sources[k], kind, controllerNumber)) ==>
              && r.0 == sources
              && MatchesSource(sources[r.1], kind, controllerNumber)
              && (forall k :: 0 <= k < r.1 ==> !MatchesSource(sources[k], kind, controllerNumber))
    ensures (forall k :: 0 <= k < |sources| ==> !MatchesSource(sources[k], kind, controllerNumber)) ==>
              && r.0 == sources + [NewSource(kind, controllerNumber)]
              && r.1 == |sources|
  {
    FindSourceFrom(sources, kind, controllerNumber, 0)
  }

  function FindSourceFrom(sources: seq<ControllerSource>, kind: SourceKind, controllerNumber: int, i: nat)
    : (r: (seq<ControllerSource>, nat))
    requires i <= |sources|
    requires forall k :: 0 <= k < i ==> !MatchesSource(sources[k], kind, controllerNumber)
    ensures r.1 < |r.0|
    ensures (exists k :: i <= k < |sources| && MatchesSource(sources[k], kind, controllerNumber)) ==>
              && r.0 == sources
              && MatchesSource(sources[r.1], kind, controllerNumber)
              && (forall k :: 0 <= k < r.1 ==> !MatchesSource(sources[k], kind, controllerNumber))
    ensures (forall k :: i <= k < |sources| ==> !MatchesSource(sources[k], kind, controllerNumber)) ==>
              && r.0 == sources + [NewSource(kind, controllerNumber)]
              && r.1 == |sources|
    decreases |sources| - i
  {
    if i == |sources| then
      (sources + [NewSource(kind, controllerNumber)], |sources|)
    else if MatchesSource(sources[i], kind, controllerNumber) then
      (sources, i)
    else
      FindSourceFrom(sources, kind, controllerNumber, i + 1)
  }

  /** Looking up a source that was just registered finds it again without
      growing the list, for the lookups the converter makes (a named kind
      without a controller number, or an Unknown controller by number). */
  lemma GetSourceIndexStable(sources: seq<ControllerSource>, kind: SourceKind, controllerNumber: int)
    requires controllerNumber == -1 || kind == Unknown
    ensures var (s1, i1) := GetSourceIndex(sources, kind, controllerNumber);
            GetSourceIndex(s1, kind, controllerNumber) == (s1, i1)
  {
    var (s1, i1) := GetSourceIndex(sources, kind, controllerNumber);
    assert MatchesSource(s1[i1], kind, controllerNumber);
  }

  /** Sequence::new_fixed_source: appends a UserFixed source holding the one
      sample (0, value), with the cleared defaults otherwise, and returns its
      index. */
  function NewFixedSource(s: Sequence, value: real): (r: (Sequence, nat))
    ensures r.1 == |s.sources| && |r.0.sources| == |s.sources| + 1
    ensures r.0.sources[..|s.sources|] == s.sources
    ensures r.0 == s.(sources := r.0.sources)
    ensures r.0.sources[r.1].kind == UserFixed
    ensures r.0.sources[r.1].controllerNumber == -1
    ensures r.0.sources[r.1].baseValue == 0.0 && r.0.sources[r.1].multiplier == 1.0
    ensures |r.0.sources[r.1].events| == 1
    ensures r.0.sources[r.1].events[0].ticks == 0 && r.0.sources[r.1].events[0].value == value
    ensures Get(r.0.sources[r.1], 0) == Clamp01(value)
  {
    var src := NewSource(UserFixed, -1).(events := [ControllerEvent(0, value)]);
    (s.(sources := s.sources + [src]), |s.sources|)
  }

  /** A fixed source does not disturb the lookups of get_source_index: a
      lookup that found a source before still finds the same one, and the
      list is left as it is. */
  lemma NewFixedSourceKeepsLookups(s: Sequence, value: real, kind: SourceKind, controllerNumber: int)
    requires exists k :: 0 <= k < |s.sources| && MatchesSource(s.sources[k], kind, controllerNumber)
    ensures var s1 := NewFixedSource(s, value).0;
            GetSourceIndex(s1.sources, kind, controllerNumber)
            == (s1.sources, GetSourceIndex(s.sources, kind, controllerNumber).1)
  {
  }

  /** The fixed source is the one a UserFixed lookup then finds, when no
      earlier source answers that lookup. */
  lemma NewFixedSourceFound(s: Sequence, value: real)
    requires forall k :: 0 <= k < |s.sources| ==> !MatchesSource(s.sources[k], UserFixed, -1)
    ensures var (s1, i) := NewFixedSource(s, value);
            GetSourceIndex(s1.sources, UserFixed, -1) == (s1.sources, i)
  {
  }

  // ---------------------------------------------------------------------------
  // Note remapping

  /** NoteRemapping: an explicit table whose missing entries map a note to
      itself. */
  type NoteRemapping = map<Byte, int>

  function Remapped(m: NoteRemapping, note: Byte): (r: int)
    ensures note !in m ==> r == note
  {
    if note in m then m[note] else note
  }

  /** Track::remap: every entry's note goes through the table (truncated to a
      byte), and the track switches to direct note numbers. */
  function Remap(t: Track, m: NoteRemapping): (r: Track)
    ensures r.mapDirectly
    ensures |r.notes| == |t.notes|
    ensures forall k :: 0 <= k < |t.notes| ==>
              && r.notes[k].kind == t.notes[k].kind
              && r.notes[k].ticks == t.notes[k].ticks
              && r.notes[k].velocity == t.notes[k].velocity
              && r.notes[k].pitch == ToByte(Remapped(m, t.notes[k].pitch))
    ensures r.(notes := t.notes, mapDirectly := t.mapDirectly) == t
  {
    var notes := seq(|t.notes|, k requires 0 <= k < |t.notes| =>
      t.notes[k].(pitch := ToByte(Remapped(m, t.notes[k].pitch))));
    t.(notes := notes, mapDirectly := true)
  }

  /** The default table changes no note: remapping with it only switches the
      track to direct note numbers. */
  lemma RemapIdentity(t: Track)
    ensures Remap(t, map[]) == t.(mapDirectly := true)
  {
    var r := Remap(t, map[]);
    assert r.notes == t.notes;
  }
}
