# midi2m64 conversion core in Dafny

midi2m64 turns a MIDI file into an `.m64` sequence, the binary music format of
the N64 sound driver. Between parsing and writing, the converter keeps an
in-memory *sequence*:

- tracks, each a timeline of Note and Rest entries with five optional bindings
  to controller curves (echo, fine pitch, pan, vibrato, volume);
- the controller curves ("sources"), each a list of (tick, value) samples with
  a base value and a multiplier;
- song-wide settings: total length, ticks per quarter note, tempo source, bank
  and master volume.

This project models that sequence and the transforms the converter runs on it:

- **Clock-base normalisation** (`ClockBase`): every tick is rescaled to
  48 ticks per quarter note. When two entries collide on one tick, one of them
  is erased.
- **Trimming and curve optimisation** (`Optimizer`): trailing samples past the
  end are dropped. Samples taken in silence are masked, and samples that repeat
  the previous value are removed.
- **The `.m64` writer** (`ControlMerge`, `ControlSection`, `NoteSection`,
  `M64`), covering:
  - the header, with bank, track mask, pointer slots, master volume and tempo
    stream;
  - each track's controller section: defaults, a k-way merge of its curves,
    suppression of repeated levels, and delta times;
  - each track's note section: a movable 64-key note window and three note
    encodings;
  - the back-patched 16-bit pointers.

All of it is written as pure functions over immutable sequences. Each
erase-in-place loop is a scan that computes the indices of the surviving
entries, and the result is the input picked at those indices (`Selection`).
Both encoders build a list of commands first and then serialise it. This gives
every encoder a decoder or a player to be checked against:
- controller commands decode back from their bytes;
- note commands decode back from their bytes;
- replaying the note commands sounds exactly the timeline's notes at their
  ticks, when the timeline starts at tick 0, as the reader's leading rest
  guarantees;
- playing a controller or tempo stream sets each level at the tick of the
  sample that carries it.

Floats are modelled as `real`, and a C float-to-int conversion as truncation
toward zero (`Bytes.Trunc`). Integers in the model have no bounds. The
operations the converter calls report as a `Results.Error` these inputs, on
which the C++ code has undefined behaviour:
- an empty note or event list that gets read;
- a note cursor at -1;
- an invalid source index;
- a track count outside 1..16;
- a division by a zero duration;
- a resolution of 0 ticks per quarter note;
- a master volume or play percentage whose truncation is no byte.

Helpers behind those operations (`ClockBase.Rescale`, `ConvertEvents`,
`ConvertNotes`) require what their caller has already checked. One kind of
undefined conversion is not reported; it is listed under "Left out".

Modules, one file each: `Bytes` (bytes.dfy), `Selection` (selection.dfy),
`Results` (results.dfy), `SequenceModel` (sequence.dfy), `ClockBase`
(clock_base.dfy), `Optimizer` (optimizer.dfy), `ControlMerge` (merge.dfy),
`ControlSection` (control.dfy), `NoteSection` (notes.dfy), `M64` (m64.dfy).

## Model

| member | source | states |
|---|---|---|
| Bytes.VarLenRoundTrip | midi2m64/main.cpp:759-769 | every duration 0 <= v < 0x8000 written by ADD_V reads back as v, wherever the field sits, and the reader stops right after the field |
| Bytes.VarLenLengthTag | midi2m64/main.cpp:759-769 | the top bit of the first byte is clear exactly for the one-byte form, and the one-byte form is used exactly for values below 127 |
| Bytes.RevShortInvolution | midi2m64/main.cpp:37-40 | rev_short swaps the two bytes of a 16-bit value, so applying it twice gives the value back |
| Bytes.RevShortStoreIsBigEndian | midi2m64/main.cpp:850 | storing rev_short(v) as a little-endian short writes v big-endian (high byte first) at that index and changes nothing else |
| Bytes.BitMaskIsLowOnes | midi2m64/main.cpp:31-35 | entry n-1 of bit_mask_from_value is 2^n - 1: the low n bits set, one per track |
| SequenceModel.Get | midi2m64/main.cpp:337-350 | ControllerSource::get is always in [0,1] whatever the multiplier and base value, and is the raw `value * multiplier + base` whenever that is already in [0,1] |
| SequenceModel.GetSourceIndex | midi2m64/main.cpp:1177-1203 | returns the first matching source and leaves the list alone when one matches; otherwise appends a new source of that kind and number and returns its index |
| SequenceModel.GetSourceIndexStable | midi2m64/main.cpp:1185-1201 | for the lookups the converter makes (controller number -1, or kind Unknown), looking up a source again returns the same index and does not grow the list |
| SequenceModel.NewFixedSource | midi2m64/main.cpp:1158-1165 | appends one UserFixed source holding the single sample (0, value) with the cleared defaults (controller number -1, base 0, multiplier 1), so its post-processed value is the clamped `value`; returns its index and leaves the other sources and everything else unchanged |
| SequenceModel.NewFixedSourceKeepsLookups | midi2m64/main.cpp:1158-1203 | adding a fixed source does not disturb get_source_index: a lookup that found a source before finds the same index afterwards and leaves the list alone |
| SequenceModel.NewFixedSourceFound | midi2m64/main.cpp:1158-1203 | when no earlier source answers a UserFixed lookup, that lookup finds the new fixed source at the returned index |
| SequenceModel.Remap | midi2m64/main.cpp:381-389 | every entry keeps its kind, tick and velocity, its note goes through the table and is truncated to a byte, and the track switches to direct note numbers |
| SequenceModel.RemapIdentity | midi2m64/main.cpp:43-53 | the default (identity) NoteRemapping changes no note; remapping with it only sets map_directly |
| ClockBase.RescaleMonotone | midi2m64/main.cpp:297-309 | rescaling ticks by 48/R preserves their order |
| ClockBase.Step | midi2m64/main.cpp:409-431 | on a collision, a Rest never displaces the preceding Note; a Note always displaces a preceding Rest; between entries of the same kind, the later one wins exactly when its duration is longer |
| ClockBase.StepKeepsInv | midi2m64/main.cpp:409-437 | one pass of the loop body keeps the scan invariant: survivors' ticks strictly increase and cover every tick seen, a Note tick keeps a Note, rests stay apart |
| ClockBase.ScanFromKeepsInv | midi2m64/main.cpp:398-438 | the invariant holds when the erase loop finishes |
| ClockBase.SurvivorsNormalise | midi2m64/main.cpp:390-439 | on nondecreasing input, the surviving rescaled ticks strictly increase, every input tick is still present, a tick that held a Note still holds one, and no two rests become adjacent |
| ClockBase.ConvertEvents | midi2m64/main.cpp:291-336 | ControllerSource::convert_clock_base leaves a subsequence of the rescaled samples (values unchanged), and a non-empty curve stays non-empty |
| ClockBase.ConvertEventsNormalises | midi2m64/main.cpp:291-336 | on a sorted curve the kept ticks strictly increase, and every input tick's rescaled value trunc(t*48/R) is still present |
| ClockBase.ConvertNotes | midi2m64/main.cpp:390-439 | Track::convert_clock_base leaves a subsequence of the rescaled timeline, and a non-empty timeline stays non-empty |
| ClockBase.ConvertNotesNormalises | midi2m64/main.cpp:390-439 | on a sorted timeline the kept ticks strictly increase and cover every rescaled tick, a tick that held a Note is kept as a Note, and no two rests become adjacent |
| ClockBase.SurvivorsAtTarget | midi2m64/main.cpp:297-335 | at 48 ticks per quarter on strictly increasing input nothing is erased |
| ClockBase.ConvertSequence | midi2m64/main.cpp:717-730 | a resolution of 0 is an error, and the only one; otherwise every source and track is converted with the old resolution and length, the resolution becomes 48, the length is rescaled, and nothing else changes |
| ClockBase.ConvertSequenceNormalises | midi2m64/main.cpp:717-730 | after a successful conversion every sorted curve and timeline has strictly increasing ticks |
| ClockBase.EventsAtTarget | midi2m64/main.cpp:291-336 | a strictly increasing curve already at 48 ticks per quarter is left unchanged |
| ClockBase.NotesAtTarget | midi2m64/main.cpp:390-439 | a strictly increasing timeline already at 48 ticks per quarter is left unchanged |
| ClockBase.ConvertSequenceAtTarget | midi2m64/main.cpp:717-730 | a normalised sequence already at 48 ticks per quarter converts successfully to itself |
| ClockBase.ConvertSequenceIdempotent | midi2m64/main.cpp:717-730 | converting a successfully converted sequence again gives the same result |
| Optimizer.TrimTail | midi2m64/main.cpp:470-476 | only trailing samples are popped, each popped one is at or after the end, and the last one kept is before the end |
| Optimizer.TrimEvents | midi2m64/main.cpp:464-478 | an empty source is an error (the loop reads its last sample); otherwise each source keeps a prefix of its samples, drops only samples at or after the end, and nothing else changes |
| Optimizer.TrimEventsBounds | midi2m64/main.cpp:464-478 | after trimming, every sorted source lies strictly before total_ticks |
| Optimizer.SearchFindsGoverning | midi2m64/main.cpp:496-503 | on a sorted timeline the cursor loop followed by the step back lands on the last entry at or before the sample, never on -1 |
| Optimizer.MaskCharacterised | midi2m64/main.cpp:494-523 | the masking loop keeps a sample exactly when it is the last one, or it is not governed by a rest, or the next sample does not fall in silence |
| Optimizer.MaskKeepsSoundingSamples | midi2m64/main.cpp:504-521 | a sample whose governing entry is a Note is always kept |
| Optimizer.Masked | midi2m64/main.cpp:490-532 | empty notes or events are errors, and so is a first note after the first sample (the note cursor steps back to -1); on success the masking pass and the tail check leave a subsequence of the curve |
| Optimizer.TailCheck | midi2m64/main.cpp:524-532 | after masking, the last kept sample is dropped exactly when the timeline ends in a rest at or before it; every other kept sample stays |
| Optimizer.MaskedCharacterised | midi2m64/main.cpp:490-532 | when the timeline and the curve are non-empty and the first note is at or before the first sample, masking succeeds and keeps exactly the samples the masking rule keeps, except the last one when the tail check drops it, in their order |
| Optimizer.FlatRunsCharacterised | midi2m64/main.cpp:535-548 | the flat-run pass keeps a sample exactly when its value differs from the previous sample's, and the survivors have no two equal neighbours |
| Optimizer.FlatRunsKeepsDistinct | midi2m64/main.cpp:535-548 | a curve with no two equal neighbours passes through unchanged |
| Optimizer.FlatRunEvents | midi2m64/main.cpp:535-548 | the result is a subsequence that starts with the first sample and has no two equal neighbours |
| Optimizer.FlatRunEventsIdempotent | midi2m64/main.cpp:535-548 | running the flat-run pass twice is the same as running it once |
| Optimizer.Optimize | midi2m64/main.cpp:479-548 | the errors are reported; on success the curve is a non-empty subsequence of the input with no two equal neighbours, and its first sample is the first survivor of masking |
| Optimizer.OptimizeCharacterised | midi2m64/main.cpp:479-548 | for every input: an empty timeline is EmptyNoteList, an empty curve EmptyEventList, and a first sample before the first entry NoteIndexBelowZero (the note cursor at -1); on sorted inputs whose first sample is not before the first entry, optimize succeeds exactly when some sample survives masking and the tail check, and its result is the flat-run pass over exactly those survivors |
| Optimizer.OptimizeSlot | midi2m64/main.cpp:552-556 | an unbound slot changes nothing and an invalid index is an error; for a valid index the slot succeeds exactly when optimize does, that source becomes optimize's result (non-empty, no two equal neighbours), and every other source is unchanged |
| Optimizer.OptimizeSlots | midi2m64/main.cpp:550-577 | optimising slots in order succeeds whenever every index is valid and every bound source is named by one slot only and optimises; on success every index was valid, every bound source ends optimised, a source named by no slot is unchanged, and a source named by exactly one slot is optimize's result on its original curve |
| Optimizer.OptimizeTrackSources | midi2m64/main.cpp:550-577 | the five bindings in the order echo, fine pitch, pan, vibrato, volume; the pass succeeds whenever each binding is valid and each bound source is bound once and optimises; on success each is valid, each bound source ends optimised, a source bound once is optimize's result on its original curve, a source the track does not bind is unchanged, and tracks and settings are unchanged |
| Optimizer.OptimizeFrom | midi2m64/main.cpp:578-585 | for the tracks from t on: the pass succeeds whenever every binding is valid and every bound source is bound once among them and optimises; on success every source one of them binds ends optimised, a source bound once is exactly optimize's result on its original curve, and a source none of them binds is unchanged |
| Optimizer.OptimizeAll | midi2m64/main.cpp:578-585 | succeeds whenever every binding is valid and every bound source is bound once in the sequence and optimises; on success every source some track binds ends non-empty with no two equal neighbours, a source bound once is exactly optimize's result on its original curve, a source no track binds is unchanged, and elsewhere samples are only erased |
| ControlMerge.Nearest | midi2m64/main.cpp:931-943 | the chosen stream has the smallest pending tick, and it is the first such stream |
| ControlMerge.MergeOrdered | midi2m64/main.cpp:929-969 | merged samples come in nondecreasing tick order, and on equal ticks the earlier-registered stream comes first |
| ControlMerge.MergeTicksSorted | midi2m64/main.cpp:929-969 | the ticks of the merged samples are sorted |
| ControlMerge.MergeDeliversAll | midi2m64/main.cpp:929-969 | each stream's samples all appear, in their own order, and nothing else appears |
| ControlMerge.MergeWithin | midi2m64/main.cpp:929-969 | when every stream's ticks lie in [lo, hi], so do the merged ticks |
| ControlMerge.MergeCodes | midi2m64/main.cpp:929-969 | every merged sample carries the opcode of one of the streams |
| ControlSection.ControlRoundTrip | midi2m64/main.cpp:945-975 | the bytes of any decodable list of commands (one `FF`, in last place; every delay in [0, 0x8000); no level opcode equal to `FD` or `FF`) decode back to that list, with each level replaced by the byte actually written, whatever precedes or follows them |
| ControlSection.ControlCommands | midi2m64/main.cpp:970-975 | a controller section's commands end with the end-of-track command (`FF`), and it occurs nowhere before the end |
| ControlSection.ControlLevels | midi2m64/main.cpp:950-962 | no opcode is written with the level it already has, each opcode's final level is that of its last sample, and the levels written are, in sample order, exactly the samples whose level differs from their opcode's level so far |
| ControlSection.EmitWritesChanges | midi2m64/main.cpp:945-962 | after any prefix of the merged samples, the emission loop writes exactly the samples whose level differs from their opcode's level so far |
| ControlSection.ControlWritesChanges | midi2m64/main.cpp:945-975 | a controller section's level writes are exactly the reference changes; the closing delay and `FF` add none |
| ControlSection.EmitPlayedChanges | midi2m64/main.cpp:945-962 | after any prefix of the merged samples, the emission loop, played from the last write's tick, sets exactly the changed levels that follow, each at its own sample's tick |
| ControlSection.ControlPlayed | midi2m64/main.cpp:945-975 | played from tick 0, a controller section sets exactly the changed levels, in sample order, each at the tick of the sample carrying it; the closing delay and `FF` set nothing |
| ControlSection.PlayedAppend | midi2m64/main.cpp:945-975 | playing two command lists back to back is playing the second from the tick where the first ends |
| ControlSection.ControlWaits | midi2m64/main.cpp:950-974 | for sorted ticks in [0, total_ticks] every delay is positive and the delays sum to total_ticks |
| ControlSection.Slots | midi2m64/main.cpp:857-926 | the five parameters are registered in the order echo, fine pitch, pan, vibrato, volume |
| ControlSection.Prologue | midi2m64/main.cpp:857-926 | every parameter writes either its default pair or a stream, in registration order; an invalid or empty bound source is an error |
| ControlSection.TrackControl | midi2m64/main.cpp:856-975 | a track's controller section is produced exactly when each of its five parameters is unbound or bound to an existing non-empty source |
| ControlSection.TrackControlTiming | midi2m64/main.cpp:927-975 | for sorted sources within [0, total_ticks], the section's delays are positive, sum to total_ticks, and no level is set redundantly |
| ControlSection.TrackControlCodes | midi2m64/main.cpp:857-962 | a track's controller section sets only the five parameter opcodes `D4 D3 DD D8 DF` |
| ControlSection.ControlSectionDecodes | midi2m64/main.cpp:856-975 | for sorted sources within [0, total_ticks] and a sequence shorter than 0x8000 ticks, a track's controller section is decodable and reads back, wherever it sits, as its commands with each level reduced to its byte |
| ControlSection.TempoCommands | midi2m64/main.cpp:813-845 | with no tempo source, the stream is tempo `0x78` for the whole sequence; an invalid index is an error; the stream always ends with `FF` |
| ControlSection.TempoSpan | midi2m64/main.cpp:820-844 | a sorted tempo curve writes one tempo per sample and lasts until its last sample, or the whole sequence when every sample is at tick 0 |
| ControlSection.TempoFromPlayed | midi2m64/main.cpp:822-838 | on a sorted non-negative curve, the tempo loop from any sample, played from the previous sample's tick, sets each remaining sample's tempo at its tick |
| ControlSection.TempoPlayed | midi2m64/main.cpp:813-845 | played from tick 0, the tempo stream sets tempo `0x78` at tick 0 when no source is bound, and otherwise sets every sample's tempo of a sorted non-negative curve at its own tick |
| ControlSection.TempoDecodes | midi2m64/main.cpp:813-845 | for a sequence shorter than 0x8000 ticks and a bound curve sorted within it, the tempo stream is decodable and reads back as its commands |
| NoteSection.LowerGroup | midi2m64/main.cpp:1005-1008 | stepping the window down stops at the first window whose base is not above the note |
| NoteSection.RaiseGroup | midi2m64/main.cpp:1009-1012 | stepping the window up stops at the first window holding the note |
| NoteSection.AdjustGroup | midi2m64/main.cpp:1004-1012 | after adjustment, 0 <= note - (group*64 + 21) < 64 |
| NoteSection.AdjustGroupIsFloor | midi2m64/main.cpp:1004-1012 | from any starting window, the adjustment ends at floor((note - 21) / 64) |
| NoteSection.ChooseMode | midi2m64/main.cpp:1051-1072 | mode 1 or 3 exactly when the next entry is a Rest and the combined duration is at most 255; mode 3 exactly when, in addition, it equals prev_duration |
| NoteSection.Velocity | midi2m64/main.cpp:1088-1098 | the velocity byte is at most 100 |
| NoteSection.PlayPercentage | midi2m64/main.cpp:1099-1102 | a combined duration of 0 is an error, and so is a share whose truncation is no byte; when the note lies within its pair the byte always exists; the byte is the truncated rest share of the pair, scaled to 255 |
| NoteSection.RestShareInside | midi2m64/main.cpp:1099-1101 | when the note lies within its pair, the rest share scaled to 255 truncates to a byte |
| NoteSection.EntryStep | midi2m64/main.cpp:985-1140 | one iteration moves forward and stands for exactly the entries it consumes; windowed pitch fields lie in [0, 64), and direct tracks never change window |
| NoteSection.NoteStepShape | midi2m64/main.cpp:999-1140 | a Note writes `C2` exactly when its window changes, then one note command sounding that note at its tick; the iteration consumes the note, or the note and the Rest after it |
| NoteSection.NoteCommandsFrom | midi2m64/main.cpp:983-1142 | the commands consume every entry of the timeline, with the same window facts |
| NoteSection.NoteCommandsFromOk | midi2m64/main.cpp:1021-1040 | on strictly increasing ticks before the end, no combined duration is 0 and each note lies within its pair, so the section is always produced |
| NoteSection.ReplayStep | midi2m64/main.cpp:985-1140 | replaying one iteration's commands sounds exactly the Note entries it consumed and brings the player to the next entry's tick, with the window and previous duration the loop carries on with |
| NoteSection.ReplayFrom | midi2m64/main.cpp:983-1142 | replaying the commands from any entry sounds exactly the remaining notes at their ticks and ends at total_ticks |
| NoteSection.ReplayNoteCommands | midi2m64/main.cpp:980-1142 | a track's note section, played from time 0 and window 0, sounds exactly the timeline's notes, each moved earlier by the first entry's tick, and lasts until total_ticks less that tick; with the reader's leading rest at tick 0 (main.cpp:1360-1366), exactly the notes at their ticks until total_ticks |
| NoteSection.DecodeGroup | midi2m64/main.cpp:1013-1018 | the window change `C2 g*64` reads back as window g for every window -2..1, the byte read as a signed transposition; this covers every MIDI note, whose windows are -1..1 |
| NoteSection.DecodeOne | midi2m64/main.cpp:1084-1139 | each note command decodes back from its bytes and stops right after them |
| NoteSection.NoteRoundTrip | midi2m64/main.cpp:983-1142 | a list of decodable note commands reads back from its bytes |
| NoteSection.NoteCommandsDecodable | midi2m64/main.cpp:983-1142 | on a windowed track whose ticks are non-negative, strictly increasing and below total_ticks, with total_ticks below 0x8000 and every pitch below 149 (every MIDI note; notes 0..20 lie in window -1, written `C2 C0`), every command of the note section is decodable, the `C2` window byte read as a signed byte |
| NoteSection.NoteSectionDecodes | midi2m64/main.cpp:977-1143 | on a windowed track whose ticks are non-negative, strictly increasing and below total_ticks, with total_ticks below 0x8000 and every pitch below 149 (every MIDI note, 0..20 included), the note section is produced and decodes back to its commands |
| M64.PointerReadsBack | midi2m64/main.cpp:850 | a big-endian pointer written at a slot reads back as the position modulo 65536 |
| M64.TrackSlots | midi2m64/main.cpp:804-809 | slot i holds the opcode `0x90 + i` followed by two zero bytes of placeholder |
| M64.PreambleMask | midi2m64/main.cpp:799-802 | the file starts with `D3 bank D7` and a big-endian mask of 2^n - 1 for n tracks |
| M64.HeaderLaidOut | midi2m64/main.cpp:799-845 | the header holds the preamble, the n slot opcodes and the master part at their positions |
| M64.ControlPhaseLayout | midi2m64/main.cpp:847-855 | the controller loop leaves the header in place, lays the sections back to back, and points each slot at its section's `C4 90` lead-in |
| M64.NotePhaseLayout | midi2m64/main.cpp:977-979 | the note loop keeps the header and controller sections, lays the note sections back to back up to the end of the file, and points each track's note pointer at its section |
| M64.ControlBodies | midi2m64/main.cpp:847-976 | every track's controller section is produced exactly when each one can be, in track order |
| M64.NoteBodies | midi2m64/main.cpp:977-1143 | every track's note section is produced exactly when each one can be, in track order |
| M64.Build | midi2m64/main.cpp:753-1145 | the file is produced exactly for encodable sequences; a track count outside 1..16 is an error, and then a master volume whose percentage truncates outside 0..255; one controller and one note position are recorded per track |
| M64.CreateM64 | midi2m64/main.cpp:753-1145 | create_m64 yields bytes exactly for encodable sequences, with the same track-count and volume errors |
| M64.AssembleHeader | midi2m64/main.cpp:799-845 | over any section bytes, the assembled file keeps the preamble with the 2^n - 1 mask, the `0x90 + i` slot opcodes and the master part |
| M64.AssembleSections | midi2m64/main.cpp:847-979 | over any section bytes, the sections lie back to back and each pointer slot leads to its section |
| M64.M64Layout | midi2m64/main.cpp:753-1145 | the whole layout of create_m64's output: header, mask, slot opcodes, master part, controller sections then note sections back to back in track order, with the last note section ending the file |
| M64.PlacedPointers | midi2m64/main.cpp:849-853 | in a laid-out buffer, every slot reads as its section's position modulo 65536, and exactly when the buffer is shorter than 64 KiB |
| M64.M64PointersResolve | midi2m64/main.cpp:849-979 | in the file, track slot j holds the position of the track's `C4` byte and the track's note pointer holds where its note section begins, modulo 65536 and exactly for files under 64 KiB |

## Left out

- `opt_avg_intervals` (midi2m64/main.cpp:66-225): dead code with no caller, built on float error minimisation.
- `refactor_notes_to_pitch_bend` and `refactor_all_pitch_bends` (midi2m64/main.cpp:586-716): float rounding code whose only call is commented out.
- `main`, `get_track_by_name` and `press_enter_to_continue`: MIDI parsing through an external library, file I/O, and song-specific overrides. The MidiFile and Options libraries are not part of this model.
- Exact values of float-derived bytes are not modelled. These are the master volume, the tempo level, controller levels, note velocity and the play percentage. Each is computed on `real` and truncated toward zero, so float rounding is not reproduced.
- ClockBase.Rescale: uses the exact rational trunc(t*48/R), not the float product with `48.0f/R`. The two can differ by one tick where float rounding crosses an integer.
- 32-bit `int` wrap-around of ticks and durations is not modelled: integers are unbounded.
- A float converted to `int` outside the range of `int` is undefined in C++ but not reported. This covers the controller level (midi2m64/main.cpp:947) and the rescaled ticks. Reals and integers are unbounded here. The later `int`-to-byte store is defined, and is modelled as reduction modulo 256.
- Bytes.VarLenRoundTrip: covers 0 <= v < 0x8000 only. For larger values ADD_V loses the top bit, and the field does not read back.
- M64.M64PointersResolve: states the pointers modulo 65536, because they are 16 bits wide. They equal the positions only for files under 64 KiB.
- NoteSection.NoteRoundTrip: the reader stops at the end of the buffer, because a note section has no end marker. In a file, only the last note section ends where the buffer does.
- NoteSection.NoteCommandsDecodable: stated for windowed tracks only. A direct-mapped track writes raw note numbers, whose mode byte can collide with the opcodes.
- NoteSection.NoteCommandsDecodable: stated for pitches below 149 only. From 149 up the window is 2, whose byte 0x80 reads back as window -2. No MIDI note (0..127) reaches it.
- NoteSection.NoteSectionDecodes: stated for pitches below 149 only, for the same reason as NoteCommandsDecodable.
- The host-endian store `*((short*)&m64[...]) = rev_short(...)` is modelled as an explicit big-endian two-byte write. Bytes.RevShortStoreIsBigEndian relates the two on a little-endian host.
- In create_m64, the section bytes are computed per track before the buffer is assembled. This gives the same bytes as the interleaved loop, because each section depends only on the sequence.
- The `EventStream` pointer into a source is modelled as a copy of the source, which nothing changes during encoding.
