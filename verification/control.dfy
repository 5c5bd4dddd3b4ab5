/** The controller sections of create_m64: the sequence-level tempo stream
    and each track's controller section (defaults for unbound parameters,
    then the merged curves with repeated levels suppressed and delta times in
    between). Both are built as commands first and serialised afterwards. */
module ControlSection {
  import opened Bytes
  import opened SequenceModel
  import opened Results
  import opened ControlMerge

  /** A command of a controller stream: a delay (`FD` + duration), a
      parameter change (opcode + level byte), or the end marker `FF`. */
  datatype ControlCmd = Wait(delta: int) | SetLevel(code: Byte, level: int) | EndTrack

  // ---------------------------------------------------------------------------
  // Serialisation

  const WaitOp: Byte := 0xFD
  const EndOp: Byte := 0xFF

  function EncodeCmd(c: ControlCmd): (r: seq<Byte>)
    ensures |r| > 0
  {
    match c
    case Wait(d) => [WaitOp] + VarLen(d)
    case SetLevel(code, level) => [code, ToByte(level)]
    case EndTrack => [EndOp]
  }

  function EncodeCmds(cmds: seq<ControlCmd>): seq<Byte> {
    if |cmds| == 0 then [] else EncodeCmd(cmds[0]) + EncodeCmds(cmds[1..])
  }

  /** Reads commands from `pos` up to and including the end marker. */
  function DecodeCmds(bytes: seq<Byte>, pos: nat): Option<seq<ControlCmd>>
    decreases |bytes| - pos
  {
    if pos >= |bytes| then None
    else if bytes[pos] == EndOp then Some([EndTrack])
    else if bytes[pos] == WaitOp then
      match ReadVarLen(bytes, pos + 1)
      case None => None
      case Some((d, next)) =>
        match DecodeCmds(bytes, next)
        case None => None
        case Some(rest) => Some([Wait(d)] + rest)
    else if pos + 1 < |bytes| then
      match DecodeCmds(bytes, pos + 2)
      case None => None
      case Some(rest) => Some([SetLevel(bytes[pos], bytes[pos + 1])] + rest)
    else None
  }

  /** A command list the decoder can read back: it ends at its only end
      marker, its delays fit the duration field, and no parameter opcode
      collides with `FD` or `FF`. */
  ghost predicate Decodable(cmds: seq<ControlCmd>) {
    && |cmds| > 0 && cmds[|cmds| - 1] == EndTrack
    && (forall k :: 0 <= k < |cmds| - 1 ==> !cmds[k].EndTrack?)
    && (forall k :: 0 <= k < |cmds| && cmds[k].Wait? ==> 0 <= cmds[k].delta < 0x8000)
    && (forall k :: 0 <= k < |cmds| && cmds[k].SetLevel? ==> cmds[k].code != WaitOp && cmds[k].code != EndOp)
  }

  /** The commands as the bytes show them: levels reduced to a byte. */
  function AsBytes(cmds: seq<ControlCmd>): (r: seq<ControlCmd>)
    ensures |r| == |cmds|
    ensures forall k :: 0 <= k < |cmds| ==>
              r[k] == (if cmds[k].SetLevel? then SetLevel(cmds[k].code, ToByte(cmds[k].level)) else cmds[k])
  {
    seq(|cmds|, k requires 0 <= k < |cmds| =>
      if cmds[k].SetLevel? then SetLevel(cmds[k].code, ToByte(cmds[k].level)) else cmds[k])
  }

  /** Decoding the serialised commands, wherever they sit in a buffer, gives
      them back with each level reduced to its byte. */
  lemma {:induction false} ControlRoundTrip(pre: seq<Byte>, cmds: seq<ControlCmd>, post: seq<Byte>)
    requires Decodable(cmds)
    ensures DecodeCmds(pre + EncodeCmds(cmds) + post, |pre|) == Some(AsBytes(cmds))
    decreases |cmds|
  {
    if cmds[0].EndTrack? {
      RoundTripEnd(pre, cmds, post);
    } else {
      DecodableTail(cmds);
      ControlRoundTrip(pre + EncodeCmd(cmds[0]), cmds[1..], post);
      RoundTripCons(pre, cmds, post);
    }
  }

  /** A list that starts with its end marker is just the marker. */
  lemma RoundTripEnd(pre: seq<Byte>, cmds: seq<ControlCmd>, post: seq<Byte>)
    requires Decodable(cmds) && cmds[0].EndTrack?
    ensures DecodeCmds(pre + EncodeCmds(cmds) + post, |pre|) == Some(AsBytes(cmds))
  {
    assert |cmds| == 1;
    var buf := pre + EncodeCmds(cmds) + post;
    assert EncodeCmds(cmds)[0] == EndOp;
    assert buf[|pre|] == EncodeCmds(cmds)[0];
    assert AsBytes(cmds) == [EndTrack];
  }

  /** The first command decodes in front of the rest. */
  lemma RoundTripCons(pre: seq<Byte>, cmds: seq<ControlCmd>, post: seq<Byte>)
    requires Decodable(cmds) && !cmds[0].EndTrack?
    requires DecodeCmds(pre + EncodeCmd(cmds[0]) + EncodeCmds(cmds[1..]) + post, |pre + EncodeCmd(cmds[0])|)
             == Some(AsBytes(cmds[1..]))
    ensures DecodeCmds(pre + EncodeCmds(cmds) + post, |pre|) == Some(AsBytes(cmds))
  {
    var c := cmds[0];
    var after := EncodeCmds(cmds[1..]) + post;
    EncodeCmdsHead(pre, cmds, post);
    DecodeCmdsSame(pre + EncodeCmd(c) + EncodeCmds(cmds[1..]) + post, pre + EncodeCmd(c) + after,
                   |pre + EncodeCmd(c)|, AsBytes(cmds[1..]), AsBytes(cmds[1..]));
    DecodeStep(pre, c, after, AsBytes(cmds[1..]));
    AsBytesCons(cmds);
    DecodeCmdsSame(pre + EncodeCmd(c) + after, pre + EncodeCmds(cmds) + post, |pre|,
                   [if c.SetLevel? then SetLevel(c.code, ToByte(c.level)) else c] + AsBytes(cmds[1..]), AsBytes(cmds));
  }

  lemma EncodeCmdsHead(pre: seq<Byte>, cmds: seq<ControlCmd>, post: seq<Byte>)
    requires |cmds| > 0
    ensures pre + EncodeCmd(cmds[0]) + EncodeCmds(cmds[1..]) + post == pre + EncodeCmd(cmds[0]) + (EncodeCmds(cmds[1..]) + post)
    ensures pre + EncodeCmds(cmds) + post == pre + EncodeCmd(cmds[0]) + (EncodeCmds(cmds[1..]) + post)
  {
    var h, e := EncodeCmd(cmds[0]), EncodeCmds(cmds[1..]);
    assert EncodeCmds(cmds) == h + e;
    AppendAssoc(pre, h, e);
    AppendAssoc(pre + h, e, post);
  }

  lemma AppendAssoc<T>(a: seq<T>, b: seq<T>, c: seq<T>)
    ensures a + (b + c) == a + b + c
  {
  }

  lemma AsBytesCons(cmds: seq<ControlCmd>)
    requires |cmds| > 0
    ensures [if cmds[0].SetLevel? then SetLevel(cmds[0].code, ToByte(cmds[0].level)) else cmds[0]] + AsBytes(cmds[1..])
            == AsBytes(cmds)
  {
  }

  lemma DecodeCmdsSame(a: seq<Byte>, b: seq<Byte>, pos: nat, x: seq<ControlCmd>, y: seq<ControlCmd>)
    requires a == b && x == y
    requires DecodeCmds(a, pos) == Some(x)
    ensures DecodeCmds(b, pos) == Some(y)
  {
  }

  /** A delay or level change followed by commands that decode. */
  lemma DecodeStep(pre: seq<Byte>, c: ControlCmd, after: seq<Byte>, tail: seq<ControlCmd>)
    requires !c.EndTrack?
    requires c.Wait? ==> 0 <= c.delta < 0x8000
    requires c.SetLevel? ==> c.code != WaitOp && c.code != EndOp
    requires DecodeCmds(pre + EncodeCmd(c) + after, |pre| + |EncodeCmd(c)|) == Some(tail)
    ensures DecodeCmds(pre + EncodeCmd(c) + after, |pre|)
            == Some([if c.SetLevel? then SetLevel(c.code, ToByte(c.level)) else c] + tail)
  {
    var buf := pre + EncodeCmd(c) + after;
    assert buf[|pre|] == EncodeCmd(c)[0];
    match c
    case Wait(d) =>
      assert buf == (pre + [WaitOp]) + VarLen(d) + after;
      VarLenRoundTrip(pre + [WaitOp], d, after);
    case SetLevel(code, level) =>
      assert buf[|pre| + 1] == ToByte(level);
  }

  lemma DecodableTail(cmds: seq<ControlCmd>)
    requires Decodable(cmds) && |cmds| > 1
    ensures Decodable(cmds[1..])
  {
  }

  // ---------------------------------------------------------------------------
  // Suppressing repeated levels

  /** `event_prev_values`: the last level seen per opcode, -1 before any. */
  function PrevLevel(prev: map<Byte, int>, code: Byte): int {
    if code in prev then prev[code] else -1
  }

  /** The level the commands last set for `code`, -1 if they never set it. */
  function LastLevel(cmds: seq<ControlCmd>, code: Byte): int {
    if |cmds| == 0 then -1
    else if cmds[|cmds| - 1].SetLevel? && cmds[|cmds| - 1].code == code then cmds[|cmds| - 1].level
    else LastLevel(cmds[..|cmds| - 1], code)
  }

  /** No command sets a parameter to the level it already has. */
  ghost predicate NoRedundantSets(cmds: seq<ControlCmd>) {
    forall k :: 0 <= k < |cmds| && cmds[k].SetLevel? ==> LastLevel(cmds[..k], cmds[k].code) != cmds[k].level
  }

  /** Reference: the level of the last sample carrying `code`, or `dflt`. */
  function FinalLevel(samples: seq<Sample>, code: Byte, dflt: int): int {
    if |samples| == 0 then dflt
    else FinalLevel(samples[1..], code, if samples[0].code == code then samples[0].level else dflt)
  }

  /** The emission loop over the merged samples: a level equal to the last
      one seen for its opcode is dropped; otherwise a delay is written first
      when the tick moved since the last write. Returns the commands and the
      tick of the last write. */
  function EmitFrom(samples: seq<Sample>, prev: map<Byte, int>, lastTick: int): (r: (seq<ControlCmd>, int))
    ensures forall k :: 0 <= k < |r.0| ==> !r.0[k].EndTrack?
  {
    if |samples| == 0 then ([], lastTick)
    else
      var s := samples[0];
      var prev' := prev[s.code := s.level];
      if PrevLevel(prev, s.code) != s.level then
        var here := (if s.ticks != lastTick then [Wait(s.ticks - lastTick)] else []) + [SetLevel(s.code, s.level)];
        var rest := EmitFrom(samples[1..], prev', s.ticks);
        (here + rest.0, rest.1)
      else
        EmitFrom(samples[1..], prev', lastTick)
  }

  /** The command list of one controller section: the emitted levels, a
      final delay up to `total` when the last write was earlier, then `FF`. */
  function ControlCommands(samples: seq<Sample>, total: int): (cmds: seq<ControlCmd>)
    ensures |cmds| > 0 && cmds[|cmds| - 1] == EndTrack
    ensures forall k :: 0 <= k < |cmds| - 1 ==> !cmds[k].EndTrack?
  {
    var (body, last) := EmitFrom(samples, map[], 0);
    body + (if last != total then [Wait(total - last)] else []) + [EndTrack]
  }

  lemma LastLevelAppendOther(cmds: seq<ControlCmd>, c: ControlCmd, code: Byte)
    requires !(c.SetLevel? && c.code == code)
    ensures LastLevel(cmds + [c], code) == LastLevel(cmds, code)
  {
    assert (cmds + [c])[..|cmds|] == cmds;
  }

  lemma NoRedundantAppendOther(cmds: seq<ControlCmd>, c: ControlCmd)
    requires NoRedundantSets(cmds) && !c.SetLevel?
    ensures NoRedundantSets(cmds + [c])
  {
    var r := cmds + [c];
    forall k | 0 <= k < |cmds| ensures r[..k] == cmds[..k] {}
  }

  ghost predicate Tracks(acc: seq<ControlCmd>, prev: map<Byte, int>) {
    forall code: Byte :: LastLevel(acc, code) == PrevLevel(prev, code)
  }

  /** Appending one write of a new level keeps the bookkeeping exact. */
  lemma AppendSet(acc: seq<ControlCmd>, prev: map<Byte, int>, lastTick: int, s: Sample)
    requires Tracks(acc, prev) && NoRedundantSets(acc)
    requires PrevLevel(prev, s.code) != s.level
    ensures var here := (if s.ticks != lastTick then [Wait(s.ticks - lastTick)] else []) + [SetLevel(s.code, s.level)];
            Tracks(acc + here, prev[s.code := s.level]) && NoRedundantSets(acc + here)
  {
    var w := if s.ticks != lastTick then [Wait(s.ticks - lastTick)] else [];
    var mid := acc + w;
    if s.ticks != lastTick {
      AppendWait(acc, prev, Wait(s.ticks - lastTick));
    } else {
      assert mid == acc;
    }
    AppendLevel(mid, prev, s);
    assert acc + (w + [SetLevel(s.code, s.level)]) == mid + [SetLevel(s.code, s.level)];
  }

  /** A delay changes no opcode's level. */
  lemma AppendWait(acc: seq<ControlCmd>, prev: map<Byte, int>, c: ControlCmd)
    requires Tracks(acc, prev) && NoRedundantSets(acc) && !c.SetLevel?
    ensures Tracks(acc + [c], prev) && NoRedundantSets(acc + [c])
  {
    forall code: Byte ensures LastLevel(acc + [c], code) == LastLevel(acc, code) {
      LastLevelAppendOther(acc, c, code);
    }
    NoRedundantAppendOther(acc, c);
  }

  /** Writing a level the opcode does not have records it. */
  lemma AppendLevel(mid: seq<ControlCmd>, prev: map<Byte, int>, s: Sample)
    requires Tracks(mid, prev) && NoRedundantSets(mid)
    requires PrevLevel(prev, s.code) != s.level
    ensures Tracks(mid + [SetLevel(s.code, s.level)], prev[s.code := s.level])
    ensures NoRedundantSets(mid + [SetLevel(s.code, s.level)])
  {
    var full := mid + [SetLevel(s.code, s.level)];
    assert full[..|mid|] == mid;
    forall code: Byte ensures LastLevel(full, code) == PrevLevel(prev[s.code := s.level], code) {
      if code != s.code {
        LastLevelAppendOther(mid, SetLevel(s.code, s.level), code);
      }
    }
    forall k | 0 <= k < |mid| ensures full[..k] == mid[..k] {}
  }

  /** Emission never writes a level its opcode already has, and ends with
      every opcode at its last sample's level. */
  lemma {:induction false} EmitTracksLevels(samples: seq<Sample>, prev: map<Byte, int>, lastTick: int, acc: seq<ControlCmd>)
    requires Tracks(acc, prev) && NoRedundantSets(acc)
    ensures var out := acc + EmitFrom(samples, prev, lastTick).0;
            && NoRedundantSets(out)
            && forall code: Byte :: LastLevel(out, code) == FinalLevel(samples, code, PrevLevel(prev, code))
    decreases |samples|
  {
    if |samples| == 0 {
      assert acc + [] == acc;
    } else {
      var s := samples[0];
      var prev' := prev[s.code := s.level];
      if PrevLevel(prev, s.code) != s.level {
        EmitTracksWrite(samples, prev, lastTick, acc);
      } else {
        assert Tracks(acc, prev') by {
          forall code: Byte ensures LastLevel(acc, code) == PrevLevel(prev', code) {}
        }
        EmitTracksLevels(samples[1..], prev', lastTick, acc);
        assert forall code: Byte :: PrevLevel(prev', code) == PrevLevel(prev, code);
      }
    }
  }

  lemma {:induction false} EmitTracksWrite(samples: seq<Sample>, prev: map<Byte, int>, lastTick: int, acc: seq<ControlCmd>)
    requires |samples| > 0 && PrevLevel(prev, samples[0].code) != samples[0].level
    requires Tracks(acc, prev) && NoRedundantSets(acc)
    ensures var out := acc + EmitFrom(samples, prev, lastTick).0;
            && NoRedundantSets(out)
            && forall code: Byte :: LastLevel(out, code) == FinalLevel(samples, code, PrevLevel(prev, code))
    decreases |samples|, 0
  {
    var s := samples[0];
    var prev' := prev[s.code := s.level];
    var here := (if s.ticks != lastTick then [Wait(s.ticks - lastTick)] else []) + [SetLevel(s.code, s.level)];
    AppendSet(acc, prev, lastTick, s);
    EmitTracksLevels(samples[1..], prev', s.ticks, acc + here);
    EmitWriteUnfold(samples, prev, lastTick, acc);
    FinalLevelShift(samples, prev);
  }

  /** Unfolds one write of the emission loop behind an accumulated prefix. */
  lemma EmitWriteUnfold(samples: seq<Sample>, prev: map<Byte, int>, lastTick: int, acc: seq<ControlCmd>)
    requires |samples| > 0 && PrevLevel(prev, samples[0].code) != samples[0].level
    ensures var s := samples[0];
            var here := (if s.ticks != lastTick then [Wait(s.ticks - lastTick)] else []) + [SetLevel(s.code, s.level)];
            acc + EmitFrom(samples, prev, lastTick).0 == (acc + here) + EmitFrom(samples[1..], prev[s.code := s.level], s.ticks).0
  {
    var s := samples[0];
    var here := (if s.ticks != lastTick then [Wait(s.ticks - lastTick)] else []) + [SetLevel(s.code, s.level)];
    var rest := EmitFrom(samples[1..], prev[s.code := s.level], s.ticks);
    assert EmitFrom(samples, prev, lastTick) == (here + rest.0, rest.1);
    assert acc + (here + rest.0) == (acc + here) + rest.0;
  }

  /** Recording the first sample's level is the same as starting the
      reference one sample later. */
  lemma FinalLevelShift(samples: seq<Sample>, prev: map<Byte, int>)
    requires |samples| > 0
    ensures forall code: Byte :: FinalLevel(samples[1..], code, PrevLevel(prev[samples[0].code := samples[0].level], code))
                                 == FinalLevel(samples, code, PrevLevel(prev, code))
  {
    var s := samples[0];
    forall code: Byte
      ensures FinalLevel(samples[1..], code, PrevLevel(prev[s.code := s.level], code)) == FinalLevel(samples, code, PrevLevel(prev, code))
    {
      assert PrevLevel(prev[s.code := s.level], code) == (if s.code == code then s.level else PrevLevel(prev, code));
    }
  }

  /** The level changes among `cmds`, in order. */
  function LevelWrites(cmds: seq<ControlCmd>): seq<ControlCmd> {
    if |cmds| == 0 then []
    else LevelWrites(cmds[..|cmds| - 1]) + (if cmds[|cmds| - 1].SetLevel? then [cmds[|cmds| - 1]] else [])
  }

  /** Reference: sample `k` is written exactly when its level differs from
      the level its opcode holds after samples `..k` (-1 before any). */
  function Changes(samples: seq<Sample>): seq<ControlCmd> {
    if |samples| == 0 then []
    else
      var init, s := samples[..|samples| - 1], samples[|samples| - 1];
      Changes(init) + (if FinalLevel(init, s.code, -1) != s.level then [SetLevel(s.code, s.level)] else [])
  }

  lemma {:induction false} LevelWritesAppend(a: seq<ControlCmd>, b: seq<ControlCmd>)
    ensures LevelWrites(a + b) == LevelWrites(a) + LevelWrites(b)
    decreases |b|
  {
    if |b| == 0 {
      assert a + b == a;
    } else {
      var front := b[..|b| - 1];
      assert (a + b)[..|a + b| - 1] == a + front;
      LevelWritesAppend(a, front);
    }
  }

  /** The reference level after one more sample. */
  lemma {:induction false} FinalLevelSnoc(pre: seq<Sample>, s: Sample, code: Byte, dflt: int)
    ensures FinalLevel(pre + [s], code, dflt) == (if s.code == code then s.level else FinalLevel(pre, code, dflt))
    decreases |pre|
  {
    if |pre| == 0 {
      assert [] + [s] == [s];
    } else {
      assert (pre + [s])[1..] == pre[1..] + [s];
      FinalLevelSnoc(pre[1..], s, code, if pre[0].code == code then pre[0].level else dflt);
    }
  }

  /** Emission after the samples `pre`, with `prev` holding their final
      levels, writes exactly the changes that follow `pre`. */
  lemma {:induction false} EmitWritesChanges(pre: seq<Sample>, rest: seq<Sample>, prev: map<Byte, int>, lastTick: int)
    requires forall code: Byte :: PrevLevel(prev, code) == FinalLevel(pre, code, -1)
    ensures Changes(pre + rest) == Changes(pre) + LevelWrites(EmitFrom(rest, prev, lastTick).0)
    decreases |rest|
  {
    if |rest| == 0 {
      assert pre + rest == pre;
      assert LevelWrites([]) == [];
    } else {
      var s := rest[0];
      var prev' := prev[s.code := s.level];
      PrevStep(pre, s, prev);
      ChangesStep(pre, s);
      assert (pre + [s]) + rest[1..] == pre + rest;
      var written := PrevLevel(prev, s.code) != s.level;
      var lt' := if written then s.ticks else lastTick;
      EmitWritesChanges(pre + [s], rest[1..], prev', lt');
      EmitStepWrites(rest, prev, lastTick);
      var change := if written then [SetLevel(s.code, s.level)] else [];
      var tail := LevelWrites(EmitFrom(rest[1..], prev', lt').0);
      assert Changes(pre + rest) == (Changes(pre) + change) + tail;
      assert LevelWrites(EmitFrom(rest, prev, lastTick).0) == change + tail;
      AppendAssoc(Changes(pre), change, tail);
    }
  }

  /** The opcode levels after one more sample. */
  lemma PrevStep(pre: seq<Sample>, s: Sample, prev: map<Byte, int>)
    requires forall code: Byte :: PrevLevel(prev, code) == FinalLevel(pre, code, -1)
    ensures forall code: Byte :: PrevLevel(prev[s.code := s.level], code) == FinalLevel(pre + [s], code, -1)
  {
    forall code: Byte ensures PrevLevel(prev[s.code := s.level], code) == FinalLevel(pre + [s], code, -1) {
      FinalLevelSnoc(pre, s, code, -1);
    }
  }

  /** The reference after one more sample. */
  lemma ChangesStep(pre: seq<Sample>, s: Sample)
    ensures Changes(pre + [s]) == Changes(pre) + (if FinalLevel(pre, s.code, -1) != s.level then [SetLevel(s.code, s.level)] else [])
  {
    assert (pre + [s])[..|pre|] == pre;
  }

  /** The level writes of one step of the emission loop. */
  lemma EmitStepWrites(rest: seq<Sample>, prev: map<Byte, int>, lastTick: int)
    requires |rest| > 0
    ensures var s := rest[0];
            var written := PrevLevel(prev, s.code) != s.level;
            LevelWrites(EmitFrom(rest, prev, lastTick).0)
            == (if written then [SetLevel(s.code, s.level)] else [])
               + LevelWrites(EmitFrom(rest[1..], prev[s.code := s.level], if written then s.ticks else lastTick).0)
  {
    var s := rest[0];
    if PrevLevel(prev, s.code) != s.level {
      var here := (if s.ticks != lastTick then [Wait(s.ticks - lastTick)] else []) + [SetLevel(s.code, s.level)];
      var tail := EmitFrom(rest[1..], prev[s.code := s.level], s.ticks).0;
      assert EmitFrom(rest, prev, lastTick).0 == here + tail;
      LevelWritesAppend(here, tail);
      HereWrites(s, lastTick);
    }
  }

  /** One write's commands hold one level change. */
  lemma HereWrites(s: Sample, lastTick: int)
    ensures LevelWrites((if s.ticks != lastTick then [Wait(s.ticks - lastTick)] else []) + [SetLevel(s.code, s.level)])
            == [SetLevel(s.code, s.level)]
  {
    var w := if s.ticks != lastTick then [Wait(s.ticks - lastTick)] else [];
    LevelWritesAppend(w, [SetLevel(s.code, s.level)]);
    assert LevelWrites([SetLevel(s.code, s.level)]) == [SetLevel(s.code, s.level)] by {
      assert [SetLevel(s.code, s.level)][..0] == [];
    }
    if s.ticks != lastTick {
      assert w[..0] == [];
    }
  }

  /** A controller section never sets a parameter to the level it already
      holds, leaves each opcode at the level of its last sample, and writes
      every sample whose level differs from its opcode's level so far, in
      sample order. */
  lemma ControlLevels(samples: seq<Sample>, total: int)
    ensures NoRedundantSets(ControlCommands(samples, total))
    ensures forall code: Byte :: LastLevel(ControlCommands(samples, total), code) == FinalLevel(samples, code, -1)
    ensures LevelWrites(ControlCommands(samples, total)) == Changes(samples)
  {
    ControlWritesChanges(samples, total);
    var (body, last) := EmitFrom(samples, map[], 0);
    assert Tracks([], map[]);
    EmitTracksLevels(samples, map[], 0, []);
    assert [] + body == body;
    var tail := if last != total then [Wait(total - last)] else [];
    var mid := body + tail;
    if last != total {
      NoRedundantAppendOther(body, Wait(total - last));
      forall code: Byte ensures LastLevel(mid, code) == LastLevel(body, code) {
        LastLevelAppendOther(body, Wait(total - last), code);
      }
    } else {
      assert mid == body;
    }
    NoRedundantAppendOther(mid, EndTrack);
    forall code: Byte ensures LastLevel(mid + [EndTrack], code) == LastLevel(mid, code) {
      LastLevelAppendOther(mid, EndTrack, code);
    }
  }

  lemma ControlWritesChanges(samples: seq<Sample>, total: int)
    ensures LevelWrites(ControlCommands(samples, total)) == Changes(samples)
  {
    var r := EmitFrom(samples, map[], 0);
    EmitWritesChanges([], samples, map[], 0);
    assert [] + samples == samples;
    ClosedWrites(r.0, r.1, total);
  }

  /** Closing a section adds no level write. */
  lemma ClosedWrites(body: seq<ControlCmd>, last: int, total: int)
    ensures LevelWrites(body + (if last != total then [Wait(total - last)] else []) + [EndTrack]) == LevelWrites(body)
  {
    var closing := (if last != total then [Wait(total - last)] else []) + [EndTrack];
    assert body + (if last != total then [Wait(total - last)] else []) + [EndTrack] == body + closing;
    LevelWritesAppend(body, closing);
    ClosingWrites(last, total);
    assert LevelWrites(body) + [] == LevelWrites(body);
  }

  /** The closing delay and `FF` write no level. */
  lemma ClosingWrites(last: int, total: int)
    ensures LevelWrites((if last != total then [Wait(total - last)] else []) + [EndTrack]) == []
  {
    LevelWritesAppend(if last != total then [Wait(total - last)] else [], [EndTrack]);
    assert [EndTrack][..0] == [];
    if last != total {
      assert [Wait(total - last)][..0] == [];
    }
  }

  // ---------------------------------------------------------------------------
  // Timing of the level writes

  /** A level change as a player hears it: when, which opcode, which level. */
  datatype Write = Write(tick: int, code: Byte, level: int)

  /** Plays `cmds` from tick `now`: each level change at the tick the delays
      before it have reached. */
  function Played(cmds: seq<ControlCmd>, now: int): seq<Write> {
    if |cmds| == 0 then []
    else
      match cmds[0]
      case Wait(d) => Played(cmds[1..], now + d)
      case SetLevel(code, level) => [Write(now, code, level)] + Played(cmds[1..], now)
      case EndTrack => Played(cmds[1..], now)
  }

  /** The tick reached after playing `cmds` from `now`. */
  function Clock(cmds: seq<ControlCmd>, now: int): int {
    if |cmds| == 0 then now
    else Clock(cmds[1..], now + (if cmds[0].Wait? then cmds[0].delta else 0))
  }

  /** Playing two lists back to back: the second starts where the first ends. */
  lemma {:induction false} PlayedAppend(a: seq<ControlCmd>, b: seq<ControlCmd>, now: int)
    ensures Played(a + b, now) == Played(a, now) + Played(b, Clock(a, now))
    decreases |a|
  {
    if |a| == 0 {
      assert a + b == b;
    } else {
      assert (a + b)[0] == a[0];
      assert (a + b)[1..] == a[1..] + b;
      var next := now + (if a[0].Wait? then a[0].delta else 0);
      PlayedAppend(a[1..], b, next);
      if a[0].SetLevel? {
        AppendAssoc([Write(now, a[0].code, a[0].level)], Played(a[1..], now), Played(b, Clock(a[1..], now)));
      }
    }
  }

  /** Reference: the writes of Changes, each at the tick of its own sample. */
  function ChangeTimes(samples: seq<Sample>): seq<Write> {
    if |samples| == 0 then []
    else
      var init, s := samples[..|samples| - 1], samples[|samples| - 1];
      ChangeTimes(init) + (if FinalLevel(init, s.code, -1) != s.level then [Write(s.ticks, s.code, s.level)] else [])
  }

  lemma ChangeTimesStep(pre: seq<Sample>, s: Sample)
    ensures ChangeTimes(pre + [s]) == ChangeTimes(pre) + (if FinalLevel(pre, s.code, -1) != s.level then [Write(s.ticks, s.code, s.level)] else [])
  {
    assert (pre + [s])[..|pre|] == pre;
  }

  /** One write, with its delay when the tick moved, sounds at its sample's
      tick and leaves the clock there. */
  lemma HerePlayed(s: Sample, lastTick: int)
    ensures var here := (if s.ticks != lastTick then [Wait(s.ticks - lastTick)] else []) + [SetLevel(s.code, s.level)];
            Played(here, lastTick) == [Write(s.ticks, s.code, s.level)] && Clock(here, lastTick) == s.ticks
  {
    var here := (if s.ticks != lastTick then [Wait(s.ticks - lastTick)] else []) + [SetLevel(s.code, s.level)];
    var write := [SetLevel(s.code, s.level)];
    assert write[1..] == [];
    assert Played(write, s.ticks) == [Write(s.ticks, s.code, s.level)];
    assert Clock(write, s.ticks) == s.ticks;
    if s.ticks != lastTick {
      assert here[1..] == write;
    }
  }

  /** The played writes of one step of the emission loop. */
  lemma EmitStepPlayed(rest: seq<Sample>, prev: map<Byte, int>, lastTick: int)
    requires |rest| > 0
    ensures var s := rest[0];
            var written := PrevLevel(prev, s.code) != s.level;
            var lt := if written then s.ticks else lastTick;
            Played(EmitFrom(rest, prev, lastTick).0, lastTick)
            == (if written then [Write(s.ticks, s.code, s.level)] else [])
               + Played(EmitFrom(rest[1..], prev[s.code := s.level], lt).0, lt)
  {
    var s := rest[0];
    if PrevLevel(prev, s.code) != s.level {
      var here := (if s.ticks != lastTick then [Wait(s.ticks - lastTick)] else []) + [SetLevel(s.code, s.level)];
      var tail := EmitFrom(rest[1..], prev[s.code := s.level], s.ticks).0;
      assert EmitFrom(rest, prev, lastTick).0 == here + tail;
      PlayedAppend(here, tail, lastTick);
      HerePlayed(s, lastTick);
    }
  }

  /** Emission after the samples `pre` plays exactly the timed changes that
      follow `pre`, each at its own sample's tick. */
  lemma {:induction false} EmitPlayedChanges(pre: seq<Sample>, rest: seq<Sample>, prev: map<Byte, int>, lastTick: int)
    requires forall code: Byte :: PrevLevel(prev, code) == FinalLevel(pre, code, -1)
    ensures ChangeTimes(pre + rest) == ChangeTimes(pre) + Played(EmitFrom(rest, prev, lastTick).0, lastTick)
    decreases |rest|
  {
    if |rest| == 0 {
      assert pre + rest == pre;
    } else {
      var s := rest[0];
      var prev' := prev[s.code := s.level];
      PrevStep(pre, s, prev);
      ChangeTimesStep(pre, s);
      assert (pre + [s]) + rest[1..] == pre + rest;
      var written := PrevLevel(prev, s.code) != s.level;
      var lt' := if written then s.ticks else lastTick;
      EmitPlayedChanges(pre + [s], rest[1..], prev', lt');
      EmitStepPlayed(rest, prev, lastTick);
      var change := if written then [Write(s.ticks, s.code, s.level)] else [];
      var tail := Played(EmitFrom(rest[1..], prev', lt').0, lt');
      assert ChangeTimes(pre + rest) == (ChangeTimes(pre) + change) + tail;
      assert Played(EmitFrom(rest, prev, lastTick).0, lastTick) == change + tail;
      AppendAssoc(ChangeTimes(pre), change, tail);
    }
  }

  /** Played from tick 0, a controller section sets every changed level at
      the tick of the sample that carries it: the writes and their timing are
      exactly ChangeTimes. */
  lemma ControlPlayed(samples: seq<Sample>, total: int)
    ensures Played(ControlCommands(samples, total), 0) == ChangeTimes(samples)
  {
    var r := EmitFrom(samples, map[], 0);
    EmitPlayedChanges([], samples, map[], 0);
    assert [] + samples == samples;
    ClosedPlayed(r.0, r.1, total);
  }

  /** Closing a section plays no level write. */
  lemma ClosedPlayed(body: seq<ControlCmd>, last: int, total: int)
    ensures Played(body + (if last != total then [Wait(total - last)] else []) + [EndTrack], 0) == Played(body, 0)
  {
    var closing := (if last != total then [Wait(total - last)] else []) + [EndTrack];
    assert body + (if last != total then [Wait(total - last)] else []) + [EndTrack] == body + closing;
    PlayedAppend(body, closing, 0);
    var end := [EndTrack];
    assert end[1..] == [];
    assert forall now :: Played(end, now) == [];
    if last != total {
      assert closing[1..] == end;
    }
    assert Played(body, 0) + [] == Played(body, 0);
  }

  // ---------------------------------------------------------------------------
  // Delays

  /** The sum of all delays. */
  function SumWaits(cmds: seq<ControlCmd>): int {
    if |cmds| == 0 then 0
    else SumWaits(cmds[..|cmds| - 1]) + (if cmds[|cmds| - 1].Wait? then cmds[|cmds| - 1].delta else 0)
  }

  ghost predicate PositiveWaits(cmds: seq<ControlCmd>) {
    forall k :: 0 <= k < |cmds| && cmds[k].Wait? ==> cmds[k].delta > 0
  }

  lemma SumWaitsAppend(cmds: seq<ControlCmd>, c: ControlCmd)
    ensures SumWaits(cmds + [c]) == SumWaits(cmds) + (if c.Wait? then c.delta else 0)
  {
    assert (cmds + [c])[..|cmds|] == cmds;
  }

  lemma WaitsAppend(cmds: seq<ControlCmd>, c: ControlCmd)
    requires PositiveWaits(cmds) && (c.Wait? ==> c.delta > 0)
    ensures PositiveWaits(cmds + [c])
    ensures SumWaits(cmds + [c]) == SumWaits(cmds) + (if c.Wait? then c.delta else 0)
  {
    SumWaitsAppend(cmds, c);
  }

  ghost predicate SortedTicks(samples: seq<Sample>) {
    forall i, j :: 0 <= i < j < |samples| ==> samples[i].ticks <= samples[j].ticks
  }

  /** On sorted samples the delays are positive and add up to the tick of
      the last write, which stays within the samples' range. */
  lemma {:induction false} EmitWaits(samples: seq<Sample>, prev: map<Byte, int>, lastTick: int, hi: int, acc: seq<ControlCmd>)
    requires SortedTicks(samples)
    requires forall i :: 0 <= i < |samples| ==> lastTick <= samples[i].ticks <= hi
    requires lastTick <= hi
    requires PositiveWaits(acc) && SumWaits(acc) == lastTick
    ensures var (body, last) := EmitFrom(samples, prev, lastTick);
            && PositiveWaits(acc + body)
            && SumWaits(acc + body) == last
            && lastTick <= last <= hi
    decreases |samples|
  {
    if |samples| == 0 {
      assert acc + [] == acc;
    } else if PrevLevel(prev, samples[0].code) != samples[0].level {
      EmitWaitsWrite(samples, prev, lastTick, hi, acc);
    } else {
      SortedTail(samples, lastTick, hi);
      EmitWaits(samples[1..], prev[samples[0].code := samples[0].level], lastTick, hi, acc);
    }
  }

  lemma {:induction false} EmitWaitsWrite(samples: seq<Sample>, prev: map<Byte, int>, lastTick: int, hi: int, acc: seq<ControlCmd>)
    requires |samples| > 0 && PrevLevel(prev, samples[0].code) != samples[0].level
    requires SortedTicks(samples)
    requires forall i :: 0 <= i < |samples| ==> lastTick <= samples[i].ticks <= hi
    requires lastTick <= hi
    requires PositiveWaits(acc) && SumWaits(acc) == lastTick
    ensures var (body, last) := EmitFrom(samples, prev, lastTick);
            && PositiveWaits(acc + body)
            && SumWaits(acc + body) == last
            && lastTick <= last <= hi
    decreases |samples|, 0
  {
    var s := samples[0];
    var prev' := prev[s.code := s.level];
    var here := (if s.ticks != lastTick then [Wait(s.ticks - lastTick)] else []) + [SetLevel(s.code, s.level)];
    AppendWrite(acc, lastTick, s);
    SortedTail(samples, s.ticks, hi);
    EmitWaits(samples[1..], prev', s.ticks, hi, acc + here);
    EmitWriteUnfold(samples, prev, lastTick, acc);
    assert EmitFrom(samples, prev, lastTick).1 == EmitFrom(samples[1..], prev', s.ticks).1;
  }

  /** The samples after the first stay sorted and within the same bounds. */
  lemma SortedTail(samples: seq<Sample>, lo: int, hi: int)
    requires |samples| > 0 && SortedTicks(samples)
    requires forall i :: 0 <= i < |samples| ==> samples[0].ticks <= samples[i].ticks <= hi
    requires lo <= samples[0].ticks
    ensures SortedTicks(samples[1..])
    ensures forall i :: 0 <= i < |samples| - 1 ==> lo <= samples[1..][i].ticks <= hi
  {
  }

  /** One write, with its delay when the tick moved, keeps the delays
      positive and their sum at the tick of the last write. */
  lemma AppendWrite(acc: seq<ControlCmd>, lastTick: int, s: Sample)
    requires lastTick <= s.ticks
    requires PositiveWaits(acc) && SumWaits(acc) == lastTick
    ensures var here := (if s.ticks != lastTick then [Wait(s.ticks - lastTick)] else []) + [SetLevel(s.code, s.level)];
            PositiveWaits(acc + here) && SumWaits(acc + here) == s.ticks
  {
    var mid := if s.ticks != lastTick then acc + [Wait(s.ticks - lastTick)] else acc;
    if s.ticks != lastTick {
      SumWaitsAppend(acc, Wait(s.ticks - lastTick));
    }
    SumWaitsAppend(mid, SetLevel(s.code, s.level));
    var here := (if s.ticks != lastTick then [Wait(s.ticks - lastTick)] else []) + [SetLevel(s.code, s.level)];
    assert acc + here == mid + [SetLevel(s.code, s.level)];
  }

  /** Closing a body whose delays reach `last` with a delay up to `total`
      and the end marker. */
  lemma ClosedWaits(body: seq<ControlCmd>, last: int, total: int)
    requires PositiveWaits(body) && SumWaits(body) == last <= total
    ensures var cmds := body + (if last != total then [Wait(total - last)] else []) + [EndTrack];
            PositiveWaits(cmds) && SumWaits(cmds) == total
  {
    var mid := body + (if last != total then [Wait(total - last)] else []);
    if last != total {
      WaitsAppend(body, Wait(total - last));
    } else {
      assert mid == body;
    }
    WaitsAppend(mid, EndTrack);
  }

  /** For sorted samples within [0, total], every delay of the section is
      positive and together they span exactly `total` ticks. */
  lemma ControlWaits(samples: seq<Sample>, total: int)
    requires SortedTicks(samples)
    requires forall i :: 0 <= i < |samples| ==> 0 <= samples[i].ticks <= total
    requires 0 <= total
    ensures PositiveWaits(ControlCommands(samples, total))
    ensures SumWaits(ControlCommands(samples, total)) == total
  {
    var r := EmitFrom(samples, map[], 0);
    EmitWaits(samples, map[], 0, total, []);
    assert [] + r.0 == r.0;
    ClosedWaits(r.0, r.1, total);
  }

  // ---------------------------------------------------------------------------
  // The parameters of a track

  /** One of the five parameter slots: its bound source, its opcode, the
      default byte written when it is unbound, and the scaling of its levels. */
  datatype Slot = Slot(source: int, code: Byte, fallback: Byte, multiplier: real, offset: real)

  /** The slots in registration order: echo, fine pitch, pan, vibrato, volume.
      Fine pitch and vibrato levels scale with the sequence's ranges over 12
      semitones. */
  function Slots(s: Sequence, t: Track): (r: seq<Slot>)
    ensures |r| == 5
    ensures r[0].source == t.echoSource && r[1].source == t.pitchSource && r[2].source == t.panSource
    ensures r[3].source == t.vibratoSource && r[4].source == t.volumeSource
  {
    var fs := s.finePitchRange / 12.0;
    var vs := s.vibratoRange / 12.0;
    [ Slot(t.echoSource, 0xD4, 0x00, 255.0, 0.0),
      Slot(t.pitchSource, 0xD3, 0x00, 255.0 * fs, -128.0 * fs),
      Slot(t.panSource, 0xDD, 0x40, 126.0, 1.0),
      Slot(t.vibratoSource, 0xD8, 0x00, 255.0 * vs, 1.0),
      Slot(t.volumeSource, 0xDF, 0xC4, 128.0, 0.0) ]
  }

  /** A slot the encoder can handle: unbound, or bound to an existing source
      that has at least one sample. */
  predicate Usable(sources: seq<ControllerSource>, slot: Slot) {
    slot.source == NoSource || (0 <= slot.source < |sources| && |sources[slot.source].events| > 0)
  }

  /** The stream a bound slot registers. */
  function SlotStream(sources: seq<ControllerSource>, slots: seq<Slot>, i: nat): Stream
    requires i < |slots| && 0 <= slots[i].source < |sources|
  {
    Stream(i, slots[i].code, sources[slots[i].source], slots[i].multiplier, slots[i].offset, 0)
  }

  /** Walks the slots from `i`: an unbound slot writes its default pair, a
      bound one registers a stream. */
  function Prologue(sources: seq<ControllerSource>, slots: seq<Slot>, i: nat)
    : (r: Result<(seq<Byte>, seq<Stream>)>)
    requires i <= |slots|
    ensures r.Ok? <==> forall k :: i <= k < |slots| ==> Usable(sources, slots[k])
    ensures r.Ok? ==> |r.value.0| + 2 * |r.value.1| == 2 * (|slots| - i)
    ensures r.Ok? ==> AllLive(r.value.1) && RankOrdered(r.value.1)
    ensures r.Ok? ==> forall k :: 0 <= k < |r.value.1| ==>
              && i <= r.value.1[k].rank < |slots|
              && 0 <= slots[r.value.1[k].rank].source < |sources|
              && r.value.1[k] == SlotStream(sources, slots, r.value.1[k].rank)
    decreases |slots| - i
  {
    if i == |slots| then Ok(([], []))
    else
      var slot := slots[i];
      if slot.source == NoSource then
        var rest :- Prologue(sources, slots, i + 1);
        Ok(([slot.code, slot.fallback] + rest.0, rest.1))
      else if !(0 <= slot.source < |sources|) then Fail(BadSourceIndex(slot.source))
      else if |sources[slot.source].events| == 0 then Fail(EmptySource(slot.source))
      else
        var rest :- Prologue(sources, slots, i + 1);
        Ok((rest.0, [SlotStream(sources, slots, i)] + rest.1))
  }

  /** The defaults and command list of a track's controller section. */
  function TrackControl(s: Sequence, t: Track): (r: Result<(seq<Byte>, seq<ControlCmd>)>)
    ensures r.Ok? <==> forall k :: 0 <= k < 5 ==> Usable(s.sources, Slots(s, t)[k])
  {
    var (defaults, streams) :- Prologue(s.sources, Slots(s, t), 0);
    Ok((defaults, ControlCommands(Merge(streams), s.totalTicks)))
  }

  /** For a track whose bound sources are sorted and lie within
      [0, totalTicks], the section's delays are positive and span the whole
      sequence, and no parameter is set twice to the same level in a row. */
  lemma TrackControlTiming(s: Sequence, t: Track)
    requires TrackControl(s, t).Ok?
    requires 0 <= s.totalTicks
    requires forall i :: 0 <= i < |s.sources| ==> Nondecreasing(EventTicks(s.sources[i].events))
    requires forall i, k :: 0 <= i < |s.sources| && 0 <= k < |s.sources[i].events| ==>
               0 <= s.sources[i].events[k].ticks <= s.totalTicks
    ensures PositiveWaits(TrackControl(s, t).value.1)
    ensures SumWaits(TrackControl(s, t).value.1) == s.totalTicks
    ensures NoRedundantSets(TrackControl(s, t).value.1)
  {
    var streams := Prologue(s.sources, Slots(s, t), 0).value.1;
    assert SortedSources(streams);
    assert TicksWithin(streams, 0, s.totalTicks);
    var samples := Merge(streams);
    MergeTicksSorted(streams);
    MergeWithin(streams, 0, s.totalTicks);
    ControlWaits(samples, s.totalTicks);
    ControlLevels(samples, s.totalTicks);
  }

  // ---------------------------------------------------------------------------
  // Decoding a track's controller section

  /** The opcodes of the five parameter slots. */
  const ParamCodes: set<Byte> := {0xD4, 0xD3, 0xDD, 0xD8, 0xDF}

  /** Every level write of `cmds` uses one of `codes`. */
  ghost predicate WritesWithin(cmds: seq<ControlCmd>, codes: set<Byte>) {
    forall k :: 0 <= k < |cmds| && cmds[k].SetLevel? ==> cmds[k].code in codes
  }

  /** Every level write of the emitted body carries a sample's opcode. */
  lemma {:induction false} EmitCodes(samples: seq<Sample>, prev: map<Byte, int>, lastTick: int, codes: set<Byte>)
    requires forall i :: 0 <= i < |samples| ==> samples[i].code in codes
    ensures WritesWithin(EmitFrom(samples, prev, lastTick).0, codes)
    decreases |samples|
  {
    if |samples| > 0 {
      var s := samples[0];
      var prev' := prev[s.code := s.level];
      assert forall i :: 0 <= i < |samples| - 1 ==> samples[1..][i] == samples[i + 1];
      if PrevLevel(prev, s.code) != s.level {
        var here := (if s.ticks != lastTick then [Wait(s.ticks - lastTick)] else []) + [SetLevel(s.code, s.level)];
        var rest := EmitFrom(samples[1..], prev', s.ticks).0;
        EmitCodes(samples[1..], prev', s.ticks, codes);
        var body := here + rest;
        assert EmitFrom(samples, prev, lastTick).0 == body;
        assert s.code in codes;
        forall k | 0 <= k < |body| && body[k].SetLevel? ensures body[k].code in codes {
          if k >= |here| {
            var j := k - |here|;
            assert body[k] == rest[j];
            assert 0 <= j < |rest| && rest[j].SetLevel?;
          } else if s.ticks != lastTick {
            assert here == [Wait(s.ticks - lastTick), SetLevel(s.code, s.level)];
          } else {
            assert here == [SetLevel(s.code, s.level)];
          }
        }
      } else {
        EmitCodes(samples[1..], prev', lastTick, codes);
        assert EmitFrom(samples, prev, lastTick).0 == EmitFrom(samples[1..], prev', lastTick).0;
      }
    }
  }

  /** Every level write of a section carries a sample's opcode. */
  lemma ControlCodes(samples: seq<Sample>, total: int, codes: set<Byte>)
    requires forall i :: 0 <= i < |samples| ==> samples[i].code in codes
    ensures WritesWithin(ControlCommands(samples, total), codes)
  {
    var emitted := EmitFrom(samples, map[], 0);
    var body, last := emitted.0, emitted.1;
    EmitCodes(samples, map[], 0, codes);
    var closing := (if last != total then [Wait(total - last)] else []) + [EndTrack];
    var cmds := body + closing;
    assert ControlCommands(samples, total) == cmds;
    forall k | 0 <= k < |cmds| && cmds[k].SetLevel? ensures cmds[k].code in codes {
      if k < |body| {
        assert cmds[k] == body[k] && body[k].SetLevel?;
      }
    }
  }

  /** With positive delays, no single delay exceeds their sum. */
  lemma {:induction false} WaitsWithinSum(cmds: seq<ControlCmd>)
    requires PositiveWaits(cmds)
    ensures SumWaits(cmds) >= 0
    ensures forall k :: 0 <= k < |cmds| && cmds[k].Wait? ==> cmds[k].delta <= SumWaits(cmds)
    decreases |cmds|
  {
    if |cmds| > 0 {
      var front := cmds[..|cmds| - 1];
      assert forall k :: 0 <= k < |front| ==> front[k] == cmds[k];
      WaitsWithinSum(front);
    }
  }

  /** For a track whose bound sources are sorted and lie within
      [0, totalTicks], with the whole sequence shorter than 0x8000 ticks, the
      controller section is decodable and reads back, wherever it sits, as its
      commands with every level reduced to its byte. */
  lemma ControlSectionDecodes(s: Sequence, t: Track, pre: seq<Byte>, post: seq<Byte>)
    requires TrackControl(s, t).Ok?
    requires 0 <= s.totalTicks < 0x8000
    requires forall i :: 0 <= i < |s.sources| ==> Nondecreasing(EventTicks(s.sources[i].events))
    requires forall i, k :: 0 <= i < |s.sources| && 0 <= k < |s.sources[i].events| ==>
               0 <= s.sources[i].events[k].ticks <= s.totalTicks
    ensures Decodable(TrackControl(s, t).value.1)
    ensures var cmds := TrackControl(s, t).value.1;
            DecodeCmds(pre + EncodeCmds(cmds) + post, |pre|) == Some(AsBytes(cmds))
  {
    TrackControlTiming(s, t);
    var cmds := TrackControl(s, t).value.1;
    WaitsWithinSum(cmds);
    TrackControlCodes(s, t);
    DecodableByParts(cmds, ParamCodes, s.totalTicks);
    ControlRoundTrip(pre, cmds, post);
  }

  /** The conditions of Decodable, gathered from the facts the lemmas above
      establish: the end marker only at the end, delays within [0, hi] below
      0x8000, and level opcodes drawn from a set without FD and FF. */
  lemma DecodableByParts(cmds: seq<ControlCmd>, codes: set<Byte>, hi: int)
    requires |cmds| > 0 && cmds[|cmds| - 1] == EndTrack
    requires forall k :: 0 <= k < |cmds| - 1 ==> !cmds[k].EndTrack?
    requires forall k :: 0 <= k < |cmds| && cmds[k].Wait? ==> 0 <= cmds[k].delta <= hi
    requires hi < 0x8000
    requires WritesWithin(cmds, codes) && WaitOp !in codes && EndOp !in codes
    ensures Decodable(cmds)
  {
  }

  /** A track's controller section writes only the five parameter opcodes. */
  lemma TrackControlCodes(s: Sequence, t: Track)
    requires TrackControl(s, t).Ok?
    ensures WritesWithin(TrackControl(s, t).value.1, ParamCodes)
  {
    var slots := Slots(s, t);
    var streams := Prologue(s.sources, slots, 0).value.1;
    assert forall i :: 0 <= i < 5 ==> slots[i].code in ParamCodes;
    assert CodesIn(streams, ParamCodes);
    MergeCodes(streams, ParamCodes);
    ControlCodes(Merge(streams), s.totalTicks, ParamCodes);
  }

  // ---------------------------------------------------------------------------
  // Tempo

  /** The tempo loop from sample `i`: a positive tick is preceded by a delay
      from the previous sample, and every sample writes `DD` with its value
      scaled to a byte. Returns the commands and whether a delay was written. */
  function TempoFrom(src: ControllerSource, i: nat, lastTick: int, delayed: bool): (r: (seq<ControlCmd>, bool))
    requires i <= |src.events|
    decreases |src.events| - i
  {
    if i == |src.events| then ([], delayed)
    else
      var tick := src.events[i].ticks;
      var here := (if tick > 0 then [Wait(tick - lastTick)] else []) + [SetLevel(0xDD, TempoLevel(src, i))];
      var rest := TempoFrom(src, i + 1, tick, delayed || tick > 0);
      (here + rest.0, rest.1)
  }

  /** The tempo byte of sample `i`: its value scaled to [0,255] and truncated. */
  function TempoLevel(src: ControllerSource, i: nat): (level: int)
    requires i < |src.events|
    ensures 0 <= level <= 255
  {
    Trunc(Get(src, i) * 255.0)
  }

  function CountSets(cmds: seq<ControlCmd>): nat {
    if |cmds| == 0 then 0 else CountSets(cmds[..|cmds| - 1]) + (if cmds[|cmds| - 1].SetLevel? then 1 else 0)
  }

  lemma CountSetsAppend(a: seq<ControlCmd>, b: seq<ControlCmd>)
    ensures CountSets(a + b) == CountSets(a) + CountSets(b)
    ensures SumWaits(a + b) == SumWaits(a) + SumWaits(b)
    decreases |b|
  {
    if |b| > 0 {
      var front := b[..|b| - 1];
      assert (a + b)[..|a + b| - 1] == a + front;
      CountSetsAppend(a, front);
    } else {
      assert a + b == a;
    }
  }

  /** One tempo sample's commands: one `DD`, after a delay from the previous
      sample when the sample is after tick 0. */
  lemma TempoSample(tick: int, lastTick: int, level: int)
    ensures var here := (if tick > 0 then [Wait(tick - lastTick)] else []) + [SetLevel(0xDD, level)];
            CountSets(here) == 1 && SumWaits(here) == (if tick > 0 then tick - lastTick else 0)
  {
    CountSetsAppend(if tick > 0 then [Wait(tick - lastTick)] else [], [SetLevel(0xDD, level)]);
  }

  /** One tempo sample: one `DD`, its delay, and the rest of the stream. */
  lemma TempoFromUnfold(src: ControllerSource, i: nat, lastTick: int, delayed: bool)
    requires i < |src.events|
    ensures var tick := src.events[i].ticks;
            var rest := TempoFrom(src, i + 1, tick, delayed || tick > 0);
            var r := TempoFrom(src, i, lastTick, delayed);
            && CountSets(r.0) == 1 + CountSets(rest.0)
            && SumWaits(r.0) == (if tick > 0 then tick - lastTick else 0) + SumWaits(rest.0)
            && r.1 == rest.1
  {
    var tick := src.events[i].ticks;
    var level := TempoLevel(src, i);
    var here := (if tick > 0 then [Wait(tick - lastTick)] else []) + [SetLevel(0xDD, level)];
    var rest := TempoFrom(src, i + 1, tick, delayed || tick > 0);
    assert TempoFrom(src, i, lastTick, delayed) == (here + rest.0, rest.1);
    TempoSample(tick, lastTick, level);
    CountSetsAppend(here, rest.0);
  }

  lemma SortedUpToLast(evs: seq<ControllerEvent>, i: nat)
    requires i < |evs| && Nondecreasing(EventTicks(evs))
    ensures evs[i].ticks <= evs[|evs| - 1].ticks
  {
    assert EventTicks(evs)[i] <= EventTicks(evs)[|evs| - 1];
  }

  /** Each tempo sample writes one `DD`; on a sorted non-negative curve the
      delays telescope to the last sample's tick, or to nothing when every
      sample sits at tick 0. */
  lemma {:induction false} TempoFromSpan(src: ControllerSource, i: nat, lastTick: int, delayed: bool)
    requires i <= |src.events|
    requires Nondecreasing(EventTicks(src.events))
    requires forall k :: 0 <= k < |src.events| ==> src.events[k].ticks >= 0
    requires 0 <= lastTick && (i < |src.events| ==> lastTick <= src.events[i].ticks)
    ensures var (cmds, d) := TempoFrom(src, i, lastTick, delayed);
            var n := |src.events|;
            && CountSets(cmds) == n - i
            && SumWaits(cmds) == (if i < n && src.events[n - 1].ticks > 0 then src.events[n - 1].ticks - lastTick else 0)
            && d == (delayed || (i < n && src.events[n - 1].ticks > 0))
    decreases |src.events| - i
  {
    if i < |src.events| {
      var tick := src.events[i].ticks;
      TempoFromUnfold(src, i, lastTick, delayed);
      TempoFromSpan(src, i + 1, tick, delayed || tick > 0);
      SortedUpToLast(src.events, i);
    }
  }

  /** The sequence's tempo stream: a fixed tempo `0x78` lasting the whole
      sequence when no tempo source is bound; otherwise the source's samples,
      with a closing delay of the whole sequence when no sample was after
      tick 0. */
  function TempoCommands(s: Sequence): (r: Result<seq<ControlCmd>>)
    ensures s.tempoSource == NoSource ==> r == Ok([SetLevel(0xDD, 0x78), Wait(s.totalTicks), EndTrack])
    ensures !ValidBinding(s.sources, s.tempoSource) ==> r == Fail(BadSourceIndex(s.tempoSource))
    ensures r.Ok? ==> |r.value| > 0 && r.value[|r.value| - 1] == EndTrack
  {
    if s.tempoSource == NoSource then Ok([SetLevel(0xDD, 0x78), Wait(s.totalTicks), EndTrack])
    else if !(0 <= s.tempoSource < |s.sources|) then Fail(BadSourceIndex(s.tempoSource))
    else
      var (body, delayed) := TempoFrom(s.sources[s.tempoSource], 0, 0, false);
      Ok(body + (if !delayed then [Wait(s.totalTicks)] else []) + [EndTrack])
  }

  /** With a bound, sorted, non-negative tempo curve, the stream writes one
      tempo per sample and lasts until its last sample, or the whole sequence
      when every sample is at tick 0. */
  lemma TempoSpan(s: Sequence)
    requires 0 <= s.tempoSource < |s.sources|
    requires Nondecreasing(EventTicks(s.sources[s.tempoSource].events))
    requires forall k :: 0 <= k < |s.sources[s.tempoSource].events| ==> s.sources[s.tempoSource].events[k].ticks >= 0
    ensures var evs := s.sources[s.tempoSource].events;
            var cmds := TempoCommands(s).value;
            && CountSets(cmds) == |evs|
            && SumWaits(cmds) == (if |evs| > 0 && evs[|evs| - 1].ticks > 0 then evs[|evs| - 1].ticks else s.totalTicks)
  {
    var src := s.sources[s.tempoSource];
    var (body, delayed) := TempoFrom(src, 0, 0, false);
    TempoFromSpan(src, 0, 0, false);
    var closing := if !delayed then [Wait(s.totalTicks)] else [];
    assert TempoCommands(s) == Ok(body + closing + [EndTrack]);
    CountSetsAppend(body + closing, [EndTrack]);
    CountSetsAppend(body, closing);
    assert CountSets(closing) == 0;
  }

  /** Reference: one tempo write per sample of the curve, at its tick. */
  function TempoSchedule(src: ControllerSource): (r: seq<Write>)
    ensures |r| == |src.events|
    ensures forall k :: 0 <= k < |src.events| ==> r[k] == Write(src.events[k].ticks, 0xDD, TempoLevel(src, k))
  {
    seq(|src.events|, k requires 0 <= k < |src.events| => Write(src.events[k].ticks, 0xDD, TempoLevel(src, k)))
  }

  /** The tempo loop from sample `i`, played from the previous sample's tick,
      writes the rest of the schedule. A sample at tick 0 gets no delay, which
      on a non-negative sorted curve means the clock is still at 0. */
  lemma {:induction false} TempoFromPlayed(src: ControllerSource, i: nat, lastTick: int, delayed: bool)
    requires i <= |src.events|
    requires Nondecreasing(EventTicks(src.events))
    requires forall k :: 0 <= k < |src.events| ==> src.events[k].ticks >= 0
    requires lastTick == (if i == 0 then 0 else src.events[i - 1].ticks)
    ensures Played(TempoFrom(src, i, lastTick, delayed).0, lastTick) == TempoSchedule(src)[i..]
    decreases |src.events| - i
  {
    if i < |src.events| {
      var tick := src.events[i].ticks;
      if i > 0 {
        assert EventTicks(src.events)[i - 1] <= EventTicks(src.events)[i];
      }
      var level := TempoLevel(src, i);
      var here := (if tick > 0 then [Wait(tick - lastTick)] else []) + [SetLevel(0xDD, level)];
      var rest := TempoFrom(src, i + 1, tick, delayed || tick > 0);
      assert TempoFrom(src, i, lastTick, delayed).0 == here + rest.0;
      PlayedAppend(here, rest.0, lastTick);
      TempoHerePlayed(tick, lastTick, level);
      TempoFromPlayed(src, i + 1, tick, delayed || tick > 0);
      ScheduleStep(src, i);
    }
  }

  lemma ScheduleStep(src: ControllerSource, i: nat)
    requires i < |src.events|
    ensures TempoSchedule(src)[i..] == [Write(src.events[i].ticks, 0xDD, TempoLevel(src, i))] + TempoSchedule(src)[i + 1..]
  {
    var sched := TempoSchedule(src);
    assert sched[i..] == [sched[i]] + sched[i + 1..];
  }

  /** One tempo sample sounds at its tick when the clock already stands there
      or a delay takes it there. */
  lemma TempoHerePlayed(tick: int, lastTick: int, level: int)
    requires tick > 0 || lastTick == tick
    ensures var here := (if tick > 0 then [Wait(tick - lastTick)] else []) + [SetLevel(0xDD, level)];
            Played(here, lastTick) == [Write(tick, 0xDD, level)] && Clock(here, lastTick) == tick
  {
    HerePlayed(Sample(0, 0xDD, tick, level), lastTick);
    var here := (if tick > 0 then [Wait(tick - lastTick)] else []) + [SetLevel(0xDD, level)];
    if tick > 0 && tick == lastTick {
      var write := [SetLevel(0xDD, level)];
      assert here[1..] == write && write[1..] == [];
    }
  }

  /** Played from tick 0, the tempo stream sets tempo `0x78` at tick 0 when no
      source is bound, and otherwise writes every sample of a sorted,
      non-negative curve at its own tick. */
  lemma TempoPlayed(s: Sequence)
    requires TempoCommands(s).Ok?
    requires s.tempoSource != NoSource ==>
               && Nondecreasing(EventTicks(s.sources[s.tempoSource].events))
               && forall k :: 0 <= k < |s.sources[s.tempoSource].events| ==> s.sources[s.tempoSource].events[k].ticks >= 0
    ensures s.tempoSource == NoSource ==> Played(TempoCommands(s).value, 0) == [Write(0, 0xDD, 0x78)]
    ensures s.tempoSource != NoSource ==> Played(TempoCommands(s).value, 0) == TempoSchedule(s.sources[s.tempoSource])
  {
    var end := [EndTrack];
    assert end[1..] == [];
    assert forall now :: Played(end, now) == [];
    if s.tempoSource == NoSource {
      var cmds := [SetLevel(0xDD, 0x78), Wait(s.totalTicks), EndTrack];
      assert cmds[1..][1..] == end;
      assert Played(cmds, 0) == [Write(0, 0xDD, 0x78)] + Played(cmds[1..], 0);
    } else {
      var src := s.sources[s.tempoSource];
      var (body, delayed) := TempoFrom(src, 0, 0, false);
      var closing := (if !delayed then [Wait(s.totalTicks)] else []) + end;
      assert TempoCommands(s).value == body + closing;
      PlayedAppend(body, closing, 0);
      if !delayed {
        assert closing[1..] == end;
      }
      TempoFromPlayed(src, 0, 0, false);
      assert TempoSchedule(src)[0..] == TempoSchedule(src);
      assert Played(body, 0) + [] == Played(body, 0);
    }
  }

  /** A stretch of a command list: levels only with `codes`, no end marker,
      and delays within [0, hi]. */
  ghost predicate Shaped(cmds: seq<ControlCmd>, codes: set<Byte>, hi: int) {
    && WritesWithin(cmds, codes)
    && (forall k :: 0 <= k < |cmds| ==> !cmds[k].EndTrack?)
    && (forall k :: 0 <= k < |cmds| && cmds[k].Wait? ==> 0 <= cmds[k].delta <= hi)
  }

  lemma ShapedAppend(a: seq<ControlCmd>, b: seq<ControlCmd>, codes: set<Byte>, hi: int)
    requires Shaped(a, codes, hi) && Shaped(b, codes, hi)
    ensures Shaped(a + b, codes, hi)
  {
    assert forall k :: |a| <= k < |a + b| ==> (a + b)[k] == b[k - |a|];
  }

  /** On a sorted curve within [0, hi], the tempo loop writes only `DD`,
      never the end marker, and delays between 0 and `hi`. */
  lemma {:induction false} TempoFromShape(src: ControllerSource, i: nat, lastTick: int, delayed: bool, hi: int)
    requires i <= |src.events|
    requires Nondecreasing(EventTicks(src.events))
    requires forall k :: 0 <= k < |src.events| ==> 0 <= src.events[k].ticks <= hi
    requires lastTick == (if i == 0 then 0 else src.events[i - 1].ticks)
    ensures Shaped(TempoFrom(src, i, lastTick, delayed).0, {0xDD}, hi)
    decreases |src.events| - i
  {
    if i < |src.events| {
      var tick := src.events[i].ticks;
      if i > 0 {
        assert EventTicks(src.events)[i - 1] <= EventTicks(src.events)[i];
      }
      var here := (if tick > 0 then [Wait(tick - lastTick)] else []) + [SetLevel(0xDD, TempoLevel(src, i))];
      var rest := TempoFrom(src, i + 1, tick, delayed || tick > 0).0;
      TempoFromShape(src, i + 1, tick, delayed || tick > 0, hi);
      assert TempoFrom(src, i, lastTick, delayed).0 == here + rest;
      assert Shaped(here, {0xDD}, hi) by {
        if tick > 0 {
          assert here == [Wait(tick - lastTick), SetLevel(0xDD, TempoLevel(src, i))];
        }
      }
      ShapedAppend(here, rest, {0xDD}, hi);
    }
  }

  /** When the sequence is shorter than 0x8000 ticks and a bound tempo curve
      is sorted within it, the tempo stream is decodable and reads back,
      wherever it sits, as its commands with every level reduced to its byte. */
  lemma TempoDecodes(s: Sequence, pre: seq<Byte>, post: seq<Byte>)
    requires TempoCommands(s).Ok?
    requires 0 <= s.totalTicks < 0x8000
    requires s.tempoSource != NoSource ==>
               && Nondecreasing(EventTicks(s.sources[s.tempoSource].events))
               && forall k :: 0 <= k < |s.sources[s.tempoSource].events| ==>
                    0 <= s.sources[s.tempoSource].events[k].ticks <= s.totalTicks
    ensures Decodable(TempoCommands(s).value)
    ensures var cmds := TempoCommands(s).value;
            DecodeCmds(pre + EncodeCmds(cmds) + post, |pre|) == Some(AsBytes(cmds))
  {
    var cmds := TempoCommands(s).value;
    if s.tempoSource != NoSource {
      var src := s.sources[s.tempoSource];
      var (body, delayed) := TempoFrom(src, 0, 0, false);
      TempoFromShape(src, 0, 0, false, s.totalTicks);
      var wait := if !delayed then [Wait(s.totalTicks)] else [];
      assert Shaped(wait, {0xDD}, s.totalTicks);
      ShapedAppend(body, wait, {0xDD}, s.totalTicks);
      assert cmds == (body + wait) + [EndTrack];
      assert forall k :: 0 <= k < |cmds| - 1 ==> cmds[k] == (body + wait)[k];
    }
    DecodableByParts(cmds, {0xDD}, s.totalTicks);
    ControlRoundTrip(pre, cmds, post);
  }
}
