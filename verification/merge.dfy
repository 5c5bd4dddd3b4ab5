/** The k-way merge of a track's bound controller curves (the EventStream
    loop of create_m64). Each stream walks one source with a cursor; at every
    step the stream whose pending sample has the smallest tick is taken (the
    first such stream on a tie), its sample is turned into an integer level,
    and a stream that runs out is removed from the list. */
module ControlMerge {
  import opened Bytes
  import opened SequenceModel

  /** A cursor over one bound source. `rank` is the stream's registration
      slot (0 echo, 1 fine pitch, 2 pan, 3 vibrato, 4 volume); `code` is the
      opcode written for its samples. */
  datatype Stream = Stream(
    rank: nat,
    code: Byte,
    src: ControllerSource,
    multiplier: real,
    offset: real,
    cursor: nat)

  /** One merged sample: where it came from, when, and its integer level. */
  datatype Sample = Sample(rank: nat, code: Byte, ticks: int, level: int)

  predicate Live(s: Stream) {
    s.cursor < |s.src.events|
  }

  predicate AllLive(ss: seq<Stream>) {
    forall k :: 0 <= k < |ss| ==> Live(ss[k])
  }

  /** The streams are listed in registration order. */
  ghost predicate RankOrdered(ss: seq<Stream>) {
    forall k, l :: 0 <= k < l < |ss| ==> ss[k].rank < ss[l].rank
  }

  /** Every stream's source is sorted by tick. */
  ghost predicate SortedSources(ss: seq<Stream>) {
    forall k :: 0 <= k < |ss| ==> Nondecreasing(EventTicks(ss[k].src.events))
  }

  /** The sample at position `i` of a stream's source: the post-processed
      value scaled by the stream's multiplier and offset, truncated. */
  function SampleAt(s: Stream, i: nat): Sample
    requires i < |s.src.events|
  {
    Sample(s.rank, s.code, s.src.events[i].ticks, Trunc(Get(s.src, i) * s.multiplier + s.offset))
  }

  function Head(s: Stream): Sample
    requires Live(s)
  {
    SampleAt(s, s.cursor)
  }

  /** The samples a stream has yet to deliver, in order. */
  function Pending(s: Stream): (r: seq<Sample>)
    ensures |r| == if Live(s) then |s.src.events| - s.cursor else 0
  {
    if Live(s) then seq(|s.src.events| - s.cursor, i requires 0 <= i < |s.src.events| - s.cursor =>
                      SampleAt(s, s.cursor + i))
    else []
  }

  function Step(s: Stream): Stream {
    s.(cursor := s.cursor + 1)
  }

  lemma PendingStep(s: Stream)
    requires Live(s)
    ensures Pending(s) == [Head(s)] + Pending(Step(s))
  {
    var p, q := Pending(s), Pending(Step(s));
    forall i | 0 <= i < |q| ensures p[1..][i] == q[i] {
      StepSamples(s, s.cursor + 1 + i);
    }
    assert p[1..] == q;
  }

  /** Moving the cursor does not change what a position of the source yields. */
  lemma StepSamples(s: Stream, j: nat)
    requires j < |s.src.events|
    ensures SampleAt(Step(s), j) == SampleAt(s, j)
  {
  }

  /** Total number of samples still to be delivered. */
  function Remaining(ss: seq<Stream>): nat {
    if |ss| == 0 then 0 else |Pending(ss[0])| + Remaining(ss[1..])
  }

  /** The index of the stream with the smallest pending tick; ties go to the
      earliest stream in the list. */
  function Nearest(ss: seq<Stream>): (k: nat)
    requires |ss| > 0 && AllLive(ss)
    ensures k < |ss|
    ensures forall i :: 0 <= i < |ss| ==> Head(ss[k]).ticks <= Head(ss[i]).ticks
    ensures forall i :: 0 <= i < k ==> Head(ss[i]).ticks > Head(ss[k]).ticks
  {
    NearestFrom(ss, 1, 0)
  }

  function NearestFrom(ss: seq<Stream>, j: nat, best: nat): (k: nat)
    requires best < j <= |ss| && AllLive(ss)
    requires forall i :: 0 <= i < j ==> Head(ss[best]).ticks <= Head(ss[i]).ticks
    requires forall i :: 0 <= i < best ==> Head(ss[i]).ticks > Head(ss[best]).ticks
    ensures k < |ss|
    ensures forall i :: 0 <= i < |ss| ==> Head(ss[k]).ticks <= Head(ss[i]).ticks
    ensures forall i :: 0 <= i < k ==> Head(ss[i]).ticks > Head(ss[k]).ticks
    decreases |ss| - j
  {
    if j == |ss| then best
    else if Head(ss[j]).ticks < Head(ss[best]).ticks then NearestFrom(ss, j + 1, j)
    else NearestFrom(ss, j + 1, best)
  }

  /** Advances stream `k`, removing it from the list once it runs out. */
  function Advance(ss: seq<Stream>, k: nat): (r: seq<Stream>)
    requires k < |ss|
  {
    if Live(Step(ss[k])) then ss[k := Step(ss[k])] else ss[..k] + ss[k + 1..]
  }

  lemma RemainingUpdate(ss: seq<Stream>, k: nat, s: Stream)
    requires k < |ss|
    ensures Remaining(ss[k := s]) == Remaining(ss) - |Pending(ss[k])| + |Pending(s)|
  {
    if k > 0 {
      assert ss[k := s][1..] == ss[1..][k - 1 := s];
      RemainingUpdate(ss[1..], k - 1, s);
    }
  }

  lemma RemainingRemove(ss: seq<Stream>, k: nat)
    requires k < |ss|
    ensures Remaining(ss[..k] + ss[k + 1..]) == Remaining(ss) - |Pending(ss[k])|
  {
    if k == 0 {
      assert ss[..k] + ss[k + 1..] == ss[1..];
    } else {
      var rest := ss[1..];
      assert (ss[..k] + ss[k + 1..])[1..] == rest[..k - 1] + rest[k..];
      RemainingRemove(rest, k - 1);
    }
  }

  lemma AdvanceRemaining(ss: seq<Stream>, k: nat)
    requires k < |ss| && Live(ss[k])
    ensures Remaining(Advance(ss, k)) == Remaining(ss) - 1
  {
    if Live(Step(ss[k])) {
      RemainingUpdate(ss, k, Step(ss[k]));
    } else {
      RemainingRemove(ss, k);
    }
  }

  lemma AdvanceKeepsShape(ss: seq<Stream>, k: nat)
    requires k < |ss| && AllLive(ss)
    ensures AllLive(Advance(ss, k))
    ensures RankOrdered(ss) ==> RankOrdered(Advance(ss, k))
    ensures SortedSources(ss) ==> SortedSources(Advance(ss, k))
  {
    if !Live(Step(ss[k])) {
      var r := ss[..k] + ss[k + 1..];
      assert forall i :: 0 <= i < |r| ==> r[i] == ss[if i < k then i else i + 1];
    }
  }

  /** The merge loop: one sample per iteration until every stream is done. */
  function Merge(ss: seq<Stream>): (r: seq<Sample>)
    requires AllLive(ss)
    decreases Remaining(ss)
  {
    if |ss| == 0 then []
    else
      var k := Nearest(ss);
      AdvanceRemaining(ss, k);
      AdvanceKeepsShape(ss, k);
      [Head(ss[k])] + Merge(Advance(ss, k))
  }

  /** One iteration of the merge loop. */
  lemma MergeUnfold(ss: seq<Stream>)
    requires |ss| > 0 && AllLive(ss)
    ensures Nearest(ss) < |ss| && AllLive(Advance(ss, Nearest(ss)))
    ensures Remaining(Advance(ss, Nearest(ss))) == Remaining(ss) - 1
    ensures Merge(ss) == [Head(ss[Nearest(ss)])] + Merge(Advance(ss, Nearest(ss)))
  {
    AdvanceRemaining(ss, Nearest(ss));
    AdvanceKeepsShape(ss, Nearest(ss));
  }

  // ---------------------------------------------------------------------------
  // Order of the merged samples

  /** `a` comes no later than `b`: an earlier tick, or the same tick from a
      stream registered no later. */
  predicate NoLater(a: Sample, b: Sample) {
    a.ticks < b.ticks || (a.ticks == b.ticks && a.rank <= b.rank)
  }

  /** Every pending sample of every stream comes no earlier than `m`. */
  ghost predicate HeadsAfter(ss: seq<Stream>, m: Sample)
    requires AllLive(ss)
  {
    forall i :: 0 <= i < |ss| ==> NoLater(m, Head(ss[i]))
  }

  lemma AdvanceKeepsHeadsAfter(ss: seq<Stream>, k: nat, m: Sample)
    requires k < |ss| && AllLive(ss) && SortedSources(ss)
    requires HeadsAfter(ss, m)
    ensures AllLive(Advance(ss, k))
    ensures HeadsAfter(Advance(ss, k), m)
  {
    AdvanceKeepsShape(ss, k);
    var s := Step(ss[k]);
    if Live(s) {
      assert EventTicks(ss[k].src.events)[ss[k].cursor] <= EventTicks(ss[k].src.events)[s.cursor];
      assert NoLater(m, Head(s));
    } else {
      var r := ss[..k] + ss[k + 1..];
      assert forall i :: 0 <= i < |r| ==> r[i] == ss[if i < k then i else i + 1];
    }
  }

  lemma PrependAfter(m: Sample, h: Sample, r: seq<Sample>)
    requires NoLater(m, h) && forall i :: 0 <= i < |r| ==> NoLater(m, r[i])
    ensures forall i :: 0 <= i < |[h] + r| ==> NoLater(m, ([h] + r)[i])
  {
    forall i | 0 <= i < |[h] + r| ensures NoLater(m, ([h] + r)[i]) {
      if i > 0 {
        assert ([h] + r)[i] == r[i - 1];
      }
    }
  }

  /** Nothing the merge emits comes before a bound every head respects. */
  lemma {:induction false} MergeAfter(ss: seq<Stream>, m: Sample)
    requires AllLive(ss) && SortedSources(ss)
    requires HeadsAfter(ss, m)
    ensures forall i :: 0 <= i < |Merge(ss)| ==> NoLater(m, Merge(ss)[i])
    decreases Remaining(ss)
  {
    if |ss| > 0 {
      var k := Nearest(ss);
      var rest := Advance(ss, k);
      MergeUnfold(ss);
      assert SortedSources(rest) && HeadsAfter(rest, m) by {
        AdvanceKeepsShape(ss, k);
        AdvanceKeepsHeadsAfter(ss, k, m);
      }
      MergeAfter(rest, m);
      assert NoLater(m, Head(ss[k]));
      PrependAfter(m, Head(ss[k]), Merge(rest));
    }
  }

  /** The streams left after taking the nearest head all come no earlier
      than that head. */
  lemma NearestIsFirst(ss: seq<Stream>)
    requires |ss| > 0 && AllLive(ss) && RankOrdered(ss)
    ensures HeadsAfter(ss, Head(ss[Nearest(ss)]))
  {
  }

  /** Samples come out in nondecreasing tick order, and samples on the same
      tick come out in registration order. */
  lemma {:induction false} MergeOrdered(ss: seq<Stream>)
    requires AllLive(ss) && SortedSources(ss) && RankOrdered(ss)
    ensures forall i :: 0 <= i < |Merge(ss)| - 1 ==> NoLater(Merge(ss)[i], Merge(ss)[i + 1])
    decreases Remaining(ss)
  {
    if |ss| > 0 {
      var h, rest := OrderedAdvance(ss);
      MergeAfter(rest, h);
      MergeOrdered(rest);
      PrependOrdered(h, Merge(rest));
    }
  }

  /** Taking the nearest head leaves streams of the same shape, all of whose
      heads come no earlier than it. */
  lemma OrderedAdvance(ss: seq<Stream>) returns (h: Sample, rest: seq<Stream>)
    requires |ss| > 0 && AllLive(ss) && SortedSources(ss) && RankOrdered(ss)
    ensures AllLive(rest) && SortedSources(rest) && RankOrdered(rest)
    ensures HeadsAfter(rest, h)
    ensures Remaining(rest) < Remaining(ss)
    ensures Merge(ss) == [h] + Merge(rest)
  {
    var k := Nearest(ss);
    h, rest := Head(ss[k]), Advance(ss, k);
    MergeUnfold(ss);
    AdvanceKeepsShape(ss, k);
    NearestIsFirst(ss);
    AdvanceKeepsHeadsAfter(ss, k, h);
  }

  /** An ordered run stays ordered behind a sample no later than any of it. */
  lemma PrependOrdered(h: Sample, r: seq<Sample>)
    requires forall i :: 0 <= i < |r| ==> NoLater(h, r[i])
    requires forall i :: 0 <= i < |r| - 1 ==> NoLater(r[i], r[i + 1])
    ensures forall i :: 0 <= i < |[h] + r| - 1 ==> NoLater(([h] + r)[i], ([h] + r)[i + 1])
  {
    forall i | 0 <= i < |[h] + r| - 1 ensures NoLater(([h] + r)[i], ([h] + r)[i + 1]) {
      if i > 0 {
        assert ([h] + r)[i] == r[i - 1];
      }
    }
  }

  /** In particular the ticks are nondecreasing. */
  lemma MergeTicksSorted(ss: seq<Stream>)
    requires AllLive(ss) && SortedSources(ss) && RankOrdered(ss)
    ensures forall i, j :: 0 <= i < j < |Merge(ss)| ==> Merge(ss)[i].ticks <= Merge(ss)[j].ticks
  {
    MergeOrdered(ss);
    var r := Merge(ss);
    forall i, j | 0 <= i < j < |r| ensures r[i].ticks <= r[j].ticks {
      ChainTicks(r, i, j);
    }
  }

  lemma {:induction false} ChainTicks(r: seq<Sample>, i: nat, j: nat)
    requires i <= j < |r|
    requires forall k :: 0 <= k < |r| - 1 ==> NoLater(r[k], r[k + 1])
    ensures r[i].ticks <= r[j].ticks
    decreases j - i
  {
    if i < j {
      ChainTicks(r, i + 1, j);
    }
  }

  // ---------------------------------------------------------------------------
  // Contents of the merged samples

  /** The samples of registration slot `rank`, in order. */
  function OfRank(r: seq<Sample>, rank: nat): (o: seq<Sample>)
    ensures forall i :: 0 <= i < |o| ==> o[i].rank == rank
  {
    if |r| == 0 then []
    else (if r[0].rank == rank then [r[0]] else []) + OfRank(r[1..], rank)
  }

  /** What the stream of slot `rank` has yet to deliver ([] when no stream of
      that slot is in the list). */
  function PendingOfRank(ss: seq<Stream>, rank: nat): seq<Sample> {
    if |ss| == 0 then []
    else if ss[0].rank == rank then Pending(ss[0])
    else PendingOfRank(ss[1..], rank)
  }

  lemma {:induction false} PendingOfRankAt(ss: seq<Stream>, k: nat)
    requires k < |ss| && RankOrdered(ss)
    ensures PendingOfRank(ss, ss[k].rank) == Pending(ss[k])
  {
    if k > 0 {
      PendingOfRankAt(ss[1..], k - 1);
    }
  }

  lemma {:induction false} PendingOfRankAbsent(ss: seq<Stream>, rank: nat)
    requires forall k :: 0 <= k < |ss| ==> ss[k].rank != rank
    ensures PendingOfRank(ss, rank) == []
  {
    if |ss| > 0 {
      PendingOfRankAbsent(ss[1..], rank);
    }
  }

  /** Advancing stream `k` removes its head from its own slot's pending list
      and leaves every other slot's alone. */
  lemma AdvancePendingOfRank(ss: seq<Stream>, k: nat, rank: nat)
    requires k < |ss| && AllLive(ss) && RankOrdered(ss)
    ensures PendingOfRank(ss, rank) ==
            (if ss[k].rank == rank then [Head(ss[k])] else []) + PendingOfRank(Advance(ss, k), rank)
  {
    PendingStep(ss[k]);
    PendingOfRankAt(ss, k);
    if Live(Step(ss[k])) {
      StepPendingOfRank(ss, k, rank);
    } else {
      DropPendingOfRank(ss, k, rank);
    }
  }

  lemma StepPendingOfRank(ss: seq<Stream>, k: nat, rank: nat)
    requires k < |ss| && RankOrdered(ss)
    ensures PendingOfRank(ss[k := Step(ss[k])], rank) ==
            if ss[k].rank == rank then Pending(Step(ss[k])) else PendingOfRank(ss, rank)
  {
    var r := ss[k := Step(ss[k])];
    assert RankOrdered(r);
    if exists j :: 0 <= j < |ss| && ss[j].rank == rank {
      var j :| 0 <= j < |ss| && ss[j].rank == rank;
      PendingOfRankAt(ss, j);
      PendingOfRankAt(r, j);
    } else {
      PendingOfRankAbsent(ss, rank);
      PendingOfRankAbsent(r, rank);
    }
  }

  /** Removing stream `k` shifts the later streams down by one and keeps
      registration order. */
  lemma DropKeepsOrder(ss: seq<Stream>, k: nat)
    requires k < |ss| && RankOrdered(ss)
    ensures var r := ss[..k] + ss[k + 1..];
            && |r| == |ss| - 1
            && (forall i :: 0 <= i < |r| ==> r[i] == ss[if i < k then i else i + 1])
            && RankOrdered(r)
  {
    var r := ss[..k] + ss[k + 1..];
    assert forall i :: 0 <= i < |r| ==> r[i] == ss[if i < k then i else i + 1];
  }

  lemma DropPendingOfRank(ss: seq<Stream>, k: nat, rank: nat)
    requires k < |ss| && RankOrdered(ss)
    ensures PendingOfRank(ss[..k] + ss[k + 1..], rank) ==
            if ss[k].rank == rank then [] else PendingOfRank(ss, rank)
  {
    var r := ss[..k] + ss[k + 1..];
    DropKeepsOrder(ss, k);
    if exists j :: 0 <= j < |ss| && j != k && ss[j].rank == rank {
      var j :| 0 <= j < |ss| && j != k && ss[j].rank == rank;
      var j' := if j < k then j else j - 1;
      assert r[j'] == ss[j];
      PendingOfRankAt(ss, j);
      PendingOfRankAt(r, j');
    } else {
      PendingOfRankAbsent(r, rank);
      if ss[k].rank != rank {
        PendingOfRankAbsent(ss, rank);
      }
    }
  }

  /** Every pending sample is emitted exactly once, and each slot's samples
      come out in their source's order. */
  lemma {:induction false} MergeDeliversAll(ss: seq<Stream>, rank: nat)
    requires AllLive(ss) && RankOrdered(ss)
    ensures OfRank(Merge(ss), rank) == PendingOfRank(ss, rank)
    ensures |Merge(ss)| == Remaining(ss)
    decreases Remaining(ss)
  {
    if |ss| > 0 {
      var k := Nearest(ss);
      var h := Head(ss[k]);
      AdvanceRemaining(ss, k);
      AdvanceKeepsShape(ss, k);
      var rest := Advance(ss, k);
      MergeDeliversAll(rest, rank);
      AdvancePendingOfRank(ss, k, rank);
      var m := Merge(ss);
      assert m == [h] + Merge(rest);
      assert m[1..] == Merge(rest);
    }
  }
  // ---------------------------------------------------------------------------
  // Range of the merged ticks

  /** Every sample of every stream's source lies in [lo, hi]. */
  ghost predicate TicksWithin(ss: seq<Stream>, lo: int, hi: int) {
    forall k, i :: 0 <= k < |ss| && 0 <= i < |ss[k].src.events| ==>
      lo <= ss[k].src.events[i].ticks <= hi
  }

  lemma AdvanceKeepsTicksWithin(ss: seq<Stream>, k: nat, lo: int, hi: int)
    requires k < |ss| && TicksWithin(ss, lo, hi)
    ensures TicksWithin(Advance(ss, k), lo, hi)
  {
    if !Live(Step(ss[k])) {
      var r := ss[..k] + ss[k + 1..];
      assert forall i :: 0 <= i < |r| ==> r[i] == ss[if i < k then i else i + 1];
    }
  }

  /** The merge emits only ticks found in its sources. */
  lemma {:induction false} MergeWithin(ss: seq<Stream>, lo: int, hi: int)
    requires AllLive(ss) && TicksWithin(ss, lo, hi)
    ensures forall i :: 0 <= i < |Merge(ss)| ==> lo <= Merge(ss)[i].ticks <= hi
    decreases Remaining(ss)
  {
    if |ss| > 0 {
      var k := Nearest(ss);
      var h := Head(ss[k]);
      var rest := Advance(ss, k);
      MergeUnfold(ss);
      AdvanceKeepsTicksWithin(ss, k, lo, hi);
      MergeWithin(rest, lo, hi);
      forall i | 0 <= i < |Merge(ss)| ensures lo <= Merge(ss)[i].ticks <= hi {
        if i > 0 {
          assert Merge(ss)[i] == Merge(rest)[i - 1];
        }
      }
    }
  }

  // ---------------------------------------------------------------------------
  // Opcodes of the merged samples

  /** Every stream writes one of `codes`. */
  ghost predicate CodesIn(ss: seq<Stream>, codes: set<Byte>) {
    forall k :: 0 <= k < |ss| ==> ss[k].code in codes
  }

  lemma AdvanceKeepsCodes(ss: seq<Stream>, k: nat, codes: set<Byte>)
    requires k < |ss| && CodesIn(ss, codes)
    ensures CodesIn(Advance(ss, k), codes)
  {
    if !Live(Step(ss[k])) {
      var r := ss[..k] + ss[k + 1..];
      assert forall i :: 0 <= i < |r| ==> r[i] == ss[if i < k then i else i + 1];
    }
  }

  /** The merge emits only opcodes of its streams. */
  lemma {:induction false} MergeCodes(ss: seq<Stream>, codes: set<Byte>)
    requires AllLive(ss) && CodesIn(ss, codes)
    ensures forall i :: 0 <= i < |Merge(ss)| ==> Merge(ss)[i].code in codes
    decreases Remaining(ss)
  {
    if |ss| > 0 {
      var k := Nearest(ss);
      var rest := Advance(ss, k);
      MergeUnfold(ss);
      AdvanceKeepsCodes(ss, k, codes);
      MergeCodes(rest, codes);
      forall i | 0 <= i < |Merge(ss)| ensures Merge(ss)[i].code in codes {
        if i > 0 {
          assert Merge(ss)[i] == Merge(rest)[i - 1];
        }
      }
    }
  }
}
