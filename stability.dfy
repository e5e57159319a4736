/** What the main loop does with each complete five-byte frame
    [header, status, weight high, weight low, checksum]: a frame that passes
    the checksum gives a weight in tenths and moves the stability counter
    (status 0x8C counts up, any other status resets it to 0); a frame that
    fails leaves the counter alone. A positive weight with the counter at 5 or
    more is recorded, and the counter then drops to -10. */
module Stability {
  import opened Lirc
  import opened Checksum

  const Header: bv8 := 0xAB
  const StableStatus: bv8 := 0x8C
  const RecordThreshold: int := 5
  const AfterRecord: int := -10

  /** The weight in tenths of the display unit carried by bytes 2 and 3,
      high byte first. */
  function Weight(frame: seq<bv8>): (w: nat)
    requires |frame| == 5
    ensures w < 0x1_0000
  {
    frame[2] as nat * 256 + frame[3] as nat
  }

  /** The weight is the source's data[2] << 8 | data[3]. */
  lemma WeightIsShiftOr(frame: seq<bv8>)
    requires |frame| == 5
    ensures Weight(frame) == (((frame[2] as bv16) << 8) | (frame[3] as bv16)) as nat
  {
  }

  /** The counter after the frame's status has been taken into account. */
  function Counted(stable: int, frame: seq<bv8>): int
    requires |frame| == 5
  {
    if !ChecksumOk(frame) then stable
    else if frame[1] == StableStatus then stable + 1
    else 0
  }

  datatype FrameOutcome = FrameOutcome(stable: int, recorded: Option<nat>)

  /** One complete frame: checksum, weight, counter, and the record decision. */
  function ApplyFrame(stable: int, frame: seq<bv8>): (r: FrameOutcome)
    requires |frame| == 5
    ensures !ChecksumOk(frame) ==> r == FrameOutcome(stable, None)
    ensures ChecksumOk(frame) && frame[1] != StableStatus ==> r == FrameOutcome(0, None)
    ensures r.recorded.Some? <==>
              ChecksumOk(frame) && frame[1] == StableStatus && Weight(frame) > 0 && stable + 1 >= RecordThreshold
    ensures r.recorded.Some? ==> r.recorded.value == Weight(frame) > 0 && r.stable == AfterRecord
    ensures r.recorded.None? ==> r.stable == Counted(stable, frame)
  {
    // the source starts from weight = -1, which a failed checksum leaves in place
    var weight := if ChecksumOk(frame) then Weight(frame) else -1;
    var counted := Counted(stable, frame);
    if weight > 0 && counted >= RecordThreshold then FrameOutcome(AfterRecord, Some(weight))
    else FrameOutcome(counted, None)
  }

  function Recorded(o: Option<nat>): seq<nat>
  {
    match o
    case None => []
    case Some(w) => [w]
  }

  datatype Tallied = Tallied(stable: int, records: seq<nat>)

  /** The counter and the recorded weights after a run of frames, in order. */
  function Tally(stable: int, frames: seq<seq<bv8>>): Tallied
    requires forall k :: 0 <= k < |frames| ==> |frames[k]| == 5
    decreases frames
  {
    if frames == [] then Tallied(stable, [])
    else
      var o := ApplyFrame(stable, frames[0]);
      var rest := Tally(o.stable, frames[1..]);
      Tallied(rest.stable, Recorded(o.recorded) + rest.records)
  }

  predicate IsStableFrame(frame: seq<bv8>)
    requires |frame| == 5
  {
    ChecksumOk(frame) && frame[1] == StableStatus
  }

  predicate IsResetFrame(frame: seq<bv8>)
    requires |frame| == 5
  {
    ChecksumOk(frame) && frame[1] != StableStatus
  }

  /** The number of stable frames since the last reset frame; frames that
      fail the checksum are passed over. */
  function Trailing(frames: seq<seq<bv8>>): (n: nat)
    requires forall k :: 0 <= k < |frames| ==> |frames[k]| == 5
    ensures n <= |frames|
  {
    if frames == [] then 0
    else
      var init := frames[..|frames| - 1];
      var last := frames[|frames| - 1];
      if IsStableFrame(last) then Trailing(init) + 1
      else if IsResetFrame(last) then 0
      else Trailing(init)
  }

  predicate HasReset(frames: seq<seq<bv8>>)
    requires forall k :: 0 <= k < |frames| ==> |frames[k]| == 5
  {
    exists k :: 0 <= k < |frames| && IsResetFrame(frames[k])
  }

  /** Tallying a run and then one more frame. */
  lemma {:induction false} TallySnoc(stable: int, init: seq<seq<bv8>>, f: seq<bv8>)
    requires forall k :: 0 <= k < |init| ==> |init[k]| == 5
    requires |f| == 5
    ensures var t := Tally(stable, init);
            var o := ApplyFrame(t.stable, f);
            Tally(stable, init + [f]) == Tallied(o.stable, t.records + Recorded(o.recorded))
    decreases init
  {
    if init != [] {
      var o := ApplyFrame(stable, init[0]);
      assert (init + [f])[1..] == init[1..] + [f];
      TallySnoc(o.stable, init[1..], f);
    }
  }

  lemma HasResetSnoc(init: seq<seq<bv8>>, last: seq<bv8>)
    requires forall k :: 0 <= k < |init| ==> |init[k]| == 5
    requires |last| == 5
    ensures HasReset(init + [last]) <==> HasReset(init) || IsResetFrame(last)
  {
    var frames := init + [last];
    if IsResetFrame(last) {
      assert frames[|init|] == last;
    }
    if HasReset(frames) && !IsResetFrame(last) {
      var k :| 0 <= k < |frames| && IsResetFrame(frames[k]);
      assert k < |init| && init[k] == frames[k];
    }
    if HasReset(init) {
      var k :| 0 <= k < |init| && IsResetFrame(init[k]);
      assert frames[k] == init[k];
    }
  }

  /** As long as nothing has been recorded, the counter is the number of
      stable frames since the last reset frame, counted from the starting
      value when no reset frame has been seen. */
  lemma {:induction false} CounterAfterFrames(s0: int, frames: seq<seq<bv8>>)
    requires forall k :: 0 <= k < |frames| ==> |frames[k]| == 5
    requires Tally(s0, frames).records == []
    ensures Tally(s0, frames).stable
         == if HasReset(frames) then Trailing(frames) else s0 + Trailing(frames)
  {
    if frames != [] {
      var init := frames[..|frames| - 1];
      var last := frames[|frames| - 1];
      assert frames == init + [last];
      TallySnoc(s0, init, last);
      CounterAfterFrames(s0, init);
      HasResetSnoc(init, last);
    }
  }

  /** The frame that triggers the first record after the frames init is a
      stable frame, and it comes after enough stable frames to lift the
      counter from where it started, or, once a reset frame has zeroed it, at
      least 5 stable frames since then. */
  lemma RecordNeedsStableRun(s0: int, init: seq<seq<bv8>>, last: seq<bv8>)
    requires forall k :: 0 <= k < |init| ==> |init[k]| == 5
    requires |last| == 5
    requires Tally(s0, init).records == [] && Tally(s0, init + [last]).records != []
    ensures IsStableFrame(last)
    ensures if HasReset(init + [last]) then Trailing(init + [last]) >= RecordThreshold
            else s0 + Trailing(init + [last]) >= RecordThreshold
  {
    RecordingFrame(s0, init, last);
    CounterAfterFrames(s0, init);
    HasResetSnoc(init, last);
    TrailingSnoc(init, last);
  }

  lemma TrailingSnoc(init: seq<seq<bv8>>, last: seq<bv8>)
    requires forall k :: 0 <= k < |init| ==> |init[k]| == 5
    requires |last| == 5 && IsStableFrame(last)
    ensures Trailing(init + [last]) == Trailing(init) + 1
  {
    var frames := init + [last];
    assert frames[..|frames| - 1] == init;
  }

  /** The frame that makes the first record is stable and finds the counter
      one short of the threshold or above. */
  lemma RecordingFrame(s0: int, init: seq<seq<bv8>>, last: seq<bv8>)
    requires forall k :: 0 <= k < |init| ==> |init[k]| == 5
    requires |last| == 5
    requires Tally(s0, init).records == [] && Tally(s0, init + [last]).records != []
    ensures IsStableFrame(last) && Tally(s0, init).stable + 1 >= RecordThreshold
  {
    TallySnoc(s0, init, last);
    var before := Tally(s0, init);
    var o := ApplyFrame(before.stable, last);
    assert o.recorded.Some?;
  }

  /** After a record the counter is -10, so the next record needs 15 stable
      frames in a row (checksum failures aside), unless a frame with another
      status intervenes: that one zeroes the counter, and 5 stable frames
      after it are enough. */
  lemma CooldownAfterRecord(init: seq<seq<bv8>>, last: seq<bv8>)
    requires forall k :: 0 <= k < |init| ==> |init[k]| == 5
    requires |last| == 5
    requires Tally(AfterRecord, init).records == [] && Tally(AfterRecord, init + [last]).records != []
    ensures |init| + 1 >= Trailing(init + [last]) >= if HasReset(init + [last]) then 5 else 15
  {
    RecordNeedsStableRun(AfterRecord, init, last);
  }

  /** A frame as the scale sends it for 40.0 with a stable reading. */
  const Sample40: seq<bv8> := [0xAB, 0x8C, 0x01, 0x90, 0xC8]

  /** From a fresh counter, the fifth consecutive stable frame of 40.0 is
      recorded as 400 tenths, the fourth is not, and the counter is then -10. */
  lemma FifthStableFrameRecords()
    ensures Tally(0, [Sample40, Sample40, Sample40, Sample40]) == Tallied(4, [])
    ensures Tally(0, [Sample40, Sample40, Sample40, Sample40, Sample40]) == Tallied(AfterRecord, [400])
  {
    var f := Sample40;
    var head: seq<bv8> := [0xAB, 0x8C, 0x01, 0x90];
    assert f[..4] == head;
    assert head[..3][..2][..1][..0] == [];
    assert SumOf(head[..3][..2][..1]) == 171;
    assert SumOf(head[..3][..2]) == 311;
    assert SumOf(head[..3]) == 312;
    assert SumOf(head) == 456;
    assert IsStableFrame(f) && Weight(f) == 400;
    var o1 := ApplyFrame(0, f);
    var o2 := ApplyFrame(1, f);
    var o3 := ApplyFrame(2, f);
    var o4 := ApplyFrame(3, f);
    var o5 := ApplyFrame(4, f);
    assert o1 == FrameOutcome(1, None) && o2 == FrameOutcome(2, None) && o3 == FrameOutcome(3, None);
    assert o4 == FrameOutcome(4, None) && o5 == FrameOutcome(AfterRecord, Some(400));
    assert Tally(AfterRecord, []) == Tallied(AfterRecord, []);
    assert Tally(4, [f]) == Tallied(AfterRecord, [400]);
    assert Tally(3, [f, f]) == Tallied(AfterRecord, [400]);
    assert Tally(2, [f, f, f]) == Tallied(AfterRecord, [400]);
    assert Tally(1, [f, f, f, f]) == Tallied(AfterRecord, [400]);
    assert Tally(0, [f, f, f, f, f]) == Tallied(AfterRecord, [400]);
    assert Tally(4, []) == Tallied(4, []);
    assert Tally(3, [f]) == Tallied(4, []);
    assert Tally(2, [f, f]) == Tallied(4, []);
    assert Tally(1, [f, f, f]) == Tallied(4, []);
  }
}
