/** The monitoring loop of the scale reader: bytes are read one at a time
    (8 bits for the first four of a frame, 7 for the fifth), collected in a
    buffer that is thrown away on a failed read or when it does not start
    with the 0xAB header, and every five-byte frame is handed to the frame
    rules and cleared. A recording is the event "record(weight)", kept here as
    the list of weights (in tenths) recorded so far. */
module MainLoop {
  import opened Lirc
  import opened BitDecoder
  import opened Checksum
  import opened Stability

  datatype LoopState = LoopState(pos: nat, data: seq<bv8>, stable: int, records: seq<nat>)

  /** num_bits: the fifth byte of a frame is sent with 7 bits. */
  function BitsFor(data: seq<bv8>): (n: nat)
    ensures n == 8 || n == 7
  {
    if |data| < 4 then 8 else 7
  }

  /** A byte read goes into the buffer: it was read in full and the buffer
      is empty or starts with the header. */
  predicate Accepts(b: Decoded, data: seq<bv8>)
  {
    b.Byte? && (|data| == 0 || data[0] == Header)
  }

  /** One pass of the while loop, over the samples s. */
  function StepSpec(s: seq<Sample>, st: LoopState): (r: LoopState)
    requires st.pos <= |s|
    ensures st.pos <= r.pos <= |s|
    ensures st.pos < |s| ==> st.pos < r.pos
  {
    var (b, q) := DecodeByte(s, st.pos, BitsFor(st.data));
    if b.Exhausted? then st.(pos := q)
    else if !Accepts(b, st.data) then st.(pos := q, data := [])
    else
      var data := st.data + [b.value];
      if |data| == 5 then
        var o := ApplyFrame(st.stable, data);
        LoopState(q, [], o.stable, st.records + Recorded(o.recorded))
      else st.(pos := q, data := data)
  }

  /** The loop run until the samples are used up. */
  function RunSpec(s: seq<Sample>, st: LoopState): (r: LoopState)
    requires st.pos <= |s|
    ensures r.pos == |s|
    decreases |s| - st.pos
  {
    if st.pos == |s| then st else RunSpec(s, StepSpec(s, st))
  }

  /** What holds between passes: the buffer holds at most four bytes, and from
      its second byte on it starts with the header; the counter never drops
      below -10; every recorded weight is positive and fits 16 bits. */
  ghost predicate Inv(st: LoopState)
  {
    && |st.data| <= 4
    && (|st.data| >= 2 ==> st.data[0] == Header)
    && st.stable >= AfterRecord
    && forall k :: 0 <= k < |st.records| ==> 0 < st.records[k] < 0x1_0000
  }

  lemma StepPreservesInv(s: seq<Sample>, st: LoopState)
    requires st.pos <= |s| && Inv(st)
    ensures Inv(StepSpec(s, st))
  {
  }

  lemma {:induction false} RunPreservesInv(s: seq<Sample>, st: LoopState)
    requires st.pos <= |s| && Inv(st)
    ensures Inv(RunSpec(s, st))
    decreases |s| - st.pos
  {
    if st.pos < |s| {
      StepPreservesInv(s, st);
      RunPreservesInv(s, StepSpec(s, st));
    }
  }

  /** The buffer rules of one pass: a failed read empties the buffer; a
      buffer that does not start with the header is emptied and the byte just
      read is dropped with it; a fifth byte completes a frame, which leaves the
      buffer empty whether or not its checksum passes. */
  lemma StepBufferRules(s: seq<Sample>, st: LoopState)
    requires st.pos <= |s| && Inv(st)
    ensures var (b, q) := DecodeByte(s, st.pos, BitsFor(st.data));
            var r := StepSpec(s, st);
            && r.pos == q
            && (b.Exhausted? ==> r.data == st.data)
            && (b.Invalid? ==> r.data == [])
            && (b.Byte? && |st.data| > 0 && st.data[0] != Header ==> r.data == [])
            && (b.Byte? && |st.data| == 4 ==> r.data == [])
            && (b.Byte? && (|st.data| == 0 || st.data[0] == Header) && |st.data| < 4 ==>
                  r.data == st.data + [b.value])
  {
  }

  /** The counter and the recordings change only when a fifth byte completes
      a buffer that starts with the header: a frame with any other first byte
      never reaches the checksum. */
  lemma HeaderGate(s: seq<Sample>, st: LoopState)
    requires st.pos <= |s| && Inv(st)
    ensures var r := StepSpec(s, st);
            (r.stable != st.stable || r.records != st.records) ==>
              |st.data| == 4 && st.data[0] == Header && DecodeByte(s, st.pos, 7).0.Byte?
  {
  }

  /** The checksum byte is read with 7 bits, so every frame that reaches the
      frame rules has an even last byte, as the checksum always is. */
  lemma FrameChecksumByteEven(s: seq<Sample>, st: LoopState)
    requires st.pos <= |s| && |st.data| == 4
    requires DecodeByte(s, st.pos, BitsFor(st.data)).0.Byte?
    ensures DecodeByte(s, st.pos, BitsFor(st.data)).0.value % 2 == 0
  {
    SevenBitByteEven(s, st.pos);
  }

  // ---------------------------------------------------------------------
  // The loop seen frame by frame

  /** A frame as it reaches the frame rules: five bytes, the header first,
      and an even fifth byte, since that one is read with 7 bits. */
  predicate Framed(f: seq<bv8>)
  {
    |f| == 5 && f[0] == Header && f[4] as nat % 2 == 0
  }

  /** The frame a pass completes, if it completes one. */
  function FrameOf(s: seq<Sample>, st: LoopState): (f: seq<seq<bv8>>)
    requires st.pos <= |s|
    ensures |f| <= 1 && forall k :: 0 <= k < |f| ==> Framed(f[k])
    ensures |f| == 1 <==> |st.data| == 4 && DecodeByte(s, st.pos, 7).0.Byte? && st.data[0] == Header
  {
    var (b, q) := DecodeByte(s, st.pos, BitsFor(st.data));
    if Accepts(b, st.data) && |st.data| == 4 then
      SevenBitByteEven(s, st.pos);
      [st.data + [b.value]]
    else []
  }

  /** The frames completed while the loop runs over the samples. */
  function FramesDuring(s: seq<Sample>, st: LoopState): (fs: seq<seq<bv8>>)
    requires st.pos <= |s|
    ensures forall k :: 0 <= k < |fs| ==> Framed(fs[k])
    decreases |s| - st.pos
  {
    if st.pos == |s| then [] else FrameOf(s, st) + FramesDuring(s, StepSpec(s, st))
  }

  lemma TallyAppend(stable: int, fs: seq<seq<bv8>>, gs: seq<seq<bv8>>)
    requires forall k :: 0 <= k < |fs| ==> |fs[k]| == 5
    requires forall k :: 0 <= k < |gs| ==> |gs[k]| == 5
    ensures var t := Tally(stable, fs);
            var u := Tally(t.stable, gs);
            Tally(stable, fs + gs) == Tallied(u.stable, t.records + u.records)
    decreases fs
  {
    if fs == [] {
      assert fs + gs == gs;
    } else {
      var o := ApplyFrame(stable, fs[0]);
      assert (fs + gs)[0] == fs[0];
      assert (fs + gs)[1..] == fs[1..] + gs;
      TallyAppend(o.stable, fs[1..], gs);
    }
  }

  /** The counter and the recordings of the whole loop are exactly those of
      the frame rules applied, in order, to the frames the loop completes. */
  lemma {:induction false} RunIsTally(s: seq<Sample>, st: LoopState)
    requires st.pos <= |s|
    ensures RunSpec(s, st).stable == Tally(st.stable, FramesDuring(s, st)).stable
    ensures RunSpec(s, st).records == st.records + Tally(st.stable, FramesDuring(s, st)).records
    decreases |s| - st.pos
  {
    if st.pos < |s| {
      var st' := StepSpec(s, st);
      var f := FrameOf(s, st);
      var rest := FramesDuring(s, st');
      assert RunSpec(s, st) == RunSpec(s, st');
      assert FramesDuring(s, st) == f + rest;
      RunIsTally(s, st');
      StepIsTally(s, st);
      ComposeTally(st.stable, st'.stable, st.records, st'.records, f, rest, RunSpec(s, st'));
    }
  }

  lemma ComposeTally(s0: int, s1: int, r0: seq<nat>, r1: seq<nat>,
                     fs: seq<seq<bv8>>, gs: seq<seq<bv8>>, last: LoopState)
    requires forall k :: 0 <= k < |fs| ==> |fs[k]| == 5
    requires forall k :: 0 <= k < |gs| ==> |gs[k]| == 5
    requires s1 == Tally(s0, fs).stable && r1 == r0 + Tally(s0, fs).records
    requires last.stable == Tally(s1, gs).stable && last.records == r1 + Tally(s1, gs).records
    ensures last.stable == Tally(s0, fs + gs).stable
    ensures last.records == r0 + Tally(s0, fs + gs).records
  {
    TallyAppend(s0, fs, gs);
  }

  /** One pass moves the counter and the recordings as the frame rules do on
      the frame the pass completes, if any. */
  lemma StepIsTally(s: seq<Sample>, st: LoopState)
    requires st.pos <= |s|
    ensures StepSpec(s, st).stable == Tally(st.stable, FrameOf(s, st)).stable
    ensures StepSpec(s, st).records == st.records + Tally(st.stable, FrameOf(s, st)).records
  {
    var f := FrameOf(s, st);
    if f != [] {
      var o := ApplyFrame(st.stable, f[0]);
      assert f[1..] == [];
      assert Tally(st.stable, f) == Tallied(o.stable, Recorded(o.recorded));
    } else {
      assert Tally(st.stable, f) == Tallied(st.stable, []);
    }
  }

  // ---------------------------------------------------------------------
  // The loop's state as the running program holds it

  class Monitor {
    const dev: Device
    var data: seq<bv8>
    var stable: int
    var records: seq<nat>

    function State(): LoopState
      reads this, dev
    {
      LoopState(dev.pos, data, stable, records)
    }

    ghost predicate Valid()
      reads this, dev
    {
      dev.Valid() && Inv(State())
    }

    constructor (dev: Device)
      requires dev.Valid()
      ensures Valid() && this.dev == dev
      ensures State() == LoopState(dev.pos, [], 0, [])
    {
      this.dev := dev;
      data := [];
      stable := 0;
      records := [];
    }

    /** One pass of the loop. Reports whether the samples ran out before a
        byte was complete (only possible in this model of a finite stream). */
    method Step() returns (exhausted: bool)
      requires Valid()
      modifies this, dev
      ensures Valid()
      ensures State() == StepSpec(dev.Samples(), old(State()))
      ensures exhausted <==> DecodeByte(dev.Samples(), old(dev.pos), BitsFor(old(data))).0.Exhausted?
    {
      StepPreservesInv(dev.Samples(), State());
      var numBits := BitsFor(data);
      var b := ReadByte(dev, numBits);
      if b.Exhausted? {
        return true;
      }
      exhausted := false;
      if b.Invalid? || (|data| > 0 && data[0] != Header) {
        data := [];
        return;
      }
      data := data + [b.value];
      if |data| == 5 {
        var weight: int := -1;
        var ok := VerifyChecksum(data);
        if ok {
          weight := Weight(data);
          if data[1] == StableStatus {
            stable := stable + 1;
          } else {
            stable := 0;
          }
        } else {
          // checksum failed: the counter is left as it is
        }
        data := [];
        // record the weight if it is valid and stable
        if weight > 0 && stable >= RecordThreshold {
          records := records + [weight];
          stable := AfterRecord;
        }
      }
    }

    /** The loop over the whole finite stream. */
    method Run()
      requires Valid()
      modifies this, dev
      ensures Valid() && dev.pos == |dev.words|
      ensures State() == RunSpec(dev.Samples(), old(State()))
    {
      ghost var s := dev.Samples();
      while dev.pos < |dev.words|
        invariant Valid()
        invariant RunSpec(s, State()) == RunSpec(s, old(State()))
        decreases |dev.words| - dev.pos
      {
        var _ := Step();
      }
    }
  }
}
