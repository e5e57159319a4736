/** Decoding one byte of the scale's infrared transmission (read_byte).
    Every bit is a pulse of about 500 us followed by a space whose length
    gives the bit: about 500 us for a 1, about 1000 us for a 0. "About" is a
    strict window of 100 us either side. Spaces seen before the first pulse of
    a byte are skipped; any other timing abandons the byte. Bits arrive most
    significant first: bit i of the byte goes to position 7 - i. */
module BitDecoder {
  import opened Lirc

  /** Acceptable timing error either side of a nominal length, exclusive. */
  const Margin: nat := 100

  const PulseLength: nat := 500
  const OneGapLength: nat := 500
  const ZeroGapLength: nat := 1000

  predicate Near(length: nat, nominal: nat)
  {
    nominal - Margin < length < nominal + Margin
  }

  /** A pulse that may start a bit. */
  predicate PulseOk(x: Sample)
  {
    x.isPulse && Near(x.length, PulseLength)
  }

  /** The bit a space following a valid pulse encodes, if any. */
  function GapBit(x: Sample): Option<bool>
  {
    if x.isPulse then None
    else if Near(x.length, OneGapLength) then Some(true)
    else if Near(x.length, ZeroGapLength) then Some(false)
    else None
  }

  // ---------------------------------------------------------------------
  // Bits and bytes

  /** The value 1 or 0 the decoder uses for a bit. */
  function Bit(b: bool): bv8
  {
    if b then 1 else 0
  }

  /** The byte with only bit k set (0 is the least significant), that is
      1 << k, written as a table. */
  function PosMask(k: nat): bv8
    requires k < 8
  {
    if k == 0 then 0x01 else if k == 1 then 0x02 else if k == 2 then 0x04
    else if k == 3 then 0x08 else if k == 4 then 0x10 else if k == 5 then 0x20
    else if k == 6 then 0x40 else 0x80
  }

  lemma PosMaskIsShift(k: nat)
    requires k < 8
    ensures PosMask(k) == 1 << k
  {
  }

  /** byte |= v << (7 - i) for a bit value v: bit i of a byte lands at
      position 7 - i. */
  function Place(acc: bv8, v: bv8, i: nat): bv8
    requires i < 8
  {
    if v == 0 then acc else acc | PosMask(7 - i)
  }

  /** For the bit values 0 and 1, Place is the or-with-shift of read_byte. */
  lemma PlaceIsShift(acc: bv8, v: bv8, i: nat)
    requires i < 8 && v <= 1
    ensures Place(acc, v, i) == acc | (v << (7 - i))
  {
    PosMaskIsShift(7 - i);
  }

  /** The byte read_byte builds from the bits bs, taken in order from 0. */
  function Pack(bs: seq<bool>): bv8
    requires |bs| <= 8
  {
    if bs == [] then 0 else Place(Pack(bs[..|bs| - 1]), Bit(bs[|bs| - 1]), |bs| - 1)
  }

  /** Whether bit k (0 is the least significant) of x is set. */
  predicate BitAt(x: bv8, k: nat)
    requires k < 8
  {
    x & PosMask(k) != 0
  }

  lemma PlaceBitAt(y: bv8, b: bool, i: nat, k: nat)
    requires i < 8 && k < 8
    ensures BitAt(Place(y, Bit(b), i), k) == (BitAt(y, k) || (b && k == 7 - i))
  {
  }

  /** Bit j of the sequence is bit 7 - j of the byte, and the positions below
      the last bit decoded stay clear. */
  lemma {:induction false} PackMsbFirst(bs: seq<bool>, k: nat)
    requires |bs| <= 8 && k < 8
    ensures BitAt(Pack(bs), k) == (8 - |bs| <= k && bs[7 - k])
    decreases |bs|
  {
    if bs != [] {
      var init := bs[..|bs| - 1];
      PackMsbFirst(init, k);
      PlaceBitAt(Pack(init), bs[|bs| - 1], |bs| - 1, k);
      if 8 - |init| <= k {
        assert init[7 - k] == bs[7 - k];
      }
    }
  }

  // ---------------------------------------------------------------------
  // The decoding loop

  /** What reading a byte gives: a byte, the source's None, or (only in this
      model of a finite stream) the end of the samples before the byte ended. */
  datatype Decoded = Byte(value: bv8) | Invalid | Exhausted

  /** The loop of read_byte from read position p, with the bits got already
      decoded; gives the outcome and the read position afterwards. */
  function DecodeFrom(s: seq<Sample>, p: nat, bits: nat, got: seq<bool>): (r: (Decoded, nat))
    requires p <= |s| && |got| <= bits <= 8
    ensures p <= r.1 <= |s|
    ensures p < |s| && |got| < bits ==> p < r.1
    ensures r.0.Exhausted? ==> r.1 == |s|
    decreases |s| - p
  {
    if |got| == bits then (Byte(Pack(got)), p)
    else if p == |s| then (Exhausted, p)
    else if !s[p].isPulse && got == [] then DecodeFrom(s, p + 1, bits, got)
    else if !PulseOk(s[p]) then (Invalid, p + 1)
    else if p + 1 == |s| then (Exhausted, p + 1)
    else match GapBit(s[p + 1])
      case None => (Invalid, p + 2)
      case Some(b) => DecodeFrom(s, p + 2, bits, got + [b])
  }

  /** read_byte(dev, bits) on the samples from position p. */
  function DecodeByte(s: seq<Sample>, p: nat, bits: nat): (Decoded, nat)
    requires p <= |s| && bits <= 8
  {
    DecodeFrom(s, p, bits, [])
  }

  /** read_byte: consumes samples from the device and decodes a byte of the
      given number of bits. */
  method ReadByte(dev: Device, bits: nat) returns (r: Decoded)
    requires dev.Valid() && bits <= 8
    modifies dev
    ensures dev.Valid()
    ensures (r, dev.pos) == DecodeByte(dev.Samples(), old(dev.pos), bits)
  {
    ghost var s := dev.Samples();
    ghost var start := dev.pos;
    ghost var got: seq<bool> := [];
    var acc: bv8 := 0;
    var i := 0;
    while i < bits
      invariant dev.Valid() && i == |got| <= bits && acc == Pack(got)
      invariant DecodeFrom(s, dev.pos, bits, got) == DecodeByte(s, start, bits)
      decreases |dev.words| - dev.pos
    {
      ghost var p := dev.pos;
      var x := dev.Read();
      if x.None? {
        EndedAt(s, p, bits, got);
        return Exhausted;
      }
      var sample := x.value;
      assert sample == s[p];
      // wait for pulse
      if !sample.isPulse && i == 0 {
        SkipSpaces(s, p, p + 1, bits);
        continue;
      }
      // the source's sentinel v = -1 is None here
      var v: Option<bv8> := None;
      if sample.isPulse && Near(sample.length, PulseLength) {
        var y := dev.Read();
        if y.None? {
          EndedAt(s, p, bits, got);
          return Exhausted;
        }
        var gap := y.value;
        assert gap == s[p + 1];
        if !gap.isPulse {
          if Near(gap.length, OneGapLength) {
            v := Some(1);
          } else if Near(gap.length, ZeroGapLength) {
            v := Some(0);
          }
        }
      }
      if v.None? {
        assert RejectedAt(s, p, i);
        RejectStep(s, p, bits, got);
        return Invalid;
      }
      ghost var b := GapBit(s[p + 1]).value;
      assert PulseOk(s[p]) && v.value == Bit(b);
      OnePair(s, p, bits, got, b);
      assert (got + [b])[..i] == got;
      acc := Place(acc, v.value, i);
      got := got + [b];
      i := i + 1;
    }
    return Byte(acc);
  }

  /** The samples end before the byte does: at a pulse's place, or right
      after a good pulse. */
  lemma EndedAt(s: seq<Sample>, p: nat, bits: nat, got: seq<bool>)
    requires p <= |s| && |got| < bits <= 8
    requires p == |s| || (p + 1 == |s| && PulseOk(s[p]))
    ensures DecodeFrom(s, p, bits, got) == (Exhausted, |s|)
  {
  }

  /** One well-formed pair decodes to one bit. */
  lemma OnePair(s: seq<Sample>, q: nat, bits: nat, got: seq<bool>, b: bool)
    requires q + 2 <= |s| && |got| < bits <= 8
    requires PulseOk(s[q]) && GapBit(s[q + 1]) == Some(b)
    ensures DecodeFrom(s, q, bits, got) == DecodeFrom(s, q + 2, bits, got + [b])
  {
  }

  // ---------------------------------------------------------------------
  // The samples that carry a sequence of bits

  /** From position q on, s holds one pulse/space pair per bit of bs. */
  predicate EncodesAt(s: seq<Sample>, q: nat, bs: seq<bool>)
    decreases bs
  {
    && q + 2 * |bs| <= |s|
    && (bs != [] ==>
          && PulseOk(s[q])
          && GapBit(s[q + 1]) == Some(bs[0])
          && EncodesAt(s, q + 2, bs[1..]))
  }

  /** Pairs keep their meaning when more samples come before them or after. */
  lemma {:induction false} EncodesAtShift(a: seq<Sample>, t: seq<Sample>, b: seq<Sample>,
                                          q: nat, bs: seq<bool>)
    requires EncodesAt(t, q, bs)
    ensures EncodesAt(a + t + b, |a| + q, bs)
    decreases bs
  {
    if bs != [] {
      EncodesAtShift(a, t, b, q + 2, bs[1..]);
      assert (a + t + b)[|a| + q] == t[q] && (a + t + b)[|a| + q + 1] == t[q + 1];
    }
  }

  /** The pairs with the nominal timings: a 500 us pulse, then a 500 us space
      for a 1 or a 1000 us space for a 0. */
  function EncodeBits(bs: seq<bool>): (t: seq<Sample>)
    ensures |t| == 2 * |bs| && EncodesAt(t, 0, bs)
    decreases bs
  {
    if bs == [] then []
    else
      var pair := [Sample(true, PulseLength), Sample(false, if bs[0] then OneGapLength else ZeroGapLength)];
      var rest := EncodeBits(bs[1..]);
      EncodesAtShift(pair, rest, [], 0, bs[1..]);
      assert pair + rest + [] == pair + rest;
      pair + rest
  }

  /** Spaces before the first pulse of a byte. */
  predicate SpacesBetween(s: seq<Sample>, p: nat, q: nat)
    requires p <= q <= |s|
    decreases q - p
  {
    p == q || (!s[p].isPulse && SpacesBetween(s, p + 1, q))
  }

  /** The number of spaces from position p up to the next pulse. */
  function LeadingSpaces(s: seq<Sample>, p: nat): (g: nat)
    requires p <= |s|
    ensures p + g <= |s| && SpacesBetween(s, p, p + g)
    ensures p + g == |s| || s[p + g].isPulse
    decreases |s| - p
  {
    if p == |s| || s[p].isPulse then 0 else 1 + LeadingSpaces(s, p + 1)
  }

  /** Spaces in front of the first bit are consumed without effect. */
  lemma {:induction false} SkipSpaces(s: seq<Sample>, p: nat, q: nat, bits: nat)
    requires p <= q <= |s| && 0 < bits <= 8 && SpacesBetween(s, p, q)
    ensures DecodeFrom(s, p, bits, []) == DecodeFrom(s, q, bits, [])
    decreases q - p
  {
    if p < q {
      SkipSpaces(s, p + 1, q, bits);
    }
  }

  /** Decoding over well-formed pairs consumes them and adds their bits. */
  lemma {:induction false} DecodePairs(s: seq<Sample>, q: nat, bs: seq<bool>, bits: nat, got: seq<bool>)
    requires EncodesAt(s, q, bs) && |got| + |bs| <= bits <= 8
    ensures DecodeFrom(s, q, bits, got) == DecodeFrom(s, q + 2 * |bs|, bits, got + bs)
    decreases bs
  {
    if bs == [] {
      assert got + bs == got;
    } else {
      OnePair(s, q, bits, got, bs[0]);
      DecodePairs(s, q + 2, bs[1..], bits, got + [bs[0]]);
      assert got + [bs[0]] + bs[1..] == got + bs;
    }
  }

  /** The same, for a byte read from its first pair. */
  lemma PairsFromStart(s: seq<Sample>, q: nat, bs: seq<bool>, bits: nat)
    requires EncodesAt(s, q, bs) && |bs| <= bits <= 8
    ensures DecodeFrom(s, q, bits, []) == DecodeFrom(s, q + 2 * |bs|, bits, bs)
  {
    DecodePairs(s, q, bs, bits, []);
    assert [] + bs == bs;
  }

  /** Spaces, then the pairs for bs, decode to the byte Pack(bs) and leave
      the cursor right after the last pair. */
  lemma DecodeByteEncoded(s: seq<Sample>, p: nat, g: nat, bs: seq<bool>)
    requires p + g <= |s| && SpacesBetween(s, p, p + g)
    requires EncodesAt(s, p + g, bs) && 0 < |bs| <= 8
    ensures DecodeByte(s, p, |bs|) == (Byte(Pack(bs)), p + g + 2 * |bs|)
  {
    PairsFromStart(s, p + g, bs, |bs|);
    SkipSpaces(s, p, p + g, |bs|);
  }

  /** Spaces, then any pairs that carry bs, then anything: the byte is
      decoded from the pairs, and the cursor stops right after them. */
  lemma DecodeCarried(spaces: seq<Sample>, t: seq<Sample>, bs: seq<bool>, rest: seq<Sample>)
    requires forall k :: 0 <= k < |spaces| ==> !spaces[k].isPulse
    requires 0 < |bs| <= 8 && EncodesAt(t, 0, bs)
    ensures DecodeByte(spaces + t + rest, 0, |bs|) == (Byte(Pack(bs)), |spaces| + 2 * |bs|)
  {
    EncodesAtShift(spaces, t, rest, 0, bs);
    SpacesInFront(spaces, t, rest, 0);
    DecodeByteEncoded(spaces + t + rest, 0, |spaces|, bs);
  }

  /** Round trip: whatever spaces come first and whatever follows, the
      nominal encoding of 1 to 8 bits decodes to the byte that packs them. */
  lemma EncodeDecodeRoundTrip(spaces: seq<Sample>, bs: seq<bool>, rest: seq<Sample>)
    requires forall k :: 0 <= k < |spaces| ==> !spaces[k].isPulse
    requires 0 < |bs| <= 8
    ensures DecodeByte(spaces + EncodeBits(bs) + rest, 0, |bs|)
         == (Byte(Pack(bs)), |spaces| + 2 * |bs|)
  {
    DecodeCarried(spaces, EncodeBits(bs), bs, rest);
  }

  lemma {:induction false} SpacesInFront(spaces: seq<Sample>, t: seq<Sample>, rest: seq<Sample>, p: nat)
    requires p <= |spaces|
    requires forall k :: 0 <= k < |spaces| ==> !spaces[k].isPulse
    ensures SpacesBetween(spaces + t + rest, p, |spaces|)
    decreases |spaces| - p
  {
    if p < |spaces| {
      SpacesInFront(spaces, t, rest, p + 1);
      assert (spaces + t + rest)[p] == spaces[p];
    }
  }

  /** The converse of DecodePairs: a byte decoded from a pulse on was carried
      by well-formed pairs, and it packs the bits those pairs carry. */
  lemma {:induction false} DecodedPairs(s: seq<Sample>, q: nat, bits: nat, got: seq<bool>)
    returns (bs: seq<bool>)
    requires q <= |s| && |got| <= bits <= 8
    requires got != [] || q == |s| || s[q].isPulse
    requires DecodeFrom(s, q, bits, got).0.Byte?
    ensures |got| + |bs| == bits && EncodesAt(s, q, bs)
    ensures DecodeFrom(s, q, bits, got) == (Byte(Pack(got + bs)), q + 2 * |bs|)
    decreases bits - |got|
  {
    if |got| == bits {
      bs := [];
      assert got + bs == got;
    } else {
      assert PulseOk(s[q]) && GapBit(s[q + 1]).Some?;
      var b := GapBit(s[q + 1]).value;
      OnePair(s, q, bits, got, b);
      var rest := DecodedPairs(s, q + 2, bits, got + [b]);
      bs := [b] + rest;
      assert got + [b] + rest == got + bs;
      assert bs[1..] == rest;
    }
  }

  /** Every byte read_byte returns is carried by spaces followed by one
      well-formed pulse/space pair per bit, and its value packs those bits
      most significant first. */
  lemma DecodedByteIsEncoding(s: seq<Sample>, p: nat, bits: nat) returns (bs: seq<bool>)
    requires p <= |s| && 0 < bits <= 8
    requires DecodeByte(s, p, bits).0.Byte?
    ensures |bs| == bits && EncodesAt(s, p + LeadingSpaces(s, p), bs)
    ensures DecodeByte(s, p, bits) == (Byte(Pack(bs)), p + LeadingSpaces(s, p) + 2 * bits)
  {
    var g := LeadingSpaces(s, p);
    SkipSpaces(s, p, p + g, bits);
    bs := DecodedPairs(s, p + g, bits, []);
    assert [] + bs == bs;
  }

  /** The positions below the decoded bits are always clear; in particular a
      byte read with 7 bits is even. */
  lemma DecodedLowBitsClear(s: seq<Sample>, p: nat, bits: nat, k: nat)
    requires p <= |s| && 0 < bits <= 8 && k < 8 - bits
    requires DecodeByte(s, p, bits).0.Byte?
    ensures !BitAt(DecodeByte(s, p, bits).0.value, k)
  {
    var bs := DecodedByteIsEncoding(s, p, bits);
    PackMsbFirst(bs, k);
  }

  lemma SevenBitByteEven(s: seq<Sample>, p: nat)
    requires p <= |s| && DecodeByte(s, p, 7).0.Byte?
    ensures DecodeByte(s, p, 7).0.value % 2 == 0
  {
    DecodedLowBitsClear(s, p, 7, 0);
  }

  // ---------------------------------------------------------------------
  // Rejection

  /** The sample at q cannot be the start of bit number i: a space where a
      pulse is due (once a bit has been decoded), a pulse outside the window,
      or a good pulse followed by a pulse or a space in neither window. */
  predicate RejectedAt(s: seq<Sample>, q: nat, i: nat)
    requires q < |s|
  {
    || (!s[q].isPulse && i > 0)
    || (s[q].isPulse && !Near(s[q].length, PulseLength))
    || (PulseOk(s[q]) && q + 1 < |s| && GapBit(s[q + 1]).None?)
  }

  /** A rejected sample ends the byte, whatever has been decoded so far. */
  lemma RejectStep(s: seq<Sample>, q: nat, bits: nat, got: seq<bool>)
    requires q < |s| && |got| < bits <= 8 && RejectedAt(s, q, |got|)
    ensures DecodeFrom(s, q, bits, got) == (Invalid, if PulseOk(s[q]) then q + 2 else q + 1)
  {
  }

  /** read_byte returns None when, after the leading spaces and some
      well-formed pairs, the next timing is out of protocol; the cursor stops
      right after the offending sample. */
  lemma DecodeRejects(s: seq<Sample>, p: nat, g: nat, bs: seq<bool>, bits: nat)
    requires p + g <= |s| && SpacesBetween(s, p, p + g)
    requires EncodesAt(s, p + g, bs) && |bs| < bits <= 8
    requires p + g + 2 * |bs| < |s| && RejectedAt(s, p + g + 2 * |bs|, |bs|)
    ensures var q := p + g + 2 * |bs|;
            DecodeByte(s, p, bits) == (Invalid, if PulseOk(s[q]) then q + 2 else q + 1)
  {
    RejectStep(s, p + g + 2 * |bs|, bits, bs);
    PairsFromStart(s, p + g, bs, bits);
    SkipSpaces(s, p, p + g, bits);
  }
}
