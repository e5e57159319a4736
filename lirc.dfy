/** The LIRC character device in mode2: every read yields one unsigned 32-bit
    word whose bit 24 says whether the interval was a pulse (infrared on) or a
    space (infrared off) and whose low 24 bits give the interval's length in
    microseconds. The kernel side (opening the device, the ioctl feature
    negotiation) is outside this model; the device is the finite sequence of
    words it would deliver, consumed through a cursor. */
module Lirc {

  datatype Option<T> = None | Some(value: T)

  /** An unsigned 32-bit word as the device delivers it. */
  type Word = v: int | 0 <= v < 0x1_0000_0000

  /** One decoded mode2 sample; the length is in microseconds. */
  datatype Sample = Sample(isPulse: bool, length: nat)

  /** PULSE_BIT is bit 24 and PULSE_MASK the 24 bits below it. On a
      non-negative integer, masking with 2^24 - 1 is the remainder modulo 2^24
      and testing the single bit 2^24 is the parity of the quotient by 2^24;
      the model writes the masks in that arithmetic form. */
  const PulseBit: nat := 0x0100_0000
  const PulseMaskModulus: nat := 0x0100_0000

  /** Splits a raw word into the pulse flag and the interval length. */
  function DecodeWord(v: Word): (s: Sample)
    ensures s.length < PulseBit
    ensures v == (v / (2 * PulseBit)) * (2 * PulseBit) + (if s.isPulse then PulseBit else 0) + s.length
  {
    Sample((v / PulseBit) % 2 == 1, v % PulseMaskModulus)
  }

  /** The word a driver would emit for a sample whose length fits 24 bits,
      with the unused high bits 25 to 31 clear. */
  function EncodeWord(s: Sample): (v: Word)
    requires s.length < PulseBit
  {
    (if s.isPulse then PulseBit else 0) + s.length
  }

  /** Decoding undoes encoding for every representable sample. */
  lemma DecodeEncodeWord(s: Sample)
    requires s.length < PulseBit
    ensures DecodeWord(EncodeWord(s)) == s
  {
  }

  /** Encoding what was decoded gives back the word without its bits 25 to 31:
      the decoder ignores those bits. */
  lemma EncodeDecodeWord(v: Word)
    ensures EncodeWord(DecodeWord(v)) == v % (2 * PulseBit)
  {
  }

  /** The samples a sequence of raw words stands for, in order. */
  function SamplesOf(words: seq<Word>): seq<Sample>
  {
    seq(|words|, k requires 0 <= k < |words| => DecodeWord(words[k]))
  }

  /** Each word is decoded on its own: the samples of a stream read in two
      parts are the samples of the first part followed by those of the
      second. */
  lemma SamplesOfAppend(a: seq<Word>, b: seq<Word>)
    ensures SamplesOf(a + b) == SamplesOf(a) + SamplesOf(b)
  {
    var l, r := SamplesOf(a + b), SamplesOf(a) + SamplesOf(b);
    assert |l| == |r|;
    forall k | 0 <= k < |l|
      ensures l[k] == r[k]
    {
      if k < |a| {
        assert (a + b)[k] == a[k];
      } else {
        assert (a + b)[k] == b[k - |a|];
      }
    }
  }

  /** The device: a fixed stream of words and the read position in it. */
  class Device {
    const words: seq<Word>
    var pos: nat

    ghost predicate Valid()
      reads this
    {
      pos <= |words|
    }

    /** The decoded view of the whole stream. */
    function Samples(): seq<Sample>
    {
      SamplesOf(words)
    }

    constructor (words: seq<Word>)
      ensures Valid() && this.words == words && pos == 0
    {
      this.words := words;
      pos := 0;
    }

    /** Reads the next sample. The real device blocks until one arrives; here
        the end of the finite stream yields None and leaves the cursor alone. */
    method Read() returns (s: Option<Sample>)
      requires Valid()
      modifies this`pos
      ensures Valid()
      ensures old(pos) < |words| ==> s == Some(Samples()[old(pos)]) && pos == old(pos) + 1
      ensures old(pos) == |words| ==> s == None && pos == old(pos)
    {
      if pos == |words| {
        s := None;
      } else {
        s := Some(DecodeWord(words[pos]));
        pos := pos + 1;
      }
    }
  }
}
