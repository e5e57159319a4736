/** The checksum of a scale frame (verify_checksum): the first four bytes are
    added, reducing modulo 255 after every addition, the low bit of the total
    is cleared, and the result must equal the fifth byte. */
module Checksum {

  const Modulus: nat := 0xff

  /** The plain sum of a run of bytes. */
  function SumOf(xs: seq<bv8>): nat
  {
    if xs == [] then 0 else SumOf(xs[..|xs| - 1]) + xs[|xs| - 1] as nat
  }

  /** checksum &= ~1 on a non-negative integer: the low bit is cleared. */
  function ClearLowBit(c: nat): (r: nat)
    ensures r % 2 == 0 && r <= c < r + 2
  {
    c - c % 2
  }

  /** The checksum byte a frame with these first four bytes must carry,
      written with a single reduction of the whole sum. */
  function Expected(data: seq<bv8>): (c: nat)
    requires |data| >= 4
    ensures c % 2 == 0 && c < Modulus
  {
    ClearLowBit(SumOf(data[..4]) % Modulus)
  }

  predicate ChecksumOk(data: seq<bv8>)
    requires |data| == 5
  {
    Expected(data) == data[4] as nat
  }

  lemma ModAdd(a: nat, x: nat)
    ensures (a % Modulus + x) % Modulus == (a + x) % Modulus
  {
    var q := a / Modulus;
    assert a == q * Modulus + a % Modulus;
    assert a + x == q * Modulus + (a % Modulus + x);
  }

  /** verify_checksum, with its reduction after every byte; it accepts exactly
      the frames whose fifth byte is the checksum of the whole first four. */
  method VerifyChecksum(data: seq<bv8>) returns (ok: bool)
    requires |data| == 5
    ensures ok <==> Expected(data) == data[4] as nat
  {
    var checksum: nat := 0;
    for k := 0 to 4
      invariant checksum == SumOf(data[..k]) % Modulus
    {
      assert data[..k + 1][..k] == data[..k];
      ModAdd(SumOf(data[..k]), data[k] as nat);
      checksum := checksum + data[k] as nat;
      checksum := checksum % Modulus;
    }
    checksum := ClearLowBit(checksum);
    // the source raises on a mismatch; the caller's handler turns that into "failed"
    ok := checksum == data[4] as nat;
  }

  /** Appending a byte to four: the check passes exactly when that byte is
      the checksum of the four. */
  lemma SealedFrameChecks(head: seq<bv8>, c: bv8)
    requires |head| == 4
    ensures ChecksumOk(head + [c]) <==> c as nat == Expected(head)
  {
    var frame := head + [c];
    assert frame[..4] == head[..4];
  }

  /** An odd fifth byte never passes, whatever the first four are. */
  lemma OddChecksumFails(data: seq<bv8>)
    requires |data| == 5 && data[4] as nat % 2 == 1
    ensures !ChecksumOk(data)
  {
  }
}
