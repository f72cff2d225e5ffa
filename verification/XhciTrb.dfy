/**
 Transfer request blocks, and the cycle-bit arithmetic every ring shares.

 Control words are numbers: `x >> k` is `x / 2^k`, `x & (2^k - 1)` is `x % 2^k`, and OR-ing one bit
 into a word is `OrBit0`.
 */
module XhciTrb {
  import opened Words
  import opened FloorDivision

  const RING_LEN: nat := 16
  // Bytes in one TRB.
  const TRB_SIZE: nat := 16

  const TRB_NORMAL: nat := 1
  const TRB_LINK: nat := 6
  const TRB_TRANSFER_EVENT: nat := 32
  const TRB_TOGGLE: nat := 2
  const TRB_IOC: nat := 32
  const CC_SUCCESS: nat := 1
  const CC_SHORT_PACKET: nat := 13

  type bit = b: nat | b < 2

  datatype Trb = Trb(parameter: u64, status: u32, control: u32)

  const ZERO_TRB := Trb(0, 0, 0)

  // Bit 0: whose lap the entry belongs to.
  function CycleOf(trb: Trb): nat {
    trb.control % 2
  }

  // Bit 1: on a link, whether the consumer's cycle state flips there.
  predicate Toggles(trb: Trb) {
    trb.control / 2 % 2 == 1
  }

  // Bits 15:10.
  function KindOf(trb: Trb): nat {
    trb.control / 1024 % 64
  }

  // `word | bit`, for a `bit` that is 0 or 1.
  function OrBit0(word: u32, bit: nat): u32 {
    if bit == 1 && word % 2 == 0 then word + 1 else word
  }

  function Marked(trb: Trb, cycle: nat): Trb {
    trb.(control := OrBit0(trb.control, cycle))
  }

  // A block with its cycle bit cleared: what the producer asked for, whatever lap it landed on.
  function Stripped(trb: Trb): Trb {
    trb.(control := trb.control - trb.control % 2)
  }

  // A block as the driver's own code composes one: the cycle bit is left for the ring to add.
  predicate Unmarked(trb: Trb) {
    CycleOf(trb) == 0
  }

  // The cycle state a ring is on during its `lap`th lap; both sides start on 1.
  function Parity(lap: nat): bit {
    1 - lap % 2
  }

  // Setting the lowest bit of an even word changes no quotient by an even number.
  lemma LowBitKeepsQuotient(word: nat, half: nat)
    requires word % 2 == 0 && half > 0
    ensures (word + 1) / (2 * half) == word / (2 * half)
  {
    var q, r := word / (2 * half), word % (2 * half);
    DivBounds(word, 2 * half);
    assert q * (2 * half) == 2 * (q * half);
    assert r == 2 * (word / 2 - q * half);
    DivIs(word + 1, 2 * half, q);
  }

  lemma OrBit0Keeps(word: u32, bit: bit)
    ensures OrBit0(word, bit) / 1024 == word / 1024
    ensures OrBit0(word, bit) / 0x100_0000 == word / 0x100_0000
    ensures word % 2 == 0 ==> OrBit0(word, bit) % 2 == bit && OrBit0(word, bit) - bit == word
  {
    if bit == 1 && word % 2 == 0 {
      LowBitKeepsQuotient(word, 512);
      LowBitKeepsQuotient(word, 0x80_0000);
    }
  }

  lemma MarkedReadsBack(trb: Trb, cycle: nat)
    requires Unmarked(trb) && cycle < 2
    ensures CycleOf(Marked(trb, cycle)) == cycle
    ensures KindOf(Marked(trb, cycle)) == KindOf(trb)
    ensures Stripped(Marked(trb, cycle)) == trb
  {
    OrBit0Keeps(trb.control, cycle);
  }
}
