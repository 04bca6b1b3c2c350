/** The arithmetic of the APE frame size (`get_frame_size` in amadec/adec-ffmpeg-mgt.c), on unsigned bytes. */
module ApeFrameSize {
  import opened Bytes

  const WORD := 0x1_0000_0000

  /** A 32-bit word as a C `int`. */
  function Signed(x: nat): int {
    var u := x % WORD;
    if u < 0x8000_0000 then u else u - WORD
  }

  /** `(x + 3) & ~3`. */
  function RoundUp4(x: nat): int {
    Signed((x + 3) / 4 * 4)
  }

  function LittleEndian(b0: byte, b1: byte, b2: byte, b3: byte): nat {
    0x100_0000 * b3 + 0x1_0000 * b2 + 0x100 * b1 + b0
  }

  /** The source adds the eight bytes of extra data to the low byte only, and then ors the bytes together: a
      carry out of the low byte is ored with the lowest bit of the next one. */
  function Combined(b0: byte, b1: byte, b2: byte, b3: byte): nat {
    var low := b0 + 8;
    var second := if low >= 256 && b1 % 2 == 0 then b1 + 1 else b1;
    0x100_0000 * b3 + 0x1_0000 * b2 + 0x100 * second + low % 256
  }

  function FrameSize(b0: byte, b1: byte, b2: byte, b3: byte): int {
    RoundUp4(Combined(b0, b1, b2, b3))
  }

  /** The bit operations of the source, on machine words. */
  lemma BitsAreSums(b0: bv32, b1: bv32, b2: bv32, b3: bv32)
    requires b0 < 256 && b1 < 256 && b2 < 256 && b3 < 256
    ensures (b3 << 24) | (b2 << 16) | (b1 << 8) | (b0 + 8)
            == (b3 << 24) + (b2 << 16) + ((if b0 + 8 >= 256 && b1 & 1 == 0 then b1 + 1 else b1) << 8)
              + ((b0 + 8) & 0xFF)
  {
  }

  /** So it is the stored size plus eight, rounded up, unless the addition carries into an odd byte. */
  lemma FrameSizeIsSizePlusEight(b0: byte, b1: byte, b2: byte, b3: byte)
    ensures FrameSize(b0, b1, b2, b3) == RoundUp4(LittleEndian(b0, b1, b2, b3) + 8) <==> b0 < 248 || b1 % 2 == 0
  {
    var x := Combined(b0, b1, b2, b3);
    if b0 < 248 || b1 % 2 == 0 {
      assert LittleEndian(b0, b1, b2, b3) + 8 == x;
    } else {
      assert LittleEndian(b0, b1, b2, b3) + 8 == x + 256;
      RoundUpSeparates(x);
    }
  }

  /** In plain numbers, below the sign bit: the least multiple of four that is at least the stored size plus eight,
      less 256 where the carry is lost. */
  lemma FrameSizeIsRoundedUp(b0: byte, b1: byte, b2: byte, b3: byte)
    requires b0 + 256 * b1 + 65536 * b2 + 16777216 * b3 + 11 < 0x8000_0000
    ensures var asked := b0 + 256 * b1 + 65536 * b2 + 16777216 * b3 + 8 - if b0 >= 248 && b1 % 2 == 1 then 256 else 0;
            FrameSize(b0, b1, b2, b3) % 4 == 0 && asked <= FrameSize(b0, b1, b2, b3) < asked + 4
  {
    CombinedIsSum(b0, b1, b2, b3);
    RoundUpIsLeast(Combined(b0, b1, b2, b3));
  }

  lemma CombinedIsSum(b0: byte, b1: byte, b2: byte, b3: byte)
    ensures Combined(b0, b1, b2, b3)
            == b0 + 256 * b1 + 65536 * b2 + 16777216 * b3 + 8 - if b0 >= 248 && b1 % 2 == 1 then 256 else 0
  {
    assert b0 >= 248 ==> (b0 + 8) % 256 == b0 - 248;
  }

  lemma RoundUpIsLeast(x: nat)
    requires x + 3 < 0x8000_0000
    ensures RoundUp4(x) % 4 == 0 && x <= RoundUp4(x) < x + 4
  {
    var y := (x + 3) / 4 * 4;
    assert y == x + 3 - (x + 3) % 4;
  }

  /** And above it, the same number as a 32-bit word. */
  lemma SignedIsWord(x: nat)
    ensures -0x8000_0000 <= Signed(x) < 0x8000_0000 && (x - Signed(x)) % WORD == 0
  {
  }

  lemma RoundUpSeparates(x: nat)
    ensures RoundUp4(x + 256) != RoundUp4(x)
  {
    var y := (x + 3) / 4 * 4;
    assert (x + 256 + 3) / 4 * 4 == y + 256;
    SignedSeparates(y);
  }

  lemma SignedSeparates(y: nat)
    ensures Signed(y + 256) != Signed(y)
  {
    assert y % WORD + 256 < WORD ==> (y + 256) % WORD == y % WORD + 256;
    assert y % WORD + 256 >= WORD ==> (y + 256) % WORD == y % WORD + 256 - WORD;
  }

  /** No size is -1, which would mean the default size. */
  lemma FrameSizeIsNotDefault(b0: byte, b1: byte, b2: byte, b3: byte)
    ensures FrameSize(b0, b1, b2, b3) != -1
  {
    SignedOfFour((Combined(b0, b1, b2, b3) + 3) / 4);
  }

  lemma SignedOfFour(k: nat)
    ensures Signed(k * 4) != -1
  {
    var q, r := k / 0x4000_0000, k % 0x4000_0000;
    assert k * 4 == q * WORD + r * 4;
    assert k * 4 % WORD == r * 4;
  }

  /** A stored size of 0x1F8 asks for 512 bytes, and 256 are read. */
  lemma FrameSizeLosesCarry()
    ensures LittleEndian(0xF8, 0x01, 0, 0) + 8 == 512
    ensures FrameSize(0xF8, 0x01, 0, 0) == 256
  {
  }
}
