/** The little-endian integers of the image patch header (applypatch/utils.c). */
module ImgCodec {
  import opened Suffixes
  import opened Offsets

  const TWO31: int := 0x8000_0000
  const TWO32: int := 0x1_0000_0000
  const TWO63: int := 0x8000_0000_0000_0000
  const TWO64: int := 0x1_0000_0000_0000_0000

  /** `Write4`: the two's complement bytes of a 32-bit int. */
  function Write4(value: int): (b: bytes)
    ensures |b| == 4
  {
    LittleEndian(value % TWO32, 4)
  }

  function Write8(value: int): (b: bytes)
    ensures |b| == 8
  {
    LittleEndian(value % TWO64, 8)
  }

  function Read4(b: bytes): (value: int)
    requires |b| == 4
    ensures -TWO31 <= value < TWO31
  {
    Pow256Seven();
    var y: int := Magnitude(b);
    if y >= TWO31 then y - TWO32 else y
  }

  function Read8(b: bytes): (value: int)
    requires |b| == 8
    ensures -TWO63 <= value < TWO63
  {
    Pow256Seven();
    var y: int := Magnitude(b);
    if y >= TWO63 then y - TWO64 else y
  }

  /** Both read the lowest byte first and as two's complement. */
  lemma ReadDigits(b: bytes, c: bytes)
    requires |b| == 4 && |c| == 8
    ensures var y := Base256(b[0], b[1], b[2], b[3], 0, 0, 0, 0);
            Read4(b) == if b[3] < 128 then y else y - 0x1_0000_0000
    ensures var y := Base256(c[0], c[1], c[2], c[3], c[4], c[5], c[6], c[7]);
            Read8(c) == if c[7] < 128 then y else y - 0x1_0000_0000_0000_0000
  {
    hide Magnitude;
    MagnitudeFour(b, 0);
    MagnitudeDigits(c);
    assert b[0..] == b && b[4..] == [];
  }

  /** Negative values included: windowBits is -15 in every header. */
  lemma RoundTrip4(value: int)
    requires -TWO31 <= value < TWO31
    ensures Read4(Write4(value)) == value
  {
    Pow256Seven();
    LittleEndianMagnitude(value % TWO32, 4);
  }

  lemma RoundTrip8(value: int)
    requires -TWO63 <= value < TWO63
    ensures Read8(Write8(value)) == value
  {
    Pow256Seven();
    LittleEndianMagnitude(value % TWO64, 8);
  }

  /** What is written is read back reduced to 32 bits, so larger values come back wrong. */
  lemma Truncates4(value: int)
    ensures Read4(Write4(value)) == value <==> -TWO31 <= value < TWO31
  {
    if -TWO31 <= value < TWO31 { RoundTrip4(value); }
  }
}
