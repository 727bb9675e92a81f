/**
 * Integer colour helpers of the subtitle renderer: the branch-free clamp,
 * fixed-point matrix application with byte packing, the full-range to
 * studio-range RGB mapping, the colour-correction dispatch, the conversion
 * settings singleton and the YUV-to-RGB function-table index.
 *
 * C `int` and `DWORD` values follow the `CInt` model.  The floating-point
 * matrices that feed these helpers are not modelled: where a helper
 * consumes one, it is a parameter.
 */
module ColorConvTable {
  import opened CInt

  /** Clamping into [0, upperBound], the meaning `clip` is proved to have. */
  function Clamp(value: int, upperBound: int): int {
    if value < 0 then 0 else if value < upperBound then value else upperBound
  }

  /** `value &= ~(value >> 31)`: the lower clamp of `clip`. */
  function ClampBelow(value: Int32): Int32 {
    Shr31Sign(value);
    BitOps32(Bits(value), Bits(BitNot(Shr(value, 31))));
    FromBits(BitAnd(Bits(value), Bits(BitNot(Shr(value, 31))), 32))
  }

  /** `value ^ ((value ^ upper_bound) & ((upper_bound - value) >> 31))`: the upper clamp of `clip`. */
  function ClampAbove(v: Int32, upperBound: Int32): Int32 {
    var mask := Shr(Wrap32(upperBound - v), 31);
    var selected := BitAnd(BitXor(Bits(v), Bits(upperBound), 32), Bits(mask), 32);
    BitOps32(Bits(v), selected);
    FromBits(BitXor(Bits(v), selected, 32))
  }

  /** The lower clamp zeroes a negative value and keeps any other. */
  lemma ClampBelowValue(value: Int32)
    ensures ClampBelow(value) == if value < 0 then 0 else value
  {
    Shr31Sign(value);
    Shl1By32();
    if value < 0 {
      assert Bits(BitNot(Shr(value, 31))) == 0;
      AndZero(Bits(value), 32);
    } else {
      assert Bits(BitNot(Shr(value, 31))) == Shl(1, 32) - 1;
      BitsSmall(value);
      AndAllOnes(value, 32);
    }
  }

  /** Below the bound `(upper_bound - value) >> 31` is zero. */
  lemma MaskZero(v: Int32, upperBound: Int32)
    requires 0 <= v <= upperBound
    ensures Bits(Shr(Wrap32(upperBound - v), 31)) == 0
  {
    Shr31Sign(upperBound - v);
  }

  /** Above the bound `(upper_bound - value) >> 31` is all ones. */
  lemma MaskOnes(v: Int32, upperBound: Int32)
    requires 0 <= upperBound < v
    ensures Bits(Shr(Wrap32(upperBound - v), 31)) == 0xFFFF_FFFF
  {
    Shr31Sign(upperBound - v);
  }

  /** Below the bound the mask selects nothing and the upper clamp keeps the value. */
  lemma ClampAboveKeeps(v: Int32, upperBound: Int32)
    requires 0 <= v <= upperBound
    ensures ClampAbove(v, upperBound) == v
  {
    MaskZero(v, upperBound);
    AndZero(BitXor(Bits(v), Bits(upperBound), 32), 32);
    XorWithZero(v);
  }

  lemma XorWithZero(v: Int32)
    requires 0 <= v
    ensures BitXor(Bits(v), 0, 32) == v
  {
    BitsSmall(v);
    Shl1By32();
    XorZero(v, 32);
  }

  /** Above the bound the mask selects `value ^ upper_bound` and the upper clamp yields the bound. */
  lemma ClampAboveCaps(v: Int32, upperBound: Int32)
    requires 0 <= upperBound < v
    ensures ClampAbove(v, upperBound) == upperBound
  {
    SelectAll(v, upperBound);
    XorBack(v, upperBound);
  }

  lemma SelectAll(v: Int32, upperBound: Int32)
    requires 0 <= upperBound < v
    ensures BitAnd(BitXor(Bits(v), Bits(upperBound), 32), Bits(Shr(Wrap32(upperBound - v), 31)), 32)
         == BitXor(Bits(v), Bits(upperBound), 32)
  {
    MaskOnes(v, upperBound);
    Shl1By32();
    BitOpsBound(Bits(v), Bits(upperBound), 32);
    AndAllOnes(BitXor(Bits(v), Bits(upperBound), 32), 32);
  }

  lemma XorBack(v: Int32, upperBound: Int32)
    requires 0 <= upperBound
    ensures BitXor(Bits(v), BitXor(Bits(v), Bits(upperBound), 32), 32) == upperBound
  {
    BitsSmall(upperBound);
    Shl1By32();
    XorCancel(Bits(v), upperBound, 32);
  }

  /**
   * `clip(value, upper_bound)`: the branch-free clamp.  For every 32-bit
   * value and every non-negative bound it yields min(max(value, 0), bound).
   */
  function Clip(value: Int32, upperBound: Int32): (r: Int32)
    ensures 0 <= upperBound ==> r == Clamp(value, upperBound)
  {
    ClampBelowValue(value);
    var v := ClampBelow(value);
    if 0 <= v <= upperBound then
      ClampAboveKeeps(v, upperBound);
      ClampAbove(v, upperBound)
    else if 0 <= upperBound < v then
      ClampAboveCaps(v, upperBound);
      ClampAbove(v, upperBound)
    else
      ClampAbove(v, upperBound)
  }

  /** `clip(value, 255)` is a byte. */
  lemma ClipByte(value: Int32)
    ensures 0 <= Clip(value, 255) < 0x100 && Clip(value, 255) == Clamp(value, 255)
  {}

  /** An arithmetic right shift keeps a C `int` in range. */
  lemma {:induction false} ShrInRange(x: Int32, k: nat)
    ensures -0x8000_0000 <= Shr(x, k) < 0x8000_0000
    decreases k
  {
    if k > 0 {
      ShrInRange(x / 2, k - 1);
    }
  }

  /**
   * One row of `ConvMatrix::DoConvert` before the shift:
   * x1*m[4i] + x2*m[4i+1] + x3*m[4i+2] + (m[4i+3] << 8) + 128, with signed
   * overflow wrapping around as two's complement hardware does.
   */
  function RowSum(x1: Int32, x2: Int32, x3: Int32, matrix: seq<Int32>, row: nat): Int32
    requires |matrix| == 12 && row < 3
  {
    Wrap32(x1 * matrix[4 * row] + x2 * matrix[4 * row + 1] + x3 * matrix[4 * row + 2]
           + Wrap32(Shl(matrix[4 * row + 3], 8)) + 128)
  }

  /**
   * One output channel: the row sum shifted right by 8, which is floor
   * division by 256 (the 128 added first makes it round to nearest), then
   * clamped to [0, 255].
   */
  function Channel(x1: Int32, x2: Int32, x3: Int32, matrix: seq<Int32>, row: nat): (c: nat)
    requires |matrix| == 12 && row < 3
    ensures c < 0x100
    ensures c == Clamp(RowSum(x1, x2, x3, matrix, row) / 0x100, 255)
  {
    var sum := RowSum(x1, x2, x3, matrix, row);
    ShrInRange(sum, 8);
    ShrBy8(sum);
    Clip(Shr(sum, 8), 255)
  }

  /** The channel bytes of an ARGB DWORD, by value. */
  function AlphaOf(argb: Dword): nat { argb / 0x100_0000 }
  function RedOf(argb: Dword): nat { (argb / 0x1_0000) % 0x100 }
  function GreenOf(argb: Dword): nat { (argb / 0x100) % 0x100 }
  function BlueOf(argb: Dword): nat { argb % 0x100 }

  /** A value packed from three bytes has those bytes as its red, green and blue. */
  lemma PackedChannels(x: nat, y: nat, z: nat)
    requires x < 0x100 && y < 0x100 && z < 0x100
    ensures Pack(x, y, z) < 0x100_0000
    ensures RedOf(Pack(x, y, z)) == x && GreenOf(Pack(x, y, z)) == y && BlueOf(Pack(x, y, z)) == z
  {
    ModOfSmall(x, 0x100);
  }

  /** The bytes of a + r * 2^16 + g * 2^8 + b * 2^24 are a, r, g and b. */
  lemma ArgbBytes(a: nat, r: nat, g: nat, b: nat)
    requires a < 0x100 && r < 0x100 && g < 0x100 && b < 0x100
    ensures var v := a * 0x100_0000 + r * 0x1_0000 + g * 0x100 + b;
      v < 0x1_0000_0000 && AlphaOf(v) == a && RedOf(v) == r && GreenOf(v) == g && BlueOf(v) == b
  {
    var v := a * 0x100_0000 + r * 0x1_0000 + g * 0x100 + b;
    DivModUnique(v, 0x100_0000, a, r * 0x1_0000 + g * 0x100 + b);
    DivModUnique(v, 0x1_0000, a * 0x100 + r, g * 0x100 + b);
    DivModUnique(a * 0x100 + r, 0x100, a, r);
    DivModUnique(v, 0x100, a * 0x1_0000 + r * 0x100 + g, b);
    DivModUnique(a * 0x1_0000 + r * 0x100 + g, 0x100, a * 0x100 + r, g);
  }

  /**
   * `ConvMatrix::DoConvert`: applies a 3x4 fixed-point matrix (8 fractional
   * bits in the offsets) and packs the three clamped channels.  The result
   * lies below 2^24 and unpacks to the three channels.
   */
  function DoConvert(x1: Int32, x2: Int32, x3: Int32, matrix: seq<Int32>): (r: Dword)
    requires |matrix| == 12
    ensures r < 0x100_0000
    ensures RedOf(r) == Channel(x1, x2, x3, matrix, 0)
    ensures GreenOf(r) == Channel(x1, x2, x3, matrix, 1)
    ensures BlueOf(r) == Channel(x1, x2, x3, matrix, 2)
  {
    var x := Channel(x1, x2, x3, matrix, 0);
    var y := Channel(x1, x2, x3, matrix, 1);
    var z := Channel(x1, x2, x3, matrix, 2);
    PackedChannels(x, y, z);
    Pack(x, y, z)
  }

  lemma Mask8()
    ensures Shl(0xFF, 8) == 0x0000_FF00
  {
    Shl8(0xFF);
  }

  lemma Mask16()
    ensures Shl(0xFF, 16) == 0x00FF_0000
  {
    Shl16(0xFF);
  }

  lemma Mask24()
    ensures Shl(0xFF, 24) == 0xFF00_0000
  {
    Shl8(0xFF);
    Shl16(Shl(0xFF, 8));
    ShlShl(0xFF, 8, 16);
  }

  /** `argb & 0xff000000` keeps the alpha byte in place. */
  lemma AlphaMask(argb: Dword)
    ensures BitAnd(argb, 0xFF00_0000, 32) == Shl(AlphaOf(argb), 24)
  {
    Mask24();
    AndByteMask(argb, 24);
    AlphaByte(argb);
  }

  lemma AlphaByte(argb: Dword)
    ensures Shr(argb, 24) % 0x100 == AlphaOf(argb)
  {
    ShrBy24(argb);
    DivModUnique(argb, 0x100_0000, argb / 0x100_0000, argb % 0x100_0000);
    ModOfSmall(argb / 0x100_0000, 0x100);
  }

  /** `(argb & 0x00ff0000) >> 16`: the red byte. */
  function RedByte(argb: Dword): (c: nat)
    ensures c == RedOf(argb)
  {
    Mask16();
    AndByteMask(argb, 16);
    ShrShl(Shr(argb, 16) % 0x100, 16);
    ShrBy16(argb);
    Shr(BitAnd(argb, 0x00FF_0000, 32), 16)
  }

  /** `(argb & 0x0000ff00) >> 8`: the green byte. */
  function GreenByte(argb: Dword): (c: nat)
    ensures c == GreenOf(argb)
  {
    Mask8();
    AndByteMask(argb, 8);
    ShrShl(Shr(argb, 8) % 0x100, 8);
    ShrBy8(argb);
    Shr(BitAnd(argb, 0x0000_FF00, 32), 8)
  }

  /** `argb & 0x000000ff`: the blue byte. */
  function BlueByte(argb: Dword): (c: nat)
    ensures c == BlueOf(argb)
  {
    AndByteMask(argb, 0);
    BitAnd(argb, 0x0000_00FF, 32)
  }

  /**
   * `SCALE = int(219.0 / 255 * FRACTION_SCALE + 0.5)`: 219/255 in 16.16
   * fixed point, rounded half up.
   */
  const SCALE: int := 56284

  /** The studio-range floor `MIN`. */
  const TV_MIN: int := 16

  lemma ScaleIsRounded()
    ensures SCALE == (2 * 219 * 0x1_0000 + 255) / (2 * 255)
  {}

  /**
   * `c = ((c * SCALE) >> 16) + MIN` on one channel held in a DWORD: the
   * product and the sum wrap modulo 2^32 and the shift is logical.
   */
  function TvChannel(c: Dword): (r: Dword)
    ensures 16 <= r < 0x1_0000 + 16
  {
    var x := Bits(c * 56284);
    ShrIsDiv(x, 16);
    Shl1By16();
    BitsSmall(Shr(x, 16) + 16);
    Bits(Shr(x, 16) + 16)
  }

  /** On a byte no wrap-around occurs: the channel is 16 + floor(c * SCALE / 2^16). */
  lemma TvChannelValue(c: nat)
    requires c < 0x100
    ensures TvChannel(c) == c * SCALE / 0x1_0000 + TV_MIN
  {
    BitsSmall(c * 56284);
    ShrIsDiv(c * 56284, 16);
    Shl1By16();
    BitsSmall(c * 56284 / 0x1_0000 + 16);
  }

  /** The full range [0, 255] lands inside the studio range [16, 235], with both ends reached. */
  lemma TvChannelRange(c: nat)
    requires c < 0x100
    ensures 16 <= TvChannel(c) <= 235
    ensures TvChannel(0) == 16 && TvChannel(255) == 235
  {
    TvChannelValue(c);
    TvChannelValue(0);
    TvChannelValue(255);
  }

  /** The channel mapping is monotone non-decreasing. */
  lemma TvChannelMonotone(c: nat, d: nat)
    requires c <= d < 0x100
    ensures TvChannel(c) <= TvChannel(d)
  {
    TvChannelValue(c);
    TvChannelValue(d);
    assert c * 56284 <= d * 56284;
  }

  /**
   * `(argb & 0xff000000) | (red << 16) | (green << 8) | blue`: the colour
   * with the alpha byte of `argb` and the three given channels.
   */
  function WithChannels(argb: Dword, red: nat, green: nat, blue: nat): (r: Dword)
    requires red < 0x100 && green < 0x100 && blue < 0x100
    ensures AlphaOf(r) == AlphaOf(argb) && RedOf(r) == red && GreenOf(r) == green && BlueOf(r) == blue
  {
    WithChannelsBytes(argb, red, green, blue);
    BitOr(BitOr(BitOr(BitAnd(argb, 0xFF00_0000, 32), Bits(Shl(red, 16)), 32), Bits(Shl(green, 8)), 32), blue, 32)
  }

  lemma WithChannelsBytes(argb: Dword, red: nat, green: nat, blue: nat)
    requires red < 0x100 && green < 0x100 && blue < 0x100
    ensures var v := BitOr(BitOr(BitOr(BitAnd(argb, 0xFF00_0000, 32), Bits(Shl(red, 16)), 32), Bits(Shl(green, 8)), 32), blue, 32);
      v < 0x1_0000_0000 && AlphaOf(v) == AlphaOf(argb) && RedOf(v) == red && GreenOf(v) == green && BlueOf(v) == blue
  {
    AlphaMask(argb);
    ShiftedBytes(red, green);
    PackArgbIsSum(AlphaOf(argb), red, green, blue);
    ArgbBytes(AlphaOf(argb), red, green, blue);
  }

  /**
   * `ColorConvTable::RGB_PC_TO_TV`: maps each of r, g and b from [0, 255]
   * into [16, 235] and keeps the alpha byte.
   */
  function RgbPcToTv(argb: Dword): (r: Dword)
    ensures AlphaOf(r) == AlphaOf(argb)
    ensures RedOf(r) == TvChannel(RedOf(argb)) && GreenOf(r) == TvChannel(GreenOf(argb))
    ensures BlueOf(r) == TvChannel(BlueOf(argb))
  {
    TvChannelRange(RedOf(argb));
    TvChannelRange(GreenOf(argb));
    TvChannelRange(BlueOf(argb));
    WithChannels(argb, TvChannel(RedByte(argb)), TvChannel(GreenByte(argb)), TvChannel(BlueByte(argb)))
  }

  lemma ShiftedBytes(red: nat, green: nat)
    requires red < 0x100 && green < 0x100
    ensures Bits(Shl(red, 16)) == Shl(red, 16) && Bits(Shl(green, 8)) == Shl(green, 8)
  {
    Shl16(red);
    Shl8(green);
    BitsSmall(Shl(red, 16));
    BitsSmall(Shl(green, 8));
  }

  /** `ColorConvTable::YuvMatrixType` (its header is not part of this model). */
  datatype YuvMatrixType = Bt601 | Bt709 | Bt2020

  /** `ColorConvTable::YuvRangeType`. */
  datatype YuvRangeType = RangeTv | RangePc

  /** The two quantisation levels of a YUV input or an RGB output. */
  datatype Level = LevelTv | LevelPc

  /**
   * A 3x4 matrix of zeros.  Nothing in the program calls
   * `InitColorCorrectionMatrix` and the constructor of `ConvMatrix` is
   * empty, so the `COLOR_CORRECTION_MATRIX` of the static singleton keeps
   * the zeros of static storage; `MultiplyMatrix` reads those zero bits as
   * the float 0.0, so its product with `RGB_TV` is zero as well.
   */
  const ZERO_MATRIX: seq<Int32> := [0, 0, 0, 0, 0, 0, 0, 0, 0, 0, 0, 0]

  /**
   * The singleton returned by `ConvFuncInst()`: the default conversion
   * settings and the colour-correction matrices of its `ConvMatrix`:
   * `correctionMatrixPc` is `COLOR_CORRECTION_MATRIX` and
   * `correctionMatrixTv` is its product with `RGB_TV`.  Both stay zero.
   */
  class ConvFunc {
    var videoYuvType: YuvMatrixType
    var videoRangeType: YuvRangeType
    var outputTvRange: bool
    var correct601to709: bool
    const correctionMatrixPc: seq<Int32>
    const correctionMatrixTv: seq<Int32>

    predicate Valid()
    {
      correctionMatrixPc == ZERO_MATRIX && correctionMatrixTv == ZERO_MATRIX
    }

    /**
     * `ConvFuncInst()` constructs the singleton as (BT601, RANGE_TV, false,
     * false); the constructor leaves the correction matrix untouched.
     */
    constructor ()
      ensures Valid()
      ensures videoYuvType == Bt601 && videoRangeType == RangeTv
      ensures !outputTvRange && !correct601to709
      ensures correctionMatrixPc == ZERO_MATRIX && correctionMatrixTv == ZERO_MATRIX
    {
      videoYuvType := Bt601;
      videoRangeType := RangeTv;
      outputTvRange := false;
      correct601to709 := false;
      correctionMatrixPc := ZERO_MATRIX;
      correctionMatrixTv := ZERO_MATRIX;
    }

    /** `ColorConvTable::SetDefaultConvType`: overwrites exactly the four settings. */
    method SetDefaultConvType(yuvType: YuvMatrixType, range: YuvRangeType, bOutputTvRange: bool, bCorrect601to709: bool)
      requires Valid()
      modifies this
      ensures Valid()
      ensures videoYuvType == yuvType && videoRangeType == range
      ensures outputTvRange == bOutputTvRange && correct601to709 == bCorrect601to709
    {
      videoYuvType := yuvType;
      videoRangeType := range;
      outputTvRange := bOutputTvRange;
      correct601to709 := bCorrect601to709;
    }
  }

  /** `ConvMatrix::Correct601to709`: `DoConvert` with the matrix for the requested output level. */
  function Correct601to709(conv: ConvFunc, r8: Int32, g8: Int32, b8: Int32, outputLevel: Level): (r: Dword)
    requires conv.Valid()
    ensures r < 0x100_0000
    ensures var m := if outputLevel == LevelTv then conv.correctionMatrixTv else conv.correctionMatrixPc;
      RedOf(r) == Channel(r8, g8, b8, m, 0) && GreenOf(r) == Channel(r8, g8, b8, m, 1)
      && BlueOf(r) == Channel(r8, g8, b8, m, 2)
  {
    DoConvert(r8, g8, b8, if outputLevel == LevelTv then conv.correctionMatrixTv else conv.correctionMatrixPc)
  }

  /**
   * `ColorConvTable::ColorCorrection`: 601-to-709 correction when enabled,
   * otherwise the studio-range mapping when TV output is requested,
   * otherwise the colour unchanged.  The alpha byte survives every branch.
   */
  function ColorCorrection(conv: ConvFunc, argb: Dword): (r: Dword)
    reads conv
    requires conv.Valid()
    ensures AlphaOf(r) == AlphaOf(argb)
    ensures !conv.correct601to709 && !conv.outputTvRange ==> r == argb
    ensures !conv.correct601to709 && conv.outputTvRange ==> r == RgbPcToTv(argb)
    ensures conv.correct601to709 ==>
      r % 0x100_0000 == Correct601to709(conv, RedOf(argb), GreenOf(argb), BlueOf(argb),
                                         if conv.outputTvRange then LevelTv else LevelPc)
  {
    if conv.correct601to709 then
      WithLowBytes(argb, Correct601to709(conv, RedByte(argb), GreenByte(argb), BlueByte(argb),
                                         if conv.outputTvRange then LevelTv else LevelPc))
    else if conv.outputTvRange then
      RgbPcToTv(argb)
    else
      argb
  }

  /** The zero matrix maps every colour to black: each row sum is 128, which shifts to 0. */
  lemma {:induction false} ZeroMatrixConvert(x1: Int32, x2: Int32, x3: Int32)
    ensures DoConvert(x1, x2, x3, ZERO_MATRIX) == 0
  {
    ZeroRow(x1, x2, x3, 0);
    ZeroRow(x1, x2, x3, 1);
    ZeroRow(x1, x2, x3, 2);
    assert DoConvert(x1, x2, x3, ZERO_MATRIX) == Pack(0, 0, 0);
  }

  lemma {:induction false} ZeroRow(x1: Int32, x2: Int32, x3: Int32, row: nat)
    requires row < 3
    ensures Channel(x1, x2, x3, ZERO_MATRIX, row) == 0
  {
    ShlIsMul(0, 8);
    var i := 4 * row;
    assert ZERO_MATRIX[i] == 0 && ZERO_MATRIX[i + 1] == 0 && ZERO_MATRIX[i + 2] == 0 && ZERO_MATRIX[i + 3] == 0;
    assert RowSum(x1, x2, x3, ZERO_MATRIX, row) == 128;
  }

  /**
   * With 601-to-709 correction switched on, the correction yields black
   * with the alpha byte kept, whichever output level is selected, because
   * the correction matrix is never filled in.
   */
  lemma {:induction false} CorrectionBlanksColour(conv: ConvFunc, argb: Dword)
    requires conv.Valid() && conv.correct601to709
    ensures ColorCorrection(conv, argb) == WithLowBytes(argb, 0)
    ensures AlphaOf(ColorCorrection(conv, argb)) == AlphaOf(argb) && ColorCorrection(conv, argb) % 0x100_0000 == 0
  {
    var level := if conv.outputTvRange then LevelTv else LevelPc;
    var r, g, b := RedByte(argb), GreenByte(argb), BlueByte(argb);
    assert Correct601to709(conv, r, g, b, level) == DoConvert(r, g, b, ZERO_MATRIX);
    ZeroMatrixConvert(r, g, b);
    assert ColorCorrection(conv, argb) == WithLowBytes(argb, Correct601to709(conv, r, g, b, level));
  }

  /** `(argb & 0xff000000) | low`: the alpha byte of `argb` above a 24-bit value. */
  function WithLowBytes(argb: Dword, low: nat): (r: Dword)
    requires low < 0x100_0000
    ensures AlphaOf(r) == AlphaOf(argb) && r % 0x100_0000 == low
  {
    WithLowBytesValue(argb, low);
    BitOr(BitAnd(argb, 0xFF00_0000, 32), low, 32)
  }

  lemma WithLowBytesValue(argb: Dword, low: nat)
    requires low < 0x100_0000
    ensures var v := BitOr(BitAnd(argb, 0xFF00_0000, 32), low, 32);
      v < 0x1_0000_0000 && AlphaOf(v) == AlphaOf(argb) && v % 0x100_0000 == low
  {
    AlphaMask(argb);
    OrUnderTopByte(AlphaOf(argb), low);
    SplitTopByte(AlphaOf(argb), low);
  }

  /**
   * One of the twelve `DEFINE_YUV2RGB_FUNC` functions, named by its YUV
   * input level, its RGB output level and its coefficient set.
   */
  datatype Yuv2RgbFunc = Yuv2RgbFunc(yuvLevel: Level, rgbLevel: Level, coefficients: YuvMatrixType)

  /** The `funcs[2][3][2]` table of `A8Y8U8V8_TO_ARGB`, indexed [range][matrix][output]. */
  const YUV2RGB_FUNCS: seq<seq<seq<Yuv2RgbFunc>>> := [
    [
      [Yuv2RgbFunc(LevelTv, LevelTv, Bt601), Yuv2RgbFunc(LevelTv, LevelPc, Bt601)],
      [Yuv2RgbFunc(LevelTv, LevelTv, Bt709), Yuv2RgbFunc(LevelTv, LevelPc, Bt709)],
      [Yuv2RgbFunc(LevelTv, LevelTv, Bt2020), Yuv2RgbFunc(LevelTv, LevelPc, Bt2020)]
    ],
    [
      [Yuv2RgbFunc(LevelPc, LevelTv, Bt601), Yuv2RgbFunc(LevelPc, LevelPc, Bt601)],
      [Yuv2RgbFunc(LevelPc, LevelTv, Bt709), Yuv2RgbFunc(LevelPc, LevelPc, Bt709)],
      [Yuv2RgbFunc(LevelPc, LevelTv, Bt2020), Yuv2RgbFunc(LevelPc, LevelPc, Bt2020)]
    ]
  ]

  /**
   * The entry `A8Y8U8V8_TO_ARGB` picks: the range index is 1 for full-range
   * video, the matrix index 1 for BT.709 and 2 for BT.2020, the output index
   * 0 for TV-range output.  It converts from the video's YUV level, with the
   * input matrix's coefficients, to TV-level RGB exactly when TV output is
   * requested.
   */
  function SelectYuv2Rgb(range: YuvRangeType, inType: YuvMatrixType, outputTvRange: bool): (f: Yuv2RgbFunc)
    ensures f.yuvLevel == (if range == RangePc then LevelPc else LevelTv)
    ensures f.coefficients == inType
    ensures (f.rgbLevel == LevelTv) <==> outputTvRange
  {
    YUV2RGB_FUNCS[if range == RangePc then 1 else 0]
                 [if inType == Bt709 then 1 else if inType == Bt2020 then 2 else 0]
                 [if outputTvRange then 0 else 1]
  }

  /**
   * The body shared by the twelve `DEFINE_YUV2RGB_FUNC` functions: three
   * channels clipped to [0, 255] and packed.  The floating-point expressions
   * that produce the unclipped channels are the parameter `unclipped`.
   */
  function Yuv2Rgb(f: Yuv2RgbFunc, y8: Int32, u8: Int32, v8: Int32,
                   unclipped: (Yuv2RgbFunc, Int32, Int32, Int32) -> (Int32, Int32, Int32)): (r: Dword)
    ensures r < 0x100_0000
    ensures RedOf(r) == Clamp(unclipped(f, y8, u8, v8).0, 255)
    ensures GreenOf(r) == Clamp(unclipped(f, y8, u8, v8).1, 255)
    ensures BlueOf(r) == Clamp(unclipped(f, y8, u8, v8).2, 255)
  {
    var channels := unclipped(f, y8, u8, v8);
    ClipByte(channels.0);
    ClipByte(channels.1);
    ClipByte(channels.2);
    PackedChannels(Clip(channels.0, 255), Clip(channels.1, 255), Clip(channels.2, 255));
    Pack(Clip(channels.0, 255), Clip(channels.1, 255), Clip(channels.2, 255))
  }

  /**
   * `ColorConvTable::A8Y8U8V8_TO_ARGB`: the selected conversion in the low
   * three bytes and the low byte of `a8` (shifted left as a C `int`) in the
   * top byte.
   */
  function A8Y8U8V8ToArgb(conv: ConvFunc, a8: Int32, y8: Int32, u8: Int32, v8: Int32, inType: YuvMatrixType,
                          unclipped: (Yuv2RgbFunc, Int32, Int32, Int32) -> (Int32, Int32, Int32)): (r: Dword)
    reads conv
    ensures AlphaOf(r) == a8 % 0x100
    ensures r % 0x100_0000
         == Yuv2Rgb(SelectYuv2Rgb(conv.videoRangeType, inType, conv.outputTvRange), y8, u8, v8, unclipped)
  {
    AlphaOver(a8, Yuv2Rgb(SelectYuv2Rgb(conv.videoRangeType, inType, conv.outputTvRange), y8, u8, v8, unclipped))
  }

  /** `(a8 << 24) | rgb`: the low byte of `a8` above a 24-bit value. */
  function AlphaOver(a8: Int32, rgb: nat): (r: Dword)
    requires rgb < 0x100_0000
    ensures AlphaOf(r) == a8 % 0x100 && r % 0x100_0000 == rgb
  {
    AlphaOverValue(a8, rgb);
    BitOr(Bits(Wrap32(Shl(a8, 24))), rgb, 32)
  }

  lemma AlphaOverValue(a8: Int32, rgb: nat)
    requires rgb < 0x100_0000
    ensures var v := BitOr(Bits(Wrap32(Shl(a8, 24))), rgb, 32);
      v < 0x1_0000_0000 && AlphaOf(v) == a8 % 0x100 && v % 0x100_0000 == rgb
  {
    AlphaShift(a8);
    OrUnderTopByte(a8 % 0x100, rgb);
    SplitTopByte(a8 % 0x100, rgb);
  }

  /** `a8 << 24` as a 32-bit pattern keeps only the low byte of `a8`. */
  lemma AlphaShift(a8: int)
    ensures Bits(Wrap32(Shl(a8, 24))) == Shl(a8 % 0x100, 24)
  {
    var lo := a8 % 0x100;
    ShlIsMul(a8, 24);
    ShlIsMul(lo, 24);
    Shl1By24();
    assert a8 * 0x100_0000 == 0x1_0000_0000 * (a8 / 0x100) + lo * 0x100_0000;
    DivModUnique(a8 * 0x100_0000, 0x1_0000_0000, a8 / 0x100, lo * 0x100_0000);
  }
}
