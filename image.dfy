/**
 * The reference image kernels: conversion of an interleaved 8-bit RGB image
 * to 8-bit grey levels with the integer luma weights 54, 183 and 19 (which
 * add up to 256), and the integral image of a grey image, the table of 2-D
 * prefix sums kept in 32-bit unsigned integers. Images are stored row after
 * row, `width` pixels per row.
 */
module Image {
  import opened Util

  /** An 8-bit unsigned value, `uint8_t`. */
  type Byte = x: int | 0 <= x < 256

  /** 2^32: values of type `uint32_t` are kept modulo this. */
  const U32Mod: int := 0x1_0000_0000

  /** A 32-bit unsigned value, `uint32_t`. */
  type U32 = x: int | 0 <= x < 0x1_0000_0000

  /**
   * The position of the first pixel of row i in an image of `width` pixels
   * per row, counted row by row; it is i * width (RowStartIsProduct), and
   * RowStart(height, width) is the number of pixels of the image.
   */
  function RowStart(i: nat, width: nat): nat
  {
    if i == 0 then 0 else RowStart(i - 1, width) + width
  }

  /** Counting row by row gives the product the C code computes. */
  lemma {:induction false} RowStartIsProduct(i: nat, width: nat)
    ensures RowStart(i, width) == i * width
  {
    if i > 0 {
      RowStartIsProduct(i - 1, width);
      assert (i - 1) * width + width == i * width;
    }
  }

  /** Later rows start no earlier. */
  lemma {:induction false} RowStartMono(i1: nat, i2: nat, width: nat)
    requires i1 <= i2
    ensures RowStart(i1, width) <= RowStart(i2, width)
    decreases i2
  {
    if i1 < i2 {
      RowStartMono(i1, i2 - 1, width);
    }
  }

  /** Where pixel (i, j) sits in an image of `width` pixels per row and `height` rows. */
  function Idx(i: nat, j: nat, width: nat, height: nat): (p: nat)
    requires i < height && j < width
    ensures p < width * height
  {
    RowStartMono(i + 1, height, width);
    RowStartIsProduct(height, width);
    RowStart(i, width) + j
  }

  /** Two different pixels sit at two different positions. */
  lemma IdxInjective(i: nat, j: nat, i': nat, j': nat, width: nat, height: nat)
    requires i < height && j < width && i' < height && j' < width
    requires i != i' || j != j'
    ensures Idx(i, j, width, height) != Idx(i', j', width, height)
  {
    if i < i' {
      RowStartMono(i + 1, i', width);
    } else if i' < i {
      RowStartMono(i' + 1, i, width);
    }
  }

  // ---------------------------------------------------------------------------
  // RGB to grey

  /** The weighted sum of the three channels, in the `int` the C arithmetic promotes to. */
  function WeightedSum(red: Byte, green: Byte, blue: Byte): int
  {
    red * 54 + green * 183 + blue * 19
  }

  /**
   * The grey level of a pixel: the weighted sum shifted right by 8 bits,
   * then stored in a `uint8_t` (kept modulo 256). The weights add up to 256,
   * so the shifted sum lies between the darkest and the brightest channel and
   * never exceeds 255: storing it in a byte loses nothing.
   */
  function Luma(red: Byte, green: Byte, blue: Byte): (y: Byte)
    ensures y == WeightedSum(red, green, blue) / 256
    ensures MinInt(red, MinInt(green, blue)) <= y <= MaxInt(red, MaxInt(green, blue))
  {
    var lo, hi := MinInt(red, MinInt(green, blue)), MaxInt(red, MaxInt(green, blue));
    WeightedBetween(red, green, blue, lo, hi);
    ShiftBetween(WeightedSum(red, green, blue), lo, hi);
    ByteMod(WeightedSum(red, green, blue) / 256);
    (WeightedSum(red, green, blue) / 256) % 256
  }

  /** A value that fits in a byte is its own remainder modulo 256. */
  lemma ByteMod(q: int)
    requires 0 <= q < 256
    ensures q % 256 == q
  {
  }

  /** Weights adding up to 256 keep the weighted sum between 256 times the extreme channels. */
  lemma WeightedBetween(red: Byte, green: Byte, blue: Byte, lo: int, hi: int)
    requires lo <= red <= hi && lo <= green <= hi && lo <= blue <= hi
    ensures 256 * lo <= WeightedSum(red, green, blue) <= 256 * hi
  {
  }

  /** A value between 256 * lo and 256 * hi, shifted right by 8, lies between lo and hi. */
  lemma ShiftBetween(w: int, lo: int, hi: int)
    requires 256 * lo <= w <= 256 * hi
    ensures lo <= w / 256 <= hi
  {
    var q := w / 256;
    assert 256 * q <= w < 256 * q + 256;
  }

  /** A grey input pixel keeps its level. */
  lemma LumaOfGrey(v: Byte)
    ensures Luma(v, v, v) == v
  {
    assert WeightedSum(v, v, v) == 256 * v;
  }

  /** The grey level of pixel p of an interleaved RGB image. */
  ghost function PixelLuma(rgb: seq<Byte>, p: nat): Byte
    requires 3 * p + 2 < |rgb|
  {
    Luma(rgb[3 * p], rgb[3 * p + 1], rgb[3 * p + 2])
  }

  /**
   * The body of the inner loop of `convert_rgb_to_grayscale_naive`: reads
   * the three channels of pixel p and writes its grey level, and nothing else.
   */
  method ConvertPixel(rgb: array<Byte>, grey: array<Byte>, p: nat)
    requires rgb != grey && 3 * p + 2 < rgb.Length && p < grey.Length
    modifies grey
    ensures grey[p] == PixelLuma(rgb[..], p)
    ensures forall q :: 0 <= q < grey.Length && q != p ==> grey[q] == old(grey[q])
  {
    var red, green, blue := rgb[p * 3 + 0], rgb[p * 3 + 1], rgb[p * 3 + 2];
    var luma := Luma(red, green, blue);
    grey[p] := luma;
  }

  /**
   * One pass of the outer loop of `convert_rgb_to_grayscale_naive`: writes
   * the grey level of every pixel of row i, at i * width + j, and nothing else.
   */
  method ConvertRow(rgb: array<Byte>, grey: array<Byte>, width: nat, height: nat, i: nat)
    requires rgb != grey && 3 * (width * height) <= rgb.Length && width * height <= grey.Length
    requires i < height && RowStart(i + 1, width) <= width * height
    modifies grey
    ensures forall p :: RowStart(i, width) <= p < RowStart(i + 1, width) ==> grey[p] == PixelLuma(rgb[..], p)
    ensures forall p :: 0 <= p < grey.Length && !(RowStart(i, width) <= p < RowStart(i + 1, width)) ==>
              grey[p] == old(grey[p])
  {
    RowStartIsProduct(i, width);
    var row := i * width;
    for j := 0 to width
      invariant forall p :: row <= p < row + j ==> grey[p] == PixelLuma(rgb[..], p)
      invariant forall p :: 0 <= p < grey.Length && !(row <= p < row + j) ==> grey[p] == old(grey[p])
    {
      ConvertPixel(rgb, grey, row + j);
    }
  }

  /**
   * `convert_rgb_to_grayscale_naive`: writes the grey level of every pixel
   * of the width x height RGB image to the grey image. Only the first
   * width * height bytes of the grey image are written; the RGB image is
   * only read.
   */
  method ConvertToGrayscale(rgb: array<Byte>, grey: array<Byte>, width: nat, height: nat)
    requires rgb != grey && 3 * (width * height) <= rgb.Length && width * height <= grey.Length
    modifies grey
    ensures forall p :: 0 <= p < width * height ==> grey[p] == PixelLuma(rgb[..], p)
    ensures forall p :: 0 <= p && width * height <= p < grey.Length ==> grey[p] == old(grey[p])
  {
    RowStartIsProduct(height, width);
    for i := 0 to height
      invariant RowStart(i, width) <= RowStart(height, width)
      invariant forall p :: 0 <= p < RowStart(i, width) ==> grey[p] == PixelLuma(rgb[..], p)
      invariant forall p :: RowStart(height, width) <= p < grey.Length ==> grey[p] == old(grey[p])
    {
      RowStartMono(i + 1, height, width);
      ConvertRow(rgb, grey, width, height, i);
    }
  }

  // ---------------------------------------------------------------------------
  // Integral image

  /** The sum of the first c pixels of row r. */
  ghost function RowPrefix(src: seq<Byte>, width: nat, height: nat, r: nat, c: nat): (s: nat)
    requires width * height <= |src| && r < height && c <= width
    decreases c
  {
    if c == 0 then 0 else RowPrefix(src, width, height, r, c - 1) + src[Idx(r, c - 1, width, height)]
  }

  /** The sum of the pixels in the first r rows and the first c columns. */
  ghost function Rect(src: seq<Byte>, width: nat, height: nat, r: nat, c: nat): (s: nat)
    requires width * height <= |src| && r <= height && c <= width
    decreases r
  {
    if r == 0 then 0 else Rect(src, width, height, r - 1, c) + RowPrefix(src, width, height, r - 1, c)
  }

  /** Adding values kept modulo 2^32 is adding and then reducing. */
  lemma AddMod(a: int, b: int)
    ensures (a % U32Mod + b) % U32Mod == (a + b) % U32Mod
    ensures (a % U32Mod + b % U32Mod) % U32Mod == (a + b) % U32Mod
  {
  }

  /**
   * Entry (r, c) of a table in the middle of the row pass: the rows before
   * i, and the first j entries of row i, hold their row sums modulo 2^32.
   */
  ghost predicate RowPassState(t: seq<U32>, src: seq<Byte>, width: nat, height: nat, i: nat, j: nat)
    requires width * height <= |src| && width * height <= |t|
  {
    forall r, c :: 0 <= r < height && 0 <= c < width && (r < i || (r == i && c < j)) ==>
      t[Idx(r, c, width, height)] == RowPrefix(src, width, height, r, c + 1) % U32Mod
  }

  /** Writing the row sum of entry (i, j) extends the row pass by one entry. */
  lemma RowPassStep(t: seq<U32>, t': seq<U32>, src: seq<Byte>, width: nat, height: nat, i: nat, j: nat, v: U32)
    requires width * height <= |src| && width * height <= |t| && i < height && j < width
    requires RowPassState(t, src, width, height, i, j)
    requires v == RowPrefix(src, width, height, i, j + 1) % U32Mod && t' == t[Idx(i, j, width, height) := v]
    ensures RowPassState(t', src, width, height, i, j + 1)
  {
    forall r, c | 0 <= r < height && 0 <= c < width && (r < i || (r == i && c < j + 1))
      ensures t'[Idx(r, c, width, height)] == RowPrefix(src, width, height, r, c + 1) % U32Mod
    {
      if r != i || c != j {
        IdxInjective(r, c, i, j, width, height);
      }
    }
  }

  /**
   * The row pass of `integrate_image_naive`: afterwards entry (r, c) holds
   * the sum of pixels 0..c of row r, modulo 2^32.
   */
  method IntegrateRows(src: array<Byte>, integral: array<U32>, width: nat, height: nat)
    requires width * height <= src.Length && width * height <= integral.Length
    modifies integral
    ensures RowPassState(integral[..], src[..], width, height, height, 0)
    ensures forall p :: 0 <= p && width * height <= p < integral.Length ==> integral[p] == old(integral[p])
  {
    for i := 0 to height
      invariant RowPassState(integral[..], src[..], width, height, i, 0)
      invariant forall p :: 0 <= p && width * height <= p < integral.Length ==> integral[p] == old(integral[p])
    {
      var acc: U32 := 0;
      for j := 0 to width
        invariant acc == RowPrefix(src[..], width, height, i, j) % U32Mod
        invariant RowPassState(integral[..], src[..], width, height, i, j)
        invariant forall p :: 0 <= p && width * height <= p < integral.Length ==> integral[p] == old(integral[p])
      {
        var p := i * width + j;
        RowStartIsProduct(i, width);
        assert p == Idx(i, j, width, height);
        AddMod(RowPrefix(src[..], width, height, i, j), src[p]);
        acc := (acc + src[p]) % U32Mod;
        ghost var t := integral[..];
        integral[p] := acc;
        RowPassStep(t, integral[..], src[..], width, height, i, j, acc);
      }
    }
  }

  /**
   * Entry (r, c) of a table in the middle of the column pass: the columns
   * before j, and the rows before i of column j, hold the rectangle sums
   * modulo 2^32; the rest still hold the row sums of the row pass.
   */
  ghost predicate ColumnPassState(t: seq<U32>, src: seq<Byte>, width: nat, height: nat, j: nat, i: nat)
    requires width * height <= |src| && width * height <= |t|
  {
    forall r, c :: 0 <= r < height && 0 <= c < width ==>
      t[Idx(r, c, width, height)] == ColumnPassValue(src, width, height, j, i, r, c) % U32Mod
  }

  /** What entry (r, c) holds once the column pass has reached row i of column j. */
  ghost function ColumnPassValue(src: seq<Byte>, width: nat, height: nat, j: nat, i: nat, r: nat, c: nat): nat
    requires width * height <= |src| && r < height && c < width
  {
    if c < j || (c == j && r < i) then Rect(src, width, height, r + 1, c + 1)
    else RowPrefix(src, width, height, r, c + 1)
  }

  /** Writing the rectangle sum of entry (i, j) extends the column pass by one entry. */
  lemma ColumnPassStep(t: seq<U32>, t': seq<U32>, src: seq<Byte>, width: nat, height: nat, j: nat, i: nat, v: U32)
    requires width * height <= |src| && width * height <= |t| && i < height && j < width
    requires ColumnPassState(t, src, width, height, j, i)
    requires v == Rect(src, width, height, i + 1, j + 1) % U32Mod && t' == t[Idx(i, j, width, height) := v]
    ensures ColumnPassState(t', src, width, height, j, i + 1)
  {
    forall r, c | 0 <= r < height && 0 <= c < width
      ensures t'[Idx(r, c, width, height)] == ColumnPassValue(src, width, height, j, i + 1, r, c) % U32Mod
    {
      if r != i || c != j {
        IdxInjective(r, c, i, j, width, height);
        assert ColumnPassValue(src, width, height, j, i + 1, r, c) == ColumnPassValue(src, width, height, j, i, r, c);
      }
    }
  }

  /** The end of the row pass is the start of the column pass. */
  lemma RowsToColumns(t: seq<U32>, src: seq<Byte>, width: nat, height: nat)
    requires width * height <= |src| && width * height <= |t|
    requires RowPassState(t, src, width, height, height, 0)
    ensures ColumnPassState(t, src, width, height, 0, 0)
  {
  }

  /**
   * The column pass of `integrate_image_naive`, in place: afterwards entry
   * (r, c) holds the sum of the pixels in rows 0..r and columns 0..c,
   * modulo 2^32.
   */
  method IntegrateColumns(src: array<Byte>, integral: array<U32>, width: nat, height: nat)
    requires width * height <= src.Length && width * height <= integral.Length
    requires ColumnPassState(integral[..], src[..], width, height, 0, 0)
    modifies integral
    ensures ColumnPassState(integral[..], src[..], width, height, width, 0)
    ensures forall p :: 0 <= p && width * height <= p < integral.Length ==> integral[p] == old(integral[p])
  {
    for j := 0 to width
      invariant ColumnPassState(integral[..], src[..], width, height, j, 0)
      invariant forall p :: 0 <= p && width * height <= p < integral.Length ==> integral[p] == old(integral[p])
    {
      var acc: U32 := 0;
      for i := 0 to height
        invariant acc == Rect(src[..], width, height, i, j + 1) % U32Mod
        invariant ColumnPassState(integral[..], src[..], width, height, j, i)
        invariant forall p :: 0 <= p && width * height <= p < integral.Length ==> integral[p] == old(integral[p])
      {
        var p := i * width + j;
        RowStartIsProduct(i, width);
        assert p == Idx(i, j, width, height);
        AddMod(Rect(src[..], width, height, i, j + 1), RowPrefix(src[..], width, height, i, j + 1));
        acc := (acc + integral[p]) % U32Mod;
        ghost var t := integral[..];
        integral[p] := acc;
        ColumnPassStep(t, integral[..], src[..], width, height, j, i, acc);
      }
    }
  }

  /**
   * `integrate_image_naive`: the integral image of the grey image. Entry
   * (r, c) is the sum of the source pixels in rows 0..r and columns 0..c,
   * modulo 2^32; entries past width * height are untouched.
   */
  method IntegrateImage(src: array<Byte>, integral: array<U32>, width: nat, height: nat)
    requires width * height <= src.Length && width * height <= integral.Length
    modifies integral
    ensures forall r, c :: 0 <= r < height && 0 <= c < width ==>
              integral[Idx(r, c, width, height)] == Rect(src[..], width, height, r + 1, c + 1) % U32Mod
    ensures forall p :: 0 <= p && width * height <= p < integral.Length ==> integral[p] == old(integral[p])
  {
    IntegrateRows(src, integral, width, height);
    RowsToColumns(integral[..], src[..], width, height);
    IntegrateColumns(src, integral, width, height);
  }

  /** A row prefix of c pixels is at most 255 * c. */
  lemma {:induction false} RowPrefixBound(src: seq<Byte>, width: nat, height: nat, r: nat, c: nat)
    requires width * height <= |src| && r < height && c <= width
    ensures RowPrefix(src, width, height, r, c) <= 255 * c
    decreases c
  {
    if c > 0 {
      RowPrefixBound(src, width, height, r, c - 1);
    }
  }

  /** A rectangle of r rows and c columns sums to at most r * (255 * c). */
  lemma {:induction false} RectBound(src: seq<Byte>, width: nat, height: nat, r: nat, c: nat)
    requires width * height <= |src| && r <= height && c <= width
    ensures Rect(src, width, height, r, c) <= r * (255 * c)
    decreases r
  {
    if r > 0 {
      RectBound(src, width, height, r - 1, c);
      RowPrefixBound(src, width, height, r - 1, c);
      var k := 255 * c;
      assert (r - 1) * k + k == r * k;
    }
  }

  /** The bound of an r x c rectangle grows with r and c. */
  lemma RectBoundMono(r: nat, c: nat, height: nat, width: nat)
    requires r <= height && c <= width
    ensures r * (255 * c) <= height * (255 * width)
  {
    MulLe(r, height, 255 * c);
    MulLe(255 * c, 255 * width, height);
  }

  /**
   * Entry (r, c) of the integral image does not wrap around, and so is the
   * exact rectangle sum, whenever the bound 255 * (r + 1) * (c + 1) of that
   * rectangle fits in 32 bits.
   */
  lemma NoWrapAround(src: seq<Byte>, width: nat, height: nat, r: nat, c: nat)
    requires width * height <= |src| && r < height && c < width
    requires (r + 1) * (255 * (c + 1)) < U32Mod
    ensures Rect(src, width, height, r + 1, c + 1) % U32Mod == Rect(src, width, height, r + 1, c + 1)
  {
    RectBound(src, width, height, r + 1, c + 1);
  }

  /** While 255 * width * height fits in 32 bits, no entry of the integral image wraps around. */
  lemma NoWrapAroundImage(src: seq<Byte>, width: nat, height: nat, r: nat, c: nat)
    requires width * height <= |src| && r < height && c < width
    requires height * (255 * width) < U32Mod
    ensures Rect(src, width, height, r + 1, c + 1) % U32Mod == Rect(src, width, height, r + 1, c + 1)
  {
    RectBoundMono(r + 1, c + 1, height, width);
    NoWrapAround(src, width, height, r, c);
  }
}
