/**
 * The PC app's conversion of a thresholded W x H image into the SSD1306
 * page-ordered frame buffer (`image_to_ssd1306_buffer`). The panel is split
 * into pages of 8 pixel rows; byte `x + page * width` holds column `x` of
 * page `page`, with bit `b` lit iff pixel `(x, page * 8 + b)` is lit.
 */
module Ssd1306Buffer {

  /** Grey level at or above which a pixel is lit (`0 if p < 128 else 1`). */
  const LitLevel: int := 128

  /** Pixel rows of an image: `px[y][x]` is the pixel at column x, row y. */
  ghost predicate IsBitmap(px: seq<seq<bool>>, width: nat, height: nat)
  {
    |px| == height && forall y :: 0 <= y < height ==> |px[y]| == width
  }

  /** The 1-bit threshold applied to one grey level. */
  function Lit(p: int): (lit: bool)
    ensures lit <==> p >= LitLevel
  {
    if p < LitLevel then false else true
  }

  /** Thresholds a grey image pixel by pixel, keeping its shape. */
  function Threshold(grey: seq<seq<int>>): (px: seq<seq<bool>>)
    ensures |px| == |grey|
    ensures forall y :: 0 <= y < |grey| ==> |px[y]| == |grey[y]|
    ensures forall y, x :: 0 <= y < |grey| && 0 <= x < |grey[y]| ==> (px[y][x] <==> grey[y][x] >= LitLevel)
  {
    seq(|grey|, y requires 0 <= y < |grey| => seq(|grey[y]|, x requires 0 <= x < |grey[y]| => Lit(grey[y][x])))
  }

  /** Bit `j` of byte `b`. */
  predicate Bit(b: bv8, j: nat)
    requires j < 8
  {
    b & ((1 as bv8) << j) != 0
  }

  /** Sets bit `j` of an accumulator for every lit pixel `bits[j]` (`byte |= 1 << bit`). */
  function PackBits(bits: seq<bool>): bv8
    requires |bits| <= 8
  {
    if bits == [] then 0
    else PackBits(bits[..|bits| - 1]) | (if bits[|bits| - 1] then (1 as bv8) << (|bits| - 1) else 0)
  }

  /** Packing one more pixel ORs its bit into the byte packed so far. */
  lemma PackBitsStep(bits: seq<bool>, k: nat)
    requires |bits| <= 8 && k < |bits|
    ensures PackBits(bits[..k + 1]) == PackBits(bits[..k]) | (if bits[k] then (1 as bv8) << k else 0)
  {
    assert bits[..k + 1][..k] == bits[..k];
  }

  lemma BitOr(a: bv8, b: bv8, j: nat)
    requires j < 8
    ensures Bit(a | b, j) <==> Bit(a, j) || Bit(b, j)
  {
  }

  lemma BitOfShift(k: nat, j: nat)
    requires k < 8 && j < 8
    ensures Bit((1 as bv8) << k, j) <==> j == k
  {
  }

  /** Bit `j` of the packed byte is lit iff pixel `j` is; bits past the pixels are clear. */
  lemma {:induction false} PackBitsBit(bits: seq<bool>, j: nat)
    requires |bits| <= 8 && j < 8
    ensures Bit(PackBits(bits), j) <==> j < |bits| && bits[j]
  {
    if bits != [] {
      var n := |bits| - 1;
      var init := bits[..n];
      var m: bv8 := if bits[n] then (1 as bv8) << n else 0;
      PackBitsBit(init, j);
      BitOr(PackBits(init), m, j);
      if bits[n] {
        BitOfShift(n, j);
      }
    }
  }

  /** The 8 pixels of column `x` in page `page`, top row first. */
  function Column(px: seq<seq<bool>>, width: nat, height: nat, x: nat, page: nat): (col: seq<bool>)
    requires IsBitmap(px, width, height) && x < width && page < height / 8
    ensures |col| == 8
  {
    seq(8, bit requires 0 <= bit < 8 => px[page * 8 + bit][x])
  }

  // Nonlinear arithmetic facts behind the page-major index `x + page * width`.
  lemma MulNonneg(a: int, b: int)
    requires a >= 0 && b >= 0
    ensures a * b >= 0
  {
  }

  lemma MulMono(a: int, b: int, w: int)
    requires a <= b && w >= 0
    ensures a * w <= b * w
  {
    MulNonneg(b - a, w);
    assert (b - a) * w == b * w - a * w;
  }

  lemma DivModUnique(i: int, w: int, q: int, r: int)
    requires w > 0 && 0 <= r < w && i == q * w + r
    ensures i / w == q && i % w == r
  {
    var q', r' := i / w, i % w;
    assert q' * w + r' == i;
    if q' > q {
      assert (q + 1) * w == q * w + w;
      MulMono(q + 1, q', w);
    } else if q' < q {
      assert (q' + 1) * w == q' * w + w;
      MulMono(q' + 1, q, w);
    }
  }

  /** Where column x of page `page` is stored: in range, and it decodes back to (x, page). */
  lemma PageIndex(x: int, page: int, width: int, pages: int)
    requires 0 <= x < width && 0 <= page < pages
    ensures 0 <= x + page * width < width * pages
    ensures (x + page * width) % width == x && (x + page * width) / width == page
  {
    MulNonneg(page, width);
    MulMono(page + 1, pages, width);
    assert (page + 1) * width == page * width + width;
    assert width * pages == pages * width;
    DivModUnique(x + page * width, width, page, x);
  }

  /** Every (column, page) pair writes its own in-range byte, so each byte is written once. */
  lemma PageIndexInjective(x1: int, page1: int, x2: int, page2: int, width: int, pages: int)
    requires 0 <= x1 < width && 0 <= page1 < pages
    requires 0 <= x2 < width && 0 <= page2 < pages
    requires x1 + page1 * width == x2 + page2 * width
    ensures x1 == x2 && page1 == page2
  {
    PageIndex(x1, page1, width, pages);
    PageIndex(x2, page2, width, pages);
  }

  /** The byte at index `i` of the frame buffer: column `i % width` of page `i / width`, packed. */
  function ByteAt(px: seq<seq<bool>>, width: nat, height: nat, i: int): bv8
    requires IsBitmap(px, width, height) && width > 0 && 0 <= i < width * (height / 8)
  {
    PageIndexBounds(i, width, height / 8);
    PackBits(Column(px, width, height, i % width, i / width))
  }

  /** The frame buffer the conversion produces, one byte per column per page. */
  function Packed(px: seq<seq<bool>>, width: nat, height: nat): (buf: seq<bv8>)
    requires IsBitmap(px, width, height)
    ensures |buf| == width * (height / 8)
  {
    if width == 0 then []
    else seq(width * (height / 8), i requires 0 <= i < width * (height / 8) => ByteAt(px, width, height, i))
  }

  /** Every byte index names a column and a page inside the image. */
  lemma PageIndexBounds(i: int, width: int, pages: int)
    requires width > 0 && 0 <= i < width * pages
    ensures 0 <= i % width < width && 0 <= i / width < pages
  {
    assert i / width * width + i % width == i;
  }

  /**
   * The packed byte for column x of page `page` sits at `x + page * width`,
   * and its bit `bit` is lit iff pixel `(x, page * 8 + bit)` is lit.
   */
  lemma PackedBit(px: seq<seq<bool>>, width: nat, height: nat, x: nat, page: nat, bit: nat)
    requires IsBitmap(px, width, height) && x < width && page < height / 8 && bit < 8
    ensures x + page * width < |Packed(px, width, height)|
    ensures Bit(Packed(px, width, height)[x + page * width], bit) <==> px[page * 8 + bit][x]
  {
    var i := x + page * width;
    PageIndex(x, page, width, height / 8);
    assert Packed(px, width, height)[i] == PackBits(Column(px, width, height, x, page)) by {
      assert Packed(px, width, height)[i] == ByteAt(px, width, height, i);
    }
    PackBitsBit(Column(px, width, height, x, page), bit);
  }

  /** The innermost loop: accumulates the 8 pixels of column x in page `page` into one byte. */
  method PageByte(px: seq<seq<bool>>, width: nat, height: nat, x: nat, page: nat) returns (byte: bv8)
    requires IsBitmap(px, width, height) && x < width && page < height / 8
    ensures byte == PackBits(Column(px, width, height, x, page))
    ensures forall bit :: 0 <= bit < 8 ==> (Bit(byte, bit) <==> px[page * 8 + bit][x])
  {
    ghost var col := Column(px, width, height, x, page);
    assert page * 8 + 8 <= height;
    byte := 0;
    for bit := 0 to 8
      invariant byte == PackBits(col[..bit])
    {
      var y := page * 8 + bit;
      PackBitsStep(col, bit);
      assert col[bit] == px[y][x];
      if px[y][x] {
        byte := byte | ((1 as bv8) << bit);
      }
    }
    assert col[..8] == col;
    forall bit | 0 <= bit < 8
      ensures Bit(byte, bit) <==> px[page * 8 + bit][x]
    {
      PackBitsBit(col, bit);
    }
  }

  /**
   * `image_to_ssd1306_buffer` from the thresholded pixels on: one byte per
   * column per page, filled column by column, each byte accumulated bit by bit.
   */
  method ImageToBuffer(px: seq<seq<bool>>, width: nat, height: nat) returns (buf: seq<bv8>)
    requires IsBitmap(px, width, height)
    ensures |buf| == width * (height / 8)
    ensures width == 128 && height == 32 ==> |buf| == 512
    ensures buf == Packed(px, width, height)
  {
    var pages := height / 8;
    var a := new bv8[width * pages];
    if width == 0 {
      return a[..];
    }
    for x := 0 to width
      invariant forall i :: 0 <= i < a.Length && i % width < x ==> a[i] == ByteAt(px, width, height, i)
    {
      for page := 0 to pages
        invariant forall i :: 0 <= i < a.Length && Written(i, width, x, page) ==> a[i] == ByteAt(px, width, height, i)
      {
        var byte := PageByte(px, width, height, x, page);
        var idx := x + page * width;
        PageIndex(x, page, width, pages);
        assert byte == ByteAt(px, width, height, idx);
        a[idx] := byte;
        forall i | 0 <= i < a.Length && Written(i, width, x, page + 1)
          ensures a[i] == ByteAt(px, width, height, i)
        {
          WrittenNext(i, width, x, page);
        }
      }
      forall i | 0 <= i < a.Length && i % width < x + 1
        ensures a[i] == ByteAt(px, width, height, i)
      {
        WrittenColumn(i, width, x, pages);
      }
    }
    buf := a[..];
  }

  /** Writing byte (x, page) extends the written set by exactly that byte. */
  lemma WrittenNext(i: int, width: int, x: int, page: int)
    requires width > 0 && 0 <= i && 0 <= x < width && 0 <= page
    ensures Written(i, width, x, page + 1) <==> Written(i, width, x, page) || i == x + page * width
  {
    assert i / width * width + i % width == i;
    if i == x + page * width {
      DivModUnique(i, width, page, x);
    }
  }

  /** Once every page of column x is written, all of columns 0..x are. */
  lemma WrittenColumn(i: int, width: int, x: int, pages: int)
    requires width > 0 && 0 <= i < width * pages
    ensures i % width < x + 1 ==> Written(i, width, x, pages)
  {
    PageIndexBounds(i, width, pages);
  }

  /** Column-major fill order: byte `i` is done once its column is passed, or its page in the current column. */
  predicate Written(i: int, width: int, x: int, page: int)
    requires width > 0
  {
    i % width < x || (i % width == x && i / width < page)
  }
}
