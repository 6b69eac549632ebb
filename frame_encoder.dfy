/**
 * The forward direction past the chunker: `data_to_qr`'s final step, which
 * turns the barcode library's boolean raster into 8-bit pixels, and the map in
 * `file_to_images` that renders one image per chunk.
 *
 * The parameter `encode` stands for the whole of `data_to_qr` (ExfilQR.py
 * lines 10-21): the `qrcode` renderer, its resize and the binarisation.
 * `Binarize` models that last step on its own; the rest is library code.
 */
module FrameEncoder {
  import opened ByteStrings
  import opened Chunker

  /** A raster as the barcode library hands it over: rows of pixels, `true` for light. */
  type BoolRaster = seq<seq<bool>>

  /** An 8-bit grayscale raster, as `numpy` holds a `uint8` array. */
  type GrayRaster = seq<seq<Byte>>

  /** The raster has `h` rows of `w` pixels each. */
  predicate IsShape<T>(m: seq<seq<T>>, h: nat, w: nat)
  {
    |m| == h && forall i :: 0 <= i < |m| ==> |m[i]| == w
  }

  /** `numpy`'s `astype(np.uint8)` on one boolean: `True` is 1, `False` is 0. */
  function AsUint8(b: bool): Byte
  {
    if b then 1 else 0
  }

  /**
   * One pixel of `np.array(img).astype(np.uint8) * 255`. The product is taken in
   * `uint8`, that is modulo 256 (bv8 arithmetic wraps the same way).
   */
  function ScalePixel(b: bool): (p: Byte)
    ensures p == 255 <==> b
    ensures p == 0 <==> !b
  {
    AsUint8(b) * 255
  }

  /** The binarisation of ExfilQR.py line 20, applied pixel by pixel. */
  function Binarize(raster: BoolRaster): (r: GrayRaster)
    ensures |r| == |raster|
    ensures forall i :: 0 <= i < |r| ==> |r[i]| == |raster[i]|
    ensures forall i, j :: 0 <= i < |r| && 0 <= j < |r[i]| ==>
              r[i][j] == if raster[i][j] then 255 else 0
    ensures forall h: nat, w: nat :: IsShape(raster, h, w) ==> IsShape(r, h, w)
  {
    seq(|raster|, i requires 0 <= i < |raster| =>
      seq(|raster[i]|, j requires 0 <= j < |raster[i]| => ScalePixel(raster[i][j])))
  }

  /** Reads a gray raster back to booleans: a pixel is light when it is at least 128. */
  function Threshold(gray: GrayRaster): BoolRaster
  {
    seq(|gray|, i requires 0 <= i < |gray| =>
      seq(|gray[i]|, j requires 0 <= j < |gray[i]| => gray[i][j] >= 128))
  }

  /**
   * Binarisation loses nothing: thresholding the 0/255 raster at mid-gray gives
   * back the library's raster exactly.
   */
  lemma ThresholdBinarize(raster: BoolRaster)
    ensures Threshold(Binarize(raster)) == raster
  {
    var r := Threshold(Binarize(raster));
    forall i | 0 <= i < |raster|
      ensures r[i] == raster[i]
    {
      assert |r[i]| == |raster[i]|;
    }
  }

  /** `[data_to_qr(chunk) for chunk in chunks]`: one image per chunk, in order. */
  function Images<Image>(chunks: seq<seq<Byte>>, encode: seq<Byte> -> Image): (r: seq<Image>)
    ensures |r| == |chunks|
    ensures forall k :: 0 <= k < |r| ==> r[k] == encode(chunks[k])
  {
    if chunks == [] then [] else [encode(chunks[0])] + Images(chunks[1..], encode)
  }

  /**
   * `file_to_images` after the file has been read (ExfilQR.py lines 28-29):
   * there are ceil(len(data) / c) images, and image k is the rendering of the
   * Python slice `data[k*c : (k+1)*c]`.
   */
  function FileToImages<Image>(data: seq<Byte>, c: nat, encode: seq<Byte> -> Image): (r: seq<Image>)
    requires c > 0
    ensures |r| == CeilDiv(|data|, c)
    ensures forall k :: 0 <= k < |r| ==> r[k] == encode(Slice(data, k * c, (k + 1) * c))
  {
    ChunkCount(data, c);
    ChunkSlices(data, c);
    Images(Chunk(data, c), encode)
  }
}
