/**
 * The two directions of the script composed: a file is cut into chunks and
 * rendered as images (`file_to_images`), the images travel through a video,
 * and the frames read back are scanned and reassembled (`video_to_data`).
 *
 * The images are those of `file_to_images`, `Images(Chunk(data, c), encode)`
 * (the body of `FileToImages`). The channel is described by three functions:
 * `encode` renders a chunk,
 * `transport` is what writing and re-reading the video does to one image,
 * and `decode` scans one frame.
 */
module Pipeline {
  import opened ByteStrings
  import opened Chunker
  import opened FrameEncoder
  import opened Reassembler

  /**
   * The codec is lossless for chunks of the chunker's sizes: a rendered chunk
   * that has gone through the video scans back as exactly that one chunk.
   */
  ghost predicate Lossless<Image, Frame>(c: nat, encode: seq<Byte> -> Image,
                                        transport: Image -> Frame, decode: Frame -> seq<seq<Byte>>)
  {
    forall chunk: seq<Byte> {:trigger encode(chunk)} :: 0 < |chunk| <= c ==> decode(transport(encode(chunk))) == [chunk]
  }

  /** The video holds the images one to one and in order: frame k is image k after transport. */
  ghost predicate Carries<Image, Frame>(images: seq<Image>, frames: seq<Frame>, transport: Image -> Frame)
  {
    |frames| == |images| && forall k :: 0 <= k < |frames| ==> frames[k] == transport(images[k])
  }

  /** When every frame yields exactly its own payload, the payload list is those payloads in order. */
  lemma {:induction false} FragmentsOnePerFrame<Frame>(frames: seq<Frame>, parts: seq<seq<Byte>>,
                                                      decode: Frame -> seq<seq<Byte>>)
    requires |frames| == |parts|
    requires forall k :: 0 <= k < |frames| ==> decode(frames[k]) == [parts[k]]
    ensures Fragments(frames, decode) == parts
    decreases |frames|
  {
    if frames != [] {
      var n := |frames| - 1;
      FragmentsOnePerFrame(frames[..n], parts[..n], decode);
      assert parts == parts[..n] + [parts[n]];
    }
  }

  /** A stretch of frames that each scan as their own part reassembles to those parts. */
  lemma SegmentDecodes<Frame>(frames: seq<Frame>, parts: seq<seq<Byte>>, decode: Frame -> seq<seq<Byte>>,
                              lo: nat, hi: nat)
    requires lo <= hi <= |frames| == |parts|
    requires forall k :: lo <= k < hi ==> decode(frames[k]) == [parts[k]]
    ensures Fragments(frames[lo..hi], decode) == parts[lo..hi]
  {
    FragmentsOnePerFrame(frames[lo..hi], parts[lo..hi], decode);
  }

  /**
   * Frames that each scan as their own part, except frame m where nothing is
   * found, reassemble to all parts but part m.
   */
  lemma ReassembleAroundBlank<Frame>(frames: seq<Frame>, parts: seq<seq<Byte>>,
                                     decode: Frame -> seq<seq<Byte>>, m: nat)
    requires |frames| == |parts|
    requires m < |frames|
    requires forall k :: 0 <= k < |frames| && k != m ==> decode(frames[k]) == [parts[k]]
    requires decode(frames[m]) == []
    ensures Reassemble(frames, decode) == Concat(parts[..m]) + Concat(parts[m + 1..])
  {
    var before, after := frames[..m], frames[m + 1..];
    SegmentDecodes(frames, parts, decode, 0, m);
    SegmentDecodes(frames, parts, decode, m + 1, |frames|);
    assert frames[0..m] == before && parts[0..m] == parts[..m];
    assert frames[m + 1..|frames|] == after && parts[m + 1..|frames|] == parts[m + 1..];
    assert frames == before + [frames[m]] + after;
    ReassembleSkipsBlankFrame(before, frames[m], after, decode);
    ReassembleAppend(before, after, decode);
  }

  /** Under a lossless channel the image of chunk k, once through the video, scans as chunk k. */
  lemma ImageDecodes<Image, Frame>(data: seq<Byte>, c: nat, encode: seq<Byte> -> Image,
                                  transport: Image -> Frame, decode: Frame -> seq<seq<Byte>>, k: nat)
    requires c > 0
    requires Lossless(c, encode, transport, decode)
    requires k < |Chunk(data, c)|
    ensures k < |Images(Chunk(data, c), encode)|
    ensures decode(transport(Images(Chunk(data, c), encode)[k])) == [Chunk(data, c)[k]]
  {
    var chunks := Chunk(data, c);
    assert 0 < |chunks[k]| <= c;
  }

  /** Under a lossless channel each frame read back scans as exactly the chunk it was made from. */
  lemma FramesDecodeToChunks<Image, Frame>(data: seq<Byte>, c: nat, encode: seq<Byte> -> Image,
                                          transport: Image -> Frame, decode: Frame -> seq<seq<Byte>>,
                                          frames: seq<Frame>)
    requires c > 0
    requires Lossless(c, encode, transport, decode)
    requires Carries(Images(Chunk(data, c), encode), frames, transport)
    ensures |frames| == |Chunk(data, c)|
    ensures forall k :: 0 <= k < |frames| ==> decode(frames[k]) == [Chunk(data, c)[k]]
  {
    var chunks := Chunk(data, c);
    forall k | 0 <= k < |frames|
      ensures decode(frames[k]) == [chunks[k]]
    {
      ImageDecodes(data, c, encode, transport, decode, k);
    }
  }

  /**
   * Round trip: with a lossless codec and a video that keeps its frames one to
   * one, reassembling the frames rendered from `data` gives back `data`. For
   * empty input there are no chunks, no frames and the empty result.
   */
  lemma RoundTrip<Image, Frame>(data: seq<Byte>, c: nat, encode: seq<Byte> -> Image,
                                transport: Image -> Frame, decode: Frame -> seq<seq<Byte>>,
                                frames: seq<Frame>)
    requires c > 0
    requires Lossless(c, encode, transport, decode)
    requires Carries(Images(Chunk(data, c), encode), frames, transport)
    ensures Reassemble(frames, decode) == data
  {
    FramesDecodeToChunks(data, c, encode, transport, decode, frames);
    FragmentsOnePerFrame(frames, Chunk(data, c), decode);
    ChunkConcat(data, c);
  }

  /**
   * A frame in which the scanner finds nothing is skipped without notice: the
   * output is the other chunks joined, shorter than the input by that chunk.
   */
  lemma MissedFrameDropsChunk<Image, Frame>(data: seq<Byte>, c: nat, encode: seq<Byte> -> Image,
                                            transport: Image -> Frame, decode: Frame -> seq<seq<Byte>>,
                                            frames: seq<Frame>, m: nat)
    requires c > 0
    requires Lossless(c, encode, transport, decode)
    requires |frames| == |Images(Chunk(data, c), encode)|
    requires m < |frames|
    requires forall k :: 0 <= k < |frames| && k != m ==> frames[k] == transport(Images(Chunk(data, c), encode)[k])
    requires decode(frames[m]) == []
    ensures var chunks := Chunk(data, c);
            Reassemble(frames, decode) == Concat(chunks[..m]) + Concat(chunks[m + 1..])
    ensures |Reassemble(frames, decode)| == |data| - |Chunk(data, c)[m]| < |data|
  {
    var chunks := Chunk(data, c);
    forall k | 0 <= k < |frames| && k != m
      ensures decode(frames[k]) == [chunks[k]]
    {
      ImageDecodes(data, c, encode, transport, decode, k);
    }
    ReassembleAroundBlank(frames, chunks, decode, m);
    assert |Concat(chunks[..m]) + Concat(chunks[m + 1..])| == |data| - |chunks[m]| by {
      ChunkConcat(data, c);
      ConcatAround(chunks, m);
    }
  }

  /**
   * The script run forward and then backward (`main` without and with
   * `--backward`) over a lossless channel: the bytes written out are the bytes
   * read in.
   */
  method ForwardThenBackward<Image, Frame>(data: seq<Byte>, c: nat, encode: seq<Byte> -> Image,
                                           transport: Image -> Frame, decode: Frame -> seq<seq<Byte>>)
    returns (recovered: seq<Byte>)
    requires c > 0
    requires Lossless(c, encode, transport, decode)
    ensures recovered == data
  {
    var images := FileToImages(data, c, encode);
    var frames := seq(|images|, k requires 0 <= k < |images| => transport(images[k]));
    recovered := VideoToData(frames, decode);
    RoundTrip(data, c, encode, transport, decode, frames);
  }
}
