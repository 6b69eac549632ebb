# ExfilQR in Dafny

ExfilQR moves a file through a video. In the forward direction it reads the
file's bytes and cuts them into chunks of `chunk_size` bytes (default 1024,
the last one shorter). It renders each chunk as a QR code at error-correction
level H, binarises the raster to the pixel values 0 and 255, and writes the
images as consecutive frames of a video. In the backward direction it reads
the video frame by frame and scans each frame for barcodes of any kind the
scanner knows. It appends every
payload found to the output, in frame order and, within a frame, in the
scanner's order. A frame where nothing is found adds nothing.

This project models the parts of the script that have logic of their own.
It proves what that logic guarantees:

- `ByteStrings`: the byte type and the joining of byte strings in order.
- `Chunker`: the slicing comprehension of `file_to_images`, with Python's
  clipping slice semantics. The lemmas give the number of chunks (ceil of
  length over `chunk_size`), the closed-form byte range of each chunk, the
  sizes (all full except a non-empty last one) and the concatenation back to
  the input. They also prove that these sizes and the concatenation pin the
  chunk list down uniquely.
- `FrameEncoder`: the per-chunk image map of `file_to_images`, and the `uint8`
  binarisation at the end of `data_to_qr`. The multiplication by 255 is taken
  modulo 256, as `numpy` does, and is shown never to wrap.
- `Reassembler`: `video_to_data` as a method with the source's two nested
  loops. It is proved equal to a pure reassembly function. Lemmas about that
  function cover appending frames, prefix growth, and blank frames being
  skipped.
- `Pipeline`: the round trip. The whole of `data_to_qr` (QR rendering, resize
  and binarisation), the video write/read and the barcode scanner are the
  function parameters `encode`, `transport` and `decode`; `Binarize` models
  the last step of `data_to_qr` on its own.
  "Lossless" is stated as a precondition: every chunk of between 1 and
  `chunk_size` bytes, rendered, carried and scanned, comes back as exactly
  itself. A second precondition says the video holds the images one to one
  and in order. Under both, reassembling the frames gives back the input
  bytes, including the empty file. A further lemma shows the cost of the
  silent skipping of unreadable frames: one missed frame drops its chunk from
  the output without any error.

The script performs no capacity check of its own, so there is no
`CapacityExceeded` error to model. It calls the QR library with `fit=True`,
which chooses a symbol version or raises on its own. A chunk's capacity shows
up only as the range of chunk sizes the lossless assumption covers. The script
encodes sequentially and has no image-size option; neither a worker pool nor
a configurable raster size is modelled.

## Model

| member | source | states |
|---|---|---|
| `Chunker.Slice` | ExfilQR.py:28 | Python slicing `s[lo:hi]` with non-negative bounds: the result is `s[lo..min(hi, len)]`, or empty when `lo >= len` or `hi <= lo`, element by element |
| `Chunker.Chunk` | ExfilQR.py:28 | every chunk holds between 1 and `chunk_size` bytes; the chunk list is empty exactly when the input is empty |
| `Chunker.ChunkCount` | ExfilQR.py:28 | the number of chunks is ceil(len(data) / chunk_size), and zero for empty input |
| `Chunker.ChunkAt` | ExfilQR.py:28 | chunk k is the input range `[k*C, min((k+1)*C, len(data)))`, and `k*C < len(data)` for every chunk |
| `Chunker.ChunkSlices` | ExfilQR.py:28 | chunk k is the Python slice `data[k*C : (k+1)*C]`, the comprehension's element at offset `i = k*C` |
| `Chunker.ChunkSizes` | ExfilQR.py:28 | every chunk but the last has exactly `chunk_size` bytes; the last has `len(data) - (n-1)*C` bytes, between 1 and `chunk_size` |
| `Chunker.ChunkConcat` | ExfilQR.py:28 | joining the chunks in order gives back the input exactly |
| `Chunker.ChunkUnique` | ExfilQR.py:28 | any list of full pieces followed by one non-empty piece of at most `chunk_size` bytes that joins to the input is the chunk list |
| `Chunker.DefaultChunkSizeExample` | ExfilQR.py:24-28 | a 2500-byte input with the default chunk size 1024 gives three chunks of 1024, 1024 and 452 bytes |
| `FrameEncoder.ScalePixel` | ExfilQR.py:20 | `astype(uint8) * 255` in wrapping 8-bit arithmetic gives 255 exactly for a light pixel and 0 exactly for a dark one |
| `FrameEncoder.Binarize` | ExfilQR.py:20 | the binarised raster has the library raster's shape (rows, row widths, any h-by-w shape), and each pixel is 255 where the raster is true and 0 where it is false |
| `FrameEncoder.ThresholdBinarize` | ExfilQR.py:20 | binarising loses nothing: thresholding the 0/255 raster at 128 gives back the boolean raster |
| `FrameEncoder.Images` | ExfilQR.py:29 | there is one image per chunk, and image k is the rendering of chunk k (nothing reordered, dropped or duplicated) |
| `FrameEncoder.FileToImages` | ExfilQR.py:28-29 | `file_to_images` yields ceil(len(data) / C) images, and image k is the rendering of the Python slice `data[k*C : (k+1)*C]` |
| `Reassembler.VideoToData` | ExfilQR.py:35-56 | the loop's result is the in-order join of every payload of every frame; after k frames the accumulator holds exactly the join for those k frames |
| `Reassembler.ReassembleNextFrame` | ExfilQR.py:49-50 | reading one more frame appends exactly that frame's payloads, in detection order |
| `Reassembler.ReassembleAppend` | ExfilQR.py:39-50 | two consecutive stretches of frames reassemble to the two results joined |
| `Reassembler.ReassemblePrefix` | ExfilQR.py:36-50 | the output only grows: the bytes recovered from the first k frames are a prefix of the final result |
| `Reassembler.ReassembleSkipsBlankFrame` | ExfilQR.py:47-50 | a frame where nothing is detected changes nothing, wherever it stands in the video |
| `Pipeline.FragmentsOnePerFrame` | ExfilQR.py:49-50 | when each frame scans as exactly one payload, the payload list is those payloads in frame order |
| `Pipeline.SegmentDecodes` | ExfilQR.py:49-50 | a stretch of frames that each scan as their own payload yields exactly those payloads |
| `Pipeline.ReassembleAroundBlank` | ExfilQR.py:47-50 | if every frame but frame m scans as its own payload and frame m as nothing, the output is all payloads but payload m |
| `Pipeline.ImageDecodes` | ExfilQR.py:29 | under a lossless channel the image of chunk k, once through the video, scans as exactly chunk k |
| `Pipeline.FramesDecodeToChunks` | ExfilQR.py:29 | a video that carries the images one to one has one frame per chunk, and frame k scans as exactly chunk k |
| `Pipeline.RoundTrip` | ExfilQR.py:24-56 | lossless codec plus a one-to-one video: reassembling the frames made from `data` gives `data` (for empty input: no chunks, no frames, empty output) |
| `Pipeline.MissedFrameDropsChunk` | ExfilQR.py:47-50 | if frame m yields no detection, the output is all other chunks joined, and it is shorter than the input by chunk m's length |
| `Pipeline.ForwardThenBackward` | ExfilQR.py:75-81 | running the forward direction and then `video_to_data` over a lossless channel returns exactly the input bytes |

## Left out

- QR rendering and barcode scanning (`qrcode` at ExfilQR.py:11-19, `pyzbar.decode` at ExfilQR.py:47) are library code. `encode` stands for all of `data_to_qr` (ExfilQR.py:10-21), binarisation included; `Binarize` models ExfilQR.py:20 separately. `decode` stands for the gray conversion and the scan. Their behaviour enters only through the `Lossless` precondition.
- Image resizing (ExfilQR.py:19) and the BGR-to-gray conversion (ExfilQR.py:45) are pixel arithmetic inside PIL and OpenCV. They are folded into `encode` and `decode`.
- Writing the video (`images_to_mp4`, ExfilQR.py:58-63) and reading it (`cv2.VideoCapture`, ExfilQR.py:37-40 and 55) are I/O. The reader is a finite sequence of frames. The effect of writing and re-reading on one image is the parameter `transport`. Frame rate and timing carry no logical content and are not modelled.
- Reading and writing the files (ExfilQR.py:25-26 and 77-78), argument parsing (ExfilQR.py:65-73) and the verbose `print` calls are plumbing.
- Behaviour for `chunk_size <= 0` is not modelled; every chunking member requires `c > 0`. Python raises on a zero step and yields no chunks for a negative one.
- Capacity limits are not modelled: the script performs no capacity check of its own, so there is no `CapacityExceeded` result.
- Determinism of encoding: `encode` is a mathematical function, so rendering the same chunk twice gives the same image by construction. Nothing about it is left to prove.
- Frame loss and reordering by a real video container are not modelled in general. The round trip assumes the video keeps its frames one to one; `MissedFrameDropsChunk` covers a single unreadable frame.
