/**
 * The reverse direction, `video_to_data`: frames are read in playback order,
 * each is scanned for barcodes, and every payload found is appended to the
 * output in the order the detector reports it.
 *
 * The video reader is a finite sequence of frames; the grayscale conversion
 * and the `pyzbar` scanner together are the parameter `decode`, which gives
 * the payloads found in one frame (none when the frame is unreadable).
 */
module Reassembler {
  import opened ByteStrings

  /** Every payload of every frame: frame by frame, and within a frame in detection order. */
  function Fragments<Frame>(frames: seq<Frame>, decode: Frame -> seq<seq<Byte>>): seq<seq<Byte>>
  {
    if frames == [] then []
    else Fragments(frames[..|frames| - 1], decode) + decode(frames[|frames| - 1])
  }

  /** The bytes recovered from the frames: all payloads joined in order. */
  function Reassemble<Frame>(frames: seq<Frame>, decode: Frame -> seq<seq<Byte>>): seq<Byte>
  {
    Concat(Fragments(frames, decode))
  }

  /** Reading one more frame appends exactly that frame's payloads. */
  lemma ReassembleNextFrame<Frame>(frames: seq<Frame>, x: Frame, decode: Frame -> seq<seq<Byte>>)
    ensures Reassemble(frames + [x], decode) == Reassemble(frames, decode) + Concat(decode(x))
  {
    assert (frames + [x])[..|frames|] == frames;
    ConcatAppend(Fragments(frames, decode), decode(x));
  }

  /** The payload list of two stretches of frames is the two payload lists joined. */
  lemma {:induction false} FragmentsAppend<Frame>(a: seq<Frame>, b: seq<Frame>, decode: Frame -> seq<seq<Byte>>)
    ensures Fragments(a + b, decode) == Fragments(a, decode) + Fragments(b, decode)
    decreases |b|
  {
    if b == [] {
      assert a + b == a;
    } else {
      var b', x := b[..|b| - 1], b[|b| - 1];
      assert a + b == (a + b') + [x];
      assert b == b' + [x];
      assert (a + b)[..|a + b| - 1] == a + b';
      FragmentsAppend(a, b', decode);
    }
  }

  /** Two stretches of video reassemble to the two results joined. */
  lemma ReassembleAppend<Frame>(a: seq<Frame>, b: seq<Frame>, decode: Frame -> seq<seq<Byte>>)
    ensures Reassemble(a + b, decode) == Reassemble(a, decode) + Reassemble(b, decode)
  {
    FragmentsAppend(a, b, decode);
    ConcatAppend(Fragments(a, decode), Fragments(b, decode));
  }

  /**
   * The output only grows: what has been recovered from the first k frames is
   * a prefix of what is recovered from the whole video.
   */
  lemma ReassemblePrefix<Frame>(frames: seq<Frame>, k: nat, decode: Frame -> seq<seq<Byte>>)
    requires k <= |frames|
    ensures Reassemble(frames[..k], decode) <= Reassemble(frames, decode)
  {
    assert frames == frames[..k] + frames[k..];
    ReassembleAppend(frames[..k], frames[k..], decode);
  }

  /** A frame in which nothing is detected contributes nothing, wherever it stands. */
  lemma ReassembleSkipsBlankFrame<Frame>(a: seq<Frame>, x: Frame, b: seq<Frame>, decode: Frame -> seq<seq<Byte>>)
    requires decode(x) == []
    ensures Reassemble(a + [x] + b, decode) == Reassemble(a + b, decode)
  {
    ReassembleAppend(a + [x], b, decode);
    ReassembleNextFrame(a, x, decode);
    assert Concat(decode(x)) == [];
    ReassembleAppend(a, b, decode);
  }

  /**
   * `video_to_data` (ExfilQR.py lines 35-56). The outer loop stands for
   * `while True: ret, frame = cap.read(); if not ret: break`, which ends when
   * the frames run out; the inner loop is `for obj in decoded_objects:
   * data += bytes(obj.data)`.
   */
  method VideoToData<Frame>(frames: seq<Frame>, decode: Frame -> seq<seq<Byte>>) returns (data: seq<Byte>)
    ensures data == Reassemble(frames, decode)
  {
    data := [];
    var i := 0;
    while i < |frames|
      invariant 0 <= i <= |frames|
      invariant data == Reassemble(frames[..i], decode)
    {
      var frame := frames[i];
      var decodedObjects := decode(frame);
      ghost var before := data;
      var j := 0;
      while j < |decodedObjects|
        invariant 0 <= j <= |decodedObjects|
        invariant data == before + Concat(decodedObjects[..j])
      {
        ConcatSnoc(decodedObjects[..j], decodedObjects[j]);
        assert decodedObjects[..j + 1] == decodedObjects[..j] + [decodedObjects[j]];
        data := data + decodedObjects[j];
        j := j + 1;
      }
      assert decodedObjects[..j] == decodedObjects;
      assert frames[..i + 1] == frames[..i] + [frame];
      ReassembleNextFrame(frames[..i], frame, decode);
      i := i + 1;
    }
    assert frames[..i] == frames;
  }
}
