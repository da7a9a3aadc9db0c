// Pixels of the 5x5 WS2812 matrix and the byte frames that carry them to the strip.

module Frame {

  /** An 8-bit channel value (C's uint8_t). */
  newtype uint8 = x: int | 0 <= x < 256

  /** Number of pixels on the matrix (LED_COUNT). */
  const LedCount: nat := 25

  /** One pixel, with its channels in the order the strip expects them: G, R, B. */
  datatype Pixel = Pixel(g: uint8, r: uint8, b: uint8)

  const Off: Pixel := Pixel(0, 0, 0)

  /** The three bytes a pixel is sent as, green first. */
  function PixelBytes(p: Pixel): seq<uint8>
  {
    [p.g, p.r, p.b]
  }

  /** The bytes pushed to the strip for a buffer, pixel 0 first. */
  function Serialize(leds: seq<Pixel>): (bytes: seq<uint8>)
    ensures |bytes| == 3 * |leds|
  {
    if leds == [] then [] else Serialize(leds[..|leds| - 1]) + PixelBytes(leds[|leds| - 1])
  }

  /** Byte layout of a serialized buffer: pixel k occupies bytes 3k, 3k+1, 3k+2 as G, R, B. */
  lemma {:induction false} SerializeLayout(leds: seq<Pixel>)
    ensures |Serialize(leds)| == 3 * |leds|
    ensures forall k :: 0 <= k < |leds| ==>
      Serialize(leds)[3 * k] == leds[k].g &&
      Serialize(leds)[3 * k + 1] == leds[k].r &&
      Serialize(leds)[3 * k + 2] == leds[k].b
  {
    if leds != [] {
      var front := leds[..|leds| - 1];
      SerializeLayout(front);
      forall k | 0 <= k < |leds|
        ensures Serialize(leds)[3 * k] == leds[k].g
        ensures Serialize(leds)[3 * k + 1] == leds[k].r
        ensures Serialize(leds)[3 * k + 2] == leds[k].b
      {
        if k < |front| {
          assert leds[k] == front[k];
        }
      }
    }
  }

  /** A full frame holds exactly 75 bytes, three per pixel. Frame sizes are written as the
      literal 75 throughout, so that a frame count times the frame size stays linear. */
  lemma FrameLength(leds: seq<Pixel>)
    requires |leds| == LedCount
    ensures |Serialize(leds)| == 75
  {
    SerializeLayout(leds);
  }

  /** The byte stream of several consecutive frames, first frame first. */
  function Frames(buffers: seq<seq<Pixel>>): seq<uint8>
  {
    if buffers == [] then []
    else Frames(buffers[..|buffers| - 1]) + Serialize(buffers[|buffers| - 1])
  }

  /** A stream that holds the frames of the first n buffers, followed by the frame of buffer n,
      holds the frames of the first n + 1. */
  lemma FramesExtend(buffers: seq<seq<Pixel>>, n: nat, base: seq<uint8>, bytes: seq<uint8>)
    requires n < |buffers| && bytes == base + Frames(buffers[..n])
    ensures bytes + Serialize(buffers[n]) == base + Frames(buffers[..n + 1])
  {
    assert buffers[..n + 1][..n] == buffers[..n];
  }

  /** A stream that holds the frames of every buffer's prefix holds the frames of them all. */
  lemma FramesComplete(buffers: seq<seq<Pixel>>, n: nat, base: seq<uint8>, bytes: seq<uint8>)
    requires n == |buffers| && bytes == base + Frames(buffers[..n])
    ensures bytes == base + Frames(buffers)
  {
    assert buffers[..n] == buffers;
  }

  /** Every buffer is a full 25-pixel buffer. */
  ghost predicate AllFull(buffers: seq<seq<Pixel>>)
  {
    forall k :: 0 <= k < |buffers| ==> |buffers[k]| == LedCount
  }

  /** Emitting one more frame appends exactly its bytes. */
  lemma FramesSnoc(buffers: seq<seq<Pixel>>, leds: seq<Pixel>)
    ensures Frames(buffers + [leds]) == Frames(buffers) + Serialize(leds)
  {
  }

  /** The stream of two runs of frames is the stream of the first followed by that of the second. */
  lemma {:induction false} FramesAppend(first: seq<seq<Pixel>>, second: seq<seq<Pixel>>)
    ensures Frames(first + second) == Frames(first) + Frames(second)
  {
    if second == [] {
      assert first + second == first;
    } else {
      var n := |second| - 1;
      var front, last := second[..n], second[n];
      assert second == front + [last];
      assert first + second == (first + front) + [last];
      calc {
        Frames(first + second);
        Frames((first + front) + [last]);
        { FramesSnoc(first + front, last); }
        Frames(first + front) + Serialize(last);
        { FramesAppend(first, front); }
        (Frames(first) + Frames(front)) + Serialize(last);
        Frames(first) + (Frames(front) + Serialize(last));
        { FramesSnoc(front, last); }
        Frames(first) + Frames(second);
      }
    }
  }

  /** Frames of full buffers take 75 bytes each. */
  lemma {:induction false} FramesLength(buffers: seq<seq<Pixel>>)
    requires AllFull(buffers)
    ensures |Frames(buffers)| == 75 * |buffers|
  {
    if buffers != [] {
      var n := |buffers| - 1;
      FramesLength(buffers[..n]);
      FrameLength(buffers[n]);
    }
  }

  /** Frame k of a stream of full frames is bytes 75k up to 75(k+1). */
  lemma {:induction false} FrameAt(buffers: seq<seq<Pixel>>, k: nat)
    requires AllFull(buffers) && k < |buffers|
    ensures 75 * (k + 1) <= |Frames(buffers)|
    ensures Frames(buffers)[75 * k .. 75 * (k + 1)] == Serialize(buffers[k])
  {
    var n := |buffers| - 1;
    var front := buffers[..n];
    FramesLength(buffers);
    FramesLength(front);
    FrameLength(buffers[n]);
    var all := Frames(buffers);
    assert all == Frames(front) + Serialize(buffers[n]);
    if k < n {
      FrameAt(front, k);
      assert buffers[k] == front[k];
      assert all[75 * k .. 75 * (k + 1)] == Frames(front)[75 * k .. 75 * (k + 1)];
    } else {
      assert all[75 * k ..] == Serialize(buffers[n]);
    }
  }
}
