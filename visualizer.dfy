// One pass of the firmware's endless main loop, with the loudness measurement as an input.

module Visualizer {
  import opened Frame
  import opened Strip

  /** The buffers the strip is sent during one pass, in order: the cascade's 50 frames and the
      closing npWrite when loud; npClear's frame and the closing npWrite when quiet. */
  function IterationBuffers(start: seq<Pixel>, loud: bool): (buffers: seq<seq<Pixel>>)
    requires |start| == LedCount
    ensures |buffers| == if loud then CascadeSteps + 1 else 2
  {
    if loud then CascadeBuffers(start) + [Blank()] else [Blank(), Blank()]
  }

  /** A pass sends 51 frames when loud and 2 when quiet, every one of them full, and the last
      one (the closing npWrite) shows every pixel off. */
  lemma IterationFrameCount(start: seq<Pixel>, loud: bool)
    requires |start| == LedCount
    ensures |IterationBuffers(start, loud)| == if loud then CascadeSteps + 1 else 2
    ensures AllFull(IterationBuffers(start, loud))
    ensures IterationBuffers(start, loud)[|IterationBuffers(start, loud)| - 1] == Blank()
    ensures |Frames(IterationBuffers(start, loud))| == 75 * (if loud then CascadeSteps + 1 else 2)
  {
    var buffers := IterationBuffers(start, loud);
    if loud {
      forall k | 0 <= k < CascadeSteps
        ensures |buffers[k]| == LedCount
      {
        assert buffers[k] == CascadeBuffers(start)[k];
      }
    }
    FramesLength(buffers);
  }

  /** The bytes of a pass: the cascade's frames or npClear's frame, then the closing frame. */
  lemma IterationStream(start: seq<Pixel>, loud: bool)
    requires |start| == LedCount
    ensures Frames(IterationBuffers(start, loud)) ==
      (if loud then Frames(CascadeBuffers(start)) else Serialize(Blank())) + Serialize(Blank())
  {
    if loud {
      FramesSnoc(CascadeBuffers(start), Blank());
    } else {
      FramesSnoc([], Blank());
      FramesSnoc([Blank()], Blank());
      assert [] + [Blank()] == [Blank()];
      assert [Blank()] + [Blank()] == IterationBuffers(start, loud);
    }
  }

  /** The body of main's while (true): the cascade when the sound is loud, npClear otherwise,
      then one more npWrite. The RMS measurement and its 0.25 V threshold are the `loud` input.
      Either way the pass ends with every pixel off. */
  method LoopIteration(strip: LedStrip, loud: bool)
    requires strip.Valid()
    modifies strip.leds, strip`out
    ensures strip.leds[..] == Blank()
    ensures strip.out == old(strip.out) + Frames(IterationBuffers(old(strip.leds[..]), loud))
  {
    ghost var start := strip.leds[..];
    IterationStream(start, loud);
    if loud {
      strip.Cascade();
    } else {
      strip.Clear();
    }
    strip.Write();
  }
}
