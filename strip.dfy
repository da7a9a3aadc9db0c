// The global LED buffer and the operations that update it in place and push it to the strip.

module Strip {
  import opened Frame

  /** Colour the cascade lights a pixel with: npSetLED(i, 0, 200, 0), i.e. G=200, R=0, B=0. */
  const Green: Pixel := Pixel(200, 0, 0)

  /** A buffer with every pixel off. */
  function Blank(): seq<Pixel>
  {
    seq(LedCount, _ => Off)
  }

  /** The frame of a cleared buffer is 75 zero bytes. */
  lemma BlankFrame()
    ensures Serialize(Blank()) == seq(75, _ => 0)
  {
    SerializeLayout(Blank());
    forall n | 0 <= n < 75
      ensures Serialize(Blank())[n] == 0
    {
      var k := n / 3;
      assert n == 3 * k || n == 3 * k + 1 || n == 3 * k + 2;
      assert Blank()[k] == Off;
    }
  }

  /** What npSetLED does to a buffer: the pixel at an in-range index becomes {G=g, R=r, B=b};
      an index of LedCount or more is silently ignored. */
  function SetPixel(leds: seq<Pixel>, index: nat, r: uint8, g: uint8, b: uint8): (after: seq<Pixel>)
    requires |leds| == LedCount
    ensures |after| == LedCount
  {
    if index < LedCount then leds[index := Pixel(g, r, b)] else leds
  }

  /** An in-range write stores the channels swapped into G, R, B order and touches nothing else. */
  lemma SetPixelInRange(leds: seq<Pixel>, index: nat, r: uint8, g: uint8, b: uint8)
    requires |leds| == LedCount && index < LedCount
    ensures SetPixel(leds, index, r, g, b)[index] == Pixel(g, r, b)
    ensures forall j :: 0 <= j < LedCount && j != index ==> SetPixel(leds, index, r, g, b)[j] == leds[j]
  {
  }

  /** An out-of-range write leaves the whole buffer as it was. */
  lemma SetPixelOutOfRange(leds: seq<Pixel>, index: nat, r: uint8, g: uint8, b: uint8)
    requires |leds| == LedCount && index >= LedCount
    ensures SetPixel(leds, index, r, g, b) == leds
  {
  }

  /** The buffer after step `step` (0-based, 0 <= step < 25) of the cascade's first loop:
      pixels 0..step are green, the rest are as they were at the start. */
  function LitThrough(start: seq<Pixel>, step: int): (leds: seq<Pixel>)
    requires |start| == LedCount
    ensures |leds| == LedCount
  {
    seq(LedCount, j requires 0 <= j < LedCount => if j <= step then Green else start[j])
  }

  /** The buffer after the cascade's second loop has turned off pixels `from`..24:
      those are off, the ones below are still green. */
  function DarkFrom(from: int): (leds: seq<Pixel>)
    ensures |leds| == LedCount
  {
    seq(LedCount, j => if j >= from then Off else Green)
  }

  /** Number of frames the cascade pushes: one per step, 25 up and 25 down. */
  const CascadeSteps: nat := 2 * LedCount

  /** The buffer as the cascade's frame number `k` (0-based) shows it. */
  function CascadeBuffer(start: seq<Pixel>, k: int): (leds: seq<Pixel>)
    requires |start| == LedCount
    ensures |leds| == LedCount
  {
    if k < LedCount then LitThrough(start, k) else DarkFrom(CascadeSteps - 1 - k)
  }

  /** The buffer as each of the cascade's frames shows it, in the order they are sent. */
  function CascadeBuffers(start: seq<Pixel>): (buffers: seq<seq<Pixel>>)
    requires |start| == LedCount
    ensures |buffers| == CascadeSteps
  {
    seq(CascadeSteps, k requires 0 <= k < CascadeSteps => CascadeBuffer(start, k))
  }

  /** Once every pixel has been turned off the buffer is blank. */
  lemma AllDarkIsBlank()
    ensures DarkFrom(0) == Blank()
  {
  }

  /** Frame i of the cascade (i < 25) shows the buffer after lighting pixel i. */
  lemma CascadeBufferRising(start: seq<Pixel>, i: nat)
    requires |start| == LedCount && i < LedCount
    ensures CascadeBuffers(start)[i] == LitThrough(start, i)
  {
  }

  /** Frame 49 - k of the cascade (k < 25) shows the buffer after turning off pixel k. */
  lemma CascadeBufferFalling(start: seq<Pixel>, k: nat)
    requires |start| == LedCount && k < LedCount
    ensures CascadeBuffers(start)[CascadeSteps - 1 - k] == DarkFrom(k)
  {
  }

  /** Step i of the first loop lights pixel i on top of step i - 1. */
  lemma LightStep(start: seq<Pixel>, i: nat)
    requires |start| == LedCount && i < LedCount
    ensures LitThrough(start, i - 1)[i := Green] == LitThrough(start, i)
  {
  }

  /** Step k of the second loop turns off pixel k on top of the previous one. */
  lemma DarkStep(k: nat)
    requires k < LedCount
    ensures DarkFrom(k + 1)[k := Off] == DarkFrom(k)
  {
  }

  /** After step i of the first loop, pixels 0..i are green and the others untouched,
      whatever the buffer held when the cascade started. */
  lemma CascadeRising(start: seq<Pixel>, i: nat, j: nat)
    requires |start| == LedCount && i < LedCount && j < LedCount
    ensures CascadeBuffers(start)[i][j] == if j <= i then Green else start[j]
  {
  }

  /** The last frame of the first loop shows every pixel green. */
  lemma CascadeAllGreen(start: seq<Pixel>)
    requires |start| == LedCount
    ensures CascadeBuffers(start)[LedCount - 1] == seq(LedCount, _ => Green)
  {
  }

  /** After turning off pixel i in the second loop, pixels i..24 are off and 0..i-1 still green. */
  lemma CascadeFalling(start: seq<Pixel>, i: nat, j: nat)
    requires |start| == LedCount && i < LedCount && j < LedCount
    ensures CascadeBuffers(start)[CascadeSteps - 1 - i][j] == if j >= i then Off else Green
  {
  }

  /** The cascade's last frame is all off. */
  lemma CascadeEndsBlank(start: seq<Pixel>)
    requires |start| == LedCount
    ensures CascadeBuffers(start)[CascadeSteps - 1] == Blank()
  {
  }

  /** The cascade sends exactly 50 full frames: 50 * 75 bytes, frame k at bytes 75k..75(k+1). */
  lemma CascadeOutput(start: seq<Pixel>)
    requires |start| == LedCount
    ensures |Frames(CascadeBuffers(start))| == 75 * CascadeSteps
    ensures forall k :: 0 <= k < CascadeSteps ==>
      Frames(CascadeBuffers(start))[75 * k .. 75 * (k + 1)] == Serialize(CascadeBuffers(start)[k])
  {
    var buffers := CascadeBuffers(start);
    FramesLength(buffers);
    forall k | 0 <= k < CascadeSteps
      ensures Frames(buffers)[75 * k .. 75 * (k + 1)] == Serialize(buffers[k])
    {
      FrameAt(buffers, k);
    }
  }

  /** The firmware's LED state: the `leds` array and the bytes pushed so far into the PIO
      state machine's transmit FIFO (one pio_sm_put_blocking call appends one byte). */
  class LedStrip {
    const leds: array<Pixel>
    var out: seq<uint8>

    ghost predicate Valid()
    {
      leds.Length == LedCount
    }

    /** The statically allocated buffer; its contents are not assumed. */
    constructor ()
      ensures Valid() && fresh(leds) && out == []
    {
      leds := new Pixel[LedCount];
      out := [];
    }

    /** The zeroing loop of npInit: every pixel becomes (0,0,0); nothing is sent. */
    method Init()
      requires Valid()
      modifies leds
      ensures Valid() && leds[..] == Blank()
      ensures forall j :: 0 <= j < LedCount ==> leds[j] == Off
    {
      var i := 0;
      while i < LedCount
        invariant 0 <= i <= LedCount
        invariant forall j :: 0 <= j < i ==> leds[j] == Off
      {
        leds[i] := Off;
        i := i + 1;
      }
    }

    /** npSetLED: bounds-checked write of one pixel, channels stored as G, R, B. */
    method SetLed(index: nat, r: uint8, g: uint8, b: uint8)
      requires Valid()
      modifies leds
      ensures leds[..] == SetPixel(old(leds[..]), index, r, g, b)
    {
      if index < LedCount {
        leds[index] := Pixel(g, r, b);
      }
    }

    /** npWrite: pushes pixel 0 to 24, each as G, R, B, and leaves the buffer alone. */
    method Write()
      requires Valid()
      modifies this`out
      ensures out == old(out) + Serialize(leds[..])
    {
      var i := 0;
      while i < LedCount
        invariant 0 <= i <= LedCount
        invariant out == old(out) + Serialize(leds[..i])
      {
        assert leds[..i + 1][..i] == leds[..i];
        out := out + [leds[i].g];
        out := out + [leds[i].r];
        out := out + [leds[i].b];
        i := i + 1;
      }
      assert leds[..LedCount] == leds[..];
    }

    /** npClear: every pixel off, then one frame sent. */
    method Clear()
      requires Valid()
      modifies leds, this`out
      ensures leds[..] == Blank()
      ensures forall j :: 0 <= j < LedCount ==> leds[j] == Off
      ensures out == old(out) + Serialize(Blank())
    {
      var i := 0;
      while i < LedCount
        invariant 0 <= i <= LedCount
        invariant out == old(out)
        invariant forall j :: 0 <= j < i ==> leds[j] == Off
      {
        SetLed(i, 0, 0, 0);
        i := i + 1;
      }
      Write();
    }

    /** efeito_cascata: lights pixels 0..24 green one at a time, then turns 24..0 off one at a
        time, sending a frame after every step. */
    method Cascade()
      requires Valid()
      modifies leds, this`out
      ensures leds[..] == Blank()
      ensures out == old(out) + Frames(CascadeBuffers(old(leds[..])))
    {
      ghost var start := leds[..];
      ghost var shown := CascadeBuffers(start);
      CascadeRise(start);
      CascadeFall(start);
      FramesAppend(shown[..LedCount], shown[LedCount..]);
      assert shown[..LedCount] + shown[LedCount..] == shown;
    }

    /** The first loop of efeito_cascata: npSetLED(i, 0, 200, 0) then npWrite for i = 0..24.
        It sends the cascade's first 25 frames and ends with every pixel green, which is
        DarkFrom(LedCount). */
    method CascadeRise(ghost start: seq<Pixel>)
      requires Valid() && leds[..] == start
      modifies leds, this`out
      ensures leds[..] == DarkFrom(LedCount)
      ensures out == old(out) + Frames(CascadeBuffers(start)[..LedCount])
    {
      ghost var shown := CascadeBuffers(start);
      var i := 0;
      while i < LedCount
        invariant 0 <= i <= LedCount
        invariant leds[..] == LitThrough(start, i - 1)
        invariant out == old(out) + Frames(shown[..i])
      {
        LightStep(start, i);
        CascadeBufferRising(start, i);
        SetLed(i, 0, 200, 0);
        FramesExtend(shown, i, old(out), out);
        Write();
        i := i + 1;
      }
      assert LitThrough(start, LedCount - 1) == DarkFrom(LedCount);
    }

    /** The second loop of efeito_cascata: npSetLED(i, 0, 0, 0) then npWrite for i = 24 down
        to 0. It sends the cascade's last 25 frames and ends with every pixel off. */
    method CascadeFall(ghost start: seq<Pixel>)
      requires Valid() && |start| == LedCount
      requires leds[..] == DarkFrom(LedCount)
      modifies leds, this`out
      ensures leds[..] == Blank()
      ensures out == old(out) + Frames(CascadeBuffers(start)[LedCount..])
    {
      ghost var tail := CascadeBuffers(start)[LedCount..];
      ghost var sent: nat := 0;
      var k := LedCount - 1;
      while k >= 0
        invariant -1 <= k <= LedCount - 1
        invariant sent == LedCount - 1 - k
        invariant leds[..] == DarkFrom(k + 1)
        invariant out == old(out) + Frames(tail[..sent])
      {
        DarkStep(k);
        CascadeBufferFalling(start, k);
        assert tail[sent] == CascadeBuffers(start)[CascadeSteps - 1 - k];
        SetLed(k, 0, 0, 0);
        FramesExtend(tail, sent, old(out), out);
        Write();
        k := k - 1;
        sent := sent + 1;
      }
      FramesComplete(tail, sent, old(out), out);
      AllDarkIsBlank();
    }
  }
}
