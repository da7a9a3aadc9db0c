# Sound-reactive 5x5 NeoPixel matrix: verified model of the LED logic

The firmware (`neopixel_pio.c`) samples a microphone, and when the sound is loud it plays a
green "cascade" on a 5x5 WS2812 matrix; when it is quiet it clears the matrix. This project
models the discrete part of that firmware in Dafny and proves what it does:

- `frame.dfy` (module `Frame`): the `pixel_t` record with its channels in G, R, B order, the
  25-pixel count, and the byte frame `npWrite` pushes to the PIO state machine (`Serialize`)
  together with streams of consecutive frames (`Frames`).
- `strip.dfy` (module `Strip`): the global `leds` buffer as class `LedStrip`, holding the
  `array<Pixel>` and `out`, the bytes pushed so far into the PIO transmit FIFO (each
  `pio_sm_put_blocking` appends one byte). Its methods are the zeroing loop of `npInit`,
  `npSetLED`, `npWrite`, `npClear` and `efeito_cascata`, each proved against value-level
  specification functions (`SetPixel`, `Blank`, `CascadeBuffers`) that the lemmas describe.
- `matrix.dfy` (module `Matrix`): the serpentine mapping `getIndex` from grid position to
  buffer index, its inverse, and its shape.
- `visualizer.dfy` (module `Visualizer`): one pass of `main`'s endless loop, with the
  loudness decision as a boolean input.

`getIndex(0, 1)` is 24 - (1*5 + (4 - 0)) = 15; `Matrix.GetIndexValues` proves it together
with the corner values.

`efeito_cascata` is one C function with two loops. The model keeps both loops but gives each
its own method (`CascadeRise`, `CascadeFall`), which `Cascade` calls in order, so that each
loop's proof stays small.

## Model

| member | source | states |
|---|---|---|
| Frame.Serialize | neopixel_pio.c:48-53 | the frame npWrite sends for a buffer: three bytes per pixel, pixel 0 first |
| Frame.SerializeLayout | neopixel_pio.c:48-53 | the bytes npWrite sends for a buffer number 3 per pixel: pixel k's G at byte 3k, R at 3k+1, B at 3k+2 |
| Frame.FrameLength | neopixel_pio.c:49-53 | a frame of the 25-pixel buffer is exactly 75 bytes |
| Frame.FramesLength | neopixel_pio.c:48-53 | consecutive frames of full buffers take 75 bytes each |
| Frame.FrameAt | neopixel_pio.c:48-53 | in a stream of full frames, frame k is exactly bytes 75k up to 75(k+1) |
| Frame.FramesExtend | neopixel_pio.c:50-52 | a stream holding the first n frames, followed by frame n, holds the first n + 1 frames |
| Frame.FramesAppend | neopixel_pio.c:48-53 | the stream of two runs of npWrite calls is the first run's bytes followed by the second's |
| Frame.FramesSnoc | neopixel_pio.c:50-52 | sending one more frame appends exactly its bytes to the stream |
| Strip.BlankFrame | neopixel_pio.c:58-61 | the frame npClear sends is 75 zero bytes |
| Strip.SetPixel | neopixel_pio.c:42-44 | npSetLED's effect on a buffer: in range, pixel index becomes {G=g, R=r, B=b}; otherwise nothing changes; the buffer keeps its 25 pixels |
| Strip.SetPixelInRange | neopixel_pio.c:42-44 | for index < 25 npSetLED(index, r, g, b) stores G=g, R=r, B=b at index and leaves every other pixel as it was |
| Strip.SetPixelOutOfRange | neopixel_pio.c:43 | for index >= 25 npSetLED leaves the whole buffer as it was |
| Strip.LitThrough | neopixel_pio.c:67-71 | the buffer after step i of the first cascade loop: pixels 0..i green, the rest as at the start, 25 pixels |
| Strip.DarkFrom | neopixel_pio.c:74-78 | the buffer after the second cascade loop has turned off pixels i..24: those off, 0..i-1 green, 25 pixels |
| Strip.CascadeBuffer | neopixel_pio.c:65-79 | the buffer shown by cascade frame k: step k of the first loop for k < 25, else the matching step of the second loop |
| Strip.CascadeBuffers | neopixel_pio.c:65-79 | the 50 buffers the cascade sends, in sending order |
| Strip.CascadeRising | neopixel_pio.c:67-71 | after step i of the cascade's first loop pixels 0..i are G=200, R=0, B=0 and the others are as they were when the cascade started |
| Strip.CascadeAllGreen | neopixel_pio.c:67-71 | after the first loop all 25 pixels are green |
| Strip.CascadeFalling | neopixel_pio.c:74-78 | after turning off pixel i in the second loop, pixels i..24 are off and 0..i-1 are still green |
| Strip.CascadeEndsBlank | neopixel_pio.c:74-78 | the cascade's last frame shows every pixel (0,0,0) |
| Strip.CascadeOutput | neopixel_pio.c:65-79 | the cascade sends exactly 50 frames of 75 bytes, frame k at bytes 75k..75(k+1) |
| Strip.LightStep | neopixel_pio.c:68 | lighting pixel i takes the buffer of step i-1 to the buffer of step i |
| Strip.DarkStep | neopixel_pio.c:75 | turning off pixel i takes the buffer with pixels i+1..24 off to the one with i..24 off |
| Strip.LedStrip.constructor | neopixel_pio.c:26 | the statically allocated 25-pixel buffer, nothing sent yet |
| Strip.LedStrip.Init | neopixel_pio.c:37-38 | the zeroing loop of npInit leaves every one of the 25 pixels (0,0,0) and sends nothing |
| Strip.LedStrip.SetLed | neopixel_pio.c:42-45 | npSetLED updates the buffer exactly as SetPixel says (stored in place, out-of-range ignored) and sends nothing |
| Strip.LedStrip.Write | neopixel_pio.c:48-55 | npWrite appends the buffer's frame to the output and does not change the buffer |
| Strip.LedStrip.Clear | neopixel_pio.c:58-62 | npClear leaves every pixel (0,0,0) and appends exactly one frame, of the cleared buffer |
| Strip.LedStrip.Cascade | neopixel_pio.c:65-79 | efeito_cascata, from any starting buffer, appends the frames of CascadeBuffers in order and leaves every pixel off |
| Strip.LedStrip.CascadeRise | neopixel_pio.c:67-71 | the first loop appends the frames of cascade buffers 0..24 to the output and leaves all pixels green |
| Strip.LedStrip.CascadeFall | neopixel_pio.c:74-78 | the second loop appends the frames of cascade buffers 25..49 to the output and leaves all pixels off |
| Matrix.GetIndex | neopixel_pio.c:82-87 | getIndex maps every grid position (0 <= x, y < 5) into 0..24 |
| Matrix.PositionOfIndex | neopixel_pio.c:82-87 | the inverse mapping recovers (x, y) from getIndex(x, y) on the grid |
| Matrix.IndexOfPosition | neopixel_pio.c:82-87 | getIndex of the inverse mapping of i is i for every i in 0..24 |
| Matrix.GetIndexInjective | neopixel_pio.c:82-87 | distinct grid positions have distinct indices |
| Matrix.GetIndexBijective | neopixel_pio.c:82-87 | every index 0..24 is reached by exactly one grid position |
| Matrix.GetIndexValues | neopixel_pio.c:82-87 | (0,0)->24, (4,0)->20, (0,1)->15, (4,1)->19, (0,4)->4, (4,4)->0 |
| Matrix.EvenRowStep | neopixel_pio.c:83-84 | in an even row, one column right lowers the index by 1 |
| Matrix.OddRowStep | neopixel_pio.c:85-86 | in an odd row, one column right raises the index by 1 |
| Matrix.RowTurn | neopixel_pio.c:83-86 | at the row's turn column (4 for even rows, 0 for odd) the next row's LED is the next one down the strip |
| Visualizer.IterationBuffers | neopixel_pio.c:123-131 | the buffers one loop pass sends: the cascade's 50 and a blank one when loud, two blank ones when quiet |
| Visualizer.IterationFrameCount | neopixel_pio.c:123-131 | a loop pass sends 51 full frames when loud and 2 when quiet, the last one all off |
| Visualizer.IterationStream | neopixel_pio.c:123-131 | a pass sends the cascade's frames (loud) or npClear's one frame (quiet), then the closing npWrite frame |
| Visualizer.LoopIteration | neopixel_pio.c:123-131 | one pass runs the cascade when loud, npClear otherwise, then npWrite; it appends exactly the frames of IterationBuffers and leaves every pixel off |

## Left out

- `calcularRMS`: float voltage conversion, squaring and `sqrtf` over ADC samples; the loop
  pass takes the outcome of the comparison `rms_value > 0.25` as the boolean `loud`, so the
  threshold and its strict `>` are not modelled.
- ADC setup and reads (`adc_init`, `adc_gpio_init`, `adc_select_input`, `adc_read`): hardware I/O.
- PIO program loading, state-machine claim and clock setup in `npInit`: hardware
  configuration; only the zeroing loop is modelled, and the FIFO is the byte sequence `out`.
- `sleep_us` and `sleep_ms`: wall-clock delays with no effect on the buffer or the bytes sent.
- `printf` and `stdio_init_all`: console output.
- The endless `while (true)` of `main`: the model covers one pass (`LoopIteration`), not the
  non-terminating loop or the setup calls before it.
- Strip.LedStrip.SetLed: the index is a `nat`, not a 32-bit `uint`; only the `< 25` test
  matters and every caller passes 0..24 or an explicit out-of-range value.
- Matrix.GetIndex: C `int` overflow of `y * 5` for huge arguments is not modelled; the
  arithmetic is on unbounded integers.
- Strip.LedStrip.Write: `pio_sm_put_blocking` takes a 32-bit word; the model records only the
  byte value, which is what the code passes.
