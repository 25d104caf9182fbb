/**
  The size-keeping part of `Graphics` (`web/common/src/lib.rs`). The GPU
  objects are reduced to a token; surface configuration and rendering are
  recorded as counters instead of being performed.
 */
module GraphicsContext {

  type u32 = x: int | 0 <= x < 0x1_0000_0000

  /** `u32::max(x, 1)`: a surface dimension is never zero. */
  function AtLeastOne(x: u32): (r: u32)
    ensures r >= 1
    ensures x >= 1 ==> r == x
    ensures x == 0 ==> r == 1
  {
    if x >= 1 then x else 1
  }

  /**
    A graphics context: `context` stands for the wgpu instance, adapter,
    device, queue, surface and pipeline; `width` and `height` are the surface
    configuration's size; `configures` counts calls of `surface.configure`
    and `frames` counts rendered frames.
   */
  datatype Graphics = Graphics(context: nat, width: u32, height: u32, configures: nat, frames: nat)

  /** The surface size is usable: both dimensions are at least one. */
  predicate Valid(g: Graphics)
  {
    g.width >= 1 && g.height >= 1
  }

  /** `Graphics::new`, reduced to its size handling: the default configuration is requested with both dimensions clamped to one. */
  function NewGraphics(context: nat, width: u32, height: u32): (g: Graphics)
    ensures Valid(g) && g.context == context
    ensures (g.width, g.height) == (AtLeastOne(width), AtLeastOne(height))
    ensures g.configures == 0 && g.frames == 0
  {
    Graphics(context, AtLeastOne(width), AtLeastOne(height), 0, 0)
  }

  /** `Graphics::physical_size`: the configured (width, height). */
  function PhysicalSize(g: Graphics): (u32, u32)
  {
    (g.width, g.height)
  }

  /**
    `Graphics::resized`: afterwards `physical_size` reports the requested size
    with each dimension raised to at least one, the surface has been
    configured once more, and nothing else changes.
   */
  function Resized(g: Graphics, width: u32, height: u32): (r: Graphics)
    ensures PhysicalSize(r) == (AtLeastOne(width), AtLeastOne(height))
    ensures Valid(r)
    ensures r.context == g.context && r.frames == g.frames
    ensures r.configures == g.configures + 1
  {
    g.(width := AtLeastOne(width), height := AtLeastOne(height), configures := g.configures + 1)
  }

  /** `Graphics::render`: one more frame; the surface is left as it is. */
  function Render(g: Graphics): (r: Graphics)
    ensures r.frames == g.frames + 1
    ensures PhysicalSize(r) == PhysicalSize(g) && r.context == g.context && r.configures == g.configures
  {
    g.(frames := g.frames + 1)
  }

  /** A resize is observed exactly: a non-zero size is reported back unchanged. */
  lemma ResizedRoundTrip(g: Graphics, width: u32, height: u32)
    requires width >= 1 && height >= 1
    ensures PhysicalSize(Resized(g, width, height)) == (width, height)
  {
  }

  /** Only the last resize matters for the reported size. */
  lemma ResizedLastWins(g: Graphics, w1: u32, h1: u32, w2: u32, h2: u32)
    ensures PhysicalSize(Resized(Resized(g, w1, h1), w2, h2)) == PhysicalSize(Resized(g, w2, h2))
  {
  }
}
