/**
 * src/main.rs:165-195: the pixel loop of `generate_scene`.  The frame buffer is cut into
 * chunks of two rows; each buffer position becomes a pixel `(x, y)`, whose colour is the
 * average of `SAMPLE_COUNT` traced samples, gamma-corrected by a square root and packed
 * as `R << 16 | G << 8 | B` into a `u32`.  The chunks are rendered one after another here;
 * they write disjoint parts of the buffer.
 */
module Pixels {
  import opened Base
  import opened Vectors
  import opened Shapes
  import opened Bvh
  import opened Integrator

  /** main.rs:31-33 */
  const Width: nat := 640
  const Height: nat := 320
  const SampleCount: nat := 30

  /** main.rs:166: two rows per chunk. */
  const ChunkSize: nat := Width * 2

  const U32Max: nat := 0xFFFF_FFFF

  // ---------------------------------------------------------------------------------------
  // Buffer positions (main.rs:169-177)

  /** `chunks(chunk_size)` over `n` elements: full chunks and a last, shorter one when `n` is not a multiple. */
  function ChunkCount(n: nat): nat
  {
    (n + ChunkSize - 1) / ChunkSize
  }

  /** The number of elements in chunk `chunk`. */
  function ChunkLength(chunk: nat, n: nat): nat
  {
    if n >= (chunk + 1) * ChunkSize then ChunkSize
    else if n >= chunk * ChunkSize then n - chunk * ChunkSize
    else 0
  }

  /** main.rs:175: the buffer position of element `local` of chunk `chunk`. */
  function BufferIndex(chunk: nat, local: nat): nat
  {
    chunk * ChunkSize + local
  }

  /** Every element of every chunk is a position inside the buffer. */
  lemma ChunkIndexInBuffer(n: nat, chunk: nat, local: nat)
    requires chunk < ChunkCount(n) && local < ChunkLength(chunk, n)
    ensures BufferIndex(chunk, local) < n
  {
  }

  /** Every position of the buffer is an element of some chunk: `pos / chunk_size`, at `pos % chunk_size`. */
  lemma ChunkOfIndex(n: nat, pos: nat)
    requires pos < n
    ensures pos / ChunkSize < ChunkCount(n) && pos % ChunkSize < ChunkLength(pos / ChunkSize, n)
    ensures BufferIndex(pos / ChunkSize, pos % ChunkSize) == pos
  {
    var c, l := pos / ChunkSize, pos % ChunkSize;
    assert pos == c * ChunkSize + l;
    assert c * ChunkSize + ChunkSize - 1 < n + ChunkSize - 1;
  }

  /** No two chunk elements share a position, so each position is written exactly once. */
  lemma ChunkIndexUnique(c1: nat, l1: nat, c2: nat, l2: nat)
    requires l1 < ChunkSize && l2 < ChunkSize
    requires BufferIndex(c1, l1) == BufferIndex(c2, l2)
    ensures c1 == c2 && l1 == l2
  {
  }

  /** The chunks reach the end of the buffer and no further. */
  lemma ChunksEndAtBuffer(n: nat)
    ensures ChunkCount(n) * ChunkSize >= n
    ensures ChunkCount(n) > 0 ==> (ChunkCount(n) - 1) * ChunkSize < n
  {
  }

  /** main.rs:176: the column. */
  function PixelX(pos: nat): (x: nat)
    ensures x < Width
  {
    pos % Width
  }

  /**
   * main.rs:177: the row, counted from the bottom as `HEIGHT - pos / WIDTH`.  The `usize`
   * subtraction cannot underflow inside the buffer.
   */
  function PixelY(pos: nat): (y: nat)
    requires pos < Width * Height
    ensures 1 <= y <= Height
  {
    Height - pos / Width
  }

  /**
   * Inside the buffer, `x` is in `[0, WIDTH)` and `y` in `[1, HEIGHT]`, and the position is
   * recovered from `(x, y)`, so distinct positions are distinct pixels.
   */
  lemma PixelCoordinates(pos: nat)
    requires pos < Width * Height
    ensures PixelX(pos) < Width && 1 <= PixelY(pos) <= Height
    ensures pos == (Height - PixelY(pos)) * Width + PixelX(pos)
  {
    assert pos / Width < Height;
  }

  // ---------------------------------------------------------------------------------------
  // Colour to pixel word (main.rs:178-193)

  /**
   * Rust's `f32 as u32`: negative values and NaN give 0, values beyond the range saturate at
   * `u32::MAX`, and everything else is truncated toward zero.
   */
  function AsU32(x: real): (n: nat)
    ensures n <= U32Max
    ensures 0.0 <= x < U32Max as real ==> n as real <= x < n as real + 1.0
  {
    if x <= 0.0 then 0
    else if x >= U32Max as real then U32Max
    else x.Floor
  }

  /** main.rs:190-192: a channel in `[0, 1]` scaled by 255.99. */
  function Channel(f: real): nat
  {
    AsU32(f * 255.99)
  }

  /** A channel from `[0, 1]` fits in eight bits. */
  lemma ChannelFitsByte(f: real)
    requires 0.0 <= f <= 1.0
    ensures Channel(f) < 256
  {
    assert f * 255.99 <= 255.99;
  }

  /** The channel as the `u32` the packing shifts. */
  function ChannelBits(f: real): bv32
  {
    Channel(f) as bv32
  }

  /** A channel from `[0, 1]` leaves the top 24 bits of its word clear. */
  lemma ChannelBitsFitByte(f: real)
    requires 0.0 <= f <= 1.0
    ensures Channel(f) < 256 && ChannelBits(f) < 256
  {
    ChannelFitsByte(f);
  }

  /** main.rs:193: `r << 16 | g << 8 | b` in 32 bits; bits shifted past the top are lost. */
  function Pack(r: bv32, g: bv32, b: bv32): bv32
  {
    (r << 16) | (g << 8) | b
  }

  /** The three low bytes of a pixel word, as the display reads them. */
  function Unpack(w: bv32): (bv32, bv32, bv32)
  {
    ((w >> 16) & 0xFF, (w >> 8) & 0xFF, w & 0xFF)
  }

  /** Channels below 256 occupy disjoint bytes of the word and are read back unchanged. */
  lemma UnpackPack(r: bv32, g: bv32, b: bv32)
    requires r < 256 && g < 256 && b < 256
    ensures Unpack(Pack(r, g, b)) == (r, g, b)
  {
  }

  /** A word whose top byte is clear is the packing of its three channels. */
  lemma PackUnpack(w: bv32)
    requires w < 0x100_0000
    ensures var (r, g, b) := Unpack(w); r < 256 && g < 256 && b < 256 && Pack(r, g, b) == w
  {
  }

  // ---------------------------------------------------------------------------------------
  // Samples

  /**
   * The colour of sample `s` of pixel `(x, y)`: `color_at` of the camera's ray through the
   * pixel, jittered by the random number generator, which `camera` stands for.
   */
  function SampleColour(tree: Bvh<Shape>, env: Env, camera: (nat, nat, nat) -> Ray, x: nat, y: nat, s: nat): Vec3
  {
    ColorAtNeverPanics(camera(x, y, s), tree, 0, env);
    ColorAt(camera(x, y, s), tree, 0, env).value
  }

  /** main.rs:178-187: the running `total` after the first `n` samples. */
  function SampleSum(tree: Bvh<Shape>, env: Env, camera: (nat, nat, nat) -> Ray, x: nat, y: nat, n: nat): Vec3
  {
    if n == 0 then Zero
    else Add(SampleSum(tree, env, camera, x, y, n - 1), SampleColour(tree, env, camera, x, y, n - 1))
  }

  /** main.rs:188-189: the average of the samples, square-rooted per channel. */
  function PixelColour(tree: Bvh<Shape>, env: Env, camera: (nat, nat, nat) -> Ray, x: nat, y: nat): Vec3
  {
    var c := DivBy(SampleSum(tree, env, camera, x, y, SampleCount), SampleCount as real);
    Vec3(env.num.sqrt(c.x), env.num.sqrt(c.y), env.num.sqrt(c.z))
  }

  /** main.rs:190-193: the word written for buffer position `pos`. */
  function PixelWord(tree: Bvh<Shape>, env: Env, camera: (nat, nat, nat) -> Ray, pos: nat): bv32
    requires pos < Width * Height
  {
    var c := PixelColour(tree, env, camera, PixelX(pos), PixelY(pos));
    Pack(ChannelBits(c.x), ChannelBits(c.y), ChannelBits(c.z))
  }

  /** main.rs:174-194: the word for one buffer position, summing the samples in a loop. */
  method ShadePixel(tree: Bvh<Shape>, env: Env, camera: (nat, nat, nat) -> Ray, pos: nat) returns (word: bv32)
    requires pos < Width * Height
    ensures word == PixelWord(tree, env, camera, pos)
  {
    PixelCoordinates(pos);
    var x := pos % Width;
    var y := Height - pos / Width;
    assert x == PixelX(pos) && y == PixelY(pos);
    var total := Zero;
    for s := 0 to SampleCount
      invariant total == SampleSum(tree, env, camera, x, y, s)
    {
      var ray := camera(x, y, s);
      ColorAtNeverPanics(ray, tree, 0, env);
      assert ColorAt(ray, tree, 0, env).value == SampleColour(tree, env, camera, x, y, s);
      total := Add(total, ColorAt(ray, tree, 0, env).value);
    }
    var fcolor := DivBy(total, SampleCount as real);
    fcolor := Vec3(env.num.sqrt(fcolor.x), env.num.sqrt(fcolor.y), env.num.sqrt(fcolor.z));
    word := Pack(ChannelBits(fcolor.x), ChannelBits(fcolor.y), ChannelBits(fcolor.z));
  }

  /**
   * main.rs:165-195 with the chunks taken in order: every position of the buffer ends up
   * holding its pixel's word.
   */
  method RenderFrame(buffer: array<bv32>, tree: Bvh<Shape>, env: Env, camera: (nat, nat, nat) -> Ray)
    requires buffer.Length == Width * Height
    modifies buffer
    ensures forall pos :: 0 <= pos < buffer.Length ==> buffer[pos] == PixelWord(tree, env, camera, pos)
  {
    var n := buffer.Length;
    ChunksEndAtBuffer(n);
    for chunk := 0 to ChunkCount(n)
      invariant forall pos :: 0 <= pos < n && pos < chunk * ChunkSize ==> buffer[pos] == PixelWord(tree, env, camera, pos)
    {
      for local := 0 to ChunkLength(chunk, n)
        invariant forall pos :: 0 <= pos < n && pos < chunk * ChunkSize + local ==> buffer[pos] == PixelWord(tree, env, camera, pos)
      {
        ChunkIndexInBuffer(n, chunk, local);
        var pos := BufferIndex(chunk, local);
        buffer[pos] := ShadePixel(tree, env, camera, pos);
      }
    }
  }

  // ---------------------------------------------------------------------------------------
  // Range of a pixel

  /** The camera produces unit directions (`Ray::new` normalises). */
  ghost predicate CameraNormalised(camera: (nat, nat, nat) -> Ray)
  {
    forall x, y, s :: -1.0 <= camera(x, y, s).dir.y <= 1.0
  }

  /** A sum of `n` colours from the unit cube has components in `[0, n]`. */
  lemma {:induction false} SampleSumBounded(tree: Bvh<Shape>, env: Env, camera: (nat, nat, nat) -> Ray, x: nat, y: nat, n: nat)
    requires ScatterBounded(env) && CameraNormalised(camera)
    ensures var t := SampleSum(tree, env, camera, x, y, n);
            0.0 <= t.x <= n as real && 0.0 <= t.y <= n as real && 0.0 <= t.z <= n as real
  {
    if n > 0 {
      SampleSumBounded(tree, env, camera, x, y, n - 1);
      ColorAtInUnitCube(camera(x, y, n - 1), tree, 0, env);
    }
  }

  /** The square root of a number in `[0, 1]` is in `[0, 1]`. */
  lemma SqrtUnit(num: Numerics, a: real)
    requires SqrtExact(num) && 0.0 <= a <= 1.0
    ensures 0.0 <= num.sqrt(a) <= 1.0
  {
  }

  /**
   * With attenuations in `[0, 1]`, unit camera directions and the exact square root, the
   * averaged, square-rooted colour of a pixel lies in the unit cube.
   */
  lemma PixelColourInUnitCube(tree: Bvh<Shape>, env: Env, camera: (nat, nat, nat) -> Ray, x: nat, y: nat)
    requires ScatterBounded(env) && CameraNormalised(camera) && SqrtExact(env.num)
    ensures InUnitCube(PixelColour(tree, env, camera, x, y))
  {
    SampleSumBounded(tree, env, camera, x, y, SampleCount);
    var a := DivBy(SampleSum(tree, env, camera, x, y, SampleCount), SampleCount as real);
    assert 0.0 <= a.x <= 1.0 && 0.0 <= a.y <= 1.0 && 0.0 <= a.z <= 1.0;
    SqrtUnit(env.num, a.x);
    SqrtUnit(env.num, a.y);
    SqrtUnit(env.num, a.z);
  }

  /** A colour in the unit cube has channels below 256, which its packed word gives back. */
  lemma ChannelsDecode(c: Vec3)
    requires InUnitCube(c)
    ensures Channel(c.x) < 256 && Channel(c.y) < 256 && Channel(c.z) < 256
    ensures Unpack(Pack(ChannelBits(c.x), ChannelBits(c.y), ChannelBits(c.z))) ==
            (ChannelBits(c.x), ChannelBits(c.y), ChannelBits(c.z))
  {
    ChannelBitsFitByte(c.x);
    ChannelBitsFitByte(c.y);
    ChannelBitsFitByte(c.z);
    UnpackPack(ChannelBits(c.x), ChannelBits(c.y), ChannelBits(c.z));
  }

  /**
   * With attenuations in `[0, 1]`, unit camera directions and the exact square root, every
   * channel of a pixel is below 256, so its word decodes back to the three channels.
   */
  lemma PixelWordDecodes(tree: Bvh<Shape>, env: Env, camera: (nat, nat, nat) -> Ray, pos: nat)
    requires pos < Width * Height
    requires ScatterBounded(env) && CameraNormalised(camera) && SqrtExact(env.num)
    ensures var c := PixelColour(tree, env, camera, PixelX(pos), PixelY(pos));
            Channel(c.x) < 256 && Channel(c.y) < 256 && Channel(c.z) < 256 &&
            Unpack(PixelWord(tree, env, camera, pos)) == (ChannelBits(c.x), ChannelBits(c.y), ChannelBits(c.z))
  {
    var x, y := PixelX(pos), PixelY(pos);
    PixelColourInUnitCube(tree, env, camera, x, y);
    ChannelsDecode(PixelColour(tree, env, camera, x, y));
  }
}
