/**
 * The capacity arithmetic of the engine's layer texture array
 * (`LayerTextures`): creation clamps the capacity to at least one layer,
 * and growth doubles it (saturating) until it covers the request, copying
 * the existing layers into the new array.
 */
module Layers {
  import opened Ints
  import opened Wrappers

  const USIZE_MAX: nat := 0xffff_ffff_ffff_ffff

  type usize = n: nat | n <= USIZE_MAX

  /** The pixels of one array layer, row-major. */
  type Layer = seq<u32>

  /**
   * The texture array: its size, the per-layer views (each given by the
   * array layer it selects) and the layer contents.
   */
  datatype LayerTextures = LayerTextures(width: u32, height: u32, capacity: usize, views: seq<nat>, layers: seq<Layer>)

  /** The error both operations report when the device cannot hold the capacity. */
  datatype CapacityError = ExceedsDeviceMax(requested: nat, maxLayers: nat)

  /** `Result<T, String>` of the two operations, with the error's two numbers kept. */
  datatype Checked<T> = Success(value: T) | Failure(error: CapacityError)

  /**
   * At least one layer (the constructor's clamp), one view per layer with
   * view `i` selecting array layer `i`, and one content slot per layer.
   */
  predicate Valid(t: LayerTextures)
  {
    t.capacity >= 1 && |t.views| == t.capacity && |t.layers| == t.capacity &&
    (forall i :: 0 <= i < |t.views| ==> t.views[i] == i) &&
    (forall i :: 0 <= i < |t.layers| ==> |t.layers[i]| == t.width as int * t.height as int)
  }

  /** The views `0 .. n` the constructor and the growth path build in a loop. */
  function LayerViews(n: nat): (v: seq<nat>)
    ensures |v| == n && forall i :: 0 <= i < n ==> v[i] == i
  {
    if n == 0 then [] else LayerViews(n - 1) + [n - 1]
  }

  /** A freshly created (zero-initialised) layer. */
  function BlankLayer(width: u32, height: u32): (l: Layer)
    ensures |l| == width as int * height as int && forall i :: 0 <= i < |l| ==> l[i] == 0
  {
    seq(width as int * height as int, _ => 0)
  }

  /** `LayerTextures::new`. */
  function New(width: u32, height: u32, capacity: usize, maxLayers: u32): (r: Checked<LayerTextures>)
    ensures r.Failure? <==> Max(capacity, 1) > maxLayers
    ensures r.Success? ==>
      Valid(r.value) && r.value.capacity == Max(capacity, 1) && r.value.width == width && r.value.height == height
  {
    var cap := Max(capacity, 1);
    if cap > maxLayers then Failure(ExceedsDeviceMax(cap, maxLayers))
    else Success(LayerTextures(width, height, cap, LayerViews(cap), seq(cap, _ => BlankLayer(width, height))))
  }

  /** `usize::saturating_mul(2)`. */
  function SaturatingDouble(n: usize): (r: usize)
    ensures r == Min(2 * n, USIZE_MAX)
  {
    if 2 * n > USIZE_MAX then USIZE_MAX else 2 * n
  }

  /** The growth loop of `ensure_capacity`, run from `next`. */
  function GrowLoop(next: usize, required: usize): (r: usize)
    decreases required - next
  {
    if next < required then GrowLoop(Max(SaturatingDouble(next), required), required) else next
  }

  /**
   * The loop doubles at most once: it ends on the doubled capacity or on
   * `required`, whichever is larger, so the result always covers the request.
   */
  lemma {:induction false} GrowLoopOnce(next: usize, required: usize)
    ensures GrowLoop(next, required) >= required && GrowLoop(next, required) >= next
    ensures next < required ==> GrowLoop(next, required) == Max(Min(2 * next, USIZE_MAX), required)
    ensures next >= required ==> GrowLoop(next, required) == next
    decreases required - next
  {
    if next < required {
      var n := Max(SaturatingDouble(next), required);
      GrowLoopOnce(n, required);
    }
  }

  /** The result of `ensure_capacity`: `None` when nothing had to change, else the old capacity. */
  datatype Grown = Grown(previous: Option<usize>, textures: LayerTextures)

  /**
   * `LayerTextures::ensure_capacity`.  Growth allocates a new array, copies
   * the first `capacity` layers into it, and rebuilds one view per layer.
   */
  function EnsureCapacity(t: LayerTextures, maxLayers: u32, required: usize): (r: Checked<Grown>)
    requires Valid(t)
    ensures required <= t.capacity ==> r == Success(Grown(None, t))
    ensures r.Failure? ==> required > t.capacity && r.error.requested > maxLayers && r.error.requested >= required
    ensures r.Success? && required > t.capacity ==>
      var u := r.value.textures;
      r.value.previous == Some(t.capacity) && Valid(u) && u.capacity >= required &&
      u.capacity <= maxLayers && u.width == t.width && u.height == t.height &&
      u.layers[..t.capacity] == t.layers
  {
    if required <= t.capacity then Success(Grown(None, t))
    else
      var next := GrowLoop(Max(t.capacity, 1), required);
      GrowLoopOnce(Max(t.capacity, 1), required);
      if next > maxLayers then Failure(ExceedsDeviceMax(next, maxLayers))
      else
        var layers := t.layers + seq(next - t.capacity, _ => BlankLayer(t.width, t.height));
        assert layers[..t.capacity] == t.layers;
        Success(Grown(Some(t.capacity), LayerTextures(t.width, t.height, next, LayerViews(next), layers)))
  }

  /**
   * Growth is by doubling: the new capacity is the old one (at least one)
   * doubled, unless the request alone is larger.
   */
  lemma GrowthDoubles(t: LayerTextures, maxLayers: u32, required: usize)
    requires Valid(t) && required > t.capacity
    requires EnsureCapacity(t, maxLayers, required).Success?
    ensures EnsureCapacity(t, maxLayers, required).value.textures.capacity ==
      Max(Min(2 * Max(t.capacity, 1), USIZE_MAX), required)
  {
    GrowLoopOnce(Max(t.capacity, 1), required);
  }

  /** Asking again for what was just granted changes nothing. */
  lemma EnsureIdempotent(t: LayerTextures, maxLayers: u32, required: usize)
    requires Valid(t)
    requires EnsureCapacity(t, maxLayers, required).Success?
    ensures var u := EnsureCapacity(t, maxLayers, required).value.textures;
      EnsureCapacity(u, maxLayers, required) == Success(Grown(None, u))
  {
  }
}
