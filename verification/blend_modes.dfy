/**
 * The shader blend modes and the mapping from the application's layer
 * blend-mode index to them.
 */
module BlendModes {
  import opened Ints

  /** `GpuBlendMode`, in declaration order. */
  datatype GpuBlendMode =
    | Normal | Multiply | Dissolve | Darken | ColorBurn | LinearBurn | DarkerColor
    | Lighten | Screen | ColorDodge | LinearDodge | LighterColor
    | Overlay | SoftLight | HardLight | VividLight | LinearLight | PinLight | HardMix
    | Difference | Exclusion | Subtract | Divide
    | Hue | Saturation | Color | Luminosity

  /** The highest discriminant. */
  const LAST_MODE: int := 26

  /** `GpuBlendMode::as_u32`: the explicit discriminant of each variant. */
  function AsU32(m: GpuBlendMode): (r: u32)
    ensures r <= LAST_MODE
  {
    match m
    case Normal => 0
    case Multiply => 1
    case Dissolve => 2
    case Darken => 3
    case ColorBurn => 4
    case LinearBurn => 5
    case DarkerColor => 6
    case Lighten => 7
    case Screen => 8
    case ColorDodge => 9
    case LinearDodge => 10
    case LighterColor => 11
    case Overlay => 12
    case SoftLight => 13
    case HardLight => 14
    case VividLight => 15
    case LinearLight => 16
    case PinLight => 17
    case HardMix => 18
    case Difference => 19
    case Exclusion => 20
    case Subtract => 21
    case Divide => 22
    case Hue => 23
    case Saturation => 24
    case Color => 25
    case Luminosity => 26
  }

  /** The arms of `map_canvas_blend_mode_index` for indices 0 to 26, in order. */
  const CANVAS_MODES: seq<GpuBlendMode> := [
    Normal, Multiply, Dissolve, Darken, ColorBurn, LinearBurn, DarkerColor,
    Lighten, Screen, ColorDodge, LinearDodge, LighterColor,
    Overlay, SoftLight, HardLight, VividLight, LinearLight, PinLight, HardMix,
    Difference, Exclusion, Subtract, Divide,
    Hue, Saturation, Color, Luminosity]

  /** `map_canvas_blend_mode_index`: unsupported indices fall back to `Normal`. */
  function MapCanvasBlendModeIndex(index: u32): (m: GpuBlendMode)
    ensures index > LAST_MODE ==> m == Normal
  {
    if index < |CANVAS_MODES| then CANVAS_MODES[index] else Normal
  }

  /** Every supported index maps to the mode whose discriminant it is. */
  lemma IndexRoundTrip(index: u32)
    requires index <= LAST_MODE
    ensures AsU32(MapCanvasBlendModeIndex(index)) == index
  {
  }

  /** Every mode is reached from its own discriminant, so the mapping covers all modes. */
  lemma ModeRoundTrip(m: GpuBlendMode)
    ensures MapCanvasBlendModeIndex(AsU32(m)) == m
  {
  }

  /** Mapping the result's index again gives the same mode. */
  lemma MapIdempotent(index: u32)
    ensures MapCanvasBlendModeIndex(AsU32(MapCanvasBlendModeIndex(index))) == MapCanvasBlendModeIndex(index)
  {
    ModeRoundTrip(MapCanvasBlendModeIndex(index));
  }
}
