/**
 * Constants and options of the layout engine (src/engine.js).
 */
module EngineConfig {
  import opened Wrappers

  const CanvasWidth: real := 1920.0
  const CanvasHeight: real := 1080.0
  const NodeWidth: real := 280.0
  const BaseNodeHeight: real := 120.0
  /** Default gap between siblings in vertical orientation. */
  const HorizontalGap: real := 60.0
  /** Default gap between siblings in horizontal orientation. */
  const VerticalGap: real := 100.0
  const MarginTop: real := 100.0
  const MarginLeft: real := 100.0
  /** Gap kept between a level's boxes and the next level. */
  const InternalLevelGap: real := 100.0
  /** Level step used when the configured one is absent or zero. */
  const DefaultLevelStep: real := 300.0

  /**
   * The layout modes. Any other orientation string behaves as Horizontal in the
   * source (it is neither vertical nor circular), so it needs no case of its own.
   */
  datatype Orientation = Vertical | Horizontal | Circular | Elliptical | Cycle {
    predicate IsVertical() { this == Vertical }
    predicate IsCircular() { this == Circular || this == Cycle || this == Elliptical }
  }

  /** Connector routing styles; an absent or unrecognised style behaves as Orthogonal. */
  datatype Style = Straight | Curved | Orthogonal

  /** A caller-supplied zone label (caption) and colour; "" stands for an absent field. */
  datatype ZoneOverride = ZoneOverride(caption: string, color: string)

  datatype Config = Config(
    levelStep: Option<real>,
    siblingSpacing: Option<real>,
    connectorStyle: Style,
    startAngle: Option<real>,
    showZones: bool,
    zoneOverrides: map<string, ZoneOverride>)

  /**
   * The trigonometry the radial layout needs, left uninterpreted: the value of pi
   * (positive) and the cosine, sine and two-argument arctangent functions.
   */
  datatype Trig = Trig(pi: real, cos: real -> real, sin: real -> real, atan2: (real, real) -> real)

  function Max(a: real, b: real): (m: real)
    ensures m >= a && m >= b && (m == a || m == b)
  {
    if a >= b then a else b
  }

  function Min(a: real, b: real): (m: real)
    ensures m <= a && m <= b && (m == a || m == b)
  {
    if a <= b then a else b
  }

  /** Sibling gap: the configured spacing when defined, else 60 (vertical) or 100 (otherwise). */
  function Gap(cfg: Config, vertical: bool): (g: real)
    ensures cfg.siblingSpacing.Some? ==> g == cfg.siblingSpacing.value
    ensures cfg.siblingSpacing.None? ==> g == (if vertical then 60.0 else 100.0)
  {
    cfg.siblingSpacing.GetOr(if vertical then HorizontalGap else VerticalGap)
  }

  /** `config.levelStep || 300`: zero and absent both fall back to 300. */
  function LevelStep(cfg: Config): (s: real)
    ensures s != 0.0
    ensures cfg.levelStep.Some? && cfg.levelStep.value != 0.0 ==> s == cfg.levelStep.value
    ensures cfg.levelStep.None? || cfg.levelStep.value == 0.0 ==> s == 300.0
  {
    if cfg.levelStep.Some? && cfg.levelStep.value != 0.0 then cfg.levelStep.value else DefaultLevelStep
  }
}
