/** The tuning constants of the client (src/GlobalSetting.h), as named values.
    Doubles are modelled by reals, so the decimal literals are exact here. */
module Settings {
  import opened Geometry

  const FramePerSecond: int := 50

  /** Length of a match: three minutes at 50 frames per second. */
  const TotalFrames: int := 50 * 3 * 60

  const TimePerFrame: real := 1.0 / (FramePerSecond as real)

  /** Opportunity cost charged for every elapsed frame. */
  const CostPerFrame: real := 88.8

  const AssumedRobotVelocity: real := 6.0

  /** Assumed turning speed: half a turn per second. */
  const AssumedRobotPalstance: real := Pi

  /** Below this magnitude the steering law stops taking square roots. */
  const PalstanceThreshold: real := 0.0

  /** Score penalty for a station the robot cannot interact with. */
  const UninteractablePenalty: real := -50000000.0 - (TotalFrames as real) * CostPerFrame

  /** Upper end of the "marginal" time-coefficient band that makes a robot give up. */
  const TimeCoefThreshold: real := 0.90

  /** Lower end of that band; written inline in the source. */
  const TimeCoefFloor: real := 0.79
}
