/** The physical and time constants of js/constants.js, as exact values. */
module Constants {
  /** Earth's speed relative to the cosmic microwave background, in km/h. */
  const EarthSpeedKmh: int := 1_332_000
  /** One light-year, in km. */
  const LightYearKm: int := 9_461_000_000_000
  /** Diameter of the observable universe, in light-years. */
  const ObservableUniverseLy: int := 92_000_000_000
  /** Length of a Pharaoh ant, in cm. */
  const AntCm: real := 0.2
  /** Diameter of an animal cell nucleus, in cm. */
  const CellNucleusCm: real := 0.001
  /** Earth's diameter, in cm. */
  const EarthDiameterCm: int := 1_274_200_000

  const HoursPerDay: int := 24
  /** 365.25 days, to account for leap years. */
  const DaysPerYear: real := 365.25
  const WeeksPerYear: int := 52
  const AverageLifespanYears: int := 80
}
