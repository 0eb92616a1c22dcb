/** The half-hourly settlement grid shared by the scenario builder and the simulator. */
module Settlement {

  /** Settlement periods per day. */
  const PeriodsPerDay: nat := 48

  /** Minutes in one settlement period. */
  const PeriodMinutes: int := 30

  /** Minutes in one day. */
  const MinutesPerDay: int := 1440

  /** Length of one settlement period in hours. */
  const PeriodHours: real := 0.5
}
