/** The entities of the hall: racks and the snapshot that holds them. */
module Hall {
  import opened Categories

  /** Workload band, fixed when a rack is generated. */
  datatype LoadBand = Nominal | Elevated | Peak

  /** One equipment slot. `thermalMargin` is the stored margin (°C below the
      threshold); `category` is whatever the code that built the rack set. */
  datatype Rack = Rack(
    id: string,
    zone: string,
    row: char,
    col: int,
    threshold: real,
    inletTemp: real,
    thermalMargin: real,
    category: Category,
    loadBand: LoadBand)

  /** `s.endsWith(c)` for a one-character suffix; zone names end in their
      row letter. */
  predicate EndsWith(s: string, c: char) {
    |s| > 0 && s[|s| - 1] == c
  }

  /** `allowedDeltaRange`: the setpoint changes the interface offers. */
  datatype DeltaRange = DeltaRange(min: real, max: real, step: real)

  const ReferenceDeltaRange: DeltaRange := DeltaRange(0.0, 2.0, 0.2)

  /** The hall's current reading (`timestamp`, `site` and `source` are
      descriptive and not modelled). */
  datatype Snapshot = Snapshot(
    currentSetpoint: real,
    overallHeadroom: Category,
    fragileOrCriticalCount: nat,
    criticalCount: nat,
    racks: seq<Rack>,
    stressRack: Rack,
    allowedDeltaRange: DeltaRange)
}
