/** The SDP3x command catalog: twelve fixed 2-byte command codes, sent high byte
    first, and the flag-driven choice among them made by startContinuousMeasurement
    and triggeredMeasurement. */
module Commands {

  import opened Wrappers

  /** One entry of the catalog, named after the driver's SDP3x_* constant. */
  datatype Command =
    | MeasureContinuousMassFlowAverageTillRead
    | MeasureContinuousMassFlowNoAveraging
    | MeasureContinuousDifferentialPressureAverageTillRead
    | MeasureContinuousDifferentialPressureNoAveraging
    | StopContinuousMeasure
    | MeasureTriggeredMassFlowNoClockStretching
    | MeasureTriggeredMassFlowClockStretching
    | MeasureTriggeredDifferentialPressureNoClockStretching
    | MeasureTriggeredDifferentialPressureClockStretching
    | EnterSleepMode
    | ReadProductIdPart1
    | ReadProductIdPart2

  /** The two bytes written on the bus for a command, high byte first. */
  function Code(c: Command): (b: seq<bv8>)
    ensures |b| == 2
  {
    match c
    case MeasureContinuousMassFlowAverageTillRead => [0x36, 0x03]
    case MeasureContinuousMassFlowNoAveraging => [0x36, 0x08]
    case MeasureContinuousDifferentialPressureAverageTillRead => [0x36, 0x15]
    case MeasureContinuousDifferentialPressureNoAveraging => [0x36, 0x1E]
    case StopContinuousMeasure => [0x3F, 0xF9]
    case MeasureTriggeredMassFlowNoClockStretching => [0x36, 0x24]
    case MeasureTriggeredMassFlowClockStretching => [0x37, 0x26]
    case MeasureTriggeredDifferentialPressureNoClockStretching => [0x36, 0x2F]
    case MeasureTriggeredDifferentialPressureClockStretching => [0x37, 0x2D]
    case EnterSleepMode => [0x36, 0x77]
    case ReadProductIdPart1 => [0x36, 0x7C]
    case ReadProductIdPart2 => [0xE1, 0x02]
  }

  /** The catalog entry a received byte pair names, if any (the sensor's view of the bus). */
  function Parse(b: seq<bv8>): (r: Option<Command>)
    ensures r.Some? ==> Code(r.value) == b
  {
    if |b| != 2 then None
    else
      var hi, lo := b[0], b[1];
      if hi == 0x36 then
        if lo == 0x03 then Some(MeasureContinuousMassFlowAverageTillRead)
        else if lo == 0x08 then Some(MeasureContinuousMassFlowNoAveraging)
        else if lo == 0x15 then Some(MeasureContinuousDifferentialPressureAverageTillRead)
        else if lo == 0x1E then Some(MeasureContinuousDifferentialPressureNoAveraging)
        else if lo == 0x24 then Some(MeasureTriggeredMassFlowNoClockStretching)
        else if lo == 0x2F then Some(MeasureTriggeredDifferentialPressureNoClockStretching)
        else if lo == 0x77 then Some(EnterSleepMode)
        else if lo == 0x7C then Some(ReadProductIdPart1)
        else None
      else if hi == 0x37 then
        if lo == 0x26 then Some(MeasureTriggeredMassFlowClockStretching)
        else if lo == 0x2D then Some(MeasureTriggeredDifferentialPressureClockStretching)
        else None
      else if hi == 0x3F && lo == 0xF9 then Some(StopContinuousMeasure)
      else if hi == 0xE1 && lo == 0x02 then Some(ReadProductIdPart2)
      else None
  }

  /** Every code is recognised as the command it encodes. */
  lemma ParseCode(c: Command)
    ensures Parse(Code(c)) == Some(c)
  {
  }

  /** The twelve codes are pairwise distinct: no two commands share a byte pair. */
  lemma CodesDistinct(c: Command, d: Command)
    ensures Code(c) == Code(d) <==> c == d
  {
    ParseCode(c);
    ParseCode(d);
  }

  /** The command starts a continuous measurement. */
  predicate IsContinuous(c: Command) {
    c.MeasureContinuousMassFlowAverageTillRead? || c.MeasureContinuousMassFlowNoAveraging?
    || c.MeasureContinuousDifferentialPressureAverageTillRead? || c.MeasureContinuousDifferentialPressureNoAveraging?
  }

  /** The command triggers a single measurement. */
  predicate IsTriggered(c: Command) {
    c.MeasureTriggeredMassFlowNoClockStretching? || c.MeasureTriggeredMassFlowClockStretching?
    || c.MeasureTriggeredDifferentialPressureNoClockStretching? || c.MeasureTriggeredDifferentialPressureClockStretching?
  }

  /** The measurement command uses mass-flow temperature compensation
      (otherwise differential-pressure compensation). */
  predicate MassFlow(c: Command) {
    c.MeasureContinuousMassFlowAverageTillRead? || c.MeasureContinuousMassFlowNoAveraging?
    || c.MeasureTriggeredMassFlowNoClockStretching? || c.MeasureTriggeredMassFlowClockStretching?
  }

  /** The continuous command averages all samples until the next read. */
  predicate AveragesTillRead(c: Command) {
    c.MeasureContinuousMassFlowAverageTillRead? || c.MeasureContinuousDifferentialPressureAverageTillRead?
  }

  /** The triggered command holds the bus clock low until the result is ready. */
  predicate StretchesClock(c: Command) {
    c.MeasureTriggeredMassFlowClockStretching? || c.MeasureTriggeredDifferentialPressureClockStretching?
  }

  /** The catalog entry startContinuousMeasurement writes for its two flags. */
  function ContinuousCommand(massFlow: bool, averaging: bool): (c: Command)
    ensures IsContinuous(c) && MassFlow(c) == massFlow && AveragesTillRead(c) == averaging
  {
    if massFlow then
      if averaging then MeasureContinuousMassFlowAverageTillRead
      else MeasureContinuousMassFlowNoAveraging
    else
      if averaging then MeasureContinuousDifferentialPressureAverageTillRead
      else MeasureContinuousDifferentialPressureNoAveraging
  }

  /** The catalog entry triggeredMeasurement writes for its two flags. */
  function TriggeredCommand(massFlow: bool, clockStretching: bool): (c: Command)
    ensures IsTriggered(c) && MassFlow(c) == massFlow && StretchesClock(c) == clockStretching
  {
    if massFlow then
      if clockStretching then MeasureTriggeredMassFlowClockStretching
      else MeasureTriggeredMassFlowNoClockStretching
    else
      if clockStretching then MeasureTriggeredDifferentialPressureClockStretching
      else MeasureTriggeredDifferentialPressureNoClockStretching
  }

  /** Every continuous command is selected by exactly one flag pair. */
  lemma ContinuousSelectionExact(c: Command, massFlow: bool, averaging: bool)
    requires IsContinuous(c)
    ensures ContinuousCommand(massFlow, averaging) == c
        <==> massFlow == MassFlow(c) && averaging == AveragesTillRead(c)
  {
  }

  /** Every triggered command is selected by exactly one flag pair. */
  lemma TriggeredSelectionExact(c: Command, massFlow: bool, clockStretching: bool)
    requires IsTriggered(c)
    ensures TriggeredCommand(massFlow, clockStretching) == c
        <==> massFlow == MassFlow(c) && clockStretching == StretchesClock(c)
  {
  }

  /** The bytes startContinuousMeasurement writes; the defaults are those of the driver. */
  function StartContinuousMeasurement(massFlow: bool := true, averaging: bool := false): (b: seq<bv8>)
    ensures Parse(b) == Some(ContinuousCommand(massFlow, averaging))
  {
    ParseCode(ContinuousCommand(massFlow, averaging));
    Code(ContinuousCommand(massFlow, averaging))
  }

  /** The bytes triggeredMeasurement writes; the defaults are those of the driver. */
  function TriggeredMeasurement(massFlow: bool := true, clockStretching: bool := false): (b: seq<bv8>)
    ensures Parse(b) == Some(TriggeredCommand(massFlow, clockStretching))
  {
    ParseCode(TriggeredCommand(massFlow, clockStretching));
    Code(TriggeredCommand(massFlow, clockStretching))
  }

  /** The bytes stopContinuousMeasurement writes. */
  function StopContinuousMeasurement(): (b: seq<bv8>)
    ensures Parse(b) == Some(StopContinuousMeasure)
  {
    ParseCode(StopContinuousMeasure);
    Code(StopContinuousMeasure)
  }

  /** The bytes enterSleepMode writes. */
  function EnterSleep(): (b: seq<bv8>)
    ensures Parse(b) == Some(EnterSleepMode)
  {
    ParseCode(EnterSleepMode);
    Code(EnterSleepMode)
  }

  /** The default arguments select mass flow without averaging (0x36 0x08) and
      mass flow without clock stretching (0x36 0x24). */
  lemma DefaultCommands()
    ensures StartContinuousMeasurement() == [0x36, 0x08]
    ensures TriggeredMeasurement() == [0x36, 0x24]
  {
  }

  /** The four continuous codes and the four triggered codes are eight different byte
      pairs: no flag setting of one operation writes a code of the other. */
  lemma ContinuousAndTriggeredDisjoint(m: bool, a: bool, m': bool, s: bool)
    ensures StartContinuousMeasurement(m, a) != TriggeredMeasurement(m', s)
  {
  }

  /** No measurement start, whatever its flags, writes the stop or the sleep code. */
  lemma StartsAreNotStopOrSleep(m: bool, a: bool, s: bool)
    ensures StartContinuousMeasurement(m, a) != StopContinuousMeasurement()
    ensures StartContinuousMeasurement(m, a) != EnterSleep()
    ensures TriggeredMeasurement(m, s) != StopContinuousMeasurement()
    ensures TriggeredMeasurement(m, s) != EnterSleep()
    ensures StopContinuousMeasurement() != EnterSleep()
  {
  }
}
