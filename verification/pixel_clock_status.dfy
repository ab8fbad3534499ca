/** Pixel-clock status of a display domain (version 1). The firmware
    primitive reads are inputs; what is modelled is the substitution of
    defaults for invalid capability values and the validation of the
    per-clock frequencies. */
module PixelClockStatus {
  import opened Outcomes

  newtype uint8 = x: int | 0 <= x < 0x100
  newtype uint32 = x: int | 0 <= x < 0x1_0000_0000

  /** The deviation used when the firmware reports a clock deviation of 0. */
  const DefaultClockDeviation: uint32 := 2

  /** The values the capability primitives return. Panel, channel and spread
      types are cast from the raw value without a check, so they stay raw. */
  datatype CapabilityReads = CapabilityReads(
    panelType: uint32,
    clockDeviation: uint32,
    upwardDeviation: uint8,
    downwardDeviation: uint8,
    channelType: uint32,
    sscEnabled: uint8,
    spreadDirection: uint32,
    spreadPercentage: nat)

  datatype PixelClockCapabilities = PixelClockCapabilities(
    panelType: uint32,
    clockDeviation: uint32,
    upwardDeviation: bool,
    downwardDeviation: bool,
    channelType: uint32,
    sscEnabled: bool,
    spreadDirection: uint32,
    spreadPercentage: nat)

  /** Capabilities a consumer can use: a non-zero deviation, allowed in at
      least one direction. */
  predicate Usable(c: PixelClockCapabilities)
  {
    c.clockDeviation != 0 && (c.upwardDeviation || c.downwardDeviation)
  }

  /** The reads as capabilities, each one-byte flag true exactly when non-zero. */
  function FromReads(r: CapabilityReads): PixelClockCapabilities
  {
    PixelClockCapabilities(r.panelType, r.clockDeviation, r.upwardDeviation != 0, r.downwardDeviation != 0,
                           r.channelType, r.sscEnabled != 0, r.spreadDirection, r.spreadPercentage)
  }

  /** Replace a zero deviation by the default, and allow both directions when
      neither is allowed; everything else is kept. */
  function SubstituteDefaults(c: PixelClockCapabilities): (d: PixelClockCapabilities)
    ensures Usable(d)
    ensures Usable(c) ==> d == c
    ensures c.clockDeviation == 0 ==> d.clockDeviation == DefaultClockDeviation
    ensures c.clockDeviation != 0 ==> d.clockDeviation == c.clockDeviation
    ensures !c.upwardDeviation && !c.downwardDeviation ==> d.upwardDeviation && d.downwardDeviation
    ensures c.upwardDeviation || c.downwardDeviation ==>
      d.upwardDeviation == c.upwardDeviation && d.downwardDeviation == c.downwardDeviation
    ensures d.panelType == c.panelType && d.channelType == c.channelType && d.sscEnabled == c.sscEnabled
    ensures d.spreadDirection == c.spreadDirection && d.spreadPercentage == c.spreadPercentage
  {
    var deviation := if c.clockDeviation == 0 then DefaultClockDeviation else c.clockDeviation;
    var bothOff := !c.upwardDeviation && !c.downwardDeviation;
    c.(clockDeviation := deviation,
       upwardDeviation := c.upwardDeviation || bothOff,
       downwardDeviation := c.downwardDeviation || bothOff)
  }

  /** `getPixelClockCapabilities`, with the primitive reads as input. */
  function GetPixelClockCapabilities(raw: CapabilityReads): (c: PixelClockCapabilities)
    ensures raw.clockDeviation == 0 ==> c.clockDeviation == DefaultClockDeviation
    ensures raw.clockDeviation != 0 ==> c.clockDeviation == raw.clockDeviation
    ensures raw.upwardDeviation == 0 && raw.downwardDeviation == 0 ==> c.upwardDeviation && c.downwardDeviation
    ensures raw.upwardDeviation != 0 || raw.downwardDeviation != 0 ==>
      (c.upwardDeviation <==> raw.upwardDeviation != 0) && (c.downwardDeviation <==> raw.downwardDeviation != 0)
    ensures c.sscEnabled <==> raw.sscEnabled != 0
    ensures c.panelType == raw.panelType && c.channelType == raw.channelType
    ensures c.spreadDirection == raw.spreadDirection && c.spreadPercentage == raw.spreadPercentage
    ensures Usable(c)
  {
    SubstituteDefaults(FromReads(raw))
  }

  /** Substituting defaults twice is the same as once. */
  lemma SubstituteDefaultsIdempotent(c: PixelClockCapabilities)
    ensures SubstituteDefaults(SubstituteDefaults(c)) == SubstituteDefaults(c)
  {
  }

  /** Usable capabilities come back from the normalisation exactly as read:
      the substitution changes only capabilities that are not usable. */
  lemma UsableReadsPassThrough(raw: CapabilityReads)
    ensures Usable(FromReads(raw)) <==> GetPixelClockCapabilities(raw) == FromReads(raw)
  {
  }

  /** The frequencies read for one clock. */
  datatype ClockReads = ClockReads(originalFrequency: nat, sscEnabledFrequency: nat, sscDisabledFrequency: nat)

  datatype PixelClockData = PixelClockData(
    panelInputFrequencySpecification: nat,
    sscEnabledNudgeFrequency: nat,
    sscDisabledNudgeFrequency: nat)

  datatype DataSetFailure = OriginalFrequencyZero

  /** The primitive instance used for clock `i`: the loop index cast to one byte. */
  function ClockInstance(i: nat): (r: uint8)
    ensures i < 0x100 ==> r as int == i
  {
    (i % 0x100) as uint8
  }

  function ToData(r: ClockReads): PixelClockData
  {
    PixelClockData(r.originalFrequency, r.sscEnabledFrequency, r.sscDisabledFrequency)
  }

  /** `getPixelClockDataSet`: read every clock in order and fail on the first
      whose original frequency is 0. */
  method GetPixelClockDataSet(clockCount: uint32, readClock: uint8 -> ClockReads)
    returns (r: Result<seq<PixelClockData>, DataSetFailure>)
    ensures r.Failure? <==> exists i: nat :: i < clockCount as nat && readClock(ClockInstance(i)).originalFrequency == 0
    ensures r.Failure? ==> r.error == OriginalFrequencyZero
    ensures r.Success? ==> |r.value| == clockCount as nat
    ensures r.Success? ==> forall i: nat :: i < |r.value| ==> r.value[i] == ToData(readClock(ClockInstance(i)))
    ensures r.Success? ==> forall i: nat :: i < |r.value| ==> r.value[i].panelInputFrequencySpecification != 0
    ensures r.Success? ==> forall i: nat :: i + 0x100 < |r.value| ==> r.value[i + 0x100] == r.value[i]
  {
    var data: seq<PixelClockData> := [];
    var i: nat := 0;
    while i < clockCount as nat
      invariant i <= clockCount as nat
      invariant |data| == i
      invariant forall k: nat :: k < i ==> readClock(ClockInstance(k)).originalFrequency != 0
      invariant forall k: nat :: k < i ==> data[k] == ToData(readClock(ClockInstance(k)))
    {
      var raw := readClock(ClockInstance(i));
      if raw.originalFrequency == 0 {
        return Failure(OriginalFrequencyZero);
      }
      data := data + [ToData(raw)];
      i := i + 1;
    }
    forall k: nat | k + 0x100 < |data|
      ensures data[k + 0x100] == data[k]
    {
      ClockInstanceWraps(k);
    }
    return Success(data);
  }

  /** With more than 256 clocks, the one-byte instance wraps: clock `i + 256`
      is read through the same instance as clock `i`. */
  lemma ClockInstanceWraps(i: nat)
    ensures ClockInstance(i + 0x100) == ClockInstance(i)
  {
  }
}
