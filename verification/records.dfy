/** The record one input line decodes into (`inputJsonHolder`). */
module Records {
  import opened Duration

  /**
   An IEEE-754 binary32 value kept as its bit pattern: the admission path
   carries it unchanged and never does arithmetic on it.
   */
  type Float32 = bv32

  /** One decoded sensor line, field for field as the JSON keys name them. */
  datatype InputRecord = InputRecord(
    time: string,
    model: string,
    sensorId: int64,
    channel: string,
    sequenceNum: int64,
    battery: string,
    messageType: int64,
    windSpeedMph: Float32,
    temperatureF: Float32,
    humidity: int64)
}
