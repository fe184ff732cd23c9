/**
  The data that crosses the transport boundary: the value union of a
  telemetry key/value pair, a batch of pairs, and the subscription request
  built from a device's configured paths (the generated protocol types and
  the configuration records the collector reads).
 */
module Telemetry {

  /** A Go pointer or interface that may be nil. */
  datatype Option<+T> = None | Some(value: T)

  /** The `oneof` value of a key/value pair. Integer kinds are unbounded
      here; their conversion to float64 is taken as exact. */
  datatype Value =
    | DoubleValue(d: real)
    | IntValue(i: int)
    | UintValue(u: nat)
    | SintValue(si: int)
    | BoolValue(b: bool)
    | StrValue(str: string)

  /** One pair of a batch; `value == None` is a nil value. */
  datatype KeyValue = KeyValue(key: string, value: Option<Value>)

  /** One message of the stream: an ordered batch of pairs. */
  datatype OpenConfigData = OpenConfigData(kv: seq<KeyValue>)

  /** A configured sensor path (`config.Path`). The millisecond fields are
      uint16 in the configuration. */
  datatype ConfigPath = ConfigPath(
    path: string,
    suppressUnchanged: bool,
    maxSilentIntervalMs: nat,
    sampleFrequencyMs: nat)

  predicate ValidConfigPath(p: ConfigPath)
  {
    p.maxSilentIntervalMs < 0x1_0000 && p.sampleFrequencyMs < 0x1_0000
  }

  /** A configured device (`config.Target`); the port is a uint16. */
  datatype TargetConfig = TargetConfig(hostname: string, port: nat, paths: seq<ConfigPath>)

  /** A path entry of the subscription request (`pb.Path`); the interval
      fields are uint32. */
  datatype SubscriptionPath = SubscriptionPath(
    path: string,
    suppressUnchanged: bool,
    maxSilentInterval: nat,
    sampleFrequency: nat)

  /** `pb.SubscriptionAdditionalConfig`. */
  datatype AdditionalConfig = AdditionalConfig(limitRecords: int, limitTimeSeconds: int, needEos: bool)

  /** `pb.SubscriptionRequest`. */
  datatype SubscriptionRequest = SubscriptionRequest(additionalConfig: AdditionalConfig, pathList: seq<SubscriptionPath>)
}
