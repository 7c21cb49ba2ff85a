/** Signal metadata shared by loading and by the commands. */
module Signals {
  /** How a signal's recorded values are to be read. */
  datatype ValueKind = Bits | Real | Str | EventKind

  datatype SignalInfo = SignalInfo(path: string, width: nat, kind: ValueKind, declOrder: nat, backendSid: nat)
}
