/** The fault-summary word as the set of its set bits: `|` is union, `&` intersection, `& ~` difference. */
module FaultBits {

  type Bits = set<nat>

  const INPUT_BIT: nat := 0
  const OUTPUT_BIT: nat := 1
  const MODE_UNKNOWN_BIT: nat := 2
  const CALIBRATION_BIT: nat := 3

  // The four defined bits, and the two of them that the orchestrator owns.
  const DEFINED: Bits := {INPUT_BIT, OUTPUT_BIT, MODE_UNKNOWN_BIT, CALIBRATION_BIT}
  const LOCAL: Bits := {INPUT_BIT, OUTPUT_BIT}

  /** The mask 0xFFFF. */
  function Low16(bits: Bits): Bits {
    set b | b in bits && b < 16
  }

  function WithBit(bits: Bits, bit: nat, on: bool): Bits {
    Low16(if on then bits + {bit} else bits - {bit})
  }

  function MergeFaults(local: Bits, reported: Bits): Bits {
    Low16((local * LOCAL) + (reported - LOCAL))
  }

  /** The word on the wire: the reject latch shows as an input fault, undefined bits are masked. */
  function WireWord(bits: Bits, reject: bool): Bits {
    (if reject then bits + {INPUT_BIT} else bits) * DEFINED
  }

  /** The number with these four bits. */
  function WordValue(bits: Bits): nat {
    (if INPUT_BIT in bits then 1 else 0) + (if OUTPUT_BIT in bits then 2 else 0)
    + (if MODE_UNKNOWN_BIT in bits then 4 else 0) + (if CALIBRATION_BIT in bits then 8 else 0)
  }
}

/** The vocabulary shared by every component: what the I/O boundary reports, the four relays it
    drives, and the command a recognised Modbus write turns into. */
module Domain {

  datatype Option<+T> = None | Some(value: T)

  datatype Position = Utility | Generator | Transferring | UnknownPosition

  datatype Mode = Auto | Manual | TestMode | UnknownMode

  /** The four ATS command relays (DO 0-3); a set of relays is the set of energised ones. */
  datatype Relay = TestRelay | ForceRelay | InhibitRelay | BypassRelay

  /** One coherent read of the core inputs. `faultBits` is whatever the driver reports, stray bits included. */
  datatype InputSnapshot = InputSnapshot(
    position: Position,
    normalAvailable: bool,
    emergencyAvailable: bool,
    engineStartCalling: bool,
    atsMode: Mode,
    faultBits: set<nat>)

  /** A recognised write, translated. The store never populates more than one of the four fields
      of the original record, so the intent is a sum. */
  datatype CommandIntent =
    | PulseTest(ms: int)
    | SetInhibit(on: bool)
    | SetForce(on: bool)
    | PulseBypass(ms: int)

  /** The position both input backends decode from two position contacts and a transfer indication. */
  function DecodePosition(transferring: bool, onNormal: bool, onEmergency: bool): Position {
    if transferring then Transferring
    else if onNormal && !onEmergency then Utility
    else if onEmergency && !onNormal then Generator
    else UnknownPosition
  }
}
