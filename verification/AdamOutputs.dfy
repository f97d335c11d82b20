/** The ADAM output path: what was last commanded to each relay, and the stuck-relay check. */
module AdamOutputs {
  import opened Domain

  const PULSE_MIN_MS := 500
  const PULSE_MAX_MS := 1500
  const OUTPUT_SETTLING_MS := 500
  const PULSE_RELEASE_RETRY_MS := 250

  /** The last value commanded to a relay, and when. */
  datatype Command = Command(value: bool, at: int)

  type Commanded = map<Relay, Command>

  /** The pulse window actually used for a requested duration. */
  function Clamp(ms: int): (r: int)
    ensures 500 <= r <= 1500
    ensures 500 <= ms <= 1500 ==> r == ms
    ensures ms < 500 ==> r == 500
    ensures ms > 1500 ==> r == 1500
  {
    if ms < PULSE_MIN_MS then PULSE_MIN_MS else if ms > PULSE_MAX_MS then PULSE_MAX_MS else ms
  }

  /** Would this intent energise a relay? Those are the ones the hardware fail-safe gates. */
  predicate Asserts(i: CommandIntent) {
    match i
    case SetInhibit(on) => on
    case SetForce(on) => on
    case _ => true
  }

  /** `r` was commanded long enough ago, and reads back as the opposite. */
  predicate Mismatch(commanded: Commanded, r: Relay, actual: set<Relay>, now: int) {
    r in commanded && now - commanded[r].at >= OUTPUT_SETTLING_MS && (r in actual) != commanded[r].value
  }

  predicate Consistent(commanded: Commanded, actual: set<Relay>, now: int) {
    forall r :: r in commanded ==> !Mismatch(commanded, r, actual, now)
  }

  class OutputLedger {
    var commanded: Commanded

    constructor ()
      ensures commanded == map[]
    {
      commanded := map[];
    }

    /** From half a second on, a read-back that contradicts this command is a mismatch, whatever was
        commanded before; the verdict on the other relays stays what it was. */
    method Record(r: Relay, value: bool, now: int)
      modifies this
      ensures commanded == old(commanded)[r := Command(value, now)]
      ensures forall actual, later ::
        Mismatch(commanded, r, actual, later) <==> later >= now + 500 && (r in actual) != value
      ensures forall q, actual, later :: q != r ==>
        (Mismatch(commanded, q, actual, later) <==> Mismatch(old(commanded), q, actual, later))
    {
      commanded := commanded[r := Command(value, now)];
    }

    /** False exactly when some settled relay reads back as the opposite of what was commanded. */
    method CheckOutputConsistency(actual: set<Relay>, now: int) returns (ok: bool)
      ensures ok <==> !exists r :: Mismatch(commanded, r, actual, now)
    {
      var unchecked := commanded.Keys;
      while unchecked != {}
        invariant unchecked <= commanded.Keys
        invariant forall r :: r in commanded && r !in unchecked ==> !Mismatch(commanded, r, actual, now)
        decreases |unchecked|
      {
        var r :| r in unchecked;
        unchecked := unchecked - {r};
        if now - commanded[r].at >= OUTPUT_SETTLING_MS && (r in actual) != commanded[r].value {
          assert Mismatch(commanded, r, actual, now);
          return false;
        }
      }
      return true;
    }
  }
}
