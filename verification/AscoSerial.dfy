/** The ASCO Group 5 reader: configuration check, the flat bit array, and the decode. */
module AscoSerial {
  import opened Domain
  import opened FaultBits
  import Registers
  import ModbusServer

  /** `mode` is absent when the configured name is not one of the four; other fields when unset. */
  datatype Config = Config(
    mode: Option<Mode>,
    statusRegister: Option<int>,
    registerCount: int,
    onNormal: Option<int>,
    onEmergency: Option<int>,
    normalAvailable: Option<int>,
    emergencyAvailable: Option<int>,
    transferring: Option<int>,
    engineStart: Option<int>)

  predicate IsConfigured(c: Config) {
    c.statusRegister.Some? && c.onNormal.Some? && c.onEmergency.Some?
    && c.normalAvailable.Some? && c.emergencyAvailable.Some?
  }

  function Listed(b: Option<int>): seq<int> {
    if b.Some? then [b.value] else []
  }

  /** Every configured bit index, in declaration order. */
  function AllBits(c: Config): seq<int> {
    Listed(c.onNormal) + Listed(c.onEmergency) + Listed(c.normalAvailable)
    + Listed(c.emergencyAvailable) + Listed(c.transferring) + Listed(c.engineStart)
  }

  datatype Verdict = Usable | Incomplete | BadMode | BadCount | BitOutside(bit: int)

  function FirstOutside(bits: seq<int>, capacity: int): Verdict {
    if bits == [] then Usable
    else if !(0 <= bits[0] < capacity) then BitOutside(bits[0])
    else FirstOutside(bits[1..], capacity)
  }

  function Validate(c: Config): Verdict {
    if !IsConfigured(c) then Incomplete
    else if c.mode.None? then BadMode
    else if c.registerCount < 1 then BadCount
    else FirstOutside(AllBits(c), c.registerCount * 16)
  }

  // ─── The flat little-endian bit array ─────────────────────────────

  /** Bit `k` of a word: shift right `k` places, test the low bit. */
  predicate Bit(word: nat, k: nat) {
    if k == 0 then word % 2 == 1 else Bit(word / 2, k - 1)
  }

  predicate ExtractBit(registers: seq<nat>, flat: nat) {
    flat / 16 < |registers| && Bit(registers[flat / 16], flat % 16)
  }

  function WordOf(bits: seq<bool>): nat {
    if bits == [] then 0 else (if bits[0] then 1 else 0) + 2 * WordOf(bits[1..])
  }

  /** Bits packed sixteen to a register, register 0 first, low bit first. */
  function Pack(bits: seq<bool>): seq<nat>
    decreases |bits|
  {
    if |bits| <= 16 then (if bits == [] then [] else [WordOf(bits)])
    else [WordOf(bits[..16])] + Pack(bits[16..])
  }

  lemma {:induction false} WordHoldsBits(bits: seq<bool>, k: nat)
    ensures Bit(WordOf(bits), k) == (k < |bits| && bits[k])
    decreases |bits| + k
  {
    if bits == [] {
      if k > 0 {
        WordHoldsBits([], k - 1);
      }
    } else {
      var w := WordOf(bits[1..]);
      assert WordOf(bits) / 2 == w && (WordOf(bits) % 2 == 1) == bits[0];
      if k > 0 {
        WordHoldsBits(bits[1..], k - 1);
      }
    }
  }

  /** Round trip: extracting from the packed registers gives every bit back, and false past the end. */
  lemma {:induction false} PackExtract(bits: seq<bool>, flat: nat)
    ensures ExtractBit(Pack(bits), flat) == (flat < |bits| && bits[flat])
    decreases |bits|
  {
    if |bits| <= 16 {
      if flat < 16 && bits != [] {
        WordHoldsBits(bits, flat);
      }
    } else if flat < 16 {
      WordHoldsBits(bits[..16], flat);
    } else {
      PackExtract(bits[16..], flat - 16);
      assert flat / 16 == (flat - 16) / 16 + 1 && flat % 16 == (flat - 16) % 16;
    }
  }

  // ─── The decode ───────────────────────────────────────────────────

  predicate OptionalBit(registers: seq<nat>, bit: Option<int>)
    requires bit.Some? ==> bit.value >= 0
  {
    bit.Some? && ExtractBit(registers, bit.value)
  }

  /** The snapshot published from one register read, under a configuration that passed `Validate`. */
  function ReadInputs(c: Config, registers: seq<nat>): InputSnapshot
    requires Validate(c) == Usable
  {
    UsableMeans(c);
    var onNormal, onEmergency := ExtractBit(registers, c.onNormal.value), ExtractBit(registers, c.onEmergency.value);
    InputSnapshot(
      DecodePosition(OptionalBit(registers, c.transferring), onNormal, onEmergency),
      ExtractBit(registers, c.normalAvailable.value),
      ExtractBit(registers, c.emergencyAvailable.value),
      OptionalBit(registers, c.engineStart),
      c.mode.value,
      if onNormal && onEmergency then {CALIBRATION_BIT} else {})
  }

  lemma {:induction false} FirstOutsideFinds(bits: seq<int>, capacity: int)
    ensures FirstOutside(bits, capacity) == Usable <==> forall b :: b in bits ==> 0 <= b < capacity
  {
    if bits != [] {
      FirstOutsideFinds(bits[1..], capacity);
      assert bits[0] in bits;
      assert forall b :: b in bits <==> b == bits[0] || b in bits[1..];
    }
  }

  predicate Inside(bit: Option<int>, capacity: int) {
    bit.Some? ==> 0 <= bit.value < capacity
  }

  /** Every configured bit lies inside the block that is read. */
  predicate AllInside(c: Config) {
    var capacity := c.registerCount * 16;
    && Inside(c.onNormal, capacity) && Inside(c.onEmergency, capacity)
    && Inside(c.normalAvailable, capacity) && Inside(c.emergencyAvailable, capacity)
    && Inside(c.transferring, capacity) && Inside(c.engineStart, capacity)
  }

  /** The bits in declaration order, configured or not. */
  function Bits(c: Config): seq<Option<int>> {
    [c.onNormal, c.onEmergency, c.normalAvailable, c.emergencyAvailable, c.transferring, c.engineStart]
  }

  lemma AllBitsLists(c: Config, b: int)
    ensures b in AllBits(c) <==> Some(b) in Bits(c)
  {
  }

  lemma ListedInside(c: Config)
    ensures (forall b :: b in AllBits(c) ==> 0 <= b < c.registerCount * 16) <==> AllInside(c)
  {
    forall b ensures b in AllBits(c) <==> Some(b) in Bits(c) {
      AllBitsLists(c, b);
    }
    if forall b :: b in AllBits(c) ==> 0 <= b < c.registerCount * 16 {
      forall o | o in Bits(c) && o.Some? ensures Inside(o, c.registerCount * 16) {
        assert o.value in AllBits(c);
      }
    }
  }

  /** `Validate` accepts exactly the configurations that are complete, name a mode, read at least
      one register, and keep every configured bit inside the block that is read. */
  lemma UsableMeans(c: Config)
    ensures Validate(c) == Usable <==>
      && c.statusRegister.Some? && c.onNormal.Some? && c.onEmergency.Some?
      && c.normalAvailable.Some? && c.emergencyAvailable.Some?
      && c.mode.Some? && c.registerCount >= 1 && AllInside(c)
  {
    FirstOutsideFinds(AllBits(c), c.registerCount * 16);
    ListedInside(c);
  }

  /** Entry `i` is the first configured bit outside the block. */
  predicate FirstBitOutside(bits: seq<Option<int>>, capacity: int, i: int) {
    && 0 <= i < |bits| && !Inside(bits[i], capacity)
    && forall j :: 0 <= j < i ==> Inside(bits[j], capacity)
  }

  function AllListed(bits: seq<Option<int>>): seq<int> {
    if bits == [] then [] else Listed(bits[0]) + AllListed(bits[1..])
  }

  lemma {:induction false} FirstOutsideIsFirst(bits: seq<Option<int>>, capacity: int, bit: int)
    ensures FirstOutside(AllListed(bits), capacity) == BitOutside(bit) <==>
      exists i :: FirstBitOutside(bits, capacity, i) && bits[i] == Some(bit)
    ensures FirstOutside(AllListed(bits), capacity).Usable? || FirstOutside(AllListed(bits), capacity).BitOutside?
  {
    if bits != [] {
      var rest := bits[1..];
      FirstOutsideIsFirst(rest, capacity, bit);
      if bits[0].Some? {
        assert AllListed(bits)[0] == bits[0].value && AllListed(bits)[1..] == AllListed(rest);
      } else {
        assert AllListed(bits) == AllListed(rest);
      }
      if Inside(bits[0], capacity) {
        FirstMovesOn(bits, capacity, bit);
      } else {
        assert FirstBitOutside(bits, capacity, 0);
      }
    }
  }

  lemma FirstMovesOn(bits: seq<Option<int>>, capacity: int, bit: int)
    requires bits != [] && Inside(bits[0], capacity)
    ensures (exists i :: FirstBitOutside(bits, capacity, i) && bits[i] == Some(bit)) <==>
      exists i :: FirstBitOutside(bits[1..], capacity, i) && bits[1..][i] == Some(bit)
  {
    var rest := bits[1..];
    assert forall j :: 0 <= j < |rest| ==> rest[j] == bits[j + 1];
    if i :| FirstBitOutside(rest, capacity, i) && rest[i] == Some(bit) {
      assert forall j :: 0 < j <= i ==> bits[j] == rest[j - 1];
      assert FirstBitOutside(bits, capacity, i + 1);
    }
    if i :| FirstBitOutside(bits, capacity, i) && bits[i] == Some(bit) {
      assert FirstBitOutside(rest, capacity, i - 1);
    }
  }

  lemma AllBitsAreListed(c: Config)
    ensures AllBits(c) == AllListed(Bits(c))
  {
    var bits := Bits(c);
    assert bits[5..] == [bits[5]] && bits[4..] == [bits[4]] + bits[5..] && bits[3..] == [bits[3]] + bits[4..];
    assert bits[2..] == [bits[2]] + bits[3..] && bits[1..] == [bits[1]] + bits[2..] && bits == [bits[0]] + bits[1..];
    assert AllListed(bits[5..]) == Listed(bits[5]) && AllListed(bits[4..]) == Listed(bits[4]) + Listed(bits[5]);
    assert AllListed(bits[3..]) == Listed(bits[3]) + AllListed(bits[4..]);
    assert AllListed(bits[2..]) == Listed(bits[2]) + AllListed(bits[3..]);
    assert AllListed(bits[1..]) == Listed(bits[1]) + AllListed(bits[2..]);
  }

  /** Every refusal names its reason: an unset field first, then the mode, then the count, then the
      first bit outside the block, in the order the fields are declared. */
  lemma RefusalMeans(c: Config, bit: int)
    ensures var complete := c.statusRegister.Some? && c.onNormal.Some? && c.onEmergency.Some?
                         && c.normalAvailable.Some? && c.emergencyAvailable.Some?;
      var bits := [c.onNormal, c.onEmergency, c.normalAvailable, c.emergencyAvailable, c.transferring, c.engineStart];
      && (Validate(c) == Incomplete <==> !complete)
      && (Validate(c) == BadMode <==> complete && c.mode.None?)
      && (Validate(c) == BadCount <==> complete && c.mode.Some? && c.registerCount < 1)
      && (Validate(c) == BitOutside(bit) <==>
            && complete && c.mode.Some? && c.registerCount >= 1
            && exists i :: FirstBitOutside(bits, c.registerCount * 16, i) && bits[i] == Some(bit))
  {
    AllBitsAreListed(c);
    FirstOutsideIsFirst(Bits(c), c.registerCount * 16, bit);
  }

  /** Under a usable configuration a full-length read never takes the out-of-range default, and the
      snapshot depends on nothing but the configured bits. */
  lemma DecodeReadsConfiguredBits(c: Config, a: seq<nat>, b: seq<nat>)
    requires Validate(c) == Usable && |a| == c.registerCount
    requires forall bit: nat :: bit in AllBits(c) ==> ExtractBit(a, bit) == ExtractBit(b, bit)
    ensures forall bit :: bit in AllBits(c) ==> 0 <= bit && bit / 16 < |a|
    ensures ReadInputs(c, a) == ReadInputs(c, b)
  {
    UsableMeans(c);
    FirstOutsideFinds(AllBits(c), c.registerCount * 16);
    forall o | o in Bits(c) && o.Some?
      ensures o.value >= 0 && ExtractBit(a, o.value) == ExtractBit(b, o.value)
    {
      AllBitsLists(c, o.value);
      assert Inside(o, c.registerCount * 16);
    }
    assert forall o :: o in Bits(c) && o.Some? ==> OptionalBit(a, o) == OptionalBit(b, o);
  }

  /** The snapshot says what the status bits say, each at its configured place. */
  predicate Reflects(c: Config, bits: seq<bool>, r: InputSnapshot)
    requires Validate(c) == Usable && |bits| == c.registerCount * 16
  {
    UsableMeans(c);
    var onNormal, onEmergency := bits[c.onNormal.value], bits[c.onEmergency.value];
    var transferring := c.transferring.Some? && bits[c.transferring.value];
    && (r.position == Transferring <==> transferring)
    && (r.position == Utility <==> !transferring && onNormal && !onEmergency)
    && (r.position == Generator <==> !transferring && onEmergency && !onNormal)
    && r.normalAvailable == bits[c.normalAvailable.value]
    && r.emergencyAvailable == bits[c.emergencyAvailable.value]
    && r.engineStartCalling == (c.engineStart.Some? && bits[c.engineStart.value])
    && r.faultBits == (if onNormal && onEmergency then {CALIBRATION_BIT} else {})
    && r.atsMode == c.mode.value
  }

  /** A controller that packs its status bits into the block is read back exactly. */
  lemma PackedStatusDecodes(c: Config, bits: seq<bool>)
    requires Validate(c) == Usable && |bits| == c.registerCount * 16
    ensures Reflects(c, bits, ReadInputs(c, Pack(bits)))
  {
    UsableMeans(c);
    PackExtract(bits, c.onNormal.value);
    PackExtract(bits, c.onEmergency.value);
    PackExtract(bits, c.normalAvailable.value);
    PackExtract(bits, c.emergencyAvailable.value);
    if c.transferring.Some? {
      PackExtract(bits, c.transferring.value);
    }
    if c.engineStart.Some? {
      PackExtract(bits, c.engineStart.value);
    }
  }

  /** On into the store: once such a snapshot is applied, a holding write is accepted exactly when the
      configured mode permits every register it addresses. */
  lemma ConfiguredModeGates(
      c: Config, mode: Mode, registers: seq<nat>, s: Registers.Store, wall: int, r: ModbusServer.Request)
    requires Validate(c) == Usable && c.mode == Some(mode) && ModbusServer.IsHoldingWrite(r)
    ensures var after := Registers.ApplyInputs(s, ReadInputs(c, registers), wall);
      ModbusServer.Handle(after, r).accepted <==>
        forall a :: r.address <= a < r.address + |ModbusServer.WrittenValues(r)| ==>
          Registers.Allowed(a, mode)
  {
    ModbusServer.WritesAreAllOrNothing(Registers.ApplyInputs(s, ReadInputs(c, registers), wall), r);
  }
}
