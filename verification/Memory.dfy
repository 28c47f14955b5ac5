/** The four tables of a Modbus server, and what the client calls mean on them. */
module Memory {
  import opened Bytes
  import opened BitTables
  import opened Errors

  const MAX_READ_BITS: nat := 2000
  const MAX_WRITE_BITS: nat := 1968
  const MAX_READ_REGISTERS: nat := 125
  const MAX_WRITE_REGISTERS: nat := 123
  const MAX_RW_WRITE_REGISTERS: nat := 121

  datatype Tables = Tables(bits: seq<byte>, inputBits: seq<byte>, registers: seq<word>, inputRegisters: seq<word>)

  /** What the reading code relies on: bit cells are OFF or ON. */
  predicate WellFormed(t: Tables) { Flags(t.bits) && Flags(t.inputBits) }

  /** The cells of s from a on replaced by v. */
  function Overwrite<T>(s: seq<T>, a: nat, v: seq<T>): (r: seq<T>)
    requires a + |v| <= |s|
    ensures |r| == |s|
  {
    s[..a] + v + s[a + |v|..]
  }

  /** A client call. Addresses and single values are the 16 bits of the caller's ints that reach the wire. */
  datatype Call =
    | ReadBits(addr: word, nb: nat)
    | ReadInputBits(addr: word, nb: nat)
    | ReadRegisters(addr: word, nb: nat)
    | ReadInputRegisters(addr: word, nb: nat)
    | WriteBit(addr: word, on: bool)
    | WriteRegister(addr: word, value: word)
    | WriteBits(addr: word, cells: seq<byte>)
    | WriteRegisters(addr: word, values: seq<word>)
    | WriteAndRead(writeAddr: word, values: seq<word>, addr: word, nb: nat)

  datatype Outcome =
    | Cells(cells: seq<byte>)
    | Registers(values: seq<word>)
    | Written(count: nat)
    | Failed(errno: int)

  /** The quantities the client functions accept before sending anything. */
  predicate WithinLimits(c: Call) {
    match c
    case ReadBits(_, nb) => nb <= MAX_READ_BITS
    case ReadInputBits(_, nb) => nb <= MAX_READ_BITS
    case ReadRegisters(_, nb) => nb <= MAX_READ_REGISTERS
    case ReadInputRegisters(_, nb) => nb <= MAX_READ_REGISTERS
    case WriteBit(_, _) => true
    case WriteRegister(_, _) => true
    case WriteBits(_, cells) => |cells| <= MAX_WRITE_BITS
    case WriteRegisters(_, values) => |values| <= MAX_WRITE_REGISTERS
    case WriteAndRead(_, values, _, nb) => |values| <= MAX_RW_WRITE_REGISTERS && nb <= MAX_READ_REGISTERS
  }

  /** The ranges of a call lie inside the tables it names. */
  predicate InRange(c: Call, t: Tables) {
    match c
    case ReadBits(a, nb) => a + nb <= |t.bits|
    case ReadInputBits(a, nb) => a + nb <= |t.inputBits|
    case ReadRegisters(a, nb) => a + nb <= |t.registers|
    case ReadInputRegisters(a, nb) => a + nb <= |t.inputRegisters|
    case WriteBit(a, _) => a < |t.bits|
    case WriteRegister(a, _) => a < |t.registers|
    case WriteBits(a, cells) => a + |cells| <= |t.bits|
    case WriteRegisters(a, values) => a + |values| <= |t.registers|
    case WriteAndRead(w, values, a, nb) => a + nb <= |t.registers| && w + |values| <= |t.registers|
  }

  /** The tables after a call. */
  function After(c: Call, t: Tables): Tables
    requires InRange(c, t)
  {
    match c
    case WriteBit(a, on) => t.(bits := Overwrite(t.bits, a, [if on then 1 else 0]))
    case WriteRegister(a, v) => t.(registers := Overwrite(t.registers, a, [v]))
    case WriteBits(a, cells) => t.(bits := Overwrite(t.bits, a, Truth(cells)))
    case WriteRegisters(a, values) => t.(registers := Overwrite(t.registers, a, values))
    case WriteAndRead(w, values, _, _) => t.(registers := Overwrite(t.registers, w, values))
    case _ => t
  }

  /** What a call returns; a read that goes with a write sees the tables after the write. */
  function Answered(c: Call, t: Tables): Outcome
    requires InRange(c, t)
  {
    match c
    case ReadBits(a, nb) => Cells(t.bits[a..a + nb])
    case ReadInputBits(a, nb) => Cells(t.inputBits[a..a + nb])
    case ReadRegisters(a, nb) => Registers(t.registers[a..a + nb])
    case ReadInputRegisters(a, nb) => Registers(t.inputRegisters[a..a + nb])
    case WriteBit(_, _) => Written(1)
    case WriteRegister(_, _) => Written(1)
    case WriteBits(_, cells) => Written(|cells|)
    case WriteRegisters(_, values) => Written(|values|)
    case WriteAndRead(_, _, a, nb) => Registers(After(c, t).registers[a..a + nb])
  }

  /** One client call on an ideal memory. */
  function Perform(c: Call, t: Tables): (Outcome, Tables) {
    if !WithinLimits(c) then (Failed(EMBMDATA), t)
    else if !InRange(c, t) then (Failed(EMBXILADD), t)
    else (Answered(c, t), After(c, t))
  }

  /** Written registers hold the values sent, the others what they held, and the read shows the outcome. */
  ghost predicate ReadAfterWrite(c: Call, t: Tables, o: Outcome, t': Tables)
    requires c.WriteAndRead? && InRange(c, t)
  {
    var w, a, n := c.writeAddr, c.addr, |c.values|;
    && t' == t.(registers := t'.registers)
    && |t'.registers| == |t.registers|
    && (forall j :: w <= j < w + n ==> t'.registers[j] == c.values[j - w])
    && (forall j :: 0 <= j < |t.registers| && !(w <= j < w + n) ==> t'.registers[j] == t.registers[j])
    && o == Registers(t'.registers[a..a + c.nb])
  }

  lemma WritesFirst(c: Call, t: Tables)
    requires c.WriteAndRead? && WithinLimits(c) && InRange(c, t)
    ensures ReadAfterWrite(c, t, Perform(c, t).0, Perform(c, t).1)
  {
  }

  /** Registers that a write was accepted for can be read, and hold what was written. */
  lemma ReadBack(addr: word, values: seq<word>, t: Tables)
    requires !Perform(WriteRegisters(addr, values), t).0.Failed?
    ensures Perform(WriteRegisters(addr, values), t).0 == Written(|values|)
    ensures Perform(ReadRegisters(addr, |values|), Perform(WriteRegisters(addr, values), t).1)
            == (Registers(values), Perform(WriteRegisters(addr, values), t).1)
  {
    var t' := Perform(WriteRegisters(addr, values), t).1;
    assert t'.registers[addr..addr + |values|] == values;
  }

  function PerformAll(calls: seq<Call>, t: Tables): (seq<Outcome>, Tables) {
    if calls == [] then ([], t)
    else
      var (o, t') := Perform(calls[0], t);
      var (os, t'') := PerformAll(calls[1..], t');
      ([o] + os, t'')
  }
}
