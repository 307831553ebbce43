/**
 * Interrupt priorities of the NVIC on ARMv6-M: byte-wide fields packed four to a word-access
 * register, IP[8] for the device interrupts 0..31 and SHP[2] for the core exceptions -8..-1.
 */
module NvicPriority {

  const IRQ_MIN := -8
  const IRQ_MAX := 31

  type Irq = i: int | IRQ_MIN <= i <= IRQ_MAX

  // _BIT_SHIFT: eight times the low two bits of the interrupt number.
  function BitShift(irq: Irq): (shift: bv32)
    ensures IsShift(shift)
  {
    match irq % 4
    case 0 => 0
    case 1 => 8
    case 2 => 16
    case _ => 24
  }

  predicate IsShift(shift: bv32) {
    shift & 7 == 0 && shift <= 24
  }

  // Replaces one field of a register.
  function PutField(word: bv32, shift: bv32, field: bv32): bv32
    requires IsShift(shift)
  {
    (word & !(0xFF << shift)) | (field << shift)
  }

  function GetField(word: bv32, shift: bv32): bv32
    requires IsShift(shift)
  {
    (word >> shift) & 0xFF
  }

  // A priority sits at the top of its field; unused is 8 - __NVIC_PRIO_BITS.
  function FieldOf(priority: bv32, unused: bv32): bv32
    requires unused < 8
  {
    (priority << unused) & 0xFF
  }

  function Priority(field: bv32, unused: bv32): bv32
    requires unused < 8
  {
    field >> unused
  }

  // What is left of a priority: its low implemented bits, the residue modulo 2^__NVIC_PRIO_BITS.
  function Implemented(priority: bv32, unused: bv32): bv32
    requires unused < 8
  {
    priority & (0xFF >> unused)
  }

  // A field keeps what was put into it, and the other three fields of the word keep theirs.
  lemma FieldPut(word: bv32, shift: bv32, other: bv32, field: bv32)
    requires IsShift(shift) && IsShift(other) && field & 0xFF == field
    ensures GetField(PutField(word, shift, field), other) == if other == shift then field else GetField(word, other)
  {
    if other == shift {
      FieldPutHere(word, shift, field);
    } else {
      FieldPutAway(word, shift, other, field);
    }
  }

  lemma FieldPutHere(word: bv32, shift: bv32, field: bv32)
    requires IsShift(shift) && field & 0xFF == field
    ensures GetField(PutField(word, shift, field), shift) == field
  {
  }

  lemma FieldPutAway(word: bv32, shift: bv32, other: bv32, field: bv32)
    requires IsShift(shift) && IsShift(other) && field & 0xFF == field && other != shift
    ensures GetField(PutField(word, shift, field), other) == GetField(word, other)
  {
    assert shift == 0 || shift == 8 || shift == 16 || shift == 24;
  }

  lemma FieldValue(priority: bv32, unused: bv32)
    requires unused < 8
    ensures FieldOf(priority, unused) & 0xFF == FieldOf(priority, unused)
    ensures Priority(FieldOf(priority, unused), unused) == Implemented(priority, unused)
  {
  }

  // ---------- the register file ----------

  datatype Registers = Registers(ip: seq<bv32>, shp: seq<bv32>) {
    predicate Valid() {
      |ip| == 8 && |shp| == 2
    }
  }

  function IpIndex(irq: Irq): int {
    irq / 4
  }

  function ShpIndex(irq: Irq): int {
    (irq % 16 - 8) / 4
  }

  function SetField(r: Registers, irq: Irq, field: bv32): (r': Registers)
    requires r.Valid()
    ensures r'.Valid()
  {
    if irq < 0
    then r.(shp := r.shp[ShpIndex(irq) := PutField(r.shp[ShpIndex(irq)], BitShift(irq), field)])
    else r.(ip := r.ip[IpIndex(irq) := PutField(r.ip[IpIndex(irq)], BitShift(irq), field)])
  }

  function FieldAt(r: Registers, irq: Irq): bv32
    requires r.Valid()
  {
    GetField(if irq < 0 then r.shp[ShpIndex(irq)] else r.ip[IpIndex(irq)], BitShift(irq))
  }

  function SetPriority(r: Registers, irq: Irq, priority: bv32, unused: bv32): (r': Registers)
    requires r.Valid() && unused < 8
    ensures r'.Valid()
  {
    SetField(r, irq, FieldOf(priority, unused))
  }

  function GetPriority(r: Registers, irq: Irq, unused: bv32): bv32
    requires r.Valid() && unused < 8
  {
    Priority(FieldAt(r, irq), unused)
  }

  predicate SameField(irq: Irq, other: Irq) {
    && BitShift(irq) == BitShift(other)
    && if irq < 0 then other < 0 && ShpIndex(irq) == ShpIndex(other) else 0 <= other && IpIndex(irq) == IpIndex(other)
  }

  // No two interrupts share a field.
  lemma OwnField(irq: Irq, other: Irq)
    ensures if irq < 0 then 0 <= ShpIndex(irq) < 2 else 0 <= IpIndex(irq) < 8
    ensures SameField(irq, other) <==> irq == other
  {
    assert BitShift(irq) == BitShift(other) ==> irq % 4 == other % 4;
  }

  // Setting one field: that one holds the new value, and no other changes.
  lemma SetThenGetField(r: Registers, irq: Irq, other: Irq, field: bv32)
    requires r.Valid() && field & 0xFF == field
    ensures FieldAt(SetField(r, irq, field), other) == if other == irq then field else FieldAt(r, other)
  {
    hide GetField, PutField, IsShift, BitShift, IpIndex, ShpIndex;
    OwnField(irq, other);
    OwnField(other, irq);
    if irq < 0 {
      FieldPut(r.shp[ShpIndex(irq)], BitShift(irq), BitShift(other), field);
    } else {
      FieldPut(r.ip[IpIndex(irq)], BitShift(irq), BitShift(other), field);
    }
  }

  // Setting one priority: that one reads back, and no other changes.
  lemma SetThenGet(r: Registers, irq: Irq, other: Irq, priority: bv32, unused: bv32)
    requires r.Valid() && unused < 8
    ensures GetPriority(SetPriority(r, irq, priority, unused), other, unused)
            == if other == irq then Implemented(priority, unused) else GetPriority(r, other, unused)
  {
    FieldValue(priority, unused);
    SetThenGetField(r, irq, other, FieldOf(priority, unused));
  }

  // ---------- the register layout ----------

  // Byte b of a little-endian word.
  function ByteOf(word: bv32, b: int): bv32
    requires 0 <= b < 4
  {
    match b
    case 0 => word % 0x100
    case 1 => word / 0x100 % 0x100
    case 2 => word / 0x1_0000 % 0x100
    case _ => word / 0x100_0000
  }

  // The registers as the hardware sees them: one byte for each of the device interrupts 0..31 and of
  // the core exceptions, -8 first.
  function IpByte(r: Registers, i: int): bv32
    requires r.Valid() && 0 <= i < 32
  {
    ByteOf(r.ip[i / 4], i % 4)
  }

  function ShpByte(r: Registers, i: int): bv32
    requires r.Valid() && 0 <= i < 8
  {
    ByteOf(r.shp[i / 4], i % 4)
  }

  // A byte divided by a power of two.
  function UpperBits(byte: bv32, unused: bv32): bv32
    requires unused < 8
  {
    byte / (1 << unused)
  }

  // The fields are the bytes of the words.
  lemma FieldIsByte(word: bv32, irq: Irq)
    ensures GetField(word, BitShift(irq)) == ByteOf(word, irq % 4)
  {
  }

  lemma FieldByteOf(priority: bv32, unused: bv32)
    requires unused < 8
    ensures FieldOf(priority, unused) == priority * (1 << unused) % 0x100
    ensures Priority(priority, unused) == UpperBits(priority, unused)
  {
    assert unused == 0 || unused == 1 || unused == 2 || unused == 3
        || unused == 4 || unused == 5 || unused == 6 || unused == 7;
  }

  // Where a byte of the registers belongs to: IP to the device interrupts, SHP to the core exceptions.
  lemma ByteIsField(r: Registers, irq: Irq)
    requires r.Valid()
    ensures FieldAt(r, irq) == if irq < 0 then ShpByte(r, irq + 8) else IpByte(r, irq)
  {
    hide GetField, BitShift, ByteOf;
    if irq < 0 {
      FieldIsByte(r.shp[ShpIndex(irq)], irq);
      assert ShpIndex(irq) == (irq + 8) / 4 && irq % 4 == (irq + 8) % 4;
    } else {
      FieldIsByte(r.ip[IpIndex(irq)], irq);
    }
  }

  // NVIC_SetPriority writes the byte of its interrupt, and no other one; a priority stands in the
  // upper bits of its byte.
  lemma SetPriorityLayout(r: Registers, irq: Irq, priority: bv32, unused: bv32)
    requires r.Valid() && unused < 8
    ensures var r', byte := SetPriority(r, irq, priority, unused), priority * (1 << unused) % 0x100;
            && (forall i :: 0 <= i < 32 ==> IpByte(r', i) == if i == irq then byte else IpByte(r, i))
            && (forall i :: 0 <= i < 8 ==> ShpByte(r', i) == if i == irq + 8 then byte else ShpByte(r, i))
  {
    hide GetField, PutField, BitShift, ByteOf, FieldAt, SetField, FieldOf, IpByte, ShpByte;
    FieldByteOf(priority, unused);
    FieldValue(priority, unused);
    var r', field := SetPriority(r, irq, priority, unused), FieldOf(priority, unused);
    forall i | 0 <= i < 32
      ensures IpByte(r', i) == if i == irq then field else IpByte(r, i)
    {
      SetThenGetField(r, irq, i, field);
      ByteIsField(r, i);
      ByteIsField(r', i);
    }
    forall i | 0 <= i < 8
      ensures ShpByte(r', i) == if i == irq + 8 then field else ShpByte(r, i)
    {
      SetThenGetField(r, irq, i - 8, field);
      ByteIsField(r, i - 8);
      ByteIsField(r', i - 8);
    }
  }

  // NVIC_GetPriority reads the upper bits of the byte of its interrupt.
  lemma GetPriorityLayout(r: Registers, irq: Irq, unused: bv32)
    requires r.Valid() && unused < 8
    ensures GetPriority(r, irq, unused)
            == UpperBits(if irq < 0 then ShpByte(r, irq + 8) else IpByte(r, irq), unused)
  {
    hide FieldAt, Priority, UpperBits, IpByte, ShpByte, BitShift;
    ByteIsField(r, irq);
    FieldByteOf(FieldAt(r, irq), unused);
  }

  class Nvic {
    const ip: array<bv32>
    const shp: array<bv32>
    const unused: bv32  // 8 - __NVIC_PRIO_BITS

    ghost predicate Valid() {
      ip.Length == 8 && shp.Length == 2 && ip != shp && unused < 8
    }

    ghost function Regs(): Registers
      reads ip, shp
    {
      Registers(ip[..], shp[..])
    }

    constructor (prioBits: bv32)
      requires 1 <= prioBits <= 8
      ensures Valid() && unused == 8 - prioBits && fresh(ip) && fresh(shp)
    {
      ip := new bv32[8](_ => 0);
      shp := new bv32[2](_ => 0);
      unused := 8 - prioBits;
    }

    // NVIC_SetPriority
    method Set(irq: Irq, priority: bv32)
      requires Valid()
      modifies ip, shp
      ensures Regs() == SetPriority(old(Regs()), irq, priority, unused)
      ensures forall i :: 0 <= i < 32 ==>
                IpByte(Regs(), i) == if i == irq then priority * (1 << unused) % 0x100 else IpByte(old(Regs()), i)
      ensures forall i :: 0 <= i < 8 ==>
                ShpByte(Regs(), i) == if i == irq + 8 then priority * (1 << unused) % 0x100 else ShpByte(old(Regs()), i)
    {
      hide IpByte, ShpByte, GetField, PutField, BitShift, FieldOf;
      SetPriorityLayout(Regs(), irq, priority, unused);
      if irq < 0 {
        shp[ShpIndex(irq)] := PutField(shp[ShpIndex(irq)], BitShift(irq), FieldOf(priority, unused));
      } else {
        ip[IpIndex(irq)] := PutField(ip[IpIndex(irq)], BitShift(irq), FieldOf(priority, unused));
      }
    }

    // NVIC_GetPriority
    method GetPrio(irq: Irq) returns (priority: bv32)
      requires Valid()
      ensures priority == GetPriority(Regs(), irq, unused)
      ensures priority == UpperBits(if irq < 0 then ShpByte(Regs(), irq + 8) else IpByte(Regs(), irq), unused)
    {
      hide IpByte, ShpByte, GetField, BitShift, Priority, UpperBits;
      GetPriorityLayout(Regs(), irq, unused);
      if irq < 0 {
        priority := Priority(GetField(shp[ShpIndex(irq)], BitShift(irq)), unused);
      } else {
        priority := Priority(GetField(ip[IpIndex(irq)], BitShift(irq)), unused);
      }
    }
  }

  // ---------- any sequence of calls ----------

  datatype SetCall = SetCall(irq: Irq, priority: bv32)

  function AfterCalls(r: Registers, calls: seq<SetCall>, unused: bv32): (r': Registers)
    requires r.Valid() && unused < 8
    ensures r'.Valid()
  {
    if calls == [] then r
    else
      var n := |calls| - 1;
      SetPriority(AfterCalls(r, calls[..n], unused), calls[n].irq, calls[n].priority, unused)
  }

  // The plain map that the packed registers stand for.
  function PriorityMap(calls: seq<SetCall>, unused: bv32): map<Irq, bv32>
    requires unused < 8
  {
    if calls == [] then map[]
    else
      var n := |calls| - 1;
      PriorityMap(calls[..n], unused)[calls[n].irq := Implemented(calls[n].priority, unused)]
  }

  lemma {:induction false} PackedRefinesMap(r: Registers, calls: seq<SetCall>, irq: Irq, unused: bv32)
    requires r.Valid() && unused < 8
    ensures GetPriority(AfterCalls(r, calls, unused), irq, unused)
            == if irq in PriorityMap(calls, unused) then PriorityMap(calls, unused)[irq] else GetPriority(r, irq, unused)
  {
    if calls != [] {
      var n := |calls| - 1;
      PackedRefinesMap(r, calls[..n], irq, unused);
      SetThenGet(AfterCalls(r, calls[..n], unused), calls[n].irq, irq, calls[n].priority, unused);
    }
  }
}
