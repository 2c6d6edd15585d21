/**
 The SMBus transactions of linux-i2c-dev.h.  Kernel, bus and device are one abstract adapter behind
 the I2C_SMBUS ioctl; the framing loops between the caller's values and the ioctl's union are the
 header's own.  The message formats are those of sections 5.5.7 and 5.5.8 of SMBus 2.0.
 */
module I2cDev {
  import opened ByteOrder
  import opened Bits

  const BLOCK_MAX := 32
  /** union i2c_smbus_data: the length byte, the block, and room for a read length and the PEC. */
  const UNION_SIZE := BLOCK_MAX + 3

  datatype Slave = Slave(bus: byte, address: byte)

  /** Where a device keeps what it is sent: one place without a command code, one for each code. */
  datatype Cell = Plain(slave: Slave) | Register(slave: Slave, command: byte)

  datatype Kind = KByte | KByteData | KWordData | KProcCall | KBlockData | KBlockProcCall | KI2cBlockData
  {
    predicate IsBlock() { KBlockData? || KBlockProcCall? || KI2cBlockData? }
  }

  /** What travelled on the wire last: the transaction and its bytes in wire order. */
  datatype Frame = Frame(kind: Kind, payload: seq<byte>)

  type Regs = map<Cell, Frame>

  /** Block replies are limited to 32 bytes by the SMBus standard. */
  predicate RegsOk(regs: Regs) {
    forall c :: c in regs ==> |regs[c].payload| <= BLOCK_MAX
  }

  /** The machine, the slaves that can be opened, those that acknowledge, the answer of a device to a
      process call, and its answer to an I2C block read: the bytes it keeps when it is asked for as
      many as that, and bytes of its own choice and number when it is asked for more or fewer. */
  datatype Env = Env(host: Host, present: set<Slave>, acks: set<Slave>,
                     reply: (Cell, seq<byte>) -> seq<byte>, answer: (seq<byte>, nat) -> seq<byte>)
  {
    ghost predicate Valid() {
      && host.Valid()
      && (forall c, sent :: |reply(c, sent)| <= BLOCK_MAX)
      && (forall kept, asked :: |answer(kept, asked)| <= BLOCK_MAX)
      && (forall kept :: |kept| <= BLOCK_MAX ==> answer(kept, |kept|) == kept)
    }

    /** The bytes that come back for a frame when asked bytes are requested. */
    function Answer(frame: Frame, asked: nat): seq<byte> {
      if frame.kind.KI2cBlockData? then answer(frame.payload, asked) else frame.payload
    }
  }

  /** The bytes a write puts on the wire for the contents of the ioctl's union. */
  function Wire(e: Endian, kind: Kind, union: seq<byte>): seq<byte>
    requires |union| == UNION_SIZE
    requires kind.IsBlock() ==> union[0] <= BLOCK_MAX
  {
    if kind.KByteData? || kind.KByte? then [union[0]]
    else if kind.KWordData? || kind.KProcCall? then ToLE(Load(e, union[..2]), 2)
    else union[1..1 + union[0]]
  }

  /** The union after a device's bytes arrived. */
  function Deliver(e: Endian, kind: Kind, payload: seq<byte>, union: seq<byte>): (u: seq<byte>)
    requires |union| == UNION_SIZE && |payload| <= BLOCK_MAX
    requires kind.KByte? || kind.KByteData? ==> |payload| == 1
    requires kind.KWordData? || kind.KProcCall? ==> |payload| == 2
    ensures |u| == UNION_SIZE
  {
    if kind.KByteData? || kind.KByte? then payload + union[1..]
    else if kind.KWordData? || kind.KProcCall? then Store(e, FromLE(payload), 2) + union[2..]
    else [|payload|] + payload + union[1 + |payload|..]
  }

  /** Does the cell hold an answer to a read of this kind? */
  predicate Readable(regs: Regs, cell: Cell, kind: Kind) {
    && cell in regs && regs[cell].kind == kind
    && var n := |regs[cell].payload|;
       match kind
       case KByte | KByteData => n == 1
       case KWordData => n == 2
       case _ => true
  }

  class Adapter {
    const env: Env
    var regs: Regs

    ghost predicate Valid()
      reads this
    {
      env.Valid() && RegsOk(regs)
    }

    constructor (env: Env, regs: Regs)
      requires env.Valid() && RegsOk(regs)
      ensures Valid() && this.env == env && this.regs == regs
    {
      this.env, this.regs := env, regs;
    }

    /** i2c_smbus_access with I2C_SMBUS_WRITE and a data union. */
    method Send(slave: Slave, command: byte, kind: Kind, union: array<byte>) returns (rc: int)
      requires Valid() && union.Length == UNION_SIZE
      requires kind.IsBlock() ==> union[0] <= BLOCK_MAX
      requires !kind.KProcCall? && !kind.KBlockProcCall?
      modifies this`regs
      ensures Valid()
      ensures rc == if slave in env.acks then 0 else -1
      ensures regs == if slave in env.acks
                      then old(regs)[Register(slave, command) := Frame(kind, Wire(env.host.endian, kind, union[..]))]
                      else old(regs)
    {
      if slave !in env.acks { return -1; }
      regs := regs[Register(slave, command) := Frame(kind, Wire(env.host.endian, kind, union[..]))];
      rc := 0;
    }

    /** i2c_smbus_access for I2C_SMBUS_PROC_CALL and I2C_SMBUS_BLOCK_PROC_CALL. */
    method Call(slave: Slave, command: byte, kind: Kind, union: array<byte>) returns (rc: int)
      requires Valid() && union.Length == UNION_SIZE
      requires kind.KProcCall? || kind.KBlockProcCall?
      requires kind.IsBlock() ==> union[0] <= BLOCK_MAX
      modifies union
      ensures var answer := env.reply(Register(slave, command), Wire(env.host.endian, kind, old(union[..])));
              if slave in env.acks && (kind.KProcCall? ==> |answer| == 2)
              then rc == 0 && union[..] == Deliver(env.host.endian, kind, answer, old(union[..]))
              else rc == -1 && union[..] == old(union[..])
    {
      var answer := env.reply(Register(slave, command), Wire(env.host.endian, kind, union[..]));
      if slave !in env.acks || (kind.KProcCall? && |answer| != 2) { return -1; }
      var u := Deliver(env.host.endian, kind, answer, union[..]);
      forall i | 0 <= i < UNION_SIZE { union[i] := u[i]; }
      rc := 0;
    }

    /** i2c_smbus_access with I2C_SMBUS_READ; the length byte asks for as many bytes. */
    method Receive(slave: Slave, cell: Cell, kind: Kind, union: array<byte>) returns (rc: int)
      requires Valid() && union.Length == UNION_SIZE
      modifies union
      ensures if slave in env.acks && Readable(regs, cell, kind) && !kind.KProcCall?
              then
                var answer := env.Answer(regs[cell], old(union[0]));
                rc == 0 && union[..] == Deliver(env.host.endian, kind, answer, old(union[..]))
              else rc == -1 && union[..] == old(union[..])
    {
      if slave !in env.acks || !Readable(regs, cell, kind) || kind.KProcCall? { return -1; }
      var u := Deliver(env.host.endian, kind, env.Answer(regs[cell], union[0]), union[..]);
      forall i | 0 <= i < UNION_SIZE { union[i] := u[i]; }
      rc := 0;
    }

    // ----- Transactions without a block

    method WriteQuick(slave: Slave, value: byte) returns (rc: int)
      ensures rc == if slave in env.acks then 0 else -1
    {
      rc := if slave in env.acks then 0 else -1;
    }

    method WriteByte(slave: Slave, value: byte) returns (rc: int)
      requires Valid()
      modifies this`regs
      ensures Valid()
      ensures rc == if slave in env.acks then 0 else -1
      ensures regs == if rc == 0 then old(regs)[Plain(slave) := Frame(KByte, [value])] else old(regs)
    {
      if slave !in env.acks { return -1; }
      regs := regs[Plain(slave) := Frame(KByte, [value])];
      rc := 0;
    }

    method ReadByte(slave: Slave) returns (rc: int)
      requires Valid()
      ensures rc == if slave in env.acks && Readable(regs, Plain(slave), KByte)
                    then regs[Plain(slave)].payload[0] else -1
    {
      var data := new byte[UNION_SIZE];
      var failed := Receive(slave, Plain(slave), KByte, data);
      rc := if failed != 0 then -1 else data[0];
    }

    method ReadByteData(slave: Slave, command: byte) returns (rc: int)
      requires Valid()
      ensures rc == if slave in env.acks && Readable(regs, Register(slave, command), KByteData)
                    then regs[Register(slave, command)].payload[0] else -1
    {
      var data := new byte[UNION_SIZE];
      var failed := Receive(slave, Register(slave, command), KByteData, data);
      rc := if failed != 0 then -1 else data[0];
    }

    method WriteByteData(slave: Slave, command: byte, value: byte) returns (rc: int)
      requires Valid()
      modifies this`regs
      ensures Valid()
      ensures rc == if slave in env.acks then 0 else -1
      ensures regs == if rc == 0 then old(regs)[Register(slave, command) := Frame(KByteData, [value])] else old(regs)
    {
      var data := new byte[UNION_SIZE];
      data[0] := value;
      rc := Send(slave, command, KByteData, data);
    }

    method ReadWordData(slave: Slave, command: byte) returns (rc: int)
      requires Valid()
      ensures rc == if slave in env.acks && Readable(regs, Register(slave, command), KWordData)
                    then FromLE(regs[Register(slave, command)].payload) else -1
    {
      var data := new byte[UNION_SIZE];
      var failed := Receive(slave, Register(slave, command), KWordData, data);
      if failed != 0 { return -1; }
      ghost var payload := regs[Register(slave, command)].payload;
      assert data[..2] == Store(env.host.endian, FromLE(payload), 2);
      WordThroughUnion(env.host.endian, payload);
      rc := Load(env.host.endian, data[..2]);
    }

    method WriteWordData(slave: Slave, command: byte, value: nat) returns (rc: int)
      requires Valid() && value < 0x1_0000
      modifies this`regs
      ensures Valid()
      ensures rc == if slave in env.acks then 0 else -1
      ensures regs == if rc == 0 then old(regs)[Register(slave, command) := Frame(KWordData, ToLE(value, 2))]
                      else old(regs)
    {
      var data := WordUnion(env.host.endian, value);
      rc := Send(slave, command, KWordData, data);
    }

    /** The reply of the device as the caller of i2c_smbus_process_call sees it. */
    method ProcessCall(slave: Slave, command: byte, value: nat) returns (rc: int)
      requires Valid() && value < 0x1_0000
      ensures var answer := env.reply(Register(slave, command), ToLE(value, 2));
              rc == if slave in env.acks && |answer| == 2 then FromLE(answer) else -1
    {
      var data := WordUnion(env.host.endian, value);
      ghost var answer := env.reply(Register(slave, command), ToLE(value, 2));
      var failed := Call(slave, command, KProcCall, data);
      if failed != 0 { return -1; }
      assert data[..2] == Store(env.host.endian, FromLE(answer), 2);
      WordThroughUnion(env.host.endian, answer);
      rc := Load(env.host.endian, data[..2]);
    }

    // ----- Length-prefixed blocks

    method ReadBlockData(slave: Slave, command: byte, values: array<byte>) returns (n: int)
      requires Valid() && values.Length >= BLOCK_MAX
      modifies values
      ensures var cell := Register(slave, command);
              if slave in env.acks && Readable(regs, cell, KBlockData)
              then n == |regs[cell].payload| && values[..] == regs[cell].payload + old(values[..])[n..]
              else n == -1 && values[..] == old(values[..])
    {
      var data := new byte[UNION_SIZE];
      var failed := Receive(slave, Register(slave, command), KBlockData, data);
      if failed != 0 { return -1; }
      CopyOut(data, values);
      n := data[0];
    }

    method WriteBlockData(slave: Slave, command: byte, length: byte, values: array<byte>) returns (rc: int)
      requires Valid() && Clamp(length) <= values.Length
      modifies this`regs
      ensures Valid()
      ensures rc == if slave in env.acks then 0 else -1
      ensures regs == if rc == 0
                      then old(regs)[Register(slave, command) := Frame(KBlockData, values[..Clamp(length)])]
                      else old(regs)
    {
      var data := CopyIn(length, values);
      rc := Send(slave, command, KBlockData, data);
    }

    method ReadI2cBlockData(slave: Slave, command: byte, length: byte, values: array<byte>) returns (n: int)
      requires Valid() && values.Length >= BLOCK_MAX
      modifies values
      ensures var cell := Register(slave, command);
              if slave in env.acks && Readable(regs, cell, KI2cBlockData)
              then
                var answer := env.Answer(regs[cell], Clamp(length));
                n == |answer| && values[..] == answer + old(values[..])[n..]
              else n == -1 && values[..] == old(values[..])
    {
      var data := new byte[UNION_SIZE];
      data[0] := Clamp(length);
      var failed := Receive(slave, Register(slave, command), KI2cBlockData, data);
      if failed != 0 { return -1; }
      CopyOut(data, values);
      n := data[0];
    }

    method WriteI2cBlockData(slave: Slave, command: byte, length: byte, values: array<byte>) returns (rc: int)
      requires Valid() && Clamp(length) <= values.Length
      modifies this`regs
      ensures Valid()
      ensures rc == if slave in env.acks then 0 else -1
      ensures regs == if rc == 0
                      then old(regs)[Register(slave, command) := Frame(KI2cBlockData, values[..Clamp(length)])]
                      else old(regs)
    {
      var data := CopyIn(length, values);
      rc := Send(slave, command, KI2cBlockData, data);
    }

    /** The device is sent exactly the caller's bytes, and the same buffer then starts with exactly
        its reply; the bytes behind the reply are the old ones. */
    method BlockProcessCall(slave: Slave, command: byte, length: byte, values: array<byte>) returns (n: int)
      requires Valid() && values.Length >= BLOCK_MAX
      modifies values
      ensures var answer := env.reply(Register(slave, command), old(values[..Clamp(length)]));
              if slave in env.acks
              then n == |answer| && values[..] == answer + old(values[..])[n..]
              else n == -1 && values[..] == old(values[..])
    {
      var data := CopyIn(length, values);
      var failed := Call(slave, command, KBlockProcCall, data);
      if failed != 0 { return -1; }
      CopyOut(data, values);
      n := data[0];
    }
  }

  function Clamp(length: byte): (n: byte)
    ensures n <= BLOCK_MAX
  {
    if length > BLOCK_MAX then BLOCK_MAX else length
  }

  /** The loop that fills data.block from values, and the length byte before it. */
  method CopyIn(length: byte, values: array<byte>) returns (data: array<byte>)
    requires Clamp(length) <= values.Length
    ensures fresh(data) && data.Length == UNION_SIZE
    ensures data[0] == Clamp(length) && data[1..1 + data[0]] == values[..Clamp(length)]
  {
    data := new byte[UNION_SIZE];
    var count := length;
    if count > BLOCK_MAX {
      count := BLOCK_MAX;
    }
    var i := 1;
    while i <= count
      invariant 1 <= i <= count + 1
      invariant forall k :: 1 <= k < i ==> data[k] == values[k - 1]
    {
      data[i] := values[i - 1];
      i := i + 1;
    }
    data[0] := count;
  }

  /** The loop that empties data.block into values; it trusts the length byte. */
  method CopyOut(data: array<byte>, values: array<byte>)
    requires data.Length == UNION_SIZE && data != values
    requires data[0] <= BLOCK_MAX && data[0] <= values.Length
    modifies values
    ensures values[..] == data[1..1 + data[0]] + old(values[..])[data[0]..]
  {
    var i := 1;
    while i <= data[0]
      invariant 1 <= i <= data[0] + 1
      invariant forall k :: 0 <= k < i - 1 ==> values[k] == data[k + 1]
      invariant forall k :: i - 1 <= k < values.Length ==> values[k] == old(values[k])
    {
      values[i - 1] := data[i];
      i := i + 1;
    }
  }

  method WordUnion(e: Endian, value: nat) returns (data: array<byte>)
    requires value < 0x1_0000
    ensures fresh(data) && data.Length == UNION_SIZE
    ensures Wire(e, KWordData, data[..]) == ToLE(value, 2)
    ensures Wire(e, KProcCall, data[..]) == ToLE(value, 2)
  {
    hide Load, Store, ToLE, Pow2;
    data := new byte[UNION_SIZE];
    var bytes := Store(e, value, 2);
    data[0], data[1] := bytes[0], bytes[1];
    assert data[..][..2] == bytes;
    LoadStore(e, value, 2);
    WordSizes();
  }

  lemma WordThroughUnion(e: Endian, payload: seq<byte>)
    requires |payload| == 2
    ensures Load(e, Store(e, FromLE(payload), 2)) == FromLE(payload)
  {
    LoadStore(e, FromLE(payload), 2);
    FromLEBound(payload);
    ModUnique(FromLE(payload), Pow2(16), 0, FromLE(payload));
  }
}
