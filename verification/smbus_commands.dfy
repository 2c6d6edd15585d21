/**
 The SMBus commands of smbus_rw.c, from argv to the device and back to the printed text.
 */
module SmbusCommands {
  import opened Bits
  import opened ByteOrder
  import opened CText
  import opened I2cDev
  import opened SmbusCodec

  /** The argument counts that check_prereqs has already enforced, the command name included. */
  function ReadArgs(size: Size): nat {
    if size.SizeByte? then 3 else 4
  }

  function WriteArgs(size: Size): nat {
    if size.SizeByte? || size.Quick? then 4 else 5
  }

  predicate TakesRegister(size: Size) {
    !size.SizeByte? && !size.Quick? && !size.WriteRead?
  }

  /** The sizes that smbus_read_op knows; smbus_write_op knows these and Quick. */
  predicate Transferable(size: Size) {
    size.Size8? || size.Size16? || size.Size32? || size.Size64? || size.SizeBlock? || size.SizeByte?
  }

  function KindOf(size: Size): Kind
    requires Transferable(size)
  {
    match size
    case Size8 => KByteData
    case Size16 => KWordData
    case SizeBlock => KBlockData
    case SizeByte => KByte
    case _ => KI2cBlockData
  }

  function CellOf(size: Size, slave: Slave, reg: byte): Cell {
    if size.SizeByte? then Plain(slave) else Register(slave, reg)
  }

  /** The wire carries words low byte first and everything else in memory order. */
  function Payload(e: Endian, size: Size, bytes: seq<byte>): seq<byte> {
    if size.Size16? then ToLE(Load(e, bytes), 2) else bytes
  }

  function InMemory(e: Endian, size: Size, payload: seq<byte>): (bytes: seq<byte>)
    requires size.Size16? ==> |payload| == 2
    ensures |bytes| == |payload|
  {
    if size.Size16? then Store(e, FromLE(payload), 2) else payload
  }

  lemma PayloadRoundTrip(e: Endian, size: Size, bytes: seq<byte>)
    requires size.Size16? ==> |bytes| == 2
    ensures |Payload(e, size, bytes)| == |bytes|
    ensures InMemory(e, size, Payload(e, size, bytes)) == bytes
  {
    if size.Size16? {
      LoadBound(e, bytes);
      FromToLE(Load(e, bytes), 2);
      ModUnique(Load(e, bytes), Pow2(16), 0, Load(e, bytes));
      StoreLoad(e, bytes);
    }
  }

  // ----- What the commands do, as functions of argv and the registers

  datatype Target = Target(slave: Slave, reg: byte)

  /** smbus_prologue: the numbers on the command line, and whether the slave can be opened. */
  function Prologue(env: Env, size: Size, argv: seq<cstring>): Option<Target>
    requires env.host.Valid() && |argv| >= 3 && (TakesRegister(size) ==> |argv| >= 4)
  {
    var bus := ParseUint8(argv[1], 0, env.host);
    var address := ParseUint8(argv[2], 0, env.host);
    var reg := if TakesRegister(size) then ParseUint8(argv[3], 0, env.host) else Some(0);
    if bus.Some? && address.Some? && reg.Some? && Slave(bus.value, address.value) in env.present
    then Some(Target(Slave(bus.value, address.value), reg.value))
    else None
  }

  datatype WriteResult = WriteResult(rc: int, regs: Regs)

  function WriteOutcome(env: Env, regs: Regs, size: Size, argv: seq<cstring>): WriteResult
    requires env.host.Valid() && |argv| == WriteArgs(size)
  {
    var p := Prologue(env, size, argv);
    var arg := argv[|argv| - 1];
    if p.None? || !Accepts(size, arg, env.host) || p.value.slave !in env.acks then WriteResult(-1, regs)
    else if size.Quick? then WriteResult(0, regs)
    else if !Transferable(size) then WriteResult(-1, regs)
    else
      var bytes := OperandBytes(size, arg, env.host);
      var frame := Frame(KindOf(size), Payload(env.host.endian, size, bytes));
      WriteResult(0, regs[CellOf(size, p.value.slave, p.value.reg) := frame])
  }

  /** Does the device answer a read of this size with as many bytes as the command takes? */
  predicate Answers(env: Env, regs: Regs, cell: Cell, size: Size)
    requires Transferable(size)
  {
    && Readable(regs, cell, KindOf(size))
    && (size.Size32? || size.Size64? ==> |env.Answer(regs[cell], size.Width())| == size.Width())
  }

  function ReadOutcome(env: Env, regs: Regs, size: Size, argv: seq<cstring>): Output
    requires env.host.Valid() && RegsOk(regs) && |argv| == ReadArgs(size) && Transferable(size)
  {
    var p := Prologue(env, size, argv);
    if p.None? then Output(-1, "")
    else
      var cell := CellOf(size, p.value.slave, p.value.reg);
      if p.value.slave !in env.acks || !Answers(env, regs, cell, size) then Output(-1, "")
      else
        var bytes := InMemory(env.host.endian, size, env.Answer(regs[cell], size.Width()));
        Output(0, Rendering(size, |bytes|, Image(bytes), env.host))
  }

  /** The text a read prints after the operand arg was written. */
  function Canonical(size: Size, arg: string, host: Host): string
    requires host.Valid() && Transferable(size) && Accepts(size, arg, host)
  {
    if size.SizeBlock? then HexBytes(BlockBytes(arg)) + "\n"
    else PrefixedHex(ScalarValue(size, arg, host), 2 * size.Width(), true) + "\n"
  }

  // ----- The operations

  method OpenSlave(env: Env, size: Size, argv: seq<cstring>, params: Params) returns (rc: int, slave: Slave)
    requires env.host.Valid() && params.Valid() && |argv| >= 3 && (TakesRegister(size) ==> |argv| >= 4)
    modifies params`i2cBus, params`address, params`reg
    ensures rc == if Prologue(env, size, argv).Some? then 0 else -1
    ensures rc == 0 ==> slave == Prologue(env, size, argv).value.slave
    ensures rc == 0 && TakesRegister(size) ==> params.reg == Prologue(env, size, argv).value.reg
  {
    hide ParseUint8, Host.Valid;
    slave := Slave(0, 0);
    var bus := ParseUint8(argv[1], 0, env.host);
    if bus.None? { return -1, slave; }
    params.i2cBus := bus.value;
    var address := ParseUint8(argv[2], 0, env.host);
    if address.None? { return -1, slave; }
    params.address := address.value;
    if !size.SizeByte? && !size.Quick? && !size.WriteRead? {
      var reg := ParseUint8(argv[3], 0, env.host);
      if reg.None? { return -1, slave; }
      params.reg := reg.value;
    }
    slave := Slave(params.i2cBus, params.address);
    rc := if slave in env.present then 0 else -1;
  }

  /** A value that came back through the int result of a transaction, put into the union. */
  method KeepResult(params: Params, result: int, width: nat, host: Host)
    requires params.Valid() && width <= ARRAY_SIZE && params.data[..] == Image([])
    modifies params.data
    ensures result >= 0 ==> params.data[..] == Image(Store(host.endian, result, width))
  {
    if result >= 0 {
      params.StoreFixed(result, width, host);
      ImageOver(Store(host.endian, result, width));
    }
  }

  /** The 32- and 64-bit reads: an I2C block read that must bring exactly the bytes of the field. */
  method ReadCounted(adapter: Adapter, slave: Slave, params: Params, count: byte) returns (result: int)
    requires adapter.Valid() && params.Valid() && params.data[..] == Image([]) && count <= BLOCK_MAX
    modifies params.data
    ensures var cell := Register(slave, params.reg);
            if slave in adapter.env.acks && Readable(adapter.regs, cell, KI2cBlockData)
               && |adapter.env.Answer(adapter.regs[cell], count)| == count
            then result == count && params.data[..] == Image(adapter.env.Answer(adapter.regs[cell], count))
            else result == -1
  {
    result := adapter.ReadI2cBlockData(slave, params.reg, count, params.data);
    if result == count { ImageOver(adapter.env.Answer(adapter.regs[Register(slave, params.reg)], count)); }
    if result != count { result := -1; }
  }

  method ReadOp(adapter: Adapter, slave: Slave, params: Params, size: Size) returns (rc: int, out: string)
    requires adapter.Valid() && params.Valid()
    modifies params.data
    ensures !Transferable(size) ==> rc == -1 && out == ""
    ensures Transferable(size) ==>
              var cell := CellOf(size, slave, params.reg);
              if slave in adapter.env.acks && Answers(adapter.env, adapter.regs, cell, size)
              then
                var answer := adapter.env.Answer(adapter.regs[cell], size.Width());
                var bytes := InMemory(adapter.env.host.endian, size, answer);
                rc == 0 && out == Rendering(size, |bytes|, Image(bytes), adapter.env.host)
              else rc == -1 && out == ""
  {
    hide PrefixedHex, HexBytes, Load, Store;
    var result: int := -1;
    var host := adapter.env.host;
    ghost var cell := CellOf(size, slave, params.reg);
    params.ClearData();
    match size {
      case Size8 =>
        result := adapter.ReadByteData(slave, params.reg);
        KeepResult(params, result, 1, host);
        if result >= 0 { ByteImage(host.endian, adapter.regs[cell].payload); }
      case Size16 =>
        result := adapter.ReadWordData(slave, params.reg);
        KeepResult(params, result, 2, host);
      case Size32 =>
        result := ReadCounted(adapter, slave, params, 4);
      case Size64 =>
        result := ReadCounted(adapter, slave, params, 8);
      case SizeBlock =>
        result := adapter.ReadBlockData(slave, params.reg, params.data);
        if result >= 0 { ImageOver(adapter.regs[cell].payload); }
      case SizeByte =>
        result := adapter.ReadByte(slave);
        KeepResult(params, result, 1, host);
        if result >= 0 { ByteImage(host.endian, adapter.regs[cell].payload); }
      case _ =>
        return -1, "";
    }
    if result < 0 {
      return -1, "";
    }
    out := PrintReadData(size, result, params.data, host);
    rc := 0;
  }

  lemma ByteImage(e: Endian, payload: seq<byte>)
    requires |payload| == 1
    ensures Store(e, payload[0], 1) == payload
  {
    assert ToLE(payload[0], 1) == [payload[0]];
    ReverseOne(payload);
  }

  method WriteOp(adapter: Adapter, slave: Slave, params: Params, size: Size, ghost bytes: seq<byte>) returns (rc: int)
    requires adapter.Valid() && params.Valid() && |bytes| <= BLOCK_MAX
    requires params.data[..] == Image(bytes)
    requires size.IsBlock() ==> params.len == |bytes|
    requires !size.IsBlock() ==> |bytes| == size.Width()
    modifies adapter`regs
    ensures adapter.Valid()
    ensures rc == if slave in adapter.env.acks && (Transferable(size) || size.Quick?) then 0 else -1
    ensures adapter.regs == if rc != 0 || size.Quick? then old(adapter.regs)
                            else old(adapter.regs)[CellOf(size, slave, params.reg) :=
                                 Frame(KindOf(size), Payload(adapter.env.host.endian, size, bytes))]
  {
    var host := adapter.env.host;
    assert params.data[..|bytes|] == bytes;
    hide Image, Load, ToLE, Store, Pow2;
    var result: int;
    match size {
      case Size8 =>
        ByteOperand(host.endian, bytes);
        result := adapter.WriteByteData(slave, params.reg, Load(host.endian, params.data[..1]));
      case Size16 =>
        LoadBound(host.endian, bytes);
        WordSizes();
        result := adapter.WriteWordData(slave, params.reg, Load(host.endian, params.data[..2]));
      case Size32 =>
        result := adapter.WriteI2cBlockData(slave, params.reg, 4, params.data);
      case Size64 =>
        result := adapter.WriteI2cBlockData(slave, params.reg, 8, params.data);
      case SizeBlock =>
        result := adapter.WriteBlockData(slave, params.reg, params.len, params.data);
      case SizeByte =>
        ByteOperand(host.endian, bytes);
        result := adapter.WriteByte(slave, Load(host.endian, params.data[..1]));
      case Quick =>
        ByteOperand(host.endian, bytes);
        result := adapter.WriteQuick(slave, Load(host.endian, params.data[..1]));
      case _ =>
        return -1;
    }
    rc := if result < 0 then -1 else 0;
  }

  lemma ByteOperand(e: Endian, bytes: seq<byte>)
    requires |bytes| == 1
    ensures Load(e, bytes) < 256 && bytes == [Load(e, bytes)]
  {
    LoadBound(e, bytes);
    WordSizes();
    ReverseOne(bytes);
  }

  // ----- The commands

  method SmbusRead(adapter: Adapter, argv: seq<cstring>, size: Size) returns (rc: int, out: string)
    requires adapter.Valid() && |argv| == ReadArgs(size) && Transferable(size)
    ensures Output(rc, out) == ReadOutcome(adapter.env, adapter.regs, size, argv)
  {
    hide Prologue, InMemory, Rendering, Answers, Image;
    var params := new Params();
    var attached, slave := OpenSlave(adapter.env, size, argv, params);
    if attached < 0 {
      return -1, "";
    }
    rc, out := ReadOp(adapter, slave, params, size);
  }

  method SmbusWrite(adapter: Adapter, argv: seq<cstring>, size: Size) returns (rc: int)
    requires adapter.Valid() && |argv| == WriteArgs(size)
    modifies adapter`regs
    ensures adapter.Valid()
    ensures WriteResult(rc, adapter.regs) == WriteOutcome(adapter.env, old(adapter.regs), size, argv)
  {
    hide Prologue, Payload, OperandBytes, Accepts, Image;
    var argNum := 4;
    var params := new Params();
    var attached, slave := OpenSlave(adapter.env, size, argv, params);
    if attached < 0 {
      return -1;
    }
    if size.SizeByte? || size.Quick? {
      argNum := 3;
    }
    var parsed := params.ParseIoWidth(argv[argNum], size, adapter.env.host);
    if parsed < 0 {
      return -1;
    }
    ghost var bytes := OperandBytes(size, argv[argNum], adapter.env.host);
    rc := WriteOp(adapter, slave, params, size, bytes);
  }

  /** smbus_block_process_call: one buffer carries the request out and the reply in. */
  method SmbusBlockProcessCall(adapter: Adapter, argv: seq<cstring>) returns (rc: int, out: string)
    requires adapter.Valid() && |argv| == 5
    ensures Output(rc, out) == BlockCallOutcome(adapter.env, argv)
  {
    var params := new Params();
    var attached, slave := OpenSlave(adapter.env, BlockProcCall, argv, params);
    if attached < 0 {
      return -1, "";
    }
    var parsed := params.ParseIoWidth(argv[4], BlockProcCall, adapter.env.host);
    if parsed < 0 {
      return -1, "";
    }
    ghost var sent := BlockBytes(argv[4]);
    assert params.data[..Clamp(params.len)] == sent;
    var count := adapter.BlockProcessCall(slave, params.reg, params.len, params.data);
    if count < 0 {
      return -1, "";
    }
    assert params.data[..count] == adapter.env.reply(Register(slave, params.reg), sent);
    out := PrintReadData(SizeBlock, count, params.data, adapter.env.host);
    rc := 0;
  }

  /** smbus_process_call prints the buffer that holds the word it sent. */
  method SmbusProcessCall(adapter: Adapter, argv: seq<cstring>) returns (rc: int, out: string)
    requires adapter.Valid() && |argv| == 5
    ensures Output(rc, out) == ProcessCallOutcome(adapter.env, argv)
  {
    hide PrefixedHex, Prologue, Scan, UnsignedOf, Strtoul, Store, Load;
    var host := adapter.env.host;
    var params := new Params();
    var attached, slave := OpenSlave(adapter.env, ProcCall, argv, params);
    if attached < 0 {
      return -1, "";
    }
    var parsed := params.ParseIoWidth(argv[4], ProcCall, host);
    if parsed < 0 {
      return -1, "";
    }
    var value := ScalarValue(ProcCall, argv[4], host);
    var bytes := Store(host.endian, value, 2);
    assert params.data[..] == Image(bytes) && params.data[..2] == bytes;
    ScalarInMemory(host.endian, value, 2);
    assert value < 0x1_0000 by { WordSizes(); }
    var result := adapter.ProcessCall(slave, params.reg, Load(host.endian, params.data[..2]));
    if result < 0 {
      return -1, "";
    }
    out := PrintReadData(Size16, 0, params.data, host);
    assert Image(bytes)[..2] == bytes;
    rc := 0;
  }

  function BlockCallOutcome(env: Env, argv: seq<cstring>): Output
    requires env.host.Valid() && |argv| == 5
  {
    var p := Prologue(env, BlockProcCall, argv);
    if p.None? || !AcceptsBlock(argv[4]) || p.value.slave !in env.acks then Output(-1, "")
    else Output(0, HexBytes(env.reply(Register(p.value.slave, p.value.reg), BlockBytes(argv[4]))) + "\n")
  }

  function ProcessCallOutcome(env: Env, argv: seq<cstring>): Output
    requires env.host.Valid() && |argv| == 5
  {
    var p := Prologue(env, ProcCall, argv);
    if p.None? || !Accepts(ProcCall, argv[4], env.host) || p.value.slave !in env.acks then Output(-1, "")
    else
      var sent := ScalarValue(ProcCall, argv[4], env.host);
      if |env.reply(Register(p.value.slave, p.value.reg), ToLE(sent, 2))| != 2 then Output(-1, "")
      else Output(0, PrefixedHex(sent, 4, true) + "\n")
  }

  lemma ScalarInMemory(e: Endian, v: nat, n: nat)
    requires v < Pow2(8 * n)
    ensures Load(e, Store(e, v, n)) == v
  {
    LoadStore(e, v, n);
    ModUnique(v, Pow2(8 * n), 0, v);
  }

  // ----- What a device that keeps what it is sent gives back

  /** Whatever text an accepted write was given, the matching read prints its value, padded to the
      width of the command, or its bytes; on either byte order and for every spelling of the target. */
  lemma Echo(env: Env, regs: Regs, size: Size, argv: seq<cstring>, readArgv: seq<cstring>)
    requires env.Valid() && RegsOk(regs) && Transferable(size)
    requires |argv| == WriteArgs(size) && |readArgv| == ReadArgs(size)
    requires Prologue(env, size, readArgv) == Prologue(env, size, argv)
    ensures RegsOk(WriteOutcome(env, regs, size, argv).regs)
    ensures WriteOutcome(env, regs, size, argv).rc == 0 ==>
              Accepts(size, argv[|argv| - 1], env.host)
              && ReadOutcome(env, WriteOutcome(env, regs, size, argv).regs, size, readArgv)
                 == Output(0, Canonical(size, argv[|argv| - 1], env.host))
  {
    WriteKeepsOk(env, regs, size, argv);
    if WriteOutcome(env, regs, size, argv).rc == 0 {
      var p := Prologue(env, size, argv).value;
      ReadsWritten(env, WriteOutcome(env, regs, size, argv).regs, size, p, argv[|argv| - 1], readArgv);
    }
  }

  lemma WriteKeepsOk(env: Env, regs: Regs, size: Size, argv: seq<cstring>)
    requires env.host.Valid() && RegsOk(regs) && |argv| == WriteArgs(size)
    ensures RegsOk(WriteOutcome(env, regs, size, argv).regs)
  {
  }

  lemma ReadsWritten(env: Env, regs: Regs, size: Size, p: Target, arg: string, readArgv: seq<cstring>)
    requires env.Valid() && RegsOk(regs) && Transferable(size) && Accepts(size, arg, env.host)
    requires |readArgv| == ReadArgs(size) && Prologue(env, size, readArgv) == Some(p) && p.slave in env.acks
    requires var cell := CellOf(size, p.slave, p.reg);
             var payload := Payload(env.host.endian, size, OperandBytes(size, arg, env.host));
             cell in regs && regs[cell] == Frame(KindOf(size), payload)
    ensures ReadOutcome(env, regs, size, readArgv) == Output(0, Canonical(size, arg, env.host))
  {
    hide Prologue, Rendering, Canonical, OperandBytes, Payload, InMemory, Accepts, Answers, Env.Answer, Image;
    AnswersWritten(env, regs, size, CellOf(size, p.slave, p.reg), OperandBytes(size, arg, env.host));
    RendersCanonical(size, arg, env.host);
  }

  /** A device asked for what it was sent gives it back. */
  lemma AnswersWritten(env: Env, regs: Regs, size: Size, cell: Cell, bytes: seq<byte>)
    requires env.Valid() && Transferable(size) && |bytes| <= BLOCK_MAX && (!size.SizeBlock? ==> |bytes| == size.Width())
    requires cell in regs && regs[cell] == Frame(KindOf(size), Payload(env.host.endian, size, bytes))
    ensures Answers(env, regs, cell, size)
    ensures var answer := env.Answer(regs[cell], size.Width());
            |answer| == |bytes| && InMemory(env.host.endian, size, answer) == bytes
  {
    hide Payload, InMemory;
    PayloadRoundTrip(env.host.endian, size, bytes);
  }

  lemma RendersCanonical(size: Size, arg: string, host: Host)
    requires host.Valid() && Transferable(size) && Accepts(size, arg, host)
    ensures var bytes := OperandBytes(size, arg, host);
            Rendering(size, |bytes|, Image(bytes), host) == Canonical(size, arg, host)
  {
    var bytes := OperandBytes(size, arg, host);
    assert Image(bytes)[..|bytes|] == bytes;
    if !size.SizeBlock? {
      ScalarInMemory(host.endian, ScalarValue(size, arg, host), size.Width());
    }
  }

  /** The text a read prints, without its newline, is itself an operand for the same value: writing
      it back is accepted and reads as the same text. */
  lemma PrintedScalarEchoes(size: Size, v: nat, host: Host)
    requires host.Valid() && Transferable(size) && !size.SizeBlock? && v < Pow2(8 * size.Width())
    ensures var text := PrefixedHex(v, 2 * size.Width(), true);
            Accepts(size, text, host) && Canonical(size, text, host) == text + "\n"
  {
    hide Scan, PrefixedHex, UnsignedOf, Pow2;
    WidthFits(size, host);
    ParsePrinted(v, 2 * size.Width(), true, ScalarBits(size, host));
    ModUnique(v, Pow2(8 * size.Width()), 0, v);
    if !size.Size32? && !size.Size64? { BelowLongMax(size, v, host); }
  }

  lemma BelowLongMax(size: Size, v: nat, host: Host)
    requires host.Valid() && (size.Width() == 1 || size.Width() == 2) && v < Pow2(8 * size.Width())
    ensures v != LongMax(host)
  {
    hide Pow2;
    WordSizes();
  }

  lemma PrintedBlockEchoes(bs: seq<byte>, host: Host)
    requires host.Valid() && 1 <= |bs| <= BLOCK_MAX
    ensures Accepts(SizeBlock, HexBytes(bs), host)
    ensures Canonical(SizeBlock, HexBytes(bs), host) == HexBytes(bs) + "\n"
  {
    ParsePrintedBlock(bs);
  }

  /** What the user types and what the device then holds: an accepted scalar is kept as typed exactly
      when it lies in the range of its field. */
  lemma DeviceHoldsTypedIff(env: Env, regs: Regs, size: Size, argv: seq<cstring>)
    requires env.Valid() && Transferable(size) && !size.SizeBlock? && |argv| == WriteArgs(size)
    ensures var w, p := WriteOutcome(env, regs, size, argv), Prologue(env, size, argv);
            w.rc == 0 ==>
              && p.Some? && CellOf(size, p.value.slave, p.value.reg) in w.regs
              && var payload := w.regs[CellOf(size, p.value.slave, p.value.reg)].payload;
                 var arg := argv[|argv| - 1];
                 && |payload| == size.Width()
                 && (Load(env.host.endian, InMemory(env.host.endian, size, payload)) == Typed(arg)
                     <==> 0 <= Typed(arg) < Pow2(8 * size.Width()))
  {
    hide Prologue, Scan, Typed, Pow2, Load, Store, AcceptsScalar, ScalarValue;
    var arg, e := argv[|argv| - 1], env.host.endian;
    if WriteOutcome(env, regs, size, argv).rc == 0 {
      PayloadRoundTrip(e, size, OperandBytes(size, arg, env.host));
      ScalarInMemory(e, ScalarValue(size, arg, env.host), size.Width());
      ScalarKeptIff(size, arg, env.host);
    }
  }

  /** From argv to the printed text: writing a printed value or block to a device that answers
      succeeds, and reading the same target prints the very text that was typed. */
  lemma PrintedTextEchoes(env: Env, regs: Regs, size: Size, argv: seq<cstring>, readArgv: seq<cstring>)
    requires env.Valid() && RegsOk(regs) && Transferable(size)
    requires |argv| == WriteArgs(size) && |readArgv| == ReadArgs(size)
    requires Prologue(env, size, argv).Some? && Prologue(env, size, argv).value.slave in env.acks
    requires Prologue(env, size, readArgv) == Prologue(env, size, argv)
    requires IsPrint(size, argv[|argv| - 1])
    ensures var w := WriteOutcome(env, regs, size, argv);
            && w.rc == 0 && RegsOk(w.regs)
            && ReadOutcome(env, w.regs, size, readArgv) == Output(0, argv[|argv| - 1] + "\n")
  {
    hide Prologue, ReadOutcome, Accepts, Canonical;
    PrintIsAccepted(size, argv[|argv| - 1], env.host);
    Echo(env, regs, size, argv, readArgv);
  }

  /** The texts that the read command of a size prints, without their newline. */
  ghost predicate IsPrint(size: Size, text: string) {
    if size.SizeBlock? then exists bs: seq<byte> :: 1 <= |bs| <= BLOCK_MAX && text == HexBytes(bs)
    else exists v: nat :: v < Pow2(8 * size.Width()) && text == PrefixedHex(v, 2 * size.Width(), true)
  }

  lemma PrintIsAccepted(size: Size, text: string, host: Host)
    requires host.Valid() && Transferable(size) && IsPrint(size, text)
    ensures Accepts(size, text, host) && Canonical(size, text, host) == text + "\n"
  {
    hide Accepts, Canonical, PrefixedHex, HexBytes, Pow2;
    if size.SizeBlock? {
      var bs: seq<byte> :| 1 <= |bs| <= BLOCK_MAX && text == HexBytes(bs);
      PrintedBlockEchoes(bs, host);
    } else {
      var v: nat :| v < Pow2(8 * size.Width()) && text == PrefixedHex(v, 2 * size.Width(), true);
      PrintedScalarEchoes(size, v, host);
    }
  }

  /** Every read that succeeds prints a text of its size, or the empty line of an empty block. */
  lemma ReadsPrint(env: Env, regs: Regs, size: Size, readArgv: seq<cstring>) returns (text: string)
    requires env.Valid() && RegsOk(regs) && Transferable(size) && |readArgv| == ReadArgs(size)
    ensures var r := ReadOutcome(env, regs, size, readArgv);
            r.rc == 0 ==> r.out == text + "\n" && (IsPrint(size, text) || (size.SizeBlock? && text == ""))
  {
    hide Prologue, PrefixedHex, HexBytes, Load, Pow2, InMemory;
    text := "";
    var p := Prologue(env, size, readArgv);
    if ReadOutcome(env, regs, size, readArgv).rc == 0 {
      var answer := env.Answer(regs[CellOf(size, p.value.slave, p.value.reg)], size.Width());
      var bytes := InMemory(env.host.endian, size, answer);
      if size.SizeBlock? {
        assert Image(bytes)[..ClampCount(|bytes|)] == bytes;
        text := HexBytes(bytes);
        if bytes == [] { NoBytesNoText(); }
      } else {
        var word := Image(bytes)[..size.Width()];
        LoadBound(env.host.endian, word);
        text := PrefixedHex(Load(env.host.endian, word), 2 * size.Width(), true);
      }
    }
  }

  lemma NoBytesNoText()
    ensures HexBytes([]) == ""
  {
  }

  lemma PrintIsNotEmpty(size: Size, text: string)
    requires IsPrint(size, text)
    ensures text != ""
  {
    hide PadHex;
    if size.SizeBlock? {
      var bs: seq<byte> :| 1 <= |bs| <= BLOCK_MAX && text == HexBytes(bs);
      HexBytesShape(bs);
    }
  }

  /** Typing back what a read printed: the write succeeds and the next read prints the same, exactly
      when the printed line was not empty. */
  lemma ReadTextEchoesIff(env: Env, regs: Regs, before: Regs, size: Size, argv: seq<cstring>, readArgv: seq<cstring>)
    requires env.Valid() && RegsOk(regs) && RegsOk(before) && Transferable(size)
    requires |argv| == WriteArgs(size) && |readArgv| == ReadArgs(size)
    requires Prologue(env, size, readArgv) == Prologue(env, size, argv)
    requires ReadOutcome(env, regs, size, readArgv) == Output(0, argv[|argv| - 1] + "\n")
    ensures RegsOk(WriteOutcome(env, before, size, argv).regs)
    ensures var w, text := WriteOutcome(env, before, size, argv), argv[|argv| - 1];
            w.rc == 0 && ReadOutcome(env, w.regs, size, readArgv) == Output(0, text + "\n") <==> text != ""
  {
    hide Prologue, Rendering, InMemory, OperandBytes, Answers;
    var text := argv[|argv| - 1];
    WriteKeepsOk(env, before, size, argv);
    var printed := ReadsPrint(env, regs, size, readArgv);
    SameLine(printed, text);
    if text == "" {
      if IsPrint(size, text) { PrintIsNotEmpty(size, text); }
      assert !Accepts(size, text, env.host);
    } else {
      PrintedTextEchoes(env, before, size, argv, readArgv);
    }
  }

  lemma SameLine(s: string, t: string)
    requires s + "\n" == t + "\n"
    ensures s == t
  {
    assert s == (s + "\n")[..|s + "\n"| - 1];
    assert t == (t + "\n")[..|t + "\n"| - 1];
  }

  /** A block that does not survive: 0x is accepted and stores no bytes, reading it prints an empty
      line, and typing that empty text back is refused. */
  lemma EmptyBlockExample(argv: seq<cstring>, back: seq<cstring>)
    requires argv == ["smbus_writeblock", "0x0", "0x0", "0x0", "0x"]
    requires back == ["smbus_writeblock", "0x0", "0x0", "0x0", ""]
    ensures OneDevice().Valid()
    ensures var w := WriteOutcome(OneDevice(), map[], SizeBlock, argv);
            && w.rc == 0 && w.regs == map[Register(Slave(0, 0), 0) := Frame(KBlockData, [])]
            && RegsOk(w.regs)
            && ReadOutcome(OneDevice(), w.regs, SizeBlock, argv[..4]) == Output(0, "\n")
            && WriteOutcome(OneDevice(), w.regs, SizeBlock, back) == WriteResult(-1, w.regs)
  {
    hide Prologue, AcceptsBlock, BlockBytes, ReadOutcome, OneDevice;
    var cell, readArgv := Register(Slave(0, 0), 0), argv[..4];
    assert argv[4] == "0x" && back[4] == "";
    assert readArgv[1] == argv[1] && readArgv[2] == argv[2] && readArgv[3] == argv[3];
    OneDeviceWorks();
    FirstTarget(argv);
    FirstTarget(back);
    FirstTarget(readArgv);
    BarePrefix();
    ReadsEmpty(map[cell := Frame(KBlockData, [])], readArgv);
  }

  lemma OneDeviceWorks()
    ensures OneDevice().Valid() && Slave(0, 0) in OneDevice().acks
  {
  }

  lemma ReadsEmpty(regs: Regs, readArgv: seq<cstring>)
    requires |readArgv| == 4 && Prologue(OneDevice(), SizeBlock, readArgv) == Some(Target(Slave(0, 0), 0))
    requires regs == map[Register(Slave(0, 0), 0) := Frame(KBlockData, [])]
    ensures RegsOk(regs) && ReadOutcome(OneDevice(), regs, SizeBlock, readArgv) == Output(0, "\n")
  {
    hide Prologue, Rendering;
    BarePrefix();
  }

  lemma FirstTarget(argv: seq<cstring>)
    requires |argv| >= 4 && argv[1] == "0x0" && argv[2] == "0x0" && argv[3] == "0x0"
    ensures Prologue(OneDevice(), SizeBlock, argv) == Some(Target(Slave(0, 0), 0))
  {
    hide ParseUint8;
    ZeroParses(OneDevice().host);
  }

  lemma BarePrefix()
    ensures AcceptsBlock("0x") && BlockBytes("0x") == [] && !AcceptsBlock("")
    ensures Rendering(SizeBlock, 0, Image([]), OneDevice().host) == "\n"
  {
    assert StripPrefix("0x") == "";
    assert Image([])[..0] == [];
  }

  // ----- Whole runs

  datatype WriteCommand = WriteCommand(size: Size, argv: seq<cstring>)

  type Write = c: WriteCommand | |c.argv| == WriteArgs(c.size) witness WriteCommand(Size8, ["", "", "", "", ""])

  function Apply(env: Env, regs: Regs, c: Write): Regs
    requires env.host.Valid()
  {
    WriteOutcome(env, regs, c.size, c.argv).regs
  }

  function Run(env: Env, regs: Regs, cs: seq<Write>): Regs
    requires env.host.Valid()
    decreases |cs|
  {
    if cs == [] then regs else Run(env, Apply(env, regs, cs[0]), cs[1..])
  }

  /** The cell a command changes, if it changes any; it does not depend on the registers. */
  function Changes(env: Env, c: Write): Option<Cell>
    requires env.host.Valid()
  {
    var p := Prologue(env, c.size, c.argv);
    if WriteOutcome(env, map[], c.size, c.argv).rc == 0 && !c.size.Quick?
    then Some(CellOf(c.size, p.value.slave, p.value.reg)) else None
  }

  lemma ApplyElsewhere(env: Env, regs: Regs, c: Write, cell: Cell)
    requires env.host.Valid() && RegsOk(regs) && Changes(env, c) != Some(cell)
    ensures RegsOk(Apply(env, regs, c))
    ensures cell in Apply(env, regs, c) <==> cell in regs
    ensures cell in regs ==> Apply(env, regs, c)[cell] == regs[cell]
  {
    WriteKeepsOk(env, regs, c.size, c.argv);
  }

  /** A register that no command of a run changes is as it was. */
  lemma {:induction false} Untouched(env: Env, regs: Regs, cs: seq<Write>, cell: Cell)
    requires env.host.Valid() && RegsOk(regs)
    requires forall i :: 0 <= i < |cs| ==> Changes(env, cs[i]) != Some(cell)
    ensures RegsOk(Run(env, regs, cs))
    ensures cell in Run(env, regs, cs) <==> cell in regs
    ensures cell in regs ==> Run(env, regs, cs)[cell] == regs[cell]
    decreases |cs|
  {
    if cs != [] {
      assert Changes(env, cs[0]) != Some(cell);
      assert forall i :: 0 <= i < |cs[1..]| ==> cs[1..][i] == cs[i + 1];
      ApplyElsewhere(env, regs, cs[0], cell);
      Untouched(env, Apply(env, regs, cs[0]), cs[1..], cell);
    }
  }

  lemma {:induction false} RunSplit(env: Env, regs: Regs, cs: seq<Write>, k: nat)
    requires env.host.Valid() && RegsOk(regs) && k <= |cs|
    ensures RegsOk(Run(env, regs, cs[..k]))
    ensures Run(env, regs, cs) == Run(env, Run(env, regs, cs[..k]), cs[k..])
    decreases k
  {
    hide WriteOutcome, RegsOk;
    if k > 0 {
      WriteKeepsOk(env, regs, cs[0].size, cs[0].argv);
      RunSplit(env, Apply(env, regs, cs[0]), cs[1..], k - 1);
      assert cs[..k][0] == cs[0] && cs[..k][1..] == cs[1..][..k - 1] && cs[1..][k - 1..] == cs[k..];
    } else {
      assert cs[..0] == [] && cs[0..] == cs;
    }
  }

  /** The frame that a command which changes a cell puts there. */
  function FrameOf(env: Env, c: Write): Frame
    requires env.host.Valid() && Transferable(c.size) && Accepts(c.size, c.argv[|c.argv| - 1], env.host)
  {
    Frame(KindOf(c.size), Payload(env.host.endian, c.size, OperandBytes(c.size, c.argv[|c.argv| - 1], env.host)))
  }

  lemma ApplyWrites(env: Env, regs: Regs, c: Write)
    requires env.host.Valid() && RegsOk(regs) && Transferable(c.size)
    ensures RegsOk(Apply(env, regs, c))
    ensures Changes(env, c).Some? ==>
              var p := Prologue(env, c.size, c.argv);
              && p.Some? && p.value.slave in env.acks && Accepts(c.size, c.argv[|c.argv| - 1], env.host)
              && Changes(env, c).value == CellOf(c.size, p.value.slave, p.value.reg)
              && Apply(env, regs, c) == regs[Changes(env, c).value := FrameOf(env, c)]
  {
    WriteKeepsOk(env, regs, c.size, c.argv);
  }

  /** Command k changes a cell and no later command of the run changes the same one. */
  ghost predicate LastToChange(env: Env, cs: seq<Write>, k: nat)
    requires env.host.Valid() && k < |cs|
  {
    Changes(env, cs[k]).Some? && forall i :: k < i < |cs| ==> Changes(env, cs[i]) != Changes(env, cs[k])
  }

  /** After any run of write commands, a read prints what the last successful write to its cell was
      given, however many writes to other cells, or failing ones, came before and after. */
  lemma LastWriteWins(env: Env, regs: Regs, cs: seq<Write>, k: nat, readArgv: seq<cstring>)
    requires env.Valid() && RegsOk(regs)
    requires k < |cs| && Transferable(cs[k].size) && |readArgv| == ReadArgs(cs[k].size)
    ensures var c := cs[k];
            LastToChange(env, cs, k) && Prologue(env, c.size, readArgv) == Prologue(env, c.size, c.argv) ==>
              && RegsOk(Run(env, regs, cs))
              && Accepts(c.size, c.argv[|c.argv| - 1], env.host)
              && ReadOutcome(env, Run(env, regs, cs), c.size, readArgv)
                 == Output(0, Canonical(c.size, c.argv[|c.argv| - 1], env.host))
  {
    hide Prologue, ReadOutcome, Accepts, Canonical, OperandBytes, WriteOutcome, Changes;
    var c, later := cs[k], cs[k + 1..];
    if LastToChange(env, cs, k) && Prologue(env, c.size, readArgv) == Prologue(env, c.size, c.argv) {
      var before := Run(env, regs, cs[..k]);
      RunSplit(env, regs, cs, k);
      assert cs[k..][0] == c && cs[k..][1..] == later;
      ApplyWrites(env, before, c);
      assert forall i :: 0 <= i < |later| ==> later[i] == cs[k + 1 + i];
      Untouched(env, Apply(env, before, c), later, Changes(env, c).value);
      assert Run(env, regs, cs) == Run(env, Apply(env, before, c), later);
      var p := Prologue(env, c.size, c.argv).value;
      ReadsWritten(env, Run(env, regs, cs), c.size, p, c.argv[|c.argv| - 1], readArgv);
    }
  }

  // ----- Process call

  lemma PrintedWordsDiffer(v: nat, w: nat)
    requires PrefixedHex(v, 4, true) + "\n" == PrefixedHex(w, 4, true) + "\n"
    ensures v == w
  {
    var s, t := PrefixedHex(v, 4, true), PrefixedHex(w, 4, true);
    assert s == (s + "\n")[..|s + "\n"| - 1] == t;
    ScanPrefixedHex(v, 4, true, []);
    ScanPrefixedHex(w, 4, true, []);
    assert s + [] == s && t + [] == t;
  }

  /** smbus_process_call shows the reply of the device only when the device echoes the word. */
  lemma ProcessCallShowsReplyIff(env: Env, argv: seq<cstring>)
    requires env.Valid() && |argv| == 5
    ensures ProcessCallOutcome(env, argv).rc == 0 ==>
            var p := Prologue(env, ProcCall, argv).value;
            var sent := ScalarValue(ProcCall, argv[4], env.host);
            var reply := FromLE(env.reply(Register(p.slave, p.reg), ToLE(sent, 2)));
            ProcessCallOutcome(env, argv).out == PrefixedHex(reply, 4, true) + "\n" <==> reply == sent
  {
    hide PrefixedHex, FromLE, ToLE, ScalarValue, Accepts;
    if ProcessCallOutcome(env, argv).rc == 0 {
      var p := Prologue(env, ProcCall, argv).value;
      var sent := ScalarValue(ProcCall, argv[4], env.host);
      var reply := FromLE(env.reply(Register(p.slave, p.reg), ToLE(sent, 2)));
      if ProcessCallOutcome(env, argv).out == PrefixedHex(reply, 4, true) + "\n" {
        PrintedWordsDiffer(sent, reply);
      }
    }
  }

  /** A machine with one device, which answers every call with the word 1. */
  function OneDevice(): Env {
    Env(Host(Little, 64), {Slave(0, 0)}, {Slave(0, 0)}, (c: Cell, sent: seq<byte>) => [1, 0],
        (kept: seq<byte>, asked: nat) => if |kept| <= BLOCK_MAX then kept else [])
  }

  /** A concrete call that does not show the reply: the word 0 is sent, 1 comes back, 0 is shown. */
  lemma ProcessCallExample(argv: seq<cstring>)
    requires argv == ["smbus_process_call", "0x0", "0x0", "0x0", "0x0"]
    ensures OneDevice().Valid()
    ensures ProcessCallOutcome(OneDevice(), argv) == Output(0, PrefixedHex(0, 4, true) + "\n")
    ensures FromLE(OneDevice().reply(Register(Slave(0, 0), 0), ToLE(0, 2))) == 1
    ensures PrefixedHex(0, 4, true) + "\n" != PrefixedHex(1, 4, true) + "\n"
  {
    hide PrefixedHex, Scan, ParseUint8, Accepts, ScalarValue, Pow2, FromLE;
    var env := OneDevice();
    ZeroParses(env.host);
    assert Prologue(env, ProcCall, argv) == Some(Target(Slave(0, 0), 0));
    OneAnswers();
    if PrefixedHex(0, 4, true) + "\n" == PrefixedHex(1, 4, true) + "\n" {
      PrintedWordsDiffer(0, 1);
    }
  }

  lemma OneAnswers()
    ensures FromLE([1, 0]) == 1
  {
    var bytes: seq<byte> := [1, 0];
    assert bytes[1..] == [0] && bytes[1..][1..] == [];
    assert FromLE(bytes[1..]) == 0;
  }

  lemma ZeroParses(host: Host)
    requires host.Valid()
    ensures ParseUint8("0x0", 0, host) == Some(0)
    ensures Accepts(ProcCall, "0x0", host) && ScalarValue(ProcCall, "0x0", host) == 0
  {
    hide Pow2, Scan;
    WordSizes();
    assert PrefixedHex(0, 1, true) == "0x0";
    ParsePrinted(0, 1, true, host.longBits);
  }
}
