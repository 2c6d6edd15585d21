/**
 The SMBus commands once more, from the numbers on the command line to registers and printed text,
 one command at a time.  The target of a command is adapter b, slave address a and register r.
 */
module SmbusCommandLines {
  import opened Bits
  import opened ByteOrder
  import opened CText
  import opened I2cDev
  import opened SmbusCodec
  import opened SmbusCommands

  /** The adapter and the address on a command line, in any spelling. */
  ghost predicate Names(argv: seq<cstring>, b: nat, a: nat) {
    |argv| >= 3 && Denotes(argv[1], b) && Denotes(argv[2], a)
  }

  ghost predicate NamesRegister(argv: seq<cstring>, b: nat, a: nat, r: nat) {
    |argv| >= 4 && Names(argv, b, a) && Denotes(argv[3], r)
  }

  /** A slave that can be opened and answers. */
  predicate Works(env: Env, b: byte, a: byte) {
    Slave(b, a) in env.present && Slave(b, a) in env.acks
  }

  lemma ByteArgument(arg: string, v: nat, host: Host)
    requires host.Valid() && Denotes(arg, v)
    ensures ParseUint8(arg, 0, host) == if v <= 0xff then Some(v) else None
  {
    hide Scan, Denotes, Pow2;
    DenotedValue(arg, v, host.longBits);
    WordSizes();
    LongMaxIs(host.endian);
  }

  /** The first argument is the adapter, the second the slave address, the third the register of the
      commands that take one; each has to be a byte, and the slave there has to be one that can be
      opened. */
  lemma TargetTyped(env: Env, size: Size, argv: seq<cstring>, b: nat, a: nat, r: nat)
    requires env.host.Valid()
    ensures size !in {SizeByte, Quick, WriteRead} && NamesRegister(argv, b, a, r) ==>
              Prologue(env, size, argv)
              == if b <= 0xff && a <= 0xff && r <= 0xff && Slave(b, a) in env.present
                 then Some(Target(Slave(b, a), r)) else None
    ensures size in {SizeByte, Quick, WriteRead} && Names(argv, b, a) ==>
              Prologue(env, size, argv)
              == if b <= 0xff && a <= 0xff && Slave(b, a) in env.present
                 then Some(Target(Slave(b, a), 0)) else None
  {
    hide ParseUint8, Denotes;
    if Names(argv, b, a) {
      ByteArgument(argv[1], b, env.host);
      ByteArgument(argv[2], a, env.host);
    }
    if NamesRegister(argv, b, a, r) {
      ByteArgument(argv[3], r, env.host);
    }
  }

  // ----- Writes

  /** A write to a number above 0xff, to a slave that cannot be opened or to one that does not
      answer fails and changes nothing. */
  lemma WriteRefused(env: Env, regs: Regs, size: Size, argv: seq<cstring>, b: nat, a: nat, r: nat)
    requires env.host.Valid() && |argv| == WriteArgs(size) && Names(argv, b, a)
    requires size !in {SizeByte, Quick, WriteRead} ==> Denotes(argv[3], r)
    requires b > 0xff || a > 0xff || !Works(env, b, a) || (size !in {SizeByte, Quick, WriteRead} && r > 0xff)
    ensures WriteOutcome(env, regs, size, argv) == WriteResult(-1, regs)
  {
    hide Prologue, Denotes, Accepts;
    TargetTyped(env, size, argv, b, a, r);
  }

  lemma ScalarTyped(size: Size, arg: string, v: nat, host: Host)
    requires host.Valid() && !size.IsBlock() && Denotes(arg, v)
    requires v < Pow2(8 * size.Width()) && (size.Quick? ==> v < 2)
    ensures Accepts(size, arg, host) && OperandBytes(size, arg, host) == Store(host.endian, v, size.Width())
  {
    hide Scan, Denotes, Pow2;
    DenotedValue(arg, v, ScalarBits(size, host));
    WidthFits(size, host);
    ModUnique(v, Pow2(8 * size.Width()), 0, v);
    LongMaxIs(host.endian);
    WordSizes();
  }

  lemma WordBytes(e: Endian, v: nat)
    requires v < 0x1_0000
    ensures ToLE(v, 2) == [v % 256, v / 256] && Load(e, Store(e, v, 2)) == v
  {
    hide Load, Store, Pow2;
    assert ToLE(v / 256, 1) == [v / 256];
    WordSizes();
    ScalarInMemory(e, v, 2);
  }

  /** smbus_write8, smbus_write16, smbus_write32 and smbus_write64. */
  lemma WriteTyped(env: Env, regs: Regs, size: Size, argv: seq<cstring>, b: byte, a: byte, r: byte, v: nat)
    requires env.host.Valid() && |argv| == 5 && NamesRegister(argv, b, a, r) && Denotes(argv[4], v)
    requires Works(env, b, a)
    ensures size.Size8? && v < 0x100 ==>
              WriteOutcome(env, regs, size, argv)
              == WriteResult(0, regs[Register(Slave(b, a), r) := Frame(KByteData, [v])])
    ensures size.Size16? && v < 0x1_0000 ==>
              WriteOutcome(env, regs, size, argv)
              == WriteResult(0, regs[Register(Slave(b, a), r) := Frame(KWordData, [v % 256, v / 256])])
    ensures size.Size32? && v < 0x1_0000_0000 ==>
              WriteOutcome(env, regs, size, argv)
              == WriteResult(0, regs[Register(Slave(b, a), r) := Frame(KI2cBlockData, Store(env.host.endian, v, 4))])
    ensures size.Size64? && v < 0x1_0000_0000_0000_0000 ==>
              WriteOutcome(env, regs, size, argv)
              == WriteResult(0, regs[Register(Slave(b, a), r) := Frame(KI2cBlockData, Store(env.host.endian, v, 8))])
  {
    hide Prologue, Denotes, Accepts, OperandBytes, Store, Load, ToLE, Pow2;
    TargetTyped(env, size, argv, b, a, r);
    WordSizes();
    if v < 0x100 { ByteImage(env.host.endian, [v]); }
    if v < 0x1_0000 { WordBytes(env.host.endian, v); }
    if size in {Size8, Size16, Size32, Size64} && v < Pow2(8 * size.Width()) {
      ScalarTyped(size, argv[4], v, env.host);
    }
  }

  /** smbus_writeblock: the digits of 1 to 32 bytes, or a prefix and the digits of up to 32. */
  lemma WriteBlockTyped(env: Env, regs: Regs, argv: seq<cstring>, b: byte, a: byte, r: byte,
                        prefix: string, bs: seq<byte>)
    requires env.host.Valid() && |argv| == 5 && NamesRegister(argv, b, a, r) && Works(env, b, a)
    requires prefix in {"", "0x", "0X"} && argv[4] == prefix + HexBytes(bs)
    ensures WriteOutcome(env, regs, SizeBlock, argv)
         == if |bs| <= 32 && (prefix == "" ==> bs != [])
            then WriteResult(0, regs[Register(Slave(b, a), r) := Frame(KBlockData, bs)])
            else WriteResult(-1, regs)
  {
    hide Prologue, Denotes, AcceptsBlock, BlockBytes, HexBytes;
    TargetTyped(env, SizeBlock, argv, b, a, r);
    BlockTyped(argv[4], prefix, bs);
  }

  lemma BlockTyped(arg: string, prefix: string, bs: seq<byte>)
    requires prefix in {"", "0x", "0X"} && arg == prefix + HexBytes(bs)
    ensures AcceptsBlock(arg) <==> |bs| <= 32 && (prefix == "" ==> bs != [])
    ensures AcceptsBlock(arg) ==> BlockBytes(arg) == bs
  {
    hide AcceptsBlock, BlockBytes, HexBytes;
    if prefix == "" {
      assert arg == HexBytes(bs);
      ParsePrintedBlock(bs);
    } else {
      ParsePrefixedBlock(prefix, bs);
    }
  }

  /** smbus_send_byte and smbus_quick, which take no register. */
  lemma SendTyped(env: Env, regs: Regs, argv: seq<cstring>, b: byte, a: byte, v: nat)
    requires env.host.Valid() && |argv| == 4 && Names(argv, b, a) && Denotes(argv[3], v) && Works(env, b, a)
    ensures v < 0x100 ==>
              WriteOutcome(env, regs, SizeByte, argv)
              == WriteResult(0, regs[Plain(Slave(b, a)) := Frame(KByte, [v])])
    ensures WriteOutcome(env, regs, Quick, argv) == WriteResult(if v < 2 then 0 else -1, regs)
  {
    hide Prologue, Denotes, Accepts, OperandBytes, Store, Pow2;
    TargetTyped(env, SizeByte, argv, b, a, 0);
    TargetTyped(env, Quick, argv, b, a, 0);
    WordSizes();
    if v < 0x100 {
      ByteImage(env.host.endian, [v]);
      ScalarTyped(SizeByte, argv[3], v, env.host);
    }
    if v < 2 { ScalarTyped(Quick, argv[3], v, env.host); } else { QuickRefused(argv[3], v, env.host); }
  }

  lemma QuickRefused(arg: string, v: nat, host: Host)
    requires host.Valid() && Denotes(arg, v) && v >= 2
    ensures !Accepts(Quick, arg, host)
  {
    hide Scan, Denotes, Pow2;
    DenotedValue(arg, v, host.longBits);
    WordSizes();
  }

  // ----- Reads

  function Word(low: byte, high: byte): nat {
    low as nat + 256 * high as nat
  }

  /** smbus_read8, smbus_read16, smbus_read32, smbus_read64 and smbus_readblock, given what the
      register holds; a register that holds another kind, or nothing, cannot be read. */
  lemma ReadTyped(env: Env, regs: Regs, size: Size, argv: seq<cstring>, b: byte, a: byte, r: byte, f: Frame)
    requires env.Valid() && RegsOk(regs) && |argv| == 4 && NamesRegister(argv, b, a, r) && Works(env, b, a)
    requires Register(Slave(b, a), r) in regs && regs[Register(Slave(b, a), r)] == f
    ensures size.Size8? ==>
              ReadOutcome(env, regs, size, argv)
              == if f.kind.KByteData? && |f.payload| == 1
                 then Output(0, PrefixedHex(f.payload[0], 2, true) + "\n") else Output(-1, "")
    ensures size.Size16? ==>
              ReadOutcome(env, regs, size, argv)
              == if f.kind.KWordData? && |f.payload| == 2
                 then Output(0, PrefixedHex(Word(f.payload[0], f.payload[1]), 4, true) + "\n")
                 else Output(-1, "")
    ensures size.Size32? ==>
              var bs := env.answer(f.payload, 4);
              ReadOutcome(env, regs, size, argv)
              == if f.kind.KI2cBlockData? && |bs| == 4
                 then Output(0, PrefixedHex(Load(env.host.endian, bs), 8, true) + "\n") else Output(-1, "")
    ensures size.Size64? ==>
              var bs := env.answer(f.payload, 8);
              ReadOutcome(env, regs, size, argv)
              == if f.kind.KI2cBlockData? && |bs| == 8
                 then Output(0, PrefixedHex(Load(env.host.endian, bs), 16, true) + "\n") else Output(-1, "")
    ensures size.SizeBlock? ==>
              ReadOutcome(env, regs, size, argv)
              == if f.kind.KBlockData? then Output(0, HexBytes(f.payload) + "\n") else Output(-1, "")
  {
    hide Prologue, Denotes, PrefixedHex, HexBytes, Load, Store, Image;
    if size in {Size8, Size16, Size32, Size64, SizeBlock} {
      TargetTyped(env, size, argv, b, a, r);
      if Answers(env, regs, Register(Slave(b, a), r), size) {
        RendersAnswer(size, env.Answer(f, size.Width()), env.host);
      }
    }
  }

  /** smbus_receive_byte */
  lemma ReceiveTyped(env: Env, regs: Regs, argv: seq<cstring>, b: byte, a: byte)
    requires env.Valid() && RegsOk(regs) && |argv| == 3 && Names(argv, b, a) && Works(env, b, a)
    ensures var cell := Plain(Slave(b, a));
            ReadOutcome(env, regs, SizeByte, argv)
            == if cell in regs && regs[cell].kind.KByte? && |regs[cell].payload| == 1
               then Output(0, PrefixedHex(regs[cell].payload[0], 2, true) + "\n") else Output(-1, "")
  {
    hide Prologue, Denotes, PrefixedHex, HexBytes, Load, Store, Image;
    TargetTyped(env, SizeByte, argv, b, a, 0);
    if Answers(env, regs, Plain(Slave(b, a)), SizeByte) {
      RendersAnswer(SizeByte, env.Answer(regs[Plain(Slave(b, a))], 1), env.host);
    }
  }

  /** A register never written, a slave that is not there or a number above 0xff: nothing is read. */
  lemma ReadRefused(env: Env, regs: Regs, size: Size, argv: seq<cstring>, b: nat, a: nat, r: nat)
    requires env.host.Valid() && RegsOk(regs) && Transferable(size) && |argv| == ReadArgs(size)
    requires Names(argv, b, a) && (!size.SizeByte? ==> Denotes(argv[3], r))
    requires b > 0xff || a > 0xff || !Works(env, b, a)
             || (!size.SizeByte? && (r > 0xff || Register(Slave(b, a), r) !in regs))
    ensures ReadOutcome(env, regs, size, argv) == Output(-1, "")
  {
    hide Prologue, Denotes;
    TargetTyped(env, size, argv, b, a, r);
  }

  /** The text of the bytes that a device answers with. */
  lemma RendersAnswer(size: Size, bs: seq<byte>, host: Host)
    requires Transferable(size) && |bs| <= BLOCK_MAX && (!size.SizeBlock? ==> |bs| == size.Width())
    ensures var text := Rendering(size, |bs|, Image(InMemory(host.endian, size, bs)), host);
            && (size.SizeBlock? ==> text == HexBytes(bs) + "\n")
            && (size.Size8? || size.SizeByte? ==> text == PrefixedHex(bs[0], 2, true) + "\n")
            && (size.Size16? ==> text == PrefixedHex(Word(bs[0], bs[1]), 4, true) + "\n")
            && (size.Size32? ==> text == PrefixedHex(Load(host.endian, bs), 8, true) + "\n")
            && (size.Size64? ==> text == PrefixedHex(Load(host.endian, bs), 16, true) + "\n")
  {
    hide PrefixedHex, HexBytes, Load, Store;
    var kept := InMemory(host.endian, size, bs);
    assert Image(kept)[..|kept|] == kept;
    if size.Size16? {
      WordAnswer(host.endian, bs);
    } else if size.Width() == 1 && !size.SizeBlock? {
      ByteOperand(host.endian, bs);
    }
  }

  lemma WordAnswer(e: Endian, bs: seq<byte>)
    requires |bs| == 2
    ensures FromLE(bs) == Word(bs[0], bs[1])
    ensures Load(e, Store(e, FromLE(bs), 2)) == Word(bs[0], bs[1])
  {
    hide Store, Load, Pow2;
    assert bs[1..] == [bs[1]] && bs[1..][1..] == [];
    assert FromLE(bs[1..]) == bs[1];
    WordSizes();
    ScalarInMemory(e, FromLE(bs), 2);
  }

  // ----- Calls

  /** smbus_process_call: the word goes to the register low byte first, and it is the word sent that
      is printed. */
  lemma ProcessCallTyped(env: Env, argv: seq<cstring>, b: byte, a: byte, r: byte, v: nat)
    requires env.host.Valid() && |argv| == 5 && NamesRegister(argv, b, a, r) && Denotes(argv[4], v)
    requires Works(env, b, a) && v < 0x1_0000
    ensures ProcessCallOutcome(env, argv)
         == if |env.reply(Register(Slave(b, a), r), [v % 256, v / 256])| == 2
            then Output(0, PrefixedHex(v, 4, true) + "\n") else Output(-1, "")
  {
    hide Prologue, Denotes, Accepts, Store, Load, ToLE, Pow2, PrefixedHex, Strtoul;
    TargetTyped(env, ProcCall, argv, b, a, r);
    WordSizes();
    WordBytes(env.host.endian, v);
    ScalarTyped(ProcCall, argv[4], v, env.host);
    DenotedValue(argv[4], v, env.host.longBits);
    WidthFits(ProcCall, env.host);
    ModUnique(v, 0x1_0000, 0, v);
  }

  /** smbus_block_process_call: the bytes go to the register, and the reply is printed. */
  lemma BlockCallTyped(env: Env, argv: seq<cstring>, b: byte, a: byte, r: byte, prefix: string, bs: seq<byte>)
    requires env.host.Valid() && |argv| == 5 && NamesRegister(argv, b, a, r) && Works(env, b, a)
    requires prefix in {"", "0x", "0X"} && argv[4] == prefix + HexBytes(bs)
    ensures BlockCallOutcome(env, argv)
         == if |bs| <= 32 && (prefix == "" ==> bs != [])
            then Output(0, HexBytes(env.reply(Register(Slave(b, a), r), bs)) + "\n") else Output(-1, "")
  {
    hide Prologue, Denotes, AcceptsBlock, BlockBytes, HexBytes;
    TargetTyped(env, BlockProcCall, argv, b, a, r);
    BlockTyped(argv[4], prefix, bs);
  }
}
