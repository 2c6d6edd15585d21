/**
 The text codec of smbus_rw.c: how an operand on the command line becomes the bytes of
 params->data, and how those bytes are printed again.
 */
module SmbusCodec {
  import opened Bits
  import opened ByteOrder
  import opened CText
  import opened I2cDev

  datatype Size = Size8 | Size16 | Size32 | Size64 | SizeBlock | SizeByte | Quick | ProcCall | BlockProcCall | WriteRead
  {
    predicate IsBlock() { SizeBlock? || BlockProcCall? || WriteRead? }

    /** The bytes of the field of the data_store union that a scalar operand is kept in. */
    function Width(): (n: nat)
      ensures n == 1 || n == 2 || n == 4 || n == 8
    {
      match this
      case Size16 => 2
      case ProcCall => 2
      case Size32 => 4
      case Size64 => 8
      case _ => 1
    }
  }

  const ARRAY_SIZE := BLOCK_MAX + 2

  function LongMax(host: Host): nat
    requires host.Valid()
  {
    Pow2(host.longBits - 1) - 1
  }

  /** The members of the data_store union and the block it holds. */
  lemma FieldWidths(size: Size)
    ensures size.Size64? ==> size.Width() == 8
    ensures size.Size32? ==> size.Width() == 4
    ensures size.Size16? || size.ProcCall? ==> size.Width() == 2
    ensures size.Size8? || size.SizeByte? || size.Quick? ==> size.Width() == 1
    ensures size.IsBlock() <==> size.SizeBlock? || size.BlockProcCall? || size.WriteRead?
    ensures BLOCK_MAX == 32 && ARRAY_SIZE == 34
  {
  }

  lemma LongMaxIs(e: Endian)
    ensures LongMax(Host(e, 32)) == 0x7fff_ffff && LongMax(Host(e, 64)) == 0x7fff_ffff_ffff_ffff
  {
    hide Pow2;
    WordSizes();
  }

  /** parse_uint8_base: the number must end the string and fit a byte. */
  function ParseUint8(arg: string, base: nat, host: Host): Option<byte>
    requires host.Valid()
  {
    var n := Scan(arg, base);
    var value := UnsignedOf(n, host.longBits);
    if value == LongMax(host) then None
    else if n.end != |arg| then None
    else if value > 0xff then None
    else Some(value)
  }

  // ----- Scalar operands

  function ScalarBits(size: Size, host: Host): nat {
    if size.Size64? then 64 else host.longBits
  }

  /** Which scalar operands parse_io_width lets through. */
  predicate AcceptsScalar(size: Size, arg: string, host: Host)
    requires host.Valid() && !size.IsBlock()
  {
    var v := Strtoul(arg, 0, ScalarBits(size, host));
    && Scan(arg, 0).end == |arg|
    && (size.Size32? || size.Size64? || v != LongMax(host))
    && (size.Quick? ==> v < 2)
  }

  /** The language of scalar operands: the empty text or a number, that is not LONG_MAX for the
      narrow commands, and is 0 or 1 for the quick one. */
  lemma ScalarLanguage(size: Size, arg: string, host: Host)
    requires host.Valid() && !size.IsBlock()
    ensures var v := Strtoul(arg, 0, ScalarBits(size, host));
            AcceptsScalar(size, arg, host) <==>
              && (arg == ""
                  || exists blanks, sign, mark, digits, base :: IsNumeral(arg, blanks, sign, mark, digits, base))
              && (size.Size32? || size.Size64? || v != LongMax(host))
              && (size.Quick? ==> v < 2)
  {
    hide IsNumeral, Pow2;
    if arg == "" {
      assert Scan(arg, 0).end == 0;
    } else {
      hide Scan;
      ScansWholeIff(arg);
    }
  }

  /** The word kept for a scalar operand. */
  function ScalarValue(size: Size, arg: string, host: Host): (v: nat)
    ensures v < Pow2(8 * size.Width())
  {
    Strtoul(arg, 0, ScalarBits(size, host)) % Pow2(8 * size.Width())
  }

  /** The number as the user wrote it. */
  function Typed(arg: string): int {
    var n := Scan(arg, 0);
    if n.negative then -(n.magnitude as int) else n.magnitude
  }

  /** An operand reaches the device as typed exactly when it lies in the range of its field;
      anything else, overflow of unsigned long included, is changed silently. */
  lemma ScalarKeptIff(size: Size, arg: string, host: Host)
    requires host.Valid()
    ensures ScalarValue(size, arg, host) == Typed(arg) <==> 0 <= Typed(arg) < Pow2(8 * size.Width())
  {
    hide Scan, Pow2;
    var n := Scan(arg, 0);
    var bits := ScalarBits(size, host);
    WidthFits(size, host);
    if 0 <= Typed(arg) < Pow2(8 * size.Width()) {
      assert Strtoul(arg, 0, bits) == n.magnitude;
      ModUnique(n.magnitude, Pow2(8 * size.Width()), 0, n.magnitude);
    }
  }

  lemma WidthFits(size: Size, host: Host)
    requires host.Valid()
    ensures Pow2(8 * size.Width()) <= Pow2(ScalarBits(size, host))
  {
    Pow2Monotonic(8 * size.Width(), ScalarBits(size, host));
  }

  /** The check against LONG_MAX misses overflow: strtoul then returns ULONG_MAX, so a number too
      large for unsigned long is accepted by every scalar command but the quick one, and stored as
      all ones. */
  lemma OverflowStoresAllOnes(size: Size, arg: string, host: Host)
    requires host.Valid() && !size.IsBlock()
    requires Scan(arg, 0).end == |arg| && Scan(arg, 0).magnitude >= Pow2(ScalarBits(size, host))
    ensures AcceptsScalar(size, arg, host) <==> !size.Quick?
    ensures ScalarValue(size, arg, host) == Pow2(8 * size.Width()) - 1
  {
    hide Scan, Pow2;
    var bits, w := ScalarBits(size, host), 8 * size.Width();
    WordSizes();
    AllOnesCut(w, bits);
  }

  /** A concrete overflowing operand for hosts with a 64-bit unsigned long. */
  lemma OverflowExample()
    ensures var arg := PrefixedHex(0x1_0000_0000_0000_0000, 1, false);
            var host := Host(Little, 64);
            AcceptsScalar(Size8, arg, host) && Typed(arg) == 0x1_0000_0000_0000_0000
            && ScalarValue(Size8, arg, host) == 0xff
  {
    var v, host := 0x1_0000_0000_0000_0000, Host(Little, 64);
    var arg := PrefixedHex(v, 1, false);
    WordSizes();
    ScanPrefixedHex(v, 1, false, []);
    assert arg + [] == arg;
    OverflowStoresAllOnes(Size8, arg, host);
  }

  // ----- Block operands

  function StripPrefix(arg: string): (body: string)
    ensures |arg| % 2 == 0 ==> |body| % 2 == 0
  {
    if IsPrefixX(arg, 0) then arg[2..] else arg
  }

  /** The two-character texts that stand for a byte: two hex digits, a blank or plus sign and a hex
      digit, or minus zero. */
  predicate PairOk(c0: char, c1: char) {
    || (IsHex(c0) && IsHex(c1))
    || ((IsSpace(c0) || c0 == '+') && IsHex(c1))
    || (c0 == '-' && c1 == '0')
  }

  function PairByte(c0: char, c1: char): byte
    requires PairOk(c0, c1)
  {
    if IsHex(c0) then 16 * DigitValue(c0) + DigitValue(c1) else DigitValue(c1)
  }

  /** Pair i of a text is made of its characters 2i and 2i + 1. */
  predicate PairOkAt(body: string, i: nat)
    requires 2 * i + 1 < |body|
  {
    PairOk(body[2 * i], body[2 * i + 1])
  }

  function PairByteAt(body: string, i: nat): byte
    requires 2 * i + 1 < |body| && PairOkAt(body, i)
  {
    PairByte(body[2 * i], body[2 * i + 1])
  }

  predicate PairsOk(body: string)
    requires |body| % 2 == 0
  {
    forall i :: 0 <= i < |body| / 2 ==> PairOkAt(body, i)
  }

  predicate AcceptsBlock(arg: string) {
    && arg != [] && |arg| % 2 == 0
    && |StripPrefix(arg)| / 2 <= BLOCK_MAX
    && PairsOk(StripPrefix(arg))
  }

  function PairBytes(body: string): (bs: seq<byte>)
    requires |body| % 2 == 0 && PairsOk(body)
    ensures |bs| == |body| / 2
  {
    seq(|body| / 2, i requires 0 <= i < |body| / 2 => PairByteAt(body, i))
  }

  function BlockBytes(arg: string): seq<byte>
    requires AcceptsBlock(arg)
  {
    PairBytes(StripPrefix(arg))
  }

  /** What strtoul with base 16 fully consumes in two characters and keeps below 0x100. */
  lemma PairLanguage(c0: char, c1: char, host: Host)
    requires host.Valid()
    ensures ParseUint8([c0, c1], 16, host) == if PairOk(c0, c1) then Some(PairByte(c0, c1)) else None
  {
    hide Scan, Pow2;
    PairScan(c0, c1);
    WordSizes();
    assert host.longBits == 32 || host.longBits == 64;
  }

  lemma PairScan(c0: char, c1: char)
    ensures var n := Scan([c0, c1], 16);
            if IsHex(c0) && IsHex(c1) then n == Number(false, 16 * DigitValue(c0) + DigitValue(c1), 2)
            else if (IsSpace(c0) || c0 == '+' || c0 == '-') && IsHex(c1) then n == Number(c0 == '-', DigitValue(c1), 2)
            else n.end != 2
  {
    var s := [c0, c1];
    if IsHex(c0) && IsHex(c1) {
      assert SkipSpaces(s, 0) == 0 && DigitEnd(s, 0, 16) == 2;
      assert s[0..2] == s;
      PairValue(c0, c1);
    } else if (IsSpace(c0) || c0 == '+' || c0 == '-') && IsHex(c1) {
      assert IsDigit(s[1], 16);
      assert SkipSpaces(s, 0) <= 1 && DigitEnd(s, 1, 16) == 2;
      assert s[1..2] == [c1];
      DigitText(c1);
    } else {
      assert Scan(s, 16).end != 2;
    }
  }

  lemma DigitText(c: char)
    ensures Value([c], 16) == DigitValue(c)
  {
    assert [c][..0] == [];
  }

  lemma PairValue(c0: char, c1: char)
    ensures Value([c0, c1], 16) == 16 * DigitValue(c0) + DigitValue(c1)
  {
    assert [c0, c1][..1] == [c0];
    DigitText(c0);
  }

  // ----- The whole operand

  predicate Accepts(size: Size, arg: string, host: Host)
    requires host.Valid()
  {
    if size.IsBlock() then AcceptsBlock(arg) else AcceptsScalar(size, arg, host)
  }

  /** The bytes of an accepted operand, as they lie in memory. */
  function OperandBytes(size: Size, arg: string, host: Host): (bs: seq<byte>)
    requires host.Valid() && Accepts(size, arg, host)
    ensures |bs| <= BLOCK_MAX
    ensures !size.IsBlock() ==> |bs| == size.Width()
  {
    if size.IsBlock() then BlockBytes(arg)
    else Store(host.endian, ScalarValue(size, arg, host), size.Width())
  }

  /** params->data.array holding bs at its start and zeros behind. */
  function Image(bs: seq<byte>): (image: seq<byte>)
    requires |bs| <= ARRAY_SIZE
    ensures |image| == ARRAY_SIZE
  {
    bs + seq(ARRAY_SIZE - |bs|, _ => 0)
  }

  function HexBytes(bs: seq<byte>): string {
    if bs == [] then [] else PadHex(bs[0], 2, true) + HexBytes(bs[1..])
  }

  function ClampCount(count: int): (n: nat)
    ensures n <= BLOCK_MAX
  {
    if count < 0 then 0 else if count > BLOCK_MAX then BLOCK_MAX else count
  }

  /** What print_read_data prints for a buffer. */
  function Rendering(size: Size, count: int, data: seq<byte>, host: Host): string
    requires |data| == ARRAY_SIZE
  {
    match size
    case SizeBlock => HexBytes(data[..ClampCount(count)]) + "\n"
    case Quick | ProcCall | BlockProcCall | WriteRead => ""
    case _ => PrefixedHex(Load(host.endian, data[..size.Width()]), 2 * size.Width(), true) + "\n"
  }

  /** struct smbus_op_params, with the union params->data as its bytes. */
  class Params {
    var reg: byte
    var i2cBus: byte
    var address: byte
    var len: int
    const data: array<byte>

    ghost predicate Valid() {
      data.Length == ARRAY_SIZE
    }

    constructor ()
      ensures Valid() && fresh(data)
    {
      data := new byte[ARRAY_SIZE];
    }

    /** memset(&params->data, 0, sizeof(params->data)) */
    method ClearData()
      requires Valid()
      modifies data
      ensures data[..] == Image([])
    {
      forall i | 0 <= i < data.Length { data[i] := 0; }
    }

    /** An assignment to params->data.fixed.u8, u16, u32 or u64. */
    method StoreFixed(value: nat, width: nat, host: Host)
      requires Valid() && width <= ARRAY_SIZE
      modifies data
      ensures data[..] == Store(host.endian, value, width) + old(data[..])[width..]
    {
      var bytes := Store(host.endian, value, width);
      forall i | 0 <= i < width { data[i] := bytes[i]; }
    }

    method ParseIoWidth(arg: cstring, size: Size, host: Host) returns (rc: int)
      requires Valid() && host.Valid()
      modifies this`len, data
      ensures rc == if Accepts(size, arg, host) then 0 else -1
      ensures rc == 0 ==> data[..] == Image(OperandBytes(size, arg, host))
      ensures rc == 0 && size.IsBlock() ==> len == |OperandBytes(size, arg, host)|
      ensures rc != 0 || !size.IsBlock() ==> len == old(len)
      ensures forall i :: BLOCK_MAX <= i < ARRAY_SIZE ==> data[i] == 0
    {
      hide Scan, UnsignedOf, Store, AcceptsBlock, BlockBytes, Pow2;
      ClearData();
      if size.IsBlock() {
        rc := ParseBlock(arg, host);
        return;
      }
      var n := Scan(arg, 0);
      var ldata := UnsignedOf(n, ScalarBits(size, host));
      var checkMax := !size.Size32? && !size.Size64?;
      if checkMax && ldata == LongMax(host) {
        return -1;
      }
      if n.end != |arg| {
        return -1;
      }
      if size.Quick? && ldata != 0 && ldata != 1 {
        return -1;
      }
      StoreFixed(ldata, size.Width(), host);
      StoreCut(host.endian, ldata, size.Width());
      ImageOver(Store(host.endian, ldata, size.Width()));
      rc := 0;
    }

    method ParseBlock(arg: cstring, host: Host) returns (rc: int)
      requires Valid() && host.Valid()
      requires data[..] == Image([])
      modifies this`len, data
      ensures rc == if AcceptsBlock(arg) then 0 else -1
      ensures rc == 0 ==> data[..] == Image(BlockBytes(arg)) && len == |BlockBytes(arg)|
      ensures rc != 0 ==> len == old(len)
      ensures forall i :: BLOCK_MAX <= i < ARRAY_SIZE ==> data[i] == 0
    {
      hide ParseUint8, PairOk, PairByte, Host.Valid;
      var n := |arg|;
      if n <= 0 || n % 2 != 0 {
        return -1;
      }
      var src := 0;
      if At(arg, 0) == '0' && (At(arg, 1) == 'x' || At(arg, 1) == 'X') {
        src := 2;
        n := n - 2;
      }
      ghost var body := StripPrefix(arg);
      assert body == arg[src..] && |body| == n;
      if n / 2 > BLOCK_MAX {
        return -1;
      }
      var dest := 0;
      while At(arg, src) != '\0'
        invariant len == old(len)
        invariant 0 <= 2 * dest <= n && src == |arg| - n + 2 * dest
        invariant forall i :: 0 <= i < dest ==> PairOkAt(body, i) && data[i] == PairByteAt(body, i)
        invariant forall i :: dest <= i < ARRAY_SIZE ==> data[i] == 0
        decreases |arg| - src
      {
        assert body[2 * dest] == At(arg, src) && body[2 * dest + 1] == At(arg, src + 1);
        PairLanguage(At(arg, src), At(arg, src + 1), host);
        var parsed := ParseUint8([At(arg, src), At(arg, src + 1)], 16, host);
        if parsed.None? {
          assert !PairOkAt(body, dest);
          return -1;
        }
        assert PairOkAt(body, dest) && parsed.value == PairByteAt(body, dest);
        assert dest < BLOCK_MAX;
        data[dest] := parsed.value;
        src, dest := src + 2, dest + 1;
      }
      len := n / 2;
      rc := 0;
    }
  }

  lemma StoreCut(e: Endian, v: nat, n: nat)
    ensures Store(e, v % Pow2(8 * n), n) == Store(e, v, n)
  {
    ToLECut(v, n);
  }

  lemma ImageOver(bs: seq<byte>)
    requires |bs| <= ARRAY_SIZE
    ensures bs + Image([])[|bs|..] == Image(bs)
  {
  }

  method PrintReadData(size: Size, readBlockSize: int, data: array<byte>, host: Host) returns (out: string)
    requires data.Length == ARRAY_SIZE
    ensures out == Rendering(size, readBlockSize, data[..], host)
  {
    match size {
      case SizeBlock =>
        var count := readBlockSize;
        if count > BLOCK_MAX {
          count := BLOCK_MAX;
        }
        out := "";
        var i := 0;
        while i < count
          invariant 0 <= i <= ClampCount(count)
          invariant out == HexBytes(data[..i])
        {
          HexBytesSnoc(data[..i], data[i]);
          assert data[..i] + [data[i]] == data[..i + 1];
          out := out + PadHex(data[i], 2, true);
          i := i + 1;
        }
        out := out + "\n";
      case Quick | ProcCall | BlockProcCall | WriteRead =>
        out := "";
      case _ =>
        out := PrefixedHex(Load(host.endian, data[..size.Width()]), 2 * size.Width(), true) + "\n";
    }
  }

  lemma {:induction false} HexBytesSnoc(bs: seq<byte>, b: byte)
    ensures HexBytes(bs + [b]) == HexBytes(bs) + PadHex(b, 2, true)
  {
    hide PadHex;
    if bs == [] {
      assert [b][1..] == [] && HexBytes([]) == "";
      assert [] + [b] == [b];
    } else {
      HexBytesSnoc(bs[1..], b);
      assert (bs + [b])[1..] == bs[1..] + [b];
    }
  }

  // ----- Parsing and printing undo each other

  /** Pair i of a text is the two-digit print of b. */
  predicate PairSpells(s: string, i: nat, b: byte) {
    2 * i + 1 < |s| && s[2 * i] == HexChar(b / 16, true) && s[2 * i + 1] == HexChar(b % 16, true)
  }

  lemma {:induction false} HexBytesShape(bs: seq<byte>)
    ensures |HexBytes(bs)| == 2 * |bs|
    ensures forall i :: 0 <= i < |bs| ==> PairSpells(HexBytes(bs), i, bs[i])
  {
    if bs != [] {
      hide PadHex, HexChar;
      var s, rest := HexBytes(bs), HexBytes(bs[1..]);
      HexBytesShape(bs[1..]);
      PadByte(bs[0]);
      forall i | 0 <= i < |bs| ensures PairSpells(s, i, bs[i]) {
        if i > 0 {
          PairShift(PadHex(bs[0], 2, true), rest, i - 1, bs[1..][i - 1]);
        }
      }
    }
  }

  lemma PairShift(first: string, rest: string, i: nat, b: byte)
    requires |first| == 2 && PairSpells(rest, i, b)
    ensures PairSpells(first + rest, i + 1, b)
  {
  }

  lemma PadByte(b: byte)
    ensures PadHex(b, 2, true) == [HexChar(b / 16, true), HexChar(b % 16, true)]
  {
    if b < 16 {
      assert PadHex(b, 2, true) == Zeros(1) + [HexChar(b, true)];
    } else {
      assert Hex(b / 16, true) == [HexChar(b / 16, true)];
    }
  }

  lemma PairParses(s: string, i: nat, b: byte)
    requires PairSpells(s, i, b)
    ensures PairOkAt(s, i) && PairByteAt(s, i) == b
  {
  }

  /** The printed text of a block is accepted exactly when there are 1 to 32 bytes; it never looks
      like a prefix, and parsing it gives the bytes back. */
  lemma ParsePrintedBlock(bs: seq<byte>)
    ensures AcceptsBlock(HexBytes(bs)) <==> 1 <= |bs| <= 32
    ensures 1 <= |bs| <= 32 ==> BlockBytes(HexBytes(bs)) == bs
  {
    hide HexBytes, StripPrefix, BlockBytes, PairsOk, PairBytes, PairSpells;
    HexBytesShape(bs);
    if bs != [] {
      ParsePairs(HexBytes(bs), bs);
      NoPrefix(HexBytes(bs), bs[0]);
      ParseStripped(HexBytes(bs), bs);
    }
  }

  /** With a prefix in front even no bytes are accepted. */
  lemma ParsePrefixedBlock(prefix: string, bs: seq<byte>)
    requires prefix == "0x" || prefix == "0X"
    ensures AcceptsBlock(prefix + HexBytes(bs)) <==> |bs| <= 32
    ensures |bs| <= 32 ==> BlockBytes(prefix + HexBytes(bs)) == bs
  {
    hide HexBytes, PairsOk, PairBytes, PairSpells, StripPrefix, AcceptsBlock, BlockBytes;
    HexBytesShape(bs);
    ParsePairs(HexBytes(bs), bs);
    StripsPrefix(prefix, HexBytes(bs));
    ParseStripped(prefix + HexBytes(bs), bs);
  }

  lemma ParseStripped(arg: string, bs: seq<byte>)
    requires |arg| > 0 && |arg| % 2 == 0 && |StripPrefix(arg)| == 2 * |bs|
    requires PairsOk(StripPrefix(arg)) && PairBytes(StripPrefix(arg)) == bs
    ensures AcceptsBlock(arg) <==> |bs| <= 32
    ensures |bs| <= 32 ==> BlockBytes(arg) == bs
  {
    hide PairsOk, PairBytes, StripPrefix;
  }

  lemma StripsPrefix(prefix: string, s: string)
    requires prefix == "0x" || prefix == "0X"
    ensures StripPrefix(prefix + s) == s
  {
    assert (prefix + s)[2..] == s;
  }

  lemma ParsePairs(s: string, bs: seq<byte>)
    requires |s| == 2 * |bs| && forall i :: 0 <= i < |bs| ==> PairSpells(s, i, bs[i])
    ensures PairsOk(s) && PairBytes(s) == bs
  {
    forall i | 0 <= i < |bs| ensures PairOkAt(s, i) && PairByteAt(s, i) == bs[i] {
      PairParses(s, i, bs[i]);
    }
  }

  lemma NoPrefix(s: string, b: byte)
    requires PairSpells(s, 0, b)
    ensures StripPrefix(s) == s
  {
  }

  function Upper(c: char): char {
    if 'a' <= c <= 'z' then (c as int - 'a' as int + 'A' as int) as char else c
  }

  predicate IsUpperOf(printed: string, body: string) {
    |printed| == |body| && forall i :: 0 <= i < |body| ==> printed[i] == Upper(body[i])
  }

  /** Printing an accepted block gives its text without the prefix, in capitals, exactly when that
      text is made of hex digits alone. */
  lemma PrintParsedBlockIff(arg: string)
    requires AcceptsBlock(arg)
    ensures IsUpperOf(HexBytes(BlockBytes(arg)), StripPrefix(arg)) <==> AllDigits(StripPrefix(arg), 16)
  {
    hide HexBytes, StripPrefix, HexChar, Upper, PairOk;
    var body, bs := StripPrefix(arg), BlockBytes(arg);
    var printed := HexBytes(bs);
    HexBytesShape(bs);
    forall i | 0 <= i < |body|
      ensures IsHex(printed[i]) && (AllDigits(body, 16) ==> printed[i] == Upper(body[i]))
    {
      var k := i / 2;
      assert i == 2 * k || i == 2 * k + 1;
      assert PairOkAt(body, k) && bs[k] == PairByteAt(body, k);
      assert PairSpells(printed, k, bs[k]);
      HexCharIsHex(bs[k]);
      if AllDigits(body, 16) { PairUpper(body, printed, k); }
    }
    if IsUpperOf(printed, body) {
      forall i | 0 <= i < |body| ensures IsHex(body[i]) { UpperIsHex(body[i]); }
    }
  }

  lemma HexCharIsHex(b: byte)
    ensures IsHex(HexChar(b / 16, true)) && IsHex(HexChar(b % 16, true))
  {
  }

  lemma UpperIsHex(c: char)
    requires IsHex(Upper(c))
    ensures IsHex(c)
  {
  }

  /** The prefix is taken off once only: standing alone it is a block of no bytes, and a second one
      makes the block unacceptable wherever it stands. */
  lemma PrefixOnlyOnce(prefix: string, body: string, i: nat)
    requires prefix == "0x" || prefix == "0X"
    requires |body| % 2 == 0 && i < |body| / 2
    requires body[2 * i] == '0' && (body[2 * i + 1] == 'x' || body[2 * i + 1] == 'X')
    ensures AcceptsBlock(prefix) && BlockBytes(prefix) == []
    ensures !PairsOk(body) && !AcceptsBlock(prefix + body)
  {
    assert !PairOkAt(body, i);
    assert StripPrefix(prefix + body) == body;
    assert StripPrefix(prefix) == "";
  }

  lemma PairUpper(body: string, printed: string, k: nat)
    requires 2 * k + 1 < |body| && AllDigits(body, 16)
    requires PairOkAt(body, k) && PairSpells(printed, k, PairByteAt(body, k))
    ensures printed[2 * k] == Upper(body[2 * k]) && printed[2 * k + 1] == Upper(body[2 * k + 1])
  {
    var d0, d1 := DigitValue(body[2 * k]), DigitValue(body[2 * k + 1]);
    assert (16 * d0 + d1) / 16 == d0 && (16 * d0 + d1) % 16 == d1;
  }
}
