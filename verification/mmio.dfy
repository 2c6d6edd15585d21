/**
 mmio_rw.c: the page window over physical memory, the sized accesses through it, and the command
 that dumps memory as text.  An access outside the mapped pages is a fault.
 */
module Mmio {
  import opened Bits
  import opened ByteOrder
  import opened CText
  import opened DumpLayout
  import opened DumpFormat

  type Memory = nat -> byte

  function Window(mem: Memory, a: nat, n: nat): (bs: seq<byte>)
    ensures |bs| == n
    ensures forall i :: 0 <= i < n ==> bs[i] == mem(a + i)
  {
    seq(n, i requires 0 <= i => mem(a + i))
  }

  function Overlay(mem: Memory, a: nat, bs: seq<byte>): Memory {
    (x: nat) => if a <= x < a + |bs| then bs[x - a] else mem(x)
  }

  /** The length of a mapping counts in whole pages. */
  function Pages(length: nat, pageSize: nat): nat
    requires pageSize > 0
  {
    (length + pageSize - 1) / pageSize * pageSize
  }

  /** /dev/mem: what it holds, whether it may be opened, and where the mappable addresses end.
      getpagesize returns an int, and its value is a power of two.  fwriteReach is what fwrite does
      with a buffer that it cannot read to the end: the process is killed, or some bytes get out and
      fwrite returns 0. */
  class DevMem {
    const host: Host
    const pageBits: nat
    const permitted: bool
    const limit: nat
    const fwriteReach: Option<nat>
    var at: Memory

    ghost predicate Valid()
    {
      host.Valid() && pageBits <= 30 && limit <= Pow2(64)
    }

    constructor (host: Host, pageBits: nat, permitted: bool, limit: nat, fwriteReach: Option<nat>, at: Memory)
      requires host.Valid() && pageBits <= 30 && limit <= Pow2(64)
      ensures Valid()
    {
      this.host, this.pageBits, this.permitted := host, pageBits, permitted;
      this.limit, this.fwriteReach, this.at := limit, fwriteReach, at;
    }

    function PageSize(): (p: nat)
      ensures p > 0
    {
      Pow2(pageBits)
    }

    /** The window that a request for some bytes at an address gets, and whether it gets one. */
    predicate Maps(address: nat, bytes: nat) {
      var length := MapLength(address % PageSize(), bytes);
      permitted && length > 0 && address - address % PageSize() + Pages(length, PageSize()) <= limit
    }
  }

  /** bytes + off, both passing through unsigned int. */
  function MapLength(off: nat, bytes: nat): nat {
    (bytes % 0x1_0000_0000 + off) % 0x1_0000_0000
  }

  /** struct mmap_info; a failed open_mapping leaves nothing that may be accessed. */
  class MmapInfo {
    var addr: nat
    var off: nat
    var length: nat

    constructor (addr: nat)
      ensures this.addr == addr
    {
      this.addr := addr;
    }

    /** The aligned base and the offset split the address; both come from masks. */
    method OpenMapping(dev: DevMem, bytes: nat) returns (rc: int)
      requires dev.Valid() && addr < Pow2(64)
      modifies this
      ensures rc == if dev.Maps(old(addr), bytes) then 0 else -1
      ensures addr + off == old(addr) && addr % dev.PageSize() == 0 && off < dev.PageSize()
      ensures rc == 0 ==> length == MapLength(off, bytes)
    {
      hide Combine, Complement, Pages, Pow2;
      var pgsize := dev.PageSize();
      PageMasks(addr, dev.pageBits);
      off := Combine(And, addr, pgsize - 1);
      addr := Combine(And, addr, Complement(pgsize - 1, 64));
      if !dev.permitted {
        return -1;
      }
      length := (bytes % 0x1_0000_0000 + off) % 0x1_0000_0000;
      rc := if length > 0 && addr + Pages(length, pgsize) <= dev.limit then 0 else -1;
    }

    /** A load through mem + offset. */
    method LoadAt(dev: DevMem, offset: nat, n: nat) returns (value: nat)
      requires offset + n <= Pages(length, dev.PageSize())
      ensures value == Load(dev.host.endian, Window(dev.at, addr + offset, n))
    {
      value := Load(dev.host.endian, Window(dev.at, addr + offset, n));
    }

    /** A store through mem + offset. */
    method StoreAt(dev: DevMem, offset: nat, n: nat, value: nat)
      requires offset + n <= Pages(length, dev.PageSize())
      modifies dev`at
      ensures dev.at == Overlay(old(dev.at), addr + offset, Store(dev.host.endian, value, n))
    {
      dev.at := Overlay(dev.at, addr + offset, Store(dev.host.endian, value, n));
    }

    /** The dump loop; a load outside the mapped pages ends the process. */
    method DumpLoop(dev: DevMem, base: nat, bytesToDump: nat) returns (r: DumpResult)
      requires base < Pow2(64) && base == addr + off
      ensures var text := DumpText(dev.host.endian, Window(dev.at, base, bytesToDump), base);
              r == if off + bytesToDump <= Pages(length, dev.PageSize()) || bytesToDump == 0
                   then Printed(text) else Fault
    {
      hide PrefixedHex, Load, Pow2, Pages, DevMem.PageSize, DumpText, SheetOf, Sheet.Rest, Sheet.Text, Sheet.Valid;
      hide Window, FieldOffset, FieldCount, FieldSize, Counters, PrintInvariant;
      ghost var e, mem := dev.host.endian, dev.at;
      ghost var j := 0;
      var mapped := Pages(length, dev.PageSize());
      var position: nat, bytesLeft: nat, desiredAddr: nat, fieldsOnLine: nat := off, bytesToDump, base, 0;
      var out := "";
      CountersStart(base, off, bytesToDump);
      PrintStart(e, mem, base, bytesToDump);
      while bytesLeft != 0
        invariant Counters(base, off, bytesToDump, j, position, bytesLeft, desiredAddr, fieldsOnLine)
        invariant PrintInvariant(e, mem, base, bytesToDump, j, out)
        invariant bytesLeft < bytesToDump ==> position <= mapped
        decreases bytesLeft
      {
        CountersStep(base, off, bytesToDump, j, position, bytesLeft, desiredAddr, fieldsOnLine);
        ghost var start := out;
        var bytesPrinted := 4;
        if fieldsOnLine == 0 {
          out := out + (PrefixedHex(desiredAddr, 16, false) + ":");
        }
        if bytesLeft < 4 {
          bytesPrinted := 1;
        }
        if position + bytesPrinted > mapped {
          return Fault;
        }
        var value := LoadAt(dev, position, bytesPrinted);
        out := out + (" " + PrefixedHex(value, 2 * bytesPrinted, false));
        if (fieldsOnLine + 1) % 4 == 0 {
          out := out + "\n";
        }
        PrintStep(e, mem, base, off, bytesToDump, j, position, bytesLeft, desiredAddr, fieldsOnLine, start, out);
        position := position + bytesPrinted;
        bytesLeft := bytesLeft - bytesPrinted;
        desiredAddr := (desiredAddr + bytesPrinted) % Pow2(64);
        fieldsOnLine := (fieldsOnLine + 1) % 4;
        j := j + 1;
      }
      PrintEnd(e, mem, base, off, bytesToDump, j, position, desiredAddr, fieldsOnLine, out);
      if fieldsOnLine != 0 {
        out := out + "\n";
      }
      r := Printed(out);
    }
  }

  /** The four counters of the dump loop once j fields are out. */
  ghost predicate Counters(base: nat, off: nat, n: nat, j: nat,
                           position: nat, bytesLeft: nat, desiredAddr: nat, fieldsOnLine: nat)
  {
    && j <= FieldCount(n)
    && position == off + FieldOffset(n, j)
    && bytesLeft == n - FieldOffset(n, j)
    && desiredAddr == (base + FieldOffset(n, j)) % Pow2(64)
    && fieldsOnLine == j % 4
  }

  lemma CountersStart(base: nat, off: nat, n: nat)
    requires base < Pow2(64)
    ensures Counters(base, off, n, 0, off, n, base, 0)
  {
    hide Pow2;
    SmallMod(base, Pow2(64));
  }

  /** While bytes are left there is a field to print, a word exactly when four bytes are left, and
      printing it moves the counters on by its size. */
  lemma CountersStep(base: nat, off: nat, n: nat, j: nat,
                     position: nat, bytesLeft: nat, desiredAddr: nat, fieldsOnLine: nat)
    requires Counters(base, off, n, j, position, bytesLeft, desiredAddr, fieldsOnLine) && bytesLeft > 0
    ensures j < FieldCount(n) && fieldsOnLine == j % 4
    ensures var size := if bytesLeft < 4 then 1 else 4;
            && size == FieldSize(n, j) && size <= bytesLeft && position + bytesLeft == off + n
            && Counters(base, off, n, j + 1, position + size, bytesLeft - size,
                        (desiredAddr + size) % Pow2(64), (fieldsOnLine + 1) % 4)
  {
    hide Pow2, FieldOffset, FieldCount, FieldSize;
    FieldAt(n, j);
    NextOnLine(j);
    NextAddress(base, FieldOffset(n, j), FieldSize(n, j), Pow2(64));
  }

  lemma NextOnLine(j: nat)
    ensures (j % 4 + 1) % 4 == (j + 1) % 4
  {
  }

  /** What is printed and what is left to print make up the whole text. */
  ghost predicate PrintInvariant(e: Endian, mem: Memory, base: nat, n: nat, j: nat, out: string) {
    var sheet := SheetOf(e, Window(mem, base, n), base);
    out + sheet.Rest(j) == sheet.Text()
  }

  lemma PrintStart(e: Endian, mem: Memory, base: nat, n: nat)
    ensures PrintInvariant(e, mem, base, n, 0, "")
  {
    hide SheetOf, Sheet.Rest, Sheet.Text;
    SheetOf(e, Window(mem, base, n), base).RestStart();
  }

  /** One turn of the loop keeps what is printed and what is left together. */
  lemma PrintStep(e: Endian, mem: Memory, base: nat, off: nat, n: nat, j: nat,
                  position: nat, bytesLeft: nat, desiredAddr: nat, fieldsOnLine: nat, before: string, after: string)
    requires Counters(base, off, n, j, position, bytesLeft, desiredAddr, fieldsOnLine) && bytesLeft > 0
    requires PrintInvariant(e, mem, base, n, j, before)
    requires var size := if bytesLeft < 4 then 1 else 4;
             var address := if fieldsOnLine == 0 then PrefixedHex(desiredAddr, 16, false) + ":" else "";
             var field := " " + PrefixedHex(Load(e, Window(mem, base + (position - off), size)), 2 * size, false);
             var line := if fieldsOnLine == 0 then before + address + field else before + field;
             after == if (fieldsOnLine + 1) % 4 == 0 then line + "\n" else line
    ensures PrintInvariant(e, mem, base, n, j + 1, after)
  {
    hide PrefixedHex, Load, Pow2, Window, SheetOf, Sheet.Rest, Sheet.Text, Sheet.Valid, Counters;
    StepTexts(e, mem, base, off, n, j, position, bytesLeft, desiredAddr, fieldsOnLine);
    SheetStep(SheetOf(e, Window(mem, base, n), base), j, before, after);
  }

  /** The texts that the loop prints at its counters are those of the sheet. */
  lemma StepTexts(e: Endian, mem: Memory, base: nat, off: nat, n: nat, j: nat,
                  position: nat, bytesLeft: nat, desiredAddr: nat, fieldsOnLine: nat)
    requires Counters(base, off, n, j, position, bytesLeft, desiredAddr, fieldsOnLine) && bytesLeft > 0
    ensures position >= off && fieldsOnLine == j % 4 && (fieldsOnLine + 1) % 4 == (j + 1) % 4
    ensures var sheet, size := SheetOf(e, Window(mem, base, n), base), if bytesLeft < 4 then 1 else 4;
            && sheet.Valid() && j < |sheet.fields| && j / 4 < |sheet.labels|
            && (j % 4 == 0 ==> sheet.labels[j / 4] == PrefixedHex(desiredAddr, 16, false) + ":")
            && sheet.fields[j]
               == " " + PrefixedHex(Load(e, Window(mem, base + (position - off), size)), 2 * size, false)
  {
    hide PrefixedHex, Load, Pow2, Window, SheetOf, FieldOffset, FieldSize, FieldCount;
    FieldAt(n, j);
    FieldTextAt(e, mem, base, n, j);
    if j % 4 == 0 { LabelAt(e, Window(mem, base, n), base, j); }
    NextOnLine(j);
  }

  lemma SheetStep(sheet: Sheet, j: nat, before: string, after: string)
    requires sheet.Valid() && j < |sheet.fields| && j / 4 < |sheet.labels|
    requires before + sheet.Rest(j) == sheet.Text()
    requires var line := if j % 4 == 0 then before + sheet.labels[j / 4] + sheet.fields[j]
                         else before + sheet.fields[j];
             after == if (j + 1) % 4 == 0 then line + "\n" else line
    ensures after + sheet.Rest(j + 1) == sheet.Text()
  {
    hide Sheet.Rest, Sheet.Text;
    sheet.RestStep(j);
    var address := if j % 4 == 0 then sheet.labels[j / 4] else "";
    assert before + "" + sheet.fields[j] == before + sheet.fields[j];
    Concat4(before, address, sheet.fields[j], if (j + 1) % 4 == 0 then "\n" else "", sheet.Rest(j + 1));
  }

  /** When no byte is left, only the newline of a started line is missing. */
  lemma PrintEnd(e: Endian, mem: Memory, base: nat, off: nat, n: nat, j: nat,
                 position: nat, desiredAddr: nat, fieldsOnLine: nat, out: string)
    requires Counters(base, off, n, j, position, 0, desiredAddr, fieldsOnLine)
    requires PrintInvariant(e, mem, base, n, j, out)
    ensures DumpText(e, Window(mem, base, n), base) == if fieldsOnLine == 0 then out else out + "\n"
    ensures position == off + n
  {
    hide SheetOf, Sheet.Rest, Sheet.Text, Pow2;
    AllFieldsOut(n, j);
    SheetOf(e, Window(mem, base, n), base).RestEnd();
    assert out + "" == out;
  }

  lemma Concat4(a: string, b: string, c: string, d: string, e: string)
    ensures a + (b + (c + (d + e))) == a + b + c + d + e
    ensures d == "" ==> a + b + c + d == a + b + c
  {
  }

  lemma LabelAt(e: Endian, bs: seq<byte>, base: nat, j: nat)
    requires j % 4 == 0 && j < FieldCount(|bs|)
    ensures j / 4 < |SheetOf(e, bs, base).labels|
    ensures SheetOf(e, bs, base).labels[j / 4] == PrefixedHex((base + FieldOffset(|bs|, j)) % Pow2(64), 16, false) + ":"
  {
    hide PrefixedHex, FieldOffset, Pow2, FieldText;
    assert 4 * (j / 4) == j;
  }

  lemma AllFieldsOut(n: nat, j: nat)
    requires j <= FieldCount(n) && FieldOffset(n, j) == n
    ensures j == FieldCount(n) && (j == 0 <==> n == 0)
  {
  }

  /** A field is a word exactly when four bytes are left. */
  lemma FieldAt(n: nat, j: nat)
    requires j <= FieldCount(n) && FieldOffset(n, j) < n
    ensures j < FieldCount(n) && j / 4 < LineCount(FieldCount(n))
    ensures FieldSize(n, j) == if n - FieldOffset(n, j) < 4 then 1 else 4
  {
  }

  lemma FieldTextAt(e: Endian, mem: Memory, base: nat, n: nat, j: nat)
    requires j < FieldCount(n)
    ensures var size := FieldSize(n, j);
            SheetOf(e, Window(mem, base, n), base).fields[j]
            == " " + PrefixedHex(Load(e, Window(mem, base + FieldOffset(n, j), size)), 2 * size, false)
  {
    assert Window(mem, base + FieldOffset(n, j), FieldSize(n, j)) == Field(Window(mem, base, n), j);
  }

  lemma SmallMod(a: nat, m: nat)
    requires a < m
    ensures a % m == a
  {
  }

  lemma NextAddress(base: nat, offset: nat, n: nat, m: nat)
    requires m > 0
    ensures ((base + offset) % m + n) % m == (base + (offset + n)) % m
  {
    SumMod(base + offset, n, m);
  }

  lemma SumMod(a: nat, b: nat, m: nat)
    requires m > 0
    ensures (a % m + b) % m == (a + b) % m
  {
    var q, r := (a % m + b) / m, (a % m + b) % m;
    assert a + b == (a / m + q) * m + r;
    ModUnique(a + b, m, a / m + q, r);
  }

  /** The two masks of an address are its offset in the page and the start of the page. */
  lemma PageMasks(a: nat, k: nat)
    requires a < Pow2(64) && k <= 64
    ensures var p := Pow2(k);
            && p - 1 < Pow2(64)
            && Combine(And, a, p - 1) == a % p
            && Combine(And, a, Complement(p - 1, 64)) == a - a % p
            && a - a % p >= 0 && (a - a % p) % p == 0
  {
    hide Combine, Complement, Pow2;
    Pow2Monotonic(k, 64);
    MaskLow(a, k);
    MaskHigh(a, k, 64);
    RoundDown(a, Pow2(k));
  }

  lemma RoundDown(a: nat, p: nat)
    requires p > 0
    ensures a - a % p >= 0 && (a - a % p) % p == 0
  {
    assert a == a / p * p + a % p;
    ModUnique(a - a % p, p, a / p, 0);
  }

  lemma PagesBound(length: nat, p: nat)
    requires p > 0
    ensures length <= Pages(length, p) < length + p
  {
    var x := length + p - 1;
    assert x == x / p * p + x % p;
  }

  /** The mapped pages cover the requested bytes exactly when offset and count together fit an
      unsigned int; otherwise the length wraps and the window is too short. */
  lemma WindowCoversIff(off: nat, n: nat, p: nat)
    requires 0 < p <= 0x1_0000_0000 && off < p
    ensures off + n <= Pages(MapLength(off, n), p) <==> off + n < 0x1_0000_0000
    ensures off + n <= MapLength(off, n) <==> off + n < 0x1_0000_0000
  {
    var length := MapLength(off, n);
    PagesBound(length, p);
    LengthWraps(off, n);
  }

  /** A request is granted exactly when /dev/mem may be opened, the length is not 0 in unsigned int,
      and the page of the address and as many more as the length takes lie below the limit. */
  lemma MapsIff(dev: DevMem, address: nat, n: nat, pages: nat)
    requires var p := Pow2(dev.pageBits);
             var length := (address % p + n) % 0x1_0000_0000;
             pages * p - p < length <= pages * p
    ensures var p := Pow2(dev.pageBits);
            dev.Maps(address, n) <==>
              && dev.permitted
              && (address % p + n) % 0x1_0000_0000 > 0
              && address - address % p + pages * p <= dev.limit
  {
    hide Pow2;
    var p := dev.PageSize();
    var off := address % p;
    var length := (off + n) % 0x1_0000_0000;
    SumMod(n, off, 0x1_0000_0000);
    assert MapLength(off, n) == length;
    ModUnique(length + p - 1, p, pages, length - 1 - (pages * p - p));
  }

  /** A concrete request whose window is too short: 0xFFFFFFF8 bytes at offset 16 of a page. */
  lemma WindowTooShort()
    ensures MapLength(16, 0xFFFF_FFF8) == 8
    ensures Pages(MapLength(16, 0xFFFF_FFF8), 4096) == 4096
  {
  }

  lemma LengthWraps(off: nat, n: nat)
    ensures if off + n < 0x1_0000_0000 then MapLength(off, n) == off + n
            else MapLength(off, n) + 0x1_0000_0000 <= off + n
  {
  }

  // ----- Sized accesses

  /** sizeof(data_store) bytes are asked for, whatever the access. */
  const DATA_STORE := 8

  method MmioRead(dev: DevMem, argv: seq<cstring>, bits: nat) returns (r: Output)
    requires dev.Valid() && |argv| == 2
    ensures var address := Strtoull(argv[1]);
            var value := Load(dev.host.endian, Window(dev.at, address, bits / 8));
            r == if dev.Maps(address, DATA_STORE) && bits in {8, 16, 32, 64}
                 then Output(0, PrefixedHex(value, bits / 4, false) + "\n")
                 else Output(-1, "")
  {
    hide PrefixedHex, Load, Strtoul, Strtoull, Pages, MapLength, Pow2, DevMem.PageSize, DevMem.Maps, Window, Store;
    var info := new MmapInfo(Strtoull(argv[1]));
    var status := info.OpenMapping(dev, DATA_STORE);
    if status < 0 {
      return Output(-1, "");
    }
    SmallWindow(dev, info.off);
    match bits {
      case 8 | 16 | 32 | 64 =>
        assert info.off + bits / 8 <= info.length;
        var data := info.LoadAt(dev, info.off, bits / 8);
        r := Output(0, PrefixedHex(data, bits / 4, false) + "\n");
      case _ =>
        r := Output(-1, "");
    }
  }

  method MmioWrite(dev: DevMem, argv: seq<cstring>, bits: nat) returns (rc: int)
    requires dev.Valid() && |argv| == 3
    modifies dev`at
    ensures rc == if dev.Maps(Strtoull(argv[1]), DATA_STORE) && bits in {8, 16, 32, 64} then 0 else -1
    ensures dev.at == if rc == 0 then Overlay(old(dev.at), Strtoull(argv[1]), Operand(dev.host, argv[2], bits))
                      else old(dev.at)
  {
    hide PrefixedHex, Load, Strtoul, Strtoull, Pages, MapLength, Pow2, DevMem.PageSize, DevMem.Maps, Window, Store;
    var info := new MmapInfo(Strtoull(argv[1]));
    var ldata := Strtoul(argv[2], 0, dev.host.longBits);
    var status := info.OpenMapping(dev, DATA_STORE);
    if status < 0 {
      return -1;
    }
    SmallWindow(dev, info.off);
    match bits {
      case 8 | 16 | 32 | 64 =>
        assert info.off + bits / 8 <= info.length;
        info.StoreAt(dev, info.off, bits / 8, ldata % Pow2(bits));
        rc := 0;
      case _ =>
        rc := -1;
    }
  }

  function Operand(host: Host, arg: string, bits: nat): seq<byte> {
    Store(host.endian, Strtoul(arg, 0, host.longBits) % Pow2(bits), bits / 8)
  }

  lemma SmallWindow(dev: DevMem, off: nat)
    requires dev.Valid() && off < dev.PageSize()
    ensures MapLength(off, DATA_STORE) == off + DATA_STORE
    ensures off + DATA_STORE <= Pages(MapLength(off, DATA_STORE), dev.PageSize())
  {
    Pow2Monotonic(dev.pageBits, 30);
    assert Pow2(32) == 4 * Pow2(30);
    WordSizes();
    PagesBound(MapLength(off, DATA_STORE), dev.PageSize());
  }

  /** A read of the same width returns what was written, cut to the width; a read elsewhere is not
      disturbed. */
  lemma ReadAfterWrite(mem: Memory, host: Host, a: nat, arg: string, bits: nat, b: nat, n: nat)
    requires bits in {8, 16, 32, 64}
    ensures var mem' := Overlay(mem, a, Operand(host, arg, bits));
            && Load(host.endian, Window(mem', a, bits / 8)) == Strtoul(arg, 0, host.longBits) % Pow2(bits)
            && (b + n <= a || a + bits / 8 <= b ==> Window(mem', b, n) == Window(mem, b, n))
  {
    hide Strtoul, Load, Store, Pow2;
    var bs := Operand(host, arg, bits);
    var mem' := Overlay(mem, a, bs);
    assert Window(mem', a, bits / 8) == bs;
    var v := Strtoul(arg, 0, host.longBits) % Pow2(bits);
    LoadStore(host.endian, v, bits / 8);
    ModUnique(v, Pow2(bits), 0, v);
    if b + n <= a || a + bits / 8 <= b {
      assert Window(mem', b, n) == Window(mem, b, n);
    }
  }

  // ----- The dump command

  datatype DumpResult = Failed | Printed(text: string) | Wrote(rc: int, bytes: seq<byte>) | Fault

  /** How many bytes get out of a window that ends before the buffer does. */
  function CutShort(reach: nat, off: nat, mapped: nat): nat {
    if off >= mapped then 0 else if reach < mapped - off then reach else mapped - off
  }

  /** What dumping n bytes from an address does. */
  ghost function DumpOf(dev: DevMem, address: nat, n: nat, binary: bool): DumpResult
    reads dev
  {
    var off := address % dev.PageSize();
    if !dev.Maps(address, n) then Failed
    else if off + n >= 0x1_0000_0000 then
      if binary && dev.fwriteReach.Some? then
        var mapped := Pages(MapLength(off, n), dev.PageSize());
        Wrote(-1, Window(dev.at, address, CutShort(dev.fwriteReach.value, off, mapped)))
      else Fault
    else if binary then Wrote(if n == 0 then -1 else 0, Window(dev.at, address, n))
    else Printed(DumpText(dev.host.endian, Window(dev.at, address, n), address))
  }

  method MmioDump(dev: DevMem, argv: seq<cstring>) returns (r: DumpResult)
    requires dev.Valid() && 3 <= |argv| <= 4
    ensures var address, n := Strtoull(argv[1]), Strtoul(argv[2], 0, dev.host.longBits);
            r == if |argv| == 4 && argv[3] != "-b" then Failed else DumpOf(dev, address, n, |argv| == 4)
    ensures var address, n := Strtoull(argv[1]), Strtoul(argv[2], 0, dev.host.longBits);
            var off, bytes := address % Pow2(dev.pageBits), Window(dev.at, address, n);
            && (r.Failed? <==> (|argv| == 4 && argv[3] != "-b") || !dev.Maps(address, n))
            && (r.Fault? <==> !r.Failed? && off + n >= 0x1_0000_0000 && (|argv| == 3 || dev.fwriteReach.None?))
            && (r.Printed? ==> |argv| == 3 && Decode(dev.host.endian, r.text) == Some(bytes)
                               && LinesTellAddresses(r.text, address, n))
            && (r.Wrote? ==> |argv| == 4 && r.rc == (if n > 0 && off + n < 0x1_0000_0000 then 0 else -1))
            && (r.Wrote? && r.rc == 0 ==> r.bytes == bytes)
            && (r.Wrote? && r.rc != 0 ==> r.bytes <= bytes)
  {
    hide DumpText, Strtoul, Strtoull, Pages, MapLength, Pow2, DevMem.Maps, Decode, Lines, Scan;
    var desiredAddr := Strtoull(argv[1]);
    var bytesToDump := Strtoul(argv[2], 0, dev.host.longBits);
    DecodeDump(dev.host.endian, Window(dev.at, desiredAddr, bytesToDump), desiredAddr);
    LineAddresses(dev.host.endian, Window(dev.at, desiredAddr, bytesToDump), desiredAddr);
    var writeBinary := false;
    if |argv| == 4 {
      if argv[3] == "-b" {
        writeBinary := true;
      } else {
        return Failed;
      }
    }
    var info := new MmapInfo(desiredAddr);
    var status := info.OpenMapping(dev, bytesToDump);
    if status < 0 {
      return Failed;
    }
    OffsetOf(info.addr, info.off, dev.PageSize());
    PageFits(dev);
    WindowCoversIff(info.off, bytesToDump, dev.PageSize());
    if writeBinary {
      var mapped := Pages(info.length, dev.PageSize());
      if info.off + bytesToDump > mapped {
        if dev.fwriteReach.None? {
          return Fault;
        }
        var out := CutShort(dev.fwriteReach.value, info.off, mapped);
        return Wrote(-1, Window(dev.at, info.addr + info.off, out));
      }
      return Wrote(if bytesToDump == 0 then -1 else 0, Window(dev.at, info.addr + info.off, bytesToDump));
    }
    r := info.DumpLoop(dev, desiredAddr, bytesToDump);
  }

  lemma OffsetOf(base: nat, off: nat, p: nat)
    requires p > 0 && base % p == 0 && off < p
    ensures (base + off) % p == off
  {
    assert base == base / p * p;
    ModUnique(base + off, p, base / p, off);
  }

  lemma PageFits(dev: DevMem)
    requires dev.Valid()
    ensures dev.PageSize() <= 0x1_0000_0000
  {
    Pow2Monotonic(dev.pageBits, 32);
    WordSizes();
  }

  /** The short window of WindowTooShort at work: where the first page can be mapped, the command
      gets its mapping and then faults. */
  lemma ShortWindowFaults(dev: DevMem)
    requires dev.Valid() && dev.pageBits == 12 && dev.permitted && dev.limit >= 4096
    ensures dev.Maps(16, 0xFFFF_FFF8) && DumpOf(dev, 16, 0xFFFF_FFF8, false) == Fault
  {
    assert dev.PageSize() == 4096 by { assert Pow2(12) == 4096; }
    hide Pages, MapLength, Window, DumpText, DevMem.PageSize;
    WindowTooShort();
    assert 16 % dev.PageSize() == 16;
    assert dev.Maps(16, 0xFFFF_FFF8);
  }

  /** The text dump of any window that can be dumped reads back to the bytes that the binary dump of
      the same window writes; that one succeeds exactly when there is a text and it is not empty. */
  lemma TextDumpDecodesToBinaryDump(dev: DevMem, address: nat, n: nat)
    ensures var text, binary := DumpOf(dev, address, n, false), DumpOf(dev, address, n, true);
            && (text.Printed? ==> binary.Wrote? && Decode(dev.host.endian, text.text) == Some(binary.bytes))
            && (binary.Wrote? && binary.rc == 0 <==> text.Printed? && n > 0)
  {
    hide Window, Decode, DumpText, DevMem.Maps;
    DecodeDump(dev.host.endian, Window(dev.at, address, n), address);
  }
}
