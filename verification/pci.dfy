/**
 pci_rw.c: register access to PCI configuration space with the conversions of platform.h, and the
 device names that are printed to open a device and scanned to list the devices.
 */
module Pci {
  import opened Bits
  import opened ByteOrder
  import opened CText

  // ----- Names

  /** A device; every number is an unsigned int. */
  datatype Device = Device(segment: nat, bus: nat, device: nat, func: nat) {
    predicate IsUInt() {
      segment < Pow2(32) && bus < Pow2(32) && device < Pow2(32) && func < Pow2(32)
    }

    /** %04x:%02x:%02x.%x */
    function Name(): string {
      PadHex(segment, 4, false) + (":" + (PadHex(bus, 2, false) + (":" + (PadHex(device, 2, false)
        + ("." + PadHex(func, 0, false))))))
    }
  }

  const SYSFS_BASE_DIR := "/sys/bus/pci/devices"
  const PROCFS_BASE_DIR := "/proc/bus/pci"

  function SysfsPath(d: Device): string {
    SYSFS_BASE_DIR + "/" + d.Name() + "/config"
  }

  function ProcfsPath(d: Device): string {
    var tail := PadHex(d.bus, 2, false) + "/" + PadHex(d.device, 2, false) + "." + PadHex(d.func, 0, false);
    PROCFS_BASE_DIR + "/" + (if d.segment == 0 then tail else PadHex(d.segment, 4, false) + ":" + tail)
  }

  /** What a hexadecimal conversion of sscanf finds, and where it stops. */
  datatype Field = Field(value: nat, next: nat)

  /** %x with a field width, or without one; a width counts the characters after the blanks. */
  function ScanHex(s: string, i: nat, width: Option<nat>, longBits: nat): (f: Option<Field>)
    requires i <= |s|
    ensures f.Some? ==> f.value.next <= |s|
  {
    var start := SkipSpaces(s, i);
    var t := if width.Some? && start + width.value < |s| then s[..start + width.value] else s;
    var negative := start < |t| && t[start] == '-';
    var j := if start < |t| && (t[start] == '-' || t[start] == '+') then start + 1 else start;
    var k := if IsPrefixX(t, j) then j + 2 else j;
    var end := DigitEnd(t, k, 16);
    if end == k then None
    else Some(Field(UnsignedOf(Number(negative, Value(t[k..end], 16), end), longBits) % Pow2(32), end))
  }

  function ScanLiteral(s: string, i: nat, c: char): Option<nat> {
    if i < |s| && s[i] == c then Some(i + 1) else None
  }

  /** sscanf(name, "%04x:%02x:%02x.%x"), when it returns 4. */
  function ScanName(s: string, longBits: nat): Option<Device> {
    var f0 := ScanHex(s, 0, Some(4), longBits);
    var l0 := if f0.None? then None else ScanLiteral(s, f0.value.next, ':');
    var f1 := if l0.None? then None else ScanHex(s, l0.value, Some(2), longBits);
    var l1 := if f1.None? then None else ScanLiteral(s, f1.value.next, ':');
    var f2 := if l1.None? then None else ScanHex(s, l1.value, Some(2), longBits);
    var l2 := if f2.None? then None else ScanLiteral(s, f2.value.next, '.');
    var f3 := if l2.None? then None else ScanHex(s, l2.value, None, longBits);
    if f3.None? then None else Some(Device(f0.value.value, f1.value.value, f2.value.value, f3.value.value))
  }

  /** A printed number stands at i, and what follows it cannot be taken for a part of it. */
  predicate Stands(s: string, i: nat, p: string) {
    && p != "" && AllDigits(p, 16)
    && i + |p| <= |s| && s[i..i + |p|] == p
    && (i + |p| < |s| ==> !IsHex(s[i + |p|]) && s[i + |p|] != 'x' && s[i + |p|] != 'X')
  }

  lemma StandsAt(s: string, i: nat, p: string)
    requires Stands(s, i, p)
    ensures forall k :: i <= k < i + |p| ==> s[k] == p[k - i] && IsHex(s[k])
    ensures SkipSpaces(s, i) == i && s[i] != '-' && s[i] != '+'
    ensures !IsPrefixX(s, i) && forall n :: i <= n <= |s| ==> !IsPrefixX(s[..n], i)
  {
    assert forall k :: i <= k < i + |p| ==> s[k] == p[k - i];
    assert IsHex(s[i]);
    if i + 1 < i + |p| { assert IsHex(s[i + 1]); }
  }

  /** A number wider than the field is cut there, and the scan stops before a digit. */
  lemma ScanWideField(s: string, i: nat, p: string, width: nat, longBits: nat)
    requires Stands(s, i, p) && 0 < width < |p|
    ensures var f := ScanHex(s, i, Some(width), longBits);
            f.Some? && f.value.next == i + width && IsHex(s[i + width])
  {
    hide UnsignedOf, Value, Pow2;
    StandsAt(s, i, p);
    var t := s[..i + width];
    assert t[i..i + width] == p[..width];
    DigitRun(t, i, p[..width], 16);
  }

  /** Otherwise the whole number is read. */
  lemma ScanWholeField(s: string, i: nat, v: nat, pad: nat, width: Option<nat>, longBits: nat)
    requires longBits >= 32 && v < Pow2(32)
    requires Stands(s, i, PadHex(v, pad, false))
    requires width.Some? ==> width.value >= |PadHex(v, pad, false)|
    ensures ScanHex(s, i, width, longBits) == Some(Field(v, i + |PadHex(v, pad, false)|))
  {
    hide PadHex, UnsignedOf, Value, Pow2;
    var p := PadHex(v, pad, false);
    PadHexDigits(v, pad, false);
    StandsAt(s, i, p);
    var t := if width.Some? && i + width.value < |s| then s[..i + width.value] else s;
    assert t[i..i + |p|] == p by {
      assert forall k :: i <= k < i + |p| ==> t[k] == s[k];
    }
    DigitRun(t, i, p, 16);
    Pow2Monotonic(32, longBits);
    KeepsValue(v, i + |p|, longBits);
  }

  lemma KeepsValue(v: nat, end: nat, longBits: nat)
    requires v < Pow2(32) <= Pow2(longBits)
    ensures UnsignedOf(Number(false, v, end), longBits) % Pow2(32) == v
  {
    ModUnique(v, Pow2(32), 0, v);
  }

  /** Where the parts of a name lie. */
  lemma NameParts(p0: string, p1: string, p2: string, p3: string)
    ensures var s := p0 + (":" + (p1 + (":" + (p2 + ("." + p3)))));
            var i1 := |p0| + 1; var i2 := i1 + |p1| + 1; var i3 := i2 + |p2| + 1;
            && |s| == i3 + |p3|
            && s[0..|p0|] == p0 && s[i1..i1 + |p1|] == p1 && s[i2..i2 + |p2|] == p2 && s[i3..i3 + |p3|] == p3
            && s[|p0|] == ':' && s[i1 + |p1|] == ':' && s[i2 + |p2|] == '.'
  {
    var t2 := p2 + ("." + p3);
    var t1 := p1 + (":" + t2);
    var s := p0 + (":" + t1);
    var i1 := |p0| + 1;
    var i2 := i1 + |p1| + 1;
    assert s[i1..] == t1 && t1[|p1| + 1..] == t2;
    assert s[i2..] == t2;
  }

  /** Where the numbers of a name stand. */
  lemma NumbersStand(d: Device)
    ensures var s := d.Name();
            var p0, p1 := PadHex(d.segment, 4, false), PadHex(d.bus, 2, false);
            var p2, p3 := PadHex(d.device, 2, false), PadHex(d.func, 0, false);
            var i1 := |p0| + 1; var i2 := i1 + |p1| + 1; var i3 := i2 + |p2| + 1;
            && |s| == i3 + |p3|
            && Stands(s, 0, p0) && s[|p0|] == ':' && Stands(s, i1, p1) && s[i1 + |p1|] == ':'
            && Stands(s, i2, p2) && s[i2 + |p2|] == '.' && Stands(s, i3, p3)
  {
    hide PadHex, Value;
    PadHexDigits(d.segment, 4, false);
    PadHexDigits(d.bus, 2, false);
    PadHexDigits(d.device, 2, false);
    PadHexDigits(d.func, 0, false);
    NameParts(PadHex(d.segment, 4, false), PadHex(d.bus, 2, false),
              PadHex(d.device, 2, false), PadHex(d.func, 0, false));
  }

  /** Scanning the name of a device gives the same device exactly when its numbers fit the widths of
      the format; with a wider number the scan fails. */
  lemma ScanNameIff(d: Device, longBits: nat)
    requires d.IsUInt() && longBits >= 32
    ensures ScanName(d.Name(), longBits)
         == if d.segment < Pow2(16) && d.bus < Pow2(8) && d.device < Pow2(8) then Some(d) else None
  {
    hide PadHex, Pow2, ScanHex, Stands, Device.Name;
    var s := d.Name();
    var p0, p1, p2 := PadHex(d.segment, 4, false), PadHex(d.bus, 2, false), PadHex(d.device, 2, false);
    var i1 := |p0| + 1;
    var i2 := i1 + |p1| + 1;
    var i3 := i2 + |p2| + 1;
    NumbersStand(d);
    PadHexLength(d.segment, 4, false);
    PadHexLength(d.bus, 2, false);
    PadHexLength(d.device, 2, false);
    if |p0| != 4 {
      ScanWideField(s, 0, p0, 4, longBits);
    } else {
      ScanWholeField(s, 0, d.segment, 4, Some(4), longBits);
      if |p1| != 2 {
        ScanWideField(s, i1, p1, 2, longBits);
      } else {
        ScanWholeField(s, i1, d.bus, 2, Some(2), longBits);
        if |p2| != 2 {
          ScanWideField(s, i2, p2, 2, longBits);
        } else {
          ScanWholeField(s, i2, d.device, 2, Some(2), longBits);
          ScanWholeField(s, i3, d.func, 0, None, longBits);
        }
      }
    }
  }

  /** A concrete name that is not scanned back: segment 0x10000 takes five digits. */
  lemma WideSegmentIsNotScanned()
    ensures var d := Device(0x1_0000, 0, 0, 0);
            d.Name() == "10000:00:00.0" && ScanName(d.Name(), 32) == None
  {
    hide ScanName, Pow2;
    var d := Device(0x1_0000, 0, 0, 0);
    assert d.Name() == "10000:00:00.0" by { FiveDigits(); }
    WordSizes();
    ScanNameIff(d, 32);
  }

  lemma FiveDigits()
    ensures PadHex(0x1_0000, 4, false) == "10000"
    ensures PadHex(0, 2, false) == "00" && PadHex(0, 0, false) == "0"
  {
    assert Hex(0x10, false) == "10";
    assert Hex(0x100, false) == "100";
    assert Hex(0x1000, false) == "1000";
  }

  /** Two texts are the same up to their first separator. */
  lemma SplitAtSeparator(p: string, q: string, sep: char, r: string, t: string)
    requires sep !in p && sep !in q
    requires p + ([sep] + r) == q + ([sep] + t)
    ensures p == q && r == t
  {
    var x, y := p + ([sep] + r), q + ([sep] + t);
    assert x[|p|] == sep && y[|q|] == sep;
    assert forall k :: 0 <= k < |q| ==> y[k] == q[k];
    assert forall k :: 0 <= k < |p| ==> x[k] == p[k];
    assert x[..|p|] == p && y[..|q|] == q && x[|p| + 1..] == r && y[|q| + 1..] == t;
  }

  lemma HexHasNoSeparator(v: nat, width: nat)
    ensures ':' !in PadHex(v, width, false) && '.' !in PadHex(v, width, false)
    ensures Value(PadHex(v, width, false), 16) == v
  {
    PadHexDigits(v, width, false);
    var s := PadHex(v, width, false);
    assert forall i :: 0 <= i < |s| ==> IsHex(s[i]);
  }

  /** No two devices have the same name, whatever their numbers. */
  lemma NamesDiffer(d: Device, e: Device)
    requires d.Name() == e.Name()
    ensures d == e
  {
    hide PadHex, Value;
    HexHasNoSeparator(d.segment, 4);
    HexHasNoSeparator(e.segment, 4);
    HexHasNoSeparator(d.bus, 2);
    HexHasNoSeparator(e.bus, 2);
    HexHasNoSeparator(d.device, 2);
    HexHasNoSeparator(e.device, 2);
    HexHasNoSeparator(d.func, 0);
    HexHasNoSeparator(e.func, 0);
    var d3, e3 := PadHex(d.func, 0, false), PadHex(e.func, 0, false);
    var d2, e2 := PadHex(d.device, 2, false) + ("." + d3), PadHex(e.device, 2, false) + ("." + e3);
    var d1, e1 := PadHex(d.bus, 2, false) + (":" + d2), PadHex(e.bus, 2, false) + (":" + e2);
    SplitAtSeparator(PadHex(d.segment, 4, false), PadHex(e.segment, 4, false), ':', d1, e1);
    SplitAtSeparator(PadHex(d.bus, 2, false), PadHex(e.bus, 2, false), ':', d2, e2);
    SplitAtSeparator(PadHex(d.device, 2, false), PadHex(e.device, 2, false), '.', d3, e3);
  }

  // ----- Configuration space

  /** Files by path, two paths may lead to one device; and what each device's file holds. */
  type Space = map<nat, seq<byte>>

  datatype Access = Access(device: Device, reg: nat)

  function UInt(v: int): nat {
    v % 0x1_0000_0000
  }

  /** The numbers on a command line with at most one optional segment in front. */
  function ParseAccess(host: Host, argv: seq<string>, hasSegment: bool): Access
    requires host.Valid() && |argv| >= if hasSegment then 6 else 5
  {
    var a := if hasSegment then 2 else 1;
    var seg := if hasSegment then UInt(Strtol(argv[1], 0, host.longBits)) else 0;
    Access(Device(seg, UInt(Strtol(argv[a], 0, host.longBits)), UInt(Strtoul(argv[a + 1], 0, host.longBits)),
                  UInt(Strtoul(argv[a + 2], 0, host.longBits))),
           UInt(Strtoul(argv[a + 3], 0, host.longBits)))
  }

  /** open_device: sysfs first, then the proc file system. */
  function OpenDevice(paths: map<string, nat>, d: Device): Option<nat> {
    if SysfsPath(d) in paths then Some(paths[SysfsPath(d)])
    else if ProcfsPath(d) in paths then Some(paths[ProcfsPath(d)])
    else None
  }

  /** How many of n bytes at reg lie in a file. */
  function Within(length: nat, reg: nat, n: nat): (m: nat)
    ensures m <= n && (m > 0 ==> reg + m <= length)
  {
    if reg + n <= length then n else if reg < length then length - reg else 0
  }

  /** write: the bytes that fall behind the end of the file are not transferred. */
  function Written(content: seq<byte>, reg: nat, bytes: seq<byte>): (c: seq<byte>)
    ensures |c| == |content|
  {
    var m := Within(|content|, reg, |bytes|);
    if m == 0 then content else content[..reg] + bytes[..m] + content[reg + m..]
  }

  /** A read prints the little-endian value of the bytes at the register, on every host. */
  function ReadOutcome(host: Host, paths: map<string, nat>, space: Space, argv: seq<string>, bits: nat): Output
    requires host.Valid() && 5 <= |argv| <= 6
  {
    var a := ParseAccess(host, argv, |argv| > 5);
    var id := OpenDevice(paths, a.device);
    if id.None? || id.value !in space || bits !in {8, 16, 32} || a.reg + bits / 8 > |space[id.value]|
    then Output(-1, "")
    else Output(0, PrefixedHex(FromLE(space[id.value][a.reg..a.reg + bits / 8]), bits / 4, false) + "\n")
  }

  /** The device, register and bytes a write command sends, if it gets so far. */
  datatype Transfer = Transfer(id: nat, reg: nat, bytes: seq<byte>)

  function WriteTransfer(host: Host, paths: map<string, nat>, space: Space, argv: seq<string>, bits: nat)
    : Option<Transfer>
    requires host.Valid() && 6 <= |argv| <= 7
  {
    var a := ParseAccess(host, argv, |argv| > 6);
    var id := OpenDevice(paths, a.device);
    if id.None? || id.value !in space || bits !in {8, 16, 32} then None
    else Some(Transfer(id.value, a.reg, ToLE(Strtoul(argv[|argv| - 1], 0, host.longBits), bits / 8)))
  }

  function Perform(space: Space, t: Option<Transfer>): Space
    requires t.Some? ==> t.value.id in space
  {
    if t.None? then space
    else space[t.value.id := Written(space[t.value.id], t.value.reg, t.value.bytes)]
  }

  class PciBus {
    const host: Host
    const paths: map<string, nat>
    var space: Space

    constructor (host: Host, paths: map<string, nat>, space: Space)
      ensures this.host == host && this.paths == paths && this.space == space
    {
      this.host, this.paths, this.space := host, paths, space;
    }

    method PciRead(argv: seq<string>, bits: nat) returns (r: Output)
      requires host.Valid() && 5 <= |argv| <= 6
      ensures r == ReadOutcome(host, paths, space, argv, bits)
    {
      hide Strtol, Strtoul, PrefixedHex, FromLE, OpenDevice;
      var arg := 1;
      var seg := 0;
      if |argv| > 5 {
        seg := UInt(Strtol(argv[arg], 0, host.longBits));
        arg := arg + 1;
      }
      var bus := UInt(Strtol(argv[arg], 0, host.longBits));
      arg := arg + 1;
      var dev := UInt(Strtoul(argv[arg], 0, host.longBits));
      arg := arg + 1;
      var func := UInt(Strtoul(argv[arg], 0, host.longBits));
      arg := arg + 1;
      var reg := UInt(Strtoul(argv[arg], 0, host.longBits));
      var fd := OpenDevice(paths, Device(seg, bus, dev, func));
      if fd.None? || fd.value !in space {
        return Output(-1, "");
      }
      r := DoRead(fd.value, reg, bits);
    }

    /** The DO_READ macro: a short read is an error, a full one is converted and printed. */
    method DoRead(fd: nat, reg: nat, bits: nat) returns (r: Output)
      requires fd in space
      ensures r == if bits !in {8, 16, 32} || reg + bits / 8 > |space[fd]| then Output(-1, "")
                   else Output(0, PrefixedHex(FromLE(space[fd][reg..reg + bits / 8]), bits / 4, false) + "\n")
    {
      hide PrefixedHex, FromLE, Load, LeToHost;
      match bits {
        case 8 | 16 | 32 =>
          var n := bits / 8;
          if Within(|space[fd]|, reg, n) != n {
            return Output(-1, "");
          }
          var bytes := space[fd][reg..reg + n];
          var data := Load(host.endian, bytes);
          data := LeToHost(host.endian, data, n);
          LeToHostLoads(host.endian, bytes);
          r := Output(0, PrefixedHex(data, n * 2, false) + "\n");
        case _ =>
          r := Output(-1, "");
      }
    }

    method PciWrite(argv: seq<string>, bits: nat) returns (rc: int)
      requires host.Valid() && 6 <= |argv| <= 7
      modifies this`space
      ensures var t := WriteTransfer(host, paths, old(space), argv, bits);
              && space == Perform(old(space), t)
              && rc == if t.Some? && t.value.reg + |t.value.bytes| <= |old(space)[t.value.id]| then 0 else -1
    {
      hide Strtol, Strtoul, ToLE, OpenDevice, Written;
      var arg := 1;
      var seg := 0;
      if |argv| > 6 {
        seg := UInt(Strtol(argv[arg], 0, host.longBits));
        arg := arg + 1;
      }
      var bus := UInt(Strtol(argv[arg], 0, host.longBits));
      arg := arg + 1;
      var dev := UInt(Strtoul(argv[arg], 0, host.longBits));
      arg := arg + 1;
      var func := UInt(Strtoul(argv[arg], 0, host.longBits));
      arg := arg + 1;
      var reg := UInt(Strtoul(argv[arg], 0, host.longBits));
      arg := arg + 1;
      var ldata := Strtoul(argv[arg], 0, host.longBits);
      var fd := OpenDevice(paths, Device(seg, bus, dev, func));
      if fd.None? || fd.value !in space {
        return -1;
      }
      rc := DoWrite(fd.value, reg, bits, ldata);
    }

    /** The DO_WRITE macro: the value is cut, converted and written; a short write is an error. */
    method DoWrite(fd: nat, reg: nat, bits: nat, ldata: nat) returns (rc: int)
      requires fd in space
      modifies this`space
      ensures rc == if bits in {8, 16, 32} && reg + bits / 8 <= |old(space)[fd]| then 0 else -1
      ensures space == if bits !in {8, 16, 32} then old(space)
                       else old(space)[fd := Written(old(space)[fd], reg, ToLE(ldata, bits / 8))]
    {
      hide Store, HostToLe, ToLE, Pow2, Written;
      match bits {
        case 8 | 16 | 32 =>
          var n := bits / 8;
          var data := HostToLe(host.endian, ldata % Pow2(bits), n);
          var bytes := Store(host.endian, data, n);
          assert bytes == ToLE(ldata, n) by {
            HostToLeStores(host.endian, ldata % Pow2(bits), n);
            ToLECut(ldata, n);
          }
          rc := if Within(|space[fd]|, reg, n) == n then 0 else -1;
          space := space[fd := Written(space[fd], reg, bytes)];
        case _ =>
          rc := -1;
      }
    }
  }

  // ----- Command lines and paths

  /** Bus, device, function and register stand in this order from argument at on. */
  ghost predicate Addressed(argv: seq<string>, at: nat, bus: nat, dev: nat, func: nat, reg: nat) {
    && |argv| >= at + 4 && Denotes(argv[at], bus) && Denotes(argv[at + 1], dev)
    && Denotes(argv[at + 2], func) && Denotes(argv[at + 3], reg)
  }

  /** A command line with or without the segment in front of the four numbers. */
  ghost predicate NamesRegister(argv: seq<string>, hasSegment: bool, d: Device, reg: nat) {
    if hasSegment then Addressed(argv, 2, d.bus, d.device, d.func, reg) && Denotes(argv[1], d.segment)
    else Addressed(argv, 1, d.bus, d.device, d.func, reg) && d.segment == 0
  }

  /** Segment and bus pass through a long, the other numbers through an unsigned long. */
  predicate Fits(host: Host, d: Device, reg: nat) {
    && d.segment < 0x1_0000_0000 && d.bus < 0x1_0000_0000
    && (host.longBits == 32 ==> d.segment < 0x8000_0000 && d.bus < 0x8000_0000)
    && d.device < 0x1_0000_0000 && d.func < 0x1_0000_0000 && reg < 0x1_0000_0000
  }

  /** The numbers typed are the numbers of the device and the register. */
  lemma AccessTyped(host: Host, argv: seq<string>, hasSegment: bool, d: Device, reg: nat)
    requires host.Valid() && NamesRegister(argv, hasSegment, d, reg) && Fits(host, d, reg)
    ensures ParseAccess(host, argv, hasSegment) == Access(d, reg)
  {
    hide Strtol, Strtoul, Denotes, Pow2;
    var at := if hasSegment then 2 else 1;
    if hasSegment { SignedTyped(host, argv[1], d.segment); }
    SignedTyped(host, argv[at], d.bus);
    UnsignedTyped(host, argv[at + 1], d.device);
    UnsignedTyped(host, argv[at + 2], d.func);
    UnsignedTyped(host, argv[at + 3], reg);
  }

  lemma UnsignedTyped(host: Host, arg: string, v: nat)
    requires host.Valid() && Denotes(arg, v) && v < 0x1_0000_0000
    ensures UInt(Strtoul(arg, 0, host.longBits)) == v
  {
    hide Strtol, Strtoul, Denotes, Pow2;
    WordSizes();
    DenotedValue(arg, v, host.longBits);
  }

  lemma SignedTyped(host: Host, arg: string, v: nat)
    requires host.Valid() && Denotes(arg, v) && v < 0x1_0000_0000 && (host.longBits == 32 ==> v < 0x8000_0000)
    ensures UInt(Strtol(arg, 0, host.longBits)) == v
  {
    hide Strtol, Strtoul, Denotes, Pow2;
    WordSizes();
    DenotedValue(arg, v, host.longBits);
  }

  /** The path in sysfs is tried first, then the one in the proc file system, which shows a segment
      other than 0 only. */
  lemma OpenedPath(paths: map<string, nat>, d: Device)
    ensures var seg, bus := PadHex(d.segment, 4, false), PadHex(d.bus, 2, false);
            var dev, func := PadHex(d.device, 2, false), PadHex(d.func, 0, false);
            var sysfs := "/sys/bus/pci/devices/" + seg + ":" + bus + ":" + dev + "." + func + "/config";
            var procfs := "/proc/bus/pci/" + (if d.segment == 0 then "" else seg + ":") + bus + "/" + dev + "." + func;
            OpenDevice(paths, d)
            == if sysfs in paths then Some(paths[sysfs])
               else if procfs in paths then Some(paths[procfs]) else None
  {
    hide PadHex;
    var seg, bus := PadHex(d.segment, 4, false), PadHex(d.bus, 2, false);
    var dev, func := PadHex(d.device, 2, false), PadHex(d.func, 0, false);
    var front := if d.segment == 0 then "" else seg + ":";
    SysfsText(seg, bus, dev, func);
    ProcfsText(front, bus, dev, func);
    assert SYSFS_BASE_DIR + "/" == "/sys/bus/pci/devices/" && PROCFS_BASE_DIR + "/" == "/proc/bus/pci/";
    assert SysfsPath(d) == "/sys/bus/pci/devices/" + seg + ":" + bus + ":" + dev + "." + func + "/config";
    assert ProcfsPath(d) == "/proc/bus/pci/" + front + bus + "/" + dev + "." + func;
  }

  lemma SysfsText(seg: string, bus: string, dev: string, func: string)
    ensures "/sys/bus/pci/devices/" + (seg + (":" + (bus + (":" + (dev + ("." + func)))))) + "/config"
         == "/sys/bus/pci/devices/" + seg + ":" + bus + ":" + dev + "." + func + "/config"
  {
  }

  lemma ProcfsText(front: string, bus: string, dev: string, func: string)
    ensures var tail := bus + "/" + dev + "." + func;
            && "/proc/bus/pci/" + (front + tail) == "/proc/bus/pci/" + front + bus + "/" + dev + "." + func
            && (front == "" ==> front + tail == tail)
  {
  }

  /** The paths of 0000:01:02.3 and of 0001:01:02.3. */
  lemma PathExamples()
    ensures SysfsPath(Device(0, 1, 2, 3)) == "/sys/bus/pci/devices/0000:01:02.3/config"
    ensures ProcfsPath(Device(0, 1, 2, 3)) == "/proc/bus/pci/01/02.3"
    ensures ProcfsPath(Device(1, 1, 2, 3)) == "/proc/bus/pci/0001:01/02.3"
  {
    hide PadHex;
    SmallNumbers();
  }

  lemma SmallNumbers()
    ensures PadHex(0, 4, false) == "0000" && PadHex(1, 4, false) == "0001"
    ensures PadHex(1, 2, false) == "01" && PadHex(2, 2, false) == "02" && PadHex(3, 0, false) == "3"
  {
  }

  /** What a read command prints, from the numbers on its command line. */
  lemma ReadTyped(host: Host, paths: map<string, nat>, space: Space, argv: seq<string>, bits: nat,
                  d: Device, reg: nat)
    requires host.Valid() && 5 <= |argv| <= 6
    requires NamesRegister(argv, |argv| == 6, d, reg) && Fits(host, d, reg)
    ensures var id := OpenDevice(paths, d);
            ReadOutcome(host, paths, space, argv, bits)
            == if id.Some? && id.value in space && bits in {8, 16, 32} && reg + bits / 8 <= |space[id.value]|
               then Output(0, PrefixedHex(FromLE(space[id.value][reg..reg + bits / 8]), bits / 4, false) + "\n")
               else Output(-1, "")
  {
    hide ParseAccess, OpenDevice, FromLE, PrefixedHex, NamesRegister;
    AccessTyped(host, argv, |argv| == 6, d, reg);
  }

  /** The bytes a write command changes, from the numbers on its command line; the value is the last
      argument. */
  lemma WriteTyped(host: Host, paths: map<string, nat>, space: Space, argv: seq<string>, bits: nat,
                   d: Device, reg: nat, v: nat)
    requires host.Valid() && 6 <= |argv| <= 7
    requires NamesRegister(argv, |argv| == 7, d, reg) && Fits(host, d, reg)
    requires bits in {8, 16, 32} && Denotes(argv[|argv| - 1], v) && v < Pow2(host.longBits)
    requires OpenDevice(paths, d).Some? && OpenDevice(paths, d).value in space
    ensures var id := OpenDevice(paths, d).value;
            var after := Perform(space, WriteTransfer(host, paths, space, argv, bits));
            && id in after && |after[id]| == |space[id]| && after == space[id := after[id]]
            && (forall i :: 0 <= i < |space[id]| && !(reg <= i < reg + bits / 8) ==> after[id][i] == space[id][i])
            && (reg + bits / 8 <= |space[id]| ==> FromLE(after[id][reg..reg + bits / 8]) == v % Pow2(bits))
  {
    hide ParseAccess, OpenDevice, FromLE, ToLE, NamesRegister, Written, Denotes, Strtoul, Strtol, Pow2;
    var id, n := OpenDevice(paths, d).value, bits / 8;
    AccessTyped(host, argv, |argv| == 7, d, reg);
    DenotedValue(argv[|argv| - 1], v, host.longBits);
    var bytes := ToLE(v, n);
    FromToLE(v, n);
    var after := Written(space[id], reg, bytes);
    forall i | 0 <= i < |space[id]|
      ensures after[i] == if reg <= i < reg + n then bytes[i - reg] else space[id][i]
    {
      WrittenByte(space[id], reg, bytes, i);
    }
    if reg + n <= |space[id]| { assert after[reg..reg + n] == bytes; }
  }

  // ----- Whole runs

  datatype WriteCommand = WriteCommand(argv: seq<string>, bits: nat)

  type Write = c: WriteCommand | 6 <= |c.argv| <= 7 witness WriteCommand(["", "", "", "", "", ""], 8)

  function Run(host: Host, paths: map<string, nat>, space: Space, cs: seq<Write>): (s: Space)
    requires host.Valid()
    ensures s.Keys == space.Keys
    ensures forall id :: id in space ==> |s[id]| == |space[id]|
    decreases |cs|
  {
    if cs == [] then space
    else
      var before := Run(host, paths, space, cs[..|cs| - 1]);
      var c := cs[|cs| - 1];
      Perform(before, WriteTransfer(host, paths, before, c.argv, c.bits))
  }

  /** The commands of a run take effect one after the other. */
  lemma {:induction false} RunSplit(host: Host, paths: map<string, nat>, space: Space, cs: seq<Write>, ds: seq<Write>)
    requires host.Valid()
    ensures Run(host, paths, space, cs + ds) == Run(host, paths, Run(host, paths, space, cs), ds)
    decreases |ds|
  {
    hide WriteTransfer, Written;
    if ds == [] {
      assert cs + ds == cs;
    } else {
      var init, last := ds[..|ds| - 1], ds[|ds| - 1];
      RunSplit(host, paths, space, cs, init);
      assert (cs + ds)[..|cs + ds| - 1] == cs + init && (cs + ds)[|cs + ds| - 1] == last;
    }
  }

  /** The byte a transfer puts at an offset of a device, if it does. */
  predicate Covers(t: Option<Transfer>, id: nat, offset: nat) {
    t.Some? && t.value.id == id && t.value.reg <= offset < t.value.reg + |t.value.bytes|
  }

  /** The byte that the last of the commands to touch the offset left there. */
  function LastByte(host: Host, paths: map<string, nat>, space: Space, cs: seq<Write>, id: nat, offset: nat): byte
    requires host.Valid() && id in space && offset < |space[id]|
    decreases |cs|
  {
    if cs == [] then space[id][offset]
    else
      var c := cs[|cs| - 1];
      var t := WriteTransfer(host, paths, space, c.argv, c.bits);
      if Covers(t, id, offset) then t.value.bytes[offset - t.value.reg]
      else LastByte(host, paths, space, cs[..|cs| - 1], id, offset)
  }

  lemma TransferStable(host: Host, paths: map<string, nat>, s: Space, t: Space, argv: seq<string>, bits: nat)
    requires host.Valid() && 6 <= |argv| <= 7 && s.Keys == t.Keys
    ensures WriteTransfer(host, paths, s, argv, bits) == WriteTransfer(host, paths, t, argv, bits)
  {
  }

  lemma WrittenByte(content: seq<byte>, reg: nat, bytes: seq<byte>, offset: nat)
    requires offset < |content|
    ensures Written(content, reg, bytes)[offset]
         == if reg <= offset < reg + |bytes| then bytes[offset - reg] else content[offset]
  {
  }

  lemma {:induction false} RunByte(host: Host, paths: map<string, nat>, space: Space, cs: seq<Write>,
                                   id: nat, offset: nat)
    requires host.Valid() && id in space && offset < |space[id]|
    ensures Run(host, paths, space, cs)[id][offset] == LastByte(host, paths, space, cs, id, offset)
    decreases |cs|
  {
    hide WriteTransfer, Written;
    if cs != [] {
      var init, c := cs[..|cs| - 1], cs[|cs| - 1];
      var before := Run(host, paths, space, init);
      RunByte(host, paths, space, init, id, offset);
      TransferStable(host, paths, before, space, c.argv, c.bits);
      var t := WriteTransfer(host, paths, space, c.argv, c.bits);
      if t.Some? && t.value.id == id {
        WrittenByte(before[id], t.value.reg, t.value.bytes, offset);
      }
    }
  }

  function LastBytes(host: Host, paths: map<string, nat>, space: Space, cs: seq<Write>, id: nat, reg: nat, n: nat)
    : (bs: seq<byte>)
    requires host.Valid() && id in space && reg + n <= |space[id]|
    ensures |bs| == n
  {
    seq<byte>(n, i requires 0 <= i < n => LastByte(host, paths, space, cs, id, reg + i))
  }

  /** After any run of 8-, 16- and 32-bit writes, through either file system and at any offsets, a
      read of any width prints the little-endian value of the bytes last written at its place. */
  lemma ReadAfterRun(host: Host, paths: map<string, nat>, space: Space, cs: seq<Write>, argv: seq<string>, bits: nat)
    requires host.Valid() && 5 <= |argv| <= 6 && bits in {8, 16, 32}
    ensures var a := ParseAccess(host, argv, |argv| > 5);
            var id := OpenDevice(paths, a.device);
            ReadOutcome(host, paths, Run(host, paths, space, cs), argv, bits)
            == if id.None? || id.value !in space || a.reg + bits / 8 > |space[id.value]| then Output(-1, "")
               else
                 var last := LastBytes(host, paths, space, cs, id.value, a.reg, bits / 8);
                 Output(0, PrefixedHex(FromLE(last), bits / 4, false) + "\n")
  {
    hide ParseAccess, OpenDevice, FromLE, PrefixedHex, LastByte, Run;
    var a := ParseAccess(host, argv, |argv| > 5);
    var id, n := OpenDevice(paths, a.device), bits / 8;
    var after := Run(host, paths, space, cs);
    if id.Some? && id.value in space && a.reg + n <= |space[id.value]| {
      var bytes := LastBytes(host, paths, space, cs, id.value, a.reg, n);
      forall i | 0 <= i < n ensures after[id.value][a.reg..a.reg + n][i] == bytes[i] {
        RunByte(host, paths, space, cs, id.value, a.reg + i);
      }
      assert after[id.value][a.reg..a.reg + n] == bytes;
    }
  }

  // ----- Listing

  function Decimal(v: nat): string {
    if v < 10 then [('0' as int + v) as char] else Decimal(v / 10) + [('0' as int + v % 10) as char]
  }

  /** %d of a number that was scanned into an int. */
  function SignedDecimal(v: nat): string {
    if v < 0x8000_0000 then Decimal(v) else if v < 0x1_0000_0000 then "-" + Decimal(0x1_0000_0000 - v) else ""
  }

  function ListLine(d: Device): string {
    SignedDecimal(d.bus) + " " + SignedDecimal(d.device) + " " + SignedDecimal(d.func) + "\n"
  }

  /** The lines of the names that scan as devices. */
  function Listing(names: seq<string>, longBits: nat): string {
    if names == [] then ""
    else
      var d := ScanName(names[|names| - 1], longBits);
      Listing(names[..|names| - 1], longBits) + if d.Some? then ListLine(d.value) else ""
  }

  /** pci_list_sysfs over the names that readdir gives. */
  method PciListSysfs(names: seq<string>, longBits: nat) returns (out: string)
    ensures out == Listing(names, longBits)
  {
    hide ScanName, ListLine;
    out := "";
    var i := 0;
    while i < |names|
      invariant 0 <= i <= |names| && out == Listing(names[..i], longBits)
    {
      var d := ScanName(names[i], longBits);
      assert names[..i + 1][..i] == names[..i];
      if d.Some? {
        out := out + ListLine(d.value);
      }
      i := i + 1;
    }
    assert names[..i] == names;
  }

  function NamesOf(ds: seq<Device>): (names: seq<string>)
    ensures |names| == |ds|
  {
    seq(|ds|, i requires 0 <= i < |ds| => ds[i].Name())
  }

  function LinesOf(ds: seq<Device>): string {
    if ds == [] then "" else LinesOf(ds[..|ds| - 1]) + ListLine(ds[|ds| - 1])
  }

  /** The devices whose numbers fit the widths of the format. */
  function Fitting(ds: seq<Device>): seq<Device> {
    if ds == [] then []
    else
      var d := ds[|ds| - 1];
      Fitting(ds[..|ds| - 1])
      + if d.segment < Pow2(16) && d.bus < Pow2(8) && d.device < Pow2(8) then [d] else []
  }

  /** Over a directory of printed names the listing has, in order, one line for each device whose
      numbers fit the widths of the format, and none for any other. */
  lemma {:induction false} ListingShowsDevices(ds: seq<Device>, longBits: nat)
    requires longBits >= 32 && forall i :: 0 <= i < |ds| ==> ds[i].IsUInt()
    ensures Listing(NamesOf(ds), longBits) == LinesOf(Fitting(ds))
    decreases |ds|
  {
    hide ScanName, ListLine, Pow2, Device.Name, Device.IsUInt;
    if ds != [] {
      var n := |ds| - 1;
      ListingShowsDevices(ds[..n], longBits);
      assert NamesOf(ds)[..n] == NamesOf(ds[..n]);
      ScanNameIff(ds[n], longBits);
      LinesSnoc(Fitting(ds[..n]), ds[n]);
    }
  }

  /** A directory of two devices, which are listed in its order. */
  lemma ListingExample()
    ensures Listing([Device(0, 0, 0x1f, 3).Name(), Device(1, 2, 0, 0).Name()], 64) == "0 31 3\n2 0 0\n"
  {
    hide ScanName, Pow2, Device.Name, ListLine;
    var d, e := Device(0, 0, 0x1f, 3), Device(1, 2, 0, 0);
    WordSizes();
    assert d.IsUInt() && e.IsUInt();
    ListingShowsDevices([d, e], 64);
    assert NamesOf([d, e]) == [d.Name(), e.Name()];
    assert [d, e][..1] == [d] && [d][..0] == [];
    assert Fitting([d]) == [] + [d];
    assert Fitting([d, e]) == [d] + [e];
    LinesSnoc([d], e);
    LinesSnoc([], d);
    assert LinesOf([d]) == "" + ListLine(d) by { assert [] + [d] == [d]; }
    ExampleLines();
  }

  lemma ExampleLines()
    ensures ListLine(Device(0, 0, 0x1f, 3)) == "0 31 3\n" && ListLine(Device(1, 2, 0, 0)) == "2 0 0\n"
  {
    assert Decimal(31) == "31";
  }

  lemma LinesSnoc(ds: seq<Device>, d: Device)
    ensures LinesOf(ds + [d]) == LinesOf(ds) + ListLine(d)
    ensures LinesOf(ds + []) + "" == LinesOf(ds)
  {
    assert (ds + [d])[..|ds|] == ds;
    assert ds + [] == ds;
  }

  lemma {:induction false} DecimalDigits(v: nat)
    ensures Decimal(v) != "" && AllDigits(Decimal(v), 10) && Value(Decimal(v), 10) == v
    ensures if v == 0 then Decimal(v) == "0" else Decimal(v)[0] != '0'
  {
    var s := Decimal(v);
    if v < 10 {
      assert s[..0] == [];
    } else {
      DecimalDigits(v / 10);
      assert s[..|s| - 1] == Decimal(v / 10);
    }
  }

  lemma SignedDecimalReads(v: nat)
    requires v < 0x1_0000_0000
    ensures ' ' !in SignedDecimal(v) && '\n' !in SignedDecimal(v)
    ensures SignedDecimal(v) != ""
    ensures if v < 0x8000_0000 then SignedDecimal(v)[0] != '-' && Value(SignedDecimal(v), 10) == v
            else SignedDecimal(v)[0] == '-' && Value(SignedDecimal(v)[1..], 10) == 0x1_0000_0000 - v
  {
    hide Decimal, Value;
    var m := if v < 0x8000_0000 then v else 0x1_0000_0000 - v;
    DecimalDigits(m);
    var digits := Decimal(m);
    assert forall i :: 0 <= i < |digits| ==> IsDigit(digits[i], 10);
    if v >= 0x8000_0000 { assert SignedDecimal(v)[1..] == digits; }
  }

  /** The text of the int whose bits are those of v: decimal digits, behind a minus sign for the
      values from 2^31 on, and no needless zero. */
  predicate ReadsAs(text: string, v: nat) {
    if v < 0x8000_0000 then ReadsAsNat(text, v)
    else v < 0x1_0000_0000 && text != "" && text[0] == '-' && ReadsAsNat(text[1..], 0x1_0000_0000 - v)
  }

  predicate ReadsAsNat(text: string, v: nat) {
    text != "" && AllDigits(text, 10) && Value(text, 10) == v && (text[0] == '0' ==> text == "0")
  }

  /** A line shows bus, device and function, in this order, with a blank between them. */
  lemma LineReads(d: Device) returns (bus: string, dev: string, func: string)
    requires d.IsUInt()
    ensures ListLine(d) == bus + " " + dev + " " + func + "\n"
    ensures ReadsAs(bus, d.bus) && ReadsAs(dev, d.device) && ReadsAs(func, d.func)
  {
    hide SignedDecimal, ReadsAs, Pow2;
    WordSizes();
    bus, dev, func := SignedDecimal(d.bus), SignedDecimal(d.device), SignedDecimal(d.func);
    SignedReadsAs(d.bus);
    SignedReadsAs(d.device);
    SignedReadsAs(d.func);
  }

  lemma SignedReadsAs(v: nat)
    requires v < 0x1_0000_0000
    ensures ReadsAs(SignedDecimal(v), v)
  {
    hide Decimal, Value;
    DecimalDigits(if v < 0x8000_0000 then v else 0x1_0000_0000 - v);
    if v >= 0x8000_0000 { assert SignedDecimal(v)[1..] == Decimal(0x1_0000_0000 - v); }
  }

  lemma SignedDecimalsDiffer(v: nat, w: nat)
    requires v < 0x1_0000_0000 && w < 0x1_0000_0000 && SignedDecimal(v) == SignedDecimal(w)
    ensures v == w
  {
    hide SignedDecimal, Value;
    SignedDecimalReads(v);
    SignedDecimalReads(w);
  }

  /** Two devices have the same line exactly when they differ in the segment at most: the line does
      not show it. */
  lemma LinesEqualIff(d: Device, e: Device)
    requires d.IsUInt() && e.IsUInt()
    ensures ListLine(d) == ListLine(e) <==> d.bus == e.bus && d.device == e.device && d.func == e.func
  {
    hide SignedDecimal;
    WordSizes();
    if ListLine(d) == ListLine(e) {
      var d2, e2 := SignedDecimal(d.func) + ("\n" + ""), SignedDecimal(e.func) + ("\n" + "");
      var d1, e1 := SignedDecimal(d.device) + (" " + d2), SignedDecimal(e.device) + (" " + e2);
      LineParts(d);
      LineParts(e);
      SignedDecimalReads(d.bus);
      SignedDecimalReads(e.bus);
      SplitAtSeparator(SignedDecimal(d.bus), SignedDecimal(e.bus), ' ', d1, e1);
      SignedDecimalReads(d.device);
      SignedDecimalReads(e.device);
      SplitAtSeparator(SignedDecimal(d.device), SignedDecimal(e.device), ' ', d2, e2);
      SignedDecimalReads(d.func);
      SignedDecimalReads(e.func);
      SplitAtSeparator(SignedDecimal(d.func), SignedDecimal(e.func), '\n', "", "");
      SignedDecimalsDiffer(d.bus, e.bus);
      SignedDecimalsDiffer(d.device, e.device);
      SignedDecimalsDiffer(d.func, e.func);
    }
  }

  lemma LineParts(d: Device)
    ensures ListLine(d)
         == SignedDecimal(d.bus) + (" " + (SignedDecimal(d.device) + (" " + (SignedDecimal(d.func) + ("\n" + "")))))
  {
    hide SignedDecimal;
  }
}
