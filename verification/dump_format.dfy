/**
 The fields of a memory dump: 32-bit words while four bytes are left, then single bytes.  A reader
 of the printed text is given beside it.
 */
module DumpFormat {
  import opened Bits
  import opened ByteOrder
  import opened CText
  import opened DumpLayout

  function FieldCount(n: nat): nat {
    n / 4 + n % 4
  }

  /** Where field j of an n byte dump starts. */
  function FieldOffset(n: nat, j: nat): (offset: nat)
    requires j <= FieldCount(n)
    ensures offset <= n
    ensures j == FieldCount(n) ==> offset == n
  {
    if j <= n / 4 then 4 * j else 4 * (n / 4) + (j - n / 4)
  }

  function FieldSize(n: nat, j: nat): (size: nat)
    requires j < FieldCount(n)
    ensures FieldOffset(n, j) + size == FieldOffset(n, j + 1)
  {
    if j < n / 4 then 4 else 1
  }

  function Field(bs: seq<byte>, j: nat): (f: seq<byte>)
    requires j < FieldCount(|bs|)
    ensures |f| == FieldSize(|bs|, j)
  {
    bs[FieldOffset(|bs|, j)..FieldOffset(|bs|, j + 1)]
  }

  function FieldText(e: Endian, field: seq<byte>): string {
    " " + PrefixedHex(Load(e, field), 2 * |field|, false)
  }

  /** The address printed before field j; printing wraps at 64 bits. */
  function Label(n: nat, base: nat, j: nat): string
    requires j <= FieldCount(n)
  {
    PrefixedHex((base + FieldOffset(n, j)) % Pow2(64), 16, false) + ":"
  }

  function FieldsOf(bs: seq<byte>): seq<seq<byte>> {
    seq(FieldCount(|bs|), j requires 0 <= j < FieldCount(|bs|) => Field(bs, j))
  }

  function SheetOf(e: Endian, bs: seq<byte>, base: nat): (sheet: Sheet)
    ensures sheet.Valid()
    ensures |sheet.fields| == FieldCount(|bs|)
  {
    var count := FieldCount(|bs|);
    Sheet(seq(LineCount(count), k requires 0 <= k < LineCount(count) => Label(|bs|, base, 4 * k)),
          seq(count, j requires 0 <= j < count => FieldText(e, Field(bs, j))))
  }

  function DumpText(e: Endian, bs: seq<byte>, base: nat): string {
    SheetOf(e, bs, base).Text()
  }

  // ----- Layout

  lemma PrefixedHexPlain(v: nat, width: nat)
    ensures Plain(PrefixedHex(v, width, false))
    ensures forall i :: 0 <= i < |PrefixedHex(v, width, false)| ==> PrefixedHex(v, width, false)[i] != ' '
  {
    PadHexDigits(v, width, false);
    var s := PadHex(v, width, false);
    assert forall i :: 0 <= i < |s| ==> IsHex(s[i]);
    assert forall i :: 2 <= i < |s| + 2 ==> PrefixedHex(v, width, false)[i] == s[i - 2];
  }

  lemma SheetIsPlain(e: Endian, bs: seq<byte>, base: nat)
    ensures SheetOf(e, bs, base).PlainParts()
  {
    hide PadHex, Load, Pow2;
    var sheet := SheetOf(e, bs, base);
    forall k | 0 <= k < |sheet.labels| ensures Plain(sheet.labels[k]) && sheet.labels[k] != "" {
      PrefixedHexPlain((base + FieldOffset(|bs|, 4 * k)) % Pow2(64), 16);
    }
    forall j | 0 <= j < |sheet.fields| ensures Plain(sheet.fields[j]) {
      PrefixedHexPlain(Load(e, Field(bs, j)), 2 * |Field(bs, j)|);
    }
  }

  /** The text of a dump has n/4 + n%4 fields, four to a line, behind the address of the first byte
      on the line. */
  lemma DumpLines(e: Endian, bs: seq<byte>, base: nat)
    ensures Lines(DumpText(e, bs, base)).Some?
    ensures var sheet, lines := SheetOf(e, bs, base), Lines(DumpText(e, bs, base)).value;
            && |lines| == (|bs| / 4 + |bs| % 4 + 3) / 4
            && forall k :: 0 <= k < |lines| ==>
                 && lines[k] == Label(|bs|, base, 4 * k) + sheet.Fields(4 * k, LineEnd(|sheet.fields|, k))
                 && 0 < LineEnd(|sheet.fields|, k) - 4 * k <= 4
                 && (k + 1 < |lines| ==> LineEnd(|sheet.fields|, k) == 4 * (k + 1))
    ensures bs == [] <==> DumpText(e, bs, base) == ""
  {
    hide PrefixedHex, Load, Pow2, Lines, Sheet.Fields, Sheet.LinesFrom, Sheet.PlainParts;
    var sheet := SheetOf(e, bs, base);
    SheetIsPlain(e, bs, base);
    sheet.TextLines();
    forall k | 0 <= k < |sheet.labels|
      ensures sheet.Line(k) == Label(|bs|, base, 4 * k) + sheet.Fields(4 * k, LineEnd(|sheet.fields|, k))
    {
      assert sheet.labels[k] == Label(|bs|, base, 4 * k);
    }
  }

  // ----- Reading a dump back

  /** Every field is a blank, 0x and digits; anything else is passed over.  Eight digits are a word
      in the byte order of the host, two are a byte. */
  function Decode(e: Endian, t: string): Option<seq<byte>>
    decreases |t|
  {
    if t == "" then Some([])
    else if t[0] != ' ' then Decode(e, t[1..])
    else if |t| < 3 || t[1] != '0' || t[2] != 'x' then None
    else
      var end := DigitEnd(t, 3, 16);
      var digits, rest := t[3..end], Decode(e, t[end..]);
      if rest.None? || (|digits| != 8 && |digits| != 2) then None
      else Some(Store(e, Value(digits, 16), |digits| / 2) + rest.value)
  }

  function Append(bs: seq<byte>, o: Option<seq<byte>>): Option<seq<byte>> {
    if o.None? then None else Some(bs + o.value)
  }

  /** A text that stands for a chunk of bytes wherever no digit follows it. */
  ghost predicate Spells(e: Endian, text: string, chunk: seq<byte>) {
    && text != "" && text[0] == ' '
    && forall t: string {:trigger Decode(e, text + t)} ::
         t == "" || !IsHex(t[0]) ==> Decode(e, text + t) == Append(chunk, Decode(e, t))
  }

  lemma {:induction false} DecodeSkips(e: Endian, skipped: string, t: string)
    requires forall i :: 0 <= i < |skipped| ==> skipped[i] != ' '
    ensures Decode(e, skipped + t) == Decode(e, t)
    decreases |skipped|
  {
    if skipped == "" {
      assert skipped + t == t;
    } else {
      assert (skipped + t)[1..] == skipped[1..] + t;
      DecodeSkips(e, skipped[1..], t);
    }
  }

  lemma DecodeDigits(e: Endian, digits: string, t: string)
    requires (|digits| == 8 || |digits| == 2) && AllDigits(digits, 16)
    requires t == "" || !IsHex(t[0])
    ensures Decode(e, " 0x" + digits + t) == Append(Store(e, Value(digits, 16), |digits| / 2), Decode(e, t))
  {
    var s := " 0x" + digits + t;
    assert s[0] == ' ' && s[1] == '0' && s[2] == 'x' && s[3..3 + |digits|] == digits;
    DigitRun(s, 3, digits, 16);
    assert s[3 + |digits|..] == t;
  }

  lemma FieldSpells(e: Endian, field: seq<byte>)
    requires |field| == 4 || |field| == 1
    ensures Spells(e, FieldText(e, field), field)
  {
    var v, width := Load(e, field), 2 * |field|;
    var digits := PadHex(v, width, false);
    LoadBound(e, field);
    PadHexLength(v, width, false);
    PadHexDigits(v, width, false);
    StoreLoad(e, field);
    assert FieldText(e, field) == " 0x" + digits;
    forall t: string | t == "" || !IsHex(t[0])
      ensures Decode(e, FieldText(e, field) + t) == Append(field, Decode(e, t))
    {
      DecodeDigits(e, digits, t);
    }
  }

  function Flatten(chunks: seq<seq<byte>>, j: nat, end: nat): seq<byte>
    requires end <= |chunks|
    decreases end - j
  {
    if j >= end then [] else chunks[j] + Flatten(chunks, j + 1, end)
  }

  lemma {:induction false} FlattenSplit(chunks: seq<seq<byte>>, j: nat, m: nat, end: nat)
    requires j <= m <= end <= |chunks|
    ensures Flatten(chunks, j, end) == Flatten(chunks, j, m) + Flatten(chunks, m, end)
    decreases m - j
  {
    if j < m { FlattenSplit(chunks, j + 1, m, end); }
  }

  ghost predicate SheetSpells(e: Endian, sheet: Sheet, chunks: seq<seq<byte>>) {
    && sheet.Valid() && |chunks| == |sheet.fields|
    && (forall j :: 0 <= j < |chunks| ==> Spells(e, sheet.fields[j], chunks[j]))
    && (forall k :: 0 <= k < |sheet.labels| ==> forall i :: 0 <= i < |sheet.labels[k]| ==> sheet.labels[k][i] != ' ')
  }

  lemma {:induction false} DecodeFields(e: Endian, sheet: Sheet, chunks: seq<seq<byte>>, j: nat, end: nat, t: string)
    requires SheetSpells(e, sheet, chunks) && j <= end <= |chunks|
    requires t != "" && !IsHex(t[0])
    ensures Decode(e, sheet.Fields(j, end) + t) == Append(Flatten(chunks, j, end), Decode(e, t))
    decreases end - j
  {
    if j == end {
      assert sheet.Fields(j, end) + t == t;
      AppendTwice([], [], Decode(e, t));
    } else {
      var more := sheet.Fields(j + 1, end);
      assert sheet.Fields(j, end) + t == sheet.fields[j] + (more + t);
      if j + 1 < end { FieldsStart(e, sheet, chunks, j + 1, end); }
      assert !IsHex((more + t)[0]);
      DecodeSpelled(e, sheet.fields[j], chunks[j], more + t);
      DecodeFields(e, sheet, chunks, j + 1, end, t);
      AppendTwice(chunks[j], Flatten(chunks, j + 1, end), Decode(e, t));
    }
  }

  lemma FieldsStart(e: Endian, sheet: Sheet, chunks: seq<seq<byte>>, j: nat, end: nat)
    requires SheetSpells(e, sheet, chunks) && j < end <= |chunks|
    ensures sheet.Fields(j, end) != "" && sheet.Fields(j, end)[0] == ' '
  {
    assert Spells(e, sheet.fields[j], chunks[j]);
  }

  lemma DecodeSpelled(e: Endian, text: string, chunk: seq<byte>, t: string)
    requires Spells(e, text, chunk) && (t == "" || !IsHex(t[0]))
    ensures Decode(e, text + t) == Append(chunk, Decode(e, t))
  {
  }

  lemma AppendTwice(a: seq<byte>, b: seq<byte>, o: Option<seq<byte>>)
    ensures Append(a, Append(b, o)) == Append(a + b, o)
    ensures Append([], o) == o
  {
    if o.Some? {
      assert a + (b + o.value) == a + b + o.value;
      assert [] + o.value == o.value;
    }
  }

  lemma {:induction false} DecodeLines(e: Endian, sheet: Sheet, chunks: seq<seq<byte>>, k: nat)
    requires SheetSpells(e, sheet, chunks) && k <= |sheet.labels|
    ensures Decode(e, sheet.LinesFrom(k)) == Some(Flatten(chunks, 4 * k, |chunks|))
    decreases |sheet.labels| - k
  {
    if k < |sheet.labels| {
      var j, end, more := 4 * k, LineEnd(|chunks|, k), sheet.LinesFrom(k + 1);
      sheet.LineUnfolds(k);
      DecodeSkips(e, sheet.labels[k], sheet.Tail(j, k));
      DecodeFields(e, sheet, chunks, j, end, "\n" + more);
      DecodeLines(e, sheet, chunks, k + 1);
      DecodeSkips(e, "\n", more);
      FlattenSplit(chunks, j, end, |chunks|);
      assert Flatten(chunks, 4 * (k + 1), |chunks|) == Flatten(chunks, end, |chunks|);
    }
  }

  /** The fields tile the dumped bytes. */
  lemma {:induction false} FieldsTile(bs: seq<byte>, j: nat)
    requires j <= FieldCount(|bs|)
    ensures Flatten(FieldsOf(bs), j, FieldCount(|bs|)) == bs[FieldOffset(|bs|, j)..]
    decreases FieldCount(|bs|) - j
  {
    if j < FieldCount(|bs|) {
      FieldsTile(bs, j + 1);
      assert bs[FieldOffset(|bs|, j)..] == Field(bs, j) + bs[FieldOffset(|bs|, j + 1)..];
    }
  }

  lemma SheetOfSpells(e: Endian, bs: seq<byte>, base: nat)
    ensures SheetSpells(e, SheetOf(e, bs, base), FieldsOf(bs))
  {
    var sheet := SheetOf(e, bs, base);
    forall j | 0 <= j < |sheet.fields| ensures Spells(e, sheet.fields[j], FieldsOf(bs)[j]) {
      FieldSpells(e, Field(bs, j));
    }
    forall k | 0 <= k < |sheet.labels|
      ensures forall i :: 0 <= i < |sheet.labels[k]| ==> sheet.labels[k][i] != ' '
    {
      PrefixedHexPlain((base + FieldOffset(|bs|, 4 * k)) % Pow2(64), 16);
    }
  }

  /** Reading a dump back gives exactly the dumped bytes, each once and in order. */
  lemma DecodeDump(e: Endian, bs: seq<byte>, base: nat)
    ensures Decode(e, DumpText(e, bs, base)) == Some(bs)
  {
    SheetOfSpells(e, bs, base);
    DecodeLines(e, SheetOf(e, bs, base), FieldsOf(bs), 0);
    FieldsTile(bs, 0);
  }

  /** Equal dumps come from equal memory, and from the same address unless they are empty. */
  lemma DumpInjective(e: Endian, bs: seq<byte>, base: nat, bs': seq<byte>, base': nat)
    requires base < Pow2(64) && base' < Pow2(64)
    ensures DumpText(e, bs, base) == DumpText(e, bs', base') ==> bs == bs' && (bs != [] ==> base == base')
  {
    hide DumpText, Decode, Scan, Pow2;
    DecodeDump(e, bs, base);
    DecodeDump(e, bs', base');
    if bs != [] { DumpStart(e, bs, base); }
    if bs' != [] { DumpStart(e, bs', base'); }
  }

  lemma DumpStart(e: Endian, bs: seq<byte>, base: nat)
    requires bs != [] && base < Pow2(64)
    ensures Scan(DumpText(e, bs, base), 0).magnitude == base
  {
    hide Scan, PadHex, Load, Sheet.Tail;
    var sheet := SheetOf(e, bs, base);
    var tail := sheet.Tail(0, 0);
    sheet.TextStarts();
    assert sheet.labels[0] == PrefixedHex(base, 16, false) + ":" by {
      ModUnique(base, Pow2(64), 0, base);
    }
    LabelScans(base, tail);
  }

  /** The dump of n bytes has as many lines as it takes, and each starts with the address of its first
      byte: four words are 16 bytes, and behind the words every field is one byte. */
  ghost predicate LinesTellAddresses(text: string, address: nat, n: nat) {
    && Lines(text).Some?
    && var lines := Lines(text).value;
       && |lines| == (n / 4 + n % 4 + 3) / 4
       && forall k :: 0 <= k < |lines| ==>
            var first := if 4 * k <= n / 4 then 16 * k else 4 * (n / 4) + (4 * k - n / 4);
            Scan(lines[k], 0).magnitude == (address + first) % 0x1_0000_0000_0000_0000
  }

  lemma LineAddresses(e: Endian, bs: seq<byte>, base: nat)
    ensures LinesTellAddresses(DumpText(e, bs, base), base, |bs|)
  {
    hide DumpText, SheetOf, Scan, Sheet.Fields, PrefixedHex, Pow2, Lines;
    DumpLines(e, bs, base);
    WordSizes();
    var sheet, lines, n := SheetOf(e, bs, base), Lines(DumpText(e, bs, base)).value, |bs|;
    forall k | 0 <= k < |lines|
      ensures Scan(lines[k], 0).magnitude == (base + FieldOffset(n, 4 * k)) % Pow2(64)
    {
      LabelScans((base + FieldOffset(n, 4 * k)) % Pow2(64), sheet.Fields(4 * k, LineEnd(|sheet.fields|, k)));
    }
  }

  lemma LabelScans(base: nat, tail: string)
    ensures Scan(PrefixedHex(base, 16, false) + ":" + tail, 0).magnitude == base
  {
    assert PrefixedHex(base, 16, false) + ":" + tail == PrefixedHex(base, 16, false) + (":" + tail);
    ScanPrefixedHex(base, 16, false, ":" + tail);
  }

  /** A dump of five bytes as it looks on a little-endian host. */
  lemma DumpExample()
    ensures DumpText(Little, [0xbb, 0xaa, 0x22, 0x11, 0xcc], 0x1010)
         == "0x0000000000001010: 0x1122aabb 0xcc\n"
  {
    hide PrefixedHex, SheetOf;
    ExampleSheet();
    ExampleParts();
    OneLine(SheetOf(Little, [0xbb, 0xaa, 0x22, 0x11, 0xcc], 0x1010));
  }

  lemma ExampleSheet()
    ensures SheetOf(Little, [0xbb, 0xaa, 0x22, 0x11, 0xcc], 0x1010)
         == Sheet([PrefixedHex(0x1010, 16, false) + ":"],
                  [" " + PrefixedHex(Load(Little, [0xbb, 0xaa, 0x22, 0x11]), 8, false),
                   " " + PrefixedHex(Load(Little, [0xcc]), 2, false)])
  {
    hide PrefixedHex, Load, Pow2;
    var bs: seq<byte> := [0xbb, 0xaa, 0x22, 0x11, 0xcc];
    WordSizes();
    assert Field(bs, 0) == [0xbb, 0xaa, 0x22, 0x11] && Field(bs, 1) == [0xcc];
    assert FieldCount(5) == 2 && LineCount(2) == 1;
  }

  lemma OneLine(sheet: Sheet)
    requires sheet.Valid() && |sheet.fields| == 2 && |sheet.labels| == 1
    ensures sheet.Text() == sheet.labels[0] + (sheet.fields[0] + (sheet.fields[1] + "")) + "\n" + ""
  {
    assert sheet.Fields(2, 2) == "" && sheet.LinesFrom(1) == "";
    assert sheet.Fields(0, 2) == sheet.fields[0] + (sheet.fields[1] + "");
  }

  lemma ExampleParts()
    ensures PrefixedHex(0x1010, 16, false) == "0x0000000000001010"
    ensures PrefixedHex(Load(Little, [0xbb, 0xaa, 0x22, 0x11]), 8, false) == "0x1122aabb"
    ensures PrefixedHex(Load(Little, [0xcc]), 2, false) == "0xcc"
  {
    hide Load, Hex;
    ExampleDigits();
    ExampleWord();
    ByteLoads(0xcc);
  }

  lemma ByteLoads(b: byte)
    ensures Load(Little, [b]) == b
  {
    var bs: seq<byte> := [b];
    assert bs[1..] == [] && FromLE(bs[1..]) == 0;
  }

  lemma ExampleWord()
    ensures Load(Little, [0xbb, 0xaa, 0x22, 0x11]) == 0x1122aabb
  {
    hide Pow2;
    WordSizes();
    FromToLE(0x1122aabb, 4);
    assert ToLE(0x1122, 2) == [0x22, 0x11];
    assert ToLE(0x1122aabb, 4) == [0xbb, 0xaa, 0x22, 0x11];
  }

  lemma ExampleDigits()
    ensures Hex(0x1010, false) == "1010" && Hex(0x1122aabb, false) == "1122aabb" && Hex(0xcc, false) == "cc"
  {
    TwoDigits(0x10, 1, 0, "1010");
    TwoDigits(0x11, 2, 2, "1122");
    TwoDigits(0x1122, 10, 10, "1122aa");
    TwoDigits(0x1122aa, 11, 11, "1122aabb");
  }

  lemma TwoDigits(v: nat, high: nat, low: nat, s: string)
    requires v > 0 && high < 16 && low < 16 && s == Hex(v, false) + [HexChar(high, false), HexChar(low, false)]
    ensures Hex(256 * v + 16 * high + low, false) == s
  {
  }
}
