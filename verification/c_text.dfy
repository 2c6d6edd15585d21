/**
 The conversions of the C library that the tools use, in the C locale: strtoul and its relatives
 (section 7.22.1.4 of ISO/IEC 9899:2011) and the %x conversions of printf.  A C string is the
 sequence of the characters before its terminator.
 */
module CText {
  import opened Bits

  datatype Option<+T> = None | Some(value: T)

  /** What a command leaves: its return code and what it printed. */
  datatype Output = Output(rc: int, out: string)

  /** A C string: no terminator inside. */
  type cstring = s: string | forall i :: 0 <= i < |s| ==> s[i] != '\0'

  /** Reading character i of a C string; the terminator is the last one that may be read. */
  function At(s: cstring, i: nat): (c: char)
    requires i <= |s|
    ensures c == '\0' <==> i == |s|
  {
    if i < |s| then s[i] else '\0'
  }

  predicate IsSpace(c: char) {
    c == ' ' || '\t' <= c <= '\r'
  }

  /** The value of a digit in the largest base, 36 for anything that is no digit. */
  function DigitValue(c: char): nat {
    if '0' <= c <= '9' then c as int - '0' as int
    else if 'a' <= c <= 'z' then c as int - 'a' as int + 10
    else if 'A' <= c <= 'Z' then c as int - 'A' as int + 10
    else 36
  }

  predicate IsDigit(c: char, base: nat) {
    DigitValue(c) < base
  }

  predicate IsHex(c: char) {
    IsDigit(c, 16)
  }

  predicate AllDigits(s: string, base: nat) {
    forall i :: 0 <= i < |s| ==> IsDigit(s[i], base)
  }

  function Value(s: string, base: nat): nat {
    if s == [] then 0 else Value(s[..|s| - 1], base) * base + DigitValue(s[|s| - 1])
  }

  function SkipSpaces(s: string, i: nat): (j: nat)
    requires i <= |s|
    ensures i <= j <= |s|
    ensures forall k :: i <= k < j ==> IsSpace(s[k])
    ensures j < |s| ==> !IsSpace(s[j])
    decreases |s| - i
  {
    if i < |s| && IsSpace(s[i]) then SkipSpaces(s, i + 1) else i
  }

  /** The end of the longest run of digits that starts at i. */
  function DigitEnd(s: string, i: nat, base: nat): (j: nat)
    requires i <= |s|
    ensures i <= j <= |s|
    ensures forall k :: i <= k < j ==> IsDigit(s[k], base)
    ensures j < |s| ==> !IsDigit(s[j], base)
    decreases |s| - i
  {
    if i < |s| && IsDigit(s[i], base) then DigitEnd(s, i + 1, base) else i
  }

  predicate IsPrefixX(s: string, i: nat) {
    i + 1 < |s| && s[i] == '0' && (s[i + 1] == 'x' || s[i + 1] == 'X')
  }

  /** What the strto functions find: a sign, a magnitude and where the number ends. */
  datatype Number = Number(negative: bool, magnitude: nat, end: nat)

  /** Is the number at j marked as hexadecimal? */
  predicate Marked(s: string, j: nat, base: nat) {
    (base == 0 || base == 16) && IsPrefixX(s, j) && j + 2 < |s| && IsHex(s[j + 2])
  }

  function BaseAt(s: string, j: nat, base: nat): nat {
    if Marked(s, j, base) then 16 else if base != 0 then base else if j < |s| && s[j] == '0' then 8 else 10
  }

  function Scan(s: string, base: nat): Number {
    var i := SkipSpaces(s, 0);
    var negative := i < |s| && s[i] == '-';
    var j := if i < |s| && (s[i] == '-' || s[i] == '+') then i + 1 else i;
    var k := if Marked(s, j, base) then j + 2 else j;
    var b := BaseAt(s, j, base);
    var e := DigitEnd(s, k, b);
    if e == k then Number(false, 0, 0) else Number(negative, Value(s[k..e], b), e)
  }

  /** The value strtoul returns when unsigned long has the given width; strtoull is width 64. */
  function UnsignedOf(n: Number, bits: nat): (v: nat)
    ensures v < Pow2(bits)
  {
    if n.magnitude >= Pow2(bits) then Pow2(bits) - 1
    else if n.negative && n.magnitude != 0 then Pow2(bits) - n.magnitude
    else n.magnitude
  }

  function Strtoul(s: string, base: nat, bits: nat): (v: nat)
    ensures v < Pow2(bits)
  {
    UnsignedOf(Scan(s, base), bits)
  }

  function Strtoull(s: string): (v: nat)
    ensures v < Pow2(64)
  {
    Strtoul(s, 0, 64)
  }

  /** The value strtol returns when long has the given width. */
  function Strtol(s: string, base: nat, bits: nat): int
    requires bits > 0
  {
    var n := Scan(s, base);
    var top: int, m: int := Pow2(bits - 1), n.magnitude;
    if n.negative then (if m > top then -top else -m)
    else if m >= top then top - 1
    else m
  }

  function HexChar(d: nat, upper: bool): (c: char)
    requires d < 16
    ensures DigitValue(c) == d
    ensures c != ' ' && c != '\n'
  {
    if d < 10 then ('0' as int + d) as char
    else if upper then ('A' as int + d - 10) as char
    else ('a' as int + d - 10) as char
  }

  /** %x and %X. */
  function Hex(v: nat, upper: bool): (s: string)
    ensures |s| > 0
  {
    if v < 16 then [HexChar(v, upper)] else Hex(v / 16, upper) + [HexChar(v % 16, upper)]
  }

  function Zeros(n: nat): (s: string)
    ensures |s| == n
    ensures forall i :: 0 <= i < n ==> s[i] == '0'
  {
    seq(n, _ => '0')
  }

  /** %0<width>x and %0<width>X. */
  function PadHex(v: nat, width: nat, upper: bool): (s: string)
    ensures |s| > 0 && |s| >= width
  {
    var h := Hex(v, upper);
    if |h| < width then Zeros(width - |h|) + h else h
  }

  function PrefixedHex(v: nat, width: nat, upper: bool): string {
    "0x" + PadHex(v, width, upper)
  }

  lemma {:induction false} HexDigits(v: nat, upper: bool)
    ensures AllDigits(Hex(v, upper), 16)
    ensures Value(Hex(v, upper), 16) == v
  {
    if v < 16 {
      assert Hex(v, upper)[..0] == [];
    } else {
      HexDigits(v / 16, upper);
      var s := Hex(v, upper);
      assert s[..|s| - 1] == Hex(v / 16, upper);
    }
  }

  /** The digits of %x and of %X. */
  function Alphabet(upper: bool): string {
    if upper then "0123456789ABCDEF" else "0123456789abcdef"
  }

  /** %x prints lower-case digits, %X capitals, and neither starts a longer number with a zero. */
  lemma {:induction false} HexSpelling(v: nat, upper: bool)
    ensures forall i :: 0 <= i < |Hex(v, upper)| ==> Hex(v, upper)[i] in Alphabet(upper)
    ensures v > 0 ==> Hex(v, upper)[0] != '0'
    ensures v == 0 ==> Hex(v, upper) == "0"
  {
    if v < 16 {
      AlphabetAt(v, upper);
    } else {
      AlphabetAt(v % 16, upper);
      HexSpelling(v / 16, upper);
    }
  }

  lemma AlphabetAt(d: nat, upper: bool)
    requires d < 16
    ensures HexChar(d, upper) == Alphabet(upper)[d]
  {
  }

  /** Padding adds zeros in front and nothing else. */
  lemma PadHexSpelling(v: nat, width: nat, upper: bool)
    ensures var s := PadHex(v, width, upper);
            && (forall i :: 0 <= i < |s| ==> s[i] in Alphabet(upper))
            && (|s| > width && v > 0 ==> s[0] != '0')
  {
    HexSpelling(v, upper);
    assert Alphabet(upper)[0] == '0';
  }

  lemma {:induction false} LeadingZeros(n: nat, s: string)
    ensures Value(Zeros(n) + s, 16) == Value(s, 16)
    decreases n + |s|
  {
    var t := Zeros(n) + s;
    if s != [] {
      assert t[..|t| - 1] == Zeros(n) + s[..|s| - 1];
      LeadingZeros(n, s[..|s| - 1]);
    } else if n > 0 {
      assert t[..|t| - 1] == Zeros(n - 1) + [];
      LeadingZeros(n - 1, []);
    }
  }

  /** The padded text is made of digits alone and they spell v. */
  lemma PadHexDigits(v: nat, width: nat, upper: bool)
    ensures AllDigits(PadHex(v, width, upper), 16)
    ensures Value(PadHex(v, width, upper), 16) == v
  {
    var h := Hex(v, upper);
    HexDigits(v, upper);
    if |h| < width { LeadingZeros(width - |h|, h); }
  }

  lemma {:induction false} HexLength(v: nat, digits: nat, upper: bool)
    requires digits > 0
    ensures |Hex(v, upper)| <= digits <==> v < Pow2(4 * digits)
    decreases digits
  {
    Pow2Add(4, 4 * (digits - 1));
    assert Pow2(4) == 16 && Pow2(4 * digits) == 16 * Pow2(4 * (digits - 1));
    if digits > 1 && v >= 16 {
      HexLength(v / 16, digits - 1, upper);
    } else if v < 16 {
      assert Pow2(4 * (digits - 1)) >= 1;
    }
  }

  /** The padded text has exactly the asked width whenever the value fits it. */
  lemma PadHexLength(v: nat, width: nat, upper: bool)
    requires width > 0
    ensures |PadHex(v, width, upper)| == width <==> v < Pow2(4 * width)
  {
    HexLength(v, width, upper);
  }

  /** A number as strtoul takes it with base 0: hexadecimal digits behind a mark, octal digits of
      which the first is 0, or decimal digits of which the first is not. */
  predicate Spelled(mark: string, digits: string, base: nat) {
    && digits != "" && AllDigits(digits, base)
    && (|| (base == 16 && (mark == "0x" || mark == "0X"))
        || (base == 8 && mark == "" && digits[0] == '0')
        || (base == 10 && mark == "" && digits[0] != '0'))
  }

  /** The text behind a number is no part of it: it starts with no digit of the base, and it does
      not make a single 0 the mark of a hexadecimal number. */
  predicate Ends(digits: string, rest: string, base: nat) {
    && (rest == "" || !IsDigit(rest[0], base))
    && (digits == "0" && base == 8 && |rest| > 1 && (rest[0] == 'x' || rest[0] == 'X') ==> !IsHex(rest[1]))
  }

  /** strtoul with base 0: blanks, a sign and the digits of a hexadecimal number behind 0x, of an
      octal number behind 0, or of a decimal number, up to whatever ends it. */
  lemma ScanReads(blanks: string, sign: string, mark: string, digits: string, base: nat, rest: string)
    requires forall i :: 0 <= i < |blanks| ==> IsSpace(blanks[i])
    requires sign == "" || sign == "+" || sign == "-"
    requires Spelled(mark, digits, base) && Ends(digits, rest, base)
    ensures var head := blanks + sign + mark + digits;
            Scan(head + rest, 0) == Number(sign == "-", Value(digits, base), |head|)
  {
    hide Value, SkipSpaces, DigitEnd, Scan, Marked, Spelled, Ends, IsSpace;
    var s, k := blanks + sign + (mark + digits + rest), |blanks| + |sign| + |mark|;
    LeadPlaced(blanks, sign, mark, digits, base, rest);
    NumberPlaced(blanks, sign, mark, digits, base, rest);
    ScanPlaced(s, |blanks|, sign, base, k + |digits|);
  }

  lemma LeadPlaced(blanks: string, sign: string, mark: string, digits: string, base: nat, rest: string)
    requires forall i :: 0 <= i < |blanks| ==> IsSpace(blanks[i])
    requires sign == "" || sign == "+" || sign == "-"
    requires Spelled(mark, digits, base) && Ends(digits, rest, base)
    ensures var s := blanks + sign + (mark + digits + rest);
            && |blanks| + |sign| < |s| && SkipSpaces(s, 0) == |blanks|
            && (if sign == "" then s[|blanks|] != '-' && s[|blanks|] != '+' else s[|blanks|] == sign[0])
  {
    hide Marked, IsSpace, IsDigit, AllDigits, Ends;
    MarkedDigits(mark, digits, base, rest);
    SkipLead(blanks, sign, mark + digits + rest);
  }

  lemma NumberPlaced(blanks: string, sign: string, mark: string, digits: string, base: nat, rest: string)
    requires Spelled(mark, digits, base) && Ends(digits, rest, base)
    ensures var s := blanks + sign + (mark + digits + rest);
            var j := |blanks| + |sign|; var k := j + |mark|;
            && s == blanks + sign + mark + digits + rest && |mark| == (if base == 16 then 2 else 0)
            && k < k + |digits| <= |s| && s[k..k + |digits|] == digits
            && DigitEnd(s, k, base) == k + |digits|
            && Marked(s, j, 0) == (base == 16)
            && (base == 16 || base == if s[j] == '0' then 8 else 10)
  {
    hide Marked, IsDigit, DigitEnd;
    var s := blanks + sign + (mark + digits + rest);
    Slices(blanks, sign, mark, digits, rest);
    MarkedDigits(mark, digits, base, rest);
    DigitsPlaced(s, |blanks| + |sign| + |mark|, digits, base);
  }

  /** A text that is a number from end to end. */
  predicate IsNumeral(s: string, blanks: string, sign: string, mark: string, digits: string, base: nat) {
    && s == blanks + sign + mark + digits
    && (forall i :: 0 <= i < |blanks| ==> IsSpace(blanks[i]))
    && (sign == "" || sign == "+" || sign == "-")
    && Spelled(mark, digits, base)
  }

  /** The texts that strtoul with base 0 consumes to their end: besides the empty one, exactly the
      numbers, and their parts give the value. */
  lemma ScansWholeIff(s: string)
    requires s != ""
    ensures Scan(s, 0).end == |s| <==>
              exists blanks, sign, mark, digits, base :: IsNumeral(s, blanks, sign, mark, digits, base)
    ensures forall blanks, sign, mark, digits, base | IsNumeral(s, blanks, sign, mark, digits, base) ::
              Scan(s, 0) == Number(sign == "-", Value(digits, base), |s|)
  {
    hide Scan, Value, Spelled, IsSpace;
    if Scan(s, 0).end == |s| {
      var blanks, sign, mark, digits, base := ScanParts(s);
    }
    forall blanks, sign, mark, digits, base | IsNumeral(s, blanks, sign, mark, digits, base)
      ensures Scan(s, 0) == Number(sign == "-", Value(digits, base), |s|)
    {
      assert Ends(digits, "", base);
      ScanReads(blanks, sign, mark, digits, base, "");
      assert s + "" == s;
    }
  }

  lemma ScanParts(s: string) returns (blanks: string, sign: string, mark: string, digits: string, base: nat)
    requires s != "" && Scan(s, 0).end == |s|
    ensures IsNumeral(s, blanks, sign, mark, digits, base)
  {
    hide Value, IsSpace, IsDigit, Scan, SkipSpaces, Marked, BaseAt, IsPrefixX;
    var i := SkipSpaces(s, 0);
    var j := if i < |s| && (s[i] == '-' || s[i] == '+') then i + 1 else i;
    var k := if Marked(s, j, 0) then j + 2 else j;
    base := BaseAt(s, j, 0);
    ScanEnds(s, i, j, k);
    blanks, sign, mark, digits := s[..i], s[i..j], s[j..k], s[k..];
    FourParts(s, i, j, k);
    PartsSpelled(s, j, k);
  }

  /** A scan to the end found digits from behind the mark on. */
  lemma ScanEnds(s: string, i: nat, j: nat, k: nat)
    requires s != "" && Scan(s, 0).end == |s| && i == SkipSpaces(s, 0)
    requires j == if i < |s| && (s[i] == '-' || s[i] == '+') then i + 1 else i
    requires k == if Marked(s, j, 0) then j + 2 else j
    ensures i <= j <= k < |s| && forall m :: k <= m < |s| ==> IsDigit(s[m], BaseAt(s, j, 0))
  {
    hide Value, SkipSpaces, BaseAt, IsDigit;
    assert DigitEnd(s, k, BaseAt(s, j, 0)) == |s|;
  }

  lemma FourParts(s: string, i: nat, j: nat, k: nat)
    requires i <= j <= k <= |s|
    ensures s == s[..i] + s[i..j] + s[j..k] + s[k..]
  {
  }

  lemma PartsSpelled(s: string, j: nat, k: nat)
    requires k == (if Marked(s, j, 0) then j + 2 else j) && k < |s|
    requires forall m :: k <= m < |s| ==> IsDigit(s[m], BaseAt(s, j, 0))
    ensures Spelled(s[j..k], s[k..], BaseAt(s, j, 0))
  {
    hide DigitValue;
    assert forall m :: 0 <= m < |s[k..]| ==> s[k..][m] == s[k + m];
  }

  /** Scan, once it is known where the blanks and the digits end. */
  lemma ScanPlaced(s: string, i: nat, sign: string, base: nat, end: nat)
    requires SkipSpaces(s, 0) == i && i + |sign| < |s|
    requires sign == "" || sign == "+" || sign == "-"
    requires if sign == "" then s[i] != '-' && s[i] != '+' else s[i] == sign[0]
    requires var k := i + |sign| + if base == 16 then 2 else 0;
             k <= |s| && k < end && DigitEnd(s, k, base) == end
    requires Marked(s, i + |sign|, 0) == (base == 16)
    requires base == 16 || base == if s[i + |sign|] == '0' then 8 else 10
    ensures var k := i + |sign| + if base == 16 then 2 else 0;
            Scan(s, 0) == Number(sign == "-", Value(s[k..end], base), end)
  {
    hide Value, SkipSpaces, DigitEnd, Marked;
    assert BaseAt(s, i + |sign|, 0) == base;
  }

  lemma DigitsPlaced(s: string, k: nat, digits: string, base: nat)
    requires k + |digits| <= |s| && s[k..k + |digits|] == digits && digits != "" && AllDigits(digits, base)
    requires k + |digits| < |s| ==> !IsDigit(s[k + |digits|], base)
    ensures DigitEnd(s, k, base) == k + |digits| && s[k] == digits[0] && IsDigit(s[k], base)
  {
    DigitRun(s, k, digits, base);
    assert s[k] == digits[0] && IsDigit(digits[0], base);
  }

  lemma TailMarked(s: string, j: nat, tail: string)
    requires |s| == j + |tail| && tail != "" && forall i :: 0 <= i < |tail| ==> s[j + i] == tail[i]
    ensures Marked(s, j, 0) == Marked(tail, 0, 0)
  {
    assert s[j + 0] == tail[0];
    if |tail| > 1 { assert s[j + 1] == tail[1]; }
    if |tail| > 2 { assert s[j + 2] == tail[2]; }
  }

  /** The parts of a number, found again in the whole text. */
  lemma Slices(a: string, b: string, c: string, d: string, e: string)
    requires c + d + e != ""
    ensures a + b + c + d + e == a + b + (c + d + e)
    ensures var s, tail := a + b + (c + d + e), c + d + e;
            var j := |a| + |b|; var k := j + |c|;
            && |s| == j + |tail| && |tail| == |c| + |d| + |e|
            && Marked(s, j, 0) == Marked(tail, 0, 0)
            && s[k..k + |d|] == d && (e != "" ==> s[k + |d|] == e[0])
  {
    hide Marked;
    var s, tail := a + b + (c + d + e), c + d + e;
    TailMarked(s, |a| + |b|, tail);
  }

  lemma SkipLead(blanks: string, sign: string, tail: string)
    requires forall i :: 0 <= i < |blanks| ==> IsSpace(blanks[i])
    requires sign == "" || sign == "+" || sign == "-"
    requires tail != "" && IsHex(tail[0])
    ensures var s := blanks + sign + tail;
            && SkipSpaces(s, 0) == |blanks|
            && s[|blanks|] == if sign == "" then tail[0] else sign[0]
  {
    var s := blanks + sign + tail;
    assert forall i :: 0 <= i < |blanks| ==> s[i] == blanks[i];
    assert s[|blanks|] == if sign == "" then tail[0] else sign[0];
    assert !IsSpace(s[|blanks|]);
    assert SkipSpaces(s, 0) <= |blanks|;
  }

  /** A mark is seen exactly before hexadecimal digits. */
  lemma MarkedDigits(mark: string, digits: string, base: nat, rest: string)
    requires Spelled(mark, digits, base) && Ends(digits, rest, base)
    ensures var tail := mark + digits + rest;
            && IsHex(tail[0]) && tail[0] != '-' && tail[0] != '+'
            && Marked(tail, 0, 0) == (base == 16)
            && (base != 16 ==> tail[0] == digits[0])
  {
    var tail := mark + digits + rest;
    assert forall i :: 0 <= i < |digits| ==> tail[|mark| + i] == digits[i];
    assert forall i :: 0 <= i < |rest| ==> tail[|mark| + |digits| + i] == rest[i];
    if base == 16 {
      assert IsHex(tail[2 + 0]);
    } else if 1 < |digits| {
      assert IsDigit(tail[0 + 1], base);
    } else {
      assert digits[0] == '0' ==> digits == "0";
    }
  }

  /** In particular it reads back any 0x-prefixed print. */
  lemma ScanPrefixedHex(v: nat, width: nat, upper: bool, rest: string)
    requires rest == [] || !IsHex(rest[0])
    ensures Scan(PrefixedHex(v, width, upper) + rest, 0) == Number(false, v, |PrefixedHex(v, width, upper)|)
  {
    hide PadHex, Value;
    PadHexDigits(v, width, upper);
    ScanReads("", "", "0x", PadHex(v, width, upper), 16, rest);
    assert "" + "" + "0x" + PadHex(v, width, upper) == PrefixedHex(v, width, upper);
  }

  /** Without a digit behind the blanks and the sign there is no number, and nothing is consumed. */
  lemma ScanFindsNothing(blanks: string, sign: string, rest: string)
    requires forall i :: 0 <= i < |blanks| ==> IsSpace(blanks[i])
    requires sign == "" || sign == "+" || sign == "-"
    requires rest == "" || !IsDigit(rest[0], 10)
    requires sign == "" && rest != "" ==> !IsSpace(rest[0]) && rest[0] != '+' && rest[0] != '-'
    ensures Scan(blanks + sign + rest, 0) == Number(false, 0, 0)
  {
    hide Value;
    var s, j := blanks + sign + rest, |blanks| + |sign|;
    assert forall i :: 0 <= i < |blanks| ==> s[i] == blanks[i];
    assert sign != "" ==> s[|blanks|] == sign[0];
    assert rest != "" ==> s[j] == rest[0];
    assert SkipSpaces(s, 0) == |blanks|;
    assert DigitEnd(s, j, BaseAt(s, j, 0)) == j;
  }

  // ----- Numbers as they are typed

  /** The text is v without a minus sign, in any of the bases of strtoul. */
  ghost predicate Denotes(s: string, v: nat) {
    exists blanks, sign, mark, digits, base ::
      IsNumeral(s, blanks, sign, mark, digits, base) && sign != "-" && Value(digits, base) == v
  }

  lemma PrintDenotes(v: nat, width: nat, upper: bool)
    ensures Denotes(PrefixedHex(v, width, upper), v)
  {
    hide Value, PadHex;
    PadHexDigits(v, width, upper);
    var digits := PadHex(v, width, upper);
    assert digits != "";
    assert PrefixedHex(v, width, upper) == "" + "" + "0x" + digits;
    assert IsNumeral(PrefixedHex(v, width, upper), "", "", "0x", digits, 16);
  }

  /** A number read to its end is what was typed while it fits the type, and the largest value of
      the type from there on. */
  lemma DenotedValue(s: string, v: nat, bits: nat)
    requires Denotes(s, v) && bits > 0
    ensures Scan(s, 0) == Number(false, v, |s|)
    ensures Strtoul(s, 0, bits) == if v < Pow2(bits) then v else Pow2(bits) - 1
    ensures Strtol(s, 0, bits) == if v < Pow2(bits - 1) then v else Pow2(bits - 1) - 1
  {
    hide Scan, Value, Spelled;
    var blanks, sign, mark, digits, base :|
      IsNumeral(s, blanks, sign, mark, digits, base) && sign != "-" && Value(digits, base) == v;
    NumeralScans(s, blanks, sign, mark, digits, base);
  }

  lemma NumeralScans(s: string, blanks: string, sign: string, mark: string, digits: string, base: nat)
    requires IsNumeral(s, blanks, sign, mark, digits, base)
    ensures Scan(s, 0) == Number(sign == "-", Value(digits, base), |s|)
  {
    hide Scan, Value, IsSpace, AllDigits;
    assert digits != "";
    ScansWholeIff(s);
  }

  /** v is -m modulo size, or the largest value below size when m is out of range. */
  predicate Negates(v: nat, m: nat, size: nat)
    requires size > 0
  {
    if m < size then v < size && (v + m) % size == 0 else v == size - 1
  }

  /** An unsigned type wraps a negative number round unless its magnitude is out of range; a signed
      type keeps it, or gives the least value it has. */
  lemma NegativeValue(s: string, blanks: string, mark: string, digits: string, base: nat, bits: nat)
    requires IsNumeral(s, blanks, "-", mark, digits, base) && bits > 0
    ensures Negates(Strtoul(s, 0, bits), Value(digits, base), Pow2(bits))
    ensures var m: int, top: int := Value(digits, base), Pow2(bits - 1);
            Strtol(s, 0, bits) == if m <= top then -m else -top
  {
    hide Scan, Value, IsNumeral, UnsignedOf, Negates;
    NumeralScans(s, blanks, "-", mark, digits, base);
    NegativeWraps(Value(digits, base), |s|, bits);
  }

  lemma NegativeWraps(m: nat, end: nat, bits: nat)
    ensures Negates(UnsignedOf(Number(true, m, end), bits), m, Pow2(bits))
  {
    hide Pow2;
    var size, v := Pow2(bits), UnsignedOf(Number(true, m, end), bits);
    if m < size { ModUnique(v + m, size, if m == 0 then 0 else 1, 0); }
  }

  lemma DigitRun(s: string, i: nat, digits: string, base: nat)
    requires i + |digits| <= |s| && s[i..i + |digits|] == digits && AllDigits(digits, base)
    requires i + |digits| < |s| ==> !IsDigit(s[i + |digits|], base)
    ensures DigitEnd(s, i, base) == i + |digits|
  {
    forall k | i <= k < i + |digits| ensures IsDigit(s[k], base) {
      assert s[k] == digits[k - i];
    }
  }

  lemma ParsePrinted(v: nat, width: nat, upper: bool, bits: nat)
    requires v < Pow2(bits)
    ensures Scan(PrefixedHex(v, width, upper), 0).end == |PrefixedHex(v, width, upper)|
    ensures Strtoul(PrefixedHex(v, width, upper), 0, bits) == v
  {
    ScanPrefixedHex(v, width, upper, []);
    assert PrefixedHex(v, width, upper) + [] == PrefixedHex(v, width, upper);
  }
}
