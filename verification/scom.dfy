/**
 scom.c: the file offset that stands for a SCOM address.  File offsets are signed, so the mark of an
 indirect address, bit 63, travels in bit 62 of the offset.
 */
module Scom {
  import opened Bits

  /** The offset as the unsigned word that is computed, before it becomes a signed off64_t. */
  function OffsetWord(scom: nat): nat {
    var shifted := Combine(And, scom, Pow2(63) - 1) * 8 % Pow2(64);
    if Combine(And, scom, Pow2(63)) != 0 then Combine(Or, shifted, Pow2(62)) else shifted
  }

  function Offset(scom: nat): int {
    var w: int := OffsetWord(scom);
    if w >= Pow2(63) then w - Pow2(64) else w
  }

  /** The address an offset stands for: shift right by three, move bit 59 to bit 63. */
  function Address(offset: nat): nat {
    var t := offset / 8;
    if Bit(t, 59) then t - t / Pow2(59) % 2 * Pow2(59) + Pow2(63) else t
  }

  /** The five high bits of an address and the 59 low ones. */
  datatype Parts = Parts(low: nat, b59: nat, b60: nat, b61: nat, b62: nat, b63: nat) {
    predicate Valid() {
      low < 0x0800_0000_0000_0000 && b59 < 2 && b60 < 2 && b61 < 2 && b62 < 2 && b63 < 2
    }

    function Word(): nat {
      low + 0x0800_0000_0000_0000 * b59 + 0x1000_0000_0000_0000 * b60 + 0x2000_0000_0000_0000 * b61
      + 0x4000_0000_0000_0000 * b62 + 0x8000_0000_0000_0000 * b63
    }
  }

  function Split(scom: nat): (p: Parts)
    requires scom < Pow2(64)
    ensures p.Valid() && p.Word() == scom
  {
    Powers();
    var h := scom / 0x0800_0000_0000_0000;
    FiveBits(h);
    Parts(scom % 0x0800_0000_0000_0000, h % 2, h / 2 % 2, h / 4 % 2, h / 8 % 2, h / 16)
  }

  lemma FiveBits(h: nat)
    requires h < 32
    ensures h / 16 < 2 && h == h % 2 + 2 * (h / 2 % 2) + 4 * (h / 4 % 2) + 8 * (h / 8 % 2) + 16 * (h / 16)
  {
  }

  lemma Powers()
    ensures Pow2(59) == 0x0800_0000_0000_0000 && Pow2(60) == 0x1000_0000_0000_0000 && Pow2(61) == 0x2000_0000_0000_0000
    ensures Pow2(62) == 0x4000_0000_0000_0000 && Pow2(63) == 0x8000_0000_0000_0000
    ensures Pow2(64) == 0x1_0000_0000_0000_0000
  {
    WordSizes();
    assert Pow2(63) == 2 * Pow2(62) && Pow2(62) == 2 * Pow2(61) && Pow2(61) == 2 * Pow2(60) && Pow2(60) == 2 * Pow2(59);
  }

  lemma PartsAreBits(p: Parts)
    requires p.Valid()
    ensures Bit(p.Word(), 59) == (p.b59 == 1) && Bit(p.Word(), 60) == (p.b60 == 1)
    ensures Bit(p.Word(), 61) == (p.b61 == 1) && Bit(p.Word(), 62) == (p.b62 == 1)
    ensures Bit(p.Word(), 63) == (p.b63 == 1)
  {
    hide Bit, Pow2;
    Powers();
    var w, high := p.Word(), p.b61 + 2 * p.b62 + 4 * p.b63;
    var rest59 := p.low;
    var rest60 := rest59 + 0x0800_0000_0000_0000 * p.b59;
    var rest61 := rest60 + 0x1000_0000_0000_0000 * p.b60;
    var rest62 := rest61 + 0x2000_0000_0000_0000 * p.b61;
    var rest63 := rest62 + 0x4000_0000_0000_0000 * p.b62;
    BitIs(w, 59, 0x0800_0000_0000_0000, p.b59 + 2 * (p.b60 + 2 * high), rest59);
    BitIs(w, 60, 0x1000_0000_0000_0000, p.b60 + 2 * high, rest60);
    BitIs(w, 61, 0x2000_0000_0000_0000, high, rest61);
    BitIs(w, 62, 0x4000_0000_0000_0000, p.b62 + 2 * p.b63, rest62);
    BitIs(w, 63, 0x8000_0000_0000_0000, p.b63, rest63);
  }

  lemma BitIs(w: nat, i: nat, p: nat, q: nat, rest: nat)
    requires p == Pow2(i) && w == q * p + rest && rest < p
    ensures Bit(w, i) == (q % 2 == 1)
  {
    BitDiv(w, i);
    ModUnique(w, p, q, rest);
  }

  /** What the masks and shifts come to. */
  lemma OffsetArithmetic(p: Parts)
    requires p.Valid()
    ensures OffsetWord(p.Word())
         == 8 * (p.low + 0x1000_0000_0000_0000 * p.b60
                 + 0x0800_0000_0000_0000 * (if p.b59 == 1 || p.b63 == 1 then 1 else 0))
  {
    hide Bit, Pow2, Combine;
    Powers();
    var w := p.Word();
    PartsAreBits(p);
    MaskTests(w, 63);
    var masked := Combine(And, w, Pow2(63) - 1);
    MaskedArithmetic(p);
    var shifted := masked * 8 % Pow2(64);
    OrOne(shifted, 62);
  }

  lemma MaskedArithmetic(p: Parts)
    requires p.Valid()
    ensures var shifted := Combine(And, p.Word(), Pow2(63) - 1) * 8 % Pow2(64);
            && shifted == 8 * (p.low + 0x0800_0000_0000_0000 * p.b59 + 0x1000_0000_0000_0000 * p.b60)
            && Bit(shifted, 62) == (p.b59 == 1)
  {
    hide Bit, Pow2, Combine;
    Powers();
    var w := p.Word();
    var m := p.low + 0x0800_0000_0000_0000 * p.b59 + 0x1000_0000_0000_0000 * p.b60;
    var masked := m + 0x2000_0000_0000_0000 * p.b61 + 0x4000_0000_0000_0000 * p.b62;
    MaskLow(w, 63);
    ModUnique(w, 0x8000_0000_0000_0000, p.b63, masked);
    ModUnique(masked * 8, 0x1_0000_0000_0000_0000, p.b61 + 2 * p.b62, 8 * m);
    BitIs(8 * m, 62, 0x4000_0000_0000_0000, p.b59 + 2 * p.b60, 8 * p.low);
  }

  lemma AddressArithmetic(low: nat, mark: nat)
    requires low < 0x0800_0000_0000_0000 && mark < 2
    ensures Address(8 * (low + 0x0800_0000_0000_0000 * mark)) == low + 0x8000_0000_0000_0000 * mark
  {
    hide Bit, Pow2;
    Powers();
    var t := low + 0x0800_0000_0000_0000 * mark;
    assert 8 * t / 8 == t;
    BitDiv(t, 59);
  }

  /** Which address the offset of an address can be sought and stands for. */
  lemma OffsetByBits(scom: nat)
    requires scom < Pow2(64)
    ensures Offset(scom) % 8 == 0
    ensures Offset(scom) >= 0 <==> !Bit(scom, 60)
    ensures Offset(scom) >= 0 ==>
              (Address(Offset(scom)) == scom <==> !Bit(scom, 59) && !Bit(scom, 61) && !Bit(scom, 62))
  {
    hide Bit, OffsetWord, Address, Pow2;
    Powers();
    var p := Split(scom);
    PartsAreBits(p);
    OffsetArithmetic(p);
    var mark := if p.b59 == 1 || p.b63 == 1 then 1 else 0;
    if p.b60 == 0 { AddressArithmetic(p.low, mark); }
  }

  /** The offset itself where it can be undone: the low 59 bits of the address in units of eight
      bytes, and 2^62 for an indirect address. */
  lemma OffsetValue(scom: nat)
    requires scom < Pow2(64)
    requires !Bit(scom, 59) && !Bit(scom, 60) && !Bit(scom, 61) && !Bit(scom, 62)
    ensures Offset(scom) == 8 * (scom % 0x0800_0000_0000_0000)
                            + if Bit(scom, 63) then 0x4000_0000_0000_0000 else 0
  {
    hide Bit, OffsetWord, Pow2;
    Powers();
    var p := Split(scom);
    PartsAreBits(p);
    OffsetArithmetic(p);
  }

  /** open_and_seek up to the position it reaches; lseek64 refuses negative offsets.  It gets there
      exactly when bit 60 of the address is clear, and the place it gets to stands for the address
      exactly when bits 59, 61 and 62 are clear too. */
  method OpenAndSeek(opens: bool, scom: nat) returns (rc: int, position: nat)
    requires scom < Pow2(64)
    ensures rc == if opens && !Bit(scom, 60) then 0 else -1
    ensures rc == 0 ==> position == Offset(scom)
    ensures rc == 0 ==> (Address(position) == scom <==> !Bit(scom, 59) && !Bit(scom, 61) && !Bit(scom, 62))
  {
    hide Bit, Address, Pow2, Combine;
    OffsetByBits(scom);
    var word := Combine(And, scom, Pow2(63) - 1) * 8 % Pow2(64);
    if Combine(And, scom, Pow2(63)) != 0 {
      word := Combine(Or, word, Pow2(62));
    }
    var offset: int := word;
    if offset >= Pow2(63) {
      offset := offset - Pow2(64);
    }
    position := 0;
    if !opens {
      return -1, 0;
    }
    if offset < 0 {
      return -1, 0;
    }
    position := offset;
    rc := 0;
  }

  /** An offset can be sought and stands for the address it came from exactly when bits 59 to 62 of
      the address are clear. */
  lemma OffsetReversibleIff(scom: nat)
    requires scom < Pow2(64)
    ensures Offset(scom) % 8 == 0
    ensures Offset(scom) >= 0 && Address(Offset(scom)) == scom
       <==> !Bit(scom, 59) && !Bit(scom, 60) && !Bit(scom, 61) && !Bit(scom, 62)
  {
    hide Bit, Offset, Address, Pow2;
    OffsetByBits(scom);
  }

  /** Two addresses share an offset exactly when they agree in their low 59 bits, in bit 60, and in
      whether bit 59 or bit 63 is set. */
  lemma OffsetsEqualIff(a: nat, b: nat)
    requires a < Pow2(64) && b < Pow2(64)
    ensures Offset(a) == Offset(b)
       <==> && a % Pow2(59) == b % Pow2(59) && Bit(a, 60) == Bit(b, 60)
            && (Bit(a, 59) || Bit(a, 63)) == (Bit(b, 59) || Bit(b, 63))
  {
    hide Bit, OffsetWord, Pow2;
    Powers();
    var p, q := Split(a), Split(b);
    PartsAreBits(p);
    PartsAreBits(q);
    OffsetArithmetic(p);
    OffsetArithmetic(q);
  }

  /** Addresses with bits 59 to 62 clear never share an offset. */
  lemma OffsetsDiffer(a: nat, b: nat)
    requires a < Pow2(64) && b < Pow2(64)
    ensures (forall i :: 59 <= i <= 62 ==> !Bit(a, i) && !Bit(b, i)) && Offset(a) == Offset(b) ==> a == b
  {
    hide Bit, Offset, Address, Pow2;
    OffsetReversibleIff(a);
    OffsetReversibleIff(b);
  }

  /** Outside them two addresses can: bit 59 alone and bit 63 alone have the same offset. */
  lemma OffsetsCollide()
    ensures Offset(Pow2(59)) == Offset(Pow2(63))
  {
    hide Bit, OffsetWord, Pow2;
    Powers();
    OffsetArithmetic(Parts(0, 1, 0, 0, 0, 0));
    OffsetArithmetic(Parts(0, 0, 0, 0, 0, 1));
  }
}
