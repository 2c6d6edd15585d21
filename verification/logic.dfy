/**
 logic.c: bitwise folds over argument lists, complement and shifts, on 64-bit words.
 */
module Logic {
  import opened Bits
  import opened CText

  datatype LogicOp = OrOp | AndOp | XorOp | ShlOp | ShrOp | BtsOp | BtrOp {
    predicate Folds() { OrOp? || AndOp? || XorOp? }

    predicate SetsBit() { BtsOp? || BtrOp? }

    function Bitwise(): BitOp
      requires Folds()
    {
      match this
      case OrOp => Or
      case AndOp => And
      case XorOp => Xor
    }
  }

  function Values(args: seq<string>): (xs: seq<nat>)
    ensures |xs| == |args|
    ensures forall i :: 0 <= i < |xs| ==> xs[i] < Pow2(64)
  {
    seq(|args|, i requires 0 <= i < |args| => Strtoull(args[i]))
  }

  lemma ValueAt(args: seq<string>, i: nat)
    requires i < |args|
    ensures Values(args)[i] == Strtoull(args[i])
  {
  }

  function Fold(op: BitOp, xs: seq<nat>): nat
    requires xs != []
  {
    if |xs| == 1 then xs[0] else Combine(op, Fold(op, xs[..|xs| - 1]), xs[|xs| - 1])
  }

  /** 0x%llx */
  function Printed(v: nat): string {
    PrefixedHex(v, 0, false)
  }

  /** 0x and lower-case digits, the first of which is 0 in 0x0 alone. */
  lemma PrintedShape(v: nat)
    ensures |Printed(v)| > 2 && Printed(v)[..2] == "0x"
    ensures var digits := Printed(v)[2..];
            && Value(digits, 16) == v && (digits[0] == '0' ==> digits == "0")
            && forall i :: 0 <= i < |digits| ==> digits[i] in "0123456789abcdef"
  {
    hide Value;
    HexDigits(v, false);
    HexSpelling(v, false);
    assert Printed(v)[2..] == Hex(v, false);
  }

  /** The word that bts and btr leave, and whether the bit was set before. */
  function BitChanged(op: LogicOp, v: nat, bit: nat): nat
    requires op.SetsBit() && bit < 31
  {
    BitMaskFits(bit);
    if op.BtsOp? then Combine(Or, v, Pow2(bit)) else Combine(And, v, Complement(Pow2(bit), 64))
  }

  lemma BitMaskFits(bit: nat)
    requires bit < 31
    ensures Pow2(bit) < Pow2(64)
  {
    Pow2Monotonic(bit, 63);
    assert Pow2(64) == 2 * Pow2(63);
  }

  /** bts and btr take exactly one bit number, and 1 << bit is defined for bits below 31 only. */
  method LogicCommand(argv: seq<string>, op: LogicOp) returns (r: Output)
    requires |argv| >= 2
    requires op.SetsBit() ==> |argv| == 3 && Strtoull(argv[2]) < 31
    ensures op.Folds() ==>
              var xs := Values(argv[1..]);
              var result := Fold(op.Bitwise(), xs);
              r == Output(if |xs| > 1 && result == 0 then 1 else 0, Printed(result) + "\n")
    ensures op.SetsBit() ==>
              var v, bit := Strtoull(argv[1]), Strtoull(argv[2]);
              r == Output(if Bit(v, bit) then 1 else 0, Printed(BitChanged(op, v, bit)) + "\n")
    ensures !op.Folds() && !op.SetsBit() && |argv| > 2 ==> r == Output(-1, "")
  {
    hide Strtoull, PrefixedHex, Pow2, Values;
    ghost var xs := Values(argv[1..]);
    var args := argv[1..];
    var result := Strtoull(args[0]);
    ValueAt(args, 0);
    args := args[1..];
    var rc := 0;
    assert xs[..1] == [result];
    while |args| > 0
      invariant |args| < |xs| && args == argv[|argv| - |args|..]
      invariant op.Folds() ==> result == Fold(op.Bitwise(), xs[..|xs| - |args|])
      invariant op.Folds() ==> rc == if |xs| - |args| > 1 && result == 0 then 1 else 0
      invariant op.SetsBit() && |args| == 1 ==> result == Strtoull(argv[1])
      invariant op.SetsBit() && |args| == 0 ==>
                  result == BitChanged(op, Strtoull(argv[1]), Strtoull(argv[2]))
                  && rc == if Bit(Strtoull(argv[1]), Strtoull(argv[2])) then 1 else 0
      invariant !op.Folds() && !op.SetsBit() ==> |args| == |argv| - 2
      decreases |args|
    {
      ghost var done := |xs| - |args|;
      var val := Strtoull(args[0]);
      ValueAt(argv[1..], done);
      assert xs[..done + 1][..done] == xs[..done] && xs[..done + 1][done] == val;
      match op {
        case OrOp =>
          result := Combine(Or, result, val);
          rc := if result == 0 then 1 else 0;
        case AndOp =>
          result := Combine(And, result, val);
          rc := if result == 0 then 1 else 0;
        case XorOp =>
          result := Combine(Xor, result, val);
          rc := if result == 0 then 1 else 0;
        case BtsOp =>
          MaskTests(result, val);
          val := Pow2(val);
          rc := if Combine(And, result, val) != 0 then 1 else 0;
          result := Combine(Or, result, val);
        case BtrOp =>
          MaskTests(result, val);
          BitMaskFits(val);
          val := Pow2(val);
          rc := if Combine(And, result, val) != 0 then 1 else 0;
          result := Combine(And, result, Complement(val, 64));
        case _ =>
          return Output(-1, "");
      }
      args := args[1..];
    }
    assert xs[..|xs|] == xs;
    r := Output(rc, Printed(result) + "\n");
  }

  method Not(argv: seq<string>) returns (r: Output)
    requires |argv| == 2
    ensures r.out == NotText(argv[1]) + "\n"
    ensures r.rc == if Strtoull(argv[1]) == Pow2(64) - 1 then 1 else 0
    ensures exists w :: r.out == Printed(w) + "\n" && IsNot(w, Strtoull(argv[1]))
  {
    hide Strtoull, PrefixedHex, Pow2;
    NotBitByBit(Strtoull(argv[1]));
    var result := Strtoull(argv[1]);
    result := Complement(result, 64);
    r := Output(if result == 0 then 1 else 0, Printed(result) + "\n");
  }

  /** C leaves shifts by the width of the word or more undefined. */
  method Shift(argv: seq<string>, op: LogicOp, longBits: nat) returns (r: Output)
    requires |argv| == 3 && Strtoul(argv[2], 0, longBits) < 64
    ensures var v, s := Strtoull(argv[1]), Strtoul(argv[2], 0, longBits);
            && (op.ShlOp? ==> exists w :: IsShl(w, v, s) && r == Output(0, Printed(w) + "\n"))
            && (op.ShrOp? ==> exists w :: IsShr(w, v, s) && r == Output(0, Printed(w) + "\n"))
    ensures op.ShlOp? ==> r.out == ShlText(argv[1], Strtoul(argv[2], 0, longBits)) + "\n"
    ensures op.ShrOp? ==> r.out == ShrText(argv[1], Strtoul(argv[2], 0, longBits)) + "\n"
    ensures !op.ShlOp? && !op.ShrOp? ==> r == Output(-1, "")
  {
    hide Strtoull, Strtoul, PrefixedHex, Pow2, Bit;
    var val := Strtoull(argv[1]);
    var shift := Strtoul(argv[2], 0, longBits);
    ShiftsBitByBit(val, shift);
    match op {
      case ShlOp =>
        val := val * Pow2(shift) % Pow2(64);
      case ShrOp =>
        val := ShiftRight(val, shift);
      case _ =>
        return Output(-1, "");
    }
    r := Output(0, Printed(val) + "\n");
  }

  // ----- Bit by bit

  /** bts sets its bit, btr clears it, and neither touches another one. */
  lemma BitChangedBits(op: LogicOp, v: nat, b: nat, i: nat)
    requires op.SetsBit() && b < 31 && v < Pow2(64)
    ensures Bit(BitChanged(op, v, b), i) == if i == b then op.BtsOp? else Bit(v, i)
  {
    hide Combine, Bit, Pow2, Complement;
    BitMaskFits(b);
    CombineBit(Or, v, Pow2(b), i);
    CombineBit(And, v, Complement(Pow2(b), 64), i);
    ComplementBit(Pow2(b), 64, i);
    SingleBit(b, i);
    if i >= 64 { HighBitsClear(v, 64, i); }
  }

  /** w has exactly the bits that the 64-bit word v has not. */
  ghost predicate IsNot(w: nat, v: nat) {
    forall i: nat :: Bit(w, i) == (i < 64 && !Bit(v, i))
  }

  lemma NotBitByBit(v: nat)
    requires v < Pow2(64)
    ensures IsNot(Complement(v, 64), v)
  {
    hide Bit, Pow2, Complement;
    forall i: nat ensures Bit(Complement(v, 64), i) == (i < 64 && !Bit(v, i)) {
      ComplementBit(v, 64, i);
    }
  }

  /** w is the 64-bit word v shifted left by s: bits move up, zeros come in, the top is lost. */
  ghost predicate IsShl(w: nat, v: nat, s: nat) {
    forall i: nat :: Bit(w, i) == (s <= i < 64 && Bit(v, i - s))
  }

  /** w is v shifted right by s: bits move down and the lowest are lost. */
  ghost predicate IsShr(w: nat, v: nat, s: nat) {
    forall i: nat :: Bit(w, i) == Bit(v, i + s)
  }

  lemma ShiftsBitByBit(v: nat, s: nat)
    ensures IsShl(v * Pow2(s) % Pow2(64), v, s)
    ensures IsShr(ShiftRight(v, s), v, s)
  {
    hide Bit, Pow2;
    forall i: nat ensures Bit(v * Pow2(s) % Pow2(64), i) == (s <= i < 64 && Bit(v, i - s)) {
      CutBit(v * Pow2(s), 64, i);
      ShiftLeftBit(v, s, i);
    }
    forall i: nat ensures Bit(ShiftRight(v, s), i) == Bit(v, i + s) {
      ShiftRightBit(v, s, i);
    }
  }

  /** How many of the words have bit i set. */
  function CountBit(xs: seq<nat>, i: nat): nat {
    if xs == [] then 0 else CountBit(xs[..|xs| - 1], i) + Digit(Bit(xs[|xs| - 1], i))
  }

  lemma {:induction false} CountBitRange(xs: seq<nat>, i: nat)
    ensures CountBit(xs, i) > 0 <==> exists k :: 0 <= k < |xs| && Bit(xs[k], i)
    ensures CountBit(xs, i) <= |xs|
    ensures CountBit(xs, i) == |xs| <==> forall k :: 0 <= k < |xs| ==> Bit(xs[k], i)
  {
    hide Bit;
    if xs != [] {
      var init, last := xs[..|xs| - 1], |xs| - 1;
      CountBitRange(init, i);
      assert forall k :: 0 <= k < last ==> init[k] == xs[k];
      if Bit(xs[last], i) { assert 0 <= last < |xs| && Bit(xs[last], i); }
      if k :| 0 <= k < last && Bit(init[k], i) { assert Bit(xs[k], i); }
    }
  }

  /** A bit of the result is set when some, all, or an odd number of the words have it. */
  lemma {:induction false} FoldBit(op: BitOp, xs: seq<nat>, i: nat)
    requires xs != []
    ensures Bit(Fold(op, xs), i) ==
            match op
            case Or => CountBit(xs, i) > 0
            case And => CountBit(xs, i) == |xs|
            case Xor => CountBit(xs, i) % 2 == 1
  {
    hide Bit;
    var init, last := xs[..|xs| - 1], xs[|xs| - 1];
    CountBitRange(init, i);
    if |xs| == 1 {
      assert CountBit(init, i) == 0;
    } else {
      FoldBit(op, init, i);
      CombineBit(op, Fold(op, init), last, i);
    }
  }

  /** What or, and and xor make of any number of words. */
  lemma FoldMeaning(xs: seq<nat>, i: nat)
    requires xs != []
    ensures Bit(Fold(OrOp.Bitwise(), xs), i) <==> exists k :: 0 <= k < |xs| && Bit(xs[k], i)
    ensures Bit(Fold(AndOp.Bitwise(), xs), i) <==> forall k :: 0 <= k < |xs| ==> Bit(xs[k], i)
    ensures Bit(Fold(XorOp.Bitwise(), xs), i) <==> CountBit(xs, i) % 2 == 1
  {
    hide Bit;
    CountBitRange(xs, i);
    FoldBit(Or, xs, i);
    FoldBit(And, xs, i);
    FoldBit(Xor, xs, i);
  }

  // ----- Order does not matter

  lemma CombineCommutes(op: BitOp, a: nat, b: nat)
    ensures Combine(op, a, b) == Combine(op, b, a)
  {
    hide Combine;
    forall i: nat ensures Bit(Combine(op, a, b), i) == Bit(Combine(op, b, a), i) {
      CombineBit(op, a, b, i);
      CombineBit(op, b, a, i);
    }
    SameBits(Combine(op, a, b), Combine(op, b, a));
  }

  lemma CombineAssociates(op: BitOp, a: nat, b: nat, c: nat)
    ensures Combine(op, Combine(op, a, b), c) == Combine(op, a, Combine(op, b, c))
  {
    hide Combine;
    var l, r := Combine(op, Combine(op, a, b), c), Combine(op, a, Combine(op, b, c));
    forall i: nat ensures Bit(l, i) == Bit(r, i) {
      CombineBit(op, Combine(op, a, b), c, i);
      CombineBit(op, a, b, i);
      CombineBit(op, a, Combine(op, b, c), i);
      CombineBit(op, b, c, i);
    }
    SameBits(l, r);
  }

  function Without(xs: seq<nat>, k: nat): (ys: seq<nat>)
    requires k < |xs|
    ensures |ys| == |xs| - 1
  {
    xs[..k] + xs[k + 1..]
  }

  /** Any one word may be folded in last. */
  lemma {:induction false} FoldRemove(op: BitOp, xs: seq<nat>, k: nat)
    requires |xs| >= 2 && k < |xs|
    ensures Fold(op, xs) == Combine(op, Fold(op, Without(xs, k)), xs[k])
    decreases |xs|
  {
    hide Combine;
    var init, n := xs[..|xs| - 1], |xs| - 1;
    var last := xs[n];
    if k == n {
      assert Without(xs, k) == init;
    } else if n == 1 {
      assert Without(xs, k) == [last] && init == [xs[k]];
      CombineCommutes(op, xs[k], last);
    } else {
      var rest := Without(init, k);
      FoldRemove(op, init, k);
      assert xs[k + 1..] == init[k + 1..] + [last];
      assert Without(xs, k) == rest + [last];
      assert Without(xs, k)[..n - 1] == rest && Without(xs, k)[n - 1] == last;
      CombineAssociates(op, Fold(op, rest), xs[k], last);
      CombineCommutes(op, xs[k], last);
      CombineAssociates(op, Fold(op, rest), last, xs[k]);
    }
  }

  lemma WithoutMultiset(xs: seq<nat>, k: nat)
    requires k < |xs|
    ensures multiset(Without(xs, k)) == multiset(xs) - multiset{xs[k]}
  {
    assert xs == xs[..k] + [xs[k]] + xs[k + 1..];
  }

  /** The result depends only on which words are given and how often, not on their order. */
  lemma {:induction false} FoldPermutes(op: BitOp, xs: seq<nat>, ys: seq<nat>)
    requires xs != [] && multiset(xs) == multiset(ys)
    ensures ys != [] && Fold(op, xs) == Fold(op, ys)
    decreases |xs|
  {
    hide Combine;
    assert |xs| == |multiset(xs)| == |multiset(ys)| == |ys|;
    var n := |xs| - 1;
    assert xs[n] in multiset(ys);
    var k :| 0 <= k < |ys| && ys[k] == xs[n];
    if n == 0 {
      assert xs == [xs[0]] && ys == [ys[0]];
    } else {
      WithoutMultiset(xs, n);
      WithoutMultiset(ys, k);
      FoldPermutes(op, Without(xs, n), Without(ys, k));
      FoldRemove(op, xs, n);
      FoldRemove(op, ys, k);
    }
  }

  // ----- Feeding one command's output into another

  function FoldText(op: BitOp, args: seq<string>): string
    requires args != []
  {
    Printed(Fold(op, Values(args)))
  }

  function NotText(arg: string): string {
    Printed(Complement(Strtoull(arg), 64))
  }

  function ShlText(arg: string, s: nat): string {
    Printed(Strtoull(arg) * Pow2(s) % Pow2(64))
  }

  function ShiftRight(v: nat, s: nat): nat {
    Quotient(v, Pow2(s))
  }

  function ShrText(arg: string, s: nat): string {
    Printed(ShiftRight(Strtoull(arg), s))
  }

  lemma ReadsBack(v: nat)
    requires v < Pow2(64)
    ensures Strtoull(Printed(v)) == v
  {
    ParsePrinted(v, 0, false, 64);
  }

  lemma {:induction false} FoldBelow(op: BitOp, xs: seq<nat>, w: nat)
    requires xs != [] && forall i :: 0 <= i < |xs| ==> xs[i] < Pow2(w)
    ensures Fold(op, xs) < Pow2(w)
    decreases |xs|
  {
    if |xs| > 1 {
      FoldBelow(op, xs[..|xs| - 1], w);
      CombineBelow(op, Fold(op, xs[..|xs| - 1]), xs[|xs| - 1], w);
    }
  }

  lemma {:induction false} FoldContinues(op: BitOp, xs: seq<nat>, ys: seq<nat>)
    requires xs != []
    ensures Fold(op, [Fold(op, xs)] + ys) == Fold(op, xs + ys)
    decreases |ys|
  {
    hide Combine;
    if ys == [] {
      assert [Fold(op, xs)] + ys == [Fold(op, xs)] && xs + ys == xs;
    } else {
      var init, last := ys[..|ys| - 1], ys[|ys| - 1];
      FoldContinues(op, xs, init);
      assert (xs + ys)[..|xs + ys| - 1] == xs + init;
      assert ([Fold(op, xs)] + ys)[..|ys|] == [Fold(op, xs)] + init;
    }
  }

  /** Giving a command the output of the same command and more words is giving it all the words. */
  lemma OutputsCompose(op: BitOp, xs: seq<string>, ys: seq<string>)
    requires xs != []
    ensures FoldText(op, [FoldText(op, xs)] + ys) == FoldText(op, xs + ys)
  {
    hide Strtoull, PrefixedHex, Pow2, Fold;
    FoldBelow(op, Values(xs), 64);
    ReadsBack(Fold(op, Values(xs)));
    assert Values([FoldText(op, xs)] + ys) == [Fold(op, Values(xs))] + Values(ys);
    assert Values(xs + ys) == Values(xs) + Values(ys);
    FoldContinues(op, Values(xs), Values(ys));
  }

  function NotTexts(args: seq<string>): (texts: seq<string>)
    ensures |texts| == |args|
  {
    seq(|args|, i requires 0 <= i < |args| => NotText(args[i]))
  }

  lemma ComplementOfOr(a: nat, b: nat)
    requires a < Pow2(64) && b < Pow2(64)
    ensures Combine(Or, a, b) < Pow2(64)
    ensures Complement(Combine(Or, a, b), 64) == Combine(And, Complement(a, 64), Complement(b, 64))
  {
    hide Combine, Complement, Pow2, Bit;
    CombineBelow(Or, a, b, 64);
    var l, r := Complement(Combine(Or, a, b), 64), Combine(And, Complement(a, 64), Complement(b, 64));
    forall i: nat ensures Bit(l, i) == Bit(r, i) {
      ComplementBit(Combine(Or, a, b), 64, i);
      CombineBit(Or, a, b, i);
      CombineBit(And, Complement(a, 64), Complement(b, 64), i);
      ComplementBit(a, 64, i);
      ComplementBit(b, 64, i);
    }
    SameBits(l, r);
  }

  lemma {:induction false} ComplementOfFold(xs: seq<nat>, ys: seq<nat>)
    requires xs != [] && |ys| == |xs|
    requires forall i :: 0 <= i < |xs| ==> xs[i] < Pow2(64) && ys[i] == Complement(xs[i], 64)
    ensures Fold(Or, xs) < Pow2(64) && Fold(And, ys) == Complement(Fold(Or, xs), 64)
    decreases |xs|
  {
    hide Combine, Pow2;
    if |xs| > 1 {
      var n := |xs| - 1;
      ComplementOfFold(xs[..n], ys[..n]);
      ComplementOfOr(Fold(Or, xs[..n]), xs[n]);
    }
  }

  /** De Morgan's law through the printed texts, for any number of arguments. */
  lemma DeMorgan(args: seq<string>)
    requires args != []
    ensures NotText(FoldText(Or, args)) == FoldText(And, NotTexts(args))
  {
    hide Strtoull, PrefixedHex, Pow2, Fold, Complement;
    var xs, ys := Values(args), Values(NotTexts(args));
    forall i | 0 <= i < |xs| ensures ys[i] == Complement(xs[i], 64) {
      ComplementBelow(xs[i]);
      ReadsBack(Complement(xs[i], 64));
    }
    ComplementOfFold(xs, ys);
    ReadsBack(Fold(Or, xs));
  }

  lemma ComplementBelow(v: nat)
    requires v < Pow2(64)
    ensures Complement(v, 64) < Pow2(64)
    ensures Complement(Complement(v, 64), 64) == v
  {
  }

  lemma NotTwice(arg: string)
    ensures NotText(NotText(arg)) == Printed(Strtoull(arg))
  {
    hide Strtoull, PrefixedHex, Pow2, Complement;
    ComplementBelow(Strtoull(arg));
    ReadsBack(Complement(Strtoull(arg), 64));
  }

  /** The dual law: not of the output of and is or of the outputs of not. */
  lemma DeMorganDual(args: seq<string>)
    requires args != []
    ensures NotText(FoldText(And, args)) == FoldText(Or, NotTexts(args))
  {
    hide Strtoull, PrefixedHex, Pow2, Fold, Complement;
    var nots := NotTexts(args);
    DeMorgan(nots);
    forall i | 0 <= i < |args| ensures Values(NotTexts(nots))[i] == Values(args)[i] {
      NotTwice(args[i]);
      ReadsBack(Strtoull(args[i]));
    }
    assert Values(NotTexts(nots)) == Values(args);
    NotTwice(FoldText(Or, nots));
    FoldBelow(Or, Values(nots), 64);
    ReadsBack(Fold(Or, Values(nots)));
  }

  /** shr after shl keeps the low 64 - s bits. */
  lemma ShlThenShr(arg: string, s: nat)
    requires s < 64
    ensures ShrText(ShlText(arg, s), s) == Printed(Strtoull(arg) % Pow2(64 - s))
  {
    hide Strtoull, PrefixedHex, Pow2;
    var v := Strtoull(arg);
    Pow2Add(s, 64 - s);
    ReadsBack(v * Pow2(s) % Pow2(64));
    ShiftBack(v, Pow2(s), Pow2(64 - s));
  }

  lemma ShiftBack(v: nat, p: nat, q: nat)
    requires p > 0 && q > 0
    ensures p * q > 0 && v * p % (p * q) / p == v % q
  {
    ModSplit(v * p, p, q);
    ModUnique(v * p, p, v, 0);
    ModUnique(p * (v % q), p, v % q, 0);
  }
}
