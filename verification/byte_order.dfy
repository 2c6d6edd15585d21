/**
 Words in memory and the byte-order conversions of platform.h.  The bytes of a word are listed in
 address order; Load and Store are what a C access through a union or a cast pointer does.
 */
module ByteOrder {
  import opened Bits

  type byte = b: nat | b < 256

  datatype Endian = Little | Big

  /** The machine the tools run on: its byte order and the width of unsigned long. */
  datatype Host = Host(endian: Endian, longBits: nat) {
    predicate Valid() { longBits == 32 || longBits == 64 }
  }

  function Reverse<T>(s: seq<T>): (r: seq<T>)
    ensures |r| == |s|
    ensures forall i :: 0 <= i < |s| ==> r[i] == s[|s| - 1 - i]
  {
    if s == [] then [] else Reverse(s[1..]) + [s[0]]
  }

  /** The number whose bytes are bs, least significant first. */
  function FromLE(bs: seq<byte>): nat {
    if bs == [] then 0 else bs[0] + 256 * FromLE(bs[1..])
  }

  /** The n low bytes of v, least significant first. */
  function ToLE(v: nat, n: nat): (bs: seq<byte>)
    ensures |bs| == n
  {
    if n == 0 then [] else [v % 256] + ToLE(v / 256, n - 1)
  }

  function Load(e: Endian, bs: seq<byte>): nat {
    FromLE(if e.Little? then bs else Reverse(bs))
  }

  function Store(e: Endian, v: nat, n: nat): (bs: seq<byte>)
    ensures |bs| == n
  {
    if e.Little? then ToLE(v, n) else Reverse(ToLE(v, n))
  }

  /** bswap_16 and bswap_32 from <byteswap.h>, for a word of n bytes. */
  function Bswap(v: nat, n: nat): nat {
    FromLE(Reverse(ToLE(v, n)))
  }

  /** le_to_host_8/16/32 and host_to_le_8/16/32; the two families are the same macros. */
  function LeToHost(e: Endian, v: nat, n: nat): nat {
    if e.Little? || n == 1 then v else Bswap(v, n)
  }

  function HostToLe(e: Endian, v: nat, n: nat): nat {
    if e.Little? || n == 1 then v else Bswap(v, n)
  }

  lemma {:induction false} FromLEBound(bs: seq<byte>)
    ensures FromLE(bs) < Pow2(8 * |bs|)
  {
    if bs != [] {
      FromLEBound(bs[1..]);
      Pow2Add(8, 8 * |bs[1..]|);
      assert Pow2(8) == 256;
    }
  }

  lemma {:induction false} FromToLE(v: nat, n: nat)
    ensures FromLE(ToLE(v, n)) == v % Pow2(8 * n)
    decreases n
  {
    if n > 0 {
      FromToLE(v / 256, n - 1);
      Pow2Add(8, 8 * (n - 1));
      assert Pow2(8) == 256;
      ModSplit(v, 256, Pow2(8 * (n - 1)));
    }
  }

  lemma {:induction false} ToFromLE(bs: seq<byte>)
    ensures ToLE(FromLE(bs), |bs|) == bs
  {
    if bs != [] {
      ToFromLE(bs[1..]);
      var r := FromLE(bs[1..]);
      ModUnique(bs[0] + 256 * r, 256, r, bs[0]);
    }
  }

  lemma ReverseReverse<T>(s: seq<T>)
    ensures Reverse(Reverse(s)) == s
  {
  }

  lemma LoadBound(e: Endian, bs: seq<byte>)
    ensures Load(e, bs) < Pow2(8 * |bs|)
  {
    FromLEBound(if e.Little? then bs else Reverse(bs));
  }

  /** Byte i of a word is the one that lies i places from its low end: the first in memory on a
      little-endian host, the last on a big-endian one. */
  lemma LoadBytes(e: Endian, bs: seq<byte>, i: nat)
    requires i < |bs|
    ensures Load(e, bs) / Pow2(8 * i) % 256 == if e.Little? then bs[i] else bs[|bs| - 1 - i]
  {
    FromLEByte(if e.Little? then bs else Reverse(bs), i);
  }

  lemma {:induction false} FromLEByte(bs: seq<byte>, i: nat)
    requires i < |bs|
    ensures FromLE(bs) / Pow2(8 * i) % 256 == bs[i]
  {
    var rest := FromLE(bs[1..]);
    if i == 0 {
      assert FromLE(bs) / Pow2(0) == FromLE(bs);
      ModUnique(bs[0] + 256 * rest, 256, rest, bs[0]);
    } else {
      FromLEByte(bs[1..], i - 1);
      Pow2Add(8, 8 * (i - 1));
      WordSizes();
      DivideTwice(bs[0], rest, Pow2(8 * (i - 1)));
    }
  }

  lemma DivideTwice(low: byte, rest: nat, p: nat)
    requires p > 0
    ensures (low + 256 * rest) / (256 * p) == rest / p
  {
    var q, r := rest / p, rest % p;
    assert rest == q * p + r;
    ModUnique(low + 256 * rest, 256 * p, q, low + 256 * r);
  }

  /** A word stored and loaded again is cut to its width. */
  lemma LoadStore(e: Endian, v: nat, n: nat)
    ensures Load(e, Store(e, v, n)) == v % Pow2(8 * n)
  {
    FromToLE(v, n);
    ReverseReverse(ToLE(v, n));
  }

  /** Loading a word and storing it again gives back its bytes. */
  lemma StoreLoad(e: Endian, bs: seq<byte>)
    ensures Store(e, Load(e, bs), |bs|) == bs
  {
    var le := if e.Little? then bs else Reverse(bs);
    ToFromLE(le);
    ReverseReverse(bs);
  }

  lemma ReverseOne(bs: seq<byte>)
    requires |bs| == 1
    ensures Reverse(bs) == bs
  {
  }

  /** Loading device bytes natively and converting gives their little-endian value on every host. */
  lemma LeToHostLoads(e: Endian, bs: seq<byte>)
    ensures LeToHost(e, Load(e, bs), |bs|) == FromLE(bs)
  {
    if |bs| == 1 { ReverseOne(bs); }
    if e.Big? && |bs| != 1 {
      ToFromLE(Reverse(bs));
      ReverseReverse(bs);
    }
  }

  /** Converting a word and storing it natively puts its little-endian bytes on the device. */
  lemma HostToLeStores(e: Endian, v: nat, n: nat)
    ensures Store(e, HostToLe(e, v, n), n) == ToLE(v, n)
  {
    if e.Big? && n == 1 { ReverseOne(ToLE(v, 1)); }
    if e.Big? && n != 1 {
      ToFromLE(Reverse(ToLE(v, n)));
      ReverseReverse(ToLE(v, n));
    }
  }

  /** Only the low n bytes of a value are stored. */
  lemma ToLECut(v: nat, n: nat)
    ensures ToLE(v % Pow2(8 * n), n) == ToLE(v, n)
  {
    FromToLE(v, n);
    ToFromLE(ToLE(v, n));
  }
}
