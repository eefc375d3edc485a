/**
 The Internet checksum of pcap_sniffer/lib/core.c (RFC 1071): word sum, odd byte, fold and complement,
 on a host of either byte order.
 */
module Checksum {

  type byte = x: int | 0 <= x < 256

  /** Byte order of the host that reads 16-bit words from memory. */
  datatype Order = Little | Big

  function Word(o: Order, b0: byte, b1: byte): nat {
    if o.Little? then b0 + 256 * b1 else 256 * b0 + b1
  }

  /** Sum of the 16-bit words of `s`, an odd last byte being padded with a zero byte. */
  function WordSum(o: Order, s: seq<byte>): nat {
    if |s| == 0 then 0
    else if |s| == 1 then Word(o, s[0], 0)
    else Word(o, s[0], s[1]) + WordSum(o, s[2..])
  }

  /** The representative of n mod 65535 that is 0 only for n = 0. */
  function Fold(n: nat): (f: nat)
    ensures f <= 65535
    ensures f == 0 <==> n == 0
    ensures f % 65535 == n % 65535
  {
    if n == 0 then 0 else (n - 1) % 65535 + 1
  }

  /** The value `compute_checksum` returns. */
  function Sum16(o: Order, s: seq<byte>): (c: nat)
    ensures c <= 65535
  {
    65535 - Fold(WordSum(o, s))
  }

  function Swap(w: nat): nat
    requires w <= 65535
  {
    w % 256 * 256 + w / 256
  }

  /** The two bytes of a 16-bit word as they lie in memory. */
  function Stored(o: Order, w: nat): (byte, byte)
    requires w <= 65535
  {
    if o.Little? then (w % 256, w / 256) else (w / 256, w % 256)
  }

  // ---------------------------------------------------------------- arithmetic mod 65535

  lemma FoldUnique(a: nat, b: nat)
    requires a % 65535 == b % 65535 && (a == 0 <==> b == 0)
    ensures Fold(a) == Fold(b)
  {
  }

  /** One round of the fold loop: carries are added back in. */
  lemma FoldRound(n: nat)
    ensures Fold(n % 65536 + n / 65536) == Fold(n)
    ensures n >= 65536 ==> n % 65536 + n / 65536 < n
  {
    var q, r := n / 65536, n % 65536;
    assert n == 65535 * q + (q + r);
    ModShift(q + r, q);
    FoldUnique(q + r, n);
  }

  lemma ModShift(a: int, k: int)
    ensures (a + 65535 * k) % 65535 == a % 65535
  {
    var q, r := a / 65535, a % 65535;
    assert a + 65535 * k == 65535 * (q + k) + r;
  }

  /** Replacing a summand by its folded value does not change the residue. */
  lemma ModAdd(a: nat, b: nat, c: nat)
    requires a % 65535 == b % 65535
    ensures (a + c) % 65535 == (b + c) % 65535
  {
    var d := a / 65535 - b / 65535;
    assert a + c == b + c + 65535 * d;
    ModShift(b + c, d);
  }

  /** A word and the complement of its fold sum to a positive multiple of 65535. */
  lemma ComplementCancels(n: nat)
    ensures (n + (65535 - Fold(n))) % 65535 == 0 && n + (65535 - Fold(n)) > 0
  {
    ModAdd(n, Fold(n), 65535 - Fold(n));
  }

  // ---------------------------------------------------------------- word sums

  lemma {:induction false} WordSumConcat(o: Order, a: seq<byte>, b: seq<byte>)
    requires |a| % 2 == 0
    ensures WordSum(o, a + b) == WordSum(o, a) + WordSum(o, b)
  {
    if a == [] {
      assert a + b == b;
    } else {
      assert (a + b)[2..] == a[2..] + b;
      WordSumConcat(o, a[2..], b);
    }
  }

  lemma {:induction false} WordSumBound(o: Order, s: seq<byte>)
    ensures WordSum(o, s) <= 65535 * ((|s| + 1) / 2)
  {
    if |s| >= 2 {
      WordSumBound(o, s[2..]);
    }
  }

  lemma {:induction false} WordSumPrefix(o: Order, s: seq<byte>, i: nat)
    requires i % 2 == 0 && i <= |s|
    ensures WordSum(o, s) == WordSum(o, s[..i]) + WordSum(o, s[i..])
  {
    assert s == s[..i] + s[i..];
    WordSumConcat(o, s[..i], s[i..]);
  }

  /** The bytes of `s` as the digits of a number to the base 256, behind the digits of `n`. */
  function Number(n: nat, s: seq<byte>): nat
    decreases |s|
  {
    if s == [] then n else Number(256 * n + s[0], s[1..])
  }

  /**
   What the words sum up to, independently of words: mod 65535 it is the number that the bytes spell, an odd
   number of them being followed by a zero.
   */
  lemma {:induction false} WordSumIsNumber(n: nat, s: seq<byte>)
    ensures (n + WordSum(Big, s)) % 65535 == Number(n, if |s| % 2 == 0 then s else s + [0]) % 65535
    decreases |s|
  {
    var t := if |s| % 2 == 0 then s else s + [0];
    if s != [] {
      var w, rest := Word(Big, t[0], t[1]), if |s| == 1 then [] else s[2..];
      NumberStep(n, t);
      assert t[2..] == if |rest| % 2 == 0 then rest else rest + [0];
      assert WordSum(Big, s) == w + WordSum(Big, rest);
      WordSumIsNumber(65536 * n + w, rest);
      EndAround(n, w + WordSum(Big, rest));
    }
  }

  /** Moving up by one word changes nothing mod 65535. */
  lemma EndAround(n: nat, r: nat)
    ensures (65536 * n + r) % 65535 == (n + r) % 65535
  {
    ModShift(n + r, n);
  }

  lemma {:induction false} NumberStep(n: nat, s: seq<byte>)
    requires |s| >= 2
    ensures Number(n, s) == Number(65536 * n + Word(Big, s[0], s[1]), s[2..])
  {
    assert s[1..][1..] == s[2..];
    assert Number(n, s) == Number(256 * n + s[0], s[1..]);
  }

  /** `s` with the bytes b0, b1 at `at`. */
  function Put(s: seq<byte>, at: nat, b0: byte, b1: byte): (t: seq<byte>)
    requires at + 2 <= |s|
    ensures |t| == |s|
  {
    s[at := b0][at+1 := b1]
  }

  /** Two bytes written at an even offset over zeros add exactly their word. */
  lemma {:induction false} WordSumField(o: Order, s: seq<byte>, at: nat, b0: byte, b1: byte)
    requires at % 2 == 0 && at + 2 <= |s| && s[at] == 0 && s[at+1] == 0
    ensures WordSum(o, Put(s, at, b0, b1)) == WordSum(o, s) + Word(o, b0, b1)
  {
    var t := Put(s, at, b0, b1);
    WordSumPrefix(o, s, at);
    WordSumPrefix(o, t, at);
    assert t[..at] == s[..at];
    assert t[at..][2..] == s[at..][2..];
  }

  lemma {:induction false} WordSumZero(o: Order, s: seq<byte>)
    ensures WordSum(o, s) == 0 <==> forall k :: 0 <= k < |s| ==> s[k] == 0
  {
    if |s| >= 2 {
      WordSumZero(o, s[2..]);
      assert forall k :: 2 <= k < |s| ==> s[k] == s[2..][k-2];
    }
  }

  // ---------------------------------------------------------------- byte order

  /** The bytes in second position of each word. */
  function SecondBytes(s: seq<byte>): nat {
    if |s| < 2 then 0 else s[1] + SecondBytes(s[2..])
  }

  lemma {:induction false} OrdersAgree(s: seq<byte>)
    ensures 256 * WordSum(Little, s) == WordSum(Big, s) + 65535 * SecondBytes(s)
  {
    if |s| >= 2 {
      OrdersAgree(s[2..]);
    }
  }

  lemma SwapIsTimes256(w: nat)
    requires w <= 65535
    ensures Swap(w) <= 65535 && Swap(w) % 65535 == 256 * w % 65535 && (Swap(w) == 0 <==> w == 0)
  {
    assert 256 * w == Swap(w) + 65535 * (w / 256);
    ModShift(Swap(w), w / 256);
  }

  lemma Times256(a: nat, b: nat)
    requires a % 65535 == b % 65535
    ensures 256 * a % 65535 == 256 * b % 65535
  {
    var d := a / 65535 - b / 65535;
    assert 256 * a == 256 * b + 65535 * (256 * d);
    ModShift(256 * b, 256 * d);
  }

  /**
   Section 2 (B) of RFC 1071: hosts of opposite byte order compute byte-swapped sums,
   so they put the same two bytes into the packet.
   */
  lemma ByteOrderIndependent(s: seq<byte>)
    ensures Sum16(Big, s) == Swap(Sum16(Little, s))
    ensures Stored(Big, Sum16(Big, s)) == Stored(Little, Sum16(Little, s))
  {
    var le, be := WordSum(Little, s), WordSum(Big, s);
    var f := Fold(le);
    OrdersAgree(s);
    ModShift(be, SecondBytes(s));
    Times256(f, le);
    SwapIsTimes256(f);
    WordSumZero(Little, s);
    WordSumZero(Big, s);
    FoldUnique(Swap(f), be);
    FoldOfSmall(Swap(f));
    SwapComplement(f);
  }

  lemma FoldOfSmall(w: nat)
    requires w <= 65535
    ensures Fold(w) == w
  {
  }

  lemma SwapComplement(w: nat)
    requires w <= 65535
    ensures Swap(65535 - w) == 65535 - Swap(w)
    ensures Stored(Big, Swap(65535 - w)) == Stored(Little, 65535 - w)
  {
    var h, l := w / 256, w % 256;
    assert 65535 - w == 256 * (255 - h) + (255 - l);
  }

  // ---------------------------------------------------------------- filling and checking a field

  /** `s` with a zero word at `at`. */
  function Zeroed(s: seq<byte>, at: nat): (z: seq<byte>)
    requires at + 2 <= |s|
    ensures |z| == |s|
  {
    Put(s, at, 0, 0)
  }

  /** `s` with the word `w` at `at`, in host order. */
  function WithWord(o: Order, s: seq<byte>, at: nat, w: nat): (z: seq<byte>)
    requires at + 2 <= |s| && w <= 65535
    ensures |z| == |s|
  {
    Put(s, at, Stored(o, w).0, Stored(o, w).1)
  }

  lemma StoredWord(o: Order, w: nat)
    requires w <= 65535
    ensures Word(o, Stored(o, w).0, Stored(o, w).1) == w
  {
  }

  /** The sum with a field is the sum without it plus the field. */
  lemma {:induction false} SumWithField(o: Order, s: seq<byte>, at: nat)
    requires at % 2 == 0 && at + 2 <= |s|
    ensures WordSum(o, s) == WordSum(o, Zeroed(s, at)) + Word(o, s[at], s[at+1])
  {
    var z := Zeroed(s, at);
    WordSumField(o, z, at, s[at], s[at+1]);
    assert Put(z, at, s[at], s[at+1]) == s;
  }

  /** Section 1 of RFC 1071: once the field holds the checksum, the whole sums to all ones. */
  lemma {:induction false} FilledVerifies(o: Order, s: seq<byte>, at: nat)
    requires at % 2 == 0 && at + 2 <= |s|
    ensures Sum16(o, WithWord(o, s, at, Sum16(o, Zeroed(s, at)))) == 0
  {
    var z := Zeroed(s, at);
    var c := Sum16(o, z);
    var t := WithWord(o, s, at, c);
    StoredWord(o, c);
    assert Zeroed(t, at) == z;
    SumWithField(o, t, at);
    ComplementCancels(WordSum(o, z));
    FoldUnique(WordSum(o, t), 65535);
  }

  /** The verdict printed by the sniffer: the stored field equals the recomputed one. */
  predicate PrintedValid(o: Order, s: seq<byte>, at: nat)
    requires at + 2 <= |s|
  {
    Word(o, s[at], s[at+1]) == Sum16(o, Zeroed(s, at))
  }

  /** The receiver test of RFC 1071: all covered words, field included, sum to all ones. */
  predicate ReceiverAccepts(o: Order, s: seq<byte>) {
    Sum16(o, s) == 0
  }

  /**
   The printed verdict implies the receiver test; they differ exactly when the field holds 0xFFFF
   where 0 is recomputed (the two zeros of one's complement arithmetic).
   */
  lemma {:induction false} VerdictVersusReceiver(o: Order, s: seq<byte>, at: nat)
    requires at % 2 == 0 && at + 2 <= |s|
    ensures PrintedValid(o, s, at) ==> ReceiverAccepts(o, s)
    ensures ReceiverAccepts(o, s) && !PrintedValid(o, s, at)
            <==> Word(o, s[at], s[at+1]) == 0xFFFF && Sum16(o, Zeroed(s, at)) == 0
  {
    var f, n := Word(o, s[at], s[at+1]), WordSum(o, Zeroed(s, at));
    SumWithField(o, s, at);
    VerdictArithmetic(n, f);
  }

  lemma VerdictArithmetic(n: nat, f: nat)
    requires f <= 65535
    ensures f == 65535 - Fold(n) ==> Fold(n + f) == 65535
    ensures Fold(n + f) == 65535 && f != 65535 - Fold(n) <==> f == 65535 && Fold(n) == 65535
  {
    ModAdd(n, Fold(n), f);
    ComplementCancels(n);
  }

  /** A header of 20 bytes, version 4 and total length 0xBAFF, that a receiver accepts and the sniffer calls invalid. */
  lemma {:induction false} VerdictCounterexample(o: Order) returns (s: seq<byte>)
    ensures |s| == 20 && s[0] == 0x45 && s[2] == 0xBA && s[3] == 0xFF
    ensures ReceiverAccepts(o, s) && !PrintedValid(o, s, 10)
  {
    var zero: seq<byte> := seq(20, i => 0);
    WordSumZero(o, zero);
    WordSumField(o, zero, 0, 0x45, 0);
    var one := Put(zero, 0, 0x45, 0);
    WordSumField(o, one, 2, 0xBA, 0xFF);
    var two := Put(one, 2, 0xBA, 0xFF);
    s := Put(two, 10, 0xFF, 0xFF);
    assert Zeroed(s, 10) == two;
    VerdictVersusReceiver(o, s, 10);
  }

  /** Folded values agree exactly when the residues do, for positive sums. */
  lemma FoldSameIff(a: nat, b: nat)
    requires a > 0 && b > 0
    ensures Fold(a) == Fold(b) <==> a % 65535 == b % 65535
  {
    if a % 65535 == b % 65535 {
      FoldUnique(a, b);
    }
  }

  /** Two numbers have the same residue exactly when their difference has none. */
  lemma ResidueIff(a: nat, b: nat)
    ensures a % 65535 == b % 65535 <==> (a - b) % 65535 == 0
  {
    ModShift(a - b, -(a / 65535) + b / 65535);
    assert a - b + 65535 * (-(a / 65535) + b / 65535) == a % 65535 - b % 65535;
  }

  /**
   Another word of `s` is overwritten behind the back of a field that was right: the comparison still says so
   exactly when the new word has the residue of the old one. `rest` is not all zero.
   */
  lemma {:induction false} WordChangedIff(o: Order, s: seq<byte>, field: nat, p: nat, b0: byte, b1: byte)
    requires field % 2 == 0 && field + 2 <= |s| && p % 2 == 0 && p + 2 <= |s| && p != field
    requires PrintedValid(o, s, field)
    requires WordSum(o, Zeroed(Zeroed(s, field), p)) > 0
    ensures PrintedValid(o, Put(s, p, b0, b1), field)
            <==> (Word(o, b0, b1) - Word(o, s[p], s[p+1])) % 65535 == 0
  {
    var rest := WordSum(o, Zeroed(Zeroed(s, field), p));
    var w, w' := Word(o, s[p], s[p+1]), Word(o, b0, b1);
    SumsAround(o, s, field, p, b0, b1);
    FoldSameIff(rest + w', rest + w);
    ResidueIff(rest + w', rest + w);
  }

  lemma {:induction false} SumsAround(o: Order, s: seq<byte>, field: nat, p: nat, b0: byte, b1: byte)
    requires field % 2 == 0 && field + 2 <= |s| && p % 2 == 0 && p + 2 <= |s| && p != field
    ensures var rest, t := WordSum(o, Zeroed(Zeroed(s, field), p)), Put(s, p, b0, b1);
            && WordSum(o, Zeroed(s, field)) == rest + Word(o, s[p], s[p+1])
            && WordSum(o, Zeroed(t, field)) == rest + Word(o, b0, b1)
            && t[field] == s[field] && t[field+1] == s[field+1]
  {
    var t := Put(s, p, b0, b1);
    SumWithField(o, Zeroed(s, field), p);
    SumWithField(o, Zeroed(t, field), p);
    assert Zeroed(Zeroed(t, field), p) == Zeroed(Zeroed(s, field), p);
  }

  /** The stored checksum is 0 exactly when the covered words sum to a positive multiple of 65535. */
  lemma ZeroChecksum(o: Order, s: seq<byte>)
    ensures Sum16(o, s) == 0 <==> WordSum(o, s) > 0 && WordSum(o, s) % 65535 == 0
  {
  }

  // ---------------------------------------------------------------- the loops

  /** `(*addr) & htons(0xFF00)`: the byte at the lower address, whatever the byte behind it. */
  function MaskFirst(o: Order, w: nat): nat {
    if o.Little? then w % 256 else w / 256 * 256
  }

  /**
   `compute_checksum` on the bytes `data`. For an odd length the last 16-bit load also reads the byte
   behind the data; its value `behind` is masked out.
   */
  method ComputeChecksum(o: Order, data: seq<byte>, behind: byte) returns (c: nat)
    requires |data| < 0x1_0000_0000
    ensures c == Sum16(o, data)
  {
    var sum: nat := 0;
    var count, addr := |data|, 0;
    while count > 1
      invariant 0 <= addr <= |data| && addr % 2 == 0 && count == |data| - addr
      invariant sum + WordSum(o, data[addr..]) == WordSum(o, data)
    {
      assert data[addr..][2..] == data[addr+2..];
      sum := sum + Word(o, data[addr], data[addr+1]);
      addr := addr + 2;
      count := count - 2;
    }
    if count > 0 {
      sum := sum + MaskFirst(o, Word(o, data[addr], behind));
    }
    assert sum == WordSum(o, data);
    WordSumBound(o, data);
    assert sum < 0x1_0000_0000_0000_0000;  // `unsigned long` does not wrap
    while sum / 65536 != 0
      invariant Fold(sum) == Fold(WordSum(o, data))
      decreases sum
    {
      FoldRound(sum);
      sum := sum % 65536 + sum / 65536;
    }
    FoldOfSmall(sum);
    c := 65535 - sum;
  }
}
