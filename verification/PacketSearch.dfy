/**
 `check_data` of pcap_sniffer/lib/core.c: the payload search that selects the packets to print. (A UDP packet is
 printed once more whatever it says.)
 */
module PacketSearch {
  import opened Checksum
  import opened PacketChecks

  const TCP := 6
  const UDP := 17

  /** Whether the compiler takes plain `char` as signed, as gcc does on x86, or as unsigned. */
  datatype CharSign = SignedChar | UnsignedChar

  /** The `int` that a plain `char` of the search string becomes in a comparison. */
  function Promote(c: CharSign, b: byte): int {
    if c.SignedChar? && b >= 128 then b - 256 else b
  }

  /** Every byte of the search string can be equal to a payload byte at all. */
  ghost predicate Comparable(c: CharSign, str: seq<byte>) {
    c.SignedChar? ==> forall k :: 0 <= k < |str| ==> str[k] < 128
  }

  ghost predicate MatchAt(data: seq<byte>, str: seq<byte>, i: int) {
    0 <= i && i + |str| <= |data| && data[i..i+|str|] == str
  }

  /** `str` occurs in `data`. */
  ghost predicate Contains(data: seq<byte>, str: seq<byte>) {
    exists i :: MatchAt(data, str, i)
  }

  /** The inner loop: how many bytes of `str` match at position i. */
  method MatchLength(c: CharSign, data: seq<byte>, str: seq<byte>, i: nat) returns (k: nat)
    requires i + |str| <= |data|
    ensures k <= |str| && (k == |str| <==> MatchAt(data, str, i) && Comparable(c, str))
  {
    k := 0;
    while k < |str|
      invariant 0 <= k <= |str|
      invariant forall m :: 0 <= m < k ==> data[i+m] == str[m] == Promote(c, str[m])
    {
      if data[i+k] != Promote(c, str[k]) {
        assert data[i..i+|str|][k] == data[i+k];
        return;
      }
      k := k + 1;
    }
    var w := data[i..i+|str|];
    assert forall m :: 0 <= m < |w| ==> w[m] == str[m];
  }

  /** What the outer loop reports for a non-empty string and a payload of n > 0 bytes. */
  ghost predicate Reported(c: CharSign, data: seq<byte>, n: nat, str: seq<byte>)
    requires 0 < n && str != [] && n + |str| <= |data|
  {
    Comparable(c, str) && Contains(data[..n + |str| - 2], str)
  }

  /**
   The outer loop over a payload of n bytes; `data` is the memory from the payload on, and `true` stands
   for the return value 0. A match at i is noticed only when the loop reaches i + 1, and matching reads
   past the payload: what is searched is the first n + |str| - 2 bytes.
   */
  method CheckData(c: CharSign, data: seq<byte>, n: nat, str: seq<byte>) returns (found: bool)
    requires n + |str| <= |data|
    ensures str == [] ==> found == (n > 0)
    ensures str != [] && n > 0 ==> found == Reported(c, data, n, str)
    ensures n == 0 ==> !found
  {
    var i, k := 0, 0;
    while i < n
      invariant 0 <= i <= n
      invariant i == 0 ==> k == 0
      invariant i > 0 ==> (k == |str| <==> MatchAt(data, str, i - 1) && Comparable(c, str))
      invariant Comparable(c, str) ==> forall j :: 0 <= j < i - 1 ==> !MatchAt(data, str, j)
      invariant str == [] ==> i == 0
    {
      if k == |str| {
        if str != [] {
          Window(data, n, str, i - 1);
        }
        return true;
      }
      k := MatchLength(c, data, str, i);
      i := i + 1;
    }
    if str != [] && n > 0 && Comparable(c, str) {
      NoWindow(data, n, str);
    }
    return false;
  }

  lemma Window(data: seq<byte>, n: nat, str: seq<byte>, i: int)
    requires n + |str| <= |data| && str != [] && 0 <= i < n - 1 && MatchAt(data, str, i)
    ensures Contains(data[..n + |str| - 2], str)
  {
    var d := data[..n + |str| - 2];
    assert d[i..i+|str|] == data[i..i+|str|];
    assert MatchAt(d, str, i);
  }

  lemma NoWindow(data: seq<byte>, n: nat, str: seq<byte>)
    requires n + |str| <= |data| && str != [] && n > 0
    requires forall j :: 0 <= j < n - 1 ==> !MatchAt(data, str, j)
    ensures !Contains(data[..n + |str| - 2], str)
  {
    var d := data[..n + |str| - 2];
    forall i
      ensures !MatchAt(d, str, i)
    {
      if 0 <= i < n - 1 {
        assert d[i..i+|str|] == data[i..i+|str|];
        assert !MatchAt(data, str, i);
      }
    }
  }

  /**
   Against a search of the payload itself: from two bytes on, the string is reported exactly when all its bytes
   are comparable and it occurs in the payload or starts in it and runs past its end; a one-byte string
   is missed if only the last byte has it.
   */
  lemma SearchedVersusPayload(c: CharSign, data: seq<byte>, n: nat, str: seq<byte>)
    requires n + |str| <= |data| && str != [] && n > 0
    ensures |str| >= 2 ==>
              (Reported(c, data, n, str)
               <==> && Comparable(c, str)
                    && (Contains(data[..n], str) || exists i :: n - |str| < i < n - 1 && MatchAt(data, str, i)))
    ensures |str| == 1 ==> (Reported(c, data, n, str) <==> Comparable(c, str) && str[0] in data[..n-1])
  {
    if |str| >= 2 {
      WindowVersusPayload(data, n, str);
    } else {
      OneByte(data[..n-1], str);
    }
  }

  lemma WindowVersusPayload(data: seq<byte>, n: nat, str: seq<byte>)
    requires n + |str| <= |data| && |str| >= 2
    ensures Contains(data[..n + |str| - 2], str)
            <==> Contains(data[..n], str) || exists i :: n - |str| < i < n - 1 && MatchAt(data, str, i)
  {
    var d, p := data[..n + |str| - 2], data[..n];
    forall i | MatchAt(p, str, i) || (n - |str| < i < n - 1 && MatchAt(data, str, i))
      ensures MatchAt(d, str, i)
    {
      assert d[i..i+|str|] == data[i..i+|str|];
      assert MatchAt(p, str, i) ==> p[i..i+|str|] == data[i..i+|str|];
    }
    if Contains(d, str) {
      var i :| MatchAt(d, str, i);
      assert data[i..i+|str|] == d[i..i+|str|];
      assert MatchAt(data, str, i);
      if i <= n - |str| {
        assert p[i..i+|str|] == data[i..i+|str|];
        assert MatchAt(p, str, i);
      }
    }
  }

  lemma OneByte(d: seq<byte>, str: seq<byte>)
    requires |str| == 1
    ensures Contains(d, str) <==> str[0] in d
  {
    if str[0] in d {
      var i :| 0 <= i < |d| && d[i] == str[0];
      assert d[i..i+1] == str;
      assert MatchAt(d, str, i);
    }
    if Contains(d, str) {
      var i :| MatchAt(d, str, i);
      assert d[i..i+1][0] == d[i];
    }
  }

  /**
   A string in the last byte of the payload is missed, and one that starts in the payload and ends behind it is
   reported, for either kind of `char`.
   */
  lemma SearchCounterexamples(c: CharSign)
    ensures Contains([7], [7]) && !Reported(c, [7, 0], 1, [7])
    ensures !Contains([1, 2], [1, 2, 3]) && Reported(c, [1, 2, 3, 0, 0], 2, [1, 2, 3])
  {
    var one: seq<byte> := [7];
    OneByte(one, one);
    OneByte([7, 0][..0], one);
    var s: seq<byte> := [1, 2, 3];
    var m: seq<byte> := [1, 2, 3, 0, 0];
    assert m[..3][0..3] == s;
    assert MatchAt(m[..3], s, 0);
  }

  /** With signed `char`, the two bytes of an accented letter are not found in a payload that starts with them. */
  lemma SignedCharCounterexample(data: seq<byte>, n: nat)
    requires 2 <= n && n + 2 <= |data| && data[0] == 0xC3 && data[1] == 0xA9
    ensures Contains(data[..n], [0xC3, 0xA9]) && !Reported(SignedChar, data, n, [0xC3, 0xA9])
    ensures n > 2 ==> Reported(UnsignedChar, data, n, [0xC3, 0xA9])
  {
    var str: seq<byte> := [0xC3, 0xA9];
    var p := data[..n];
    assert p[0..2] == str;
    assert MatchAt(p, str, 0);
    assert str[0] >= 128;
    if n > 2 {
      SearchedVersusPayload(UnsignedChar, data, n, str);
    }
  }

  // ---------------------------------------------------------------- the whole function

  /** `hdr_size`: what lies in front of the payload of a TCP or UDP frame. */
  function HeaderSize(frame: seq<byte>, proto: int): (h: nat)
    requires |frame| >= ETHERNET_HEADER + 80
  {
    var ip := frame[ETHERNET_HEADER] % 16 * 4;
    ETHERNET_HEADER + ip + if proto == TCP then frame[ETHERNET_HEADER + ip + 12] / 16 * 4 else UDP_HEADER
  }

  /** `size - hdr_size` in unsigned arithmetic: it wraps for a frame shorter than its headers. */
  function PayloadSize(frame: seq<byte>, size: nat, proto: int): (n: nat)
    requires |frame| >= ETHERNET_HEADER + 80
  {
    (size - HeaderSize(frame, proto)) % 0x1_0000_0000
  }

  /** On the bytes: ihl and doff say where the payload starts, and the captured size where it ends. */
  lemma FrameLayout(frame: seq<byte>, size: nat, proto: int)
    requires |frame| >= ETHERNET_HEADER + 80 && size < 0x8000_0000 && (proto == 6 || proto == 17)
    ensures var transport: int := 14 + 4 * (frame[14] % 16);
            var start: int := if proto == 6 then transport + 4 * (frame[transport+12] / 16) else transport + 8;
            && HeaderSize(frame, proto) == start
            && PayloadSize(frame, size, proto) == if size >= start then size - start else size - start + 0x1_0000_0000
  {
  }

  /** `check_data`; `frame` is the memory from the captured frame on. */
  method CheckFrame(c: CharSign, frame: seq<byte>, size: nat, proto: int, str: seq<byte>) returns (found: bool)
    requires |frame| >= ETHERNET_HEADER + 80 && size < 0x8000_0000
    requires proto == TCP || proto == UDP ==>
               HeaderSize(frame, proto) + PayloadSize(frame, size, proto) + |str| <= |frame|
    ensures proto != TCP && proto != UDP ==> !found
    ensures proto == TCP || proto == UDP ==>
              var n, data := PayloadSize(frame, size, proto), frame[HeaderSize(frame, proto)..];
              found == (n > 0 && (str == [] || Reported(c, data, n, str)))
    ensures proto == 6 || proto == 17 ==>
              var transport: int := 14 + 4 * (frame[14] % 16);
              var start: int := if proto == 6 then transport + 4 * (frame[transport+12] / 16) else transport + 8;
              var n := if size >= start then size - start else size - start + 0x1_0000_0000;
              && start + n + |str| <= |frame|
              && found == (n > 0 && (str == [] || Reported(c, frame[start..], n, str)))
    ensures proto != 6 && proto != 17 ==> !found
  {
    if proto != TCP && proto != UDP {
      return false;
    }
    FrameLayout(frame, size, proto);
    var data := frame[HeaderSize(frame, proto)..];
    found := CheckData(c, data, PayloadSize(frame, size, proto), str);
  }
}
