/**
 `print_data` of pcap_sniffer/lib/core.c: a streaming hex dump, proved to print what a row-by-row
 formatter prints, and to lose no byte.
 */
module HexDump {
  import opened Collections
  import opened Checksum

  const ROW := 16
  const MARGIN := "   "
  const GAP := "         "

  function HexDigit(n: nat): char
    requires n < 16
  {
    "0123456789ABCDEF"[n]
  }

  /** `" %02X"` of one byte. */
  function Column(b: byte): (t: string)
    ensures |t| == 3
  {
    [' ', HexDigit(b / 16), HexDigit(b % 16)]
  }

  /** The columns of all bytes. */
  function HexColumns(s: seq<byte>): (t: string)
    ensures |t| == 3 * |s|
  {
    if s == [] then "" else HexColumns(s[..|s|-1]) + Column(s[|s|-1])
  }

  /** The printable range of the source ends at 128. */
  function Glyph(b: byte): char {
    if 32 <= b <= 128 then b as char else '.'
  }

  function Glyphs(s: seq<byte>): (t: string)
    ensures |t| == |s|
  {
    seq(|s|, i requires 0 <= i < |s| => Glyph(s[i]))
  }

  function Blanks(n: nat): (t: string)
    ensures |t| == n
  {
    seq(n, _ => ' ')
  }

  /** One line: margin, 16 hex columns (missing ones blank), gap, characters. */
  function Row(s: seq<byte>): (t: string)
    requires |s| <= ROW
  {
    MARGIN + HexColumns(s) + Blanks(3 * (ROW - |s|)) + GAP + Glyphs(s) + "\n"
  }

  /** The reference formatter: rows of 16 bytes, the last one possibly shorter. */
  function Dump(s: seq<byte>): string {
    if s == [] then ""
    else if |s| <= ROW then Row(s)
    else Row(s[..ROW]) + Dump(s[ROW..])
  }

  /**
   A row character by character: three blanks, 16 columns of blank and two upper-case hex digits or three blanks,
   nine blanks, then each byte from 32 to 128 as itself and every other one as a dot, and the end of the line.
   */
  lemma {:induction false} RowLayout(s: seq<byte>, k: nat)
    requires |s| <= 16 && k < |s| + 61
    ensures |Row(s)| == |s| + 61
    ensures var digits := "0123456789ABCDEF";
            Row(s)[k] ==
              if 3 <= k < 3 + 3 * |s| && (k - 3) % 3 == 1 then digits[s[(k-3)/3] / 16]
              else if 3 <= k < 3 + 3 * |s| && (k - 3) % 3 == 2 then digits[s[(k-3)/3] % 16]
              else if k < 60 then ' '
              else if k == 60 + |s| then '\n'
              else if 32 <= s[k-60] <= 128 then s[k-60] as char else '.'
  {
    var h, b := MARGIN + HexColumns(s), Blanks(3 * (16 - |s|));
    assert Row(s) == h + b + GAP + Glyphs(s) + "\n";
    if 3 <= k < 3 + 3 * |s| {
      HexColumnAt(s, k - 3);
    }
  }

  lemma {:induction false} HexColumnAt(s: seq<byte>, k: nat)
    requires k < 3 * |s|
    ensures HexColumns(s)[k] == if k % 3 == 0 then ' ' else if k % 3 == 1 then HexDigit(s[k/3] / 16) else HexDigit(s[k/3] % 16)
  {
    if k < 3 * (|s| - 1) {
      HexColumnAt(s[..|s|-1], k);
    }
  }

  lemma {:induction false} DumpAppend(a: seq<byte>, b: seq<byte>)
    requires |a| % ROW == 0 && 0 < |b| <= ROW
    ensures Dump(a + b) == Dump(a) + Row(b)
  {
    if a == [] {
      assert a + b == b;
    } else {
      var first, rest := a[..ROW], a[ROW..];
      DumpAppend(rest, b);
      DumpFirst(a);
      DumpFirstOf(a, b);
      Associate(Row(first), Dump(rest), Row(b));
    }
  }

  lemma {:induction false} DumpFirst(a: seq<byte>)
    requires |a| >= ROW
    ensures Dump(a) == Row(a[..ROW]) + Dump(a[ROW..])
  {
    if |a| == ROW {
      assert a[..ROW] == a;
    }
  }

  lemma {:induction false} DumpFirstOf(a: seq<byte>, b: seq<byte>)
    requires |a| >= ROW
    ensures Dump(a + b) == Row(a[..ROW]) + Dump(a[ROW..] + b)
  {
    var s := a + b;
    assert s[..ROW] == a[..ROW] && s[ROW..] == a[ROW..] + b;
    DumpFirst(s);
  }

  lemma {:induction false} HexAppend(s: seq<byte>, b: byte)
    ensures HexColumns(s + [b]) == HexColumns(s) + Column(b)
  {
    assert (s + [b])[..|s|] == s;
  }

  // ---------------------------------------------------------------- the streaming printer

  /** Where the row that holds byte number i - 1 starts. */
  function RowStart(i: nat): (r: nat)
    requires i > 0
    ensures r % ROW == 0 && r < i <= r + ROW
  {
    (i - 1) / ROW * ROW
  }

  lemma RowStartIs(i: nat, r: nat)
    requires r % ROW == 0 && r < i <= r + ROW
    ensures RowStart(i) == r
  {
  }

  /** The rows before `r` and the columns r..i of the row that is still open. */
  ghost function OpenRow(data: seq<byte>, r: nat, i: nat): string
    requires r <= i <= |data|
  {
    Dump(data[..r]) + MARGIN + HexColumns(data[r..i])
  }

  /** What has been printed before byte number i, while the current row is still open. */
  ghost function Open(data: seq<byte>, i: nat): string
    requires i <= |data|
  {
    if i == 0 then "" else OpenRow(data, RowStart(i), i)
  }

  /** The inner loops over `j` that print characters. */
  method PrintGlyphs(out: string, data: seq<byte>, lo: nat, hi: nat) returns (r: string)
    requires lo <= hi <= |data|
    ensures r == out + Glyphs(data[lo..hi])
  {
    r := out;
    var j := lo;
    while j < hi
      invariant lo <= j <= hi
      invariant r == out + Glyphs(data[lo..j])
    {
      assert data[lo..j+1] == data[lo..j] + [data[j]];
      assert Glyphs(data[lo..j+1]) == Glyphs(data[lo..j]) + [Glyph(data[j])];
      r := r + [if data[j] >= 32 && data[j] <= 128 then data[j] as char else '.'];
      j := j + 1;
    }
    assert data[lo..j] == data[lo..hi];
  }

  method PrintBlanks(out: string, n: nat) returns (r: string)
    ensures r == out + Blanks(3 * n)
  {
    r := out;
    var j := 0;
    while j < n
      invariant 0 <= j <= n
      invariant r == out + Blanks(3 * j)
    {
      assert Blanks(3 * (j + 1)) == Blanks(3 * j) + "   ";
      r := r + "   ";
      j := j + 1;
    }
  }

  /** Closing an open row completes it as the formatter prints it. */
  lemma {:induction false} CloseRow(data: seq<byte>, r: nat, i: nat)
    requires r % ROW == 0 && r < i <= |data| && i <= r + ROW
    ensures OpenRow(data, r, i) + Blanks(3 * (r + ROW - i)) + GAP + Glyphs(data[r..i]) + "\n" == Dump(data[..i])
  {
    assert Dump(data[..i]) == Dump(data[..r]) + Row(data[r..i]) by {
      DumpAppend(data[..r], data[r..i]);
      assert data[..r] + data[r..i] == data[..i];
    }
    ConcatSix(Dump(data[..r]), MARGIN, HexColumns(data[r..i]), Blanks(3 * (r + ROW - i)), GAP, Glyphs(data[r..i]));
  }

  lemma {:induction false} ConcatSix(d: string, a: string, b: string, c: string, e: string, g: string)
    ensures d + a + b + c + e + g + "\n" == d + (a + b + c + e + g + "\n")
  {
  }

  /** `print_data`. */
  method PrintData(data: seq<byte>) returns (out: string)
    requires |data| < 0x1_0000_0000
    ensures out == Dump(data)
  {
    out := "";
    var i, size := 0, |data|;
    while i < size
      invariant 0 <= i <= size
      invariant i < size ==> out == Open(data, i)
      invariant i == size ==> out == Dump(data)
    {
      if i != 0 && i % 16 == 0 {
        out := CloseFull(out, data, i);
      }
      out := PrintColumn(out, data, i);
      if i == size - 1 {
        out := CloseLast(out, data, i);
      }
      i := i + 1;
    }
  }

  /** Lines 566-569: the margin of a new row and the column of byte i. */
  method PrintColumn(printed: string, data: seq<byte>, i: nat) returns (out: string)
    requires i < |data| && printed == if i % 16 == 0 then Dump(data[..i]) else Open(data, i)
    ensures out == Open(data, i + 1)
  {
    out := printed;
    if i % 16 == 0 {
      OpenFirst(data, i);
      out := out + MARGIN;
    } else {
      OpenMore(data, i);
    }
    out := out + Column(data[i]);
  }

  /** The column of byte i opens a new row ... */
  lemma {:induction false} OpenFirst(data: seq<byte>, i: nat)
    requires i < |data| && i % 16 == 0
    ensures Dump(data[..i]) + MARGIN + Column(data[i]) == Open(data, i + 1)
  {
    RowStartIs(i + 1, i);
    OneMoreColumn(data, i, i);
    NewRow(data, i);
  }

  lemma {:induction false} NewRow(data: seq<byte>, i: nat)
    requires i <= |data|
    ensures OpenRow(data, i, i) == Dump(data[..i]) + MARGIN
  {
    assert data[i..i] == [];
  }

  /** ... or goes behind those of its row. */
  lemma {:induction false} OpenMore(data: seq<byte>, i: nat)
    requires i < |data| && i % 16 != 0
    ensures Open(data, i) + Column(data[i]) == Open(data, i + 1)
  {
    var r := i - i % 16;
    RowStartIs(i, r);
    RowStartIs(i + 1, r);
    OneMoreColumn(data, r, i);
  }

  lemma {:induction false} OneMoreColumn(data: seq<byte>, r: nat, i: nat)
    requires r <= i < |data|
    ensures OpenRow(data, r, i) + Column(data[i]) == OpenRow(data, r, i + 1)
  {
    assert data[r..i+1] == data[r..i] + [data[i]];
    HexAppend(data[r..i], data[i]);
    Associate(Dump(data[..r]) + MARGIN, HexColumns(data[r..i]), Column(data[i]));
  }

  /** Lines 553-564: characters of the row that ended just before byte i. */
  method CloseFull(printed: string, data: seq<byte>, i: nat) returns (out: string)
    requires 0 < i <= |data| && i % 16 == 0 && printed == Open(data, i)
    ensures out == Dump(data[..i])
  {
    var r := i - 16;
    RowStartIs(i, r);
    out := printed + GAP;
    out := PrintGlyphs(out, data, r, i);
    out := out + "\n";
    CloseRow(data, r, i);
    NoBlanks(OpenRow(data, r, i));
  }

  lemma {:induction false} NoBlanks(t: string)
    ensures t + Blanks(0) == t
  {
  }

  /** Lines 571-588: padding and characters of the last row. */
  method CloseLast(printed: string, data: seq<byte>, i: nat) returns (out: string)
    requires i + 1 == |data| && printed == Open(data, i + 1)
    ensures out == Dump(data)
  {
    var r := i - i % 16;
    RowStartIs(i + 1, r);
    out := PrintBlanks(printed, 15 - i % 16);
    out := out + GAP;
    out := PrintGlyphs(out, data, r, i + 1);
    out := out + "\n";
    CloseRow(data, r, i + 1);
    assert data[..i+1] == data;
  }

  // ---------------------------------------------------------------- reading a dump back

  function HexValue(c: char): nat {
    if '0' <= c <= '9' then c as int - '0' as int
    else if 'A' <= c <= 'F' then c as int - 'A' as int + 10
    else 0
  }

  /** The bytes in hex columns k.. of the line at the start of `t`. */
  function ReadColumns(t: string, k: nat): seq<int>
    requires k <= ROW && |t| >= 3 + 3 * ROW
    decreases ROW - k
  {
    if k == ROW || t[4 + 3 * k] == ' ' then []
    else [16 * HexValue(t[4 + 3 * k]) + HexValue(t[5 + 3 * k])] + ReadColumns(t, k + 1)
  }

  /** The bytes shown by a dump. */
  function ReadDump(t: string): seq<int> {
    if |t| < 3 + 3 * ROW then []
    else
      var row := ReadColumns(t, 0);
      var n := 3 + 3 * ROW + 9 + |row| + 1;
      if n <= |t| then row + ReadDump(t[n..]) else row
  }

  lemma {:induction false} HexAt(s: seq<byte>, k: nat)
    requires k < |s|
    ensures var t := HexColumns(s);
            t[3 * k + 1] == HexDigit(s[k] / 16) && t[3 * k + 2] == HexDigit(s[k] % 16)
  {
    if k < |s| - 1 {
      HexAt(s[..|s|-1], k);
    }
  }

  lemma HexDigitValue(n: nat)
    requires n < 16
    ensures HexValue(HexDigit(n)) == n && HexDigit(n) != ' '
  {
  }

  /** At column k of the line at the start of `t` a reader finds byte k of `s`, or a blank behind the last one. */
  ghost predicate Shows(t: string, s: seq<byte>, k: nat)
    requires |t| >= 3 + 3 * ROW && k < ROW
  {
    && (k < |s| ==> t[4 + 3 * k] == HexDigit(s[k] / 16) && t[5 + 3 * k] == HexDigit(s[k] % 16))
    && (k >= |s| ==> t[4 + 3 * k] == ' ')
  }

  lemma {:induction false} RowShows(s: seq<byte>, rest: string, k: nat)
    requires |s| <= ROW && k < ROW
    ensures |Row(s) + rest| >= 3 + 3 * ROW && Shows(Row(s) + rest, s, k)
  {
    var a, h, b := MARGIN, HexColumns(s), Blanks(3 * (ROW - |s|));
    var tail := GAP + Glyphs(s) + "\n" + rest;
    assert Row(s) + rest == (a + h + b) + tail;
    if k < |s| {
      HexAt(s, k);
    }
  }

  lemma {:induction false} ReadShown(t: string, s: seq<byte>, k: nat)
    requires |s| <= ROW && k <= |s| && |t| >= 3 + 3 * ROW
    requires forall c :: 0 <= c < ROW ==> Shows(t, s, c)
    ensures ReadColumns(t, k) == s[k..]
    decreases ROW - k
  {
    if k < ROW {
      assert Shows(t, s, k);
      if k < |s| {
        HexDigitValue(s[k] / 16);
        HexDigitValue(s[k] % 16);
        ReadShown(t, s, k + 1);
        assert s[k..] == [s[k]] + s[k+1..];
      }
    }
  }

  lemma {:induction false} ReadFirstRow(s: seq<byte>, rest: string)
    requires |s| <= ROW
    ensures ReadDump(Row(s) + rest) == s + ReadDump(rest)
  {
    var t := Row(s) + rest;
    forall c | 0 <= c < ROW
      ensures Shows(t, s, c)
    {
      RowShows(s, rest, c);
    }
    ReadShown(t, s, 0);
    assert ReadColumns(t, 0) == s;
    var n := 3 + 3 * ROW + 9 + |s| + 1;
    assert |Row(s)| == n;
    assert t[n..] == rest;
  }

  lemma {:induction false} SplitRow(s: seq<byte>)
    requires |s| >= ROW
    ensures s[..ROW] + s[ROW..] == s
  {
  }

  /** Reading the hex columns of a dump gives back the dumped bytes. */
  lemma {:induction false} DumpRoundTrip(s: seq<byte>)
    ensures ReadDump(Dump(s)) == s
  {
    if s == [] {
    } else if |s| <= ROW {
      ReadFirstRow(s, "");
      assert Row(s) + "" == Row(s);
    } else {
      DumpRoundTrip(s[ROW..]);
      ReadFirstRow(s[..ROW], Dump(s[ROW..]));
      SplitRow(s);
    }
  }
}
