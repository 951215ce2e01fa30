/** The console's hexadecimal display (IO/Console.cpp): HexDump renders a
    block of at most a few hundred bytes as rows of sixteen, and
    hexadecimalStr cuts the received data into blocks for it. */
module HexDumpText {
  import opened Bytes
  import opened QtSeq
  import opened HexText

  /** The ASCII column shows a byte itself when it lies in ' '..'~' and a dot
      otherwise (bytes from 0x80 on are negative as `char` and fail the test). */
  function Shown(b: byte): (c: char)
    ensures c == '.' || (' ' <= c <= '~' && c as int == b as int)
  {
    if 0x20 <= b <= 0x7E then b as int as char else '.'
  }

  function AsciiColumn(bs: seq<byte>): (s: string)
    ensures |s| == |bs|
    ensures forall i :: 0 <= i < |bs| ==> s[i] == Shown(bs[i])
  {
    seq(|bs|, i requires 0 <= i < |bs| => Shown(bs[i]))
  }

  function Spaces(n: nat): (s: string)
    ensures |s| == n && forall i :: 0 <= i < n ==> s[i] == ' '
  {
    seq(n, _ => ' ')
  }

  /** Byte `t` of a row: "%02X ", with one more space after the eighth byte
      and after the row's last byte. */
  function HexCell(row: seq<byte>, t: nat): string
    requires t < |row|
  {
    HexPair(row[t]) + " " + (if t == 7 || t == |row| - 1 then " " else "")
  }

  /** The cells of the first `n` bytes of a row. */
  function Cells(row: seq<byte>, n: nat): (s: string)
    requires n <= |row|
  {
    if n == 0 then [] else Cells(row, n - 1) + HexCell(row, n - 1)
  }

  /** Filler after a short row's cells: a space when at most eight bytes
      are shown, then three spaces for each missing byte. */
  function Pad(k: nat): string
    requires 1 <= k <= 16
  {
    if k == 16 then [] else (if k <= 8 then " " else "") + Spaces(3 * (16 - k))
  }

  /** One row of the dump: the cells, the filler, then "|  ", the ASCII
      column, a space and a line break. */
  function RowText(row: seq<byte>): string
    requires 1 <= |row| <= 16
  {
    Cells(row, |row|) + RowEnd(row)
  }

  /** What follows a row's cells. */
  function RowEnd(row: seq<byte>): string
    requires 1 <= |row| <= 16
  {
    Pad(|row|) + "|  " + AsciiColumn(row) + " \n"
  }

  /** Where the last row of `d` begins. */
  function LastRowStart(d: seq<byte>): (s: nat)
    requires d != []
    ensures s < |d| <= s + 16 && s % 16 == 0
  {
    16 * ((|d| - 1) / 16)
  }

  /** The dump of `d`: its rows of sixteen bytes in order, the last one
      possibly shorter. */
  function Rows(d: seq<byte>): string
    decreases |d|
  {
    if d == [] then [] else Rows(d[..LastRowStart(d)]) + RowText(d[LastRowStart(d)..])
  }

  /** Row `q` of the dump of `d`: the sixteen bytes from 16q on, or what is
      left of `d` there. */
  function RowAt(d: seq<byte>, q: nat): (row: seq<byte>)
    requires 16 * q < |d|
    ensures 1 <= |row| <= 16
  {
    d[16 * q..if 16 * q + 16 <= |d| then 16 * q + 16 else |d|]
  }

  /** What HexDump's loop appends for byte `i`: its cell and, when it ends
      its row, the rest of the row. */
  function Emit(d: seq<byte>, i: nat): string
    requires i < |d|
  {
    var row := RowAt(d, i / 16);
    var t := i % 16;
    HexCell(row, t) + (if t == |row| - 1 then RowEnd(row) else "")
  }

  /** The bytes of the unfinished row after `n` bytes. */
  function RowSoFar(d: seq<byte>, n: nat): (r: seq<byte>)
    requires n <= |d|
    ensures |r| == n % 16
  {
    d[n - n % 16..n]
  }

  /** The bytes of byte `i`'s row up to and including it. */
  function RowThrough(d: seq<byte>, i: nat): (r: seq<byte>)
    requires i < |d|
    ensures |r| == i % 16 + 1
  {
    d[i - i % 16..i + 1]
  }

  /** The text HexDump has built after `i` bytes. */
  function DumpUpTo(d: seq<byte>, i: nat): string
    requires i <= |d|
  {
    if i == 0 then [] else DumpUpTo(d, i - 1) + Emit(d, i - 1)
  }

  /** HexDump(data, size), with the output as a growing string. The
      ASCII column is a buffer of sixteen characters that each row refills
      before it is printed. */
  method HexDump(data: seq<byte>) returns (str: string)
    ensures str == Rows(data)
  {
    hide Emit, Rows;
    str := "";
    var ascii: string := Spaces(16);
    for i := 0 to |data|
      invariant |ascii| == 16
      invariant str == DumpUpTo(data, i)
      invariant ascii[..i % 16] == AsciiColumn(RowSoFar(data, i))
    {
      var piece;
      piece, ascii := DumpByte(data, i, ascii);
      str := str + piece;
    }
    DumpIsRows(data);
  }

  /** One pass of HexDump's loop: the cell of byte `i`, and the end of its
      row when the byte is the row's sixteenth or the last of the data. */
  method DumpByte(data: seq<byte>, i: nat, ascii: string) returns (piece: string, ascii': string)
    requires i < |data| && |ascii| == 16
    requires ascii[..i % 16] == AsciiColumn(RowSoFar(data, i))
    ensures |ascii'| == 16
    ensures ascii'[..(i + 1) % 16] == AsciiColumn(RowSoFar(data, i + 1))
    ensures piece == Emit(data, i)
  {
    hide Emit, HexPair, AsciiColumn, Shown, RowSoFar, RowThrough, RowAt, Trailer;
    ascii' := ascii[i % 16 := Shown(data[i])];
    AsciiStep(data, i, ascii);
    var rest := RowTrailer(data, i, ascii');
    piece := HexPair(data[i]) + " " + rest;
    EmitShape(data, i);
  }

  /** The rest of one pass of HexDump's loop, once byte `i`'s character is
      in the buffer. */
  method RowTrailer(data: seq<byte>, i: nat, ascii: string) returns (rest: string)
    requires i < |data| && |ascii| == 16
    requires ascii[..i % 16 + 1] == AsciiColumn(RowThrough(data, i))
    ensures rest == Trailer(data, i)
  {
    hide AsciiColumn, Spaces, RowThrough, Trailer;
    TrailerCases(data, i);
    rest := "";
    if (i + 1) % 8 == 0 || i + 1 == |data| {
      rest := " ";
      if (i + 1) % 16 == 0 {
        assert ascii == ascii[..i % 16 + 1];
        rest := rest + "|  " + ascii + " \n";
        assert rest == Trailer(data, i);
      } else if i + 1 == |data| {
        var k := (i + 1) % 16;
        if k <= 8 {
          rest := rest + " ";
        }
        ghost var padded := rest;
        for j := k to 16
          invariant rest == padded + Spaces(3 * (j - k))
        {
          rest := rest + "   ";
          SpacesMore(3 * (j - k));
        }
        rest := rest + "|  " + ascii[..k] + " \n";
        assert rest == Trailer(data, i);
      } else {
        assert rest == Trailer(data, i);
      }
    } else {
      assert rest == Trailer(data, i);
    }
  }

  lemma SpacesMore(n: nat)
    ensures Spaces(n) + "   " == Spaces(n + 3)
  {
  }

  /** What HexDump's loop appends after byte `i`'s "%02X ", in the order
      the loop tests its conditions: a space at the end of each group of
      eight and of the data, then the end of a full row, or the filler and
      end of the last, short row. */
  function Trailer(d: seq<byte>, i: nat): string
    requires i < |d|
  {
    var k := (i + 1) % 16;
    if (i + 1) % 8 == 0 || i + 1 == |d| then
      if k == 0 then " " + "|  " + AsciiColumn(RowThrough(d, i)) + " \n"
      else if i + 1 == |d| then
        (if k <= 8 then " " + " " else " ") + Spaces(3 * (16 - k)) + "|  " + AsciiColumn(RowThrough(d, i)) + " \n"
      else " "
    else ""
  }

  /** Trailer case by case, grouped as the loop appends its pieces. */
  lemma TrailerCases(d: seq<byte>, i: nat)
    requires i < |d|
    ensures (i + 1) % 16 == 0 ==> (i + 1) % 8 == 0 && i % 16 == 15
    ensures (i + 1) % 16 != 0 ==> (i + 1) % 16 == i % 16 + 1
    ensures (i + 1) % 16 == 0 ==>
      Trailer(d, i) == " " + "|  " + AsciiColumn(RowThrough(d, i)) + " \n"
    ensures (i + 1) % 16 != 0 && i + 1 == |d| ==>
      var k := (i + 1) % 16;
      Trailer(d, i) == (if k <= 8 then " " + " " else " ") + Spaces(3 * (16 - k)) + "|  " + AsciiColumn(RowThrough(d, i)) + " \n"
    ensures (i + 1) % 16 != 0 && i + 1 != |d| && (i + 1) % 8 == 0 ==> Trailer(d, i) == " "
    ensures (i + 1) % 8 != 0 && i + 1 != |d| ==> Trailer(d, i) == ""
  {
    hide AsciiColumn, Spaces, RowThrough;
    var q, t := i / 16, i % 16;
    assert i + 1 == 16 * q + t + 1;
    NextPosition(q, t);
  }

  /** The byte's cell and row end, as the loop produces them. */
  lemma EmitShape(d: seq<byte>, i: nat)
    requires i < |d|
    ensures Emit(d, i) == HexPair(d[i]) + " " + Trailer(d, i)
  {
    hide HexPair, AsciiColumn, Spaces, RowAt, RowThrough, Trailer;
    RowFacts(d, i);
    TrailerCases(d, i);
    var row, t := RowAt(d, i / 16), i % 16;
    var p, a := HexPair(d[i]), AsciiColumn(RowThrough(d, i));
    if t == |row| - 1 {
      var k := |row|;
      var gap := Pad(k);
      assert Emit(d, i) == ((p + " ") + " ") + (((gap + "|  ") + a) + " \n");
      Regroup(p + " ", " ", gap, "|  ", a, " \n");
      if (i + 1) % 16 == 0 {
        assert gap + "|  " == "|  ";
      } else {
        var lead := if k <= 8 then " " else "";
        var fill := Spaces(3 * (16 - k));
        assert (if k <= 8 then " " + " " else " ") == " " + lead;
        Regroup(p + " ", " ", lead, fill, "|  " + a, " \n");
        Regroup(" ", lead, fill, "|  ", a, " \n");
      }
    } else {
      assert Emit(d, i) == p + " " + (if t == 7 then " " else "");
    }
  }

  /** Moving a leading piece out of a left-nested concatenation. */
  lemma Regroup(x: string, c: string, g: string, u: string, v: string, w: string)
    ensures (x + c) + (((g + u) + v) + w) == x + (((((c + g) + u) + v) + w))
    ensures (c + g) + u == c + (g + u)
  {
    assert (c + g) + u == c + (g + u);
    assert (((c + g) + u) + v) + w == c + (((g + u) + v) + w);
  }

  /** Where byte `i` sits in its row, and when it ends the row or a group of
      eight. */
  lemma RowFacts(d: seq<byte>, i: nat)
    requires i < |d|
    ensures var row := RowAt(d, i / 16);
      var t := i % 16;
      t < |row| && row[t] == d[i] &&
      (t == |row| - 1 <==> (i + 1) % 16 == 0 || i + 1 == |d|) &&
      (t == |row| - 1 ==> row == RowThrough(d, i)) &&
      (t == 7 || t == |row| - 1 <==> (i + 1) % 8 == 0 || i + 1 == |d|) &&
      ((i + 1) % 16 != 0 ==> (i + 1) % 16 == t + 1) &&
      ((i + 1) % 16 == 0 ==> t == 15 && |row| == 16)
  {
    hide AsciiColumn, Shown;
    var q, t := i / 16, i % 16;
    assert i == 16 * q + t;
    NextPosition(q, t);
    var row := RowAt(d, q);
    assert |row| == if 16 * q + 16 <= |d| then 16 else |d| - 16 * q;
    assert row[..t + 1] == d[16 * q..i + 1];
  }

  /** The position after byte 16q + t: its remainders by sixteen and by
      eight. */
  lemma NextPosition(q: nat, t: nat)
    requires t < 16
    ensures (16 * q + t + 1) % 16 == (if t == 15 then 0 else t + 1)
    ensures (16 * q + t + 1) % 8 == 0 <==> t == 7 || t == 15
  {
    if t == 15 {
      RowDiv(q + 1, 0);
      GroupDiv(2 * q + 2, 0);
    } else {
      RowDiv(q, t + 1);
      if t < 7 {
        GroupDiv(2 * q, t + 1);
      } else {
        GroupDiv(2 * q + 1, t - 7);
      }
    }
  }

  /** Byte 8m + r lies at column r of its group of eight. */
  lemma GroupDiv(m: nat, r: nat)
    requires r < 8
    ensures (8 * m + r) % 8 == r
  {
  }

  /** Writing byte `i`'s character into the buffer extends the column by one. */
  lemma AsciiStep(d: seq<byte>, i: nat, ascii: string)
    requires i < |d| && |ascii| == 16
    requires ascii[..i % 16] == AsciiColumn(RowSoFar(d, i))
    ensures var ascii' := ascii[i % 16 := Shown(d[i])];
      ascii'[..i % 16 + 1] == AsciiColumn(RowThrough(d, i)) &&
      ascii'[..(i + 1) % 16] == AsciiColumn(RowSoFar(d, i + 1))
  {
    var t := i % 16;
    var a := ascii[t := Shown(d[i])][..t + 1];
    var b := AsciiColumn(RowThrough(d, i));
    forall k | 0 <= k < t + 1 ensures a[k] == b[k] {
      if k < t {
        assert a[k] == ascii[..t][k] == AsciiColumn(RowSoFar(d, i))[k];
      }
    }
    RowDiv(i / 16, t);
    if t < 15 {
      RowDiv(i / 16, t + 1);
      assert RowSoFar(d, i + 1) == RowThrough(d, i);
    } else {
      RowDiv(i / 16 + 1, 0);
    }
  }

  /** Inside the row that starts at byte 16q: after n of its bytes the loop
      has added their cells, and the row's end once the row is complete. */
  lemma {:induction false} WithinRow(d: seq<byte>, q: nat, n: nat)
    requires 16 * q < |d|
    requires n <= |RowAt(d, q)|
    ensures var row := RowAt(d, q);
      DumpUpTo(d, 16 * q + n) == DumpUpTo(d, 16 * q) + Cells(row, n) + (if n == |row| then RowEnd(row) else "")
    decreases n
  {
    hide RowEnd, HexCell, Emit, RowAt;
    if n > 0 {
      WithinRow(d, q, n - 1);
      EmitInRow(d, q, n - 1);
    }
  }

  /** Byte n of row q is emitted as that row's cell n. */
  lemma EmitInRow(d: seq<byte>, q: nat, n: nat)
    requires 16 * q < |d|
    requires n < |RowAt(d, q)|
    ensures var row := RowAt(d, q);
      Emit(d, 16 * q + n) == HexCell(row, n) + (if n == |row| - 1 then RowEnd(row) else "")
  {
    hide RowEnd, HexCell, RowAt;
    RowDiv(q, n);
  }

  /** After whole rows the loop has written exactly those rows. */
  lemma {:induction false} WholeRows(d: seq<byte>, q: nat)
    requires 16 * q <= |d|
    ensures DumpUpTo(d, 16 * q) == Rows(d[..16 * q])
    decreases q
  {
    hide RowEnd, Cells, Emit, RowAt, RowText, Rows;
    if q == 0 {
      assert d[..0] == [];
      EmptyRows();
    } else {
      var s := 16 * (q - 1);
      WholeRows(d, q - 1);
      RowsAppend(d, q - 1, 16 * q);
      WithinRow(d, q - 1, 16);
      RowTextIs(RowAt(d, q - 1));
    }
  }

  lemma NothingDumped(d: seq<byte>)
    ensures DumpUpTo(d, 0) == []
  {
  }

  lemma EmptyRows()
    ensures Rows([]) == []
  {
  }

  lemma RowTextIs(row: seq<byte>)
    requires 1 <= |row| <= 16
    ensures RowText(row) == Cells(row, |row|) + RowEnd(row)
  {
  }

  /** The dump of the data up to the end of row q is the dump before the
      row followed by the row. */
  lemma RowsAppend(d: seq<byte>, q: nat, e: nat)
    requires 16 * q < e <= |d| && e <= 16 * q + 16
    ensures e == 16 * q + 16 || e == |d| ==> RowAt(d, q) == d[16 * q..e]
    ensures Rows(d[..e]) == Rows(d[..16 * q]) + RowText(d[16 * q..e])
  {
    hide RowText;
    var p := d[..e];
    RowDiv(q, e - 16 * q - 1);
    assert LastRowStart(p) == 16 * q;
    assert p[..16 * q] == d[..16 * q] && p[16 * q..] == d[16 * q..e];
  }

  /** Byte 16q + r lies in row q at column r. */
  lemma RowDiv(q: nat, r: nat)
    requires r < 16
    ensures (16 * q + r) / 16 == q && (16 * q + r) % 16 == r
  {
  }

  /** HexDump's output is its rows. */
  lemma DumpIsRows(d: seq<byte>)
    ensures DumpUpTo(d, |d|) == Rows(d)
  {
    hide RowEnd, Cells, Emit, RowAt, RowText, Rows, DumpUpTo;
    if d == [] {
      EmptyRows();
      NothingDumped(d);
    } else {
      var q := (|d| - 1) / 16;
      var s := 16 * q;
      WholeRows(d, q);
      assert |d| - 1 == s + (|d| - 1) % 16;
      RowsAppend(d, q, |d|);
      var row := RowAt(d, q);
      assert d[s..] == row;
      WithinRow(d, q, |d| - s);
      RowTextIs(row);
      assert d[..|d|] == d;
      assert DumpUpTo(d, |d|) == Rows(d[..s]) + (Cells(row, |row|) + RowEnd(row));
    }
  }

  /** The length of a row's cells: three characters a byte, one more after
      the eighth byte and one more after the last (the same space when the
      row holds eight bytes). */
  lemma {:induction false} CellsLength(row: seq<byte>, n: nat)
    requires n <= |row|
    ensures |Cells(row, n)| == 3 * n + (if n >= 8 then 1 else 0) + (if n == |row| && n != 8 && n > 0 then 1 else 0)
    decreases n
  {
    if n > 0 {
      CellsLength(row, n - 1);
    }
  }

  lemma CellsStep(row: seq<byte>, n: nat)
    requires 0 < n <= |row|
    ensures Cells(row, n) == Cells(row, n - 1) + HexCell(row, n - 1)
  {
  }

  lemma PadLength(k: nat)
    requires 1 <= k <= 16
    ensures |Pad(k)| == if k == 16 then 0 else (if k <= 8 then 1 else 0) + 3 * (16 - k)
  {
  }

  /** A row is its cells and filler followed by "|  ", the column and " \n". */
  lemma RowTextParts(row: seq<byte>)
    requires 1 <= |row| <= 16
    ensures RowText(row) == (Cells(row, |row|) + Pad(|row|)) + ("|  " + AsciiColumn(row) + " \n")
  {
    hide Cells, Pad, AsciiColumn;
  }

  lemma SliceLeft<T>(x: seq<T>, y: seq<T>, i: nat, j: nat)
    requires i <= j <= |x|
    ensures (x + y)[i..j] == x[i..j]
  {
  }

  lemma SliceRight<T>(x: seq<T>, y: seq<T>, i: nat, j: nat)
    requires i <= j <= |y|
    ensures (x + y)[|x| + i..|x| + j] == y[i..j]
  {
  }

  /** Every row keeps its columns: the cells and filler take fifty
      characters, so "|  " and the ASCII column start at the same place in
      every row, short or full. */
  lemma RowLayout(row: seq<byte>)
    requires 1 <= |row| <= 16
    ensures |Cells(row, |row|) + Pad(|row|)| == 50
    ensures RowText(row)[50..53] == "|  "
    ensures RowText(row)[53..53 + |row|] == AsciiColumn(row)
    ensures |RowText(row)| == 55 + |row|
  {
    hide Cells, Pad, AsciiColumn, RowText, HexPair, Spaces;
    CellsLength(row, |row|);
    PadLength(|row|);
    RowTextParts(row);
    var x := Cells(row, |row|) + Pad(|row|);
    var y := "|  " + AsciiColumn(row) + " \n";
    SliceRight(x, y, 0, 3);
    SliceRight(x, y, 3, 3 + |row|);
    assert y[..3] == "|  " && y[3..3 + |row|] == AsciiColumn(row);
  }

  /** Byte `t` of a row is shown as its two uppercase digits at column
      3t, plus one past the eighth byte. */
  lemma {:induction false} CellsShowByte(row: seq<byte>, n: nat, t: nat)
    requires t < n <= |row|
    ensures var at := 3 * t + (if t >= 8 then 1 else 0);
      at + 2 <= |Cells(row, n)| && Cells(row, n)[at..at + 2] == HexPair(row[t])
    decreases n
  {
    hide HexPair, Cells;
    var at := 3 * t + (if t >= 8 then 1 else 0);
    CellsLength(row, t);
    CellsLength(row, n - 1);
    var x, y := Cells(row, n - 1), HexCell(row, n - 1);
    CellsStep(row, n);
    if t < n - 1 {
      CellsShowByte(row, n - 1, t);
      SliceLeft(x, y, at, at + 2);
    } else {
      assert |x| == at;
      SliceRight(x, y, 0, 2);
      assert y[..2] == HexPair(row[t]);
    }
  }

  /** The dump reads back: the two digits shown for byte `t` of a row,
      parsed as base 16 the way the console parses typed hex, give the byte. */
  lemma RowReadsBack(row: seq<byte>, t: nat)
    requires 1 <= |row| <= 16 && t < |row|
    ensures var at := 3 * t + (if t >= 8 then 1 else 0);
      at + 2 <= 50 < |RowText(row)| && ToIntBase16(RowText(row)[at..at + 2]) == row[t] as int
  {
    hide Cells, RowEnd, RowText, HexPair, ToIntBase16, Pad, AsciiColumn;
    var at := 3 * t + (if t >= 8 then 1 else 0);
    CellsShowByte(row, |row|, t);
    RowTextIs(row);
    RowLayout(row);
    SliceLeft(Cells(row, |row|), RowEnd(row), at, at + 2);
    HexPairParses(row[t]);
  }

  // ---------------------------------------------------------------- hexadecimalStr

  /** The blocks hexadecimalStr hands to HexDump when each block starts
      `step` bytes after the previous one: at most 80 bytes each. */
  function Chunks(d: seq<byte>, step: nat): (cs: seq<seq<byte>>)
    requires step > 0
    ensures forall c :: c in cs ==> 1 <= |c| <= 80
    decreases |d|
  {
    if d == [] then [] else [d[..if |d| < 80 then |d| else 80]] + Chunks(Mid(d, step), step)
  }

  /** Chunks unfolded once, for proofs that hide it. */
  lemma ChunksStep(d: seq<byte>, step: nat)
    requires step > 0
    ensures d == [] ==> Chunks(d, step) == []
    ensures d != [] ==> Chunks(d, step) == [d[..if |d| < 80 then |d| else 80]] + Chunks(Mid(d, step), step)
  {
  }

  function Concat(cs: seq<seq<byte>>): seq<byte>
  {
    if cs == [] then [] else cs[0] + Concat(cs[1..])
  }

  function DumpAll(cs: seq<seq<byte>>): string
  {
    if cs == [] then [] else Rows(cs[0]) + DumpAll(cs[1..])
  }

  /** hexadecimalStr as written: after a block of 80 the index moves on by
      80 and the loop's own increment adds one more, so each block starts
      81 bytes after the previous one. */
  method HexadecimalStr(data: seq<byte>) returns (str: string)
    ensures str == DumpAll(Chunks(data, 81))
  {
    hide Rows, Chunks, DumpAll;
    str := "";
    var i := 0;
    MidZero(data);
    while i < |data|
      invariant 0 <= i
      invariant str + DumpAll(Chunks(Mid(data, i), 81)) == DumpAll(Chunks(data, 81))
    {
      ghost var rest := Mid(data, i);
      ChunksStep(rest, 81);
      MidMid(data, i, 81);
      var line := Line(data, i);
      i := i + 80;
      var dump := HexDump(line);
      str := str + dump;
      i := i + 1;
      DumpAllCons(line, Chunks(Mid(data, i), 81));
    }
    assert Mid(data, i) == [];
    ChunksStep([], 81);
    DumpAllCons([], []);
  }

  /** hexadecimalStr with each block starting where the previous one ended. */
  method HexadecimalStrFixed(data: seq<byte>) returns (str: string)
    ensures str == DumpAll(Chunks(data, 80))
  {
    hide Rows, Chunks, DumpAll;
    str := "";
    var i := 0;
    MidZero(data);
    while i < |data|
      invariant 0 <= i
      invariant str + DumpAll(Chunks(Mid(data, i), 80)) == DumpAll(Chunks(data, 80))
    {
      ghost var rest := Mid(data, i);
      ChunksStep(rest, 80);
      MidMid(data, i, 80);
      var line := Line(data, i);
      var dump := HexDump(line);
      str := str + dump;
      i := i + 80;
      DumpAllCons(line, Chunks(Mid(data, i), 80));
    }
    assert Mid(data, i) == [];
    ChunksStep([], 80);
    DumpAllCons([], []);
  }

  /** The inner loop of hexadecimalStr: the next min(80, rest) bytes from
      position i, which are the first block of what remains. */
  method Line(data: seq<byte>, i: nat) returns (line: seq<byte>)
    requires i < |data|
    ensures line == Chunks(Mid(data, i), 81)[0] == Chunks(Mid(data, i), 80)[0]
  {
    line := [];
    var n := if 80 < |data| - i then 80 else |data| - i;
    for j := 0 to n
      invariant line == data[i..i + j]
    {
      line := line + [data[i + j]];
    }
  }

  /** With blocks starting 80 bytes apart, the blocks are the data cut into
      pieces: every byte is dumped once, in order. */
  lemma {:induction false} FixedCoversAll(d: seq<byte>)
    ensures Concat(Chunks(d, 80)) == d
    decreases |d|
  {
    hide Chunks, Concat;
    if d == [] {
      ChunksStep([], 80);
      ConcatCons([], []);
    } else {
      var c := d[..if |d| < 80 then |d| else 80];
      ChunksStep(d, 80);
      FixedCoversAll(Mid(d, 80));
      ConcatCons(c, Chunks(Mid(d, 80), 80));
      assert c + Mid(d, 80) == d;
    }
  }

  lemma ConcatCons(c: seq<byte>, cs: seq<seq<byte>>)
    ensures Concat([c] + cs) == c + Concat(cs)
    ensures Concat([]) == []
  {
    assert ([c] + cs)[1..] == cs;
  }

  lemma DumpAllCons(c: seq<byte>, cs: seq<seq<byte>>)
    ensures DumpAll([c] + cs) == Rows(c) + DumpAll(cs)
    ensures DumpAll([]) == []
  {
    assert ([c] + cs)[1..] == cs;
  }

  /** As written, once the data is longer than 80 bytes a byte is lost:
      the blocks join to less than the data, and the 81st byte is in none
      of them. */
  lemma {:induction false} AsWrittenDropsBytes(d: seq<byte>)
    ensures |Concat(Chunks(d, 81))| == |d| - |d| / 81
    decreases |d|
  {
    hide Chunks, Concat;
    if d == [] {
      ChunksStep([], 81);
      ConcatCons([], []);
    } else {
      var c := d[..if |d| < 80 then |d| else 80];
      ChunksStep(d, 81);
      AsWrittenDropsBytes(Mid(d, 81));
      ConcatCons(c, Chunks(Mid(d, 81), 81));
    }
  }

  /** The smallest input that shows it: 81 bytes become a single block of
      the first 80. */
  lemma AsWrittenLosesByte80(d: seq<byte>)
    requires |d| == 81
    ensures Chunks(d, 81) == [d[..80]]
    ensures Concat(Chunks(d, 81)) != d
  {
    assert Mid(d, 81) == [];
    assert |Concat(Chunks(d, 81))| == 80;
  }
}
