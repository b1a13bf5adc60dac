/** The hex dump of a byte array (RfcliPDUDisplayer::display_uint8Array). */
module HexDump {
  import opened Words
  import opened HexDigits

  const WRAP := 8
  // The printable column starts here, counted after the indent.
  const ASCII_COLUMN := 48

  function Spaces(n: nat): string {
    seq(n, _ => ' ')
  }

  function Indent(indent: nat): string {
    Spaces(4 * indent)
  }

  /* ---- the text of one entry ---- */

  // "0x%02x"
  function Cell(b: U8): (s: string)
    ensures |s| == 4
  {
    ['0', 'x', Digit(b / 0x10), Digit(b % 0x10)]
  }

  function Shown(b: U8): (c: char)
    ensures c != '\n' && c != '\0'
  {
    if 0x20 <= b <= 0x7e then b as char else '.'
  }

  function Ascii(d: seq<U8>): (s: string)
    ensures |s| == |d|
  {
    seq(|d|, i requires 0 <= i < |d| => Shown(d[i]))
  }

  /* ---- the layout ---- */

  // Cells of a row, each followed by a comma and a space but the last.
  function Cells(d: seq<U8>): (s: string)
    ensures |s| == if d == [] then 0 else 6 * |d| - 2
  {
    if d == [] then ""
    else if |d| == 1 then Cell(d[0])
    else Cell(d[0]) + ", " + Cells(d[1..])
  }

  // A row that is not the last has eight cells and a delimiter; the last one is padded to the same width.
  function FullRow(d: seq<U8>): (s: string)
    requires |d| == WRAP
    ensures |s| == ASCII_COLUMN + WRAP
  {
    Cells(d) + ", " + Ascii(d)
  }

  function LastRow(d: seq<U8>): (s: string)
    requires 0 < |d| <= WRAP
    ensures |s| == ASCII_COLUMN + |d|
  {
    Cells(d) + "  " + Spaces(6 * (WRAP - |d|)) + Ascii(d)
  }

  function Rows(d: seq<U8>): (rows: seq<string>)
    requires d != []
  {
    if |d| <= WRAP then [LastRow(d)] else [FullRow(d[..WRAP])] + Rows(d[WRAP..])
  }

  function Lines(rows: seq<string>, ind: string): string {
    if rows == [] then "" else ind + rows[0] + "\n" + Lines(rows[1..], ind)
  }

  function Heading(indent: nat, name: string): string {
    Indent(indent) + name + " =\n"
  }

  function Dump(indent: nat, name: string, d: seq<U8>): string
    requires d != []
  {
    Heading(indent, name) + Lines(Rows(d), Indent(indent + 1))
  }

  // What is in a row: every entry is 0x and the two digits of its byte, in lower case, a comma and a space between two
  // entries and after the last one of a row that is not the last; and the character of every byte from 0x20 to 0x7e
  // stands in the printable column, for the others a dot.
  lemma RowText(d: seq<U8>, r: nat, k: nat)
    requires d != [] && r < |Rows(d)| && WRAP * r <= |d| && k < |Chunk(d, r)|
    ensures |Rows(d)[r]| == ASCII_COLUMN + |Chunk(d, r)|
    ensures var row, b, hex := Rows(d)[r], Chunk(d, r)[k], "0123456789abcdef";
            && row[6 * k..6 * k + 4] == ['0', 'x', hex[b / 0x10], hex[b % 0x10]]
            && (k + 1 < |Chunk(d, r)| || r < |Rows(d)| - 1 ==> row[6 * k + 4..6 * k + 6] == ", ")
            && row[ASCII_COLUMN + k] == if 0x20 <= b <= 0x7e then b as char else '.'
  {
    hide Rows, Chunk, Cells, Cell;
    RowLayout(d, r);
    RowIs(d, r);
    var c, row := Chunk(d, r), Rows(d)[r];
    CellText(c, k);
    CellsFirst(c, row);
    SameSlice(row, Cells(c), 6 * k, 6 * k + 4);
    if k + 1 < |c| {
      SameSlice(row, Cells(c), 6 * k + 4, 6 * k + 6);
    } else if r < |Rows(d)| - 1 {
      DelimiterLast(c);
    }
    assert row[ASCII_COLUMN..][k] == Ascii(c)[k];
  }

  lemma CellsFirst(c: seq<U8>, row: string)
    requires 0 < |c| <= WRAP && (row == LastRow(c) || (|c| == WRAP && row == FullRow(c)))
    ensures Cells(c) <= row
  {
    hide Cells, Ascii;
  }

  lemma DelimiterLast(c: seq<U8>)
    requires |c| == WRAP
    ensures FullRow(c)[6 * WRAP - 2..6 * WRAP] == ", "
  {
    hide Cells, Ascii;
  }

  lemma SameSlice(s: string, t: string, from: nat, to: nat)
    requires t <= s && from <= to <= |t|
    ensures s[from..to] == t[from..to]
  {
  }

  lemma {:induction false} RowIs(d: seq<U8>, r: nat)
    requires d != [] && r < |Rows(d)| && WRAP * r <= |d|
    ensures 0 < |Chunk(d, r)| <= WRAP
    ensures r < |Rows(d)| - 1 ==> |Chunk(d, r)| == WRAP && Rows(d)[r] == FullRow(Chunk(d, r))
    ensures r == |Rows(d)| - 1 ==> Rows(d)[r] == LastRow(Chunk(d, r))
    decreases |d|
  {
    RowLayout(d, r);
    if |d| > WRAP {
      var tail := d[WRAP..];
      assert Rows(d) == [FullRow(d[..WRAP])] + Rows(tail);
      if r > 0 {
        RowIs(tail, r - 1);
        ChunkOfTail(d, r);
        hide Rows, Chunk, FullRow, LastRow;
      } else {
        assert Chunk(d, 0) == d[..WRAP];
      }
    } else {
      assert Rows(d) == [LastRow(d)] && Chunk(d, 0) == d;
    }
  }

  lemma {:induction false} CellText(d: seq<U8>, k: nat)
    requires k < |d|
    ensures 6 * k + 4 <= |Cells(d)|
    ensures Cells(d)[6 * k..6 * k + 4] == ['0', 'x', "0123456789abcdef"[d[k] / 0x10], "0123456789abcdef"[d[k] % 0x10]]
    ensures k + 1 < |d| ==> Cells(d)[6 * k + 4..6 * k + 6] == ", "
  {
    var s := Cells(d);
    hide Cell;
    if k > 0 {
      CellText(d[1..], k - 1);
      var t := Cells(d[1..]);
      assert s == Cell(d[0]) + ", " + t;
      hide Cells;
      Shifted(s, t, Cell(d[0]) + ", ", 6 * k - 6, 6 * k - 2);
      if k + 1 < |d| {
        Shifted(s, t, Cell(d[0]) + ", ", 6 * k - 2, 6 * k);
      }
    } else {
      CellIs(d[0]);
      assert s[..4] == Cell(d[0]);
    }
  }

  lemma CellIs(b: U8)
    ensures Cell(b) == ['0', 'x', "0123456789abcdef"[b / 0x10], "0123456789abcdef"[b % 0x10]]
  {
    Alphabet(b / 0x10);
    Alphabet(b % 0x10);
  }

  lemma Shifted(s: string, t: string, head: string, from: nat, to: nat)
    requires s == head + t && from <= to <= |t|
    ensures s[|head| + from..|head| + to] == t[from..to]
  {
  }

  // The bytes of row r.
  function Chunk(d: seq<U8>, r: nat): seq<U8>
    requires WRAP * r <= |d|
  {
    d[WRAP * r..if WRAP * (r + 1) < |d| then WRAP * (r + 1) else |d|]
  }

  // Every row carries its printable column in the same place, eight cells a row but in the last.
  lemma {:induction false} RowLayout(d: seq<U8>, r: nat)
    requires d != [] && r < |Rows(d)|
    ensures |Rows(d)| == (|d| + WRAP - 1) / WRAP && WRAP * r < |d|
    ensures 0 < |Chunk(d, r)| <= WRAP && (r < |Rows(d)| - 1 ==> |Chunk(d, r)| == WRAP)
    ensures |Rows(d)[r]| == ASCII_COLUMN + |Chunk(d, r)| && Rows(d)[r][ASCII_COLUMN..] == Ascii(Chunk(d, r))
    decreases |d|
  {
    if |d| > WRAP {
      var tail := d[WRAP..];
      assert Rows(d) == [FullRow(d[..WRAP])] + Rows(tail);
      if r > 0 {
        RowLayout(tail, r - 1);
        ChunkOfTail(d, r);
        hide Rows, Chunk, Ascii;
        assert Rows(d)[r] == Rows(tail)[r - 1];
      } else {
        RowLayout(tail, 0);
        assert Chunk(d, 0) == d[..WRAP];
        hide Rows, Chunk, Cells;
      }
    } else {
      assert Rows(d) == [LastRow(d)] && Chunk(d, 0) == d;
      hide Rows, Chunk, Cells;
    }
  }

  lemma ChunkOfTail(d: seq<U8>, r: nat)
    requires |d| > WRAP && r > 0 && WRAP * r <= |d|
    ensures Chunk(d[WRAP..], r - 1) == Chunk(d, r)
  {
    var tail := d[WRAP..];
    var end := if WRAP * r < |tail| then WRAP * r else |tail|;
    TailSlice(d, WRAP, WRAP * (r - 1), end);
  }

  lemma TailSlice(d: seq<U8>, n: nat, from: nat, to: nat)
    requires n <= |d| && from <= to <= |d| - n
    ensures d[n..][from..to] == d[n + from..n + to]
  {
  }

  /* ---- reading it back ---- */

  // The cells of a row, from column 6k on: at most eight, up to the first blank place.
  function ReadCells(row: string, k: nat): seq<nat>
    decreases WRAP - k
  {
    if k >= WRAP || 6 * k + 4 > |row| || row[6 * k] != '0' then []
    else if !IsHexDigit(row[6 * k + 2]) || !IsHexDigit(row[6 * k + 3]) then []
    else [16 * DigitValue(row[6 * k + 2]) + DigitValue(row[6 * k + 3])] + ReadCells(row, k + 1)
  }

  function FirstLine(t: string): (n: nat)
    ensures n <= |t|
  {
    if t == "" || t[0] == '\n' then 0 else 1 + FirstLine(t[1..])
  }

  // All lines of a text, the first `skip` characters of each left out.
  function ReadLines(t: string, skip: nat): seq<nat>
    decreases |t|
  {
    if t == "" then []
    else
      var n := FirstLine(t);
      (if skip <= n then ReadCells(t[skip..n], 0) else []) + if n < |t| then ReadLines(t[n + 1..], skip) else []
  }

  // A dump without its heading, read line by line.
  function ReadDump(t: string, indent: nat, name: string): seq<nat> {
    var n := |Heading(indent, name)|;
    if n <= |t| then ReadLines(t[n..], 4 * (indent + 1)) else []
  }

  lemma {:induction false} CellAt(d: seq<U8>, k: nat)
    requires k < |d|
    ensures var s, c := Cells(d), Cell(d[k]);
            s[6 * k] == c[0] && s[6 * k + 2] == c[2] && s[6 * k + 3] == c[3]
  {
    hide Cell;
    if k > 0 {
      CellAt(d[1..], k - 1);
      var t := Cells(d[1..]);
      assert Cells(d) == Cell(d[0]) + ", " + t;
      hide Cells;
    }
  }

  lemma CellValue(b: U8)
    ensures Cell(b)[0] == '0' && IsHexDigit(Cell(b)[2]) && IsHexDigit(Cell(b)[3])
    ensures 16 * DigitValue(Cell(b)[2]) + DigitValue(Cell(b)[3]) == b
  {
  }

  ghost predicate CellHolds(row: string, k: nat, b: U8) {
    && 6 * k + 4 <= |row| && row[6 * k] == '0' && IsHexDigit(row[6 * k + 2]) && IsHexDigit(row[6 * k + 3])
    && 16 * DigitValue(row[6 * k + 2]) + DigitValue(row[6 * k + 3]) == b
  }

  lemma CellInRow(d: seq<U8>, row: string, k: nat)
    requires k < |d| && Cells(d) <= row
    ensures CellHolds(row, k, d[k])
  {
    CellAt(d, k);
    CellValue(d[k]);
    var cells := Cells(d);
    assert |cells| >= 6 * k + 4;
    hide Cell, Cells, DigitValue, IsHexDigit;
    assert row[6 * k] == cells[6 * k] && row[6 * k + 2] == cells[6 * k + 2] && row[6 * k + 3] == cells[6 * k + 3];
  }

  lemma ReadOne(row: string, k: nat, b: U8)
    requires k < WRAP && CellHolds(row, k, b)
    ensures ReadCells(row, k) == [b] + ReadCells(row, k + 1)
  {
    hide DigitValue, IsHexDigit;
  }

  lemma ReadNone(row: string, k: nat)
    requires k >= WRAP || (6 * k < |row| && row[6 * k] == ' ')
    ensures ReadCells(row, k) == []
  {
  }

  // A row of cells followed by two more characters and, when short, by blanks.
  lemma {:induction false} ReadRow(d: seq<U8>, row: string, k: nat)
    requires k <= |d| <= WRAP && Cells(d) <= row
    requires |d| < WRAP ==> |row| > 6 * |d| && row[6 * |d|] == ' '
    ensures ReadCells(row, k) == d[k..]
    decreases |d| - k
  {
    hide Cells, DigitValue, IsHexDigit, ReadCells, CellHolds;
    if k < |d| {
      ReadRow(d, row, k + 1);
      CellInRow(d, row, k);
      ReadOne(row, k, d[k]);
      assert d[k..] == [d[k]] + d[k + 1..];
    } else {
      ReadNone(row, k);
      assert d[k..] == [];
    }
  }

  ghost predicate OneLine(t: string) {
    forall i :: 0 <= i < |t| ==> t[i] != '\n'
  }

  lemma {:induction false} FirstLineOf(line: string, more: string)
    requires OneLine(line)
    ensures FirstLine(line + "\n" + more) == |line|
  {
    var t := line + "\n" + more;
    if line != "" {
      assert t[1..] == line[1..] + "\n" + more;
      FirstLineOf(line[1..], more);
    }
  }

  lemma {:induction false} CellsOneLine(d: seq<U8>)
    ensures OneLine(Cells(d))
  {
    if |d| > 1 {
      CellsOneLine(d[1..]);
    }
  }

  lemma FullRowReadBack(d: seq<U8>)
    requires |d| == WRAP
    ensures OneLine(FullRow(d)) && ReadCells(FullRow(d), 0) == d
  {
    CellsOneLine(d);
    hide Cells, ReadCells;
    assert Cells(d) <= FullRow(d);
    ReadRow(d, FullRow(d), 0);
  }

  lemma LastRowReadBack(d: seq<U8>)
    requires 0 < |d| <= WRAP
    ensures OneLine(LastRow(d)) && ReadCells(LastRow(d), 0) == d
  {
    CellsOneLine(d);
    hide Cells, ReadCells;
    assert Cells(d) <= LastRow(d);
    assert |d| < WRAP ==> LastRow(d)[6 * |d|] == Spaces(6 * (WRAP - |d|))[0];
    ReadRow(d, LastRow(d), 0);
  }

  lemma ReadOneLine(ind: string, row: string, more: string)
    requires OneLine(ind) && OneLine(row)
    ensures ReadLines(ind + row + "\n" + more, |ind|) == ReadCells(row, 0) + ReadLines(more, |ind|)
  {
    var line := ind + row;
    FirstLineOf(line, more);
    var t := line + "\n" + more;
    assert t[|ind|..|line|] == row && t[|line| + 1..] == more;
  }

  lemma {:induction false} LinesReadBack(d: seq<U8>, ind: string)
    requires d != [] && OneLine(ind)
    ensures ReadLines(Lines(Rows(d), ind), |ind|) == d
    decreases |d|
  {
    if |d| <= WRAP {
      LastRowReadBack(d);
      ReadOneLine(ind, LastRow(d), "");
      assert Lines(Rows(d), ind) == ind + LastRow(d) + "\n" + "";
    } else {
      var head, tail := d[..WRAP], d[WRAP..];
      FullRowReadBack(head);
      LinesReadBack(tail, ind);
      ReadOneLine(ind, FullRow(head), Lines(Rows(tail), ind));
      assert Rows(d)[1..] == Rows(tail);
      assert d == head + tail;
    }
  }

  // The whole text: the indented name with an equals sign, and row after row, indented once more.
  lemma DumpText(indent: nat, name: string, d: seq<U8>)
    requires d != []
    ensures Dump(indent, name, d) ==
            seq(4 * indent, _ => ' ') + name + " =\n" + Lines(Rows(d), seq(4 * indent + 4, _ => ' '))
  {
    hide Rows, Lines;
    IndentIs(indent);
    IndentIs(indent + 1);
    hide Indent;
  }

  lemma IndentIs(indent: nat)
    ensures Indent(indent) == seq(4 * indent, _ => ' ')
  {
  }

  lemma LinesText(rows: seq<string>, ind: string)
    requires rows != []
    ensures Lines([], ind) == "" && Lines(rows, ind) == ind + rows[0] + "\n" + Lines(rows[1..], ind)
  {
  }

  // The dump of a non-empty array reads back as exactly that array, for every indent and name.
  lemma DumpReadBack(indent: nat, name: string, d: seq<U8>)
    requires d != []
    ensures ReadDump(Dump(indent, name, d), indent, name) == d
  {
    var body := Lines(Rows(d), Indent(indent + 1));
    assert Dump(indent, name, d)[|Heading(indent, name)|..] == body;
    LinesReadBack(d, Indent(indent + 1));
  }

  /* ---- printing ---- */

  // What is still to be printed when the first k cells of the first row of d are out.
  function Rest(d: seq<U8>, k: nat, ind: string): string
    requires k < |d| && k < WRAP
    decreases |d|, WRAP - k
  {
    Cell(d[k]) + if k + 1 < |d| && k + 1 < WRAP then ", " + Rest(d, k + 1, ind) else AfterRow(d, ind)
  }

  // What follows the cells of the first row of d.
  function AfterRow(d: seq<U8>, ind: string): string
    requires d != []
    decreases |d|, 0
  {
    if |d| <= WRAP then EndOfDump(d) else RowBreak(d[..WRAP], ind) + Rest(d[WRAP..], 0, ind)
  }

  // Without any cell there is no padding either.
  function EndOfDump(d: seq<U8>): string
    requires |d| <= WRAP
  {
    "  " + Spaces(if d == [] then 0 else 6 * (WRAP - |d|)) + Ascii(d) + "\n"
  }

  function RowBreak(d: seq<U8>, ind: string): string {
    ", " + Ascii(d) + "\n" + ind
  }

  lemma {:induction false} RestOfRow(d: seq<U8>, k: nat, ind: string)
    requires k < |d| && k < WRAP
    ensures Rest(d, k, ind) == Cells(d[k..if |d| <= WRAP then |d| else WRAP]) + AfterRow(d, ind)
    decreases WRAP - k
  {
    hide AfterRow, Cell;
    var n := if |d| <= WRAP then |d| else WRAP;
    var f := AfterRow(d, ind);
    if k + 1 < n {
      RestOfRow(d, k + 1, ind);
      assert d[k..n][1..] == d[k + 1..n];
      assert Rest(d, k, ind) == Cell(d[k]) + (", " + (Cells(d[k + 1..n]) + f));
      assert Cells(d[k..n]) == Cell(d[k]) + ", " + Cells(d[k + 1..n]);
      hide *;
      Reassociate("", Cell(d[k]), ", ", Cells(d[k + 1..n]) + f);
      Reassociate(Cell(d[k]), ", ", Cells(d[k + 1..n]), f);
    } else {
      assert d[k..n] == [d[k]];
    }
  }

  lemma Regroup(ind: string, c: string, a: string, r: string)
    ensures ind + (c + (", " + a + "\n" + ind + r)) == ind + (c + ", " + a) + "\n" + (ind + r)
    ensures ind + (c + ("  " + r + a + "\n")) == ind + (c + "  " + r + a) + "\n" + ""
  {
  }

  lemma {:induction false} RestIsLines(d: seq<U8>, ind: string)
    requires d != []
    ensures ind + Rest(d, 0, ind) == Lines(Rows(d), ind)
    decreases |d|
  {
    RestOfRow(d, 0, ind);
    if |d| <= WRAP {
      assert d[0..|d|] == d;
      Regroup(ind, Cells(d), Ascii(d), Spaces(6 * (WRAP - |d|)));
      assert Rows(d)[1..] == [];
    } else {
      var head, tail := d[..WRAP], d[WRAP..];
      RestIsLines(tail, ind);
      assert Rows(d)[1..] == Rows(tail) && d[0..WRAP] == head;
      Regroup(ind, Cells(head), Ascii(head), Rest(tail, 0, ind));
    }
  }

  // A C string ends at its first 0.
  function CString(p: seq<char>): string {
    if p == [] || p[0] == '\0' then "" else [p[0]] + CString(p[1..])
  }

  lemma {:induction false} CStringOf(p: seq<char>, s: string)
    requires |s| < |p| && p[..|s|] == s && p[|s|] == '\0' && forall i :: 0 <= i < |s| ==> s[i] != '\0'
    ensures CString(p) == s
  {
    if s != "" {
      assert p[1..][..|s| - 1] == s[1..];
      CStringOf(p[1..], s[1..]);
    }
  }

  // The printable buffer holds the row so far, then zeros.
  ghost predicate Buffered(p: seq<char>, d: seq<U8>) {
    |p| == WRAP + 1 && |d| <= WRAP && p[..|d|] == Ascii(d) && forall k :: |d| <= k < |p| ==> p[k] == '\0'
  }

  lemma BufferLaws(p: seq<char>, d: seq<U8>, b: U8)
    requires Buffered(p, d)
    ensures CString(p) == Ascii(d)
    ensures |d| < WRAP ==> Buffered(p[|d| := Shown(b)], d + [b])
    ensures Buffered(seq(WRAP + 1, _ => '\0'), [])
  {
    CStringOf(p, Ascii(d));
    assert Ascii(d + [b]) == Ascii(d) + [Shown(b)];
  }

  // The printer is before cell i, in the row that starts at base; `goal` is the whole dump.
  ghost predicate Printing(goal: string, rv: string, data: seq<U8>, base: nat, i: nat, ind: string) {
    base <= i < |data| && base % WRAP == 0 && i - base < WRAP && goal == rv + Rest(data[base..], i - base, ind)
  }

  ghost predicate AllCellsPrinted(goal: string, rv: string, data: seq<U8>, base: nat) {
    base <= |data| && base % WRAP == 0 && |data| - base <= WRAP && (|data| == base ==> base == 0)
    && goal == rv + EndOfDump(data[base..])
  }

  // Printing one cell, by what comes after it.
  lemma RestNext(d: seq<U8>, k: nat, ind: string)
    requires k + 1 < |d| && k + 1 < WRAP
    ensures Rest(d, k, ind) == Cell(d[k]) + (", " + Rest(d, k + 1, ind))
  {
    hide Cell;
  }

  lemma RestEnd(d: seq<U8>, k: nat, ind: string)
    requires k + 1 == |d| <= WRAP
    ensures Rest(d, k, ind) == Cell(d[k]) + EndOfDump(d)
  {
    hide Cell, EndOfDump;
  }

  lemma RestBreak(d: seq<U8>, k: nat, ind: string)
    requires k + 1 == WRAP < |d|
    ensures Rest(d, k, ind) == Cell(d[k]) + (RowBreak(d[..WRAP], ind) + Rest(d[WRAP..], 0, ind))
  {
    hide Cell, RowBreak;
  }

  lemma InRow(base: nat, i: nat)
    requires base % WRAP == 0 && base <= i < base + WRAP
    ensures i % WRAP == i - base && ((i + 1) % WRAP == 0 <==> i + 1 - base == WRAP)
  {
    var q := base / WRAP;
    assert base == WRAP * q;
    assert i == WRAP * q + (i - base) && i + 1 == WRAP * q + (i + 1 - base);
  }

  lemma NextCell(goal: string, rv: string, data: seq<U8>, base: nat, i: nat, ind: string)
    requires Printing(goal, rv, data, base, i, ind)
    ensures i % WRAP == i - base && i < |data|
    ensures var r := rv + Cell(data[i]);
            if i + 1 == |data| then AllCellsPrinted(goal, r, data, base)
            else if (i + 1) % WRAP != 0 then Printing(goal, r + ", ", data, base, i + 1, ind)
            else base == i + 1 - WRAP && Printing(goal, r + RowBreak(data[base..i + 1], ind), data, i + 1, i + 1, ind)
  {
    hide Cell, EndOfDump, RowBreak, Rest;
    var d, k, c := data[base..], i - base, Cell(data[i]);
    InRow(base, i);
    if i + 1 == |data| {
      RestEnd(d, k, ind);
      Reassociate(rv, c, EndOfDump(d), "");
    } else if (i + 1) % WRAP != 0 {
      RestNext(d, k, ind);
      Reassociate(rv, c, ", ", Rest(d, k + 1, ind));
    } else {
      RestBreak(d, k, ind);
      assert d[..WRAP] == data[base..i + 1] && d[WRAP..] == data[i + 1..];
      Reassociate(rv, c, RowBreak(data[base..i + 1], ind), Rest(data[i + 1..], 0, ind));
    }
  }

  lemma StartPrinting(goal: string, start: string, data: seq<U8>, ind: string)
    requires if data == [] then goal == start + EndOfDump([]) else goal == start + Rest(data, 0, ind)
    ensures if data == [] then AllCellsPrinted(goal, start, data, 0) else Printing(goal, start, data, 0, 0, ind)
  {
    hide EndOfDump, Rest;
    assert data[0..] == data;
  }

  lemma Reassociate(a: string, b: string, c: string, d: string)
    ensures a + (b + (c + d)) == a + b + c + d && c + "" == c
    ensures b + (c + d) == b + c + d
  {
  }

  // The cells and their delimiters, with the printable column of every row but the last.
  method PrintCells(start: string, data: seq<U8>, ind: string, ghost goal: string)
    returns (rv: string, printable: array<char>, ghost base: nat)
    requires if data == [] then goal == start + EndOfDump([]) else goal == start + Rest(data, 0, ind)
    ensures AllCellsPrinted(goal, rv, data, base) && fresh(printable) && Buffered(printable[..], data[base..])
  {
    hide Rest, RowBreak, EndOfDump, Buffered, Ascii, Printing, AllCellsPrinted, Cell, Shown, CString;
    rv, base := start, 0;
    StartPrinting(goal, start, data, ind);
    printable := new char[WRAP + 1](_ => '\0');
    EmptyBuffer(printable[..]);
    var i := 0;
    while i < |data|
      invariant fresh(printable) && printable.Length == WRAP + 1 && 0 <= base <= i <= |data|
      invariant Buffered(printable[..], data[base..i])
      invariant if i < |data| then Printing(goal, rv, data, base, i, ind) else AllCellsPrinted(goal, rv, data, base)
    {
      NextCell(goal, rv, data, base, i, ind);
      BufferLaws(printable[..], data[base..i], data[i]);
      rv := rv + Cell(data[i]);
      assert |data[base..i]| == i % WRAP;
      printable[i % WRAP] := Shown(data[i]);
      assert data[base..i] + [data[i]] == data[base..i + 1];
      i := i + 1;
      if i < |data| {
        if i % WRAP != 0 {
          rv := rv + ", ";
        } else {
          BufferLaws(printable[..], data[base..i], 0);
          BreakRow(rv, data[base..i], ind);
          rv := rv + ", " + CString(printable[..]) + "\n" + ind;
          forall k | 0 <= k < printable.Length {
            printable[k] := '\0';
          }
          EmptyBuffer(printable[..]);
          base := i;
          assert data[i..i] == [];
        }
      }
    }
    assert data[base..i] == data[base..];
  }

  lemma EmptyBuffer(p: seq<char>)
    requires |p| == WRAP + 1 && forall k :: 0 <= k < |p| ==> p[k] == '\0'
    ensures Buffered(p, [])
  {
  }

  lemma BreakRow(rv: string, d: seq<U8>, ind: string)
    ensures rv + RowBreak(d, ind) == rv + ", " + Ascii(d) + "\n" + ind
  {
  }

  method Display(indent: nat, name: string, data: seq<U8>) returns (rv: string)
    ensures data != [] ==> rv == Dump(indent, name, data)
    ensures data == [] ==> rv == Heading(indent, name) + (Indent(indent + 1) + "  \n")
  {
    var ind := Indent(indent + 1);
    rv := Indent(indent) + name + " =\n";
    WholeDump(indent, name, data);
    hide *;
    rv := rv + ind;
    ghost var goal := rv + if data == [] then EndOfDump([]) else Rest(data, 0, ind);
    var printable;
    ghost var base;
    rv, printable, base := PrintCells(rv, data, ind, goal);
    EndPrinted(goal, rv, data, base);
    BufferLaws(printable[..], data[base..], 0);
    rv := Pad(rv + "  ", |data| % WRAP);
    rv := rv + CString(printable[..]);
    rv := rv + "\n";
  }

  lemma EndPrinted(goal: string, rv: string, data: seq<U8>, base: nat)
    requires AllCellsPrinted(goal, rv, data, base)
    ensures base <= |data| && |data[base..]| <= WRAP
    ensures var m := |data| % WRAP;
            goal == rv + "  " + Spaces(if m == 0 then 0 else 6 * (WRAP - m)) + Ascii(data[base..]) + "\n"
  {
    var d, m := data[base..], |data| % WRAP;
    assert |d| == if data != [] && m == 0 then WRAP else m;
    hide Ascii, Spaces;
  }

  lemma WholeDump(indent: nat, name: string, d: seq<U8>)
    ensures var head, ind := Heading(indent, name), Indent(indent + 1);
            if d == [] then head + ind + EndOfDump([]) == head + (ind + "  \n")
            else head + ind + Rest(d, 0, ind) == Dump(indent, name, d)
  {
    var head, ind := Heading(indent, name), Indent(indent + 1);
    if d == [] {
      NoBytes();
    } else {
      RestIsLines(d, ind);
      assert Dump(indent, name, d) == head + Lines(Rows(d), ind);
      hide *;
      Reassociate("", head, ind, Rest(d, 0, ind));
    }
  }

  lemma NoBytes()
    ensures EndOfDump([]) == "  \n"
  {
  }

  // The blanks that bring a short last row to the printable column.
  method Pad(start: string, from: nat) returns (rv: string)
    requires from < WRAP
    ensures rv == start + Spaces(if from == 0 then 0 else 6 * (WRAP - from))
  {
    rv := start;
    var i := from;
    while i != 0 && i < WRAP
      invariant from <= i <= WRAP && (from == 0 ==> i == 0) && rv == start + Spaces(6 * (i - from))
      decreases WRAP - i
    {
      rv := rv + "      ";
      i := i + 1;
    }
  }
}
