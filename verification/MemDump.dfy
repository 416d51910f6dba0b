/** Dumping physical memory: which window is mapped, what the line and the table form print, and which
    bytes of the window they touch. */
module MemDump {

  /** A value as it is shown, at the address it is shown for. */
  datatype Cell = Cell(address: nat, value: int)

  /** `n` cells, `step` bytes apart, from `address` on. */
  function Cells(mem: nat -> int, address: nat, step: nat, n: nat): (cells: seq<Cell>)
    ensures |cells| == n
  {
    if n == 0 then [] else Cells(mem, address, step, n - 1) + [CellAt(mem, address, step, n - 1)]
  }

  function CellAt(mem: nat -> int, address: nat, step: nat, k: nat): Cell {
    Cell(address + step * k, mem(address + step * k))
  }

  lemma {:induction false} CellsAt(mem: nat -> int, address: nat, step: nat, n: nat, k: nat)
    requires k < n
    ensures Cells(mem, address, step, n)[k] == CellAt(mem, address, step, k)
  {
    if k < n - 1 {
      CellsAt(mem, address, step, n - 1, k);
    }
  }

  /** `n` with its last two bits cleared: the word it lies in. */
  function Down4(n: nat): (m: nat)
    ensures m <= n < m + 4
  {
    4 * (n / 4)
  }

  /** `n` with its last four bits cleared: the row it lies in. */
  function Down16(n: nat): (m: nat)
    ensures m <= n < m + 16
  {
    16 * (n / 16)
  }

  lemma Quotient4(q: int, r: int)
    requires 0 <= r < 4
    ensures (4 * q + r) / 4 == q
  {}

  lemma Quotient16(q: int, r: int)
    requires 0 <= r < 16
    ensures (16 * q + r) / 16 == q
  {}

  lemma DivMod(a: nat, b: nat)
    requires b > 0
    ensures a / b * b == a - a % b
  {}

  lemma Regroup(q: int, r: int)
    ensures q * (16 * r) == 16 * (q * r)
  {}

  // ---- The window ----

  /** A page size: a multiple of 16. */
  predicate PageSize(page: nat) {
    page >= 16 && Down16(page) == page
  }

  function NeededBytes(word: bool, range: nat): nat {
    if word then 4 * range else range
  }

  /** The bytes that are mapped, from the page of the start on: one page, or two. */
  function Mapped(page: nat, off: nat, word: bool, range: nat): nat {
    var needed := NeededBytes(word, range);
    if off + (if needed > page then page else needed) > page then 2 * page else page
  }

  /** How far into the window a form reads. */
  function Touched(off: nat, word: bool, table: bool, range: nat): nat {
    var end := off + NeededBytes(word, range);
    if table then
      if end == Down16(off) then 0 else if word then Down4(end + 3) else end
    else
      if range == 0 then 0 else if word then Down4(end) else end
  }

  /** What a form prints. */
  function Printed(mem: nat -> int, start: nat, word: bool, table: bool, range: nat): seq<Cell> {
    if !word then Cells(mem, start, 1, range)
    else if table && Down4(start) != start then Cells(mem, Down4(start), 4, range + 1)
    else Cells(mem, Down4(start), 4, range)
  }

  function Begin(off: nat, word: bool, table: bool): nat {
    if word && !table then Down4(off) else off
  }

  /** No form reads outside the window when what is needed fits in a page.  Of more than a page, as much
      as the two pages hold is still mapped unless the start is the start of its page. */
  lemma ReadsStayMapped(page: nat, off: nat, word: bool, table: bool, range: nat)
    requires PageSize(page) && off < page
    ensures (Touched(off, word, table, range) <= Mapped(page, off, word, range))
         == (NeededBytes(word, range) <= page
             || (off > 0 && Begin(off, word, table) + NeededBytes(word, range) <= 2 * page))
  {
    var end := off + NeededBytes(word, range);
    if word && table {
      RoundedUp(end, 4 * (page / 16));
      RoundedUp(end, 8 * (page / 16));
    } else if word {
      Quotient4(off / 4 + range, off - Down4(off));
    }
  }

  lemma RoundedUp(end: nat, k: nat)
    ensures Down4(end + 3) <= 4 * k <==> end <= 4 * k
  {}

  /** The table shows what the lines show, in the same order: always for bytes, for words when the start
      is aligned, and otherwise with exactly one more word at the end. */
  lemma TableShowsTheLines(mem: nat -> int, start: nat, word: bool, range: nat)
    ensures |Printed(mem, start, word, false, range)| == range
    ensures var lines, table := Printed(mem, start, word, false, range), Printed(mem, start, word, true, range);
            if !word || Down4(start) == start then table == lines
            else table == lines + [CellAt(mem, Down4(start), 4, range)]
  {}

  /** Every cell is labelled with the address its value is at, and the addresses follow each other from
      the start, or from the word it lies in. */
  lemma CellsAreAddressed(mem: nat -> int, start: nat, word: bool, table: bool, range: nat, k: nat)
    requires k < |Printed(mem, start, word, table, range)|
    ensures var cell := Printed(mem, start, word, table, range)[k];
            cell.value == mem(cell.address)
            && cell.address == if word then Down4(start) + 4 * k else start + k
  {
    if !word {
      CellsAt(mem, start, 1, range, k);
    } else {
      CellsAt(mem, Down4(start), 4, if table && Down4(start) != start then range + 1 else range, k);
    }
  }

  // ---- The forms ----

  /** One line for each byte.  `base` is the address the window starts at; `touched` is how far the reads went. */
  method ByteLines(mem: nat -> int, base: nat, off: nat, range: nat) returns (cells: seq<Cell>, touched: nat)
    ensures cells == Cells(mem, base + off, 1, range)
    ensures touched == Touched(off, false, false, range)
  {
    cells, touched := [], 0;
    for i := 0 to range
      invariant cells == Cells(mem, base + off, 1, i)
      invariant touched == if i == 0 then 0 else off + i
    {
      cells := cells + [Cell(base + off + i, mem(base + (off + i)))];
      touched := off + i + 1;
    }
  }

  /** Rows of 16 bytes.  What lies before the start in the first row is read but left blank. */
  method ByteTable(mem: nat -> int, base: nat, off: nat, range: nat) returns (cells: seq<Cell>, touched: nat)
    requires Down16(base) == base
    ensures cells == Cells(mem, base + off, 1, range)
    ensures touched == Touched(off, false, true, range)
  {
    cells, touched := [], 0;
    var finish, i := false, 0;
    ghost var first := Down16(off);
    RowOf(base, off);
    while !finish
      invariant finish || first + i * 16 <= off + range
      invariant cells == Cells(mem, base + off, 1, if finish then range else Past(first + i * 16, off))
      invariant touched == if finish then Touched(off, false, true, range) else if i == 0 then 0 else first + i * 16
      decreases !finish, off + range - (first + i * 16)
    {
      var j := 0;
      var row := Down16(base + off) + i * 16;
      while j < 16
        invariant j <= 16 && !finish && first + i * 16 + j <= off + range
        invariant cells == Cells(mem, base + off, 1, Past(first + i * 16 + j, off))
        invariant touched == if i == 0 && j == 0 then 0 else first + i * 16 + j
      {
        var pos := Down16(off) + i * 16 + j;
        if pos >= off + range {
          finish := true;
          break;
        }
        var value := mem(base + pos);
        touched := pos + 1;
        if pos >= off {
          cells := cells + [Cell(row + j, value)];
        }
        j := j + 1;
      }
      i := i + 1;
    }
  }

  function Past(pos: nat, off: nat): nat {
    if pos < off then 0 else pos - off
  }

  lemma RowOf(base: nat, off: nat)
    requires Down16(base) == base
    ensures Down16(base + off) == base + Down16(off)
    ensures Down4(base + off) == base + Down4(off)
  {
    Quotient16(base / 16 + off / 16, off - Down16(off));
    Quotient4(base / 4 + off / 4, off - Down4(off));
    Quotient4(4 * (base / 16), 0);
  }

  /** One line for each word. */
  method WordLines(mem: nat -> int, base: nat, off: nat, range: nat) returns (cells: seq<Cell>, touched: nat)
    requires Down16(base) == base
    ensures cells == Cells(mem, Down4(base + off), 4, range)
    ensures touched == Touched(off, true, false, range)
  {
    cells, touched := [], 0;
    RowOf(base, off);
    for i := 0 to range
      invariant cells == Cells(mem, Down4(base + off), 4, i)
      invariant touched == if i == 0 then 0 else Down4(off) + 4 * i
    {
      var pos := (Down4(off) + i * 4) / 4;
      cells := cells + [Cell(Down4(base + off) + i * 4, mem(base + 4 * pos))];
      touched := 4 * pos + 4;
    }
  }

  /** Where a row of words lies, counted in words. */
  lemma WordAt(off: nat, i: nat, j: nat)
    ensures (Down16(off) + i * 16 + j * 4) / 4 == 4 * (off / 16) + 4 * i + j
    ensures Down16(off) == 16 * (off / 16) && Down4(off) == 4 * (off / 4)
    ensures 4 * (off / 16) <= off / 4
  {}

  /** The first word that is not shown any more. */
  function EndWord(off: nat, range: nat): (w: nat)
    ensures 4 * w >= off + 4 * range > 4 * w - 4
    ensures w == off / 4 + if Down4(off) == off then range else range + 1
  {
    (off + 4 * range + 3) / 4
  }

  lemma TouchedWords(off: nat, range: nat)
    ensures Touched(off, true, true, range)
         == if EndWord(off, range) == 4 * (off / 16) then 0 else 4 * EndWord(off, range)
  {}

  /** The words up to `pos` have been read, and those from the start on are shown. */
  ghost predicate WordsShown(mem: nat -> int, base: nat, off: nat, pos: nat, cells: seq<Cell>, touched: nat) {
    && cells == Cells(mem, base + 4 * (off / 4), 4, Past(pos, off / 4))
    && touched == WordsRead(4 * (off / 16), pos)
  }

  lemma OneMoreWord(mem: nat -> int, base: nat, off: nat, pos: nat, cells: seq<Cell>, touched: nat)
    requires WordsShown(mem, base, off, pos, cells, touched) && pos >= 4 * (off / 16)
    ensures pos < off / 4 ==> WordsShown(mem, base, off, pos + 1, cells, 4 * pos + 4)
    ensures pos >= off / 4 ==>
              WordsShown(mem, base, off, pos + 1, cells + [Cell(base + 4 * pos, mem(base + 4 * pos))], 4 * pos + 4)
  {}

  /** One row; the table is over when a word lies past the range. */
  method WordRow(mem: nat -> int, base: nat, off: nat, range: nat, i: nat, start: seq<Cell>, startTouched: nat)
    returns (finish: bool, cells: seq<Cell>, touched: nat)
    requires Down16(base) == base && 4 * (off / 16) + 4 * i <= EndWord(off, range)
    requires WordsShown(mem, base, off, 4 * (off / 16) + 4 * i, start, startTouched)
    ensures finish ==> WordsShown(mem, base, off, EndWord(off, range), cells, touched)
    ensures !finish ==> 4 * (off / 16) + 4 * (i + 1) <= EndWord(off, range)
    ensures !finish ==> WordsShown(mem, base, off, 4 * (off / 16) + 4 * (i + 1), cells, touched)
  {
    cells, touched, finish := start, startTouched, false;
    var j := 0;
    var row := Down16(base + off) + i * 16;
    RowOf(base, off);
    while j < 4
      invariant j <= 4 && !finish && 4 * (off / 16) + 4 * i + j <= EndWord(off, range)
      invariant WordsShown(mem, base, off, 4 * (off / 16) + 4 * i + j, cells, touched)
    {
      var pos := (Down16(off) + i * 16 + j * 4) / 4;
      WordAt(off, i, j);
      if 4 * pos >= off + range * 4 {
        finish := true;
        break;
      }
      OneMoreWord(mem, base, off, pos, cells, touched);
      var value := mem(base + 4 * pos);
      touched := 4 * pos + 4;
      if pos >= off / 4 {
        cells := cells + [Cell(row + j * 4, value)];
      }
      j := j + 1;
    }
  }

  /** Rows of four words.  What lies before the start in the first row is read but left blank. */
  method WordTable(mem: nat -> int, base: nat, off: nat, range: nat) returns (cells: seq<Cell>, touched: nat)
    requires Down16(base) == base
    ensures cells == Printed(mem, base + off, true, true, range)
    ensures touched == Touched(off, true, true, range)
  {
    cells, touched := [], 0;
    var finish, i := false, 0;
    WordAt(off, 0, 0);
    while !finish
      invariant finish ==> WordsShown(mem, base, off, EndWord(off, range), cells, touched)
      invariant !finish ==> 4 * (off / 16) + 4 * i <= EndWord(off, range)
      invariant !finish ==> WordsShown(mem, base, off, 4 * (off / 16) + 4 * i, cells, touched)
      decreases !finish, EndWord(off, range) - 4 * i
    {
      finish, cells, touched := WordRow(mem, base, off, range, i, cells, touched);
      i := i + 1;
    }
    AllWordsShown(mem, base, off, range, cells, touched);
  }

  lemma AllWordsShown(mem: nat -> int, base: nat, off: nat, range: nat, cells: seq<Cell>, touched: nat)
    requires Down16(base) == base && WordsShown(mem, base, off, EndWord(off, range), cells, touched)
    ensures cells == Printed(mem, base + off, true, true, range)
    ensures touched == Touched(off, true, true, range)
  {
    RowOf(base, off);
    WordAt(off, 0, 0);
    TouchedWords(off, range);
  }

  /** How far reading went when the words from `first` up to `end` were read. */
  function WordsRead(first: nat, end: nat): nat {
    if end == first then 0 else 4 * end
  }

  /** mem_dump: maps the window and prints in the chosen form.  A range that does not fit in a page makes
      the mapping smaller, but not the loops shorter. */
  method Dump(mem: nat -> int, page: nat, start: nat, word: bool, table: bool, range: nat)
    returns (cells: seq<Cell>, mapped: nat, touched: nat)
    requires PageSize(page)
    ensures cells == Printed(mem, start, word, table, range)
    ensures mapped == Mapped(page, start % page, word, range)
    ensures touched == Touched(start % page, word, table, range)
    ensures NeededBytes(word, range) <= page ==> touched <= mapped
  {
    PagesAreRows(page, start);
    var base := start / page * page;
    var off := start - base;
    var numberOfBytes := NeededBytes(word, range);
    if numberOfBytes > page {
      numberOfBytes := page;
    }
    mapped := page;
    if off + numberOfBytes > page {
      mapped := 2 * page;
    }
    ReadsStayMapped(page, off, word, table, range);
    if !word && !table {
      cells, touched := ByteLines(mem, base, off, range);
    } else if !word {
      cells, touched := ByteTable(mem, base, off, range);
    } else if !table {
      cells, touched := WordLines(mem, base, off, range);
    } else {
      cells, touched := WordTable(mem, base, off, range);
    }
  }

  lemma PagesAreRows(page: nat, start: nat)
    requires PageSize(page)
    ensures start / page * page == start - start % page
    ensures Down16(start / page * page) == start / page * page
  {
    DivMod(start, page);
    Regroup(start / page, page / 16);
    Quotient16(start / page * (page / 16), 0);
  }
}
