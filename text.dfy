/**
  Comma-separated cells: the row split performed when the dialogue table is
  read (`string.Split` on ',' keeping empty cells) and the inverse join used
  when the table is written back (`string.Join(",", row)`). No quoting or
  escaping exists in the file format, so a cell can never hold a comma.
 */
module Text {

  /** The cell delimiter of the dialogue table. */
  const Delimiter: char := ','

  /** True when `s` holds no delimiter, i.e. `s` can be a single cell. */
  predicate IsCell(s: string) {
    Delimiter !in s
  }

  /**
    Splits a line at every delimiter, keeping empty cells: a line with n
    delimiters gives n + 1 cells, so even the empty line gives one (empty) cell.
   */
  function Split(line: string): (cells: seq<string>)
    ensures |cells| >= 1
    ensures forall i :: 0 <= i < |cells| ==> IsCell(cells[i])
    decreases |line|
  {
    if line == [] then [""]
    else
      var rest := Split(line[1..]);
      assert line == [line[0]] + line[1..];
      if line[0] == Delimiter then [""] + rest
      else [[line[0]] + rest[0]] + rest[1..]
  }

  /** Concatenates the cells with the delimiter between each two of them. */
  function Join(cells: seq<string>): string
  {
    if |cells| == 0 then ""
    else if |cells| == 1 then cells[0]
    else cells[0] + [Delimiter] + Join(cells[1..])
  }

  /** Splitting a line and joining the cells again gives back the line. */
  lemma {:induction false} JoinSplit(line: string)
    ensures Join(Split(line)) == line
    decreases |line|
  {
    if line != [] {
      var rest := Split(line[1..]);
      JoinSplit(line[1..]);
      assert Join(rest) == line[1..];
      assert line == [line[0]] + line[1..];
      if line[0] == Delimiter {
        assert Split(line) == [""] + rest;
        assert ([""] + rest)[1..] == rest;
      } else {
        var first := [line[0]] + rest[0];
        assert Split(line) == [first] + rest[1..];
        if |rest| == 1 {
          assert Join(rest) == rest[0];
        } else {
          assert ([first] + rest[1..])[1..] == rest[1..];
          assert Join(rest) == rest[0] + [Delimiter] + Join(rest[1..]);
        }
      }
    }
  }

  /** Splitting a single cell (no delimiter) followed by a delimiter and more text. */
  lemma {:induction false} SplitCellThen(cell: string, tail: string)
    requires IsCell(cell)
    ensures Split(cell + [Delimiter] + tail) == [cell] + Split(tail)
    decreases |cell|
  {
    if cell == [] {
      assert cell + [Delimiter] + tail == [Delimiter] + tail;
    } else {
      var s := cell + [Delimiter] + tail;
      assert s[1..] == cell[1..] + [Delimiter] + tail;
      assert cell[0] in cell;
      assert forall c :: c in cell[1..] ==> c in cell;
      SplitCellThen(cell[1..], tail);
      assert [cell[0]] + cell[1..] == cell;
    }
  }

  /** A single cell splits to itself. */
  lemma {:induction false} SplitCell(cell: string)
    requires IsCell(cell)
    ensures Split(cell) == [cell]
    decreases |cell|
  {
    if cell != [] {
      assert cell[0] in cell;
      assert forall c :: c in cell[1..] ==> c in cell;
      SplitCell(cell[1..]);
      assert [cell[0]] + cell[1..] == cell;
    }
  }

  /** Joining delimiter-free cells and splitting the result gives back the cells. */
  lemma {:induction false} SplitJoin(cells: seq<string>)
    requires |cells| >= 1
    requires forall i :: 0 <= i < |cells| ==> IsCell(cells[i])
    ensures Split(Join(cells)) == cells
  {
    if |cells| == 1 {
      SplitCell(cells[0]);
    } else {
      SplitJoin(cells[1..]);
      SplitCellThen(cells[0], Join(cells[1..]));
      assert [cells[0]] + cells[1..] == cells;
    }
  }

  /** Appending one cell to a row appends the delimiter and that cell to its joined line. */
  lemma {:induction false} JoinAppend(cells: seq<string>, cell: string)
    requires |cells| >= 1
    ensures Join(cells + [cell]) == Join(cells) + [Delimiter] + cell
  {
    if |cells| > 1 {
      JoinAppend(cells[1..], cell);
      assert (cells + [cell])[1..] == cells[1..] + [cell];
    }
  }

  /** A line with n delimiters splits into n + 1 cells. */
  lemma {:induction false} SplitCount(line: string)
    ensures |Split(line)| == 1 + multiset(line)[Delimiter]
    decreases |line|
  {
    if line != [] {
      SplitCount(line[1..]);
      assert line == [line[0]] + line[1..];
      assert multiset(line) == multiset{line[0]} + multiset(line[1..]);
    }
  }
}
