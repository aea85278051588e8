/** The text form of a board: one line per row, each cell written as its
    two-letter code, the codes separated and enclosed by '|', every line
    ended by a carriage return and a line feed. */
module Text {
  import opened Cells
  import opened Grid

  /** Every in-bounds position holds a cell whose type has a code. */
  ghost predicate Printable(cells: map<Pos, Cell>, width: nat, height: nat) {
    forall q :: InBounds(q, width, height) ==> q in cells && ValidKind(cells[q].kind)
  }

  /** The codes of the first n cells of row y, separated by '|'. */
  function RowCodes(cells: map<Pos, Cell>, width: nat, height: nat, y: nat, n: nat): string
    requires Printable(cells, width, height) && y < height && n <= width
  {
    if n == 0 then ""
    else RowCodes(cells, width, height, y, n - 1) + (if n == 1 then "" else "|") + cells[(n - 1, y)].Charactor()
  }

  /** Row y as one line of the text. */
  function Line(cells: map<Pos, Cell>, width: nat, height: nat, y: nat): string
    requires Printable(cells, width, height) && y < height
  {
    "|" + RowCodes(cells, width, height, y, width) + "|" + "\r\n"
  }

  /** The lines of the first k rows, in order. */
  function LineList(cells: map<Pos, Cell>, width: nat, height: nat, k: nat): (ls: seq<string>)
    requires Printable(cells, width, height) && k <= height
    ensures |ls| == k && forall y :: 0 <= y < k ==> ls[y] == Line(cells, width, height, y)
  {
    if k == 0 then [] else LineList(cells, width, height, k - 1) + [Line(cells, width, height, k - 1)]
  }

  /** Strings one after another. */
  function Join(ls: seq<string>): string {
    if |ls| == 0 then "" else Join(ls[..|ls| - 1]) + ls[|ls| - 1]
  }

  /** The text of the first k rows. */
  function Lines(cells: map<Pos, Cell>, width: nat, height: nat, k: nat): string
    requires Printable(cells, width, height) && k <= height
  {
    Join(LineList(cells, width, height, k))
  }

  /** One more row adds its line at the end of the text. */
  lemma LinesStep(cells: map<Pos, Cell>, width: nat, height: nat, k: nat)
    requires Printable(cells, width, height) && k < height
    ensures Lines(cells, width, height, k + 1) == Lines(cells, width, height, k) + Line(cells, width, height, k)
  {
    var ls := LineList(cells, width, height, k + 1);
    assert ls[..k] == LineList(cells, width, height, k);
  }

  /** Appending cell x's code, after the delimiter, to a line that holds
      the codes of the cells before it. */
  lemma LineGrows(cells: map<Pos, Cell>, width: nat, height: nat, y: nat, x: nat, line: string, delimiter: string)
    requires Printable(cells, width, height) && y < height && x < width
    requires line == "|" + RowCodes(cells, width, height, y, x)
    requires delimiter == if x == 0 then "" else "|"
    ensures line + (delimiter + cells[(x, y)].Charactor()) == "|" + RowCodes(cells, width, height, y, x + 1)
  {
    var code := cells[(x, y)].Charactor();
    assert RowCodes(cells, width, height, y, x + 1) == RowCodes(cells, width, height, y, x) + delimiter + code;
  }

  /** Closing row y's line and appending it to the text of the rows before. */
  lemma LinesGrow(cells: map<Pos, Cell>, width: nat, height: nat, y: nat, s: string, line: string)
    requires Printable(cells, width, height) && y < height
    requires s == Lines(cells, width, height, y)
    requires line == "|" + RowCodes(cells, width, height, y, width)
    ensures s + (line + "|" + "\r\n") == Lines(cells, width, height, y + 1)
  {
    LinesStep(cells, width, height, y);
  }

  /** Writes row y's codes cell by cell, the delimiter empty before the
      first code, between the opening and closing bars of its line. */
  method DescribeRow(cells: map<Pos, Cell>, width: nat, height: nat, y: nat) returns (line: string)
    requires Printable(cells, width, height) && y < height
    ensures line == "|" + RowCodes(cells, width, height, y, width)
  {
    var delimiter := "";
    line := "|";
    for x := 0 to width
      invariant line == "|" + RowCodes(cells, width, height, y, x)
      invariant delimiter == if x == 0 then "" else "|"
    {
      var cell := cells[(x, y)];
      LineGrows(cells, width, height, y, x, line, delimiter);
      line := line + (delimiter + cell.Charactor());
      delimiter := "|";
    }
  }

  /** Writes the text of the grid row by row, each line closed by a bar and
      the line end. */
  method Describe(cells: map<Pos, Cell>, width: nat, height: nat) returns (s: string)
    requires Printable(cells, width, height)
    ensures s == Lines(cells, width, height, height)
  {
    s := "";
    for y := 0 to height
      invariant s == Lines(cells, width, height, y)
    {
      var line := DescribeRow(cells, width, height, y);
      LinesGrow(cells, width, height, y, s, line);
      s := s + (line + "|" + "\r\n");
    }
  }

  /** The length of every line: the two enclosing bars, two letters per
      cell, a bar between neighbouring cells, and the line end. */
  function LineLength(width: nat): nat {
    if width == 0 then 4 else 3 * width + 3
  }

  /** Where string y starts when strings of length len are joined. */
  function Offset(len: nat, y: nat): nat {
    if y == 0 then 0 else Offset(len, y - 1) + len
  }

  /** The offset of string y is y times the length. */
  lemma {:induction false} OffsetIsProduct(len: nat, y: nat)
    ensures Offset(len, y) == y * len
  {
    if y > 0 {
      OffsetIsProduct(len, y - 1);
      assert (y - 1) * len + len == y * len;
    }
  }

  /** Where the code of cell (x, y) starts in the text. */
  function CodeStart(width: nat, x: nat, y: nat): nat {
    Offset(LineLength(width), y) + 1 + 3 * x
  }

  /** Joining strings of length len gives Offset(len, n) characters. */
  lemma {:induction false} JoinLength(ls: seq<string>, len: nat)
    requires forall j :: 0 <= j < |ls| ==> |ls[j]| == len
    ensures |Join(ls)| == Offset(len, |ls|)
  {
    if |ls| > 0 {
      JoinLength(ls[..|ls| - 1], len);
    }
  }

  /** Character i of string y sits at Offset(len, y) + i of the join. */
  lemma {:induction false} JoinChar(ls: seq<string>, len: nat, y: nat, i: nat)
    requires forall j :: 0 <= j < |ls| ==> |ls[j]| == len
    requires y < |ls| && i < len
    ensures Offset(len, y) + i < |Join(ls)| && Join(ls)[Offset(len, y) + i] == ls[y][i]
  {
    var prev, last := ls[..|ls| - 1], ls[|ls| - 1];
    JoinLength(prev, len);
    assert Join(ls) == Join(prev) + last;
    if y < |ls| - 1 {
      JoinChar(prev, len, y, i);
    }
  }

  lemma {:induction false} RowCodesLength(cells: map<Pos, Cell>, width: nat, height: nat, y: nat, n: nat)
    requires Printable(cells, width, height) && y < height && n <= width
    ensures |RowCodes(cells, width, height, y, n)| == if n == 0 then 0 else 3 * n - 1
  {
    if n > 0 {
      RowCodesLength(cells, width, height, y, n - 1);
    }
  }

  /** The codes of a row: cell x's two letters at 3x, a bar before each but
      the first. */
  lemma {:induction false} RowCodesChars(cells: map<Pos, Cell>, width: nat, height: nat, y: nat, n: nat)
    requires Printable(cells, width, height) && y < height && n <= width
    ensures var s := RowCodes(cells, width, height, y, n);
      && |s| == (if n == 0 then 0 else 3 * n - 1)
      && (forall x :: 0 <= x < n ==>
            s[3 * x] == cells[(x, y)].TypeCharactor() && s[3 * x + 1] == cells[(x, y)].StatusCharactor())
      && (forall x :: 0 < x < n ==> s[3 * x - 1] == '|')
  {
    RowCodesLength(cells, width, height, y, n);
    if n > 0 {
      RowCodesChars(cells, width, height, y, n - 1);
      var prev := RowCodes(cells, width, height, y, n - 1);
      var sep: string := if n == 1 then "" else "|";
      var code := cells[(n - 1, y)].Charactor();
      var s := prev + sep + code;
      assert |prev + sep| == 3 * (n - 1);
      forall x | 0 <= x < n
        ensures s[3 * x] == cells[(x, y)].TypeCharactor() && s[3 * x + 1] == cells[(x, y)].StatusCharactor()
      {
        if x < n - 1 {
          assert s[3 * x] == prev[3 * x] && s[3 * x + 1] == prev[3 * x + 1];
        } else {
          assert s[3 * x] == code[0] && s[3 * x + 1] == code[1];
        }
      }
      forall x | 0 < x < n ensures s[3 * x - 1] == '|' {
        if x < n - 1 {
          assert s[3 * x - 1] == prev[3 * x - 1];
        }
      }
    }
  }

  lemma LineLengthIs(cells: map<Pos, Cell>, width: nat, height: nat, y: nat)
    requires Printable(cells, width, height) && y < height
    ensures |Line(cells, width, height, y)| == LineLength(width)
  {
    RowCodesLength(cells, width, height, y, width);
  }

  /** A line begins with a bar, ends with a bar and the line end, holds the
      two letters of cell (x, y) at 1 + 3x and 2 + 3x, and a bar between
      neighbouring cells. */
  lemma LineChars(cells: map<Pos, Cell>, width: nat, height: nat, y: nat)
    requires Printable(cells, width, height) && y < height
    ensures var l := Line(cells, width, height, y);
      && |l| == LineLength(width)
      && l[0] == '|' && l[|l| - 3] == '|' && l[|l| - 2] == '\r' && l[|l| - 1] == '\n'
      && (forall x :: 0 <= x < width ==>
            l[1 + 3 * x] == cells[(x, y)].TypeCharactor() && l[2 + 3 * x] == cells[(x, y)].StatusCharactor())
      && (forall x :: 0 < x < width ==> l[3 * x] == '|')
  {
    RowCodesChars(cells, width, height, y, width);
    var codes := RowCodes(cells, width, height, y, width);
    var l := Line(cells, width, height, y);
    forall x | 0 <= x < width
      ensures l[1 + 3 * x] == cells[(x, y)].TypeCharactor() && l[2 + 3 * x] == cells[(x, y)].StatusCharactor()
    {
      assert l[1 + 3 * x] == codes[3 * x] && l[2 + 3 * x] == codes[3 * x + 1];
    }
    forall x | 0 < x < width ensures l[3 * x] == '|' {
      assert l[3 * x] == codes[3 * x - 1];
    }
  }

  /** Every line of the text has LineLength characters, so the text of k
      rows has Offset(LineLength, k) of them. */
  lemma LinesLength(cells: map<Pos, Cell>, width: nat, height: nat, k: nat)
    requires Printable(cells, width, height) && k <= height
    ensures forall y :: 0 <= y < k ==> |LineList(cells, width, height, k)[y]| == LineLength(width)
    ensures |Lines(cells, width, height, k)| == Offset(LineLength(width), k)
  {
    var ls := LineList(cells, width, height, k);
    forall y | 0 <= y < k ensures |ls[y]| == LineLength(width) {
      LineLengthIs(cells, width, height, y);
    }
    JoinLength(ls, LineLength(width));
  }

  /** A cell's two letters, placed at 1 + 3x of string y of a join, read
      back as that cell. */
  lemma CodeInJoin(ls: seq<string>, len: nat, x: nat, y: nat, c: Cell)
    requires forall j :: 0 <= j < |ls| ==> |ls[j]| == len
    requires y < |ls| && 3 + 3 * x <= len && ValidKind(c.kind)
    requires ls[y][1 + 3 * x] == c.TypeCharactor() && ls[y][2 + 3 * x] == c.StatusCharactor()
    ensures var s, at := Join(ls), Offset(len, y) + 1 + 3 * x;
      at + 2 <= |s| && ParseCharactor(s[at .. at + 2]) == Some(c)
  {
    var s, at := Join(ls), Offset(len, y) + 1 + 3 * x;
    JoinChar(ls, len, y, 1 + 3 * x);
    JoinChar(ls, len, y, 2 + 3 * x);
    assert s[at .. at + 2] == [s[at], s[at + 1]] == c.Charactor();
    CharactorRoundTrip(c);
  }

  /** The two letters of cell (x, y) at 1 + 3x and 2 + 3x of line y. */
  lemma LineCode(cells: map<Pos, Cell>, width: nat, height: nat, x: nat, y: nat)
    requires Printable(cells, width, height) && x < width && y < height
    ensures var l := Line(cells, width, height, y);
      && 3 + 3 * x <= |l|
      && l[1 + 3 * x] == cells[(x, y)].TypeCharactor() && l[2 + 3 * x] == cells[(x, y)].StatusCharactor()
  {
    LineChars(cells, width, height, y);
  }

  /** The two letters at CodeStart(x, y) read back as the cell at (x, y). */
  lemma CodeReadsBack(cells: map<Pos, Cell>, width: nat, height: nat, x: nat, y: nat)
    requires Printable(cells, width, height) && x < width && y < height
    ensures var s := Lines(cells, width, height, height);
      && CodeStart(width, x, y) + 2 <= |s|
      && ParseCharactor(s[CodeStart(width, x, y) .. CodeStart(width, x, y) + 2]) == Some(cells[(x, y)])
  {
    var ls := LineList(cells, width, height, height);
    LinesLength(cells, width, height, height);
    LineCode(cells, width, height, x, y);
    CodeInJoin(ls, LineLength(width), x, y, cells[(x, y)]);
  }

  /** The text loses nothing: it has one line of LineLength per row, and the
      two letters at CodeStart(x, y) read back as the cell at (x, y), for
      every cell of the board. */
  lemma DescriptionReadsBack(cells: map<Pos, Cell>, width: nat, height: nat)
    requires Printable(cells, width, height)
    ensures var s := Lines(cells, width, height, height);
      && |s| == height * LineLength(width)
      && forall x: nat, y: nat :: x < width && y < height ==>
           CodeStart(width, x, y) + 2 <= |s|
           && ParseCharactor(s[CodeStart(width, x, y) .. CodeStart(width, x, y) + 2]) == Some(cells[(x, y)])
  {
    LinesLength(cells, width, height, height);
    OffsetIsProduct(LineLength(width), height);
    forall x: nat, y: nat | x < width && y < height
      ensures CodeStart(width, x, y) + 2 <= |Lines(cells, width, height, height)|
      ensures var s := Lines(cells, width, height, height);
        ParseCharactor(s[CodeStart(width, x, y) .. CodeStart(width, x, y) + 2]) == Some(cells[(x, y)])
    {
      CodeReadsBack(cells, width, height, x, y);
    }
  }
}
