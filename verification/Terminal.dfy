/** The screen console: a byte-driven state machine over a grid of cells. It is
    compared with a roll of paper, on which nothing ever moves. */
module Terminal {
  import opened FatFormat

  const CSI_MAX_PARAM := 8
  const ESC: Byte := 0x1b
  const CSI: Byte := 0x9b

  datatype Cell = Cell(glyph: Byte, inverse: bool)

  const BLANK := Cell(0x20, false)

  type Line = seq<Cell>

  function BlankLine(cols: nat): (r: Line)
    ensures |r| == cols
  {
    seq(cols, _ => BLANK)
  }

  /** The console as a roll of paper of which the last `rows` lines show: the position
      counts from the first line that shows. */
  datatype Console = Console(
    rows: nat, cols: nat, paper: seq<Line>, col: nat, row: nat,
    escSeen: bool, inCsi: bool, inverse: bool, params: seq<nat>, pcount: nat)
  {
    // Bounds that every byte keeps.
    ghost predicate Bounded() {
      && rows > 0 && cols > 0 && row < rows && col <= cols
      && |params| == CSI_MAX_PARAM && pcount < CSI_MAX_PARAM
      && |paper| >= rows && forall i :: 0 <= i < |paper| ==> |paper[i]| == cols
    }

    // The number of lines that have gone out of sight.
    function Gone(): nat
      requires |paper| >= rows
    {
      |paper| - rows
    }

    function Showing(): seq<Line>
      requires |paper| >= rows
    {
      paper[Gone()..]
    }

    function Draw(x: nat, glyph: Byte): Console
      requires Bounded() && x < cols
    {
      var y := Gone() + row;
      this.(paper := paper[y := paper[y][x := Cell(glyph, inverse)]])
    }

    // Going past the last line takes a new line of paper.
    function NextLine(): Console
      requires Bounded()
    {
      if row + 1 >= rows then this.(col := 0, row := rows - 1, paper := paper + [BlankLine(cols)])
      else this.(col := 0, row := row + 1)
    }

    // Blank the cells from `from` up to and including `to`, as far as there are cells.
    function EraseInLine(mode: nat): Console
      requires Bounded()
    {
      var from := if mode == 1 then 0 else col;
      var to := if mode == 1 then col else cols - 1;
      var y := Gone() + row;
      this.(paper := paper[y := Erased(paper[y], from, to, inverse)])
    }

    function Home(): Console
      requires Bounded()
    {
      this.(paper := paper[..Gone()] + seq(rows, _ => BlankLine(cols)), col := 0, row := 0)
    }

    function Count(): nat
      requires Bounded()
    {
      if params[0] != 0 then params[0] else 1
    }

    function Dispatch(final: Byte): Console
      requires Bounded()
    {
      if final == 'H' as int || final == 'f' as int then
        var r := if params[0] != 0 then params[0] - 1 else 0;
        var c := if pcount >= 1 && params[1] != 0 then params[1] - 1 else 0;
        this.(row := AtMost(r, rows - 1), col := AtMost(c, cols - 1))
      else if final == 'A' as int then this.(row := if Count() > row then 0 else row - Count())
      else if final == 'B' as int then this.(row := AtMost(row + Count(), rows - 1))
      else if final == 'C' as int then this.(col := AtMost(col + Count(), cols - 1))
      else if final == 'D' as int then this.(col := if Count() > col then 0 else col - Count())
      else if final == 'K' as int then EraseInLine(params[0])
      else if final == 'J' as int then Home()
      else if final == 'm' as int then this.(inverse := Rendition(params, pcount + 1, inverse))
      else this
    }

    /** What one byte does. */
    function Feed(c: Byte): Console
      requires Bounded()
    {
      if inCsi then
        if '0' as int <= c <= '9' as int then this.(params := params[pcount := params[pcount] * 10 + (c - '0' as int)])
        else if c == ';' as int then
          if pcount < CSI_MAX_PARAM - 1 then this.(pcount := pcount + 1, params := params[pcount + 1 := 0]) else this
        else Dispatch(c).(inCsi := false)
      else if escSeen then
        if c == '[' as int then this.(escSeen := false, inCsi := true, pcount := 0, params := params[0 := 0])
        else this.(escSeen := false)
      else if c == ESC then this.(escSeen := true)
      else if c == CSI then this.(inCsi := true, pcount := 0, params := params[0 := 0])
      else if c == 0x0a then NextLine()
      else if c == 0x0d then this.(col := 0)
      else if c == 0x09 then this.(col := if Tab(col) >= cols then cols - 1 else Tab(col))
      else if c == 0x08 then this.(col := if col > 0 then col - 1 else 0)
      else if c < 0x20 || c > 0x7e then this
      else
        var k := if col >= cols then NextLine() else this;
        k.Draw(k.col, c).(col := k.col + 1)
    }
  }

  function AtMost(n: nat, top: nat): nat {
    if n >= top + 1 then top else n
  }

  function Tab(col: nat): nat {
    (col + 8) / 8 * 8
  }

  function Erased(line: Line, from: nat, to: nat, inverse: bool): (r: Line)
    ensures |r| == |line|
  {
    seq(|line|, x requires 0 <= x < |line| => if from <= x <= to then Cell(0x20, inverse) else line[x])
  }

  // The reverse-video flag after the first n parameters of an m sequence.
  function Rendition(params: seq<nat>, n: nat, inverse: bool): bool
    requires n <= |params|
  {
    if n == 0 then inverse
    else if params[n - 1] == 0 then false
    else if params[n - 1] == 7 then true
    else Rendition(params, n - 1, inverse)
  }

  // Lines out of sight are as they were, and more may have gone.
  ghost predicate OnlyShowingChanged(k: Console, k': Console)
    requires |k.paper| >= k.rows && |k'.paper| >= k'.rows
  {
    && k'.rows == k.rows && k'.cols == k.cols && |k.paper| <= |k'.paper|
    && forall i :: 0 <= i < k.Gone() ==> k'.paper[i] == k.paper[i]
  }

  lemma HomeKeepsBounds(k: Console)
    requires k.Bounded()
    ensures k.Home().Bounded() && OnlyShowingChanged(k, k.Home())
  {
  }

  lemma NextLineKeepsBounds(k: Console)
    requires k.Bounded()
    ensures k.NextLine().Bounded() && OnlyShowingChanged(k, k.NextLine()) && k.NextLine().col == 0
  {
  }

  lemma DrawKeepsBounds(k: Console, glyph: Byte)
    requires k.Bounded() && k.col < k.cols
    ensures k.Draw(k.col, glyph).Bounded() && OnlyShowingChanged(k, k.Draw(k.col, glyph))
        && k.Draw(k.col, glyph).col == k.col
  {
  }

  lemma EraseKeepsBounds(k: Console, mode: nat)
    requires k.Bounded()
    ensures k.EraseInLine(mode).Bounded() && OnlyShowingChanged(k, k.EraseInLine(mode))
  {
    hide Erased;
  }

  lemma DispatchKeepsBounds(k: Console, final: Byte)
    requires k.Bounded()
    ensures k.Dispatch(final).Bounded() && OnlyShowingChanged(k, k.Dispatch(final))
  {
    hide Console.EraseInLine, Console.Home, Rendition;
    HomeKeepsBounds(k);
    EraseKeepsBounds(k, k.params[0]);
  }

  lemma PrintKeepsBounds(k: Console, c: Byte)
    requires k.Bounded()
    ensures var k1 := if k.col >= k.cols then k.NextLine() else k;
            && k1.Bounded() && k1.col < k1.cols
            && var k2 := k1.Draw(k1.col, c).(col := k1.col + 1); k2.Bounded() && OnlyShowingChanged(k, k2)
  {
    hide Console.Draw, Console.NextLine;
    NextLineKeepsBounds(k);
    DrawKeepsBounds(if k.col >= k.cols then k.NextLine() else k, c);
  }

  /** Every byte keeps the position on the grid, the parameter index in range and the
      paper in shape, and leaves lines out of sight alone. */
  lemma FeedKeepsBounds(k: Console, c: Byte)
    requires k.Bounded()
    ensures k.Feed(c).Bounded() && OnlyShowingChanged(k, k.Feed(c))
  {
    hide Console.Draw, Console.NextLine, Console.Dispatch, Console.Gone;
    if k.inCsi {
      DispatchKeepsBounds(k, c);
    } else if c == 0x0a {
      NextLineKeepsBounds(k);
    } else {
      PrintKeepsBounds(k, c);
    }
  }

  // The first n cells of a line are the blanks that erasing draws.
  ghost predicate BlankUpTo(line: Line, n: nat, inverse: bool) {
    n <= |line| && forall x :: 0 <= x < n ==> line[x] == Cell(0x20, inverse)
  }

  /** Mode 2 is described as erasing the whole line. It does if and only if the cells left
      of the cursor are such blanks already; at the start of a line it always does. */
  lemma EraseLineIff(k: Console)
    requires k.Bounded()
    ensures var line, line' := k.paper[k.Gone() + k.row], k.EraseInLine(2).paper[k.Gone() + k.row];
            && (line' == seq(k.cols, _ => Cell(0x20, k.inverse)) <==> BlankUpTo(line, k.col, k.inverse))
            && (k.col == 0 ==> line' == seq(k.cols, _ => Cell(0x20, k.inverse)))
  {
    var line, line' := k.paper[k.Gone() + k.row], k.EraseInLine(2).paper[k.Gone() + k.row];
    assert forall x :: 0 <= x < k.cols ==> line'[x] == if x < k.col then line[x] else Cell(0x20, k.inverse);
  }

  ghost function Run(k: Console, bytes: seq<Byte>): (r: Console)
    requires k.Bounded()
    ensures r.Bounded()
    decreases |bytes|
  {
    if bytes == [] then k
    else
      FeedKeepsBounds(Run(k, bytes[..|bytes| - 1]), bytes[|bytes| - 1]);
      Run(k, bytes[..|bytes| - 1]).Feed(bytes[|bytes| - 1])
  }

  /** Over any stream of bytes, what has scrolled out of sight never changes again. */
  lemma {:induction false} RunKeepsGone(k: Console, bytes: seq<Byte>)
    requires k.Bounded()
    ensures OnlyShowingChanged(k, Run(k, bytes))
    decreases |bytes|
  {
    hide Console.Feed;
    if bytes != [] {
      RunKeepsGone(k, bytes[..|bytes| - 1]);
      FeedKeepsBounds(Run(k, bytes[..|bytes| - 1]), bytes[|bytes| - 1]);
    }
  }

  lemma RunOne(k: Console, bytes: seq<Byte>, c: Byte)
    requires k.Bounded()
    ensures Run(k, bytes + [c]) == Run(k, bytes).Feed(c)
  {
    assert (bytes + [c])[..|bytes|] == bytes;
  }

  lemma OneLetter(k: Console)
    requires k.Bounded() && k.rows == 1 && k.cols == 2 && k.paper == [BlankLine(2)] && k.col == k.row == 0
    requires !k.escSeen && !k.inCsi && !k.inverse
    ensures k.Feed('A' as int) == k.(paper := [[Cell('A' as int, false), BLANK]], col := 1)
  {
    hide Console.Dispatch, Console.NextLine;
    assert k.paper[0][0 := Cell('A' as int, false)] == [Cell('A' as int, false), BLANK];
    assert k.paper[0 := [Cell('A' as int, false), BLANK]] == [[Cell('A' as int, false), BLANK]];
  }

  lemma EraseSequence(k: Console)
    requires k.Bounded() && !k.inCsi && !k.escSeen
    ensures k.Feed(CSI).Bounded() && k.Feed(CSI).Feed('2' as int).Bounded()
    ensures k.Feed(CSI).Feed('2' as int).Feed('K' as int).paper == k.EraseInLine(2).paper
  {
    hide Console.NextLine, Console.Draw, Rendition, Console.Home;
    var k1 := k.(inCsi := true, pcount := 0, params := k.params[0 := 0]);
    var k2 := k1.(params := k1.params[0 := 2]);
    assert k.Feed(CSI) == k1;
    assert k1.Feed('2' as int) == k2;
    assert k2.Feed('K' as int) == k2.EraseInLine(2).(inCsi := false);
  }

  /** It does not after a letter: on one line of two cells, erase-line mode 2 keeps it. */
  lemma EraseLineFails(k: Console)
    requires k.Bounded() && k.rows == 1 && k.cols == 2 && k.paper == [BlankLine(2)] && k.col == k.row == 0
    requires !k.escSeen && !k.inCsi && !k.inverse
    ensures Run(k, ['A' as int, CSI, '2' as int, 'K' as int]).paper == [[Cell('A' as int, false), BLANK]]
  {
    hide Console.Feed, Erased;
    var letter := [Cell('A' as int, false), BLANK];
    RunOne(k, [], 'A' as int);
    RunOne(k, ['A' as int], CSI);
    RunOne(k, ['A' as int, CSI], '2' as int);
    RunOne(k, ['A' as int, CSI, '2' as int], 'K' as int);
    assert [] + ['A' as int] == ['A' as int] && ['A' as int] + [CSI] == ['A' as int, CSI];
    assert ['A' as int, CSI] + ['2' as int] == ['A' as int, CSI, '2' as int];
    assert ['A' as int, CSI, '2' as int] + ['K' as int] == ['A' as int, CSI, '2' as int, 'K' as int];
    OneLetter(k);
    EraseSequence(k.(paper := [letter], col := 1));
    ErasedRight();
    assert [letter][0 := letter] == [letter];
  }

  lemma ErasedRight()
    ensures [Cell('A' as int, false), BLANK] == Erased([Cell('A' as int, false), BLANK], 1, 1, false)
  {
  }

  // The screen as the program keeps it: one grid, moved up to scroll.
  class Screen {
    const rows: nat
    const cols: nat
    var grid: seq<Line>
    var curCol: nat
    var curRow: nat
    var escSeen: bool
    var inCsi: bool
    var inverse: bool
    var param: seq<nat>
    var pcount: nat
    ghost var gone: seq<Line>     // what has been scrolled off

    ghost function View(): Console
      reads this
    {
      Console(rows, cols, gone + grid, curCol, curRow, escSeen, inCsi, inverse, param, pcount)
    }

    ghost predicate Valid()
      reads this
    {
      && |grid| == rows && (forall i :: 0 <= i < rows ==> |grid[i]| == cols)
      && View().Bounded()
    }

    // A blank console of at least one cell.
    constructor (rows: nat, cols: nat)
      requires rows > 0 && cols > 0
      ensures Valid() && this.rows == rows && this.cols == cols
      ensures gone == [] && grid == seq(rows, _ => BlankLine(cols)) && curCol == curRow == 0 && !escSeen && !inCsi
          && !inverse
    {
      this.rows, this.cols := rows, cols;
      grid := seq(rows, _ => BlankLine(cols));
      curCol, curRow, escSeen, inCsi, inverse := 0, 0, false, false, false;
      param, pcount := seq(CSI_MAX_PARAM, _ => 0), 0;
      gone := [];
    }

    // The grid is what shows of the paper.
    lemma GridShows()
      requires Valid()
      ensures View().Gone() == |gone| && View().Showing() == grid
    {
    }

    method Scroll()
      requires Valid()
      modifies this`grid, this`gone
      ensures Valid() && gone + grid == old(gone + grid) + [BlankLine(cols)]
    {
      gone := gone + [grid[0]];
      grid := grid[1..] + [BlankLine(cols)];
      assert gone + grid == old(gone + grid) + [BlankLine(cols)];
    }

    method NextLine()
      requires Valid()
      modifies this`grid, this`gone, this`curCol, this`curRow
      ensures Valid() && View() == old(View()).NextLine()
    {
      curCol := 0;
      if curRow + 1 >= rows {
        Scroll();
        curRow := rows - 1;
      } else {
        curRow := curRow + 1;
      }
    }

    method DrawGlyph(x: nat, glyph: Byte)
      requires Valid() && x < cols
      modifies this`grid
      ensures Valid() && View() == old(View()).Draw(x, glyph)
      ensures grid == old(grid)[curRow := old(grid)[curRow][x := Cell(glyph, inverse)]]
    {
      grid := grid[curRow := grid[curRow][x := Cell(glyph, inverse)]];
      assert gone + grid == old(gone + grid)[|gone| + curRow := grid[curRow]];
    }

    method EraseInLine(mode: nat)
      requires Valid()
      modifies this`grid
      ensures Valid() && View() == old(View()).EraseInLine(mode)
    {
      var from := if mode == 1 then 0 else curCol;
      var to := if mode == 1 then curCol else cols - 1;
      var x := from;
      ghost var line := grid[curRow];
      assert grid[curRow := line] == grid;
      while x <= to && x < cols
        invariant from <= x && Valid()
        invariant x <= to + 1 || x == from
        invariant grid == old(grid)[curRow := grid[curRow]]
        invariant forall j :: 0 <= j < cols ==> grid[curRow][j] == if from <= j < x then Cell(0x20, inverse)
            else line[j]
        decreases cols - x
      {
        DrawGlyph(x, 0x20);
        x := x + 1;
      }
      assert grid[curRow] == Erased(line, from, to, inverse);
      assert gone + grid == old(gone + grid)[|gone| + curRow := grid[curRow]];
    }

    // The first parameter, one if it is zero or missing.
    function FirstCount(): nat
      requires |param| == CSI_MAX_PARAM
      reads this
    {
      if param[0] != 0 then param[0] else 1
    }

    method SelectRendition()
      requires Valid()
      modifies this`inverse
      ensures Valid() && View() == old(View()).(inverse := Rendition(param, pcount + 1, old(inverse)))
    {
      for i := 0 to pcount + 1
        invariant Valid() && inverse == Rendition(param, i, old(inverse))
      {
        if param[i] == 0 {
          inverse := false;
        } else if param[i] == 7 {
          inverse := true;
        }
      }
    }

    method Clear()
      requires Valid()
      modifies this`grid, this`curCol, this`curRow
      ensures Valid() && View() == old(View()).Home()
    {
      grid := seq(rows, _ => BlankLine(cols));
      curCol, curRow := 0, 0;
      assert old(gone + grid)[..|gone|] == gone;
    }

    method MoveCursor(final: Byte)
      requires Valid() && final in {'H' as int, 'f' as int, 'A' as int, 'B' as int, 'C' as int, 'D' as int}
      modifies this`curCol, this`curRow
      ensures Valid() && View() == old(View()).Dispatch(final)
    {
      hide Console.Home, Console.EraseInLine, Rendition, Console.Gone, Valid, Console.Bounded;
      CursorFacts();
      var n := FirstCount();
      if final == 'H' as int || final == 'f' as int {
        var row := if param[0] != 0 then param[0] - 1 else 0;
        var col := if pcount >= 1 && param[1] != 0 then param[1] - 1 else 0;
        SetCursor(if row >= rows then rows - 1 else row, if col >= cols then cols - 1 else col);
      } else if final == 'A' as int {
        SetCursor(if n > curRow then 0 else curRow - n, curCol);
      } else if final == 'B' as int {
        SetCursor(if curRow + n >= rows then rows - 1 else curRow + n, curCol);
      } else if final == 'C' as int {
        SetCursor(curRow, if curCol + n >= cols then cols - 1 else curCol + n);
      } else {
        SetCursor(curRow, if n > curCol then 0 else curCol - n);
      }
    }

    lemma CursorFacts()
      requires Valid()
      ensures rows > 0 && cols > 0 && |param| == CSI_MAX_PARAM && curRow < rows && curCol <= cols && View().Bounded()
    {
    }

    method SetCursor(row: nat, col: nat)
      requires Valid() && row < rows && col <= cols
      modifies this`curCol, this`curRow
      ensures Valid() && View() == old(View()).(row := row, col := col)
    {
      curRow, curCol := row, col;
    }

    method CsiDispatch(final: Byte)
      requires Valid()
      modifies this`grid, this`curCol, this`curRow, this`inverse
      ensures Valid() && View() == old(View()).Dispatch(final)
    {
      hide Console.Home, Console.EraseInLine, Rendition;
      if final in {'H' as int, 'f' as int, 'A' as int, 'B' as int, 'C' as int, 'D' as int} {
        MoveCursor(final);
      } else if final == 'K' as int {
        EraseInLine(param[0]);
      } else if final == 'J' as int {
        Clear();
      } else if final == 'm' as int {
        SelectRendition();
      }
    }

    // A byte inside a control sequence.
    method PutInCsi(c: Byte)
      requires Valid() && inCsi
      modifies this`grid, this`curCol, this`curRow, this`inverse, this`inCsi, this`param, this`pcount
      ensures Valid() && View() == old(View()).Feed(c)
    {
      hide Console.Dispatch;
      if '0' as int <= c <= '9' as int {
        param := param[pcount := param[pcount] * 10 + (c - '0' as int)];
      } else if c == ';' as int {
        if pcount < CSI_MAX_PARAM - 1 {
          pcount := pcount + 1;
          param := param[pcount := 0];
        }
      } else {
        CsiDispatch(c);
        inCsi := false;
      }
    }

    /** Every byte does to the screen what it does to the paper. */
    method Putc(c: Byte)
      requires Valid()
      modifies this
      ensures Valid() && View() == old(View()).Feed(c)
    {
      hide Console.Draw, Console.NextLine, Console.Dispatch;
      if inCsi {
        PutInCsi(c);
      } else if escSeen {
        escSeen := false;
        if c == '[' as int {
          inCsi, pcount, param := true, 0, param[0 := 0];
        }
      } else if c == ESC {
        escSeen := true;
      } else if c == CSI {
        inCsi, pcount, param := true, 0, param[0 := 0];
      } else if c == 0x0a {
        NextLine();
      } else if c == 0x0d {
        curCol := 0;
      } else if c == 0x09 {
        curCol := (curCol + 8) / 8 * 8;
        if curCol >= cols {
          curCol := cols - 1;
        }
      } else if c == 0x08 {
        if curCol > 0 {
          curCol := curCol - 1;
        }
      } else if 0x20 <= c <= 0x7e {
        PrintKeepsBounds(View(), c);
        if curCol >= cols {
          NextLine();
        }
        DrawGlyph(curCol, c);
        curCol := curCol + 1;
      }
    }

    /** For every stream of bytes, the screen is always the last `rows` lines of paper. */
    method PutAll(bytes: seq<Byte>)
      requires Valid()
      modifies this
      ensures Valid() && View() == Run(old(View()), bytes)
      ensures grid == Run(old(View()), bytes).Showing() && curRow < rows && curCol <= cols && pcount < CSI_MAX_PARAM
    {
      hide Console.Feed;
      for i := 0 to |bytes|
        invariant Valid() && View() == Run(old(View()), bytes[..i])
      {
        Putc(bytes[i]);
        assert bytes[..i + 1][..i] == bytes[..i];
      }
      assert bytes[..|bytes|] == bytes;
      GridShows();
    }
  }
}
