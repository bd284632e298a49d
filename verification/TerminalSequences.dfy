/** What the control sequences and control bytes that programs send do, from the bytes to
    the console afterwards. */
module TerminalSequences {
  import opened FatFormat
  import opened Terminal
  import ArcNames

  function Ascii(s: string): (r: seq<Byte>)
    requires forall i :: 0 <= i < |s| ==> s[i] as int < 0x100
    ensures |r| == |s|
  {
    seq(|s|, i requires 0 <= i < |s| => s[i] as int)
  }

  // Parameters in decimal, with semicolons between them.
  ghost function Numbers(ns: seq<nat>): seq<Byte>
    requires ns != []
    decreases |ns|
  {
    var last := Ascii(ArcNames.Digits(ns[|ns| - 1]));
    if |ns| == 1 then last else Numbers(ns[..|ns| - 1]) + [';' as int] + last
  }

  lemma {:induction false} RunAppend(k: Console, a: seq<Byte>, b: seq<Byte>)
    requires k.Bounded()
    ensures Run(k, a + b) == Run(Run(k, a), b)
    decreases |b|
  {
    hide Console.Feed, Console.Bounded;
    if b == [] {
      assert a + b == a;
    } else {
      var c := b[|b| - 1];
      RunAppend(k, a, b[..|b| - 1]);
      assert a + b == (a + b[..|b| - 1]) + [c];
      RunOne(k, a + b[..|b| - 1], c);
    }
  }

  lemma DigitFed(k: Console, d: nat)
    requires k.Bounded() && k.inCsi && d < 10
    ensures k.Feed('0' as int + d) == k.(params := k.params[k.pcount := k.params[k.pcount] * 10 + d])
  {
  }

  // A decimal number is read into the current parameter.
  lemma {:induction false} NumberRead(k: Console, n: nat)
    requires k.Bounded() && k.inCsi && k.params[k.pcount] == 0
    ensures Run(k, Ascii(ArcNames.Digits(n))) == k.(params := k.params[k.pcount := n])
    decreases n
  {
    hide Console.Feed;
    var c := '0' as int + n % 10;
    if n < 10 {
      assert Ascii(ArcNames.Digits(n)) == [] + [c];
      RunOne(k, [], c);
      DigitFed(k, n);
    } else {
      NumberRead(k, n / 10);
      assert Ascii(ArcNames.Digits(n)) == Ascii(ArcNames.Digits(n / 10)) + [c];
      RunOne(k, Ascii(ArcNames.Digits(n / 10)), c);
      DigitFed(Run(k, Ascii(ArcNames.Digits(n / 10))), n % 10);
      assert k.params[k.pcount := n / 10][k.pcount := n] == k.params[k.pcount := n];
    }
  }

  lemma SemicolonFed(k: Console)
    requires k.Bounded() && k.inCsi && k.pcount < CSI_MAX_PARAM - 1
    ensures k.Feed(';' as int) == k.(pcount := k.pcount + 1, params := k.params[k.pcount + 1 := 0])
  {
  }

  // Up to eight numbers are read into the first parameters.
  lemma {:induction false} NumbersRead(k: Console, ns: seq<nat>)
    requires k.Bounded() && k.inCsi && k.pcount == 0 && k.params[0] == 0 && 1 <= |ns| <= CSI_MAX_PARAM
    ensures var r := Run(k, Numbers(ns));
            && r == k.(params := r.params, pcount := |ns| - 1)
            && forall i :: 0 <= i < |ns| ==> r.params[i] == ns[i]
    decreases |ns|
  {
    hide Console.Feed, Ascii;
    var n := ns[|ns| - 1];
    if |ns| == 1 {
      NumberRead(k, n);
    } else {
      var before := Numbers(ns[..|ns| - 1]);
      NumbersRead(k, ns[..|ns| - 1]);
      RunOne(k, before, ';' as int);
      SemicolonFed(Run(k, before));
      NumberRead(Run(k, before + [';' as int]), n);
      RunAppend(k, before + [';' as int], Ascii(ArcNames.Digits(n)));
    }
  }

  // The i-th parameter, one when it is zero or missing.
  function Parameter(ns: seq<nat>, i: nat): nat {
    if i < |ns| && ns[i] != 0 then ns[i] else 1
  }

  // The nearest number from 0 to top.
  function Clamped(n: int, top: nat): nat {
    if n < 0 then 0 else if n > top then top else n
  }

  // Positions, counted from 1, and moves stop at the edges.
  ghost predicate Moved(k: Console, k': Console, ns: seq<nat>, final: Byte)
    requires k.rows > 0 && k.cols > 0
  {
    var n := Parameter(ns, 0);
    && k'.row == (if final in {'H' as int, 'f' as int} then Clamped(n - 1, k.rows - 1)
                  else if final == 'A' as int then Clamped(k.row - n, k.rows - 1)
                  else if final == 'B' as int then Clamped(k.row + n, k.rows - 1)
                  else if final == 'J' as int then 0 else k.row)
    && k'.col == (if final in {'H' as int, 'f' as int} then Clamped(Parameter(ns, 1) - 1, k.cols - 1)
                  else if final == 'C' as int then Clamped(k.col + n, k.cols - 1)
                  else if final == 'D' as int then Clamped(k.col - n, k.cols)
                  else if final == 'J' as int then 0 else k.col)
  }

  // Erasing: the whole screen, or the row up to or from the cursor.
  ghost predicate Blanked(k: Console, k': Console, ns: seq<nat>, final: Byte)
    requires k.Bounded() && ns != []
  {
    var first := |k.paper| - k.rows;
    && |k'.paper| == |k.paper| && (forall i :: 0 <= i < |k.paper| ==> |k'.paper[i]| == k.cols)
    && forall i, x :: 0 <= i < |k.paper| && 0 <= x < k.cols ==>
        k'.paper[i][x] == if final == 'J' as int && i >= first then Cell(0x20, false)
                          else if final == 'K' as int && i == first + k.row
                                  && (if ns[0] == 1 then x <= k.col else x >= k.col) then Cell(0x20, k.inverse)
                          else k.paper[i][x]
  }

  ghost predicate LastTells(ns: seq<nat>, otherwise: bool) {
    if exists i :: 0 <= i < |ns| && Last07(ns, i) then exists i :: 0 <= i < |ns| && Last07(ns, i) && ns[i] == 7
    else otherwise
  }

  ghost predicate Last07(ns: seq<nat>, i: nat)
    requires i < |ns|
  {
    ns[i] in {0, 7} && forall j :: i < j < |ns| ==> ns[j] !in {0, 7}
  }

  lemma {:induction false} RenditionIsLast(params: seq<nat>, ns: seq<nat>, inverse: bool)
    requires |ns| <= |params| && forall i :: 0 <= i < |ns| ==> params[i] == ns[i]
    ensures Rendition(params, |ns|, inverse) == LastTells(ns, inverse)
    decreases |ns|
  {
    if ns != [] {
      var n, before := |ns| - 1, ns[..|ns| - 1];
      if ns[n] in {0, 7} {
        assert Last07(ns, n);
        assert forall i :: 0 <= i < n ==> !Last07(ns, i);
      } else {
        RenditionIsLast(params, before, inverse);
        forall i | 0 <= i < n
          ensures Last07(ns, i) <==> Last07(before, i)
        {
        }
        assert !Last07(ns, n);
      }
    }
  }

  lemma ErasedCells(k: Console, mode: nat)
    requires k.Bounded()
    ensures var k', y := k.EraseInLine(mode), |k.paper| - k.rows + k.row;
            && k' == k.(paper := k'.paper) && |k'.paper| == |k.paper|
            && (forall i :: 0 <= i < |k.paper| ==> |k'.paper[i]| == k.cols)
            && forall i, x :: 0 <= i < |k.paper| && 0 <= x < k.cols ==>
                k'.paper[i][x] == if i == y && (if mode == 1 then x <= k.col else x >= k.col)
                                    then Cell(0x20, k.inverse) else k.paper[i][x]
  {
  }

  lemma ClearedCells(k: Console)
    requires k.Bounded()
    ensures var k' := k.Home();
            && k' == k.(paper := k'.paper, row := 0, col := 0) && |k'.paper| == |k.paper|
            && (forall i :: 0 <= i < |k.paper| ==> |k'.paper[i]| == k.cols)
            && forall i, x :: 0 <= i < |k.paper| && 0 <= x < k.cols ==>
                k'.paper[i][x] == if i >= |k.paper| - k.rows then Cell(0x20, false) else k.paper[i][x]
  {
  }

  // After the parameters, the final byte.
  lemma DispatchMoves(k: Console, ns: seq<nat>, final: Byte)
    requires k.Bounded() && 1 <= |ns| <= CSI_MAX_PARAM && k.pcount == |ns| - 1
    requires forall i :: 0 <= i < |ns| ==> k.params[i] == ns[i]
    ensures Moved(k, k.Dispatch(final), ns, final)
  {
    hide Rendition;
  }

  lemma DispatchBlanks(k: Console, ns: seq<nat>, final: Byte)
    requires k.Bounded() && 1 <= |ns| && k.params[0] == ns[0]
    ensures Blanked(k, k.Dispatch(final), ns, final)
  {
    hide Rendition, Console.EraseInLine, Console.Home, AtMost, Console.Count;
    ErasedCells(k, k.params[0]);
    ClearedCells(k);
  }

  lemma DispatchRenders(k: Console, ns: seq<nat>, final: Byte)
    requires k.Bounded() && 1 <= |ns| <= CSI_MAX_PARAM && k.pcount == |ns| - 1
    requires forall i :: 0 <= i < |ns| ==> k.params[i] == ns[i]
    ensures k.Dispatch(final).inverse == if final == 'm' as int then LastTells(ns, k.inverse) else k.inverse
    ensures k.Dispatch(final).escSeen == k.escSeen
  {
    hide Rendition, LastTells, AtMost, Console.Count;
    RenditionIsLast(k.params, ns, k.inverse);
  }

  lemma IntroRead(k: Console, intro: seq<Byte>)
    requires k.Bounded() && !k.inCsi && !k.escSeen && (intro == [CSI] || intro == [ESC, '[' as int])
    ensures Run(k, intro) == k.(inCsi := true, pcount := 0, params := k.params[0 := 0])
  {
    hide Console.Dispatch, Console.NextLine, Console.Draw;
    if intro == [CSI] {
      RunOne(k, [], CSI);
      assert [] + [CSI] == [CSI];
    } else {
      RunOne(k, [], ESC);
      RunOne(k, [ESC], '[' as int);
      assert [] + [ESC] == [ESC] && [ESC] + ['[' as int] == intro;
    }
  }

  lemma FinalFed(k: Console, final: Byte)
    requires k.Bounded() && k.inCsi && !('0' as int <= final <= '9' as int) && final != ';' as int
    ensures k.Feed(final) == k.Dispatch(final).(inCsi := false)
  {
  }

  /** A whole control sequence, with either introducer and up to eight decimal numbers, moves
      the cursor, erases, or sets reverse video as its final byte says, and leaves the console
      in plain text; no numbers are as good as one zero. */
  lemma SequenceActs(k: Console, intro: seq<Byte>, ns: seq<nat>, final: Byte)
    requires k.Bounded() && !k.inCsi && !k.escSeen && (intro == [0x9b] || intro == [0x1b, '[' as int])
    requires |ns| <= CSI_MAX_PARAM && !('0' as int <= final <= '9' as int) && final != ';' as int
    ensures var k' := Run(k, intro + (if ns == [] then [] else Numbers(ns)) + [final]);
            var read := if ns == [] then [0] else ns;
            && Moved(k, k', read, final) && Blanked(k, k', read, final)
            // Reverse video: the last 0 or 7 among the numbers tells.
            && k'.inverse == (if final == 'm' as int then LastTells(read, k.inverse) else k.inverse)
            && k'.rows == k.rows && k'.cols == k.cols && !k'.inCsi && !k'.escSeen
  {
    hide Console.Feed, Console.Dispatch, Moved, Blanked, LastTells, Numbers;
    var numbers := if ns == [] then [] else Numbers(ns);
    var read := if ns == [] then [0] else ns;
    IntroRead(k, intro);
    var k1 := Run(k, intro);
    if ns != [] {
      NumbersRead(k1, ns);
    }
    var k2 := Run(k1, numbers);
    RunAppend(k, intro, numbers);
    RunOne(k, intro + numbers, final);
    FinalFed(k2, final);
    DispatchKeepsBounds(k2, final);
    DispatchMoves(k2, read, final);
    DispatchBlanks(k2, read, final);
    DispatchRenders(k2, read, final);
    SameStart(k, k2, k2.Dispatch(final), read, final);
  }

  // Where the console's parameters and modes do not matter.
  lemma SameStart(k: Console, k2: Console, k3: Console, ns: seq<nat>, final: Byte)
    requires k.Bounded() && k2.Bounded() && ns != [] && Moved(k2, k3, ns, final) && Blanked(k2, k3, ns, final)
    requires k2 == k.(inCsi := k2.inCsi, params := k2.params, pcount := k2.pcount)
    ensures Moved(k, k3.(inCsi := false), ns, final) && Blanked(k, k3.(inCsi := false), ns, final)
  {
    hide Clamped, Parameter;
  }

  /** Control bytes in plain text: a carriage return, a backspace, a tab to the next column
      that is a multiple of eight; the others but a new line do nothing. */
  lemma ControlByte(k: Console, c: Byte) returns (stop: nat)
    requires k.Bounded() && !k.inCsi && !k.escSeen && c !in {ESC, CSI, 0x0a}
    ensures stop % 8 == 0 && k.col < stop <= k.col + 8
    ensures c < 0x20 || c > 0x7e ==>
              k.Feed(c) == if c == 0x0d then k.(col := 0)
                           else if c == 0x08 then k.(col := Clamped(k.col - 1, k.cols))
                           else if c == 0x09 then k.(col := if stop < k.cols then stop else k.cols - 1)
                           else k
  {
    hide Console.Draw, Console.NextLine;
    stop := Tab(k.col);
  }

  /** A new line moves down, and on the last row takes a blank line of paper. */
  lemma NewLineByte(k: Console)
    requires k.Bounded() && !k.inCsi && !k.escSeen
    ensures var k' := k.Feed(0x0a);
            && k' == k.(col := 0, row := Clamped(k.row + 1, k.rows - 1), paper := k'.paper)
            && k'.paper == if k.row + 1 < k.rows then k.paper else k.paper + [seq(k.cols, _ => Cell(0x20, false))]
  {
    assert BlankLine(k.cols) == seq(k.cols, _ => Cell(0x20, false));
  }

  /** Printing sets the cell at the cursor, on a new line first when the row is full. */
  lemma PrintedByte(k: Console, c: Byte)
    requires k.Bounded() && !k.inCsi && !k.escSeen && 0x20 <= c <= 0x7e
    ensures k.col == k.cols ==> k.Feed(0x0a).Bounded() && k.Feed(c) == k.Feed(0x0a).Feed(c)
    ensures k.col < k.cols ==>
              var k', y := k.Feed(c), |k.paper| - k.rows + k.row;
              && k' == k.(col := k.col + 1, paper := k'.paper) && |k'.paper| == |k.paper|
              && (forall i :: 0 <= i < |k.paper| ==> |k'.paper[i]| == k.cols)
              && forall i, x :: 0 <= i < |k.paper| && 0 <= x < k.cols ==>
                  k'.paper[i][x] == if i == y && x == k.col then Cell(c, k.inverse) else k.paper[i][x]
  {
    hide Console.Dispatch;
    if k.col == k.cols {
      hide Console.NextLine, Console.Draw;
      NextLineKeepsBounds(k);
    }
  }
}
