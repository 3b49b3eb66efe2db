/**
 The console of src/kernel/console.cpp: 102 rows of video memory used as a ring behind
 a window of 25 rows, driven byte by byte through an escape-sequence machine.  Every
 store is shown to land in video memory; for plain text the window behaves like a grid
 that scrolls.
 */
module Console {
  import opened Words

  const MEM_BASE := 0xB8000
  const MEM_END := 0xBBFC0 // 102 rows of 160 bytes
  const WIDTH := 80
  const HEIGHT := 25
  const ROW_SIZE := 160
  const SCR_SIZE := 4000
  const CELLS := 8160
  const ARG_NR := 16

  const NUL := 0x00
  const BEL := 0x07
  const BS := 0x08
  const HT := 0x09
  const LF := 0x0A
  const VT := 0x0B
  const FF := 0x0C
  const CR := 0x0D
  const ESC := 0x1B
  const DEL := 0x7F

  type byte = b: nat | b < 256

  datatype State = Normal | Escape | Query | Arguments

  // ---------- a plain grid ----------

  // 25 rows of 80 cells, and the cursor; its column is 80 between the last cell of a row
  // and the wrap to the next one.
  datatype Grid = Grid(cells: seq<nat>, x: nat, y: nat)

  predicate IsGrid(g: Grid) {
    |g.cells| == 2000 && g.x <= WIDTH && g.y < HEIGHT
  }

  function Blanks(n: nat, erase: nat): (r: seq<nat>)
    ensures |r| == n && forall i :: 0 <= i < n ==> r[i] == erase
  {
    seq(n, _ => erase)
  }

  // Down one row; at the bottom the rows move up and an empty one appears.
  function Down(g: Grid, erase: nat): (r: Grid)
    requires IsGrid(g)
    ensures IsGrid(r) && r.x == g.x
  {
    if g.y + 1 < HEIGHT then g.(y := g.y + 1) else g.(cells := g.cells[WIDTH..] + Blanks(WIDTH, erase))
  }

  function Type(g: Grid, ch: byte, style: nat, erase: nat): (r: Grid)
    requires IsGrid(g)
    ensures IsGrid(r)
  {
    var w := if g.x == WIDTH then Down(g.(x := 0), erase) else g;
    w.(cells := w.cells[w.y * 80 + w.x := ch + 256 * style], x := w.x + 1)
  }

  function Tab(g: Grid, erase: nat): (r: Grid)
    requires IsGrid(g)
    ensures IsGrid(r)
  {
    var x := g.x + 8 - g.x % 8;
    if x >= WIDTH then Down(g.(x := x - WIDTH), erase) else g.(x := x)
  }

  function Back(g: Grid, erase: nat): (r: Grid)
    requires IsGrid(g)
    ensures IsGrid(r)
  {
    if g.x == 0 then g else g.(x := g.x - 1, cells := g.cells[g.y * 80 + g.x - 1 := erase])
  }

  // The characters that only a plain grid is needed for.
  predicate Plain(ch: byte) {
    ch != ESC && ch != DEL
  }

  function Show(g: Grid, ch: byte, style: nat, erase: nat): (r: Grid)
    requires IsGrid(g) && Plain(ch)
    ensures IsGrid(r)
  {
    if ch == NUL || ch == BEL then g
    else if ch == BS then Back(g, erase)
    else if ch == HT then Tab(g, erase)
    else if ch == LF then Down(g, erase).(x := 0)
    else if ch == VT || ch == FF then Down(g, erase)
    else if ch == CR then g.(x := 0)
    else Type(g, ch, style, erase)
  }

  function ShowAll(g: Grid, text: seq<byte>, style: nat, erase: nat): (r: Grid)
    requires IsGrid(g) && forall i :: 0 <= i < |text| ==> Plain(text[i])
    ensures IsGrid(r)
  {
    if text == [] then g else Show(ShowAll(g, text[..|text| - 1], style, erase), text[|text| - 1], style, erase)
  }

  // A text may be written in pieces.
  lemma {:induction false} PiecesCompose(g: Grid, a: seq<byte>, b: seq<byte>, style: nat, erase: nat)
    requires IsGrid(g) && (forall i :: 0 <= i < |a| ==> Plain(a[i])) && (forall i :: 0 <= i < |b| ==> Plain(b[i]))
    ensures ShowAll(g, a + b, style, erase) == ShowAll(ShowAll(g, a, style, erase), b, style, erase)
  {
    if b == [] {
      assert a + b == a;
    } else {
      PiecesCompose(g, a, b[..|b| - 1], style, erase);
      assert (a + b)[..|a + b| - 1] == a + b[..|b| - 1];
    }
  }

  // A line feed at the bottom drops the first row and appends an empty one: n of them
  // drop n rows.
  lemma {:induction false} FeedsScroll(g: Grid, n: nat, style: nat, erase: nat)
    requires IsGrid(g) && g.y == HEIGHT - 1 && n <= HEIGHT
    ensures ShowAll(g, Feeds(n), style, erase) == Grid(g.cells[n * 80..] + Blanks(n * 80, erase), if n == 0 then g.x else 0, g.y)
  {
    if n > 0 {
      FeedsScroll(g, n - 1, style, erase);
      assert Feeds(n)[..n - 1] == Feeds(n - 1);
      var c := g.cells[(n - 1) * 80..] + Blanks((n - 1) * 80, erase);
      assert c[80..] + Blanks(80, erase) == g.cells[n * 80..] + Blanks(n * 80, erase);
    }
  }

  function Feeds(n: nat): (t: seq<byte>)
    ensures |t| == n && forall i :: 0 <= i < n ==> t[i] == LF
  {
    seq(n, _ => LF)
  }

  predicate Printable(ch: byte) {
    Plain(ch) && ch != NUL && ch != BEL && ch != BS && ch != HT && ch != LF && ch != VT && ch != FF && ch != CR
  }

  function Position(g: Grid): nat {
    g.y * 80 + g.x
  }

  function Cells(text: seq<byte>, style: nat): (c: seq<nat>)
    ensures |c| == |text| && forall i :: 0 <= i < |c| ==> c[i] == text[i] + 256 * style
  {
    seq(|text|, i requires 0 <= i < |text| => text[i] + 256 * style)
  }

  // Text that fits runs on from the cursor, from row to row, and nothing else changes.
  lemma {:induction false} TextRunsOn(g: Grid, text: seq<byte>, style: nat, erase: nat)
    requires IsGrid(g) && (forall i :: 0 <= i < |text| ==> Plain(text[i]) && Printable(text[i])) && Position(g) + |text| <= 2000
    ensures var r, p := ShowAll(g, text, style, erase), Position(g);
      && Position(r) == p + |text|
      && r.cells == g.cells[..p] + Cells(text, style) + g.cells[p + |text|..]
  {
    if text != [] {
      var n := |text| - 1;
      TextRunsOn(g, text[..n], style, erase);
      var m, p := ShowAll(g, text[..n], style, erase), Position(g);
      TypedAt(m, text[n], style, erase);
      assert Cells(text, style) == Cells(text[..n], style) + [text[n] + 256 * style];
    }
  }

  lemma TypedAt(g: Grid, ch: byte, style: nat, erase: nat)
    requires IsGrid(g) && Printable(ch) && Position(g) < 2000
    ensures var r, p := Show(g, ch, style, erase), Position(g); Position(r) == p + 1 && r.cells == g.cells[p := ch + 256 * style]
  {
  }

  // A backspace takes back a character that did not wrap, and leaves an empty cell.
  lemma BackUndoesType(g: Grid, ch: byte, style: nat, erase: nat)
    requires IsGrid(g) && Printable(ch) && g.x < WIDTH
    ensures Show(Show(g, ch, style, erase), BS, style, erase) == g.(cells := g.cells[Position(g) := erase])
  {
  }

  // Tabs stop at the multiples of eight; the one behind the last of a row is the first
  // of the next.
  lemma TabStops(g: Grid, style: nat, erase: nat)
    requires IsGrid(g)
    ensures var r := Show(g, HT, style, erase);
      r.x % 8 == 0 && if g.x < 72 then g.x < r.x <= g.x + 8 && r == g.(x := r.x)
                      else r == Down(g, erase).(x := if g.x < WIDTH then 0 else 8)
  {
  }

  // ---------- control sequences ----------

  // The style after one parameter of ESC [ m.
  function Restyle(style: byte, arg: uint32): byte {
    if arg == 0 then 7
    else if arg == 1 then 0x0F
    else if arg == 0x80 then (if style < 0x80 then style + 0x80 else style)
    else if arg == 7 then style / 16 + style % 16 * 16
    else if 30 <= arg <= 37 then style - style % 8 + (arg - 30)
    else if 40 <= arg <= 47 then style / 128 * 128 + (arg - 40) * 16 + style % 16
    else style
  }

  function RestyleAll(args: seq<uint32>): byte {
    if args == [] then 0 else Restyle(RestyleAll(args[..|args| - 1]), args[|args| - 1])
  }

  // The attribute byte by its fields: blink, background, bright, foreground.  A colour
  // parameter changes its field only; reverse, given twice, does nothing.
  lemma Foreground(style: byte, arg: uint32)
    requires 30 <= arg <= 37
    ensures var r := Restyle(style, arg); r % 8 == arg - 30 && r / 8 == style / 8
  {
    var q := style / 8;
    assert style == 8 * q + style % 8;
    assert Restyle(style, arg) == 8 * q + (arg - 30);
  }

  lemma Background(style: byte, arg: uint32)
    requires 40 <= arg <= 47
    ensures var r := Restyle(style, arg); r / 16 % 8 == arg - 40 && r % 16 == style % 16 && r / 128 == style / 128
  {
    var b, c, l := style / 128, arg - 40, style % 16;
    var r := Restyle(style, arg);
    assert r == 16 * (8 * b + c) + l;
    assert r / 16 == 8 * b + c;
  }

  lemma ReverseTwice(style: byte)
    ensures var r := Restyle(style, 7); r / 16 == style % 16 && r % 16 == style / 16 && Restyle(r, 7) == style
  {
    var h, l := style / 16, style % 16;
    var r := Restyle(style, 7);
    assert r == 16 * l + h && style == 16 * h + l;
    assert r / 16 == l && r % 16 == h;
  }

  // 0 is the style that consoleInit sets, 1 is white and bright, and 128 sets the blink bit.
  lemma PlainBrightBlinking(style: byte)
    ensures Restyle(style, 0) == 7 && Restyle(style, 1) == 15
    ensures var r := Restyle(style, 0x80); r / 128 == 1 && r % 128 == style % 128
  {
  }

  // The parameter 5, which ECMA-48 gives to blinking, has no effect wherever it stands:
  // the source compares with 128.
  lemma {:induction false} BlinkHasNoEffect(args: seq<uint32>, k: nat)
    requires k < |args| && args[k] == 5
    ensures RestyleAll(args) == RestyleAll(args[..k] + args[k + 1..])
    decreases |args|
  {
    var n := |args| - 1;
    if k == n {
      assert args[..k] + args[k + 1..] == args[..n];
    } else {
      BlinkHasNoEffect(args[..n], k);
      var rest := args[..k] + args[k + 1..];
      assert rest[..n - 1] == args[..n][..k] + args[..n][k + 1..] && rest[n - 1] == args[n];
    }
  }

  function Wrap(n: int): uint32 {
    n % 0x1_0000_0000
  }

  // Where setXY puts the cursor when asked for (x, y): there, or nowhere else than it is.
  function Placed(now: (nat, nat), x: uint32, y: uint32): (p: (nat, nat))
    ensures p == now || (p == (x, y) && x <= WIDTH && y < HEIGHT)
  {
    if x > WIDTH || y >= HEIGHT then now else (x, y)
  }

  function AtLeastOne(n: uint32): uint32 {
    if n == 0 then 1 else n
  }

  function OneLess(n: uint32): uint32 {
    if n == 0 then 0 else n - 1
  }

  // The cursor after the final byte of a control sequence with parameters a and b.
  function CursorAfter(ch: byte, now: (nat, nat), a: uint32, b: uint32, saved: (nat, nat)): (nat, nat)
    requires now.0 <= WIDTH && now.1 < HEIGHT && saved.0 <= WIDTH && saved.1 < HEIGHT
  {
    var (x, y) := now;
    if ch == 'G' as nat || ch == '`' as nat then Placed(now, OneLess(a), y)
    else if ch == 'A' as nat then Placed(now, x, Wrap(y - AtLeastOne(a)))
    else if ch == 'B' as nat || ch == 'e' as nat then Placed(now, x, Wrap(y + AtLeastOne(a)))
    else if ch == 'C' as nat || ch == 'a' as nat then Placed(now, Wrap(x + AtLeastOne(a)), y)
    else if ch == 'D' as nat then Placed(now, Wrap(x - AtLeastOne(a)), y)
    else if ch == 'E' as nat then Placed(now, 0, Wrap(y + AtLeastOne(a)))
    else if ch == 'F' as nat then Placed(now, 0, Wrap(y - AtLeastOne(a)))
    else if ch == 'd' as nat then Placed(now, x, OneLess(a))
    else if ch == 'H' as nat || ch == 'f' as nat then Placed(now, OneLess(b), OneLess(a))
    else if ch == 'u' as nat then saved
    else now
  }

  predicate Moves(ch: byte) {
    ch in {'G' as nat, '`' as nat, 'A' as nat, 'B' as nat, 'e' as nat, 'C' as nat, 'a' as nat, 'D' as nat, 'E' as nat, 'F' as nat,
           'd' as nat, 'H' as nat, 'f' as nat}
  }

  // Motions past an edge are refused, not cut short; and a count that wraps around 2^32
  // moves the cursor the other way.
  lemma UpAndDown(x: nat, y: nat, n: uint32, saved: (nat, nat))
    requires x <= WIDTH && y < HEIGHT && saved.0 <= WIDTH && saved.1 < HEIGHT && n > 0
    ensures CursorAfter('A' as nat, (x, y), n, 0, saved) ==
      (x, if n <= y then y - n else if y + 0x1_0000_0000 - n < HEIGHT then y + 0x1_0000_0000 - n else y)
    ensures CursorAfter('B' as nat, (x, y), n, 0, saved) ==
      (x, if y + n < HEIGHT then y + n else if y + n >= 0x1_0000_0000 then y + n - 0x1_0000_0000 else y)
  {
    WrapIs(y - n);
    WrapIs(y + n);
    hide Wrap;
  }

  lemma LeftAndRight(x: nat, y: nat, n: uint32, saved: (nat, nat))
    requires x <= WIDTH && y < HEIGHT && saved.0 <= WIDTH && saved.1 < HEIGHT && n > 0
    ensures CursorAfter('C' as nat, (x, y), n, 0, saved) ==
      (if x + n <= WIDTH then x + n else if x + n >= 0x1_0000_0000 then x + n - 0x1_0000_0000 else x, y)
    ensures CursorAfter('D' as nat, (x, y), n, 0, saved) ==
      (if n <= x then x - n else if x + 0x1_0000_0000 - n <= WIDTH then x + 0x1_0000_0000 - n else x, y)
  {
    WrapIs(x + n);
    WrapIs(x - n);
    hide Wrap;
  }

  // Rows and columns are addressed from 1 on, and 0 stands for 1; column 81 is the place
  // behind the last cell.  An address outside is ignored as a whole.
  lemma Addressed(now: (nat, nat), row: uint32, column: uint32, saved: (nat, nat))
    requires now.0 <= WIDTH && now.1 < HEIGHT && saved.0 <= WIDTH && saved.1 < HEIGHT && row > 0 && column > 0
    ensures forall ch: byte :: ch == 'H' as nat || ch == 'f' as nat ==>
      && CursorAfter(ch, now, row, column, saved) == (if column <= 81 && row <= 25 then (column - 1, row - 1) else now)
      && CursorAfter(ch, now, 0, column, saved) == CursorAfter(ch, now, 1, column, saved)
      && CursorAfter(ch, now, row, 0, saved) == CursorAfter(ch, now, row, 1, saved)
    ensures CursorAfter('d' as nat, now, row, 0, saved) == CursorAfter('H' as nat, now, row, now.0 + 1, saved)
    ensures forall ch: byte :: ch == 'G' as nat || ch == '`' as nat ==>
      CursorAfter(ch, now, column, 0, saved) == CursorAfter('H' as nat, now, now.1 + 1, column, saved)
  {
  }

  // E and F go to the start of the row where B and A would go, and stay where they are
  // when those would.
  lemma NextAndPreviousLine(x: nat, y: nat, n: uint32, saved: (nat, nat))
    requires x <= WIDTH && y < HEIGHT && saved.0 <= WIDTH && saved.1 < HEIGHT && n > 0
    ensures CursorAfter('E' as nat, (x, y), n, 0, saved) ==
      (if y + n < HEIGHT then (0, y + n) else if y + n >= 0x1_0000_0000 then (0, y + n - 0x1_0000_0000) else (x, y))
    ensures CursorAfter('F' as nat, (x, y), n, 0, saved) ==
      (if n <= y then (0, y - n) else if y + 0x1_0000_0000 - n < HEIGHT then (0, y + 0x1_0000_0000 - n) else (x, y))
  {
    WrapIs(y - n);
    WrapIs(y + n);
    hide Wrap;
  }

  lemma WrapIs(n: int)
    requires -0x1_0000_0000 <= n < 0x2_0000_0000
    ensures Wrap(n) == if n < 0 then n + 0x1_0000_0000 else if n < 0x1_0000_0000 then n else n - 0x1_0000_0000
  {
  }

  predicate Edits(ch: byte) {
    ch in {'J' as nat, 'K' as nat, 'L' as nat, 'M' as nat, 'P' as nat, '@' as nat}
  }

  // The cells that ESC [ J erases, as a range of the grid; the cursor is at cell `at`.
  function ErasedScreen(arg: uint32, at: nat): (r: (nat, nat)) {
    if arg == 0 then (at, 2000) else if arg == 1 then (0, at) else if arg == 2 then (0, 2000) else (0, 0)
  }

  function ErasedLine(arg: uint32, x: nat, y: nat): (r: (nat, nat))
    requires x <= WIDTH
  {
    if arg == 0 then (y * 80 + x, y * 80 + 80)
    else if arg == 1 then (y * 80, y * 80 + x)
    else if arg == 2 then (y * 80, y * 80 + 80) else (0, 0)
  }

  function Erase(cells: seq<nat>, range: (nat, nat), erase: nat): (r: seq<nat>)
    ensures |r| == |cells| && forall i :: 0 <= i < |r| ==> r[i] == if range.0 <= i < range.1 then erase else cells[i]
  {
    seq(|cells|, i requires 0 <= i < |cells| => if range.0 <= i < range.1 then erase else cells[i])
  }

  // Cells from..from + n are copied to `to`.
  function Moved(cells: seq<nat>, to: nat, from: nat, n: nat): (r: seq<nat>)
    requires to + n <= |cells| && from + n <= |cells|
    ensures |r| == |cells| && forall i :: 0 <= i < |r| ==> r[i] == if to <= i < to + n then cells[from + (i - to)] else cells[i]
  {
    cells[..to] + cells[from..from + n] + cells[to + n..]
  }

  // A motion without a count, or with 0, is one step.
  lemma OneStep(ch: byte, now: (nat, nat), saved: (nat, nat))
    requires now.0 <= WIDTH && now.1 < HEIGHT && saved.0 <= WIDTH && saved.1 < HEIGHT && Moves(ch)
    ensures CursorAfter(ch, now, 0, 0, saved) == CursorAfter(ch, now, 1, 1, saved)
  {
  }

  // The rest of the cursor's row moves left by one.  Behind the end of the row there is
  // only one cell to be erased, the first one of the next row.
  function CharDeleted(cells: seq<nat>, x: nat, y: nat, erase: nat): (r: seq<nat>)
    requires |cells| == 2000 && x <= WIDTH && y < HEIGHT
    ensures |r| == 2000
  {
    var c := y * 80 + x;
    if x < WIDTH then Moved(cells, c, c + 1, 79 - x)[y * 80 + 79 := erase] else if c < 2000 then cells[c := erase] else cells
  }

  // A store of one byte: the character is that of the empty cell, the style stays.
  function CharCleared(cell: nat, erase: nat): nat {
    cell / 256 * 256 + erase % 256
  }

  // The rest of the row moves right by one, and of the cursor's cell the character is
  // cleared.
  function CharInserted(cells: seq<nat>, x: nat, y: nat, erase: nat): (r: seq<nat>)
    requires |cells| == 2000 && x <= WIDTH && y < HEIGHT
    ensures |r| == 2000
  {
    var c := y * 80 + x;
    if c >= 2000 then cells
    else (if x < WIDTH then Moved(cells, c + 1, c, 79 - x) else cells)[c := CharCleared(cells[c], erase)]
  }

  function CharsEdited(cells: seq<nat>, insert: bool, x: nat, y: nat, n: nat, erase: nat): (r: seq<nat>)
    requires |cells| == 2000 && x <= WIDTH && y < HEIGHT
    ensures |r| == 2000
  {
    if n == 0 then cells
    else
      var c := CharsEdited(cells, insert, x, y, n - 1, erase);
      if insert then CharInserted(c, x, y, erase) else CharDeleted(c, x, y, erase)
  }

  // Deleting takes back what inserting has moved; the last cell of the row is lost, and the
  // one under the cursor as well, since it is the one that is deleted.
  lemma DeleteUndoesInsert(cells: seq<nat>, x: nat, y: nat, erase: nat)
    requires |cells| == 2000 && x < WIDTH && y < HEIGHT
    ensures CharDeleted(CharInserted(cells, x, y, erase), x, y, erase) == cells[y * 80 + 79 := erase]
  {
    var w := CharInserted(cells, x, y, erase);
    var r, k := CharDeleted(w, x, y, erase), y * 80 + 79;
    forall i | 0 <= i < 2000 ensures r[i] == if i == k then erase else cells[i] {
      var c := if y * 80 + x <= i < k then i + 1 else i;
      DeletedCellAt(w, x, y, erase, i);
      InsertedCellAt(cells, x, y, erase, c);
    }
    hide CharDeleted, CharInserted;
  }

  lemma InsertedCellAt(cells: seq<nat>, x: nat, y: nat, erase: nat, i: nat)
    requires |cells| == 2000 && x < WIDTH && y < HEIGHT && i < 2000
    ensures i != y * 80 + x ==>
      CharInserted(cells, x, y, erase)[i] == if y * 80 + x < i <= y * 80 + 79 then cells[i - 1] else cells[i]
  {
    hide CharCleared;
  }

  lemma DeletedCellAt(cells: seq<nat>, x: nat, y: nat, erase: nat, i: nat)
    requires |cells| == 2000 && x < WIDTH && y < HEIGHT && i < 2000
    ensures CharDeleted(cells, x, y, erase)[i] ==
      if i == y * 80 + 79 then erase else if y * 80 + x <= i < y * 80 + 79 then cells[i + 1] else cells[i]
  {
  }

  // One line deleted at row y: every second row below it, counted from the next, shows the
  // row that followed it; what the last row then shows comes from behind the window.
  ghost predicate LineDeleted(was: seq<nat>, y: nat, now: seq<nat>) {
    && |was| == |now| == 2000 && y < HEIGHT
    && (forall c :: 0 <= c < y * 80 + 80 ==> now[c] == was[c])
    && forall k: nat, j: nat {:trigger Cell(0, k, j)} :: y < k < HEIGHT && j < 80 && ((k - y) % 2 == 0 || k + 1 < HEIGHT) ==>
         now[Cell(0, k, j)] == was[Cell(0, if (k - y) % 2 == 1 then k + 1 else k, j)]
  }

  ghost predicate LinesDeleted(was: seq<nat>, y: nat, n: nat, now: seq<nat>) {
    if n == 0 then now == was else exists c :: LinesDeleted(was, y, n - 1, c) && LineDeleted(c, y, now)
  }

  // What an editing sequence with first parameter `arg` makes of the cells.
  ghost predicate Edited(ch: byte, arg: uint32, x: nat, y: nat, erase: nat, was: seq<nat>, now: seq<nat>)
    requires |was| == |now| == 2000 && x <= WIDTH && y < HEIGHT
  {
    && (ch == 'J' as nat ==> now == Erase(was, ErasedScreen(arg, y * 80 + x), erase))
    && (ch == 'K' as nat ==> now == Erase(was, ErasedLine(arg, x, y), erase))
    && (ch == 'L' as nat ==> now == LinesInserted(was, y, Times(arg), erase))
    && (ch == 'M' as nat ==> LinesDeleted(was, y, Times(arg), now))
    && (ch == 'P' as nat || ch == '@' as nat ==> now == CharsEdited(was, ch == '@' as nat, x, y, Times(arg), erase))
    && (!Edits(ch) ==> now == was)
  }

  // ---------- bytes and what they do ----------

  // All that the console shows and remembers.
  datatype Display = Display(grid: Grid, saved: (nat, nat), state: State, args: seq<uint32>, argc: nat, ques: bool, erase: nat, style: byte)

  ghost predicate IsDisplay(v: Display) {
    IsGrid(v.grid) && v.saved.0 <= WIDTH && v.saved.1 < HEIGHT && |v.args| == ARG_NR && v.argc <= ARG_NR
  }

  predicate IsDigit(ch: byte) {
    '0' as nat <= ch <= '9' as nat
  }

  ghost predicate NormalStep(v: Display, ch: byte, w: Display)
    requires IsDisplay(v)
  {
    var g := v.grid;
    w == if ch == ESC then v.(state := Escape)
         else if ch == DEL then v.(grid := g.(cells := Erase(g.cells, (g.y * 80 + g.x, g.y * 80 + g.x + 1), v.erase)))
         else v.(grid := Show(g, ch, v.style, v.erase))
  }

  // After ESC: only '[' leaves the state.
  ghost predicate EscapeStep(v: Display, ch: byte, w: Display)
    requires IsDisplay(v)
  {
    w == if ch == '[' as nat then v.(state := Query)
         else if ch == 'E' as nat then v.(grid := Down(v.grid, v.erase).(x := 0))
         else if ch == 'D' as nat then v.(grid := Down(v.grid, v.erase))
         else if ch == '7' as nat then v.(saved := (v.grid.x, v.grid.y))
         else if ch == '8' as nat then v.(grid := v.grid.(x := v.saved.0, y := v.saved.1))
         else v
  }

  // After ESC [: the parameters are cleared, and a '?' is skipped.
  ghost predicate QueryStep(v: Display, ch: byte, w: Display)
    requires IsDisplay(v)
  {
    var q := Cleared(v, ch == '?' as nat);
    if ch == '?' as nat then w == q else ArgumentStep(q, ch, w)
  }

  ghost function Cleared(v: Display, ques: bool): Display {
    v.(state := Arguments, args := seq(ARG_NR, _ => 0), argc := 0, ques := ques)
  }

  // After sixteen parameters every further byte is swallowed, and the state is never left.
  ghost predicate ArgumentStep(v: Display, ch: byte, w: Display)
    requires IsDisplay(v)
  {
    if v.argc == ARG_NR then w == v
    else if ch == ';' as nat then w == v.(argc := v.argc + 1)
    else if IsDigit(ch) then w == v.(args := v.args[v.argc := Wrap(v.args[v.argc] * 10 + ch - 48)])
    else FinalStep(v.(argc := v.argc + 1), ch, w)
  }

  // The final byte: the cursor, the cells and the style are as its parameters say.
  ghost predicate FinalStep(v: Display, ch: byte, w: Display)
    requires IsDisplay(v)
  {
    && IsDisplay(w) && w.state == Normal && w.argc == v.argc && w.ques == v.ques && (!Moves(ch) ==> w.args == v.args)
    && (w.grid.x, w.grid.y) == CursorAfter(ch, (v.grid.x, v.grid.y), v.args[0], v.args[1], v.saved)
    && Edited(ch, v.args[0], v.grid.x, v.grid.y, v.erase, v.grid.cells, w.grid.cells)
    && w.saved == (if ch == 's' as nat then (v.grid.x, v.grid.y) else v.saved)
    && w.style == (if ch == 'm' as nat then RestyleAll(v.args[..v.argc]) else v.style)
    && w.erase == if ch == 'm' as nat then w.style * 256 + 0x20 else v.erase
  }

  lemma FinalMove(v: Display, ch: byte, w: Display)
    requires IsDisplay(v) && IsDisplay(w) && Moves(ch) && w == v.(state := Normal, args := w.args, grid := w.grid)
    requires w.grid.cells == v.grid.cells && (w.grid.x, w.grid.y) == CursorAfter(ch, (v.grid.x, v.grid.y), v.args[0], v.args[1], v.saved)
    ensures FinalStep(v, ch, w)
  {
    hide CursorAfter, RestyleAll;
  }

  lemma FinalEdit(v: Display, ch: byte, w: Display)
    requires IsDisplay(v) && IsDisplay(w) && Edits(ch) && w == v.(state := Normal, grid := v.grid.(cells := w.grid.cells))
    requires Edited(ch, v.args[0], v.grid.x, v.grid.y, v.erase, v.grid.cells, w.grid.cells)
    ensures FinalStep(v, ch, w)
  {
    hide Edited, RestyleAll;
  }

  lemma FinalOther(v: Display, ch: byte, w: Display)
    requires IsDisplay(v) && IsDisplay(w) && !Moves(ch) && !Edits(ch)
    requires w == v.(state := Normal, grid := w.grid, saved := w.saved, style := w.style, erase := w.erase) && w.grid.cells == v.grid.cells
    requires (w.grid.x, w.grid.y) == if ch == 'u' as nat then v.saved else (v.grid.x, v.grid.y)
    requires w.saved == if ch == 's' as nat then (v.grid.x, v.grid.y) else v.saved
    requires w.style == (if ch == 'm' as nat then RestyleAll(v.args[..v.argc]) else v.style)
    requires w.erase == if ch == 'm' as nat then w.style * 256 + 0x20 else v.erase
    ensures FinalStep(v, ch, w)
  {
    hide RestyleAll;
  }

  ghost predicate FeedStep(v: Display, ch: byte, w: Display) {
    && IsDisplay(v) && IsDisplay(w)
    && match v.state
       case Normal => NormalStep(v, ch, w)
       case Escape => EscapeStep(v, ch, w)
       case Query => QueryStep(v, ch, w)
       case Arguments => ArgumentStep(v, ch, w)
  }

  // The console may go from v to w when `text` is written.
  ghost predicate Writes(v: Display, text: seq<byte>, w: Display) {
    if text == [] then w == v
    else
      var n := |text| - 1;
      exists u :: Writes(v, text[..n], u) && FeedStep(u, text[n], w)
  }

  // ---------- what is written in one run ----------

  lemma {:induction false} WritesSplit(v: Display, a: seq<byte>, b: seq<byte>, w: Display) returns (u: Display)
    requires Writes(v, a + b, w)
    ensures Writes(v, a, u) && Writes(u, b, w)
    decreases |b|
  {
    if b == [] {
      assert a + b == a;
      u := w;
    } else {
      var n := |b| - 1;
      assert (a + b)[..|a + b| - 1] == a + b[..n] && (a + b)[|a + b| - 1] == b[n];
      var t :| Writes(v, a + b[..n], t) && FeedStep(t, b[n], w);
      u := WritesSplit(v, a, b[..n], t);
    }
  }

  // Plain text looks as on a plain grid.
  lemma {:induction false} PlainWrites(v: Display, text: seq<byte>, w: Display)
    requires IsDisplay(v) && v.state == Normal && Writes(v, text, w) && forall i :: 0 <= i < |text| ==> Plain(text[i])
    ensures w == v.(grid := ShowAll(v.grid, text, v.style, v.erase))
  {
    if text != [] {
      var n := |text| - 1;
      var u :| Writes(v, text[..n], u) && FeedStep(u, text[n], w);
      PlainWrites(v, text[..n], u);
    }
  }

  predicate Digits(s: seq<byte>) {
    forall i :: 0 <= i < |s| ==> IsDigit(s[i])
  }

  predicate Numerals(ps: seq<seq<byte>>) {
    forall i :: 0 <= i < |ps| ==> Digits(ps[i])
  }

  // The number that a row of digits stands for; no digits stand for 0.
  function Value(s: seq<byte>): nat
    requires Digits(s)
  {
    if s == [] then 0 else Value(s[..|s| - 1]) * 10 + (s[|s| - 1] - 48)
  }

  // Parameters, with a ';' between any two.
  function Joined(ps: seq<seq<byte>>): seq<byte>
    requires ps != []
  {
    if |ps| == 1 then ps[0] else Joined(ps[..|ps| - 1]) + [';' as nat] + ps[|ps| - 1]
  }

  // The values of the parameters, in 32 bits, and zeros behind.
  ghost predicate Holds(args: seq<uint32>, ps: seq<seq<byte>>)
    requires Numerals(ps)
  {
    && |args| == ARG_NR && |ps| <= ARG_NR
    && forall i :: 0 <= i < ARG_NR ==> args[i] == if i < |ps| then Wrap(Value(ps[i])) else 0
  }

  lemma WrapTwice(n: nat, d: nat)
    ensures Wrap(Wrap(n) * 10 + d) == Wrap(n * 10 + d)
  {
    var q, m := n / 0x1_0000_0000, Wrap(n);
    assert n * 10 + d == (m * 10 + d) + (q * 10) * 0x1_0000_0000;
    WrapMore(m * 10 + d, q * 10);
  }

  lemma {:induction false} WrapMore(n: nat, q: nat)
    ensures Wrap(n + q * 0x1_0000_0000) == Wrap(n)
    decreases q
  {
    if q > 0 {
      WrapMore(n, q - 1);
    }
  }

  // Digits go into the current parameter.
  lemma {:induction false} DigitsWrite(v: Display, s: seq<byte>, w: Display)
    requires IsDisplay(v) && v.state == Arguments && v.argc < ARG_NR && v.args[v.argc] == 0 && Digits(s) && Writes(v, s, w)
    ensures w == v.(args := v.args[v.argc := Wrap(Value(s))])
  {
    hide Wrap, FeedStep;
    if s == [] {
      WrapIs(0);
      assert v.args == v.args[v.argc := 0];
    } else {
      var n := |s| - 1;
      var u :| Writes(v, s[..n], u) && FeedStep(u, s[n], w);
      hide Writes;
      DigitsWrite(v, s[..n], u);
      WrapTwice(Value(s[..n]), s[n] - 48);
      DigitStep(u, s[n], w);
    }
  }

  lemma DigitStep(v: Display, ch: byte, w: Display)
    requires v.state == Arguments && v.argc < ARG_NR && IsDigit(ch) && FeedStep(v, ch, w)
    ensures |v.args| == ARG_NR && w == v.(args := v.args[v.argc := Wrap(v.args[v.argc] * 10 + (ch - 48))])
  {
    hide Wrap;
  }

  // At most sixteen parameters are stored where they belong.
  lemma {:induction false} ParametersWrite(v: Display, ps: seq<seq<byte>>, w: Display)
    requires IsDisplay(v) && v.state == Arguments && v.argc == 0 && v.args == seq(ARG_NR, _ => 0)
    requires 0 < |ps| <= ARG_NR && Numerals(ps) && Writes(v, Joined(ps), w)
    ensures Holds(w.args, ps) && w == v.(args := w.args, argc := |ps| - 1)
    decreases |ps|
  {
    hide *;
    var n := |ps| - 1;
    if n == 0 {
      OneParameter(v, ps, w);
    } else {
      LastParameter(v, ps);
      var t := WritesSplit(v, Joined(ps[..n]) + [';' as nat], ps[n], w);
      var u := WritesSplit(v, Joined(ps[..n]), [';' as nat], t);
      ParametersWrite(v, ps[..n], u);
      OneByte(u, ';' as nat, t);
      AfterSemicolon(v, u, t, ps);
      DigitsWrite(t, ps[n], w);
      ParameterAdded(v, u, ps, w);
    }
  }

  lemma OneParameter(v: Display, ps: seq<seq<byte>>, w: Display)
    requires IsDisplay(v) && v.state == Arguments && v.argc == 0 && v.args == seq(ARG_NR, _ => 0)
    requires |ps| == 1 && Numerals(ps) && Writes(v, Joined(ps), w)
    ensures Holds(w.args, ps) && w == v.(args := w.args, argc := 0)
  {
    hide Value, Wrap, FeedStep;
    DigitsWrite(v, ps[0], w);
  }

  lemma LastParameter(v: Display, ps: seq<seq<byte>>)
    requires |ps| > 1 && Numerals(ps)
    ensures Joined(ps) == Joined(ps[..|ps| - 1]) + [';' as nat] + ps[|ps| - 1] && Digits(ps[|ps| - 1])
    ensures Numerals(ps[..|ps| - 1])
  {
  }

  lemma AfterSemicolon(v: Display, u: Display, t: Display, ps: seq<seq<byte>>)
    requires 1 < |ps| <= ARG_NR && Numerals(ps) && Holds(u.args, ps[..|ps| - 1])
    requires v.state == Arguments && u == v.(args := u.args, argc := |ps| - 2) && FeedStep(u, ';' as nat, t)
    ensures IsDisplay(t) && t == v.(args := u.args, argc := |ps| - 1) && t.argc < ARG_NR && t.args[t.argc] == 0
  {
    hide Value, Wrap;
  }

  lemma ParameterAdded(v: Display, u: Display, ps: seq<seq<byte>>, w: Display)
    requires 1 < |ps| <= ARG_NR && Numerals(ps) && Holds(u.args, ps[..|ps| - 1])
    requires w == v.(args := u.args[|ps| - 1 := Wrap(Value(ps[|ps| - 1]))], argc := |ps| - 1)
    ensures Holds(w.args, ps)
  {
    hide Value, Wrap;
  }

  lemma OneByte(v: Display, ch: byte, w: Display)
    requires Writes(v, [ch], w)
    ensures FeedStep(v, ch, w)
  {
    hide FeedStep;
    assert [ch][..0] == [];
    var u :| Writes(v, [ch][..0], u) && FeedStep(u, ch, w);
  }

  lemma SemicolonStep(v: Display, w: Display)
    requires v.state == Arguments && v.argc < ARG_NR && FeedStep(v, ';' as nat, w)
    ensures w == v.(argc := v.argc + 1) && IsDisplay(w)
  {
  }

  // ESC [ p1 ; ... ; pn and a final byte, with a '?' in front of the parameters or
  // without: up to sixteen parameters arrive as they were written.
  function Sequence(ques: bool, ps: seq<seq<byte>>, ch: byte): seq<byte>
    requires ps != []
  {
    [ESC, '[' as nat] + (if ques then ['?' as nat] else []) + Joined(ps) + [ch]
  }

  predicate Final(ch: byte) {
    ch != ';' as nat && !IsDigit(ch)
  }

  lemma {:induction false} JoinedBytes(ps: seq<seq<byte>>)
    requires ps != [] && Numerals(ps)
    ensures forall i :: 0 <= i < |Joined(ps)| ==> IsDigit(Joined(ps)[i]) || Joined(ps)[i] == ';' as nat
    decreases |ps|
  {
    if |ps| > 1 {
      JoinedBytes(ps[..|ps| - 1]);
    }
  }

  // Without a '?' the first byte behind ESC [ is already one of the parameters.
  lemma {:induction false} QueryWrites(v: Display, text: seq<byte>, w: Display)
    requires IsDisplay(v) && v.state == Query && text != [] && text[0] != '?' as nat && Writes(v, text, w)
    ensures Writes(Cleared(v, false), text, w)
    decreases |text|
  {
    var n := |text| - 1;
    var u :| Writes(v, text[..n], u) && FeedStep(u, text[n], w);
    if n == 0 {
      assert Writes(Cleared(v, false), text[..0], Cleared(v, false)) && FeedStep(Cleared(v, false), text[0], w);
    } else {
      QueryWrites(v, text[..n], u);
    }
  }

  // ESC [, and '?' if it is there: cleared parameters.
  lemma SequenceBegins(v: Display, ques: bool, text: seq<byte>, w: Display)
    requires IsDisplay(v) && v.state == Normal && text != [] && (ques || text[0] != '?' as nat)
    requires Writes(v, [ESC, '[' as nat] + (if ques then ['?' as nat] else []) + text, w)
    ensures Writes(Cleared(v, ques), text, w)
  {
    var mark := if ques then ['?' as nat] else [];
    hide FeedStep, Cleared;
    assert [ESC, '[' as nat] + mark + text == [ESC] + (['[' as nat] + (mark + text));
    var a := WritesSplit(v, [ESC], ['[' as nat] + (mark + text), w);
    OneByte(v, ESC, a);
    var b := WritesSplit(a, ['[' as nat], mark + text, w);
    OneByte(a, '[' as nat, b);
    EscapeSteps(v, a, b);
    if ques {
      var c := WritesSplit(b, mark, text, w);
      OneByte(b, '?' as nat, c);
      QuestionStep(b, c);
      ClearedSame(v, b, true);
    } else {
      assert mark + text == text;
      QueryWrites(b, text, w);
      ClearedSame(v, b, false);
    }
  }

  lemma EscapeSteps(v: Display, a: Display, b: Display)
    requires v.state == Normal && FeedStep(v, ESC, a) && FeedStep(a, '[' as nat, b)
    ensures IsDisplay(b) && b == v.(state := Query)
  {
  }

  lemma QuestionStep(v: Display, w: Display)
    requires v.state == Query && FeedStep(v, '?' as nat, w)
    ensures w == Cleared(v, true)
  {
  }

  lemma ClearedSame(v: Display, b: Display, ques: bool)
    requires b == v.(state := Query)
    ensures Cleared(b, ques) == Cleared(v, ques)
  {
  }

  // The law of control sequences.
  lemma SequenceWrites(v: Display, ques: bool, ps: seq<seq<byte>>, ch: byte, w: Display)
    requires IsDisplay(v) && v.state == Normal && Final(ch) && (ques || ch != '?' as nat || ps != [[]])
    requires 0 < |ps| <= ARG_NR && Numerals(ps) && Writes(v, Sequence(ques, ps, ch), w)
    ensures exists args :: Holds(args, ps) && FinalStep(v.(state := Arguments, args := args, argc := |ps|, ques := ques), ch, w)
  {
    hide FeedStep, Writes, Holds, FinalStep;
    var text := Joined(ps) + [ch];
    JoinedBytes(ps);
    if !ques {
      FirstByte(ps, ch);
    }
    assert Sequence(ques, ps, ch) == [ESC, '[' as nat] + (if ques then ['?' as nat] else []) + text;
    SequenceBegins(v, ques, text, w);
    var c := Cleared(v, ques);
    var u := WritesSplit(c, Joined(ps), [ch], w);
    ParametersWrite(c, ps, u);
    OneByte(u, ch, w);
    EndStep(v, ques, u, |ps|, ch, w);
  }

  lemma FirstByte(ps: seq<seq<byte>>, ch: byte)
    requires ps != [] && forall i :: 0 <= i < |Joined(ps)| ==> IsDigit(Joined(ps)[i]) || Joined(ps)[i] == ';' as nat
    requires ch != '?' as nat || ps != [[]]
    ensures (Joined(ps) + [ch])[0] != '?' as nat
  {
    if Joined(ps) == [] && |ps| == 1 {
      assert ps == [[]];
    }
  }

  lemma EndStep(v: Display, ques: bool, u: Display, n: nat, ch: byte, w: Display)
    requires IsDisplay(v) && Final(ch) && 0 < n <= ARG_NR && u == Cleared(v, ques).(args := u.args, argc := n - 1) && FeedStep(u, ch, w)
    ensures |u.args| == ARG_NR && FinalStep(v.(state := Arguments, args := u.args, argc := n, ques := ques), ch, w)
  {
    hide FinalStep;
  }

  // A seventeenth parameter is one too many: the sequence has no effect, and nothing that
  // is written afterwards has any.
  lemma SeventeenthSwallowsAll(v: Display, ques: bool, ps: seq<seq<byte>>, rest: seq<byte>, w: Display)
    requires IsDisplay(v) && v.state == Normal && |ps| > ARG_NR && Numerals(ps)
    requires Writes(v, [ESC, '[' as nat] + (if ques then ['?' as nat] else []) + Joined(ps) + rest, w)
    ensures w == v.(state := Arguments, args := w.args, argc := ARG_NR, ques := ques)
  {
    hide FeedStep, Writes, Holds;
    var mark := if ques then ['?' as nat] else [];
    var more := JoinedPrefix(ps, ARG_NR);
    var first := Joined(ps[..ARG_NR]);
    JoinedBytes(ps);
    assert (Joined(ps) + rest)[0] == Joined(ps)[0];
    assert [ESC, '[' as nat] + mark + Joined(ps) + rest == [ESC, '[' as nat] + mark + (Joined(ps) + rest);
    SequenceBegins(v, ques, Joined(ps) + rest, w);
    assert Joined(ps) + rest == first + ([';' as nat] + (more + rest));
    var c := Cleared(v, ques);
    var u := WritesSplit(c, first, [';' as nat] + (more + rest), w);
    ParametersWrite(c, ps[..ARG_NR], u);
    var t := WritesSplit(u, [';' as nat], more + rest, w);
    OneByte(u, ';' as nat, t);
    SemicolonStep(u, t);
    Swallowed(t, more + rest, w);
  }

  lemma {:induction false} JoinedPrefix(ps: seq<seq<byte>>, n: nat) returns (more: seq<byte>)
    requires 0 < n < |ps|
    ensures Joined(ps) == Joined(ps[..n]) + ([';' as nat] + more)
    decreases |ps|
  {
    var m := |ps| - 1;
    if m == n {
      more := ps[m];
    } else {
      assert ps[..m][..n] == ps[..n];
      var before := JoinedPrefix(ps[..m], n);
      more := before + [';' as nat] + ps[m];
    }
  }

  lemma {:induction false} Swallowed(v: Display, text: seq<byte>, w: Display)
    requires IsDisplay(v) && v.state == Arguments && v.argc == ARG_NR && Writes(v, text, w)
    ensures w == v
  {
    if text != [] {
      var n := |text| - 1;
      var u :| Writes(v, text[..n], u) && FeedStep(u, text[n], w);
      Swallowed(v, text[..n], u);
    }
  }

  // ESC [ 1 ; 31 m makes what follows bright, with colour 1 in front, and touches no cell.
  lemma ColourWritten(v: Display, w: Display)
    requires IsDisplay(v) && v.state == Normal
    requires Writes(v, [ESC, '[' as nat, '1' as nat, ';' as nat, '3' as nat, '1' as nat, 'm' as nat], w)
    ensures w.style == 0x09 && w.erase == 0x0920 && w.grid == v.grid && w.state == Normal
  {
    var ps: seq<seq<byte>> := [['1' as nat], ['3' as nat, '1' as nat]];
    ColourText(ps);
    hide Writes, Value, Wrap, Joined, Holds, FinalStep, Sequence;
    SequenceWrites(v, false, ps, 'm' as nat, w);
    var args: seq<uint32> :| Holds(args, ps) && FinalStep(v.(state := Arguments, args := args, argc := 2, ques := false), 'm' as nat, w);
    ColourStyle(v, ps, args, w);
  }

  lemma ColourText(ps: seq<seq<byte>>)
    requires ps == [['1' as nat], ['3' as nat, '1' as nat]]
    ensures Numerals(ps) && Sequence(false, ps, 'm' as nat) == [ESC, '[' as nat, '1' as nat, ';' as nat, '3' as nat, '1' as nat, 'm' as nat]
  {
    assert Joined(ps[..1]) == ['1' as nat];
    assert Joined(ps) == ['1' as nat, ';' as nat, '3' as nat, '1' as nat];
  }

  lemma ColourStyle(v: Display, ps: seq<seq<byte>>, args: seq<uint32>, w: Display)
    requires ps == [['1' as nat], ['3' as nat, '1' as nat]] && Numerals(ps) && Holds(args, ps)
    requires var u := v.(state := Arguments, args := args, argc := 2, ques := false); IsDisplay(u) && FinalStep(u, 'm' as nat, w)
    ensures w.style == 0x09 && w.erase == 0x0920 && w.grid == v.grid && w.state == Normal
  {
    assert ps[0][..0] == [] && ps[1][..1] == ['3' as nat] && ps[1][..1][..0] == [];
    assert Value(ps[0]) == 1 && Value(ps[1]) == 31;
    WrapIs(1);
    WrapIs(31);
    hide Wrap, Value;
    assert args[..2] == [1, 31];
    StyleNine();
  }

  lemma StyleNine()
    ensures RestyleAll([1, 31]) == 9
  {
    assert [1, 31][..1] == [1] && [1][..0] == [];
    assert RestyleAll([1]) == 15;
  }

  // ESC [ 2 J leaves an empty screen.
  lemma ClearScreen(v: Display, w: Display)
    requires IsDisplay(v) && v.state == Normal && Writes(v, [ESC, '[' as nat, '2' as nat, 'J' as nat], w)
    ensures w.grid == v.grid.(cells := Blanks(2000, v.erase)) && w.state == Normal
  {
    var ps: seq<seq<byte>> := [['2' as nat]];
    assert Sequence(false, ps, 'J' as nat) == [ESC, '[' as nat, '2' as nat, 'J' as nat];
    assert Value(ps[0][..0]) == 0 && Value(ps[0]) == 2;
    WrapIs(2);
    hide Writes, Value, Wrap;
    SequenceWrites(v, false, ps, 'J' as nat, w);
  }

  class Console {
    const mem: array<nat>
    var screen: nat
    var pos: nat
    var x: nat
    var y: nat
    var savedX: nat
    var savedY: nat
    var state: State
    const args: array<uint32>
    var argc: nat
    var ques: bool
    var erase: nat
    var style: byte

    // The window is row-aligned and leaves a row below it; `pos` is where the cursor is.
    ghost predicate Valid()
      reads this
    {
      && mem.Length == CELLS && args.Length == ARG_NR && argc <= ARG_NR
      && MEM_BASE <= screen && (screen - MEM_BASE) % 160 == 0 && screen + SCR_SIZE + ROW_SIZE <= MEM_END
      && x <= WIDTH && y < HEIGHT && savedX <= WIDTH && savedY < HEIGHT
      && pos == screen + y * 160 + 2 * x
    }

    // The first cell of the window.
    ghost function Top(): (t: nat)
      requires Valid()
      reads this
      ensures t % 80 == 0 && t + 2080 <= CELLS && screen == MEM_BASE + 2 * t
    {
      (screen - MEM_BASE) / 2
    }

    // What is on the screen.
    ghost function Shown(): (g: Grid)
      requires Valid()
      reads this, mem
      ensures IsGrid(g) && g.x == x && g.y == y && forall i :: 0 <= i < 2000 ==> g.cells[i] == mem[Top() + i]
    {
      Grid(mem[Top()..Top() + 2000], x, y)
    }

    ghost function View(): (v: Display)
      requires Valid()
      reads this, mem, args
      ensures IsDisplay(v)
    {
      Display(Shown(), (savedX, savedY), state, args[..], argc, ques, erase, style)
    }

    // Nothing but the window, the cursor and video memory has changed.
    twostate predicate SameControls()
      reads this, args
    {
      && state == old(state) && args[..] == old(args[..]) && argc == old(argc) && ques == old(ques)
      && erase == old(erase) && style == old(style) && savedX == old(savedX) && savedY == old(savedY)
    }

    // A 16-bit store; an address outside video memory has no place here.
    method Store(address: nat, cell: nat)
      requires mem.Length == CELLS && MEM_BASE <= address < MEM_END && address % 2 == 0
      modifies mem
      ensures mem[..] == old(mem[..])[(address - MEM_BASE) / 2 := cell]
    {
      mem[(address - MEM_BASE) / 2] := cell;
    }

    // eraseScreen: cells from `start` on.
    method EraseScreen(start: nat, count: nat)
      requires mem.Length == CELLS && MEM_BASE <= start && start % 2 == 0 && start + 2 * count <= MEM_END
      modifies mem
      ensures mem[..] == Erase(old(mem[..]), ((start - MEM_BASE) / 2, (start - MEM_BASE) / 2 + count), erase)
    {
      var nr, address := 0, start;
      while nr < count
        invariant 0 <= nr <= count && address == start + 2 * nr
        invariant mem[..] == Erase(old(mem[..]), ((start - MEM_BASE) / 2, (start - MEM_BASE) / 2 + nr), erase)
      {
        Store(address, erase);
        address := address + 2;
        nr := nr + 1;
      }
    }

    // memcpy of `count` cells, from cell f to cell t; it is only used on ranges that do not
    // overlap.
    method Copy(target: nat, source: nat, count: nat, ghost t: nat, ghost f: nat)
      requires mem.Length == CELLS && target == MEM_BASE + 2 * t && source == MEM_BASE + 2 * f
      requires t + count <= CELLS && f + count <= CELLS && (t + count <= f || f + count <= t)
      modifies mem
      ensures mem[..] == Moved(old(mem[..]), t, f, count)
    {
      var to, from := (target - MEM_BASE) / 2, (source - MEM_BASE) / 2;
      var nr := 0;
      while nr < count
        invariant 0 <= nr <= count
        invariant forall i :: 0 <= i < CELLS ==> mem[i] == if t <= i < t + nr then old(mem[f + (i - t)]) else old(mem[i])
      {
        mem[to + nr] := mem[from + nr];
        nr := nr + 1;
      }
    }

    // consoleInit and consoleClear.
    constructor ()
      ensures Valid() && fresh(mem) && fresh(args) && state == Normal && style == 7 && erase == 0x0720
      ensures Shown() == Grid(Blanks(2000, 0x0720), 0, 0)
    {
      mem := new nat[CELLS](_ => 0x0720);
      args := new uint32[ARG_NR](_ => 0);
      screen, pos, x, y := MEM_BASE, MEM_BASE, 0, 0;
      savedX, savedY, state, argc, ques := 0, 0, Normal, 0, false;
      erase, style := 0x0720, 7;
    }

    method SetXY(x1: uint32, y1: uint32)
      requires Valid()
      modifies this`x, this`y, this`pos
      ensures Valid() && (x, y) == Placed((old(x), old(y)), x1, y1)
      ensures Shown().cells == old(Shown().cells)
    {
      if x1 > WIDTH || y1 >= HEIGHT {
        return;
      }
      x, y := x1, y1;
      pos := screen + y1 * 160 + x1 * 2;
    }

    method SaveCursor()
      requires Valid()
      modifies this`savedX, this`savedY
      ensures Valid() && savedX == x && savedY == y
    {
      savedX, savedY := x, y;
    }

    // The cell of the cursor.
    lemma At()
      requires Valid()
      ensures pos % 2 == 0 && (pos - MEM_BASE) / 2 == Top() + y * 80 + x && MEM_BASE <= pos < MEM_END
    {
    }

    // In front of the end of video memory the window moves back to its start.
    method WrapWindow()
      requires Valid()
      modifies this`screen, this`pos, mem
      ensures Valid() && SameControls() && Shown() == old(Shown()) && screen + SCR_SIZE + ROW_SIZE < MEM_END
    {
      if screen + SCR_SIZE + ROW_SIZE >= MEM_END {
        Copy(MEM_BASE, screen, SCR_SIZE / 2, 0, Top());
        pos := pos - (screen - MEM_BASE);
        screen := MEM_BASE;
      }
    }

    // One row further.
    method ScrollUp()
      requires Valid() && y + 1 == HEIGHT
      modifies this`screen, this`pos, mem
      ensures Valid() && SameControls() && Shown() == Down(old(Shown()), erase)
    {
      hide Erase, Blanks;
      ghost var g := Shown();
      WrapWindow();
      ghost var t, m := Top(), mem[..];
      EraseScreen(screen + SCR_SIZE, WIDTH);
      screen := screen + ROW_SIZE;
      pos := pos + ROW_SIZE;
      Scrolled(m, t, g.cells);
    }

    lemma Scrolled(m: seq<nat>, t: nat, cells: seq<nat>)
      requires Valid() && Top() == t + 80 && |m| == CELLS && cells == m[t..t + 2000]
      requires mem[..] == Erase(m, (t + 2000, t + 2080), erase)
      ensures Shown().cells == cells[WIDTH..] + Blanks(WIDTH, erase)
    {
      var now, was := Shown().cells, cells[WIDTH..] + Blanks(WIDTH, erase);
      forall i | 0 <= i < 2000 ensures now[i] == was[i] {
        assert now[i] == mem[..][t + 80 + i];
      }
    }

    method Lf()
      requires Valid()
      modifies this`screen, this`pos, this`y, mem
      ensures Valid() && SameControls() && Shown() == Down(old(Shown()), erase)
    {
      if y + 1 < HEIGHT {
        y := y + 1;
        pos := pos + ROW_SIZE;
        return;
      }
      ScrollUp();
    }

    method Cr()
      requires Valid()
      modifies this`pos, this`x
      ensures Valid() && Shown() == old(Shown()).(x := 0)
    {
      pos := pos - 2 * x;
      x := 0;
    }

    method Tabulate()
      requires Valid()
      modifies this`screen, this`pos, this`x, this`y, mem
      ensures Valid() && SameControls() && Shown() == Tab(old(Shown()), erase)
    {
      hide Down, Blanks;
      var offset := 8 - x % 8;
      ghost var g := Shown();
      x := x + offset;
      pos := pos + offset * 2;
      if x >= WIDTH {
        x := x - WIDTH;
        pos := pos - ROW_SIZE;
        assert Valid() && Shown() == g.(x := x);
        Lf();
      }
    }

    method Bs()
      requires Valid()
      modifies this`pos, this`x, mem
      ensures Valid() && SameControls() && Shown() == Back(old(Shown()), erase)
    {
      if x == 0 {
        return;
      }
      ghost var g, m := Shown(), mem[..];
      x := x - 1;
      pos := pos - 2;
      At();
      Store(pos, erase);
      Stored(m, g.cells, y * 80 + x, erase);
    }

    // The cell under the cursor; behind the end of a row that is the first one of the
    // next row, which may be below the window.
    method Del()
      requires Valid()
      modifies mem
      ensures Valid() && Shown().cells == Erase(old(Shown().cells), (y * 80 + x, y * 80 + x + 1), erase)
    {
      Store(pos, erase);
    }

    // The cursor leaves the end of a row.
    method NextRow()
      requires Valid()
      modifies this`screen, this`pos, this`x, this`y, mem
      ensures Valid() && SameControls() && x < WIDTH
      ensures Shown() == if old(x) == WIDTH then Down(old(Shown()).(x := 0), erase) else old(Shown())
    {
      if x >= WIDTH {
        ghost var g := Shown();
        x := x - WIDTH;
        pos := pos - ROW_SIZE;
        assert Valid() && Shown() == g.(x := 0);
        Lf();
      }
    }

    method Chr(ch: byte)
      requires Valid()
      modifies this`screen, this`pos, this`x, this`y, mem
      ensures Valid() && SameControls() && Shown() == Type(old(Shown()), ch, style, erase)
    {
      hide Down, Tab, Back, Erase;
      NextRow();
      ghost var w := Shown();
      PutCell(ch + 256 * style);
      assert Shown() == w.(cells := w.cells[w.y * 80 + w.x := ch + 256 * style], x := w.x + 1);
    }

    // The cell under the cursor is written, and the cursor moves on.
    method PutCell(cell: nat)
      requires Valid() && x < WIDTH
      modifies this`pos, this`x, mem
      ensures Valid() && Shown() == Grid(old(Shown()).cells[y * 80 + old(x) := cell], old(x) + 1, y)
    {
      At();
      ghost var w, m := Shown(), mem[..];
      Store(pos, cell);
      pos := pos + 2;
      x := x + 1;
      Stored(m, w.cells, y * 80 + (x - 1), cell);
    }

    // A cell of the window is written.
    lemma Stored(m: seq<nat>, cells: seq<nat>, k: nat, cell: nat)
      requires Valid() && k < 2000 && |m| == CELLS && cells == m[Top()..Top() + 2000] && mem[..] == m[Top() + k := cell]
      ensures Shown().cells == cells[k := cell]
    {
      forall i | 0 <= i < 2000 ensures Shown().cells[i] == cells[k := cell][i] {
        assert Shown().cells[i] == mem[..][Top() + i];
      }
    }

    method StateNormal(ch: byte)
      requires Valid() && state == Normal
      modifies this, mem
      ensures Valid() && NormalStep(old(View()), ch, View())
    {
      if ch == NUL || ch == BEL {
      } else if ch == BS {
        Bs();
      } else if ch == HT {
        Tabulate();
      } else if ch == LF {
        Lf();
        Cr();
      } else if ch == VT || ch == FF {
        Lf();
      } else if ch == CR {
        Cr();
      } else if ch == DEL {
        Del();
      } else if ch == ESC {
        state := Escape;
      } else {
        Chr(ch);
      }
    }

    // After ESC: only '[' leaves the state.
    method StateEsc(ch: byte)
      requires Valid() && state == Escape
      modifies this, mem
      ensures Valid() && EscapeStep(old(View()), ch, View())
    {
      if ch == '[' as nat {
        state := Query;
      } else if ch == 'E' as nat {
        Lf();
        Cr();
      } else if ch == 'D' as nat {
        Lf();
      } else if ch == '7' as nat {
        SaveCursor();
      } else if ch == '8' as nat {
        SetXY(savedX, savedY);
      }
    }

    // True if the byte ends the parameters.  After sixteen of them every further byte is
    // swallowed, and the state is never left.
    method StateArg(ch: byte) returns (final: bool)
      requires Valid() && state == Arguments
      modifies this`argc, args
      ensures Valid() && Shown() == old(Shown())
      ensures final <==> old(argc) < ARG_NR && ch != ';' as nat && !('0' as nat <= ch <= '9' as nat)
      ensures old(argc) == ARG_NR ==> argc == ARG_NR && args[..] == old(args[..])
      ensures old(argc) < ARG_NR && '0' as nat <= ch <= '9' as nat ==>
        argc == old(argc) && args[..] == old(args[..])[argc := Wrap(old(args[argc]) * 10 + ch - 48)]
      ensures old(argc) < ARG_NR && !('0' as nat <= ch <= '9' as nat) ==> argc == old(argc) + 1 && args[..] == old(args[..])
    {
      if argc >= ARG_NR {
        return false;
      }
      if ch == ';' as nat {
        argc := argc + 1;
        return false;
      }
      if '0' as nat <= ch <= '9' as nat {
        args[argc] := Wrap(args[argc] * 10 + ch - '0' as nat);
        return false;
      }
      argc := argc + 1;
      return true;
    }

    // Cells lo..hi of the window are erased.
    method EraseCells(lo: nat, hi: nat)
      requires Valid() && lo <= hi <= 2000
      modifies mem
      ensures Valid() && Shown() == old(Shown()).(cells := Erase(old(Shown().cells), (lo, hi), erase))
    {
      ghost var g, m := Shown(), mem[..];
      EraseScreen(screen + 2 * lo, hi - lo);
      forall i | 0 <= i < 2000 ensures Shown().cells[i] == Erase(g.cells, (lo, hi), erase)[i] {
        assert Shown().cells[i] == mem[..][Top() + i];
      }
    }

    method CsiJ()
      requires Valid()
      modifies mem
      ensures Valid() && Shown() == old(Shown()).(cells := Erase(old(Shown().cells), ErasedScreen(args[0], y * 80 + x), erase))
    {
      At();
      if args[0] == 0 {
        EraseCells((pos - screen) / 2, SCR_SIZE / 2);
      } else if args[0] == 1 {
        EraseCells(0, (pos - screen) / 2);
      } else if args[0] == 2 {
        EraseCells(0, SCR_SIZE / 2);
      }
    }

    method CsiK()
      requires Valid()
      modifies mem
      ensures Valid() && Shown() == old(Shown()).(cells := Erase(old(Shown().cells), ErasedLine(args[0], x, y), erase))
    {
      At();
      var at := (pos - screen) / 2;
      if args[0] == 0 {
        EraseCells(at, at + (WIDTH - x));
      } else if args[0] == 1 {
        EraseCells(at - x, at);
      } else if args[0] == 2 {
        EraseCells(at - x, at - x + WIDTH);
      }
    }

    // insertLine's loop: the rows from `start` to the end of video memory move down by one.
    method LowerRows(start: nat)
      requires mem.Length == CELLS && MEM_BASE <= start <= MEM_END - ROW_SIZE && (start - MEM_BASE) % 160 == 0
      modifies mem
      ensures Lowered(old(mem[..]), mem[..], (start - MEM_BASE) / 2 + 80)
    {
      ghost var m := mem[..];
      LoweredNot(m);
      var source := MEM_END - 2 * 160;
      ghost var f := CELLS;
      hide Lowered, Moved, Erase;
      while source >= start
        invariant start - ROW_SIZE <= source && source == MEM_BASE + 2 * f - 320 && f % 80 == 0 && 160 <= f + 80 <= CELLS + 80
        invariant Lowered(m, mem[..], f)
      {
        ghost var before := mem[..];
        Copy(source + ROW_SIZE, source, WIDTH, f - 80, f - 160);
        LoweredMore(m, before, f);
        source := source - ROW_SIZE;
        f := f - 80;
      }
    }

    method InsertLine()
      requires Valid()
      modifies mem
      ensures Valid() && Shown() == old(Shown()).(cells := RowInserted(old(Shown()).cells, y, erase))
    {
      ghost var m, g := mem[..], Shown();
      RowStart();
      hide Lowered, Erase;
      LowerRows(screen + y * 160);
      ghost var after := mem[..];
      EraseScreen(screen + y * 160, WIDTH);
      LineInserted(m, after, g.cells);
    }

    lemma RowStart()
      requires Valid()
      ensures (screen + y * 160 - MEM_BASE) % 160 == 0 && (screen + y * 160 - MEM_BASE) / 2 == Top() + y * 80
    {
    }

    lemma LineInserted(m: seq<nat>, after: seq<nat>, cells: seq<nat>)
      requires Valid() && |m| == CELLS && cells == m[Top()..Top() + 2000] && Lowered(m, after, Top() + y * 80 + 80)
      requires mem[..] == Erase(after, (Top() + y * 80, Top() + y * 80 + 80), erase)
      ensures Shown().cells == cells[..y * 80] + Blanks(80, erase) + cells[y * 80..1920]
    {
      var t := Top();
      var now, lines := Shown().cells, cells[..y * 80] + Blanks(80, erase) + cells[y * 80..1920];
      forall i | 0 <= i < 2000 ensures now[i] == lines[i] {
        assert now[i] == mem[..][t + i];
        assert i < y * 80 ==> after[t + i] == m[t + i];
        assert i >= y * 80 + 80 ==> after[t + i] == m[t + i - 80] == cells[i - 80];
      }
    }

    method LiftRow(source: nat, ghost m: seq<nat>, ghost s: nat, ghost i: nat)
      requires mem.Length == CELLS && i > 0 && source == MEM_BASE + 2 * (s + 160 * i) && source < MEM_END && Lifted(m, mem[..], s, i)
      modifies mem
      ensures Lifted(m, mem[..], s, i + 1)
    {
      LiftedMore(m, mem[..], s, i);
      hide Lifted, Moved;
      Copy(source - ROW_SIZE, source, WIDTH, s + 160 * i - 80, s + 160 * i);
    }

    // deleteLine's loop, from cell s on.  It steps twice as far as it means to.
    method LiftRows(start: nat, ghost s: nat) returns (ghost i: nat)
      requires mem.Length == CELLS && start == MEM_BASE + 2 * s && s % 80 == 0 && s + 80 <= CELLS
      modifies mem
      ensures i > 0 && Lifted(old(mem[..]), mem[..], s, i) && s + 160 * i >= CELLS
    {
      ghost var m := mem[..];
      LiftedNot(m, s);
      hide Lifted;
      i := 1;
      var source := start + 320;
      while source < MEM_END
        invariant 1 <= i && source == MEM_BASE + 2 * (s + 160 * i) && Lifted(m, mem[..], s, i)
        decreases MEM_END + ROW_SIZE - source
      {
        LiftRow(source, m, s, i);
        i := i + 1;
        source := source + 320;
      }
    }

    // Rows below the cursor's are moved up, but only every second one, and the cursor's
    // own row stays as it is.
    method DeleteLine()
      requires Valid()
      modifies mem
      ensures Valid() && Deleted(old(mem[..]), mem[..], Top(), y)
    {
      ghost var m := mem[..];
      RowStart();
      hide Lifted, Erase, Cell, Deleted;
      ghost var i := LiftRows(screen + y * 160, Top() + y * 80);
      ghost var after := mem[..];
      EraseScreen(MEM_END - ROW_SIZE, WIDTH);
      DeletedRows(m, after, mem[..], Top(), y, i, erase);
    }

    // nr of the loops over lines and characters: at least one, at most 25.
    method CsiL()
      requires Valid()
      modifies mem
      ensures Valid() && Shown() == old(Shown()).(cells := LinesInserted(old(Shown()).cells, y, Times(args[0]), erase))
    {
      hide LinesInserted, RowInserted, Times, Shown, Top;
      ghost var g := Shown();
      var nr := Times(args[0]);
      ghost var k, times := 0, nr;
      LineMore(g.cells, y, 0, erase);
      while nr > 0
        invariant nr + k == times && Valid() && Shown() == g.(cells := LinesInserted(g.cells, y, k, erase))
      {
        LineMore(g.cells, y, k, erase);
        InsertLine();
        nr := nr - 1;
        k := k + 1;
      }
    }

    method CsiM()
      requires Valid()
      modifies mem
      ensures Valid() && LinesDeleted(old(Shown()).cells, y, Times(args[0]), Shown().cells)
    {
      ghost var g := Shown().cells;
      var nr := Times(args[0]);
      ghost var k, times := 0, nr;
      hide Times;
      while nr > 0
        invariant nr + k == times && Valid() && LinesDeleted(g, y, k, Shown().cells)
      {
        ghost var m, c := mem[..], Shown().cells;
        hide LineDeleted, Deleted;
        DeleteLine();
        DeletedWindow(m, mem[..], Top(), y);
        assert LinesDeleted(g, y, k, c) && LineDeleted(c, y, Shown().cells);
        nr := nr - 1;
        k := k + 1;
      }
    }

    // How far the rest of the cursor's row reaches behind the cursor.
    ghost function Rest(): (n: nat)
      reads this
      requires Valid()
    {
      if x < WIDTH then WIDTH - 1 - x else 0
    }

    ghost function Cursor(): (p: nat)
      requires Valid()
      reads this
      ensures p + Rest() < CELLS && pos == MEM_BASE + 2 * p
    {
      Top() + y * 80 + x
    }

    // The n cells behind cell p move left by one, in rising order.
    method ShiftLeft(first: nat, n: nat, ghost p: nat) returns (ptr: nat)
      requires mem.Length == CELLS && first == MEM_BASE + 2 * p && p + n < CELLS
      modifies mem
      ensures ptr == first + 2 * n && mem[..] == Moved(old(mem[..]), p, p + 1, n)
    {
      ghost var m := mem[..];
      MovedNone(m, p, p + 1);
      hide Moved;
      ptr := first;
      var i := 0;
      while i < n
        invariant 0 <= i <= n && ptr == MEM_BASE + 2 * (p + i) && mem[..] == Moved(m, p, p + 1, i)
      {
        MovedLeft(m, p, i);
        Store(ptr, mem[(ptr + 2 - MEM_BASE) / 2]);
        ptr := ptr + 2;
        i := i + 1;
      }
    }

    // The n cells from cell p on move right by one, in falling order.
    method ShiftRight(last: nat, n: nat, ghost p: nat)
      requires mem.Length == CELLS && last == MEM_BASE + 2 * (p + n) && p + n < CELLS
      modifies mem
      ensures mem[..] == Moved(old(mem[..]), p + 1, p, n)
    {
      ghost var m := mem[..];
      MovedNone(m, p + n + 1, p + n);
      hide Moved;
      var ptr := last;
      var i := 0;
      ghost var q := p + n;
      while i < n
        invariant 0 <= i <= n && q + i == p + n && ptr == MEM_BASE + 2 * q && mem[..] == Moved(m, q + 1, q, i)
      {
        MovedRight(m, q, i);
        Store(ptr, mem[(ptr - 2 - MEM_BASE) / 2]);
        ptr := ptr - 2;
        i := i + 1;
        q := q - 1;
      }
    }

    // The rest of the row moves left by one.
    method DeleteChar()
      requires Valid()
      modifies mem
      ensures mem[..] == Moved(old(mem[..]), Cursor(), Cursor() + 1, Rest())[Cursor() + Rest() := erase]
    {
      hide Moved;
      var ptr := ShiftLeft(pos, if x < WIDTH then WIDTH - 1 - x else 0, Cursor());
      Store(ptr, erase);
    }

    // The rest of the row moves right by one; of the cell under the cursor only the
    // character is cleared, since the store is one byte wide.
    method InsertChar()
      requires Valid()
      modifies mem
      ensures mem[..] == Moved(old(mem[..]), Cursor() + 1, Cursor(), Rest())[Cursor() := CharCleared(old(mem[Cursor()]), erase)]
    {
      hide Moved;
      assert (pos - MEM_BASE) / 2 == Cursor();
      var cell := mem[(pos - MEM_BASE) / 2];
      var n := if x < WIDTH then WIDTH - 1 - x else 0;
      ShiftRight(pos + 2 * n, n, Cursor());
      Store(pos, CharCleared(cell, erase));
    }

    method Character(insert: bool)
      requires Valid()
      modifies mem
      ensures Valid()
      ensures Shown().cells == if insert then CharInserted(old(Shown()).cells, x, y, erase) else CharDeleted(old(Shown()).cells, x, y, erase)
    {
      hide *;
      ghost var m, t, p, n := mem[..], Top(), Cursor(), Rest();
      ShownIs();
      if insert {
        InsertChar();
        InsertedWindow(m, mem[..], t, x, y, erase, p, n);
      } else {
        DeleteChar();
        DeletedCharWindow(m, mem[..], t, x, y, erase, p, n);
      }
      ShownIs();
    }

    lemma ShownIs()
      requires Valid()
      ensures mem.Length == CELLS && Top() + 2080 <= CELLS && x <= WIDTH && y < HEIGHT && Shown().cells == mem[..][Top()..Top() + 2000]
      ensures Cursor() == Top() + y * 80 + x && Rest() == if x < WIDTH then WIDTH - 1 - x else 0
    {
    }

    // csiP and csiAt.
    method Characters(insert: bool)
      requires Valid()
      modifies mem
      ensures Valid() && Shown().cells == CharsEdited(old(Shown()).cells, insert, x, y, Times(args[0]), erase)
    {
      ghost var g := Shown().cells;
      var nr := Times(args[0]);
      ghost var k, times := 0, nr;
      hide Times, CharInserted, CharDeleted, Shown, CharCleared;
      while nr > 0
        invariant nr + k == times && Valid() && Shown().cells == CharsEdited(g, insert, x, y, k, erase)
      {
        Character(insert);
        nr := nr - 1;
        k := k + 1;
      }
    }

    // csi_m: each parameter in turn changes the style.
    method CsiStyle()
      requires Valid()
      modifies this`style, this`erase
      ensures Valid() && style == RestyleAll(args[..argc]) && erase == style * 256 + 0x20
    {
      style := 0;
      var i := 0;
      while i < argc
        invariant i <= argc && style == RestyleAll(args[..i])
      {
        assert args[..i + 1][..i] == args[..i];
        style := Restyle(style, args[i]);
        i := i + 1;
      }
      erase := style * 256 + 0x20;
    }

    // The control sequences that only move the cursor.
    method MoveCursor(ch: byte)
      requires Valid() && Moves(ch)
      modifies this`x, this`y, this`pos, args
      ensures Valid() && Shown().cells == old(Shown().cells)
      ensures (x, y) == CursorAfter(ch, (old(x), old(y)), old(args[0]), old(args[1]), (savedX, savedY))
    {
      hide Shown;
      var toX: uint32, toY: uint32 := x, y;
      if ch == 'G' as nat || ch == '`' as nat {
        args[0] := OneLess(args[0]);
        toX, toY := args[0], y;
      } else if ch == 'A' as nat {
        args[0] := AtLeastOne(args[0]);
        toX, toY := x, Wrap(y - args[0]);
      } else if ch == 'B' as nat || ch == 'e' as nat {
        args[0] := AtLeastOne(args[0]);
        toX, toY := x, Wrap(y + args[0]);
      } else if ch == 'C' as nat || ch == 'a' as nat {
        args[0] := AtLeastOne(args[0]);
        toX, toY := Wrap(x + args[0]), y;
      } else if ch == 'D' as nat {
        args[0] := AtLeastOne(args[0]);
        toX, toY := Wrap(x - args[0]), y;
      } else if ch == 'E' as nat {
        args[0] := AtLeastOne(args[0]);
        toX, toY := 0, Wrap(y + args[0]);
      } else if ch == 'F' as nat {
        args[0] := AtLeastOne(args[0]);
        toX, toY := 0, Wrap(y - args[0]);
      } else if ch == 'd' as nat {
        args[0] := OneLess(args[0]);
        toX, toY := x, args[0];
      } else if ch == 'H' as nat || ch == 'f' as nat {
        args[0], args[1] := OneLess(args[0]), OneLess(args[1]);
        toX, toY := args[1], args[0];
      }
      SetXY(toX, toY);
    }

    // The control sequences that change what is on the screen.
    method Edit(ch: byte)
      requires Valid() && Edits(ch)
      modifies mem
      ensures Valid() && Edited(ch, args[0], x, y, erase, old(Shown().cells), Shown().cells)
    {
      hide Shown, Erase, ErasedScreen, ErasedLine, LinesInserted, LinesDeleted, CharsEdited, Times;
      if ch == 'J' as nat {
        CsiJ();
      } else if ch == 'K' as nat {
        CsiK();
      } else if ch == 'L' as nat {
        CsiL();
      } else if ch == 'M' as nat {
        CsiM();
      } else if ch == 'P' as nat {
        Characters(false);
      } else if ch == '@' as nat {
        Characters(true);
      }
    }

    // The control sequences for the style and for the saved cursor, and those without effect.
    method Remember(ch: byte)
      requires Valid() && !Moves(ch) && !Edits(ch)
      modifies this`x, this`y, this`pos, this`savedX, this`savedY, this`style, this`erase
      ensures Valid() && Shown().cells == old(Shown().cells)
      ensures (x, y) == if ch == 'u' as nat then (old(savedX), old(savedY)) else (old(x), old(y))
      ensures (savedX, savedY) == if ch == 's' as nat then (old(x), old(y)) else (old(savedX), old(savedY))
      ensures style == if ch == 'm' as nat then RestyleAll(args[..argc]) else old(style)
      ensures erase == if ch == 'm' as nat then style * 256 + 0x20 else old(erase)
    {
      hide RestyleAll;
      if ch == 'm' as nat {
        CsiStyle();
      } else if ch == 's' as nat {
        SaveCursor();
        SetXY(savedX, savedY);
      } else if ch == 'u' as nat {
        SetXY(savedX, savedY);
      }
    }

    // The final byte of a control sequence.
    method StateCsi(ch: byte)
      requires Valid()
      modifies this, mem, args
      ensures Valid() && FinalStep(old(View()), ch, View())
    {
      hide Edited, RestyleAll, Shown, FinalStep, CursorAfter, Moves, Edits;
      ghost var v := View();
      ShownIs();
      state := Normal;
      ShownIs();
      if Moves(ch) {
        MoveCursor(ch);
        FinalMove(v, ch, View());
      } else if Edits(ch) {
        Edit(ch);
        FinalEdit(v, ch, View());
      } else {
        Remember(ch);
        FinalOther(v, ch, View());
      }
    }

    // One byte of _consoleWrite.
    method Feed(ch: byte)
      requires Valid()
      modifies this, mem, args
      ensures Valid() && FeedStep(old(View()), ch, View())
    {
      ghost var v := View();
      hide NormalStep, EscapeStep, ArgumentStep;
      match state
      case Normal => StateNormal(ch);
      case Escape => StateEsc(ch);
      case Query =>
        forall i | 0 <= i < ARG_NR {
          args[i] := 0;
        }
        argc := 0;
        state := Arguments;
        ques := ch == '?' as nat;
        assert View() == Cleared(v, ques);
        if !ques {
          FeedArgument(ch);
        }
      case Arguments => FeedArgument(ch);
    }

    method FeedArgument(ch: byte)
      requires Valid() && state == Arguments
      modifies this, mem, args
      ensures Valid() && ArgumentStep(old(View()), ch, View())
    {
      hide FinalStep, Shown;
      ghost var v := View();
      var final := StateArg(ch);
      if final {
        assert View() == v.(argc := v.argc + 1);
        StateCsi(ch);
      }
    }

    // _consoleWrite.  Whatever the bytes, every store is in video memory, the cursor stays
    // where it belongs, and each byte does what FeedStep says; so plain text looks as on a
    // plain grid.
    method ConsoleWrite(buf: seq<byte>)
      requires Valid()
      modifies this, mem, args
      ensures Valid() && Writes(old(View()), buf, View())
      ensures old(state) == Normal && (forall i :: 0 <= i < |buf| ==> Plain(buf[i])) ==>
        SameControls() && Shown() == ShowAll(old(Shown()), buf, style, erase)
    {
      ghost var v := View();
      var nr := 0;
      hide FeedStep;
      while nr < |buf|
        invariant 0 <= nr <= |buf| && Valid() && Writes(v, buf[..nr], View())
      {
        assert buf[..nr + 1][..nr] == buf[..nr];
        Feed(buf[nr]);
        nr := nr + 1;
      }
      assert buf[..|buf|] == buf;
      if v.state == Normal && forall i :: 0 <= i < |buf| ==> Plain(buf[i]) {
        PlainWrites(v, buf, View());
      }
    }
  }

  lemma MovedNone(m: seq<nat>, t: nat, f: nat)
    requires t <= |m| && f <= |m|
    ensures Moved(m, t, f, 0) == m
  {
  }

  // The same for the window that starts at cell t of the video memory.
  lemma InsertedWindow(m: seq<nat>, now: seq<nat>, t: nat, x: nat, y: nat, erase: nat, p: nat, n: nat)
    requires |m| == |now| == CELLS && t + 2080 <= CELLS && x <= WIDTH && y < HEIGHT
    requires p == t + y * 80 + x && n == (if x < WIDTH then WIDTH - 1 - x else 0)
    requires now == Moved(m, p + 1, p, n)[p := CharCleared(m[p], erase)]
    ensures now[t..t + 2000] == CharInserted(m[t..t + 2000], x, y, erase)
  {
    var c, w := y * 80 + x, m[t..t + 2000];
    var moved := Moved(m, p + 1, p, n);
    InsertedIs(w, x, y, erase);
    UpdatedWindow(moved, t, c, CharCleared(m[p], erase));
    if c < 2000 {
      assert w[c] == m[p];
      hide *;
      MovedWindow(m, t, c + 1, c, n);
    } else {
      hide CharInserted, Moved, CharCleared;
      MovedNone(m, p + 1, p);
    }
  }

  lemma InsertedIs(cells: seq<nat>, x: nat, y: nat, erase: nat)
    requires |cells| == 2000 && x <= WIDTH && y < HEIGHT
    ensures var c := y * 80 + x;
      CharInserted(cells, x, y, erase) ==
        if c >= 2000 then cells else Moved(cells, c + 1, c, if x < WIDTH then 79 - x else 0)[c := CharCleared(cells[c], erase)]
  {
    hide CharCleared;
    if x == WIDTH && y * 80 + x < 2000 {
      MovedNone(cells, y * 80 + x + 1, y * 80 + x);
    }
  }

  lemma DeletedCharWindow(m: seq<nat>, now: seq<nat>, t: nat, x: nat, y: nat, erase: nat, p: nat, n: nat)
    requires |m| == |now| == CELLS && t + 2080 <= CELLS && x <= WIDTH && y < HEIGHT
    requires p == t + y * 80 + x && n == (if x < WIDTH then WIDTH - 1 - x else 0)
    requires now == Moved(m, p, p + 1, n)[p + n := erase]
    ensures now[t..t + 2000] == CharDeleted(m[t..t + 2000], x, y, erase)
  {
    var c := y * 80 + x;
    hide Moved;
    if x < WIDTH {
      MovedWindow(m, t, c, c + 1, 79 - x);
      assert t + c + (79 - x) == t + (y * 80 + 79);
      UpdatedWindow(Moved(m, t + c, t + c + 1, 79 - x), t, y * 80 + 79, erase);
    } else {
      MovedNone(m, t + c, t + c + 1);
      UpdatedWindow(m, t, c, erase);
    }
  }

  lemma MovedWindow(m: seq<nat>, t: nat, to: nat, from: nat, n: nat)
    requires |m| == CELLS && t + 2080 <= CELLS && to + n <= 2000 && from + n <= 2000
    ensures Moved(m, t + to, t + from, n)[t..t + 2000] == Moved(m[t..t + 2000], to, from, n)
  {
    var c := Moved(m, t + to, t + from, n);
    var a, w := c[t..t + 2000], m[t..t + 2000];
    var b := Moved(w, to, from, n);
    forall i | 0 <= i < 2000 ensures a[i] == b[i] {
      assert a[i] == c[t + i];
      assert to <= i < to + n ==> c[t + i] == m[t + from + (i - to)] == w[from + (i - to)];
    }
  }

  lemma UpdatedWindow(m: seq<nat>, t: nat, k: nat, cell: nat)
    requires |m| == CELLS && t + 2080 <= CELLS && k < 2080
    ensures m[t + k := cell][t..t + 2000] == if k < 2000 then m[t..t + 2000][k := cell] else m[t..t + 2000]
  {
  }

  lemma DeletedWindow(m: seq<nat>, now: seq<nat>, t: nat, y: nat)
    requires Deleted(m, now, t, y)
    ensures LineDeleted(m[t..t + 2000], y, now[t..t + 2000])
  {
    var was, w := m[t..t + 2000], now[t..t + 2000];
    forall c | 0 <= c < y * 80 + 80 ensures w[c] == was[c] {
      assert now[t + c] == m[t + c];
    }
    forall k: nat, j: nat {:trigger Cell(0, k, j)} | y < k < HEIGHT && j < 80 && ((k - y) % 2 == 0 || k + 1 < HEIGHT)
      ensures w[Cell(0, k, j)] == was[Cell(0, if (k - y) % 2 == 1 then k + 1 else k, j)]
    {
      DeletedCell(m, now, t, y, k, j);
    }
  }

  lemma DeletedCell(m: seq<nat>, now: seq<nat>, t: nat, y: nat, k: nat, j: nat)
    requires Deleted(m, now, t, y) && y < k < HEIGHT && j < 80 && ((k - y) % 2 == 0 || k + 1 < HEIGHT)
    ensures var q := if (k - y) % 2 == 1 then k + 1 else k;
      Cell(0, k, j) < 2000 && Cell(0, q, j) < 2000 && now[t..t + 2000][Cell(0, k, j)] == m[t..t + 2000][Cell(0, q, j)]
  {
    var q := if (k - y) % 2 == 1 then k + 1 else k;
    assert now[Cell(t, k, j)] == m[Cell(t, q, j)];
    hide Deleted;
    WindowCell(m, t, q, j);
    WindowCell(now, t, k, j);
  }

  lemma WindowCell(m: seq<nat>, t: nat, k: nat, j: nat)
    requires |m| == CELLS && t + 2080 <= CELLS && k < HEIGHT && j < 80
    ensures Cell(0, k, j) < 2000 && m[t..t + 2000][Cell(0, k, j)] == m[Cell(t, k, j)]
  {
  }

  lemma MovedLeft(m: seq<nat>, p: nat, k: nat)
    requires p + k + 1 < |m|
    ensures Moved(m, p, p + 1, k)[p + k := Moved(m, p, p + 1, k)[p + k + 1]] == Moved(m, p, p + 1, k + 1)
  {
  }

  lemma MovedRight(m: seq<nat>, q: nat, k: nat)
    requires q > 0 && q + 1 + k <= |m|
    ensures Moved(m, q + 1, q, k)[q := Moved(m, q + 1, q, k)[q - 1]] == Moved(m, q, q - 1, k + 1)
  {
  }

  function Times(n: uint32): nat {
    if n > HEIGHT then HEIGHT else if n == 0 then 1 else n
  }

  // An empty row at y, and those from there on one further down.
  function RowInserted(cells: seq<nat>, y: nat, erase: nat): (r: seq<nat>)
    requires |cells| == 2000 && y < HEIGHT
    ensures |r| == 2000
  {
    cells[..y * 80] + Blanks(80, erase) + cells[y * 80..1920]
  }

  function LinesInserted(cells: seq<nat>, y: nat, n: nat, erase: nat): (r: seq<nat>)
    requires |cells| == 2000 && y < HEIGHT
    ensures |r| == 2000
  {
    if n == 0 then cells
    else RowInserted(LinesInserted(cells, y, n - 1, erase), y, erase)
  }

  lemma LineMore(cells: seq<nat>, y: nat, n: nat, erase: nat)
    requires |cells| == 2000 && y < HEIGHT
    ensures LinesInserted(cells, y, 0, erase) == cells
    ensures LinesInserted(cells, y, n + 1, erase) == RowInserted(LinesInserted(cells, y, n, erase), y, erase)
  {
  }

  // What deleteLine does to the window that starts at cell t.  The cursor's row y and
  // those above it are as they were.  Below, every second row, counted from the next,
  // is now the row that followed it; the others are as they were.
  ghost predicate Deleted(m: seq<nat>, now: seq<nat>, t: nat, y: nat) {
    && |m| == |now| == CELLS && t + 2080 <= CELLS && y < HEIGHT
    && (forall c :: t <= c < t + y * 80 + 80 ==> now[c] == m[c])
    && forall k: nat, j: nat {:trigger Cell(t, k, j)} :: y < k < HEIGHT && j < 80 ==>
         now[Cell(t, k, j)] == m[Cell(t, if (k - y) % 2 == 1 then k + 1 else k, j)]
  }

  lemma DeletedRows(m: seq<nat>, after: seq<nat>, now: seq<nat>, t: nat, y: nat, i: nat, e: nat)
    requires i > 0 && t + 2080 <= CELLS && y < HEIGHT && Lifted(m, after, t + y * 80, i) && t + y * 80 + 160 * i >= CELLS
    requires |now| == |after| == CELLS && now == Erase(after, (CELLS - 80, CELLS), e)
    ensures Deleted(m, now, t, y)
  {
    assert forall c :: 0 <= c < CELLS - 80 ==> now[c] == after[c];
    hide Erase, Lifted;
    forall c | t <= c < t + y * 80 + 80 ensures now[c] == m[c] {
      RowKept(m, after, t, y, i, c);
    }
    forall k: nat, j: nat {:trigger Cell(t, k, j)} | y < k < HEIGHT && j < 80
      ensures now[Cell(t, k, j)] == m[Cell(t, if (k - y) % 2 == 1 then k + 1 else k, j)]
    {
      RowLifted(m, after, t, y, i, k, j);
    }
  }

  lemma RowKept(m: seq<nat>, after: seq<nat>, t: nat, y: nat, i: nat, c: nat)
    requires i > 0 && t + 2080 <= CELLS && y < HEIGHT && Lifted(m, after, t + y * 80, i) && t <= c < t + y * 80 + 80
    ensures after[c] == m[c]
  {
    if c >= t + y * 80 {
      assert c == Cell(t + y * 80, 0, c - t - y * 80);
    }
  }

  lemma RowLifted(m: seq<nat>, after: seq<nat>, t: nat, y: nat, i: nat, k: nat, j: nat)
    requires i > 0 && t + 2080 <= CELLS && Lifted(m, after, t + y * 80, i) && t + y * 80 + 160 * i >= CELLS && y < k < HEIGHT && j < 80
    ensures Cell(t, k + 1, j) < CELLS
    ensures after[Cell(t, k, j)] == m[Cell(t, if (k - y) % 2 == 1 then k + 1 else k, j)]
  {
    var s, q := t + y * 80, k - y;
    assert Cell(t, k, j) == Cell(s, q, j) && Cell(t, k + 1, j) == Cell(s, q + 1, j);
  }

  // Column k of the row that lies q rows behind cell s.
  function Cell(s: nat, q: nat, k: nat): nat {
    s + 80 * q + k
  }

  // Of the rows behind s the odd ones before row 2i - 1 have been overwritten with the
  // rows that follow them.
  ghost predicate Lifted(m: seq<nat>, now: seq<nat>, s: nat, i: nat)
    requires i > 0
  {
    && |m| == |now| == CELLS && s % 80 == 0 && Cell(s, 2 * i - 1, 0) <= CELLS
    && (forall c :: 0 <= c < s ==> now[c] == m[c])
    && forall q: nat, k: nat {:trigger Cell(s, q, k)} :: k < 80 && s + 80 * q + 80 <= CELLS ==>
         now[Cell(s, q, k)] == if q % 2 == 1 && q < 2 * i - 1 then m[Cell(s, q + 1, k)] else m[Cell(s, q, k)]
  }

  lemma LiftedMore(m: seq<nat>, before: seq<nat>, s: nat, i: nat)
    requires i > 0 && Lifted(m, before, s, i) && s + 160 * i < CELLS
    ensures s + 160 * i + 80 <= CELLS && Lifted(m, Moved(before, s + 160 * i - 80, s + 160 * i, 80), s, i + 1)
  {
    var now := Moved(before, s + 160 * i - 80, s + 160 * i, 80);
    forall c | 0 <= c < s ensures now[c] == m[c] {
    }
    forall q: nat, k: nat {:trigger Cell(s, q, k)} | k < 80 && s + 80 * q + 80 <= CELLS
      ensures now[Cell(s, q, k)] == if q % 2 == 1 && q < 2 * i + 1 then m[Cell(s, q + 1, k)] else m[Cell(s, q, k)]
    {
      if q == 2 * i - 1 {
        assert now[Cell(s, q, k)] == before[Cell(s, q + 1, k)];
      } else {
        assert Cell(s, q, k) < s + 160 * i - 80 || Cell(s, q, k) >= s + 160 * i;
        assert now[Cell(s, q, k)] == before[Cell(s, q, k)];
      }
    }
  }

  // From cell f on everything has moved down by a row.
  ghost predicate Lowered(m: seq<nat>, now: seq<nat>, f: nat) {
    && 80 <= f <= CELLS && |m| == |now| == CELLS
    && (forall i :: 0 <= i < f ==> now[i] == m[i]) && (forall i :: f <= i < CELLS ==> now[i] == m[i - 80])
  }

  lemma LoweredMore(m: seq<nat>, before: seq<nat>, f: nat)
    requires Lowered(m, before, f) && 160 <= f <= CELLS
    ensures Lowered(m, Moved(before, f - 80, f - 160, 80), f - 80)
  {
    var now := Moved(before, f - 80, f - 160, 80);
    assert forall i :: 0 <= i < f - 80 ==> now[i] == before[i];
    forall i | f - 80 <= i < CELLS ensures now[i] == m[i - 80] {
      if i < f {
        assert now[i] == before[i - 80] == m[i - 80];
      } else {
        assert now[i] == before[i];
      }
    }
  }

  lemma LoweredNot(m: seq<nat>)
    requires |m| == CELLS
    ensures Lowered(m, m, CELLS)
  {
  }

  lemma LiftedNot(m: seq<nat>, s: nat)
    requires |m| == CELLS && s % 80 == 0 && s + 80 <= CELLS
    ensures Lifted(m, m, s, 1)
  {
  }
}
