/** The board `Sudoku<N>`: `N*N` rows of `N*N` cells, each either a fixed
    value or a candidate set, stored row by row in a fixed-size array, and
    its rendering `to_str`. */
module Board {
  import opened Bits
  import BitSets
  import opened Cells
  import opened Layout

  /** The side `S = n*n` of an admissible board fits the 64-bit word. */
  lemma SideFits(n: nat)
    requires 1 < n <= 8
    ensures 4 <= Side(n) <= 64
  {
    assert n * n <= 8 * n;
  }

  /** The cell the array constructor makes from entry `v`: a nonzero entry is
      that fixed value, a zero entry an undecided cell that may still take
      every value `0 .. S-1`. */
  function InitialCell(n: nat, v: int): (cell: Cell)
    requires 1 < n <= 8
    ensures cell.Fixed? <==> v != 0
    ensures cell.Fixed? ==> cell.digit == v
    ensures cell.Candidates? ==> Elements(cell.word) == Below(Side(n)) && PopCount(cell.word) == Side(n)
  {
    SideFits(n);
    if v != 0 then Fixed(v) else Candidates(BitSets.FullWord(Side(n)))
  }

  /** A flat index below `S * S` is the row-major position of row `i / S`,
      column `i % S`. */
  lemma RowMajor(side: nat, i: nat)
    requires i < side * side
    ensures i / side < side && i % side < side && (i / side) * side + i % side == i
  {
    IndexOnto(side, side, i);
  }

  class Sudoku {
    /** `N`, the box size; the board has `N*N` rows and columns. */
    const n: nat
    /** `m_elements`, the cells in row-major order. */
    const elements: array<Cell>

    ghost predicate Valid()
      reads this
    {
      1 < n <= 8 && elements.Length == Side(n) * Side(n)
    }

    /** The default constructor: every cell value-initialised to the fixed
        value 0. */
    constructor Blank(n: nat)
      requires 1 < n <= 8
      ensures Valid() && this.n == n && fresh(elements)
      ensures forall i :: 0 <= i < elements.Length ==> elements[i] == Fixed(0)
    {
      this.n := n;
      elements := new Cell[Side(n) * Side(n)](_ => Fixed(0));
    }

    /** The constructor from a flat array of `S * S` entries: entry `i`
        becomes cell `i`, a fixed value when nonzero and the full candidate
        set when zero. */
    constructor (n: nat, arr: seq<int>)
      requires 1 < n <= 8 && |arr| == Side(n) * Side(n)
      ensures Valid() && this.n == n && fresh(elements)
      ensures forall i :: 0 <= i < |arr| ==> elements[i] == InitialCell(n, arr[i])
    {
      this.n := n;
      SideFits(n);
      var cells := new Cell[|arr|](_ => Fixed(0));
      var i := 0;
      while i < |arr|
        invariant 0 <= i <= |arr|
        invariant forall k :: 0 <= k < i ==> cells[k] == InitialCell(n, arr[k])
      {
        if arr[i] != 0 {
          cells[i] := Fixed(arr[i]);
        } else {
          cells[i] := Candidates(BitSets.FullWord(Side(n)));
        }
        i := i + 1;
      }
      elements := cells;
    }

    /** `to_str`, with the line stride its index computations multiply by
        made a parameter (the header multiplies by `S`; the layout needs
        `3S + n`).  For `S < 10` it paints the rows (cells, bars, newline)
        and then the separator lines into a blank `W * H` buffer; at the
        stride `3S + n` the result is the rendered board at every line and
        column.  For `S >= 10` it is a blank string of `(4S + n) * H`. */
    method ToStr(stride: nat) returns (str: seq<char>)
      requires Valid() && stride <= Width(n)
      ensures Drawable(n) ==> |str| == Width(n) * Height(n)
      ensures Drawable(n) && stride == Width(n) ==>
                forall l: nat, c: nat :: l < Height(n) && c < Width(n) ==>
                  Index(Width(n), l, c) < |str| && str[Index(Width(n), l, c)] == Rendered(n, elements[..], l, c)
      ensures !Drawable(n) ==> |str| == (4 * Side(n) + n) * Height(n)
      ensures !Drawable(n) ==> forall k :: 0 <= k < |str| ==> str[k] == ' '
    {
      DrawableIff(n);
      if Side(n) >= 10 {
        str := seq((4 * Side(n) + n) * Height(n), _ => ' ');
        return;
      }
      str := Paint(stride);
    }

    /** The `S < 10` branch of `to_str`: a blank `W * H` buffer, painted row
        by row and then separator line by separator line. */
    method Paint(stride: nat) returns (str: seq<char>)
      requires Valid() && Drawable(n) && stride <= Width(n)
      ensures |str| == Width(n) * Height(n)
      ensures stride == Width(n) ==>
                forall l: nat, c: nat :: l < Height(n) && c < Width(n) ==>
                  Index(Width(n), l, c) < |str| && str[Index(Width(n), l, c)] == Rendered(n, elements[..], l, c)
    {
      ghost var cells := elements[..];
      var buf := new char[Width(n) * Height(n)](_ => ' ');
      PaintedBlank(n, cells, buf[..]);
      PaintRows(buf, stride, cells);
      PaintSeparators(buf, stride, cells);
      if stride == Width(n) {
        PaintedAll(n, cells, buf[..], Key(1, n - 1, 0, 0));
      }
      str := buf[..];
    }

    /** The row loop of `to_str`. */
    method PaintRows(buf: array<char>, stride: nat, ghost cells: seq<Cell>)
      requires Valid() && Drawable(n) && stride <= Width(n)
      requires buf.Length == Width(n) * Height(n) && cells == elements[..]
      requires stride == Width(n) ==> Painted(n, cells, buf[..], Key(0, 0, 0, 0))
      modifies buf
      ensures stride == Width(n) ==> Painted(n, cells, buf[..], Key(1, 0, 0, 0))
    {
      var side := Side(n);
      var i := 0;
      while i < side
        invariant 0 <= i <= side
        invariant stride == Width(n) ==> Painted(n, cells, buf[..], Key(0, i, 0, 0))
      {
        PaintRow(buf, stride, i, cells);
        i := i + 1;
      }
      if stride == Width(n) {
        Repaint(n, cells, buf[..], Key(0, side, 0, 0), Key(1, 0, 0, 0));
      }
    }

    /** The separator loop of `to_str`. */
    method PaintSeparators(buf: array<char>, stride: nat, ghost cells: seq<Cell>)
      requires Valid() && Drawable(n) && stride <= Width(n)
      requires buf.Length == Width(n) * Height(n) && cells == elements[..]
      requires stride == Width(n) ==> Painted(n, cells, buf[..], Key(1, 0, 0, 0))
      modifies buf
      ensures stride == Width(n) ==> Painted(n, cells, buf[..], Key(1, n - 1, 0, 0))
    {
      var i := 0;
      while i < n - 1
        invariant 0 <= i <= n - 1
        invariant stride == Width(n) ==> Painted(n, cells, buf[..], Key(1, i, 0, 0))
      {
        PaintSeparator(buf, stride, i, cells);
        i := i + 1;
      }
    }

    /** Row `i` of `to_str`: its cells' glyphs, its `|` bars and its newline.
        At the line width the buffer advances from holding the rows before
        `i` to holding the rows up to `i`. */
    method PaintRow(buf: array<char>, stride: nat, i: nat, ghost cells: seq<Cell>)
      requires Valid() && Drawable(n) && stride <= Width(n) && i < Side(n)
      requires buf.Length == Width(n) * Height(n) && cells == elements[..]
      requires stride == Width(n) ==> Painted(n, cells, buf[..], Key(0, i, 0, 0))
      modifies buf
      ensures stride == Width(n) ==> Painted(n, cells, buf[..], Key(0, i + 1, 0, 0))
    {
      PaintCells(buf, stride, i, cells);
      PaintBars(buf, stride, i, cells);
      var strix := Index(stride, RowLine(n, i), NewlineColumn(n));
      Put(buf, stride, strix, '\n', RowEnd(i), cells);
      if stride == Width(n) {
        Repaint(n, cells, buf[..], Key(0, i, 2, 1), Key(0, i + 1, 0, 0));
      }
    }

    /** The cells of row `i`: each cell's glyph at its column. */
    method PaintCells(buf: array<char>, stride: nat, i: nat, ghost cells: seq<Cell>)
      requires Valid() && Drawable(n) && stride <= Width(n) && i < Side(n)
      requires buf.Length == Width(n) * Height(n) && cells == elements[..]
      requires stride == Width(n) ==> Painted(n, cells, buf[..], Key(0, i, 0, 0))
      modifies buf
      ensures stride == Width(n) ==> Painted(n, cells, buf[..], Key(0, i, 1, 0))
    {
      var side := Side(n);
      var j := 0;
      while j < side
        invariant 0 <= j <= side
        invariant stride == Width(n) ==> Painted(n, cells, buf[..], Key(0, i, 0, j))
      {
        var ix := i * side + j;
        FlatIndexInRange(side, i, j);
        var strix := Index(stride, RowLine(n, i), CellColumn(n, j));
        Put(buf, stride, strix, Glyph(elements[ix]), CellAt(i, j), cells);
        j := j + 1;
      }
      if stride == Width(n) {
        Repaint(n, cells, buf[..], Key(0, i, 0, side), Key(0, i, 1, 0));
      }
    }

    /** The `|` bars of row `i`, one after each box but the last. */
    method PaintBars(buf: array<char>, stride: nat, i: nat, ghost cells: seq<Cell>)
      requires Valid() && Drawable(n) && stride <= Width(n) && i < Side(n)
      requires buf.Length == Width(n) * Height(n) && cells == elements[..]
      requires stride == Width(n) ==> Painted(n, cells, buf[..], Key(0, i, 1, 0))
      modifies buf
      ensures stride == Width(n) ==> Painted(n, cells, buf[..], Key(0, i, 2, 0))
    {
      var j := 0;
      while j < n - 1
        invariant 0 <= j <= n - 1
        invariant stride == Width(n) ==> Painted(n, cells, buf[..], Key(0, i, 1, j))
      {
        var strix := Index(stride, RowLine(n, i), BarColumn(n, j));
        Put(buf, stride, strix, '|', BarAt(i, j), cells);
        j := j + 1;
      }
      if stride == Width(n) {
        Repaint(n, cells, buf[..], Key(0, i, 1, n - 1), Key(0, i, 2, 0));
      }
    }

    /** Separator line `i` of `to_str`: `-` with `+` under every bar, then
        its newline.  At the line width the buffer advances from holding the
        separator lines before `i` to holding those up to `i`. */
    method PaintSeparator(buf: array<char>, stride: nat, i: nat, ghost cells: seq<Cell>)
      requires Valid() && Drawable(n) && stride <= Width(n) && i < n - 1
      requires buf.Length == Width(n) * Height(n) && cells == elements[..]
      requires stride == Width(n) ==> Painted(n, cells, buf[..], Key(1, i, 0, 0))
      modifies buf
      ensures stride == Width(n) ==> Painted(n, cells, buf[..], Key(1, i + 1, 0, 0))
    {
      PaintDashes(buf, stride, i, cells);
      var strix := Index(stride, SeparatorLine(n, i), NewlineColumn(n));
      Put(buf, stride, strix, '\n', SepEnd(i), cells);
      if stride == Width(n) {
        Repaint(n, cells, buf[..], Key(1, i, 1, 1), Key(1, i + 1, 0, 0));
      }
    }

    /** The columns of separator line `i` before its newline. */
    method PaintDashes(buf: array<char>, stride: nat, i: nat, ghost cells: seq<Cell>)
      requires Valid() && Drawable(n) && stride <= Width(n) && i < n - 1
      requires buf.Length == Width(n) * Height(n) && cells == elements[..]
      requires stride == Width(n) ==> Painted(n, cells, buf[..], Key(1, i, 0, 0))
      modifies buf
      ensures stride == Width(n) ==> Painted(n, cells, buf[..], Key(1, i, 1, 0))
    {
      var j := 0;
      while j < NewlineColumn(n)
        invariant 0 <= j <= NewlineColumn(n)
        invariant stride == Width(n) ==> Painted(n, cells, buf[..], Key(1, i, 0, j))
      {
        var strix := Index(stride, SeparatorLine(n, i), j);
        if (j + 1) % (3 * n + 1) != 0 {
          Put(buf, stride, strix, '-', SepAt(i, j), cells);
        } else {
          Put(buf, stride, strix, '+', SepAt(i, j), cells);
        }
        j := j + 1;
      }
      if stride == Width(n) {
        Repaint(n, cells, buf[..], Key(1, i, 0, NewlineColumn(n)), Key(1, i, 1, 0));
      }
    }

    /** One assignment `str[strix] = ch` of `to_str`, where `strix` is the
        target of write `w` at the given stride and `ch` its character: the
        index is inside the buffer, and at the line width the buffer
        advances past `w`. */
    method Put(buf: array<char>, stride: nat, strix: nat, ch: char, w: Write, ghost cells: seq<Cell>)
      requires Valid() && Drawable(n) && stride <= Width(n) && ValidWrite(n, w)
      requires buf.Length == Width(n) * Height(n) && cells == elements[..]
      requires strix == Target(n, stride, w) && ch == Char(n, cells, w)
      requires stride == Width(n) ==> Painted(n, cells, buf[..], KeyOf(w))
      modifies buf
      ensures strix < buf.Length && buf[..] == old(buf[..])[strix := ch]
      ensures stride == Width(n) ==> Painted(n, cells, buf[..], Bump(KeyOf(w)))
    {
      TargetInBounds(n, stride, w);
      if stride == Width(n) {
        PaintStep(n, cells, buf[..], w);
      }
      buf[strix] := ch;
    }
  }
}
