/** Where `to_str` puts each character of a board of box size `n` (side
    `S = n*n`).  The text has `S + n - 1` lines: the `S` rows of cells, with a
    separator line after every `n` rows.  Every line is `3S + n` characters
    wide: each cell takes three columns with its glyph in the middle, a `|`
    follows every `n` cells but the last group, and the last column is the
    newline.  Separator lines are `-`, with `+` under every `|`.

    The writes `to_str` performs are values of `Write`; `Line` and `Column`
    place a write, `Target` is the buffer index it goes to for a given line
    stride, and `Decode` reads a line and column back into the write that
    belongs there.  `Rendered` is the text the layout describes, defined by
    decoding each position; the loops of `Board.Sudoku.ToStr` are proved to
    produce it at the stride `3S + n`. */
module Layout {
  import opened Cells

  datatype Option<T> = None | Some(value: T)

  /** `SIDE_LENGTH` (and `NUM_ELEMENTS`): cells per row and values per cell. */
  function Side(n: nat): nat
  {
    n * n
  }

  /** Characters per line, newline included. */
  function Width(n: nat): nat
  {
    3 * Side(n) + n
  }

  /** Number of lines. */
  function Height(n: nat): nat
    requires n > 0
  {
    Side(n) + n - 1
  }

  /** Row `i` is on line `i + i/n`: one separator line above it for every
      full group of `n` rows before it. */
  function RowLine(n: nat, i: nat): nat
    requires n > 0
  {
    i + i / n
  }

  /** Cell `j` of a row is in column `3j + 1 + j/n`. */
  function CellColumn(n: nat, j: nat): nat
    requires n > 0
  {
    3 * j + 1 + j / n
  }

  /** The `k`-th `|` of a row is in column `3n(k+1) + k`. */
  function BarColumn(n: nat, k: nat): nat
  {
    3 * n * (k + 1) + k
  }

  /** The `k`-th separator line is line `n(k+1) + k`. */
  function SeparatorLine(n: nat, k: nat): nat
  {
    n * (k + 1) + k
  }

  /** The newline is the last column. */
  function NewlineColumn(n: nat): nat
    requires n > 0
  {
    Width(n) - 1
  }

  /** A separator line shows `+` where `(column + 1)` is a multiple of
      `3n + 1`, `-` elsewhere. */
  function SeparatorChar(n: nat, column: nat): char
  {
    if (column + 1) % (3 * n + 1) != 0 then '-' else '+'
  }

  /** The buffer index of a line and column for a given line stride. */
  function Index(stride: nat, line: nat, column: nat): nat
  {
    line * stride + column
  }

  /** One assignment `to_str` makes into its buffer. */
  datatype Write =
    | CellAt(i: nat, j: nat)   // the glyph of cell (i, j)
    | BarAt(i: nat, k: nat)    // the k-th `|` of row i
    | RowEnd(i: nat)           // the newline ending row i
    | SepAt(k: nat, j: nat)    // column j of separator line k
    | SepEnd(k: nat)           // the newline ending separator line k

  /** The writes the loops make: rows and columns below `S`, bars and
      separator lines below `n - 1`, separator columns before the newline. */
  predicate ValidWrite(n: nat, w: Write)
    requires n > 0
  {
    match w
    case CellAt(i, j) => i < Side(n) && j < Side(n)
    case BarAt(i, k) => i < Side(n) && k < n - 1
    case RowEnd(i) => i < Side(n)
    case SepAt(k, j) => k < n - 1 && j < Width(n) - 1
    case SepEnd(k) => k < n - 1
  }

  function Line(n: nat, w: Write): nat
    requires n > 0
  {
    match w
    case CellAt(i, _) => RowLine(n, i)
    case BarAt(i, _) => RowLine(n, i)
    case RowEnd(i) => RowLine(n, i)
    case SepAt(k, _) => SeparatorLine(n, k)
    case SepEnd(k) => SeparatorLine(n, k)
  }

  function Column(n: nat, w: Write): nat
    requires n > 0
  {
    match w
    case CellAt(_, j) => CellColumn(n, j)
    case BarAt(_, k) => BarColumn(n, k)
    case RowEnd(_) => NewlineColumn(n)
    case SepAt(_, j) => j
    case SepEnd(_) => NewlineColumn(n)
  }

  /** The buffer index a write goes to, for a given line stride. */
  function Target(n: nat, stride: nat, w: Write): nat
    requires n > 0
  {
    Index(stride, Line(n, w), Column(n, w))
  }

  /** The character a write stores; `cells` is the board in row-major order. */
  function Char(n: nat, cells: seq<Cell>, w: Write): char
    requires n > 0 && ValidWrite(n, w) && |cells| == Side(n) * Side(n)
  {
    match w
    case CellAt(i, j) => FlatIndexInRange(Side(n), i, j); Glyph(cells[i * Side(n) + j])
    case BarAt(_, _) => '|'
    case RowEnd(_) => '\n'
    case SepAt(_, j) => SeparatorChar(n, j)
    case SepEnd(_) => '\n'
  }

  /** Row-major index `i*S + j` of a cell lies inside the board. */
  lemma FlatIndexInRange(side: nat, i: nat, j: nat)
    requires i < side && j < side
    ensures i * side + j < side * side
  {
    assert i * side <= (side - 1) * side;
  }

  // ---- reading an index back ----

  /** The box sizes for which `to_str` lays the board out: those with
      `S = n*n < 10`, that is 2 and 3. */
  predicate Drawable(n: nat)
  {
    n == 2 || n == 3
  }

  /** Among the box sizes a board allows, exactly those with `S < 10` are
      drawn. */
  lemma DrawableIff(n: nat)
    requires 1 < n <= 8
    ensures Drawable(n) <==> Side(n) < 10
  {
    if n >= 4 {
      assert n * n >= 4 * n;
    }
  }

  /** What a line of the text is: the line of a row of cells, or a
      separator line. */
  datatype LineKind = RowOf(i: nat) | SeparatorOf(k: nat)

  /** Lines come in blocks of `n + 1`: `n` rows, then a separator. */
  function LineAt(n: nat, l: nat): LineKind
    requires Drawable(n)
  {
    var block: nat := l / (n + 1);
    var offset: nat := l % (n + 1);
    if offset == n then SeparatorOf(block) else RowOf(block * n + offset)
  }

  /** What a column of a row line holds. */
  datatype ColumnKind = CellOf(j: nat) | BarOf(k: nat) | End | Pad

  /** Columns come in groups of `3n + 1`: three per cell with the glyph in
      the middle, then a bar; the last column is the newline. */
  function ColumnAt(n: nat, c: nat): ColumnKind
    requires Drawable(n)
  {
    var group: nat := c / (3 * n + 1);
    var place: nat := c % (3 * n + 1);
    if c == NewlineColumn(n) then End
    else if place == 3 * n then BarOf(group)
    else if place % 3 == 1 then CellOf(group * n + place / 3)
    else Pad
  }

  /** The write that belongs at line `l`, column `c`, or `None` where the
      buffer keeps its blank. */
  function Decode(n: nat, l: nat, c: nat): Option<Write>
    requires Drawable(n)
  {
    match LineAt(n, l)
    case SeparatorOf(k) => if ColumnAt(n, c) == End then Some(SepEnd(k)) else Some(SepAt(k, c))
    case RowOf(i) =>
      match ColumnAt(n, c)
      case End => Some(RowEnd(i))
      case BarOf(k) => Some(BarAt(i, k))
      case CellOf(j) => Some(CellAt(i, j))
      case Pad => None
  }

  // Each lemma below is one step of arithmetic about a single coordinate.

  /** Row `i` is in block `i / n` of lines, at offset `i % n`. */
  lemma RowLineParts(n: nat, i: nat)
    requires Drawable(n) && i < Side(n)
    ensures RowLine(n, i) < Height(n)
    ensures RowLine(n, i) / (n + 1) == i / n && RowLine(n, i) % (n + 1) == i % n
    ensures (i / n) * n + i % n == i
  {
  }

  /** Separator line `k` ends block `k` of lines. */
  lemma SeparatorLineParts(n: nat, k: nat)
    requires Drawable(n) && k < n - 1
    ensures SeparatorLine(n, k) < Height(n)
    ensures SeparatorLine(n, k) / (n + 1) == k && SeparatorLine(n, k) % (n + 1) == n
  {
  }

  /** Cell `j` is in group `j / n` of columns, at place `3(j % n) + 1`. */
  lemma CellColumnParts(n: nat, j: nat)
    requires Drawable(n) && j < Side(n)
    ensures CellColumn(n, j) < NewlineColumn(n)
    ensures CellColumn(n, j) / (3 * n + 1) == j / n
    ensures CellColumn(n, j) % (3 * n + 1) == 3 * (j % n) + 1
    ensures (3 * (j % n) + 1) % 3 == 1 && (3 * (j % n) + 1) / 3 == j % n
    ensures (j / n) * n + j % n == j
  {
  }

  /** Bar `k` closes group `k` of columns. */
  lemma BarColumnParts(n: nat, k: nat)
    requires Drawable(n) && k < n - 1
    ensures BarColumn(n, k) < NewlineColumn(n)
    ensures BarColumn(n, k) / (3 * n + 1) == k && BarColumn(n, k) % (3 * n + 1) == 3 * n
  {
  }

  /** A line that is not a separator is the line of row
      `(l / (n+1)) * n + l % (n+1)`. */
  lemma RowOfLine(n: nat, l: nat)
    requires Drawable(n) && l < Height(n) && l % (n + 1) != n
    ensures (l / (n + 1)) * n + l % (n + 1) < Side(n)
    ensures RowLine(n, (l / (n + 1)) * n + l % (n + 1)) == l
  {
  }

  /** A separator line is separator line `l / (n+1)`. */
  lemma SeparatorOfLine(n: nat, l: nat)
    requires Drawable(n) && l < Height(n) && l % (n + 1) == n
    ensures l / (n + 1) < n - 1 && SeparatorLine(n, l / (n + 1)) == l
  {
  }

  /** A column at place `3m + 1` of its group is the column of cell
      `group * n + m`. */
  lemma CellOfColumn(n: nat, c: nat)
    requires Drawable(n) && c < NewlineColumn(n)
    requires c % (3 * n + 1) != 3 * n && c % (3 * n + 1) % 3 == 1
    ensures (c / (3 * n + 1)) * n + c % (3 * n + 1) / 3 < Side(n)
    ensures CellColumn(n, (c / (3 * n + 1)) * n + c % (3 * n + 1) / 3) == c
  {
  }

  /** A column at the last place of its group (but not the newline) is the
      column of bar `group`. */
  lemma BarOfColumn(n: nat, c: nat)
    requires Drawable(n) && c < NewlineColumn(n) && c % (3 * n + 1) == 3 * n
    ensures c / (3 * n + 1) < n - 1 && BarColumn(n, c / (3 * n + 1)) == c
  {
  }

  lemma LineOfRow(n: nat, i: nat)
    requires Drawable(n) && i < Side(n)
    ensures RowLine(n, i) < Height(n)
    ensures LineAt(n, RowLine(n, i)) == RowOf(i)
  {
    RowLineParts(n, i);
  }

  lemma LineOfSeparator(n: nat, k: nat)
    requires Drawable(n) && k < n - 1
    ensures SeparatorLine(n, k) < Height(n)
    ensures LineAt(n, SeparatorLine(n, k)) == SeparatorOf(k)
  {
    SeparatorLineParts(n, k);
  }

  lemma ColumnOfCell(n: nat, j: nat)
    requires Drawable(n) && j < Side(n)
    ensures CellColumn(n, j) < NewlineColumn(n)
    ensures ColumnAt(n, CellColumn(n, j)) == CellOf(j)
  {
    CellColumnParts(n, j);
  }

  lemma ColumnOfBar(n: nat, k: nat)
    requires Drawable(n) && k < n - 1
    ensures BarColumn(n, k) < NewlineColumn(n)
    ensures ColumnAt(n, BarColumn(n, k)) == BarOf(k)
  {
    BarColumnParts(n, k);
  }

  /** Every line below `H` is the line of a row below `S` or of a separator
      below `n - 1`. */
  lemma LineAtInverse(n: nat, l: nat)
    requires Drawable(n) && l < Height(n)
    ensures LineAt(n, l).RowOf? ==> LineAt(n, l).i < Side(n) && RowLine(n, LineAt(n, l).i) == l
    ensures LineAt(n, l).SeparatorOf? ==>
      LineAt(n, l).k < n - 1 && SeparatorLine(n, LineAt(n, l).k) == l
  {
    if l % (n + 1) == n {
      SeparatorOfLine(n, l);
    } else {
      RowOfLine(n, l);
    }
  }

  /** Every cell or bar column below `W` is the column of a cell below `S` or
      of a bar below `n - 1`. */
  lemma ColumnAtInverse(n: nat, c: nat)
    requires Drawable(n) && c < Width(n)
    ensures ColumnAt(n, c).CellOf? ==> ColumnAt(n, c).j < Side(n) && CellColumn(n, ColumnAt(n, c).j) == c
    ensures ColumnAt(n, c).BarOf? ==> ColumnAt(n, c).k < n - 1 && BarColumn(n, ColumnAt(n, c).k) == c
  {
    if c != NewlineColumn(n) {
      if c % (3 * n + 1) == 3 * n {
        BarOfColumn(n, c);
      } else if c % (3 * n + 1) % 3 == 1 {
        CellOfColumn(n, c);
      }
    }
  }

  /** A write's line and column decode back to it. */
  lemma DecodeWrite(n: nat, w: Write)
    requires Drawable(n) && ValidWrite(n, w)
    ensures Line(n, w) < Height(n) && Column(n, w) < Width(n)
    ensures Decode(n, Line(n, w), Column(n, w)) == Some(w)
  {
    match w
    case CellAt(i, j) =>
      LineOfRow(n, i);
      ColumnOfCell(n, j);
    case BarAt(i, k) =>
      LineOfRow(n, i);
      ColumnOfBar(n, k);
    case RowEnd(i) =>
      LineOfRow(n, i);
    case SepAt(k, j) =>
      LineOfSeparator(n, k);
    case SepEnd(k) =>
      LineOfSeparator(n, k);
  }

  /** Every position that decodes to a write is that write's line and column,
      and the write is one the loops make. */
  lemma WriteOfDecode(n: nat, l: nat, c: nat)
    requires Drawable(n) && l < Height(n) && c < Width(n) && Decode(n, l, c).Some?
    ensures ValidWrite(n, Decode(n, l, c).value)
    ensures Line(n, Decode(n, l, c).value) == l && Column(n, Decode(n, l, c).value) == c
  {
    LineAtInverse(n, l);
    ColumnAtInverse(n, c);
  }

  /** `a * b <= a * c` when `b <= c`. */
  lemma {:induction false} MulMonotone(a: nat, b: nat, c: nat)
    requires b <= c
    ensures a * b <= a * c
  {
    if a > 0 {
      MulMonotone(a - 1, b, c);
      assert a * b == (a - 1) * b + b;
      assert a * c == (a - 1) * c + c;
    }
  }

  /** Positions with columns inside the stride have equal indices exactly
      when they are the same position. */
  lemma IndexInjective(stride: nat, l: nat, c: nat, l': nat, c': nat)
    requires c < stride && c' < stride
    ensures Index(stride, l, c) == Index(stride, l', c') <==> l == l' && c == c'
  {
    if l < l' {
      IndexOrder(stride, l, c, l', c');
    } else if l' < l {
      IndexOrder(stride, l', c', l, c);
    }
  }

  /** An earlier line has smaller indices. */
  lemma IndexOrder(stride: nat, l: nat, c: nat, l': nat, c': nat)
    requires c < stride && l < l'
    ensures Index(stride, l, c) < Index(stride, l', c')
  {
    MulMonotone(stride, l + 1, l');
    assert (l + 1) * stride == l * stride + stride;
  }

  /** A position inside `height` lines of `stride` columns has an index
      inside the `stride * height` buffer. */
  lemma IndexBound(stride: nat, height: nat, l: nat, c: nat)
    requires l < height && c < stride
    ensures Index(stride, l, c) < stride * height
  {
    MulMonotone(stride, l + 1, height);
    assert (l + 1) * stride == l * stride + stride;
  }

  /** Every index of the `stride * height` buffer is some position. */
  lemma IndexOnto(stride: nat, height: nat, p: nat)
    requires p < stride * height
    ensures stride > 0 && p / stride < height && p % stride < stride
    ensures Index(stride, p / stride, p % stride) == p
  {
    if p / stride >= height {
      MulMonotone(stride, height, p / stride);
    }
  }

  /** At the line width no two writes hit the same index. */
  lemma TargetsDistinct(n: nat, v: Write, w: Write)
    requires Drawable(n) && ValidWrite(n, v) && ValidWrite(n, w)
    requires Target(n, Width(n), v) == Target(n, Width(n), w)
    ensures v == w
  {
    DecodeWrite(n, v);
    DecodeWrite(n, w);
    IndexInjective(Width(n), Line(n, v), Column(n, v), Line(n, w), Column(n, w));
  }

  /** For any stride up to the line width, every write lands inside the
      `W * H` buffer (so the stride `S` the header uses stays in bounds). */
  lemma TargetInBounds(n: nat, stride: nat, w: Write)
    requires Drawable(n) && ValidWrite(n, w) && stride <= Width(n)
    ensures Target(n, stride, w) < Width(n) * Height(n)
  {
    DecodeWrite(n, w);
    MulMonotone(Line(n, w), stride, Width(n));
    IndexBound(Width(n), Height(n), Line(n, w), Column(n, w));
  }

  /** With the stride `S` the header uses, a cell collides with another
      write: for `n = 2`, cells (0, 2) and (1, 1) both go to index 8; for
      `n = 3`, cell (2, 3) overwrites the newline that ends row 0. */
  lemma StrideCollision()
    ensures ValidWrite(2, CellAt(0, 2)) && ValidWrite(2, CellAt(1, 1))
    ensures Target(2, Side(2), CellAt(0, 2)) == Target(2, Side(2), CellAt(1, 1)) == 8
    ensures ValidWrite(3, CellAt(2, 3)) && ValidWrite(3, RowEnd(0))
    ensures Target(3, Side(3), CellAt(2, 3)) == Target(3, Side(3), RowEnd(0)) == 29
  {
  }

  /** A separator line shows `+` exactly in the columns of the row bars. */
  lemma PlusUnderBar(n: nat, c: nat)
    requires Drawable(n) && c < NewlineColumn(n)
    ensures SeparatorChar(n, c) == '+' <==> exists k: nat :: k < n - 1 && BarColumn(n, k) == c
  {
    if SeparatorChar(n, c) == '+' {
      PlusColumn(n, c);
      BarOfColumn(n, c);
      var k := c / (3 * n + 1);
      assert k < n - 1 && BarColumn(n, k) == c;
    } else {
      forall k: nat | k < n - 1 ensures BarColumn(n, k) != c {
        BarIsPlus(n, k);
      }
    }
  }

  /** A `+` column is at the last place of its group. */
  lemma PlusColumn(n: nat, c: nat)
    requires Drawable(n) && (c + 1) % (3 * n + 1) == 0
    ensures c % (3 * n + 1) == 3 * n
  {
  }

  lemma BarIsPlus(n: nat, k: nat)
    requires Drawable(n)
    ensures SeparatorChar(n, BarColumn(n, k)) == '+'
  {
    assert BarColumn(n, k) + 1 == (3 * n + 1) * (k + 1);
  }

  // ---- the rendered text ----

  /** The text the layout describes: at line `l`, column `c`, the character
      of the write that belongs there, or a blank. */
  function Rendered(n: nat, cells: seq<Cell>, l: nat, c: nat): char
    requires Drawable(n) && |cells| == Side(n) * Side(n) && l < Height(n) && c < Width(n)
  {
    match Decode(n, l, c)
    case None => ' '
    case Some(w) => WriteOfDecode(n, l, c); Char(n, cells, w)
  }

  /** Every write's character is in the rendered text at its position. */
  lemma RenderedWrite(n: nat, cells: seq<Cell>, w: Write)
    requires Drawable(n) && |cells| == Side(n) * Side(n) && ValidWrite(n, w)
    ensures Line(n, w) < Height(n) && Column(n, w) < Width(n)
    ensures Rendered(n, cells, Line(n, w), Column(n, w)) == Char(n, cells, w)
  {
    DecodeWrite(n, w);
  }

  /** Every position that no write targets stays blank. */
  lemma RenderedBlank(n: nat, cells: seq<Cell>, l: nat, c: nat)
    requires Drawable(n) && |cells| == Side(n) * Side(n) && l < Height(n) && c < Width(n)
    requires forall w :: ValidWrite(n, w) ==> Line(n, w) != l || Column(n, w) != c
    ensures Rendered(n, cells, l, c) == ' '
  {
    if Decode(n, l, c).Some? {
      WriteOfDecode(n, l, c);
    }
  }

  /** Every line of the rendered text ends in a newline. */
  lemma RenderedLineEnds(n: nat, cells: seq<Cell>, l: nat)
    requires Drawable(n) && |cells| == Side(n) * Side(n) && l < Height(n)
    ensures NewlineColumn(n) < Width(n)
    ensures Rendered(n, cells, l, NewlineColumn(n)) == '\n'
  {
    LineAtInverse(n, l);
    match LineAt(n, l)
    case SeparatorOf(k) => RenderedWrite(n, cells, SepEnd(k));
    case RowOf(i) => RenderedWrite(n, cells, RowEnd(i));
  }

  // ---- progress of the loops ----

  /** The position of a write in the order the loops make them: rows before
      separator lines; within a row its cells, then its bars, then its
      newline; within a separator line its columns, then its newline. */
  datatype Key = Key(phase: nat, major: nat, stage: nat, minor: nat)

  function KeyOf(w: Write): Key
  {
    match w
    case CellAt(i, j) => Key(0, i, 0, j)
    case BarAt(i, k) => Key(0, i, 1, k)
    case RowEnd(i) => Key(0, i, 2, 0)
    case SepAt(k, j) => Key(1, k, 0, j)
    case SepEnd(k) => Key(1, k, 1, 0)
  }

  /** Lexicographic order of keys. */
  predicate Precedes(a: Key, b: Key)
  {
    a.phase < b.phase
    || (a.phase == b.phase && a.major < b.major)
    || (a.phase == b.phase && a.major == b.major && a.stage < b.stage)
    || (a.phase == b.phase && a.major == b.major && a.stage == b.stage && a.minor < b.minor)
  }

  /** The key right after `k` within the same stage. */
  function Bump(k: Key): Key
  {
    k.(minor := k.minor + 1)
  }

  /** What line `l`, column `c` of the buffer holds once every write
      preceding `upto` has been made. */
  function Shown(n: nat, cells: seq<Cell>, l: nat, c: nat, upto: Key): char
    requires Drawable(n) && |cells| == Side(n) * Side(n) && l < Height(n) && c < Width(n)
  {
    if Decode(n, l, c).Some? && Precedes(KeyOf(Decode(n, l, c).value), upto) then Rendered(n, cells, l, c)
    else ' '
  }

  /** The `W * H` buffer holds exactly the writes preceding `upto`, blanks
      elsewhere. */
  ghost predicate Painted(n: nat, cells: seq<Cell>, buf: seq<char>, upto: Key)
    requires Drawable(n) && |cells| == Side(n) * Side(n)
  {
    |buf| == Width(n) * Height(n)
    && forall l: nat, c: nat :: l < Height(n) && c < Width(n) ==>
         Index(Width(n), l, c) < |buf| && buf[Index(Width(n), l, c)] == Shown(n, cells, l, c, upto)
  }

  /** The blank buffer holds no write. */
  lemma PaintedBlank(n: nat, cells: seq<Cell>, buf: seq<char>)
    requires Drawable(n) && |cells| == Side(n) * Side(n)
    requires |buf| == Width(n) * Height(n) && forall p :: 0 <= p < |buf| ==> buf[p] == ' '
    ensures Painted(n, cells, buf, Key(0, 0, 0, 0))
  {
    forall l: nat, c: nat | l < Height(n) && c < Width(n)
      ensures Index(Width(n), l, c) < |buf|
    {
      IndexBound(Width(n), Height(n), l, c);
    }
  }

  /** Making the write whose key is `upto` advances the buffer to the next
      key. */
  lemma PaintStep(n: nat, cells: seq<Cell>, buf: seq<char>, w: Write)
    requires Drawable(n) && |cells| == Side(n) * Side(n) && ValidWrite(n, w)
    requires Painted(n, cells, buf, KeyOf(w))
    ensures Target(n, Width(n), w) < |buf|
    ensures Painted(n, cells, buf[Target(n, Width(n), w) := Char(n, cells, w)], Bump(KeyOf(w)))
  {
    RenderedWrite(n, cells, w);
    var buf' := buf[Target(n, Width(n), w) := Char(n, cells, w)];
    forall l: nat, c: nat | l < Height(n) && c < Width(n)
      ensures Index(Width(n), l, c) < |buf'|
      ensures buf'[Index(Width(n), l, c)] == Shown(n, cells, l, c, Bump(KeyOf(w)))
    {
      PaintStepAt(n, cells, buf, w, l, c);
    }
  }

  /** `PaintStep` at one position. */
  lemma PaintStepAt(n: nat, cells: seq<Cell>, buf: seq<char>, w: Write, l: nat, c: nat)
    requires Drawable(n) && |cells| == Side(n) * Side(n) && ValidWrite(n, w)
    requires Painted(n, cells, buf, KeyOf(w)) && l < Height(n) && c < Width(n)
    ensures Target(n, Width(n), w) < |buf| && Index(Width(n), l, c) < |buf|
    ensures buf[Target(n, Width(n), w) := Char(n, cells, w)][Index(Width(n), l, c)]
            == Shown(n, cells, l, c, Bump(KeyOf(w)))
  {
    RenderedWrite(n, cells, w);
    var t := Target(n, Width(n), w);
    var i := Index(Width(n), l, c);
    var ch := Char(n, cells, w);
    IndexBound(Width(n), Height(n), l, c);
    IndexBound(Width(n), Height(n), Line(n, w), Column(n, w));
    if l == Line(n, w) && c == Column(n, w) {
      ShownHere(n, cells, w);
      assert i == t;
      assert buf[t := ch][i] == ch;
    } else {
      IndexInjective(Width(n), l, c, Line(n, w), Column(n, w));
      assert buf[t := ch][i] == buf[i];
      assert buf[i] == Shown(n, cells, l, c, KeyOf(w));
      ShownElsewhere(n, cells, l, c, w);
    }
  }

  /** At the position of `w`, making `w` shows its character. */
  lemma ShownHere(n: nat, cells: seq<Cell>, w: Write)
    requires Drawable(n) && |cells| == Side(n) * Side(n) && ValidWrite(n, w)
    ensures Line(n, w) < Height(n) && Column(n, w) < Width(n)
    ensures Shown(n, cells, Line(n, w), Column(n, w), Bump(KeyOf(w))) == Char(n, cells, w)
  {
    RenderedWrite(n, cells, w);
    DecodeWrite(n, w);
    var l, c := Line(n, w), Column(n, w);
    assert Decode(n, l, c) == Some(w);
    assert Precedes(KeyOf(w), Bump(KeyOf(w)));
  }

  /** Away from the position of `w`, making `w` changes nothing shown. */
  lemma ShownElsewhere(n: nat, cells: seq<Cell>, l: nat, c: nat, w: Write)
    requires Drawable(n) && |cells| == Side(n) * Side(n) && ValidWrite(n, w)
    requires l < Height(n) && c < Width(n) && (l != Line(n, w) || c != Column(n, w))
    ensures Shown(n, cells, l, c, Bump(KeyOf(w))) == Shown(n, cells, l, c, KeyOf(w))
  {
    var d := Decode(n, l, c);
    if d.Some? {
      WriteOfDecode(n, l, c);
      KeyOfInjective(d.value, w);
      BumpPrecedes(KeyOf(d.value), KeyOf(w));
    }
  }

  /** Different writes have different keys. */
  lemma KeyOfInjective(v: Write, w: Write)
    requires v != w
    ensures KeyOf(v) != KeyOf(w)
  {
  }

  /** A key other than `b` precedes the key after `b` exactly when it
      precedes `b`. */
  lemma BumpPrecedes(a: Key, b: Key)
    requires a != b
    ensures Precedes(a, Bump(b)) <==> Precedes(a, b)
  {
  }

  /** Two keys that the same writes precede describe the same buffer. */
  lemma Repaint(n: nat, cells: seq<Cell>, buf: seq<char>, a: Key, b: Key)
    requires Drawable(n) && |cells| == Side(n) * Side(n)
    requires Painted(n, cells, buf, a)
    requires forall v :: ValidWrite(n, v) ==> (Precedes(KeyOf(v), a) <==> Precedes(KeyOf(v), b))
    ensures Painted(n, cells, buf, b)
  {
    forall l: nat, c: nat | l < Height(n) && c < Width(n)
      ensures buf[Index(Width(n), l, c)] == Shown(n, cells, l, c, b)
    {
      if Decode(n, l, c).Some? {
        WriteOfDecode(n, l, c);
      }
    }
  }

  /** Once every write precedes `upto`, the buffer is the rendered text. */
  lemma PaintedAll(n: nat, cells: seq<Cell>, buf: seq<char>, upto: Key)
    requires Drawable(n) && |cells| == Side(n) * Side(n)
    requires Painted(n, cells, buf, upto)
    requires forall v :: ValidWrite(n, v) ==> Precedes(KeyOf(v), upto)
    ensures forall l: nat, c: nat :: l < Height(n) && c < Width(n) ==>
              Index(Width(n), l, c) < |buf| && buf[Index(Width(n), l, c)] == Rendered(n, cells, l, c)
  {
    forall l: nat, c: nat | l < Height(n) && c < Width(n)
      ensures buf[Index(Width(n), l, c)] == Rendered(n, cells, l, c)
    {
      if Decode(n, l, c).Some? {
        WriteOfDecode(n, l, c);
      }
    }
  }
}
