/** The text console's cell buffer: history rows above the rows on screen, scrolled, cleared
    and moved about in place. */
module ConsoleCells {
  import opened Splicing

  datatype Cell = Cell(ch: nat, attr: nat)

  // ----- Flat sequences, of cells or of rows -----

  /** A block move, whatever the overlap. */
  function Move<T>(s: seq<T>, dst: nat, src: nat, n: nat): (r: seq<T>)
    requires dst + n <= |s| && src + n <= |s|
    ensures |r| == |s|
    ensures forall i :: 0 <= i < |s| ==> r[i] == if dst <= i < dst + n then s[src + i - dst] else s[i]
  {
    s[..dst] + s[src..src + n] + s[dst + n..]
  }

  function Fill<T>(s: seq<T>, at: nat, n: nat, blank: T): (r: seq<T>)
    requires at + n <= |s|
    ensures |r| == |s|
    ensures forall i :: 0 <= i < |s| ==> r[i] == if at <= i < at + n then blank else s[i]
  {
    s[..at] + seq(n, i => blank) + s[at + n..]
  }

  // ----- Slices -----

  /** A slice that a move does not reach. */
  lemma MoveMisses<T>(s: seq<T>, dst: nat, src: nat, n: nat, o: nat, w: nat)
    requires dst + n <= |s| && src + n <= |s| && o + w <= |s| && (dst + n <= o || o + w <= dst)
    ensures Move(s, dst, src, n)[o..o + w] == s[o..o + w]
  {
    var (a, b) := (Move(s, dst, src, n)[o..o + w], s[o..o + w]);
    forall i | 0 <= i < w ensures a[i] == b[i] {
      assert a[i] == Move(s, dst, src, n)[o + i];
    }
  }

  /** A slice that takes in the whole of a move. */
  lemma MoveInto<T>(s: seq<T>, dst: nat, src: nat, n: nat, o: nat, w: nat)
    requires dst + n <= |s| && src + n <= |s| && o + w <= |s| && o <= dst && dst + n <= o + w
    ensures Move(s, dst, src, n)[o..o + w] == Splice(s[o..o + w], dst - o, s[src..src + n])
  {
    var (a, b) := (Move(s, dst, src, n)[o..o + w], Splice(s[o..o + w], dst - o, s[src..src + n]));
    forall i | 0 <= i < w ensures a[i] == b[i] {
      assert a[i] == Move(s, dst, src, n)[o + i];
    }
  }

  /** A slice that lies within what is moved. */
  lemma MoveCarries<T>(s: seq<T>, dst: nat, src: nat, n: nat, o: nat, w: nat, p: nat)
    requires dst + n <= |s| && src + n <= |s| && dst <= o && o + w <= dst + n && p == src + (o - dst)
    ensures Move(s, dst, src, n)[o..o + w] == s[p..p + w]
  {
    var (a, b) := (Move(s, dst, src, n)[o..o + w], s[p..p + w]);
    forall i | 0 <= i < w ensures a[i] == b[i] {
      assert a[i] == Move(s, dst, src, n)[o + i];
    }
  }

  lemma FillMisses<T>(s: seq<T>, at: nat, n: nat, blank: T, o: nat, w: nat)
    requires at + n <= |s| && o + w <= |s| && (at + n <= o || o + w <= at)
    ensures Fill(s, at, n, blank)[o..o + w] == s[o..o + w]
  {
    var (a, b) := (Fill(s, at, n, blank)[o..o + w], s[o..o + w]);
    forall i | 0 <= i < w ensures a[i] == b[i] {
      assert a[i] == Fill(s, at, n, blank)[o + i];
    }
  }

  lemma FillInto<T>(s: seq<T>, at: nat, n: nat, blank: T, o: nat, w: nat)
    requires at + n <= |s| && o + w <= |s| && o <= at && at + n <= o + w
    ensures Fill(s, at, n, blank)[o..o + w] == Splice(s[o..o + w], at - o, seq(n, i => blank))
  {
    var (a, b) := (Fill(s, at, n, blank)[o..o + w], Splice(s[o..o + w], at - o, seq(n, i => blank)));
    forall i | 0 <= i < w ensures a[i] == b[i] {
      assert a[i] == Fill(s, at, n, blank)[o + i];
    }
  }

  lemma FillCovers<T>(s: seq<T>, at: nat, n: nat, blank: T, o: nat, w: nat)
    requires at + n <= |s| && at <= o && o + w <= at + n
    ensures Fill(s, at, n, blank)[o..o + w] == seq(w, i => blank)
  {
    var (a, b) := (Fill(s, at, n, blank)[o..o + w], seq(w, i => blank));
    forall i | 0 <= i < w ensures a[i] == b[i] {
      assert a[i] == Fill(s, at, n, blank)[o + i];
    }
  }

  lemma SliceSlice<T>(s: seq<T>, o: nat, w: nat, d: nat, n: nat)
    requires o + w <= |s| && d + n <= w
    ensures s[o..o + w][d..d + n] == s[o + d..o + d + n]
  {
    var r := s[o..o + w];
    assert |r| == w;
    var (a, b) := (r[d..d + n], s[o + d..o + d + n]);
    assert |a| == |b| == n;
    forall i | 0 <= i < n ensures a[i] == b[i] {
      assert a[i] == r[d + i];
    }
  }

  // ----- The buffer as rows -----

  type Row = seq<Cell>

  /** Rows do not overlap, and all fit. */
  lemma RowsApart(w: nat, r: nat, q: nat)
    requires r < q
    ensures r * w + w <= q * w
  {
    assert r * w + w == (r + 1) * w;
    MulLess(r + 1, q, w);
  }

  lemma MulLess(a: nat, b: nat, w: nat)
    requires a <= b
    ensures a * w <= b * w
  {
  }

  lemma RowsFit(w: nat, h: nat, r: nat, n: nat)
    requires r + n <= h
    ensures r * w + n * w == (r + n) * w <= h * w
  {
    MulLess(r + n, h, w);
  }

  function RowOf(s: seq<Cell>, w: nat, h: nat, r: nat): (row: Row)
    requires |s| == h * w && r < h
    ensures |row| == w
  {
    RowsApart(w, r, h);
    s[r * w..r * w + w]
  }

  function Rows(s: seq<Cell>, w: nat, h: nat): (g: seq<Row>)
    requires |s| == h * w
    ensures |g| == h && forall r :: 0 <= r < h ==> |g[r]| == w
  {
    seq(h, r requires 0 <= r < h => RowOf(s, w, h, r))
  }

  function Blank(w: nat, blank: Cell): Row {
    seq(w, c => blank)
  }

  lemma Shift(w: nat, row: nat, r: nat, q: nat)
    requires r <= row
    ensures (q + row - r) * w == q * w + (row * w - r * w)
  {
  }

  /** A row inside a run of rows, or outside it, in cells. */
  lemma RowInRun(w: nat, h: nat, r: nat, n: nat, row: nat)
    requires r + n <= h && row < h
    ensures row * w + w <= h * w && r * w + n * w <= h * w
    ensures r <= row < r + n ==> r * w <= row * w && row * w + w <= r * w + n * w
    ensures !(r <= row < r + n) ==> r * w + n * w <= row * w || row * w + w <= r * w
  {
    RowsFit(w, h, r, n);
    RowsApart(w, row, h);
    if row < r {
      RowsApart(w, row, r);
    } else if row < r + n {
      MulLess(r, row, w);
      RowsApart(w, row, r + n);
    } else {
      MulLess(r + n, row, w);
    }
  }

  /** One of the rows that were moved. */
  lemma RowCarried(s: seq<Cell>, w: nat, h: nat, r: nat, q: nat, n: nat, t: seq<Cell>, row: nat)
    requires |s| == h * w && r + n <= h && q + n <= h && r <= row < r + n
    requires r * w + n * w <= |s| && q * w + n * w <= |s| && t == Move(s, r * w, q * w, n * w)
    ensures RowOf(t, w, h, row) == RowOf(s, w, h, q + row - r)
  {
    RowInRun(w, h, r, n, row);
    Shift(w, row, r, q);
    MoveCarries(s, r * w, q * w, n * w, row * w, w, (q + row - r) * w);
  }

  lemma SliceKept(s: seq<Cell>, dst: nat, src: nat, len: nat, o: nat, w: nat, t: seq<Cell>)
    requires dst + len <= |s| && src + len <= |s| && o + w <= |s| && (dst + len <= o || o + w <= dst)
    requires t == Move(s, dst, src, len)
    ensures t[o..o + w] == s[o..o + w]
  {
    MoveMisses(s, dst, src, len, o, w);
  }

  /** One of the rows that were not written to. */
  lemma RowKept(s: seq<Cell>, w: nat, h: nat, r: nat, src: nat, n: nat, t: seq<Cell>, row: nat)
    requires |s| == h * w && r + n <= h && row < h && !(r <= row < r + n)
    requires r * w + n * w <= |s| && src + n * w <= |s| && t == Move(s, r * w, src, n * w)
    ensures RowOf(t, w, h, row) == RowOf(s, w, h, row)
  {
    RowInRun(w, h, r, n, row);
    SliceKept(s, r * w, src, n * w, row * w, w, t);
  }

  lemma RowMoved(s: seq<Cell>, w: nat, h: nat, r: nat, q: nat, n: nat, t: seq<Cell>, row: nat)
    requires |s| == h * w && r + n <= h && q + n <= h && row < h
    requires r * w + n * w <= |s| && q * w + n * w <= |s| && t == Move(s, r * w, q * w, n * w)
    ensures RowOf(t, w, h, row) == RowOf(s, w, h, if r <= row < r + n then q + row - r else row)
  {
    if r <= row < r + n {
      RowCarried(s, w, h, r, q, n, t, row);
    } else {
      RowKept(s, w, h, r, q * w, n, t, row);
    }
  }

  /** Grids whose rows stand to each other as a move has it. */
  lemma GridsMove(g: seq<Row>, g': seq<Row>, r: nat, q: nat, n: nat)
    requires |g'| == |g| && r + n <= |g| && q + n <= |g|
    requires forall row :: 0 <= row < |g| ==> g'[row] == g[if r <= row < r + n then q + row - r else row]
    ensures g' == Move(g, r, q, n)
  {
  }

  lemma RowsMove(s: seq<Cell>, w: nat, h: nat, r: nat, q: nat, n: nat, dst: nat, src: nat, len: nat)
    requires |s| == h * w && r + n <= h && q + n <= h && dst == r * w && src == q * w && len == n * w
    ensures dst + len <= |s| && src + len <= |s|
    ensures Rows(Move(s, dst, src, len), w, h) == Move(Rows(s, w, h), r, q, n)
  {
    RowsFit(w, h, r, n);
    RowsFit(w, h, q, n);
    var t := Move(s, dst, src, len);
    var (g, g') := (Rows(s, w, h), Rows(t, w, h));
    forall row | 0 <= row < h ensures g'[row] == g[if r <= row < r + n then q + row - r else row] {
      RowMoved(s, w, h, r, q, n, t, row);
    }
    GridsMove(g, g', r, q, n);
  }

  lemma RowBlanked(s: seq<Cell>, w: nat, h: nat, r: nat, n: nat, blank: Cell, t: seq<Cell>, row: nat)
    requires |s| == h * w && r + n <= h && r <= row < r + n && r * w + n * w <= |s| && t == Fill(s, r * w, n * w, blank)
    ensures RowOf(t, w, h, row) == Blank(w, blank)
  {
    RowInRun(w, h, r, n, row);
    FillCovers(s, r * w, n * w, blank, row * w, w);
  }

  lemma RowLeft(s: seq<Cell>, w: nat, h: nat, r: nat, n: nat, blank: Cell, t: seq<Cell>, row: nat)
    requires |s| == h * w && r + n <= h && row < h && !(r <= row < r + n)
    requires r * w + n * w <= |s| && t == Fill(s, r * w, n * w, blank)
    ensures RowOf(t, w, h, row) == RowOf(s, w, h, row)
  {
    RowInRun(w, h, r, n, row);
    FillMisses(s, r * w, n * w, blank, row * w, w);
  }

  lemma RowsFill(s: seq<Cell>, w: nat, h: nat, r: nat, n: nat, blank: Cell, at: nat, len: nat)
    requires |s| == h * w && r + n <= h && at == r * w && len == n * w
    ensures at + len <= |s|
    ensures Rows(Fill(s, at, len, blank), w, h) == Fill(Rows(s, w, h), r, n, Blank(w, blank))
  {
    RowsFit(w, h, r, n);
    var t := Fill(s, at, len, blank);
    forall row | 0 <= row < h ensures Rows(t, w, h)[row] == Fill(Rows(s, w, h), r, n, Blank(w, blank))[row] {
      if r <= row < r + n {
        RowBlanked(s, w, h, r, n, blank, t, row);
      } else {
        RowLeft(s, w, h, r, n, blank, t, row);
      }
    }
  }

  /** Other rows than r, when a move or a fill stays inside r. */
  lemma OtherRow(w: nat, h: nat, r: nat, c: nat, n: nat, row: nat)
    requires r < h && row < h && row != r && c + n <= w
    ensures r * w + c + n <= row * w || row * w + w <= r * w + c
    ensures row * w + w <= h * w
  {
    RowsApart(w, row, h);
    if row < r {
      RowsApart(w, row, r);
    } else {
      RowsApart(w, r, row);
    }
  }

  /** Grids that differ in one row. */
  lemma OneRow(s: seq<Cell>, t: seq<Cell>, w: nat, h: nat, r: nat, row': Row)
    requires |s| == |t| == h * w && r < h && |row'| == w && RowOf(t, w, h, r) == row'
    requires forall row :: 0 <= row < h && row != r ==> RowOf(t, w, h, row) == RowOf(s, w, h, row)
    ensures Rows(t, w, h) == Rows(s, w, h)[r := row']
  {
    var (a, b) := (Rows(t, w, h), Rows(s, w, h)[r := row']);
    forall row | 0 <= row < h ensures a[row] == b[row] {
      assert row != r ==> RowOf(t, w, h, row) == RowOf(s, w, h, row);
    }
  }

  /** Part of the slice at p, moved to part of the slice at o. */
  lemma PartMoved(s: seq<Cell>, w: nat, o: nat, c: nat, p: nat, d: nat, n: nat)
    requires o + w <= |s| && p + w <= |s| && c + n <= w && d + n <= w
    ensures Move(s, o + c, p + d, n)[o..o + w] == Splice(s[o..o + w], c, s[p..p + w][d..d + n])
  {
    MoveInto(s, o + c, p + d, n, o, w);
    SliceSlice(s, p, w, d, n);
  }

  lemma RowMissed(s: seq<Cell>, w: nat, h: nat, r: nat, c: nat, n: nat, dst: nat, src: nat, row: nat)
    requires |s| == h * w && r < h && row < h && row != r && c + n <= w && dst == r * w + c
    requires dst + n <= |s| && src + n <= |s|
    ensures RowOf(Move(s, dst, src, n), w, h, row) == RowOf(s, w, h, row)
  {
    OtherRow(w, h, r, c, n, row);
    MoveMisses(s, dst, src, n, row * w, w);
  }

  lemma RowInto(s: seq<Cell>, w: nat, h: nat, r: nat, c: nat, q: nat, d: nat, n: nat, dst: nat, src: nat)
    requires |s| == h * w && r < h && q < h && c + n <= w && d + n <= w && dst == r * w + c && src == q * w + d
    requires dst + n <= |s| && src + n <= |s|
    ensures RowOf(Move(s, dst, src, n), w, h, r) == Splice(RowOf(s, w, h, r), c, RowOf(s, w, h, q)[d..d + n])
  {
    RowsApart(w, r, h);
    RowsApart(w, q, h);
    PartMoved(s, w, r * w, c, q * w, d, n);
  }

  /** Part of a row, moved to part of a row. */
  lemma RowMove(s: seq<Cell>, w: nat, h: nat, r: nat, c: nat, q: nat, d: nat, n: nat, dst: nat, src: nat)
    requires |s| == h * w && r < h && q < h && c + n <= w && d + n <= w && dst == r * w + c && src == q * w + d
    ensures dst + n <= |s| && src + n <= |s|
    ensures var g := Rows(s, w, h);
            Rows(Move(s, dst, src, n), w, h) == g[r := Splice(g[r], c, g[q][d..d + n])]
  {
    RowsApart(w, r, h);
    RowsApart(w, q, h);
    var t := Move(s, dst, src, n);
    RowInto(s, w, h, r, c, q, d, n, dst, src);
    forall row | 0 <= row < h && row != r ensures RowOf(t, w, h, row) == RowOf(s, w, h, row) {
      RowMissed(s, w, h, r, c, n, dst, src, row);
    }
    OneRow(s, t, w, h, r, Splice(RowOf(s, w, h, r), c, RowOf(s, w, h, q)[d..d + n]));
  }

  lemma RowSpared(s: seq<Cell>, w: nat, h: nat, r: nat, c: nat, n: nat, blank: Cell, at: nat, row: nat)
    requires |s| == h * w && r < h && row < h && row != r && c + n <= w && at == r * w + c && at + n <= |s|
    ensures RowOf(Fill(s, at, n, blank), w, h, row) == RowOf(s, w, h, row)
  {
    OtherRow(w, h, r, c, n, row);
    FillMisses(s, at, n, blank, row * w, w);
  }

  lemma RowFill(s: seq<Cell>, w: nat, h: nat, r: nat, c: nat, n: nat, blank: Cell, at: nat)
    requires |s| == h * w && r < h && c + n <= w && at == r * w + c
    ensures at + n <= |s|
    ensures var g := Rows(s, w, h); Rows(Fill(s, at, n, blank), w, h) == g[r := Splice(g[r], c, Blank(n, blank))]
  {
    RowsApart(w, r, h);
    var t := Fill(s, at, n, blank);
    FillInto(s, at, n, blank, r * w, w);
    forall row | 0 <= row < h && row != r ensures RowOf(t, w, h, row) == RowOf(s, w, h, row) {
      RowSpared(s, w, h, r, c, n, blank, at, row);
    }
    OneRow(s, t, w, h, r, Splice(RowOf(s, w, h, r), c, Blank(n, blank)));
  }

  // ----- What each operation does to the rows -----

  /** Rows top up to end move up by lines; the rows they leave are blank; no other row changes. */
  ghost predicate Up(g: seq<Row>, g': seq<Row>, top: nat, end: nat, lines: nat, blank: Row) {
    && |g| == |g'| && top + lines <= end <= |g|
    && forall r :: 0 <= r < |g| ==>
         g'[r] == if top <= r < end - lines then g[r + lines] else if end - lines <= r < end then blank else g[r]
  }

  ghost predicate Down(g: seq<Row>, g': seq<Row>, top: nat, end: nat, lines: nat, blank: Row) {
    && |g| == |g'| && top + lines <= end <= |g|
    && forall r :: 0 <= r < |g| ==>
         g'[r] == if top + lines <= r < end then g[r - lines] else if top <= r < top + lines then blank else g[r]
  }

  ghost predicate Grid(g: seq<Row>, w: nat) {
    forall r :: 0 <= r < |g| ==> |g[r]| == w
  }

  function Get(g: seq<Row>, w: nat, row: nat, col: nat): Cell
    requires row < |g| && col < w && |g[row]| == w
  {
    g[row][col]
  }

  /** Rows r up to end, columns c up to c + m, are blank; no other cell changes. */
  ghost predicate Cleared(g: seq<Row>, g': seq<Row>, w: nat, r: nat, end: nat, c: nat, m: nat, blank: Cell) {
    && |g| == |g'| && Grid(g, w) && Grid(g', w)
    && forall row: nat, col: nat :: row < |g| && col < w ==>
         Get(g', w, row, col) == if r <= row < end && c <= col < c + m then blank else Get(g, w, row, col)
  }

  /** What a cell holds once rows lo up to hi of the rectangle at (t, l) are at (y, x). */
  ghost function MovedCell(g: seq<Row>, w: nat, y: nat, x: nat, t: nat, l: nat, m: nat, lo: nat, hi: nat, row: nat,
                           col: nat): Cell
    requires Grid(g, w) && t + hi <= |g| && l + m <= w && row < |g| && col < w
  {
    if y + lo <= row < y + hi && x <= col < x + m then Get(g, w, t + (row - y), l + (col - x)) else Get(g, w, row, col)
  }

  /** Rows lo up to hi of the rectangle at (y, x) hold what those of the one at (t, l) held at
      the start, however the two overlap; no other cell changes. */
  ghost predicate Moved(g: seq<Row>, g': seq<Row>, w: nat, y: nat, x: nat, t: nat, l: nat, m: nat, lo: nat, hi: nat) {
    && |g| == |g'| && Grid(g, w) && Grid(g', w) && t + hi <= |g| && l + m <= w
    && forall row: nat, col: nat :: row < |g| && col < w ==>
         Get(g', w, row, col) == MovedCell(g, w, y, x, t, l, m, lo, hi, row, col)
  }

  lemma UpRow(g: seq<Row>, g': seq<Row>, top: nat, end: nat, lines: nat, blank: Row, r: nat)
    requires Up(g, g', top, end, lines, blank) && r < |g|
    ensures g'[r] == if top <= r < end - lines then g[r + lines] else if end - lines <= r < end then blank else g[r]
  {
  }

  lemma DownRow(g: seq<Row>, g': seq<Row>, top: nat, end: nat, lines: nat, blank: Row, r: nat)
    requires Down(g, g', top, end, lines, blank) && r < |g|
    ensures g'[r] == if top + lines <= r < end then g[r - lines] else if top <= r < top + lines then blank else g[r]
  {
  }

  /** Four rows, of which all but the first scroll by one. */
  lemma FourRows(a: Row, b: Row, c: Row, d: Row, z: Row, g: seq<Row>)
    ensures Up([a, b, c, d], g, 1, 4, 1, z) <==> g == [a, c, d, z]
    ensures Down([a, b, c, d], g, 1, 4, 1, z) <==> g == [a, z, b, c]
  {
    var s := [a, b, c, d];
    assert s[0] == a && s[1] == b && s[2] == c && s[3] == d;
    if Up(s, g, 1, 4, 1, z) {
      forall r | 0 <= r < 4 ensures g[r] == [a, c, d, z][r] {
        UpRow(s, g, 1, 4, 1, z, r);
      }
    }
    if Down(s, g, 1, 4, 1, z) {
      forall r | 0 <= r < 4 ensures g[r] == [a, z, b, c][r] {
        DownRow(s, g, 1, 4, 1, z, r);
      }
    }
  }

  /** Scrolling up and down again brings back every row that had not left the region. */
  lemma UpThenDown(g: seq<Row>, g1: seq<Row>, g2: seq<Row>, top: nat, end: nat, lines: nat, blank: Row, r: nat)
    requires Up(g, g1, top, end, lines, blank) && Down(g1, g2, top, end, lines, blank) && r < |g|
    ensures g2[r] == if top <= r < top + lines then blank else g[r]
  {
    DownRow(g1, g2, top, end, lines, blank, r);
    UpRow(g, g1, top, end, lines, blank, if top + lines <= r < end then r - lines else r);
  }

  /** Two rows of three: two cells cleared, and two cells moved over part of themselves. */
  lemma SixCells(p: Cell, q: Cell, r: Cell, s: Cell, t: Cell, u: Cell, z: Cell, g: seq<Row>)
    requires |g| == 2 && Grid(g, 3)
    ensures Cleared([[p, q, r], [s, t, u]], g, 3, 0, 1, 1, 2, z) <==> g == [[p, z, z], [s, t, u]]
    ensures Moved([[p, q, r], [s, t, u]], g, 3, 0, 1, 0, 0, 2, 0, 1) <==> g == [[p, p, q], [s, t, u]]
    ensures Moved([[p, q, r], [s, t, u]], g, 3, 1, 0, 0, 1, 2, 0, 1) <==> g == [[p, q, r], [q, r, u]]
  {
    assert g == [g[0], g[1]] && g[0] == [g[0][0], g[0][1], g[0][2]] && g[1] == [g[1][0], g[1][1], g[1][2]];
    forall row: nat, col: nat | row < 2 && col < 3 ensures Get(g, 3, row, col) == g[row][col] {
    }
    assert Get(g, 3, 0, 0) == g[0][0] && Get(g, 3, 0, 1) == g[0][1] && Get(g, 3, 0, 2) == g[0][2];
    assert Get(g, 3, 1, 0) == g[1][0] && Get(g, 3, 1, 1) == g[1][1] && Get(g, 3, 1, 2) == g[1][2];
  }

  lemma PatchGet(g: seq<Row>, w: nat, r: nat, c: nat, cells: seq<Cell>, row: nat, col: nat)
    requires Grid(g, w) && r < |g| && c + |cells| <= w && row < |g| && col < w
    ensures var g' := g[r := Splice(g[r], c, cells)];
            && Grid(g', w)
            && Get(g', w, row, col) == if row == r
               && c <= col < c + |cells| then cells[col - c] else Get(g, w, row, col)
  {
  }

  lemma ClearedMore(g: seq<Row>, g1: seq<Row>, w: nat, r: nat, end: nat, c: nat, m: nat, blank: Cell)
    requires Cleared(g, g1, w, r, end, c, m, blank) && r <= end < |g| && c + m <= w
    ensures Cleared(g, g1[end := Splice(g1[end], c, Blank(m, blank))], w, r, end + 1, c, m, blank)
  {
    var g2 := g1[end := Splice(g1[end], c, Blank(m, blank))];
    forall row: nat, col: nat | row < |g| && col < w
      ensures Get(g2, w, row, col) == if r <= row < end + 1 && c <= col < c + m then blank else Get(g, w, row, col)
    {
      PatchGet(g1, w, end, c, Blank(m, blank), row, col);
      assert Get(g1, w, row, col) == if r <= row < end && c <= col < c + m then blank else Get(g, w, row, col);
    }
  }

  /** The next row down, the source lying lower. */
  lemma MovedDown(g: seq<Row>, g1: seq<Row>, w: nat, y: nat, x: nat, t: nat, l: nat, m: nat, k: nat)
    requires Moved(g, g1, w, y, x, t, l, m, 0, k) && y < t && t + k < |g| && x + m <= w
    ensures Moved(g, g1[y + k := Splice(g1[y + k], x, g1[t + k][l..l + m])], w, y, x, t, l, m, 0, k + 1)
  {
    var g2 := g1[y + k := Splice(g1[y + k], x, g1[t + k][l..l + m])];
    forall row: nat, col: nat | row < |g| && col < w
      ensures Get(g2, w, row, col) == MovedCell(g, w, y, x, t, l, m, 0, k + 1, row, col)
    {
      PatchGet(g1, w, y + k, x, g1[t + k][l..l + m], row, col);
      assert Get(g1, w, row, col) == MovedCell(g, w, y, x, t, l, m, 0, k, row, col);
      if row == y + k && x <= col < x + m {
        assert Get(g1, w, t + k, l + (col - x)) == MovedCell(g, w, y, x, t, l, m, 0, k, t + k, l + (col - x));
      }
    }
  }

  /** The next row up, the source lying level or higher. */
  lemma MovedUp(g: seq<Row>, g1: seq<Row>, w: nat, y: nat, x: nat, t: nat, l: nat, m: nat, k: nat, hi: nat)
    requires Moved(g, g1, w, y, x, t, l, m, k + 1, hi) && y >= t && k < hi && y + hi <= |g| && x + m <= w
    ensures Moved(g, g1[y + k := Splice(g1[y + k], x, g1[t + k][l..l + m])], w, y, x, t, l, m, k, hi)
  {
    var g2 := g1[y + k := Splice(g1[y + k], x, g1[t + k][l..l + m])];
    forall row: nat, col: nat | row < |g| && col < w
      ensures Get(g2, w, row, col) == MovedCell(g, w, y, x, t, l, m, k, hi, row, col)
    {
      PatchGet(g1, w, y + k, x, g1[t + k][l..l + m], row, col);
      assert Get(g1, w, row, col) == MovedCell(g, w, y, x, t, l, m, k + 1, hi, row, col);
      if row == y + k && x <= col < x + m {
        assert Get(g1, w, t + k, l + (col - x)) == MovedCell(g, w, y, x, t, l, m, k + 1, hi, t + k, l + (col - x));
      }
    }
  }

  // ----- Which regions stay inside the buffer -----

  /** n cells from `at` on lie in a buffer of len; a length below zero is one that wrapped round. */
  predicate Inside(at: int, n: int, len: int) {
    n == 0 || (0 < n && 0 <= at && at + n <= len)
  }

  /** The cells that scrolling rows top up to end of the screen up by lines reads and writes: the
      rows that stay, moved, and the rows that enter, filled. */
  predicate UpInside(x: nat, y: nat, maxY: nat, top: nat, end: nat, lines: nat) {
    var (screen, len) := (maxY * x - y * x, maxY * x);
    var (t, s, b) := (x * top, x * lines, x * end);
    Inside(screen + t, b - s - t, len) && Inside(screen + t + s, b - s - t, len) && Inside(screen + b - s, s, len)
  }

  predicate DownInside(x: nat, y: nat, maxY: nat, top: nat, end: nat, lines: nat) {
    var (screen, len) := (maxY * x - y * x, maxY * x);
    var (t, s, b) := (x * top, x * lines, x * end);
    Inside(screen + t + s, b - t - s, len) && Inside(screen + t, b - t - s, len) && Inside(screen + t, s, len)
  }

  lemma Positive(x: nat, d: nat)
    requires x > 0 && d > 0
    ensures x * d > 0
  {
  }

  lemma Distribute(x: nat, m: int, n: int)
    ensures x * n - x * m == x * (n - m)
  {
  }

  lemma Scaled(x: nat, m: int, n: int)
    requires x > 0
    ensures x * m <= x * n <==> m <= n
    ensures x * m == x * n <==> m == n
  {
    Distribute(x, m, n);
    Distribute(x, n, m);
    if m < n {
      Positive(x, n - m);
    } else if n < m {
      Positive(x, m - n);
    }
  }

  lemma Products(x: nat, y: nat, maxY: nat, top: nat, end: nat, lines: nat)
    requires y <= maxY
    ensures x * (top + lines) == x * top + x * lines && y * x == x * y <= maxY * x
    ensures x == 0 ==> x * top == x * lines == x * end == 0
  {
    MulLess(y, maxY, x);
  }

  /** Exactly these regions stay inside: those on the screen that are no shorter than the scroll,
      and the empty region scrolled by nothing, wherever it lies. */
  lemma ScrollInside(x: nat, y: nat, maxY: nat, top: nat, end: nat, lines: nat)
    requires y <= maxY
    ensures UpInside(x, y, maxY, top, end, lines) <==>
            x == 0 || (top + lines <= end && (end <= y || (lines == 0 && top == end)))
    ensures DownInside(x, y, maxY, top, end, lines) <==> UpInside(x, y, maxY, top, end, lines)
  {
    Products(x, y, maxY, top, end, lines);
    if x > 0 {
      Scaled(x, top + lines, end);
      Scaled(x, end, y);
      Scaled(x, lines, 0);
      Scaled(x, top, end);
    }
  }

  /** A region scroll is refused when it reaches past the rows of the whole buffer. */
  predicate RegionRefused(maxY: nat, top: nat, end: nat, lines: nat) {
    end > maxY || top + lines >= maxY
  }

  /** The source's test is no such condition: of 25 rows with 25 more of history, it lets rows 10
      up to 40 of the screen be scrolled by one. */
  lemma AcceptedOutside(x: nat)
    requires x > 0
    ensures !RegionRefused(50, 10, 40, 1) && !UpInside(x, 25, 50, 10, 40, 1) && !DownInside(x, 25, 50, 10, 40, 1)
  {
    ScrollInside(x, 25, 50, 10, 40, 1);
  }

  /** With no history it is right about the end of a region, and short ones are all that is left. */
  lemma AcceptedWithoutHistory(x: nat, y: nat, top: nat, end: nat, lines: nat)
    requires x > 0 && !RegionRefused(y, top, end, lines)
    ensures UpInside(x, y, y, top, end, lines) <==> top + lines <= end
  {
    ScrollInside(x, y, y, top, end, lines);
  }

  // ----- The code -----

  class Console {
    const x: nat
    const y: nat
    const maxY: nat
    const buffer: array<Cell>

    ghost predicate Valid()
    {
      y <= maxY && buffer.Length == maxY * x
    }

    constructor (columns: nat, rows: nat, history: nat)
      requires rows <= history
      ensures Valid() && x == columns && y == rows && maxY == history && fresh(buffer)
    {
      x, y, maxY := columns, rows, history;
      buffer := new Cell[history * columns](_ => Cell(0, 0));
    }

    /** History and screen, row by row; the screen is the last y rows. */
    ghost function Grid(): seq<Row>
      requires Valid()
      reads buffer
    {
      Rows(buffer[..], x, maxY)
    }

    function Top(): nat
      requires Valid()
    {
      maxY - y
    }

    method MoveCells(dst: nat, src: nat, n: nat)
      requires dst + n <= buffer.Length && src + n <= buffer.Length
      modifies buffer
      ensures buffer[..] == Move(old(buffer[..]), dst, src, n)
    {
      forall i | 0 <= i < n {
        buffer[dst + i] := buffer[src + i];
      }
    }

    method FillCells(at: nat, n: nat, blank: Cell)
      requires at + n <= buffer.Length
      modifies buffer
      ensures buffer[..] == Fill(old(buffer[..]), at, n, blank)
    {
      var i := 0;
      while i < n
        invariant i <= n
        invariant forall j :: 0 <= j < buffer.Length ==> buffer[j] == if at <= j < at + i then blank else old(buffer[j])
      {
        buffer[at + i] := blank;
        i := i + 1;
      }
    }

    /** Scrolling the whole screen up takes the history along; a region scrolls by itself. */
    method ScrollUp(top: nat, bottom: nat, lines: nat, blank: Cell) returns (ok: bool)
      requires Valid()
      requires if top > 0 || bottom + 1 != y then InScreen(top, bottom, lines) else lines <= maxY
      modifies buffer
      ensures ok <==> !((top > 0 || bottom + 1 != y) && (bottom + 1 > maxY || top + lines >= maxY))
      ensures ok && (top > 0 || bottom + 1 != y) ==>
                Up(old(Grid()), Grid(), maxY - y + top, maxY - y + bottom + 1, lines, Blank(x, blank))
      ensures ok && top == 0 && bottom + 1 == y ==> Up(old(Grid()), Grid(), 0, maxY, lines, Blank(x, blank))
      ensures !ok ==> buffer[..] == old(buffer[..])
    {
      if Refused(top, bottom, lines) {
        return false;
      }
      if top > 0 || bottom + 1 != y {
        Shift(Top() + top, Top() + bottom + 1, lines, blank);
      } else {
        Shift(0, maxY, lines, blank);
      }
      return true;
    }

    method Shift(first: nat, end: nat, lines: nat, blank: Cell)
      requires Valid() && first + lines <= end <= maxY
      modifies buffer
      ensures Up(old(Grid()), Grid(), first, end, lines, Blank(x, blank))
    {
      MoveRowBlock(first, first + lines, end - lines - first);
      FillRowBlock(end - lines, lines, blank);
    }

    method MoveRowBlock(r: nat, q: nat, n: nat)
      requires Valid() && r + n <= maxY && q + n <= maxY
      modifies buffer
      ensures Grid() == Move(old(Grid()), r, q, n)
    {
      var dst, src, len := r * x, q * x, n * x;
      RowsMove(buffer[..], x, maxY, r, q, n, dst, src, len);
      MoveCells(dst, src, len);
    }

    method FillRowBlock(r: nat, n: nat, blank: Cell)
      requires Valid() && r + n <= maxY
      modifies buffer
      ensures Grid() == Fill(old(Grid()), r, n, Blank(x, blank))
    {
      var at, len := r * x, n * x;
      RowsFill(buffer[..], x, maxY, r, n, blank, at, len);
      FillCells(at, len, blank);
    }

    method ScrollDown(top: nat, bottom: nat, lines: nat, blank: Cell) returns (ok: bool)
      requires Valid()
      requires if top > 0 || bottom + 1 != y then InScreen(top, bottom, lines) else lines <= y
      modifies buffer
      ensures ok <==> !((top > 0 || bottom + 1 != y) && (bottom + 1 > maxY || top + lines >= maxY))
      ensures ok ==> Down(old(Grid()), Grid(), maxY - y + top, maxY - y + bottom + 1, lines, Blank(x, blank))
      ensures !ok ==> buffer[..] == old(buffer[..])
    {
      if Refused(top, bottom, lines) {
        return false;
      }
      ShiftDown(Top() + top, Top() + bottom + 1, lines, blank);
      return true;
    }

    method ShiftDown(first: nat, end: nat, lines: nat, blank: Cell)
      requires Valid() && first + lines <= end <= maxY
      modifies buffer
      ensures Down(old(Grid()), Grid(), first, end, lines, Blank(x, blank))
    {
      MoveRowBlock(first + lines, first, end - lines - first);
      FillRowBlock(first, lines, blank);
    }

    predicate Refused(top: nat, bottom: nat, lines: nat) {
      (top > 0 || bottom + 1 != y) && RegionRefused(maxY, top, bottom + 1, lines)
    }

    /** Rows on the screen, or rows so far off that the call is refused. */
    ghost predicate InScreen(top: nat, bottom: nat, lines: nat) {
      Refused(top, bottom, lines) || (top + lines <= bottom + 1 <= y)
    }

    method Clear(top: nat, left: nat, bottom: nat, right: nat, blank: Cell)
      requires Valid() && bottom < y && left <= right + 1 <= x
      modifies buffer
      ensures Cleared(old(Grid()), Grid(), x, maxY - y + top, maxY - y + bottom + 1, left, right + 1 - left, blank)
    {
      var t, m := top, right + 1 - left;
      while t <= bottom
        invariant top <= t && Cleared(old(Grid()), Grid(), x, Top() + top, Top() + t, left, m, blank)
        invariant t <= bottom + 1 || t == top
      {
        ClearedMore(old(Grid()), Grid(), x, Top() + top, Top() + t, left, m, blank);
        FillPart(Top() + t, left, m, blank);
        t := t + 1;
      }
    }

    method MovePart(r: nat, c: nat, q: nat, d: nat, n: nat)
      requires Valid() && r < maxY && q < maxY && c + n <= x && d + n <= x
      modifies buffer
      ensures Grid() == old(Grid())[r := Splice(old(Grid())[r], c, old(Grid())[q][d..d + n])]
    {
      var dst, src := r * x + c, q * x + d;
      RowMove(buffer[..], x, maxY, r, c, q, d, n, dst, src);
      MoveCells(dst, src, n);
    }

    method FillPart(r: nat, c: nat, n: nat, blank: Cell)
      requires Valid() && r < maxY && c + n <= x
      modifies buffer
      ensures Grid() == old(Grid())[r := Splice(old(Grid())[r], c, Blank(n, blank))]
    {
      var at := r * x + c;
      RowFill(buffer[..], x, maxY, r, c, n, blank, at);
      FillCells(at, n, blank);
    }

    method RowForward(r: nat, c: nat, q: nat, d: nat, m: nat, k: nat, ghost g: seq<Row>)
      requires Valid() && r < q && q + k < maxY && c + m <= x && d + m <= x
      requires Moved(g, Grid(), x, r, c, q, d, m, 0, k)
      modifies buffer
      ensures Moved(g, Grid(), x, r, c, q, d, m, 0, k + 1)
    {
      MovedDown(g, Grid(), x, r, c, q, d, m, k);
      MovePart(r + k, c, q + k, d, m);
    }

    method RowBackward(r: nat, c: nat, q: nat, d: nat, m: nat, k: nat, ghost rows: nat, ghost g: seq<Row>)
      requires Valid() && r >= q && k < rows && r + rows <= maxY && c + m <= x && d + m <= x
      requires Moved(g, Grid(), x, r, c, q, d, m, k + 1, rows)
      modifies buffer
      ensures Moved(g, Grid(), x, r, c, q, d, m, k, rows)
    {
      MovedUp(g, Grid(), x, r, c, q, d, m, k, rows);
      MovePart(r + k, c, q + k, d, m);
    }

    method MoveForward(r: nat, c: nat, q: nat, d: nat, m: nat, rows: nat)
      requires Valid() && r < q && q + rows <= maxY && c + m <= x && d + m <= x
      modifies buffer
      ensures Moved(old(Grid()), Grid(), x, r, c, q, d, m, 0, rows)
    {
      var k: nat := 0;
      ghost var g := Grid();
      while k < rows
        invariant k <= rows && Moved(g, Grid(), x, r, c, q, d, m, 0, k)
      {
        RowForward(r, c, q, d, m, k, g);
        k := k + 1;
      }
    }

    method MoveBackward(r: nat, c: nat, q: nat, d: nat, m: nat, rows: nat)
      requires Valid() && r >= q && r + rows <= maxY && c + m <= x && d + m <= x
      modifies buffer
      ensures Moved(old(Grid()), Grid(), x, r, c, q, d, m, 0, rows)
    {
      var k: nat := rows;
      ghost var g := Grid();
      while k > 0
        invariant k <= rows && Moved(g, Grid(), x, r, c, q, d, m, k, rows)
      {
        k := k - 1;
        RowBackward(r, c, q, d, m, k, rows, g);
      }
    }

    /** Moves a rectangle: row by row from the side that is not overwritten first. */
    method BlockMove(row: nat, column: nat, top: nat, left: nat, bottom: nat, right: nat)
      requires Valid() && top <= bottom < y && left <= right < x
      requires row + (bottom - top) < y && column + (right - left) < x
      modifies buffer
      ensures Moved(old(Grid()), Grid(), x, maxY - y + row, column, maxY - y + top, left, right + 1 - left, 0,
              bottom + 1 - top)
    {
      if row < top {
        MoveForward(Top() + row, column, Top() + top, left, right + 1 - left, bottom + 1 - top);
      } else {
        MoveBackward(Top() + row, column, Top() + top, left, right + 1 - left, bottom + 1 - top);
      }
    }
  }
}
