/**
 * Square matrices stored as one flat, row-major buffer (src/matrix.rs).
 * Entry (r, c) of a matrix of dimension dim lives at flat slot c + r * dim.
 */
module Matrix {
  import opened Text

  /** Flat slot of entry (r, c) in a row-major buffer of width n. */
  function Offset(n: nat, r: nat, c: nat): nat
  {
    c + r * n
  }

  lemma {:induction false} MulMono(a: nat, b: nat, n: nat)
    ensures a <= b ==> a * n <= b * n
  {
    if n > 0 {
      MulMono(a, b, n - 1);
      assert a * n == a * (n - 1) + a;
      assert b * n == b * (n - 1) + b;
    }
  }

  /** Every in-range entry has a slot inside the buffer. */
  lemma OffsetBound(n: nat, r: nat, c: nat)
    requires r < n && c < n
    ensures Offset(n, r, c) < n * n
    ensures Offset(n, r, 0) + n <= n * n
  {
    MulMono(r + 1, n, n);
    assert (r + 1) * n == r * n + n;
  }

  /**
   * Where row m starts in the flat buffer, counted by adding one row length at a time.
   * It equals Offset(n, m, 0) (RowStartIs); the recursive form lets proofs about rows
   * step from row m - 1 to row m without nonlinear arithmetic.
   */
  function RowStart(n: nat, m: nat): nat
  {
    if m == 0 then 0 else RowStart(n, m - 1) + n
  }

  lemma {:induction false} RowStartIs(n: nat, m: nat)
    ensures RowStart(n, m) == Offset(n, m, 0)
  {
    if m > 0 {
      RowStartIs(n, m - 1);
      assert m * n == (m - 1) * n + n;
    }
  }

  /** A slot determines its entry: row and column are recovered by division and remainder. */
  lemma OffsetSplit(n: nat, r: nat, c: nat)
    requires c < n
    ensures Offset(n, r, c) / n == r && Offset(n, r, c) % n == c
  {
    var k := c + r * n;
    var q, m := k / n, k % n;
    assert k == q * n + m;
    MulMono(q, r, n);
    MulMono(r + 1, q, n);
    MulMono(q + 1, r, n);
    assert (r + 1) * n == r * n + n;
    assert (q + 1) * n == q * n + n;
  }

  /** Every slot of the buffer is the slot of exactly the entry (k / n, k % n). */
  lemma FlatSplit(n: nat, k: nat)
    requires k < n * n
    ensures k / n < n && k % n < n && Offset(n, k / n, k % n) == k
  {
    MulMono(n, k / n, n);
  }

  /** Distinct entries occupy distinct slots. */
  lemma OffsetInjective(n: nat, r: nat, c: nat, r': nat, c': nat)
    requires c < n && c' < n
    ensures Offset(n, r, c) == Offset(n, r', c') <==> r == r' && c == c'
  {
    OffsetSplit(n, r, c);
    OffsetSplit(n, r', c');
  }

  /** Slicing a flat buffer into consecutive pieces of length n; the last piece may be shorter (slice::chunks). */
  function Chunks<T>(s: seq<T>, n: nat): (pieces: seq<seq<T>>)
    requires n > 0
    ensures forall k :: 0 <= k < |pieces| ==> 0 < |pieces[k]| <= n
    decreases |s|
  {
    if s == [] then []
    else if |s| <= n then [s]
    else [s[..n]] + Chunks(s[n..], n)
  }

  function Concat<T>(ss: seq<seq<T>>): seq<T>
  {
    if ss == [] then [] else ss[0] + Concat(ss[1..])
  }

  /** Chunking loses and reorders nothing: concatenating the pieces gives the buffer back. */
  lemma {:induction false} ChunksConcat<T>(s: seq<T>, n: nat)
    requires n > 0
    ensures Concat(Chunks(s, n)) == s
    decreases |s|
  {
    if s != [] && |s| > n {
      ChunksConcat(s[n..], n);
      assert s == s[..n] + s[n..];
    }
  }

  /** Chunking a buffer of m * n elements gives m pieces, piece r being slots r * n up to r * n + n. */
  lemma ChunksOfSquare<T>(s: seq<T>, n: nat, m: nat)
    requires n > 0 && |s| == m * n
    ensures |Chunks(s, n)| == m
    ensures forall r :: 0 <= r < m ==> r * n + n <= |s| && Chunks(s, n)[r] == s[r * n .. r * n + n]
  {
    ChunksCount(s, n, m);
    forall r | 0 <= r < m
      ensures r * n + n <= |s| && Chunks(s, n)[r] == s[r * n .. r * n + n]
    {
      MulMono(r + 1, m, n);
      RowStartIs(n, r);
      ChunkIs(s, n, r);
    }
  }

  /** A buffer of m * n elements is cut into m pieces. */
  lemma {:induction false} ChunksCount<T>(s: seq<T>, n: nat, m: nat)
    requires n > 0 && |s| == m * n
    ensures |Chunks(s, n)| == m
    decreases m
  {
    if m > 1 {
      assert |s[n..]| == (m - 1) * n;
      ChunksCount(s[n..], n, m - 1);
    }
  }

  /** Piece r starts at slot RowStart(n, r) and, when n slots remain there, holds exactly those. */
  lemma {:induction false} ChunkIs<T>(s: seq<T>, n: nat, r: nat)
    requires n > 0 && RowStart(n, r) + n <= |s|
    ensures r < |Chunks(s, n)| && Chunks(s, n)[r] == s[RowStart(n, r) .. RowStart(n, r) + n]
    decreases r
  {
    if r > 0 {
      ChunkIs(s[n..], n, r - 1);
      assert Chunks(s, n) == [s[..n]] + Chunks(s[n..], n);
    }
  }

  /** Text of one row: every entry followed by a single space, then a line break. */
  function RenderRow<T>(row: seq<T>, show: T -> string): string
  {
    if row == [] then "\n" else show(row[0]) + " " + RenderRow(row[1..], show)
  }

  function RenderRows<T>(rows: seq<seq<T>>, show: T -> string): string
  {
    if rows == [] then "" else RenderRow(rows[0], show) + RenderRows(rows[1..], show)
  }

  /** A rendered row holds exactly one line break, at its end, when no entry renders one. */
  lemma {:induction false} RenderRowOneBreak<T>(row: seq<T>, show: T -> string)
    requires forall k :: 0 <= k < |row| ==> CountChar(show(row[k]), '\n') == 0
    ensures CountChar(RenderRow(row, show), '\n') == 1
  {
    if row != [] {
      RenderRowOneBreak(row[1..], show);
      CountCharConcat(show(row[0]), " ", '\n');
      CountCharConcat(show(row[0]) + " ", RenderRow(row[1..], show), '\n');
    }
  }

  lemma {:induction false} RenderRowsBreaks<T>(rows: seq<seq<T>>, show: T -> string)
    requires forall r, k :: 0 <= r < |rows| && 0 <= k < |rows[r]| ==> CountChar(show(rows[r][k]), '\n') == 0
    ensures CountChar(RenderRows(rows, show), '\n') == |rows|
  {
    if rows != [] {
      RenderRowOneBreak(rows[0], show);
      RenderRowsBreaks(rows[1..], show);
      CountCharConcat(RenderRow(rows[0], show), RenderRows(rows[1..], show), '\n');
    }
  }

  /** A square matrix of dimension dim backed by a flat buffer of dim * dim entries. */
  class SqMat<T> {
    const dim: nat
    const inner: array<T>

    predicate Valid()
    {
      inner.Length == dim * dim
    }

    /** The buffer's contents in flat (row-major) order. */
    function Cells(): seq<T>
      reads inner
    {
      inner[..]
    }

    /** SqMat::new: every entry is the element type's default value, given here as zero. */
    constructor New(dim: nat, zero: T)
      ensures Valid() && fresh(inner) && this.dim == dim
      ensures Cells() == seq(dim * dim, _ => zero)
      ensures forall r, c :: 0 <= r < dim && 0 <= c < dim ==> Get(r, c) == zero
    {
      this.dim := dim;
      inner := new T[dim * dim](_ => zero);
      new;
      forall r, c | 0 <= r < dim && 0 <= c < dim ensures Get(r, c) == zero {
        OffsetBound(dim, r, c);
      }
    }

    /** SqMat::from_vec: the buffer is a copy of v, which must hold dim * dim entries. */
    constructor FromVec(dim: nat, v: seq<T>)
      requires |v| == dim * dim
      ensures Valid() && fresh(inner) && this.dim == dim
      ensures Cells() == v
      ensures forall r, c :: 0 <= r < dim && 0 <= c < dim ==> Offset(dim, r, c) < |v| && Get(r, c) == v[c + r * dim]
    {
      this.dim := dim;
      inner := new T[dim * dim](k requires 0 <= k < dim * dim => v[k]);
      new;
      forall r, c | 0 <= r < dim && 0 <= c < dim
        ensures Offset(dim, r, c) < |v| && Get(r, c) == v[c + r * dim]
      {
        OffsetBound(dim, r, c);
      }
    }

    /** Index<(usize, usize)>: entry (r, c). */
    function Get(r: nat, c: nat): T
      reads inner
      requires Valid() && r < dim && c < dim
    {
      OffsetBound(dim, r, c);
      inner[Offset(dim, r, c)]
    }

    /** Slot k of the buffer holds entry (k / dim, k % dim). */
    lemma CellAt(k: nat)
      requires Valid() && k < dim * dim
      ensures k / dim < dim && k % dim < dim && Cells()[k] == Get(k / dim, k % dim)
    {
      FlatSplit(dim, k);
    }

    /** IndexMut<(usize, usize)>: writing entry (r, c) changes flat slot c + r * dim and nothing else. */
    method Set(r: nat, c: nat, x: T)
      requires Valid() && r < dim && c < dim
      modifies inner
      ensures Offset(dim, r, c) < dim * dim
      ensures Cells() == old(Cells())[Offset(dim, r, c) := x]
      ensures Get(r, c) == x
      ensures forall r', c' :: 0 <= r' < dim && 0 <= c' < dim && (r' != r || c' != c) ==> Get(r', c') == old(Get(r', c'))
    {
      OffsetBound(dim, r, c);
      inner[c + r * dim] := x;
      forall r', c' | 0 <= r' < dim && 0 <= c' < dim && (r' != r || c' != c)
        ensures Get(r', c') == old(Get(r', c'))
      {
        OffsetInjective(dim, r, c, r', c');
        OffsetBound(dim, r', c');
      }
    }

    /** row(r): the entries (r, 0), ..., (r, dim - 1). */
    function Row(r: nat): (s: seq<T>)
      reads inner
      requires Valid() && r < dim
      ensures |s| == dim && forall c :: 0 <= c < dim ==> s[c] == Get(r, c)
    {
      seq(dim, c requires 0 <= c < dim reads inner => Get(r, c))
    }

    /** col(c): the entries (0, c), ..., (dim - 1, c). */
    function Col(c: nat): (s: seq<T>)
      reads inner
      requires Valid() && c < dim
      ensures |s| == dim && forall r :: 0 <= r < dim ==> s[r] == Get(r, c)
    {
      seq(dim, r requires 0 <= r < dim reads inner => Get(r, c))
    }

    /** Index<usize>: the flat slice of row r, which holds the same entries as row(r). */
    function RowSlice(r: nat): (s: seq<T>)
      reads inner
      requires Valid() && r < dim
      ensures s == Row(r)
    {
      RowSliceIsRow(r);
      inner[r * dim .. r * dim + dim]
    }

    lemma RowSliceIsRow(r: nat)
      requires Valid() && r < dim
      ensures r * dim + dim <= inner.Length
      ensures inner[r * dim .. r * dim + dim] == Row(r)
    {
      OffsetBound(dim, r, 0);
      forall c | 0 <= c < dim ensures inner[r * dim .. r * dim + dim][c] == Get(r, c) {
        OffsetBound(dim, r, c);
      }
    }

    /** rows(): the buffer cut into chunks of dim entries (slice::chunks, which panics on width 0). */
    function Rows(): (rs: seq<seq<T>>)
      reads inner
      requires Valid() && dim > 0
      ensures |rs| == dim && forall r :: 0 <= r < dim ==> rs[r] == Row(r)
      ensures Concat(rs) == Cells()
    {
      ChunksAreRows();
      Chunks(inner[..], dim)
    }

    lemma ChunksAreRows()
      requires Valid() && dim > 0
      ensures |Chunks(inner[..], dim)| == dim
      ensures forall r :: 0 <= r < dim ==> Chunks(inner[..], dim)[r] == Row(r)
      ensures Concat(Chunks(inner[..], dim)) == Cells()
    {
      ChunksOfSquare(inner[..], dim, dim);
      ChunksConcat(inner[..], dim);
      forall r | 0 <= r < dim ensures Chunks(inner[..], dim)[r] == Row(r) {
        RowSliceIsRow(r);
      }
    }

    /**
     * fill_with(f): overwrite every entry in flat order.  The closure f is called once per
     * entry; f(k) stands for the value its k-th call returns.
     */
    method FillWith(f: nat -> T)
      requires Valid()
      modifies inner
      ensures Cells() == seq(dim * dim, k requires 0 <= k => f(k))
    {
      var k := 0;
      while k < inner.Length
        invariant 0 <= k <= inner.Length
        invariant forall j :: 0 <= j < k ==> inner[j] == f(j)
      {
        inner[k] := f(k);
        k := k + 1;
      }
    }

    /** map(f): a new matrix of the same dimension whose entry (i, j) is f of entry (i, j). */
    method Map<S>(f: T -> S, zero: S) returns (res: SqMat<S>)
      requires Valid()
      ensures fresh(res.inner) && res.Valid() && res.dim == dim
      ensures forall i, j :: 0 <= i < dim && 0 <= j < dim ==> res.Get(i, j) == f(Get(i, j))
    {
      res := new SqMat.New(dim, zero);
      for i := 0 to dim
        invariant res.Valid() && res.dim == dim
        invariant forall i', j :: 0 <= i' < i && 0 <= j < dim ==> res.Get(i', j) == f(Get(i', j))
      {
        for j := 0 to dim
          invariant res.Valid() && res.dim == dim
          invariant forall i', j' :: 0 <= i' < i && 0 <= j' < dim ==> res.Get(i', j') == f(Get(i', j'))
          invariant forall j' :: 0 <= j' < j ==> res.Get(i, j') == f(Get(i, j'))
        {
          res.Set(i, j, f(Get(i, j)));
        }
      }
    }

    /** Display: one line per row, every entry followed by a single space. */
    function ToString(show: T -> string): (text: string)
      reads inner
      requires Valid() && dim > 0
    {
      RenderRows(Rows(), show)
    }

    /** The rendered text has exactly dim line breaks when no entry's text holds one. */
    lemma ToStringLines(show: T -> string)
      requires Valid() && dim > 0
      requires forall k :: 0 <= k < inner.Length ==> CountChar(show(inner[k]), '\n') == 0
      ensures CountChar(ToString(show), '\n') == dim
    {
      var rs := Rows();
      forall r, k | 0 <= r < |rs| && 0 <= k < |rs[r]| ensures CountChar(show(rs[r][k]), '\n') == 0 {
        OffsetBound(dim, r, k);
        assert rs[r][k] == inner[Offset(dim, r, k)];
      }
      RenderRowsBreaks(rs, show);
    }
  }
}
