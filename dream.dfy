/**
 * Ordinary pipe dreams and the mitosis operators that enumerate the reduced pipe dreams of a
 * permutation (src/dream.rs).  A dream is an n x n grid of tiles, kept as the dimension and the
 * flat row-major cells of its SqMat; the operations that build dreams do so in an SqMat and
 * return a snapshot of its cells.
 */
module PipeDream {
  import opened Matrix
  import opened Permutation

  datatype Tile = Elbow | Cross

  /** Tile::default(). */
  const DefaultTile: Tile := Elbow

  datatype Dream = Dream(dim: nat, cells: seq<Tile>) {

    predicate Valid()
    {
      |cells| == dim * dim
    }

    /** Index<(usize, usize)>: tile (r, c). */
    function At(r: nat, c: nat): (t: Tile)
      requires Valid() && r < dim && c < dim
      ensures Offset(dim, r, c) < |cells|
    {
      OffsetBound(dim, r, c);
      cells[Offset(dim, r, c)]
    }
  }

  /** Dream::from_vec: the source panics unless v holds dim * dim tiles. */
  function FromVec(dim: nat, v: seq<Tile>): (d: Dream)
    requires |v| == dim * dim
    ensures d.Valid() && d.dim == dim
  {
    Dream(dim, v)
  }

  /** 1 for a cross, 0 for an elbow. */
  function Weight(t: Tile): nat
  {
    if t == Cross then 1 else 0
  }

  /** The number of crosses among the tiles. */
  function CountCross(s: seq<Tile>): (k: nat)
    ensures k <= |s|
  {
    if s == [] then 0 else CountCross(s[..|s| - 1]) + Weight(s[|s| - 1])
  }

  /** CountCross counts the crosses: it is the multiplicity of Cross in the tiles. */
  lemma {:induction false} CountCrossMultiplicity(s: seq<Tile>)
    ensures CountCross(s) == multiset(s)[Cross]
  {
    if s != [] {
      CountCrossMultiplicity(s[..|s| - 1]);
      assert s == s[..|s| - 1] + [s[|s| - 1]];
    }
  }

  function Crosses(d: Dream): nat
  {
    CountCross(d.cells)
  }

  lemma {:induction false} CountConcat(a: seq<Tile>, b: seq<Tile>)
    ensures CountCross(a + b) == CountCross(a) + CountCross(b)
    decreases |b|
  {
    if b == [] {
      assert a + b == a;
    } else {
      CountConcat(a, b[..|b| - 1]);
      assert (a + b)[..|a + b| - 1] == a + b[..|b| - 1];
    }
  }

  /** Overwriting one tile changes the count by the difference of the two tiles' weights. */
  lemma CountUpdate(s: seq<Tile>, k: nat, x: Tile)
    requires k < |s|
    ensures CountCross(s[k := x]) + Weight(s[k]) == CountCross(s) + Weight(x)
  {
    assert s == s[..k] + [s[k]] + s[k + 1..];
    assert s[k := x] == s[..k] + [x] + s[k + 1..];
    CountConcat(s[..k] + [s[k]], s[k + 1..]);
    CountConcat(s[..k], [s[k]]);
    CountConcat(s[..k] + [x], s[k + 1..]);
    CountConcat(s[..k], [x]);
    assert CountCross([x]) == Weight(x) by { assert [x][..0] == []; }
    assert CountCross([s[k]]) == Weight(s[k]) by { assert [s[k]][..0] == []; }
  }

  /** The first column j >= from of row i holding an elbow, or dim when there is none. */
  function StartFrom(d: Dream, i: nat, from: nat): (s: nat)
    requires d.Valid() && i < d.dim
    ensures from <= d.dim ==> from <= s <= d.dim
    ensures forall j :: from <= j < s && j < d.dim ==> d.At(i, j) == Cross
    ensures s < d.dim ==> d.At(i, s) == Elbow
    decreases d.dim - from
  {
    if from >= d.dim then d.dim
    else if d.At(i, from) == Elbow then from
    else assert d.At(i, from) == Cross; StartFrom(d, i, from + 1)
  }

  /**
   * start(i): the least column of an elbow in row i, or dim when the row has none.  So every
   * tile of row i left of it is a cross.
   */
  function Start(d: Dream, i: nat): (s: nat)
    requires d.Valid() && i < d.dim
    ensures s <= d.dim
    ensures forall j :: 0 <= j < s ==> d.At(i, j) == Cross
    ensures s < d.dim ==> d.At(i, s) == Elbow
  {
    StartFrom(d, i, 0)
  }

  /** Column p is one mitosis acts on: left of start(i), above a tile of row i + 1 that is not a cross. */
  predicate IsCandidate(d: Dream, i: nat, p: nat)
    requires d.Valid() && i + 1 < d.dim && p < d.dim
  {
    p < Start(d, i) && d.At(i + 1, p) != Cross
  }

  /** The candidate columns below hi, in increasing order. */
  function CandidatesBelow(d: Dream, i: nat, hi: nat): (ps: seq<nat>)
    requires d.Valid() && i + 1 < d.dim && hi <= d.dim
    ensures forall k :: 0 <= k < |ps| ==> ps[k] < hi && IsCandidate(d, i, ps[k])
    ensures forall p :: 0 <= p < hi && IsCandidate(d, i, p) ==> p in ps
    ensures forall a, b :: 0 <= a < b < |ps| ==> ps[a] < ps[b]
  {
    if hi == 0 then []
    else CandidatesBelow(d, i, hi - 1) + (if IsCandidate(d, i, hi - 1) then [hi - 1] else [])
  }

  /** Column c of rows i and i + 1 holds (Cross, Elbow): the ladder move applies there. */
  predicate Rung(d: Dream, i: nat, c: nat)
    requires d.Valid() && i + 1 < d.dim && c < d.dim
  {
    d.At(i, c) == Cross && d.At(i + 1, c) == Elbow
  }

  /**
   * The tiles of the child for column p, after clearing (i, p) and running the ladder pass over
   * columns 0, ..., j - 1, in the order the source runs it: step j reads and writes tiles
   * (i, j) and (i + 1, j) of the grid produced so far.
   */
  function Ladder(d: Dream, i: nat, p: nat, j: nat): (t: seq<Tile>)
    requires d.Valid() && i + 1 < d.dim && p < d.dim && j <= p
    ensures |t| == |d.cells|
  {
    var n := d.dim;
    OffsetBound(n, i, p);
    if j == 0 then d.cells[Offset(n, i, p) := Elbow]
    else
      var t := Ladder(d, i, p, j - 1);
      OffsetBound(n, i, j - 1);
      OffsetBound(n, i + 1, j - 1);
      if t[Offset(n, i, j - 1)] == Cross && t[Offset(n, i + 1, j - 1)] == Elbow
      then t[Offset(n, i, j - 1) := Elbow][Offset(n, i + 1, j - 1) := Cross]
      else t
  }

  /** One child of mitosis: the parent with (i, p) cleared and the full ladder pass applied. */
  function Child(d: Dream, i: nat, p: nat): (c: Dream)
    requires d.Valid() && i + 1 < d.dim && p < d.dim
    ensures c.Valid() && c.dim == d.dim
  {
    Dream(d.dim, Ladder(d, i, p, p))
  }

  /**
   * The tile (r, c) after the ladder pass has run over the columns below lim, described one
   * column at a time: each column depends only on the same column of the parent.
   */
  function ColumnTile(d: Dream, i: nat, p: nat, lim: nat, r: nat, c: nat): Tile
    requires d.Valid() && i + 1 < d.dim && r < d.dim && c < d.dim
  {
    if r == i && c == p then Elbow
    else if c < lim && c != p && (r == i || r == i + 1) && Rung(d, i, c) then (if r == i then Elbow else Cross)
    else d.At(r, c)
  }

  /**
   * The ladder pass touches column j only at step j, so the order of the steps does not
   * matter: after j steps every tile is the column-wise description.
   */
  lemma LadderColumnwise(d: Dream, i: nat, p: nat, j: nat, r: nat, c: nat)
    requires d.Valid() && i + 1 < d.dim && p < d.dim && j <= p && r < d.dim && c < d.dim
    ensures Offset(d.dim, r, c) < |d.cells|
    ensures Ladder(d, i, p, j)[Offset(d.dim, r, c)] == ColumnTile(d, i, p, j, r, c)
  {
    var n := d.dim;
    OffsetBound(n, r, c);
    if j > 0 {
      var q := j - 1;
      LadderColumnwise(d, i, p, q, r, c);
      LadderColumnwise(d, i, p, q, i, q);
      LadderColumnwise(d, i, p, q, i + 1, q);
      ColumnStep(d, i, p, j, r, c);
    } else {
      OffsetInjective(n, r, c, i, p);
    }
  }

  /** Step j - 1 of the ladder pass keeps the column-wise description of tile (r, c). */
  lemma ColumnStep(d: Dream, i: nat, p: nat, j: nat, r: nat, c: nat)
    requires d.Valid() && i + 1 < d.dim && p < d.dim && 0 < j <= p && r < d.dim && c < d.dim
    requires Offset(d.dim, r, c) < |d.cells| && Offset(d.dim, i, j - 1) < |d.cells| && Offset(d.dim, i + 1, j - 1) < |d.cells|
    requires Ladder(d, i, p, j - 1)[Offset(d.dim, r, c)] == ColumnTile(d, i, p, j - 1, r, c)
    requires Ladder(d, i, p, j - 1)[Offset(d.dim, i, j - 1)] == ColumnTile(d, i, p, j - 1, i, j - 1)
    requires Ladder(d, i, p, j - 1)[Offset(d.dim, i + 1, j - 1)] == ColumnTile(d, i, p, j - 1, i + 1, j - 1)
    ensures Ladder(d, i, p, j)[Offset(d.dim, r, c)] == ColumnTile(d, i, p, j, r, c)
  {
    var n, q := d.dim, j - 1;
    OffsetInjective(n, r, c, i, p);
    OffsetInjective(n, r, c, i, q);
    OffsetInjective(n, r, c, i + 1, q);
    OffsetInjective(n, i, q, i + 1, q);
  }

  /** Tile (r, c) of the child for p, described column by column. */
  lemma ChildAt(d: Dream, i: nat, p: nat, r: nat, c: nat)
    requires d.Valid() && i + 1 < d.dim && p < d.dim && r < d.dim && c < d.dim
    ensures Child(d, i, p).At(r, c) == ColumnTile(d, i, p, p, r, c)
  {
    LadderColumnwise(d, i, p, p, r, c);
  }

  /**
   * The shape of the child for a candidate column p: rows other than i and i + 1 and columns
   * right of p are the parent's; (i, p) is an elbow; left of p every (Cross, Elbow) pair of
   * rows i and i + 1 becomes (Elbow, Cross) and every other pair is kept, so that row i + 1 is
   * all crosses left of p.
   */
  lemma ChildShape(d: Dream, i: nat, p: nat)
    requires d.Valid() && i + 1 < d.dim && p < d.dim && IsCandidate(d, i, p)
    ensures Child(d, i, p).Valid() && Child(d, i, p).dim == d.dim
    ensures forall r, c :: 0 <= r < d.dim && 0 <= c < d.dim && r != i && r != i + 1 ==> Child(d, i, p).At(r, c) == d.At(r, c)
    ensures forall r, c :: 0 <= r < d.dim && p < c < d.dim ==> Child(d, i, p).At(r, c) == d.At(r, c)
    ensures Child(d, i, p).At(i, p) == Elbow && Child(d, i, p).At(i + 1, p) == d.At(i + 1, p)
    ensures forall c :: 0 <= c < p && Rung(d, i, c) ==> Child(d, i, p).At(i, c) == Elbow && Child(d, i, p).At(i + 1, c) == Cross
    ensures forall c :: 0 <= c < p && !Rung(d, i, c) ==> Child(d, i, p).At(i, c) == d.At(i, c) && Child(d, i, p).At(i + 1, c) == d.At(i + 1, c)
    ensures forall c :: 0 <= c < p ==> d.At(i, c) == Cross && Child(d, i, p).At(i + 1, c) == Cross
  {
    forall r, c | 0 <= r < d.dim && 0 <= c < d.dim ensures Child(d, i, p).At(r, c) == ColumnTile(d, i, p, p, r, c) {
      ChildAt(d, i, p, r, c);
    }
  }

  /** Clearing (i, p) removes one cross and each ladder move keeps the number of crosses. */
  lemma LadderCrosses(d: Dream, i: nat, p: nat, j: nat)
    requires d.Valid() && i + 1 < d.dim && p < d.dim && j <= p && IsCandidate(d, i, p)
    ensures CountCross(Ladder(d, i, p, j)) + 1 == Crosses(d)
  {
    if j == 0 {
      var n := d.dim;
      OffsetBound(n, i, p);
      assert d.cells[Offset(n, i, p)] == d.At(i, p) == Cross;
      CountUpdate(d.cells, Offset(n, i, p), Elbow);
    } else {
      LadderCrosses(d, i, p, j - 1);
      LadderMoveCrosses(d, i, p, j);
    }
  }

  /** Ladder step j - 1 moves a cross from row i to row i + 1 or changes nothing. */
  lemma LadderMoveCrosses(d: Dream, i: nat, p: nat, j: nat)
    requires d.Valid() && i + 1 < d.dim && p < d.dim && 0 < j <= p
    ensures CountCross(Ladder(d, i, p, j)) == CountCross(Ladder(d, i, p, j - 1))
  {
    var n, q := d.dim, j - 1;
    var t := Ladder(d, i, p, q);
    OffsetBound(n, i, q);
    OffsetBound(n, i + 1, q);
    var a, b := Offset(n, i, q), Offset(n, i + 1, q);
    if t[a] == Cross && t[b] == Elbow {
      OffsetInjective(n, i, q, i + 1, q);
      CountUpdate(t, a, Elbow);
      CountUpdate(t[a := Elbow], b, Cross);
    }
  }

  /** Every child has exactly one cross fewer than its parent. */
  lemma ChildCrosses(d: Dream, i: nat, p: nat)
    requires d.Valid() && i + 1 < d.dim && p < d.dim && IsCandidate(d, i, p)
    ensures Crosses(Child(d, i, p)) + 1 == Crosses(d)
  {
    LadderCrosses(d, i, p, p);
  }

  /** mitosis(i) as a value: the child of every candidate column, in increasing column order. */
  function Offspring(d: Dream, i: nat): (kids: seq<Dream>)
    requires d.Valid() && i + 1 < d.dim
  {
    var ps := CandidatesBelow(d, i, d.dim);
    seq(|ps|, k requires 0 <= k < |ps| => Child(d, i, ps[k]))
  }

  predicate AllDim(ds: seq<Dream>, n: nat)
  {
    forall k :: 0 <= k < |ds| ==> ds[k].Valid() && ds[k].dim == n
  }

  /**
   * The offspring are the children of exactly the candidate columns, in increasing order;
   * each has the parent's dimension and one cross fewer.
   */
  lemma OffspringSpec(d: Dream, i: nat)
    requires d.Valid() && i + 1 < d.dim
    ensures AllDim(Offspring(d, i), d.dim)
    ensures forall k :: 0 <= k < |Offspring(d, i)| ==> Crosses(Offspring(d, i)[k]) + 1 == Crosses(d)
    ensures forall p :: 0 <= p < d.dim ==> (IsCandidate(d, i, p) <==> exists k :: 0 <= k < |Offspring(d, i)| && Offspring(d, i)[k] == Child(d, i, p) && CandidatesBelow(d, i, d.dim)[k] == p)
  {
    forall k | 0 <= k < |Offspring(d, i)| ensures Crosses(Offspring(d, i)[k]) + 1 == Crosses(d) {
      OffspringAt(d, i, k);
    }
    forall p | 0 <= p < d.dim
      ensures IsCandidate(d, i, p) <==> exists k :: 0 <= k < |Offspring(d, i)| && Offspring(d, i)[k] == Child(d, i, p) && CandidatesBelow(d, i, d.dim)[k] == p
    {
      CandidateOffspring(d, i, p);
    }
  }

  /** The k-th offspring is the child of the k-th candidate column and has one cross fewer. */
  lemma OffspringAt(d: Dream, i: nat, k: nat)
    requires d.Valid() && i + 1 < d.dim && k < |Offspring(d, i)|
    ensures |CandidatesBelow(d, i, d.dim)| == |Offspring(d, i)|
    ensures Offspring(d, i)[k] == Child(d, i, CandidatesBelow(d, i, d.dim)[k])
    ensures Crosses(Offspring(d, i)[k]) + 1 == Crosses(d)
  {
    ChildCrosses(d, i, CandidatesBelow(d, i, d.dim)[k]);
  }

  /** Column p is a candidate exactly when some offspring is its child, listed at p's place among the candidates. */
  lemma CandidateOffspring(d: Dream, i: nat, p: nat)
    requires d.Valid() && i + 1 < d.dim && p < d.dim
    ensures IsCandidate(d, i, p) <==> exists k :: 0 <= k < |Offspring(d, i)| && Offspring(d, i)[k] == Child(d, i, p) && CandidatesBelow(d, i, d.dim)[k] == p
  {
    var ps := CandidatesBelow(d, i, d.dim);
    if IsCandidate(d, i, p) {
      var k :| 0 <= k < |ps| && ps[k] == p;
      OffspringAt(d, i, k);
    }
  }

  /** Builds the child for column p the way the source does: clone the tiles, clear (i, p), run the ladder. */
  method BuildChild(d: Dream, i: nat, p: nat) returns (child: Dream)
    requires d.Valid() && i + 1 < d.dim && p < d.dim
    ensures child == Child(d, i, p)
  {
    var n := d.dim;
    var tiles := new SqMat.FromVec(n, d.cells);
    tiles.Set(i, p, Elbow);
    LadderPass(tiles, d, i, p);
    child := Dream(n, tiles.Cells());
  }

  /** The ladder loop of mitosis over the columns left of p, on the cloned tiles. */
  method LadderPass(tiles: SqMat<Tile>, d: Dream, i: nat, p: nat)
    requires d.Valid() && i + 1 < d.dim && p < d.dim
    requires tiles.Valid() && tiles.dim == d.dim && tiles.Cells() == Ladder(d, i, p, 0)
    modifies tiles.inner
    ensures tiles.Cells() == Ladder(d, i, p, p)
  {
    for j := 0 to p
      invariant tiles.Cells() == Ladder(d, i, p, j)
    {
      LadderMove(tiles, d, i, p, j);
    }
  }

  /** One iteration of the ladder loop: the move at column j, when rows i and i + 1 hold (Cross, Elbow) there. */
  method LadderMove(tiles: SqMat<Tile>, d: Dream, i: nat, p: nat, j: nat)
    requires d.Valid() && i + 1 < d.dim && j < p < d.dim
    requires tiles.Valid() && tiles.dim == d.dim && tiles.Cells() == Ladder(d, i, p, j)
    modifies tiles.inner
    ensures tiles.Cells() == Ladder(d, i, p, j + 1)
  {
    var n := d.dim;
    LadderStep(d, i, p, j);
    ghost var t := tiles.Cells();
    ghost var a, b := Offset(n, i, j), Offset(n, i + 1, j);
    assert tiles.Get(i, j) == t[a] && tiles.Get(i + 1, j) == t[b];
    if tiles.Get(i, j) == Cross && tiles.Get(i + 1, j) == Elbow {
      tiles.Set(i, j, Elbow);
      assert tiles.Cells() == t[a := Elbow];
      tiles.Set(i + 1, j, Cross);
      assert tiles.Cells() == t[a := Elbow][b := Cross];
    }
  }

  /** Step j of the ladder pass, read off the tiles produced by the steps before it. */
  lemma LadderStep(d: Dream, i: nat, p: nat, j: nat)
    requires d.Valid() && i + 1 < d.dim && p < d.dim && j < p
    ensures Offset(d.dim, i, j) < |d.cells| && Offset(d.dim, i + 1, j) < |d.cells|
    ensures var t := Ladder(d, i, p, j);
            var a, b := Offset(d.dim, i, j), Offset(d.dim, i + 1, j);
            Ladder(d, i, p, j + 1) == if t[a] == Cross && t[b] == Elbow then t[a := Elbow][b := Cross] else t
  {
    OffsetBound(d.dim, i, j);
    OffsetBound(d.dim, i + 1, j);
  }

  /** Dream::mitosis(i); the rows i and i + 1 must both exist. */
  method Mitosis(d: Dream, i: nat) returns (offspring: seq<Dream>)
    requires d.Valid() && i + 1 < d.dim
    ensures offspring == Offspring(d, i)
  {
    var start := Start(d, i);
    offspring := [];
    for p := 0 to d.dim
      invariant |offspring| == |CandidatesBelow(d, i, p)|
      invariant forall k :: 0 <= k < |offspring| ==> offspring[k] == Child(d, i, CandidatesBelow(d, i, p)[k])
    {
      if p < start && d.At(i + 1, p) != Cross {
        var child := BuildChild(d, i, p);
        offspring := offspring + [child];
      }
    }
  }

  /** The free function mitosis: the offspring of every dream, concatenated in the dreams' order. */
  function OffspringAll(ds: seq<Dream>, i: nat): (kids: seq<Dream>)
    requires forall k :: 0 <= k < |ds| ==> ds[k].Valid() && i + 1 < ds[k].dim
  {
    if ds == [] then []
    else OffspringAll(ds[..|ds| - 1], i) + Offspring(ds[|ds| - 1], i)
  }

  method MitosisAll(ds: seq<Dream>, i: nat) returns (res: seq<Dream>)
    requires forall k :: 0 <= k < |ds| ==> ds[k].Valid() && i + 1 < ds[k].dim
    ensures res == OffspringAll(ds, i)
  {
    res := [];
    for k := 0 to |ds|
      invariant res == OffspringAll(ds[..k], i)
    {
      var kids := Mitosis(ds[k], i);
      assert ds[..k + 1][..k] == ds[..k];
      res := res + kids;
    }
    assert ds[..|ds|] == ds;
  }

  /** The offspring of dreams of dimension n are dreams of dimension n. */
  lemma {:induction false} OffspringAllDim(ds: seq<Dream>, i: nat, n: nat)
    requires AllDim(ds, n) && i + 1 < n
    ensures AllDim(OffspringAll(ds, i), n)
  {
    if ds != [] {
      OffspringAllDim(ds[..|ds| - 1], i, n);
      OffspringSpec(ds[|ds| - 1], i);
    }
  }

  /** When every dream has K crosses, every dream of their offspring has K - 1. */
  lemma {:induction false} OffspringAllCrosses(ds: seq<Dream>, i: nat, n: nat, K: int)
    requires AllDim(ds, n) && i + 1 < n
    requires forall k :: 0 <= k < |ds| ==> Crosses(ds[k]) == K
    ensures forall k :: 0 <= k < |OffspringAll(ds, i)| ==> Crosses(OffspringAll(ds, i)[k]) + 1 == K
  {
    if ds != [] {
      OffspringAllCrosses(ds[..|ds| - 1], i, n, K);
      OffspringSpec(ds[|ds| - 1], i);
    }
  }

  /** The staircase: a cross at (r, c) exactly when r + c < n - 1. */
  function LongTile(n: nat, r: nat, c: nat): Tile
  {
    if r + c + 1 < n then Cross else Elbow
  }

  function LongCell(n: nat, k: nat): Tile
    requires k < n * n
  {
    FlatSplit(n, k);
    LongTile(n, k / n, k % n)
  }

  /** Dream::long(n) as a value. */
  function LongDream(n: nat): (d: Dream)
    ensures d.Valid() && d.dim == n
  {
    Dream(n, seq(n * n, k requires 0 <= k < n * n => LongCell(n, k)))
  }

  /** The staircase seed has a cross at (r, c) exactly when r + c < n - 1. */
  lemma LongAt(n: nat)
    ensures forall r, c :: 0 <= r < n && 0 <= c < n ==> (LongDream(n).At(r, c) == Cross <==> r + c + 1 < n)
  {
    forall r, c | 0 <= r < n && 0 <= c < n ensures LongDream(n).At(r, c) == LongTile(n, r, c) {
      OffsetBound(n, r, c);
      OffsetSplit(n, r, c);
    }
  }

  /** Dream::long(n): fill an n x n grid of elbows with the staircase of crosses, cell by cell. */
  method Long(n: nat) returns (d: Dream)
    ensures d == LongDream(n)
  {
    var tiles := new SqMat.New(n, DefaultTile);
    for i := 0 to n
      invariant tiles.Valid() && tiles.dim == n
      invariant forall r, c :: 0 <= r < n && 0 <= c < n ==> tiles.Get(r, c) == if r < i then LongTile(n, r, c) else Elbow
    {
      StaircaseRow(tiles, i);
    }
    LongCells(tiles);
    d := Dream(n, tiles.Cells());
  }

  /** One pass of the inner loop of Dream::long: row i gets its crosses. */
  method StaircaseRow(tiles: SqMat<Tile>, i: nat)
    requires tiles.Valid() && i < tiles.dim
    requires forall r, c :: 0 <= r < tiles.dim && 0 <= c < tiles.dim ==> tiles.Get(r, c) == if r < i then LongTile(tiles.dim, r, c) else Elbow
    modifies tiles.inner
    ensures forall r, c :: 0 <= r < tiles.dim && 0 <= c < tiles.dim ==> tiles.Get(r, c) == if r <= i then LongTile(tiles.dim, r, c) else Elbow
  {
    var n := tiles.dim;
    for j := 0 to n
      invariant forall r, c :: 0 <= r < n && 0 <= c < n ==>
                  tiles.Get(r, c) == if r < i || (r == i && c < j) then LongTile(n, r, c) else Elbow
    {
      if i + j < n - 1 {
        tiles.Set(i, j, Cross);
      }
    }
  }

  /** A grid holding the staircase at every entry holds the cells of LongDream. */
  lemma LongCells(tiles: SqMat<Tile>)
    requires tiles.Valid()
    requires forall r, c :: 0 <= r < tiles.dim && 0 <= c < tiles.dim ==> tiles.Get(r, c) == LongTile(tiles.dim, r, c)
    ensures tiles.Cells() == LongDream(tiles.dim).cells
  {
    var n := tiles.dim;
    forall k | 0 <= k < n * n ensures tiles.Cells()[k] == LongCell(n, k) {
      LongCellAt(tiles, k);
    }
  }

  lemma LongCellAt(tiles: SqMat<Tile>, k: nat)
    requires tiles.Valid() && k < tiles.dim * tiles.dim
    requires forall r, c :: 0 <= r < tiles.dim && 0 <= c < tiles.dim ==> tiles.Get(r, c) == LongTile(tiles.dim, r, c)
    ensures tiles.Cells()[k] == LongCell(tiles.dim, k)
  {
    tiles.CellAt(k);
    var r, c := k / tiles.dim, k % tiles.dim;
    assert tiles.Get(r, c) == LongTile(tiles.dim, r, c);
  }

  /** The tiles of row r. */
  function RowOf(d: Dream, r: nat): seq<Tile>
    requires d.Valid() && r < d.dim
  {
    OffsetBound(d.dim, r, 0);
    d.cells[Offset(d.dim, r, 0) .. Offset(d.dim, r, 0) + d.dim]
  }

  /** Row r holds the tiles (r, 0), ..., (r, dim - 1). */
  lemma RowOfAt(d: Dream, r: nat)
    requires d.Valid() && r < d.dim
    ensures |RowOf(d, r)| == d.dim && forall c :: 0 <= c < d.dim ==> RowOf(d, r)[c] == d.At(r, c)
  {
    OffsetBound(d.dim, r, 0);
  }

  /** The number of crosses in row r. */
  function RowCrosses(d: Dream, r: nat): nat
    requires d.Valid() && r < d.dim
  {
    CountCross(RowOf(d, r))
  }

  /** The crosses of rows 0, ..., m - 1. */
  function RowsCrosses(d: Dream, m: nat): nat
    requires d.Valid() && m <= d.dim
  {
    if m == 0 then 0 else RowsCrosses(d, m - 1) + RowCrosses(d, m - 1)
  }

  /** Row r is the slice of the buffer that starts at RowStart(dim, r). */
  lemma RowIs(d: Dream, r: nat)
    requires d.Valid() && r < d.dim
    ensures RowStart(d.dim, r) + d.dim <= |d.cells|
    ensures RowOf(d, r) == d.cells[RowStart(d.dim, r) .. RowStart(d.dim, r) + d.dim]
    ensures RowCrosses(d, r) == CountCross(d.cells[RowStart(d.dim, r) .. RowStart(d.dim, r) + d.dim])
  {
    RowStartIs(d.dim, r);
    OffsetBound(d.dim, r, 0);
  }

  /** The tiles before row m hold the crosses of rows 0, ..., m - 1. */
  lemma PrefixRows(d: Dream, m: nat)
    requires d.Valid() && m <= d.dim
    ensures RowStart(d.dim, m) <= |d.cells|
    ensures CountCross(d.cells[..RowStart(d.dim, m)]) == RowsCrosses(d, m)
  {
    if m > 0 {
      PrefixRows(d, m - 1);
      PrefixStep(d, m);
    } else {
      assert d.cells[..0] == [];
    }
  }

  /** Extending the prefix by row m - 1 adds that row's crosses. */
  lemma PrefixStep(d: Dream, m: nat)
    requires d.Valid() && 0 < m <= d.dim
    ensures RowStart(d.dim, m) <= |d.cells|
    ensures CountCross(d.cells[..RowStart(d.dim, m)]) == CountCross(d.cells[..RowStart(d.dim, m - 1)]) + RowCrosses(d, m - 1)
  {
    RowIs(d, m - 1);
    CountNextRow(d.cells, d.dim, m, RowCrosses(d, m - 1));
  }

  /** The crosses before row m are those before row m - 1 plus rc, the crosses of row m - 1. */
  lemma CountNextRow(cells: seq<Tile>, n: nat, m: nat, rc: nat)
    requires 0 < m && RowStart(n, m - 1) + n <= |cells|
    requires rc == CountCross(cells[RowStart(n, m - 1) .. RowStart(n, m - 1) + n])
    ensures RowStart(n, m) <= |cells|
    ensures CountCross(cells[..RowStart(n, m)]) == CountCross(cells[..RowStart(n, m - 1)]) + rc
  {
    CountSplit(cells, RowStart(n, m - 1), RowStart(n, m - 1) + n);
  }

  /** The crosses of a prefix are those before lo plus those from lo to hi. */
  lemma CountSplit(s: seq<Tile>, lo: nat, hi: nat)
    requires lo <= hi <= |s|
    ensures CountCross(s[..hi]) == CountCross(s[..lo]) + CountCross(s[lo..hi])
  {
    assert s[..hi] == s[..lo] + s[lo..hi];
    CountConcat(s[..lo], s[lo..hi]);
  }

  /** The crosses of a dream are the crosses of its rows added up. */
  lemma CrossesByRows(d: Dream)
    requires d.Valid()
    ensures Crosses(d) == RowsCrosses(d, d.dim)
  {
    PrefixRows(d, d.dim);
    RowStartIs(d.dim, d.dim);
    assert d.cells[..RowStart(d.dim, d.dim)] == d.cells;
  }

  /** A row whose crosses are exactly its first q tiles has q crosses. */
  lemma {:induction false} CountLeading(s: seq<Tile>, q: nat)
    requires q <= |s| && forall c :: 0 <= c < |s| ==> (s[c] == Cross <==> c < q)
    ensures CountCross(s) == q
  {
    if |s| > 0 {
      if q == |s| {
        CountLeading(s[..|s| - 1], q - 1);
      } else {
        CountLeading(s[..|s| - 1], q);
      }
    }
  }

  lemma LongRows(n: nat, m: nat)
    requires m <= n
    ensures 2 * RowsCrosses(LongDream(n), m) == m * (2 * n - 1 - m)
  {
    if m > 0 {
      LongRows(n, m - 1);
      LongRowCrosses(n, m - 1);
      assert m * (2 * n - 1 - m) == (m - 1) * (2 * n - m) + 2 * (n - m);
    }
  }

  /** Row r of the staircase has n - 1 - r crosses. */
  lemma LongRowCrosses(n: nat, r: nat)
    requires r < n
    ensures RowCrosses(LongDream(n), r) == n - 1 - r
  {
    LongAt(n);
    RowOfAt(LongDream(n), r);
    CountLeading(RowOf(LongDream(n), r), n - 1 - r);
  }

  /** The staircase seed has n(n - 1)/2 crosses. */
  lemma LongCrosses(n: nat)
    ensures 2 * Crosses(LongDream(n)) == n * (n - 1)
  {
    LongRows(n, n);
    CrossesByRows(LongDream(n));
  }

  /** Every Lehmer entry satisfies code[i] <= len - 1 - i. */
  predicate CodeBounded(code: seq<nat>)
  {
    forall i :: 0 <= i < |code| ==> code[i] + i < |code|
  }

  /** (i - ci .. i).rev(): the letters i - 1, i - 2, ..., i - ci. */
  function Descent(i: nat, ci: nat): (w: seq<nat>)
    requires ci <= i
    ensures |w| == ci && forall k :: 0 <= k < ci ==> w[k] == i - 1 - k
  {
    seq(ci, k requires 0 <= k < ci => i - 1 - k)
  }

  /**
   * The word after the first m steps of lex_first_reduced_word: step i reads the Lehmer entry
   * ci at position |code| - 1 - i (the code reversed) and adds the letters i - 1 down to i - ci.
   * The entry bound makes i - ci safe, every letter is below m - 1, and the length is the sum
   * of the entries read.
   */
  function WordPrefix(code: seq<nat>, m: nat): seq<nat>
    requires CodeBounded(code) && m <= |code|
  {
    if m == 0 then []
    else
      var i := m - 1;
      WordPrefix(code, i) + Descent(i, code[|code| - 1 - i])
  }

  lemma {:induction false} WordPrefixSpec(code: seq<nat>, m: nat)
    requires CodeBounded(code) && m <= |code|
    ensures forall k :: 0 <= k < |WordPrefix(code, m)| ==> WordPrefix(code, m)[k] + 1 < m
    ensures |WordPrefix(code, m)| == Sum(code[|code| - m..])
  {
    if m > 0 {
      var n := |code|;
      WordPrefixSpec(code, m - 1);
      assert code[n - m..] == [code[n - m]] + code[n - m + 1..];
    }
  }

  /** lex_first_reduced_word's result: all |code| steps. */
  function ReducedWord(code: seq<nat>): (w: seq<nat>)
    requires CodeBounded(code)
    ensures |w| == Sum(code)
    ensures forall k :: 0 <= k < |w| ==> w[k] + 1 < |code|
  {
    assert code[0..] == code;
    WordPrefixSpec(code, |code|);
    WordPrefix(code, |code|)
  }

  /** lex_first_reduced_word(p): the Lehmer code of p read from the end. */
  method LexFirstReducedWord(p: Perm) returns (word: seq<nat>)
    ensures CodeBounded(LehmerCode(p.inner))
    ensures word == ReducedWord(LehmerCode(p.inner))
  {
    var c := p.Lehmer();
    var n := |c|;
    LehmerBounded(p.inner);
    word := [];
    for i := 0 to n
      invariant word == WordPrefix(c, i)
    {
      word := PushDescent(word, i, c[n - 1 - i]);
      WordPrefixStep(c, i);
    }
  }

  /** The inner loop of lex_first_reduced_word: push k - 1 for k from i down to i - ci + 1. */
  method PushDescent(word: seq<nat>, i: nat, ci: nat) returns (w: seq<nat>)
    requires ci <= i
    ensures w == word + Descent(i, ci)
  {
    w := word;
    var k := i;
    while k > i - ci
      invariant i - ci <= k <= i
      invariant w == word + Descent(i, i - k)
    {
      DescentStep(i, i - k);
      w := w + [k - 1];
      k := k - 1;
    }
  }

  lemma LehmerBounded(s: seq<nat>)
    ensures CodeBounded(LehmerCode(s))
  {
  }

  lemma WordPrefixStep(code: seq<nat>, i: nat)
    requires CodeBounded(code) && i < |code|
    ensures WordPrefix(code, i + 1) == WordPrefix(code, i) + Descent(i, code[|code| - 1 - i])
  {
  }

  lemma DescentStep(i: nat, t: nat)
    requires t < i
    ensures Descent(i, t + 1) == Descent(i, t) + [i - 1 - t]
  {
  }

  function Reverse(s: seq<nat>): (r: seq<nat>)
    ensures |r| == |s| && forall k :: 0 <= k < |s| ==> r[k] == s[|s| - 1 - k]
  {
    seq(|s|, k requires 0 <= k < |s| => s[|s| - 1 - k])
  }

  /** Vec::reverse: swap the ends inwards. */
  method ReverseInPlace(a: array<nat>)
    modifies a
    ensures a[..] == Reverse(old(a[..]))
  {
    var lo, hi := 0, a.Length;
    while lo + 1 < hi
      invariant 0 <= lo <= hi <= a.Length && lo + hi == a.Length
      invariant forall k :: 0 <= k < lo ==> a[k] == old(a[a.Length - 1 - k]) && a[a.Length - 1 - k] == old(a[k])
      invariant forall k :: lo <= k < hi ==> a[k] == old(a[k])
    {
      a[lo], a[hi - 1] := a[hi - 1], a[lo];
      lo, hi := lo + 1, hi - 1;
    }
  }

  /** Every letter of w names a row i with i + 1 < n, so mitosis may be applied for it. */
  predicate Letters(w: seq<nat>, n: nat)
  {
    forall k :: 0 <= k < |w| ==> w[k] + 1 < n
  }

  /** Mitosis applied for the letters w[lo], ..., w[hi - 1] in turn, starting from the dreams ds. */
  function Apply(ds: seq<Dream>, w: seq<nat>, n: nat, lo: nat, hi: nat): (res: seq<Dream>)
    requires AllDim(ds, n) && Letters(w, n) && lo <= hi <= |w|
    ensures AllDim(res, n)
    decreases hi
  {
    if hi == lo then ds
    else
      var prior := Apply(ds, w, n, lo, hi - 1);
      OffspringAllDim(prior, w[hi - 1], n);
      OffspringAll(prior, w[hi - 1])
  }

  /** Every letter applied removes exactly one cross from every dream. */
  lemma {:induction false} ApplyCrosses(ds: seq<Dream>, w: seq<nat>, n: nat, lo: nat, hi: nat, K: int)
    requires AllDim(ds, n) && Letters(w, n) && lo <= hi <= |w|
    requires forall k :: 0 <= k < |ds| ==> Crosses(ds[k]) == K
    ensures forall k :: 0 <= k < |Apply(ds, w, n, lo, hi)| ==> Crosses(Apply(ds, w, n, lo, hi)[k]) + (hi - lo) == K
    decreases hi
  {
    if hi > lo {
      ApplyCrosses(ds, w, n, lo, hi - 1, K);
      OffspringAllCrosses(Apply(ds, w, n, lo, hi - 1), w[hi - 1], n, K - (hi - 1 - lo));
    }
  }

  /** The word whose mitosis operators generate the dreams of p: that of p composed with the longest permutation. */
  function WordOf(p: Perm): (w: seq<nat>)
    requires p.Valid()
    ensures |w| == Sum(LehmerCode(Compose(p, Permutation.Long(p.Len())).inner))
    ensures forall k :: 0 <= k < |w| ==> w[k] + 1 < p.Len()
  {
    ReducedWord(LehmerCode(Compose(p, Permutation.Long(p.Len())).inner))
  }

  /** reduced_dreams(p) as a value. */
  function ReducedDreamsOf(p: Perm): seq<Dream>
    requires p.Valid()
  {
    var n := p.Len();
    var w := Reverse(WordOf(p));
    if w == [] then []
    else
      OffspringSpec(LongDream(n), w[0]);
      Apply(Offspring(LongDream(n), w[0]), w, n, 1, |w|)
  }

  /**
   * reduced_dreams(p): build the word of p composed with the longest permutation, reverse it,
   * and fold the mitosis operators over it starting from the staircase.
   */
  method ComputeReducedDreams(p: Perm) returns (res: seq<Dream>)
    requires p.Valid()
    ensures res == ReducedDreamsOf(p)
  {
    var n := p.Len();
    var p0p := p.ComposeWith(Permutation.Long(n));
    var reduced := LexFirstReducedWord(p0p);
    if |reduced| == 0 {
      return [];
    }
    var a := new nat[|reduced|](k requires 0 <= k < |reduced| => reduced[k]);
    assert a[..] == reduced;
    ReverseInPlace(a);
    var w := a[..];
    assert w == Reverse(WordOf(p));
    var seed := Long(n);
    OffspringSpec(seed, w[0]);
    res := Mitosis(seed, w[0]);
    ghost var seedKids := Offspring(LongDream(n), w[0]);
    for k := 1 to |w|
      invariant AllDim(res, n)
      invariant res == Apply(seedKids, w, n, 1, k)
    {
      OffspringAllDim(res, w[k], n);
      res := MitosisAll(res, w[k]);
    }
  }

  /**
   * Every dream reduced_dreams(p) returns is an n x n dream with exactly n(n - 1)/2 - |word|
   * crosses, |word| being the sum of the Lehmer code of p composed with the longest permutation.
   */
  lemma ReducedDreamsCrosses(p: Perm)
    requires p.Valid()
    ensures AllDim(ReducedDreamsOf(p), p.Len())
    ensures forall k :: 0 <= k < |ReducedDreamsOf(p)| ==>
              2 * (Crosses(ReducedDreamsOf(p)[k]) + |WordOf(p)|) == p.Len() * (p.Len() - 1)
  {
    var n := p.Len();
    var w := Reverse(WordOf(p));
    if w != [] {
      LongCrosses(n);
      OffspringSpec(LongDream(n), w[0]);
      ApplyCrosses(Offspring(LongDream(n), w[0]), w, n, 1, |w|, Crosses(LongDream(n)) - 1);
    }
  }

  lemma {:induction false} SumZeros(n: nat)
    ensures Sum(seq(n, _ => 0)) == 0
  {
    if n > 0 {
      SumZeros(n - 1);
      assert seq(n, _ => 0)[1..] == seq(n - 1, _ => 0);
    }
  }

  /**
   * The longest permutation composed with itself is the identity, whose word is empty, so
   * reduced_dreams returns no dream at all, although the staircase seed has the cross count
   * its dreams must have.
   */
  lemma LongestHasNoDreams(n: nat)
    ensures WordOf(Permutation.Long(n)) == []
    ensures ReducedDreamsOf(Permutation.Long(n)) == []
    ensures 2 * (Crosses(LongDream(n)) + |WordOf(Permutation.Long(n))|) == n * (n - 1)
  {
    var w0 := Permutation.Long(n);
    assert Compose(w0, w0).inner == Range(n);
    IdentityLehmer(n);
    SumZeros(n);
    LongCrosses(n);
  }

  /**
   * reduced_dreams with the early exit returning the staircase seed instead of nothing: the
   * seed is the one dream left when there is no mitosis to apply.
   */
  function ReducedDreamsCorrected(p: Perm): (ds: seq<Dream>)
    requires p.Valid()
    ensures WordOf(p) != [] ==> ds == ReducedDreamsOf(p)
    ensures WordOf(p) == [] ==> ds == [LongDream(p.Len())]
  {
    if WordOf(p) == [] then [LongDream(p.Len())] else ReducedDreamsOf(p)
  }

  /** The corrected generator keeps the cross count of every dream, now including the longest permutation's. */
  lemma CorrectedCrosses(p: Perm)
    requires p.Valid()
    ensures AllDim(ReducedDreamsCorrected(p), p.Len())
    ensures |ReducedDreamsCorrected(p)| > 0 || WordOf(p) != []
    ensures forall k :: 0 <= k < |ReducedDreamsCorrected(p)| ==>
              2 * (Crosses(ReducedDreamsCorrected(p)[k]) + |WordOf(p)|) == p.Len() * (p.Len() - 1)
  {
    if WordOf(p) == [] {
      LongCrosses(p.Len());
    } else {
      ReducedDreamsCrosses(p);
    }
  }

  /** The longest permutation's one dream is the staircase seed itself. */
  lemma LongestHasStaircase(n: nat)
    ensures ReducedDreamsCorrected(Permutation.Long(n)) == [LongDream(n)]
  {
    LongestHasNoDreams(n);
  }

  /** ReducedDreams: the permutation together with its dreams. */
  datatype ReducedDreams = ReducedDreams(perm: Perm, dreams: seq<Dream>)

  /** ReducedDreams::for_perm. */
  method ForPerm(p: Perm) returns (rd: ReducedDreams)
    requires p.Valid()
    ensures rd.perm == p && rd.dreams == ReducedDreamsOf(p)
  {
    var dreams := ComputeReducedDreams(p);
    rd := ReducedDreams(p, dreams);
  }
}
