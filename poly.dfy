/**
 * Monomials read off pipe dreams and the Schubert polynomial assembled from them (src/poly.rs).
 * The monomial of a dream has the factor x_i^p when row i holds p > 0 crosses.
 */
module Poly {
  import opened Wrappers
  import opened Text
  import opened Matrix
  import opened Permutation
  import opened PipeDream

  /** A monomial: (i, p) stands for x_i^p. */
  datatype Monomial = Monomial(powers: seq<(nat, nat)>)

  /** The rows below m that hold a cross, each with its number of crosses, in row order. */
  function PowersBelow(d: Dream, m: nat): seq<(nat, nat)>
    requires d.Valid() && m <= d.dim
  {
    if m == 0 then []
    else PowersBelow(d, m - 1) + (if RowCrosses(d, m - 1) > 0 then [(m - 1, RowCrosses(d, m - 1))] else [])
  }

  /** The listed rows are below m, ascending, each with its positive cross count, and no row with a cross is missing. */
  lemma {:induction false} PowersBelowSpec(d: Dream, m: nat)
    requires d.Valid() && m <= d.dim
    ensures forall k :: 0 <= k < |PowersBelow(d, m)| ==> PowersBelow(d, m)[k].0 < m
    ensures forall k :: 0 <= k < |PowersBelow(d, m)| ==>
              PowersBelow(d, m)[k].1 >= 1 && PowersBelow(d, m)[k].1 == RowCrosses(d, PowersBelow(d, m)[k].0)
    ensures forall a, b :: 0 <= a < b < |PowersBelow(d, m)| ==> PowersBelow(d, m)[a].0 < PowersBelow(d, m)[b].0
  {
    if m > 0 {
      PowersBelowSpec(d, m - 1);
    }
  }

  /** No row below m that holds a cross is missing from the list. */
  lemma {:induction false} PowersBelowComplete(d: Dream, m: nat, r: nat)
    requires d.Valid() && m <= d.dim
    requires r < m && RowCrosses(d, r) > 0
    ensures (r, RowCrosses(d, r)) in PowersBelow(d, m)
  {
    var x := RowCrosses(d, m - 1);
    var tail: seq<(nat, nat)> := if x > 0 then [(m - 1, x)] else [];
    assert PowersBelow(d, m) == PowersBelow(d, m - 1) + tail;
    if r < m - 1 {
      PowersBelowComplete(d, m - 1, r);
    } else {
      assert tail == [(r, RowCrosses(d, r))];
    }
  }

  /**
   * Monomial::from(dream): one factor per row holding a cross, its exponent the number of
   * crosses in the row; the factors are sorted by row, and rows never repeat.
   */
  function MonomialOf(d: Dream): (m: Monomial)
    requires d.Valid()
    ensures forall k :: 0 <= k < |m.powers| ==> m.powers[k].0 < d.dim && m.powers[k].1 >= 1 && m.powers[k].1 == RowCrosses(d, m.powers[k].0)
    ensures forall a, b :: 0 <= a < b < |m.powers| ==> m.powers[a].0 < m.powers[b].0
    ensures forall r :: 0 <= r < d.dim && RowCrosses(d, r) > 0 ==> (r, RowCrosses(d, r)) in m.powers
  {
    PowersBelowSpec(d, d.dim);
    forall r | 0 <= r < d.dim && RowCrosses(d, r) > 0 {
      PowersBelowComplete(d, d.dim, r);
    }
    Monomial(PowersBelow(d, d.dim))
  }

  /** The total degree: the exponents added up. */
  function Degree(ps: seq<(nat, nat)>): nat
  {
    if ps == [] then 0 else Degree(ps[..|ps| - 1]) + ps[|ps| - 1].1
  }

  lemma {:induction false} DegreeBelow(d: Dream, m: nat)
    requires d.Valid() && m <= d.dim
    ensures Degree(PowersBelow(d, m)) == RowsCrosses(d, m)
  {
    if m > 0 {
      DegreeBelow(d, m - 1);
      var ps := PowersBelow(d, m - 1);
      var x := RowCrosses(d, m - 1);
      assert RowsCrosses(d, m) == RowsCrosses(d, m - 1) + x;
      if x > 0 {
        assert PowersBelow(d, m) == ps + [(m - 1, x)];
        DegreeSnoc(ps, (m - 1, x));
      } else {
        assert PowersBelow(d, m) == ps;
      }
    }
  }

  lemma DegreeSnoc(ps: seq<(nat, nat)>, x: (nat, nat))
    ensures Degree(ps + [x]) == Degree(ps) + x.1
  {
    assert (ps + [x])[..|ps|] == ps;
  }

  /** The degree of a dream's monomial is its number of crosses, and the monomial is 1 exactly when there is none. */
  lemma MonomialDegree(d: Dream)
    requires d.Valid()
    ensures Degree(MonomialOf(d).powers) == Crosses(d)
    ensures MonomialOf(d).powers == [] <==> Crosses(d) == 0
  {
    DegreeBelow(d, d.dim);
    CrossesByRows(d);
  }

  /** Monomial::from(dream): count the crosses of every row in a table, then list the table in row order. */
  method FromDream(d: Dream) returns (m: Monomial)
    requires d.Valid()
    ensures m == MonomialOf(d)
  {
    var n := d.dim;
    var counts := new nat[n](_ => 0);
    for i := 0 to n
      invariant forall r :: 0 <= r < i ==> counts[r] == RowCrosses(d, r)
      invariant forall r :: i <= r < n ==> counts[r] == 0
    {
      TallyRow(d, i, counts);
    }
    var powers := [];
    for r := 0 to n
      invariant powers == PowersBelow(d, r)
    {
      if counts[r] > 0 {
        powers := powers + [(r, counts[r])];
      }
    }
    m := Monomial(powers);
  }

  /** The inner loop of Monomial::from: add one to the entry of row i for every cross of the row. */
  method TallyRow(d: Dream, i: nat, counts: array<nat>)
    requires d.Valid() && i < d.dim && counts.Length == d.dim && counts[i] == 0
    modifies counts
    ensures counts[i] == RowCrosses(d, i)
    ensures forall r :: 0 <= r < counts.Length && r != i ==> counts[r] == old(counts[r])
  {
    var n := d.dim;
    ghost var row := RowOf(d, i);
    RowOfAt(d, i);
    for j := 0 to n
      invariant forall r :: 0 <= r < n && r != i ==> counts[r] == old(counts[r])
      invariant counts[i] == CountCross(row[..j])
    {
      assert row[..j + 1][..j] == row[..j];
      if d.At(i, j) == Cross {
        counts[i] := counts[i] + 1;
      }
    }
    assert row[..n] == row;
  }

  /** elem(i, p) of the Display impl: 1, x_i or x_i^p. */
  function Factor(i: nat, p: nat): string
  {
    if p == 0 then "1"
    else if p == 1 then "x_" + NatToString(i)
    else "x_" + NatToString(i) + "^" + NatToString(p)
  }

  /**
   * A factor with a positive exponent reads back: after "x_" come the row's digits, then, when
   * the exponent is above 1, "^" and the exponent's digits.
   */
  lemma FactorReads(i: nat, p: nat)
    requires p >= 1
    ensures |Factor(i, p)| > 2 && Factor(i, p)[..2] == "x_"
    ensures p == 1 ==> ParseNat(Factor(i, p)[2..]) == Some(i)
    ensures p > 1 ==> Split(Factor(i, p)[2..], "^") == [NatToString(i), NatToString(p)]
    ensures p > 1 ==> ParseNat(NatToString(i)) == Some(i) && ParseNat(NatToString(p)) == Some(p)
  {
    ParseNatToString(i);
    ParseNatToString(p);
    var f := Factor(i, p);
    if p == 1 {
      assert f == "x_" + NatToString(i);
      assert f[2..] == NatToString(i);
    } else {
      PowerSplits(i, p);
    }
  }

  lemma PowerSplits(i: nat, p: nat)
    requires p > 1
    ensures Factor(i, p)[2..] == NatToString(i) + "^" + NatToString(p)
    ensures Split(NatToString(i) + "^" + NatToString(p), "^") == [NatToString(i), NatToString(p)]
  {
    var a, b := NatToString(i), NatToString(p);
    assert Factor(i, p) == "x_" + (a + "^" + b);
    assert Lacks(a, '^') && Lacks(b, '^');
    SplitFirst(a, '^', b);
    SplitNone(b, '^');
  }

  function Factors(ps: seq<(nat, nat)>): (fs: seq<string>)
    ensures |fs| == |ps| && forall k :: 0 <= k < |ps| ==> fs[k] == Factor(ps[k].0, ps[k].1)
  {
    seq(|ps|, k requires 0 <= k < |ps| => Factor(ps[k].0, ps[k].1))
  }

  /** Display: "1" for the empty product, otherwise the factors joined by "*". */
  function MonomialToString(m: Monomial): string
  {
    if m.powers == [] then "1" else Join(Factors(m.powers), "*")
  }

  /** Factors are made of x, _, ^ and digits. */
  lemma FactorLacks(i: nat, p: nat, ch: char)
    requires ch != 'x' && ch != '_' && ch != '^' && !IsDigit(ch)
    ensures Lacks(Factor(i, p), ch)
  {
    LacksConcat("x_", NatToString(i), ch);
    LacksConcat("x_" + NatToString(i), "^", ch);
    LacksConcat("x_" + NatToString(i) + "^", NatToString(p), ch);
  }

  /** The rendering of a monomial splits on "*" back into its factors, one per power. */
  lemma MonomialSplits(m: Monomial)
    ensures m.powers == [] ==> MonomialToString(m) == "1"
    ensures m.powers != [] ==> Split(MonomialToString(m), "*") == Factors(m.powers)
  {
    if m.powers != [] {
      var fs := Factors(m.powers);
      forall k | 0 <= k < |fs| ensures Lacks(fs[k], '*') {
        FactorLacks(m.powers[k].0, m.powers[k].1, '*');
      }
      SplitJoin(fs, '*');
    }
  }

  /** Schubert: the permutation and the monomials of its dreams. */
  datatype Schubert = Schubert(perm: Perm, parts: seq<Monomial>)

  predicate AllValid(ds: seq<Dream>)
  {
    forall k :: 0 <= k < |ds| ==> ds[k].Valid()
  }

  /** The positions of the dreams whose monomial is not 1. */
  function PartIndices(ds: seq<Dream>): (idx: seq<nat>)
    requires AllValid(ds)
    ensures forall k :: 0 <= k < |idx| ==> idx[k] < |ds|
  {
    if ds == [] then []
    else
      var j := |ds| - 1;
      PartIndices(ds[..j]) + (if MonomialOf(ds[j]).powers != [] then [j] else [])
  }

  /** The positions hold dreams with a cross, are increasing, and none is missing. */
  lemma PartIndicesSpec(ds: seq<Dream>)
    requires AllValid(ds)
    ensures forall k :: 0 <= k < |PartIndices(ds)| ==> MonomialOf(ds[PartIndices(ds)[k]]).powers != []
    ensures forall a, b :: 0 <= a < b < |PartIndices(ds)| ==> PartIndices(ds)[a] < PartIndices(ds)[b]
    ensures forall j :: 0 <= j < |ds| && MonomialOf(ds[j]).powers != [] ==> j in PartIndices(ds)
  {
    PartIndicesKept(ds);
    PartIndicesIncreasing(ds);
    PartIndicesComplete(ds);
  }

  lemma {:induction false} PartIndicesKept(ds: seq<Dream>)
    requires AllValid(ds)
    ensures forall k :: 0 <= k < |PartIndices(ds)| ==> MonomialOf(ds[PartIndices(ds)[k]]).powers != []
  {
    if ds != [] {
      var j := |ds| - 1;
      PartIndicesKept(ds[..j]);
      var idx := PartIndices(ds[..j]);
      forall k | 0 <= k < |idx| ensures ds[..j][idx[k]] == ds[idx[k]] { }
    }
  }

  lemma {:induction false} PartIndicesIncreasing(ds: seq<Dream>)
    requires AllValid(ds)
    ensures forall a, b :: 0 <= a < b < |PartIndices(ds)| ==> PartIndices(ds)[a] < PartIndices(ds)[b]
  {
    if ds != [] {
      PartIndicesIncreasing(ds[..|ds| - 1]);
    }
  }

  lemma {:induction false} PartIndicesComplete(ds: seq<Dream>)
    requires AllValid(ds)
    ensures forall j :: 0 <= j < |ds| && MonomialOf(ds[j]).powers != [] ==> j in PartIndices(ds)
  {
    if ds != [] {
      var j := |ds| - 1;
      PartIndicesComplete(ds[..j]);
      forall i | 0 <= i < j ensures ds[..j][i] == ds[i] { }
    }
  }

  /** The monomials of from_dreams: those of the dreams, in order, with every 1 dropped. */
  function PartsOf(ds: seq<Dream>): (parts: seq<Monomial>)
    requires AllValid(ds)
  {
    if ds == [] then []
    else
      var j := |ds| - 1;
      PartsOf(ds[..j]) + (if MonomialOf(ds[j]).powers != [] then [MonomialOf(ds[j])] else [])
  }

  /**
   * from_dreams keeps the dreams' order, drops the monomials equal to 1 and merges nothing:
   * part k is the monomial of the k-th dream that has a cross.
   */
  lemma {:induction false} PartsInOrder(ds: seq<Dream>)
    requires AllValid(ds)
    ensures |PartsOf(ds)| == |PartIndices(ds)| <= |ds|
    ensures forall k :: 0 <= k < |PartsOf(ds)| ==> PartsOf(ds)[k] == MonomialOf(ds[PartIndices(ds)[k]])
  {
    if ds != [] {
      var j := |ds| - 1;
      PartsInOrder(ds[..j]);
      PartIndicesSpec(ds[..j]);
      var idx := PartIndices(ds[..j]);
      forall k | 0 <= k < |idx| ensures ds[..j][idx[k]] == ds[idx[k]] { }
    }
  }

  /** Schubert::from_dreams: the monomial of every dream, kept when it is not 1; the permutation is carried over. */
  method FromDreams(rd: ReducedDreams) returns (s: Schubert)
    requires AllValid(rd.dreams)
    ensures s.perm == rd.perm && s.parts == PartsOf(rd.dreams)
  {
    var parts := [];
    for k := 0 to |rd.dreams|
      invariant parts == PartsOf(rd.dreams[..k])
    {
      var mono := FromDream(rd.dreams[k]);
      assert rd.dreams[..k + 1][..k] == rd.dreams[..k];
      if mono.powers != [] {
        parts := parts + [mono];
      }
    }
    assert rd.dreams[..|rd.dreams|] == rd.dreams;
    s := Schubert(rd.perm, parts);
  }

  function PartTexts(parts: seq<Monomial>): (ts: seq<string>)
    ensures |ts| == |parts| && forall k :: 0 <= k < |parts| ==> ts[k] == MonomialToString(parts[k])
  {
    seq(|parts|, k requires 0 <= k < |parts| => MonomialToString(parts[k]))
  }

  /** Display: "S_", the permutation, " = ", then the parts joined by " + ", or "1" when there are none. */
  function SchubertToString(s: Schubert): string
  {
    "S_" + s.perm.ToString() + " = " + (if s.parts == [] then "1" else Join(PartTexts(s.parts), " + "))
  }

  lemma LacksCount(s: string, ch: char)
    requires Lacks(s, ch)
    ensures CountChar(s, ch) == 0
  {
    if s != [] {
      LacksCount(s[1..], ch);
    }
  }

  /** Joining parts free of ch with a separator holding ch once gives one ch per separator. */
  lemma {:induction false} JoinCount(parts: seq<string>, sep: string, ch: char)
    requires |parts| >= 1 && CountChar(sep, ch) == 1
    requires forall k :: 0 <= k < |parts| ==> Lacks(parts[k], ch)
    ensures CountChar(Join(parts, sep), ch) == |parts| - 1
  {
    LacksCount(parts[0], ch);
    if |parts| > 1 {
      JoinCount(parts[1..], sep, ch);
      CountCharConcat(parts[0], sep, ch);
      CountCharConcat(parts[0] + sep, Join(parts[1..], sep), ch);
    }
  }

  lemma {:induction false} JoinLacks(parts: seq<string>, sep: string, ch: char)
    requires Lacks(sep, ch) && forall k :: 0 <= k < |parts| ==> Lacks(parts[k], ch)
    ensures Lacks(Join(parts, sep), ch)
  {
    if |parts| > 1 {
      JoinLacks(parts[1..], sep, ch);
      LacksConcat(parts[0], sep, ch);
      LacksConcat(parts[0] + sep, Join(parts[1..], sep), ch);
    }
  }

  lemma MonomialLacks(m: Monomial, ch: char)
    requires ch != 'x' && ch != '_' && ch != '^' && !IsDigit(ch) && ch != '*'
    ensures Lacks(MonomialToString(m), ch)
  {
    if m.powers != [] {
      var fs := Factors(m.powers);
      forall k | 0 <= k < |fs| ensures Lacks(fs[k], ch) {
        FactorLacks(m.powers[k].0, m.powers[k].1, ch);
      }
      JoinLacks(fs, "*", ch);
    }
  }

  /**
   * The rendering of a Schubert polynomial starts with "S_", the permutation and " = ", and
   * holds one '+' between each two parts and none otherwise.
   */
  lemma SchubertPluses(s: Schubert)
    ensures SchubertToString(s)[..|"S_" + s.perm.ToString() + " = "|] == "S_" + s.perm.ToString() + " = "
    ensures CountChar(SchubertToString(s), '+') == if s.parts == [] then 0 else |s.parts| - 1
  {
    var ts := PartTexts(s.parts);
    forall k | 0 <= k < |ts| ensures Lacks(ts[k], '+') {
      MonomialLacks(s.parts[k], '+');
    }
    var rs := Rendered(s.perm.inner);
    forall k | 0 <= k < |rs| ensures Lacks(rs[k], '+') { }
    JoinLacks(rs, ", ", '+');
    LacksConcat("[", Join(rs, ", "), '+');
    LacksConcat("[" + Join(rs, ", "), "]", '+');
    LacksConcat("S_", s.perm.ToString(), '+');
    LacksConcat("S_" + s.perm.ToString(), " = ", '+');
    var head := "S_" + s.perm.ToString() + " = ";
    LacksCount(head, '+');
    if s.parts == [] {
      CountCharConcat(head, "1", '+');
    } else {
      JoinCount(ts, " + ", '+');
      CountCharConcat(head, Join(ts, " + "), '+');
    }
  }

  /**
   * Every part of the Schubert polynomial of p is homogeneous of degree n(n - 1)/2 - |word|:
   * the degree of the monomial of a dream is its number of crosses.
   */
  lemma SchubertHomogeneous(p: Perm)
    requires p.Valid()
    ensures AllValid(ReducedDreamsOf(p))
    ensures forall k :: 0 <= k < |PartsOf(ReducedDreamsOf(p))| ==>
              2 * (Degree(PartsOf(ReducedDreamsOf(p))[k].powers) + |WordOf(p)|) == p.Len() * (p.Len() - 1)
  {
    var ds := ReducedDreamsOf(p);
    ReducedDreamsCrosses(p);
    PartsInOrder(ds);
    PartIndicesSpec(ds);
    var idx := PartIndices(ds);
    forall k | 0 <= k < |PartsOf(ds)|
      ensures 2 * (Degree(PartsOf(ds)[k].powers) + |WordOf(p)|) == p.Len() * (p.Len() - 1)
    {
      MonomialDegree(ds[idx[k]]);
    }
  }
}
