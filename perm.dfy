/**
 * Zero-indexed permutations of 0, 1, ..., n - 1 (src/perm.rs).
 * A Perm is valid when its array, sorted, is exactly 0, 1, ..., n - 1: that is, when it
 * holds every value of that range exactly once.  Every way of building a Perm here keeps
 * that invariant.
 */
module Permutation {
  import opened Wrappers
  import opened Text
  import opened Matrix

  /** The range 0, 1, ..., n - 1. */
  function Range(n: nat): (r: seq<nat>)
    ensures |r| == n && forall k :: 0 <= k < n ==> r[k] == k
  {
    seq(n, k requires 0 <= k => k)
  }

  /** The bijection invariant: s is a rearrangement of 0, 1, ..., |s| - 1. */
  predicate IsPermutation(s: seq<nat>)
  {
    multiset(s) == multiset(Range(|s|))
  }

  predicate Sorted(s: seq<nat>)
  {
    forall x, y :: 0 <= x < y < |s| ==> s[x] <= s[y]
  }

  /** Each value below n occurs in the range exactly once, and no other value occurs. */
  lemma {:induction false} RangeCount(n: nat, x: nat)
    ensures multiset(Range(n))[x] == if x < n then 1 else 0
  {
    if n > 0 {
      RangeCount(n - 1, x);
      assert Range(n) == Range(n - 1) + [n - 1];
    }
  }

  /** A value at two positions is counted twice. */
  lemma DupCount(s: seq<nat>, j: nat, k: nat)
    requires j < k < |s| && s[j] == s[k]
    ensures multiset(s)[s[j]] >= 2
  {
    assert s == s[..j] + [s[j]] + s[j + 1..k] + [s[k]] + s[k + 1..];
  }

  /** The values of a permutation are in range, pairwise distinct, and cover the whole range. */
  lemma PermutationValues(s: seq<nat>)
    requires IsPermutation(s)
    ensures forall k :: 0 <= k < |s| ==> s[k] < |s|
    ensures forall j, k :: 0 <= j < k < |s| ==> s[j] != s[k]
    ensures forall c :: 0 <= c < |s| ==> c in s
  {
    forall k | 0 <= k < |s| ensures s[k] < |s| {
      assert s[k] in multiset(s);
      RangeCount(|s|, s[k]);
    }
    forall j, k | 0 <= j < k < |s| ensures s[j] != s[k] {
      RangeCount(|s|, s[j]);
      if s[j] == s[k] {
        DupCount(s, j, k);
      }
    }
    forall c | 0 <= c < |s| ensures c in s {
      RangeCount(|s|, c);
      assert c in multiset(s);
    }
  }

  /** Two sorted sequences with the same elements are equal. */
  lemma {:induction false} SortedUnique(a: seq<nat>, b: seq<nat>)
    requires Sorted(a) && Sorted(b) && multiset(a) == multiset(b)
    ensures a == b
    decreases |a|
  {
    if a != [] {
      SortedStep(a, b);
      SortedUnique(a[1..], b[1..]);
      SameHeadTail(a, b);
    } else {
      assert |b| == |multiset(b)| == 0;
    }
  }

  /** Two sorted sequences with the same nonempty multiset share their first element and the multiset of the rest. */
  lemma SortedStep(a: seq<nat>, b: seq<nat>)
    requires Sorted(a) && Sorted(b) && multiset(a) == multiset(b) && a != []
    ensures b != [] && a[0] == b[0] && |a| == |b|
    ensures Sorted(a[1..]) && Sorted(b[1..]) && multiset(a[1..]) == multiset(b[1..])
  {
    assert |a| == |multiset(a)| == |multiset(b)| == |b|;
    SortedFirst(a, b[0]);
    SortedFirst(b, a[0]);
    SortedTail(a);
    SortedTail(b);
  }

  lemma SameHeadTail(a: seq<nat>, b: seq<nat>)
    requires a != [] && b != [] && a[0] == b[0] && a[1..] == b[1..]
    ensures a == b
  {
    assert a == [a[0]] + a[1..];
    assert b == [b[0]] + b[1..];
  }

  /** The first element of a sorted sequence is its least. */
  lemma SortedFirst(a: seq<nat>, x: nat)
    requires Sorted(a) && x in multiset(a)
    ensures a != [] && a[0] <= x
  {
    assert x in a;
    var i :| 0 <= i < |a| && a[i] == x;
    assert i == 0 || a[0] <= a[i];
  }

  /** Dropping the first element keeps a sequence sorted and removes one copy of that element. */
  lemma SortedTail(a: seq<nat>)
    requires Sorted(a) && a != []
    ensures Sorted(a[1..]) && multiset(a[1..]) == multiset(a) - multiset{a[0]}
  {
    assert a == [a[0]] + a[1..];
  }

  /** Sorting s gives the range exactly when s is a permutation: the check Perm::new performs. */
  lemma SortedIsRange(t: seq<nat>, v: seq<nat>)
    requires Sorted(t) && multiset(t) == multiset(v)
    ensures t == Range(|v|) <==> IsPermutation(v)
  {
    assert |t| == |multiset(t)| == |v|;
    if IsPermutation(v) {
      SortedUnique(t, Range(|v|));
    }
  }

  /** The number of positions j with lo <= j < hi whose value is below x. */
  function CountBelow(s: seq<nat>, x: nat, lo: nat, hi: nat): (k: nat)
    requires hi <= |s|
    ensures lo <= hi ==> k <= hi - lo
    ensures hi <= lo ==> k == 0
  {
    if hi <= lo then 0 else CountBelow(s, x, lo, hi - 1) + (if s[hi - 1] < x then 1 else 0)
  }

  /**
   * The Lehmer code: entry i counts the later positions j > i with s[j] < s[i], so it is
   * at most |s| - 1 - i.
   */
  function LehmerCode(s: seq<nat>): (code: seq<nat>)
    ensures |code| == |s|
    ensures forall i :: 0 <= i < |s| ==> code[i] == CountBelow(s, s[i], i + 1, |s|)
    ensures forall i :: 0 <= i < |s| ==> code[i] <= |s| - 1 - i
  {
    seq(|s|, i requires 0 <= i < |s| => CountBelow(s, s[i], i + 1, |s|))
  }

  function Sum(s: seq<nat>): nat
  {
    if s == [] then 0 else s[0] + Sum(s[1..])
  }

  /** No value of an increasing sequence is beaten by a later one. */
  lemma {:induction false} CountBelowIncreasing(n: nat, x: nat, lo: nat, hi: nat)
    requires hi <= n && x <= lo
    ensures CountBelow(Range(n), x, lo, hi) == 0
    decreases hi
  {
    if lo < hi {
      CountBelowIncreasing(n, x, lo, hi - 1);
    }
  }

  /** The identity permutation has the all-zero Lehmer code. */
  lemma IdentityLehmer(n: nat)
    ensures LehmerCode(Range(n)) == seq(n, _ => 0)
  {
    forall i | 0 <= i < n ensures LehmerCode(Range(n))[i] == 0 {
      CountBelowIncreasing(n, i, i + 1, n);
    }
  }

  /** n - 1, n - 2, ..., 0. */
  function Descending(n: nat): (r: seq<nat>)
    ensures |r| == n && forall i :: 0 <= i < n ==> r[i] == n - 1 - i
  {
    seq(n, i requires 0 <= i < n => n - 1 - i)
  }

  lemma {:induction false} DescendingIsPermutation(n: nat)
    ensures IsPermutation(Descending(n))
  {
    if n > 0 {
      DescendingIsPermutation(n - 1);
      assert Descending(n) == [n - 1] + Descending(n - 1);
      assert Range(n) == Range(n - 1) + [n - 1];
    }
  }

  /** f applied to every element. */
  function MapSeq(f: nat -> nat, s: seq<nat>): (r: seq<nat>)
    ensures |r| == |s| && forall k :: 0 <= k < |s| ==> r[k] == f(s[k])
  {
    seq(|s|, k requires 0 <= k < |s| => f(s[k]))
  }

  /** Rearranging the input rearranges the output: mapping respects multiset equality. */
  lemma {:induction false} MapMultiset(f: nat -> nat, s: seq<nat>, t: seq<nat>)
    requires multiset(s) == multiset(t)
    ensures multiset(MapSeq(f, s)) == multiset(MapSeq(f, t))
    decreases |s|
  {
    assert |s| == |multiset(s)| == |t|;
    if s != [] {
      var k := Position(t, s[0]);
      DropFirst(s);
      MapMultiset(f, s[1..], RemoveAt(t, k));
      MapFirst(f, s);
      MapRemoveAt(f, t, k);
    }
  }

  /** A position at which a value of t occurs. */
  lemma Position(t: seq<nat>, x: nat) returns (k: nat)
    requires x in multiset(t)
    ensures k < |t| && t[k] == x
  {
    assert x in t;
    k :| 0 <= k < |t| && t[k] == x;
  }

  lemma DropFirst(s: seq<nat>)
    requires s != []
    ensures multiset(s[1..]) == multiset(s) - multiset{s[0]}
  {
    assert s == [s[0]] + s[1..];
  }

  lemma MapFirst(f: nat -> nat, s: seq<nat>)
    requires s != []
    ensures multiset(MapSeq(f, s)) == multiset(MapSeq(f, s[1..])) + multiset{f(s[0])}
  {
    assert MapSeq(f, s) == [f(s[0])] + MapSeq(f, s[1..]);
  }

  /** t without its entry at position k. */
  function RemoveAt(t: seq<nat>, k: nat): (r: seq<nat>)
    requires k < |t|
    ensures multiset(r) == multiset(t) - multiset{t[k]}
  {
    assert t == t[..k] + [t[k]] + t[k + 1..];
    t[..k] + t[k + 1..]
  }

  lemma MapRemoveAt(f: nat -> nat, t: seq<nat>, k: nat)
    requires k < |t|
    ensures multiset(MapSeq(f, t)) == multiset(MapSeq(f, RemoveAt(t, k))) + multiset{f(t[k])}
  {
    assert MapSeq(f, t) == MapSeq(f, t[..k]) + [f(t[k])] + MapSeq(f, t[k + 1..]);
    assert MapSeq(f, RemoveAt(t, k)) == MapSeq(f, t[..k]) + MapSeq(f, t[k + 1..]);
  }

  /** The number of entries equal to 1 (the ones of a 0/1 row or column). */
  function Ones(s: seq<nat>): nat
  {
    if s == [] then 0 else Ones(s[..|s| - 1]) + (if s[|s| - 1] == 1 then 1 else 0)
  }

  lemma {:induction false} OnesMultiset(s: seq<nat>)
    ensures Ones(s) == multiset(s)[1]
  {
    if s != [] {
      OnesMultiset(s[..|s| - 1]);
      assert s == s[..|s| - 1] + [s[|s| - 1]];
    }
  }

  /** The row of length n that is 1 at column x and 0 elsewhere. */
  function Indicator(n: nat, x: nat): (row: seq<nat>)
    ensures |row| == n && forall c :: 0 <= c < n ==> row[c] == if c == x then 1 else 0
  {
    seq(n, c requires 0 <= c < n => if c == x then 1 else 0)
  }

  /** An indicator row has a single one when x is one of its columns, and none otherwise. */
  lemma {:induction false} IndicatorOnes(n: nat, x: nat)
    ensures Ones(Indicator(n, x)) == if x < n then 1 else 0
  {
    if n > 0 {
      IndicatorOnes(n - 1, x);
      assert Indicator(n, x)[..n - 1] == Indicator(n - 1, x);
    }
  }

  /** Counting the ones of an indicator row is CountBelow. */
  lemma {:induction false} OnesCountBelow(s: seq<nat>, x: nat, lo: nat, hi: nat)
    requires hi <= |s|
    ensures Ones(seq(hi, j requires 0 <= j < hi => if lo <= j && s[j] < x then 1 else 0)) == CountBelow(s, x, lo, hi)
  {
    if hi > 0 {
      OnesCountBelow(s, x, lo, hi - 1);
      assert seq(hi, j requires 0 <= j < hi => if lo <= j && s[j] < x then 1 else 0)[..hi - 1]
          == seq(hi - 1, j requires 0 <= j < hi - 1 => if lo <= j && s[j] < x then 1 else 0);
    }
  }

  /** Some later position j > i holds value c, and c is below the value at i. */
  predicate Hit(s: seq<nat>, i: nat, c: nat, hi: nat)
    requires i < |s| && hi <= |s|
  {
    exists j :: i < j < hi && s[j] == c && c < s[i]
  }

  lemma HitStep(s: seq<nat>, i: nat, c: nat, j: nat)
    requires i < |s| && j < |s|
    ensures Hit(s, i, c, j + 1) <==> Hit(s, i, c, j) || (i < j && s[j] == c && c < s[i])
  {
    if Hit(s, i, c, j + 1) {
      var j' :| i < j' < j + 1 && s[j'] == c && c < s[i];
      assert j' < j || j' == j;
    }
  }

  /** Entry (i, c) of the Rothe diagram: 1 when a later value c is below the value at i. */
  function RotheEntry(s: seq<nat>, i: nat, c: nat): nat
    requires i < |s|
  {
    if Hit(s, i, c, |s|) then 1 else 0
  }

  /** Every row of the permutation matrix has a single one, at the column of its value. */
  lemma MatrixRowOnes(s: seq<nat>, r: nat)
    requires IsPermutation(s) && r < |s|
    ensures Ones(Indicator(|s|, s[r])) == 1
  {
    PermutationValues(s);
    IndicatorOnes(|s|, s[r]);
  }

  /** Every column of the permutation matrix has a single one: each value occurs once. */
  lemma MatrixColumnOnes(s: seq<nat>, c: nat)
    requires IsPermutation(s) && c < |s|
    ensures Ones(seq(|s|, r requires 0 <= r < |s| => if s[r] == c then 1 else 0)) == 1
  {
    var g := x => if x == c then 1 else 0;
    MapMultiset(g, s, Range(|s|));
    OnesMultiset(MapSeq(g, s));
    OnesMultiset(MapSeq(g, Range(|s|)));
    assert MapSeq(g, s) == seq(|s|, r requires 0 <= r < |s| => if s[r] == c then 1 else 0);
    assert MapSeq(g, Range(|s|)) == Indicator(|s|, c);
    IndicatorOnes(|s|, c);
  }

  /** Row i of the Rothe diagram has as many ones as the Lehmer code's entry i. */
  lemma RotheRowOnes(s: seq<nat>, i: nat)
    requires IsPermutation(s) && i < |s|
    ensures Ones(seq(|s|, c requires 0 <= c < |s| => RotheEntry(s, i, c))) == LehmerCode(s)[i]
  {
    var n := |s|;
    var f := (c: nat) => RotheEntry(s, i, c);
    MapMultiset(f, Range(n), s);
    OnesMultiset(MapSeq(f, Range(n)));
    OnesMultiset(MapSeq(f, s));
    assert MapSeq(f, Range(n)) == seq(n, c requires 0 <= c < n => RotheEntry(s, i, c));
    RotheByPosition(s, i, f);
    OnesCountBelow(s, s[i], i + 1, n);
  }

  /** Read by the position of its value, row i of the Rothe diagram marks the later, smaller values. */
  lemma RotheByPosition(s: seq<nat>, i: nat, f: nat -> nat)
    requires IsPermutation(s) && i < |s|
    requires forall c :: f(c) == RotheEntry(s, i, c)
    ensures MapSeq(f, s) == seq(|s|, j requires 0 <= j < |s| => if i + 1 <= j && s[j] < s[i] then 1 else 0)
  {
    PermutationValues(s);
    forall j | 0 <= j < |s| ensures f(s[j]) == if i + 1 <= j && s[j] < s[i] then 1 else 0 {
      RotheAt(s, i, j);
    }
  }

  lemma RotheAt(s: seq<nat>, i: nat, j: nat)
    requires i < |s| && j < |s|
    requires forall a, b :: 0 <= a < b < |s| ==> s[a] != s[b]
    ensures RotheEntry(s, i, s[j]) == if i + 1 <= j && s[j] < s[i] then 1 else 0
  {
    if Hit(s, i, s[j], |s|) {
      var j' :| i < j' < |s| && s[j'] == s[j] && s[j] < s[i];
      assert j' == j;
    }
  }

  method SortInPlace(a: array<nat>)
    modifies a
    ensures Sorted(a[..])
    ensures multiset(a[..]) == multiset(old(a[..]))
  {
    for i := 0 to a.Length
      invariant Sorted(a[..i])
      invariant multiset(a[..]) == multiset(old(a[..]))
    {
      Insert(a, i);
    }
    assert a[..a.Length] == a[..];
  }

  /** Moves a[i] left past every larger element, so that a[..i + 1] becomes sorted. */
  method Insert(a: array<nat>, i: nat)
    requires i < a.Length && Sorted(a[..i])
    modifies a
    ensures Sorted(a[..i + 1])
    ensures multiset(a[..]) == multiset(old(a[..]))
  {
    var j := i;
    while j > 0 && a[j - 1] > a[j]
      invariant 0 <= j <= i
      invariant multiset(a[..]) == multiset(old(a[..]))
      invariant forall x, y :: 0 <= x < y <= i && y != j ==> a[x] <= a[y]
      invariant 0 < j < i ==> a[j - 1] <= a[j + 1]
      decreases j
    {
      Swap(a, j - 1, j);
      j := j - 1;
    }
  }

  method Swap(a: array<nat>, x: nat, y: nat)
    requires x < y < a.Length
    modifies a
    ensures a[..] == old(a[..])[x := old(a[y])][y := old(a[x])]
    ensures multiset(a[..]) == multiset(old(a[..]))
  {
    a[x], a[y] := a[y], a[x];
  }

  datatype PermParseError = PermParseError

  /** A permutation; the field inner is private in the source and only built validated. */
  datatype Perm = Perm(inner: seq<nat>) {

    predicate Valid()
    {
      IsPermutation(inner)
    }

    /** len(). */
    function Len(): nat
    {
      |inner|
    }

    /** Index<usize>: the value at position i, which is itself below len(). */
    function At(i: nat): (x: nat)
      requires i < Len()
      ensures Valid() ==> x < Len()
    {
      if Valid() then PermutationValues(inner); inner[i] else inner[i]
    }

    /** lehmer(): entry i counts the positions j > i with a smaller value. */
    method Lehmer() returns (code: seq<nat>)
      ensures code == LehmerCode(inner)
    {
      var n := |inner|;
      var res := new nat[n](_ => 0);
      for i := 0 to n
        invariant forall k :: 0 <= k < i ==> res[k] == CountBelow(inner, inner[k], k + 1, n)
        invariant forall k :: i <= k < n ==> res[k] == 0
      {
        for j := i + 1 to n
          invariant forall k :: 0 <= k < i ==> res[k] == CountBelow(inner, inner[k], k + 1, n)
          invariant forall k :: i < k < n ==> res[k] == 0
          invariant res[i] == CountBelow(inner, inner[i], i + 1, j)
        {
          if inner[j] < inner[i] {
            res[i] := res[i] + 1;
          }
        }
      }
      code := res[..];
    }

    /** compose_with(other), that is self(other(_)); the source panics when the lengths differ. */
    method ComposeWith(other: Perm) returns (r: Perm)
      requires Valid() && other.Valid() && Len() == other.Len()
      ensures r == Compose(this, other)
    {
      var n := Len();
      PermutationValues(other.inner);
      var res := new nat[n](_ => 0);
      for i := 0 to n
        invariant forall k :: 0 <= k < i ==> res[k] == inner[other.inner[k]]
      {
        res[i] := inner[other.inner[i]];
      }
      r := Perm(res[..]);
    }

    /** matrix(): the 0/1 matrix with a one at (i, self[i]) for every row i. */
    method Matrix() returns (m: SqMat<nat>)
      requires Valid()
      ensures fresh(m.inner) && m.Valid() && m.dim == Len()
      ensures forall r, c :: 0 <= r < Len() && 0 <= c < Len() ==> m.Get(r, c) == if c == inner[r] then 1 else 0
      ensures forall r :: 0 <= r < Len() ==> Ones(m.Row(r)) == 1
      ensures forall c :: 0 <= c < Len() ==> Ones(m.Col(c)) == 1
    {
      var n := Len();
      PermutationValues(inner);
      m := new SqMat.New(n, 0);
      for i := 0 to n
        invariant m.Valid() && m.dim == n
        invariant forall r, c :: 0 <= r < n && 0 <= c < n ==> m.Get(r, c) == if r < i && c == inner[r] then 1 else 0
      {
        m.Set(i, inner[i], 1);
      }
      forall r | 0 <= r < n ensures Ones(m.Row(r)) == 1 {
        assert m.Row(r) == Indicator(n, inner[r]);
        MatrixRowOnes(inner, r);
      }
      forall c | 0 <= c < n ensures Ones(m.Col(c)) == 1 {
        assert m.Col(c) == seq(n, r requires 0 <= r < n => if inner[r] == c then 1 else 0);
        MatrixColumnOnes(inner, c);
      }
    }

    /**
     * rothe(): the Rothe diagram, with a one at (i, c) when some j > i has self[j] == c < self[i].
     * Row i has exactly lehmer()[i] ones.
     */
    method Rothe() returns (m: SqMat<nat>)
      requires Valid()
      ensures fresh(m.inner) && m.Valid() && m.dim == Len()
      ensures forall r, c :: 0 <= r < Len() && 0 <= c < Len() ==> m.Get(r, c) == RotheEntry(inner, r, c)
      ensures forall r :: 0 <= r < Len() ==> Ones(m.Row(r)) == LehmerCode(inner)[r]
    {
      var n := Len();
      PermutationValues(inner);
      m := new SqMat.New(n, 0);
      for i := 0 to n
        invariant m.Valid() && m.dim == n
        invariant forall r, c :: 0 <= r < n && 0 <= c < n ==> m.Get(r, c) == if r < i then RotheEntry(inner, r, c) else 0
      {
        for j := 0 to n
          invariant m.Valid() && m.dim == n
          invariant forall r, c :: 0 <= r < n && 0 <= c < n ==>
                      m.Get(r, c) == if r < i then RotheEntry(inner, r, c)
                                     else if r == i then (if Hit(inner, i, c, j) then 1 else 0)
                                     else 0
        {
          if i < j && inner[i] > inner[j] {
            m.Set(i, inner[j], 1);
          }
          forall c | 0 <= c < n ensures Hit(inner, i, c, j + 1) <==> Hit(inner, i, c, j) || (i < j && inner[j] == c && c < inner[i]) {
            HitStep(inner, i, c, j);
          }
        }
      }
      forall r | 0 <= r < n ensures Ones(m.Row(r)) == LehmerCode(inner)[r] {
        assert m.Row(r) == seq(n, c requires 0 <= c < n => RotheEntry(inner, r, c));
        RotheRowOnes(inner, r);
      }
    }

    /** Display: "[" followed by the values joined by ", " and then "]". */
    function ToString(): string
    {
      "[" + Join(Rendered(inner), ", ") + "]"
    }
  }

  /** The decimal text of every value. */
  function Rendered(s: seq<nat>): (ts: seq<string>)
    ensures |ts| == |s| && forall k :: 0 <= k < |s| ==> ts[k] == NatToString(s[k])
  {
    seq(|s|, k requires 0 <= k < |s| => NatToString(s[k]))
  }

  /** Perm::new: the validated constructor, which sorts a copy of v and compares it with 0..n. */
  method New(v: seq<nat>) returns (r: Option<Perm>)
    ensures r.Some? <==> IsPermutation(v)
    ensures r.Some? ==> r.value.inner == v && r.value.Valid()
  {
    var sort := new nat[|v|](k requires 0 <= k < |v| => v[k]);
    assert sort[..] == v;
    SortInPlace(sort);
    var k := 0;
    while k < sort.Length && sort[k] == k
      invariant 0 <= k <= sort.Length
      invariant forall j :: 0 <= j < k ==> sort[j] == j
    {
      k := k + 1;
    }
    SortedIsRange(sort[..], v);
    if k < sort.Length {
      assert sort[..][k] != Range(|v|)[k];
      r := None;
    } else {
      assert sort[..] == Range(|v|);
      r := Some(NewUnchecked(v));
    }
  }

  /** Perm::new_unchecked: wraps v, whose caller vouches that it is a permutation. */
  function NewUnchecked(v: seq<nat>): (p: Perm)
    requires IsPermutation(v)
    ensures p.Valid() && p.inner == v && p.Len() == |v|
  {
    Perm(v)
  }

  /** Perm::long(n): the longest permutation n - 1, ..., 1, 0. */
  function Long(n: nat): (p: Perm)
    ensures p.Valid() && p.Len() == n
    ensures forall i :: 0 <= i < n ==> p.inner[i] == n - 1 - i
  {
    DescendingIsPermutation(n);
    Perm(Descending(n))
  }

  /** Composition self(other(_)) of permutations of equal length is again a permutation. */
  function Compose(a: Perm, b: Perm): (r: Perm)
    requires a.Valid() && b.Valid() && a.Len() == b.Len()
    ensures r.Valid() && r.Len() == a.Len()
    ensures forall i :: 0 <= i < a.Len() ==> b.inner[i] < a.Len() && r.inner[i] == a.inner[b.inner[i]]
  {
    var n := a.Len();
    var f := (k: nat) => if k < |a.inner| then a.inner[k] else 0;
    PermutationValues(b.inner);
    MapMultiset(f, b.inner, Range(n));
    assert MapSeq(f, Range(n)) == a.inner;
    Perm(MapSeq(f, b.inner))
  }

  /** The tokens read one by one; the first one that is not a number makes the whole read fail. */
  function ReadAll(tokens: seq<string>): (r: Option<seq<nat>>)
    ensures r.Some? <==> forall k :: 0 <= k < |tokens| ==> ParseNat(Trim(tokens[k])).Some?
    ensures r.Some? ==> |r.value| == |tokens| && forall k :: 0 <= k < |tokens| ==> ParseNat(Trim(tokens[k])) == Some(r.value[k])
  {
    if tokens == [] then Some([])
    else
      match ParseNat(Trim(tokens[0]))
      case None => None
      case Some(x) =>
        match ReadAll(tokens[1..])
        case None =>
          assert forall k :: 0 <= k < |tokens| - 1 ==> tokens[1..][k] == tokens[k + 1];
          None
        case Some(xs) => Some([x] + xs)
  }

  /**
   * parse_perm(input, delim): trim the input, split it on delim, trim and parse each piece;
   * fail when a piece is not a number or the numbers do not form a permutation.
   * An empty delimiter always fails: splitting on "" yields an empty first piece.
   */
  function ParsePerm(input: string, delim: string): (r: Result<Perm, PermParseError>)
    ensures r.Ok? ==> r.value.Valid()
    ensures r.Ok? <==> delim != [] && ReadAll(Split(Trim(input), delim)).Some? &&
                       IsPermutation(ReadAll(Split(Trim(input), delim)).value)
    ensures r.Ok? ==> r.value.inner == ReadAll(Split(Trim(input), delim)).value
  {
    if delim == [] then Err(PermParseError)
    else
      match ReadAll(Split(Trim(input), delim))
      case None => Err(PermParseError)
      case Some(v) => if IsPermutation(v) then Ok(Perm(v)) else Err(PermParseError)
  }

  /** FromStr: parse_perm with delimiter ",". */
  function FromStr(s: string): Result<Perm, PermParseError>
  {
    ParsePerm(s, ",")
  }

  lemma {:induction false} JoinEnds(parts: seq<string>, sep: string)
    requires |parts| >= 1 && forall k :: 0 <= k < |parts| ==> parts[k] != []
    ensures Join(parts, sep) != []
    ensures Join(parts, sep)[0] == parts[0][0]
    ensures Join(parts, sep)[|Join(parts, sep)| - 1] == parts[|parts| - 1][|parts[|parts| - 1]| - 1]
  {
    if |parts| > 1 {
      JoinEnds(parts[1..], sep);
    }
  }

  /** The displayed values joined by ", " start and end with a digit. */
  lemma RenderedEnds(v: seq<nat>)
    requires |v| > 0
    ensures Join(Rendered(v), ", ") != []
    ensures !IsSpace(Join(Rendered(v), ", ")[0])
    ensures !IsSpace(Join(Rendered(v), ", ")[|Join(Rendered(v), ", ")| - 1])
  {
    JoinEnds(Rendered(v), ", ");
  }

  /** Splitting the joined values on "," gives each value's text, padded by one space after the first. */
  lemma RenderedSplits(v: seq<nat>)
    requires |v| > 0
    ensures Split(Join(Rendered(v), ", "), ",") == Padded(Rendered(v), " ")
  {
    var parts := Rendered(v);
    var qs := Padded(parts, " ");
    assert ", " == [','] + " ";
    JoinPadded(parts, ',', " ");
    PaddedLacks(v);
    SplitJoin(qs, ',');
  }

  /** No padded piece of the displayed values contains a comma. */
  lemma PaddedLacks(v: seq<nat>)
    requires |v| > 0
    ensures forall k :: 0 <= k < |v| ==> Lacks(Padded(Rendered(v), " ")[k], ',')
  {
    forall k | 0 <= k < |v| ensures Lacks(Padded(Rendered(v), " ")[k], ',') {
      PieceLacks(v, k);
    }
  }

  lemma PieceLacks(v: seq<nat>, k: nat)
    requires 0 <= k < |v|
    ensures Lacks(Padded(Rendered(v), " ")[k], ',')
  {
    var pad := PieceText(v, k);
    var t := NatToString(v[k]);
    assert Lacks(pad, ',');
    assert Lacks(t, ',');
    LacksConcat(pad, t, ',');
  }

  /** Every padded piece trims back to a value's text and so reads back as that value. */
  lemma RenderedReads(v: seq<nat>)
    requires |v| > 0
    ensures ReadAll(Padded(Rendered(v), " ")) == Some(v)
  {
    var qs := Padded(Rendered(v), " ");
    forall k | 0 <= k < |qs| ensures ParseNat(Trim(qs[k])) == Some(v[k]) {
      PieceReads(v, k);
    }
    var r := ReadAll(qs);
    assert r.Some?;
    assert r.value == v;
  }

  lemma PieceReads(v: seq<nat>, k: nat)
    requires 0 <= k < |v|
    ensures ParseNat(Trim(Padded(Rendered(v), " ")[k])) == Some(v[k])
  {
    var pad := PieceText(v, k);
    NumberReads(pad, v[k], Padded(Rendered(v), " ")[k]);
  }

  /** Piece k of the display's split is white space followed by the k-th number. */
  lemma PieceText(v: seq<nat>, k: nat) returns (pad: string)
    requires 0 <= k < |v|
    ensures forall j :: 0 <= j < |pad| ==> IsSpace(pad[j])
    ensures Padded(Rendered(v), " ")[k] == pad + NatToString(v[k])
  {
    var parts := Rendered(v);
    assert parts[k] == NatToString(v[k]);
    if k > 0 {
      pad := " ";
    } else {
      pad := "";
      assert parts[k] == "" + parts[k];
    }
  }

  /** A number's text after white space reads back as the number. */
  lemma NumberReads(pad: string, n: nat, q: string)
    requires forall k :: 0 <= k < |pad| ==> IsSpace(pad[k])
    requires q == pad + NatToString(n)
    ensures ParseNat(Trim(q)) == Some(n)
  {
    TrimPadded(pad, NatToString(n));
    ParseNatToString(n);
  }

  /**
   * Display and parsing agree: the text between the brackets of a non-empty permutation's
   * display parses back, with delimiter ",", to the same permutation, also when white space
   * surrounds it.
   */
  lemma DisplayParses(p: Perm, pad: string)
    requires p.Valid() && p.Len() > 0
    requires forall k :: 0 <= k < |pad| ==> IsSpace(pad[k])
    ensures p.ToString() == "[" + Join(Rendered(p.inner), ", ") + "]"
    ensures FromStr(pad + Join(Rendered(p.inner), ", ") + pad) == Ok(p)
  {
    var text := Join(Rendered(p.inner), ", ");
    RenderedEnds(p.inner);
    TrimBoth(pad, text);
    RenderedSplits(p.inner);
    RenderedReads(p.inner);
  }

  lemma TrimBoth(pad: string, s: string)
    requires forall k :: 0 <= k < |pad| ==> IsSpace(pad[k])
    requires s != [] && !IsSpace(s[0]) && !IsSpace(s[|s| - 1])
    ensures Trim(pad + s + pad) == s
  {
    TrimStartPadded(pad, s + pad);
    assert pad + s + pad == pad + (s + pad);
    TrimEndPadded(s, pad);
  }

  /** The example permutation [0, 3, 2, 1] is valid. */
  lemma ExampleValid()
    ensures Perm([0, 3, 2, 1]).Valid()
  {
    assert Range(4) == [0, 1, 2, 3];
    assert multiset([0, 3, 2, 1]) == multiset{0, 1, 2, 3};
    assert multiset([0, 1, 2, 3]) == multiset{0, 1, 2, 3};
  }

  lemma ExampleRendered()
    ensures Rendered([0, 3, 2, 1]) == ["0", "3", "2", "1"]
  {
    assert NatToString(0) == "0" && NatToString(3) == "3";
    assert NatToString(2) == "2" && NatToString(1) == "1";
  }

  /** The example permutation displays as "[0, 3, 2, 1]". */
  lemma ExampleDisplay()
    ensures Join(Rendered([0, 3, 2, 1]), ", ") == "0, 3, 2, 1"
    ensures Perm([0, 3, 2, 1]).ToString() == "[0, 3, 2, 1]"
  {
    ExampleRendered();
    var parts := ["0", "3", "2", "1"];
    assert parts[1..][1..][1..] == ["1"];
    assert Join(parts[1..][1..], ", ") == "2, 1";
    assert Join(parts[1..], ", ") == "3, 2, 1";
  }

  lemma ExampleText()
    ensures " " + Join(Rendered([0, 3, 2, 1]), ", ") + " " == " 0, 3, 2, 1 "
  {
    ExampleDisplay();
  }

  /** " 0, 3, 2, 1 " parses, after trimming, to the example permutation. */
  lemma ExampleParse()
    ensures FromStr(" 0, 3, 2, 1 ") == Ok(Perm([0, 3, 2, 1]))
  {
    ExampleValid();
    DisplayParses(Perm([0, 3, 2, 1]), " ");
    ExampleText();
  }

  /** The values written with bare commas between them parse back to the same permutation. */
  lemma CompactParses(p: Perm)
    requires p.Valid() && p.Len() > 0
    ensures FromStr(Join(Rendered(p.inner), ",")) == Ok(p)
  {
    var text := Join(Rendered(p.inner), ",");
    CompactTrims(p.inner);
    CompactSplits(p.inner);
    CompactReads(p.inner);
    assert ReadAll(Split(Trim(text), ",")) == Some(p.inner);
  }

  lemma CompactTrims(v: seq<nat>)
    requires |v| > 0
    ensures Trim(Join(Rendered(v), ",")) == Join(Rendered(v), ",")
  {
    var text := Join(Rendered(v), ",");
    JoinEnds(Rendered(v), ",");
    TrimPadded("", text);
    assert "" + text == text;
  }

  lemma CompactSplits(v: seq<nat>)
    requires |v| > 0
    ensures Split(Join(Rendered(v), ","), ",") == Rendered(v)
  {
    SplitJoin(Rendered(v), ',');
  }

  lemma CompactReads(v: seq<nat>)
    ensures ReadAll(Rendered(v)) == Some(v)
  {
    var parts := Rendered(v);
    forall k | 0 <= k < |parts| ensures ParseNat(Trim(parts[k])) == Some(v[k]) {
      NumberReads("", v[k], parts[k]);
    }
    var r := ReadAll(parts);
    assert r.Some? && r.value == v;
  }

  /** "0,3,2,1" parses to the example permutation. */
  lemma ExampleCompactParse()
    ensures FromStr("0,3,2,1") == Ok(Perm([0, 3, 2, 1]))
  {
    ExampleValid();
    CompactParses(Perm([0, 3, 2, 1]));
    ExampleCompactText();
  }

  lemma ExampleCompactText()
    ensures Join(Rendered([0, 3, 2, 1]), ",") == "0,3,2,1"
  {
    ExampleRendered();
    var parts := ["0", "3", "2", "1"];
    assert parts[1..][1..][1..] == ["1"];
    assert Join(parts[1..][1..], ",") == "2,1";
    assert Join(parts[1..], ",") == "3,2,1";
  }

  /** An array with a repeated value is rejected. */
  lemma RejectsDuplicate()
    ensures !IsPermutation([0, 2, 1, 1])
    ensures FromStr("0,2,1,1").Err?
  {
    RepeatedNotPermutation([0, 2, 1, 1], 2, 3);
    RepeatedRejected([0, 2, 1, 1], 2, 3);
    DuplicateText();
  }

  lemma DuplicateText()
    ensures Join(Rendered([0, 2, 1, 1]), ",") == "0,2,1,1"
  {
    assert Rendered([0, 2, 1, 1]) == ["0", "2", "1", "1"] by {
      assert NatToString(0) == "0" && NatToString(2) == "2" && NatToString(1) == "1";
    }
    var parts := ["0", "2", "1", "1"];
    assert parts[1..][1..][1..] == ["1"];
    assert Join(parts[1..][1..], ",") == "1,1";
    assert Join(parts[1..], ",") == "2,1,1";
  }

  /** A sequence with a repeated value is not a permutation. */
  lemma RepeatedNotPermutation(s: seq<nat>, j: nat, k: nat)
    requires j < k < |s| && s[j] == s[k]
    ensures !IsPermutation(s)
  {
    if IsPermutation(s) {
      PermutationValues(s);
    }
  }

  /** Values with a repeat, written with commas between them, read back as numbers but are rejected. */
  lemma RepeatedRejected(v: seq<nat>, j: nat, k: nat)
    requires j < k < |v| && v[j] == v[k]
    ensures FromStr(Join(Rendered(v), ",")).Err?
  {
    CompactTrims(v);
    CompactSplits(v);
    CompactReads(v);
    RepeatedNotPermutation(v, j, k);
  }
}
