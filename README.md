# pipedreams in Dafny

A model of the pipedreams library. The library lists the reduced pipe dreams of a permutation
by applying mitosis operators over and over, and sums the dreams' monomials into a Schubert
polynomial. There are six modules:

- `Wrappers`: Option and Result.
- `Text`: the Rust string operations the parser and printers use, restricted to ASCII:
  - `str::trim`, `str::split` on a pattern and `slice::join`;
  - `usize::to_string` and `usize::from_str`.
- `Matrix` (src/matrix.rs): `SqMat`, a class that owns one flat, row-major `array`.
  - Entry `(r, c)` lives at slot `c + r * dim`.
  - Writes go through `Set`, whose contract is `IndexMut`.
  - `row`, `col`, `rows`, `Index<usize>`, `fill_with`, `map` and `Display` are stated against that buffer.
- `Permutation` (src/perm.rs): the `Perm` value and its bijection invariant.
  - Building a Perm: the validated constructor, which sorts a copy of its input in an array, and `long`.
  - Operations: composition, the Lehmer code, and the permutation matrix and Rothe diagram (these two are built in an `SqMat`).
  - Text: `Display`, `parse_perm` and `FromStr`.
- `PipeDream` (src/dream.rs): tiles; dreams as values; `start`; the mitosis operator and its ladder pass; the staircase seed `long`; the lexicographically first reduced word; the generator `reduced_dreams`; and `ReducedDreams::for_perm`.
  - A dream is its dimension together with the flat cells of its `SqMat`.
  - The imperative operations work the way the source does: clone the cells into an `SqMat`, write tiles in loops, and read back the cells.
  - Each such method is proved equal to a function that specifies it.
- `Poly` (src/poly.rs):
  - `Monomial::from(&Dream)`: a per-row count of crosses in an array, then listed in row order;
  - `Schubert::from_dreams`;
  - both `Display` implementations.

The main results are these:

- Each mitosis child has one cross fewer than its parent.
- Every call to mitosis inside `reduced_dreams` meets its row bound.
- Every dream `reduced_dreams(p)` returns has dimension `n` and exactly `n(n-1)/2 - |word|` crosses.
- A dream's monomial has degree equal to its number of crosses.
- Every way of building a `Perm` keeps the bijection invariant.
- For a non-empty permutation, the text between the brackets of its displayed form parses back to it, with or without white space around it, and so does its values joined by bare commas. The displayed form itself, brackets included, does not parse: `"[0"` is not a number. `"0,3,2,1"` and `" 0, 3, 2, 1 "` both parse to `[0, 3, 2, 1]`. Values with a repeat are rejected.

`ForPerm` and `ComputeReducedDreams` follow the code as written. This includes its early exit for an empty word (see Findings).

## Model

| member | source | states |
|---|---|---|
| Text.TrimSpec | src/perm.rs:155 | trimming gives the slice of the input left after cutting away its leading and trailing white space; everything cut is white space, and the result neither starts nor ends with white space |
| Text.TrimStartSpec | src/perm.rs:155 | trimming the front gives a suffix of the input that starts with a non-space character or is empty, and every character cut away is white space |
| Text.TrimEndSpec | src/perm.rs:155 | trimming the back gives a prefix of the input that ends with a non-space character or is empty, and every character cut away is white space |
| Text.TrimPadded | src/perm.rs:155-157 | white space added before or after a token that does not start or end with white space does not survive trimming |
| Text.ParseNat | src/perm.rs:158 | parsing a token succeeds exactly when it is a non-empty string of decimal digits |
| Text.NatToString | src/perm.rs:139 | a number prints as a non-empty string of digits, with no leading zero unless it is 0 |
| Text.ParseNatToString | src/perm.rs:139 | printing a number and then parsing the text gives the number back |
| Text.FindFrom | src/perm.rs:156 | finds the first occurrence of the pattern at or after a position, or reports that there is none |
| Text.Split | src/perm.rs:156 | splitting on a non-empty delimiter gives at least one piece, and joining the pieces with the delimiter restores the input |
| Text.SplitJoin | src/perm.rs:156 | splitting on a one-character delimiter undoes joining with it, when no part contains that character |
| Text.JoinPadded | src/perm.rs:141 | joining with ", " is joining with "," the parts after the first, each with a space in front |
| Matrix.OffsetSplit | src/matrix.rs:116 | dividing slot c + r*dim by dim recovers r, and the remainder recovers c |
| Matrix.FlatSplit | src/matrix.rs:116 | every slot of a dim*dim buffer is the slot of entry (k / dim, k % dim) |
| Matrix.OffsetInjective | src/matrix.rs:116 | two in-range entries share a slot exactly when they are the same entry |
| Matrix.ChunksConcat | src/matrix.rs:73 | the chunks of a buffer, concatenated, are the buffer |
| Matrix.ChunksOfSquare | src/matrix.rs:73 | a buffer of m*n elements cut into chunks of n gives m chunks, chunk r being slots r*n to r*n+n |
| Matrix.RenderRowsBreaks | src/matrix.rs:127-136 | the rendering holds one line break per row if no entry's text holds one |
| Matrix.SqMat.New | src/matrix.rs:17-22 | a fresh buffer of dim*dim default entries; every entry (r, c) is the default |
| Matrix.SqMat.FromVec | src/matrix.rs:30-36 | requires v to hold dim*dim entries; the buffer is v and entry (r, c) is v[c + r*dim] |
| Matrix.SqMat.CellAt | src/matrix.rs:111-117 | slot k of the buffer holds entry (k / dim, k % dim) |
| Matrix.SqMat.Set | src/matrix.rs:120-124 | writing (r, c) replaces slot c + r*dim and nothing else; every other entry and dim are unchanged |
| Matrix.SqMat.Row | src/matrix.rs:62-64 | row(r) has dim entries, entry c being (r, c) |
| Matrix.SqMat.Col | src/matrix.rs:67-69 | col(c) has dim entries, entry r being (r, c) |
| Matrix.SqMat.RowSlice | src/matrix.rs:93-100 | the flat slice r*dim .. r*dim+dim equals row(r) |
| Matrix.SqMat.Rows | src/matrix.rs:72-74 | rows() gives dim rows, row r being row(r), and together they are the whole buffer in order |
| Matrix.SqMat.FillWith | src/matrix.rs:45-49 | every slot k is overwritten, in flat order, with the value of the closure's k-th call; dim is unchanged |
| Matrix.SqMat.Map | src/matrix.rs:82-90 | a fresh matrix of the same dimension whose entry (i, j) is f of entry (i, j) |
| Matrix.SqMat.ToStringLines | src/matrix.rs:127-136 | Display emits exactly dim lines when no entry's text holds a line break |
| Permutation.PermutationValues | src/perm.rs:12 | under the invariant, every value is below n, no value repeats, and every value below n occurs |
| Permutation.SortedUnique | src/perm.rs:24-25 | two sorted sequences with the same elements are equal, so a sorted copy of v is determined by v's elements |
| Permutation.SortedIsRange | src/perm.rs:22-25 | the sorted copy equals 0..n exactly when v satisfies the bijection invariant |
| Permutation.SortInPlace | src/perm.rs:24 | the array ends sorted and holds the same elements |
| Permutation.New | src/perm.rs:21-31 | returns Some exactly when sorted v is 0..n; the Perm then holds v and satisfies the invariant |
| Permutation.NewUnchecked | src/perm.rs:39-41 | whoever calls it must guarantee that v is a permutation; the Perm then holds v and satisfies the invariant |
| Permutation.Perm.At | src/perm.rs:116-123 | indexing a valid permutation gives a value below its length |
| Permutation.LehmerCode | src/perm.rs:52-62 | entry i counts the positions j > i with a smaller value, so it is at most len-1-i |
| Permutation.Perm.Lehmer | src/perm.rs:52-62 | the nested loops compute the Lehmer code |
| Permutation.IdentityLehmer | src/perm.rs:52-62 | the Lehmer code of the identity is all zeros |
| Permutation.DescendingIsPermutation | src/perm.rs:67-71 | n-1, ..., 1, 0 is a permutation |
| Permutation.Long | src/perm.rs:67-71 | long(n) has length n, holds n-1-i at index i and satisfies the invariant |
| Permutation.Compose | src/perm.rs:125-131 | for permutations of equal length, the composition has entry i equal to self[other[i]], has the same length and is again a permutation |
| Permutation.Perm.ComposeWith | src/perm.rs:79-86 | requires equal lengths (the source panics otherwise); the loop computes the composition |
| Permutation.Perm.Matrix | src/perm.rs:95-101 | entry (i, c) is 1 exactly when c == self[i]; every row and every column holds exactly one 1 |
| Permutation.MatrixColumnOnes | src/perm.rs:95-101 | every column of the permutation matrix holds a single one, because every value occurs once |
| Permutation.Perm.Rothe | src/perm.rs:103-113 | entry (i, c) is 1 exactly when some j > i has self[j] == c < self[i]; row i holds lehmer()[i] ones |
| Permutation.RotheRowOnes | src/perm.rs:103-113 | row i of the Rothe diagram holds as many ones as the Lehmer code's entry i |
| Permutation.Rendered | src/perm.rs:138-141 | every value is rendered by its decimal text, in order |
| Permutation.ReadAll | src/perm.rs:154-160 | reading the tokens succeeds exactly when every trimmed token is a number, and then gives those numbers in order |
| Permutation.ParsePerm | src/perm.rs:153-172 | Ok exactly when the delimiter is non-empty, every trimmed piece of the trimmed input is a number, and the numbers form a permutation; the result then holds those numbers |
| Permutation.DisplayParses | src/perm.rs:133-144 | Display is "[" + values joined by ", " + "]", and for a non-empty permutation the text between the brackets parses back to the same permutation, even with white space around it |
| Permutation.CompactParses | src/perm.rs:174-181 | the values of a non-empty permutation joined by bare commas parse back to the same permutation |
| Permutation.ExampleDisplay | src/perm.rs:133-144 | [0, 3, 2, 1] displays as "[0, 3, 2, 1]" |
| Permutation.ExampleParse | src/perm.rs:174-181 | " 0, 3, 2, 1 " parses to [0, 3, 2, 1] |
| Permutation.ExampleCompactParse | src/main.rs:13 | "0,3,2,1" parses to [0, 3, 2, 1] |
| Permutation.RepeatedNotPermutation | src/perm.rs:24-25 | a sequence in which some value appears at two positions is not a permutation, so Perm::new's sorted copy cannot equal 0..n |
| Permutation.RepeatedRejected | src/perm.rs:162-168 | values with a repeat, joined by commas, read back as numbers but parsing returns Err |
| Permutation.RejectsDuplicate | src/perm.rs:162-168 | [0, 2, 1, 1] is not a permutation and "0,2,1,1" parses to Err |
| PipeDream.CountCrossMultiplicity | src/poly.rs:24-29 | the cross count the proofs use is the number of tiles equal to Cross, the tiles the source's counting loop tests for |
| PipeDream.Dream.At | src/dream.rs:79-85 | an in-range tile (r, c) is read from a slot inside the buffer |
| PipeDream.FromVec | src/dream.rs:25-29 | requires dim*dim tiles; the dream has dimension dim |
| PipeDream.StartFrom | src/dream.rs:40-46 | the first elbow of row i at or after a column, or dim; every tile passed over is a cross |
| PipeDream.Start | src/dream.rs:40-46 | start(i) is at most dim, every tile left of it in row i is a cross, and the tile at start(i) is an elbow when start(i) < dim |
| PipeDream.CandidatesBelow | src/dream.rs:52 | exactly the columns p below the bound with p < start(i) and tile (i+1, p) not a cross, in increasing order |
| PipeDream.Child | src/dream.rs:53-61 | a child has the parent's dimension |
| PipeDream.LadderColumnwise | src/dream.rs:55-59 | after j ladder steps every tile equals its column-wise description: step j reads and writes only column j, so column order does not matter |
| PipeDream.ChildAt | src/dream.rs:53-60 | tile (r, c) of the child is decided by column c of the parent alone |
| PipeDream.ChildShape | src/dream.rs:53-60 | rows other than i and i+1 and columns right of p are kept; (i, p) is an elbow; left of p every (Cross, Elbow) pair becomes (Elbow, Cross) and every other pair is kept; row i+1 is all crosses left of p |
| PipeDream.LadderCrosses | src/dream.rs:54-60 | clearing (i, p) removes one cross and every ladder move keeps the count |
| PipeDream.ChildCrosses | src/dream.rs:51-60 | every child has exactly one cross fewer than its parent |
| PipeDream.OffspringSpec | src/dream.rs:49-64 | the offspring are the children of exactly the candidate columns, in increasing order, each with the parent's dimension and one cross fewer |
| PipeDream.LadderPass | src/dream.rs:55-60 | the ladder loop over the columns left of p, run on the cloned tiles, leaves them equal to the specified ladder pass |
| PipeDream.LadderMove | src/dream.rs:56-59 | one iteration of the ladder loop turns the tiles after j columns of the specified pass into those after j + 1 |
| PipeDream.BuildChild | src/dream.rs:53-61 | cloning the tiles, clearing (i, p) and running the ladder loop in an SqMat gives the child |
| PipeDream.Mitosis | src/dream.rs:49-64 | requires i+1 < dim; the loop returns the offspring, and the parent, a value, is unchanged |
| PipeDream.MitosisAll | src/dream.rs:111-117 | the free mitosis concatenates the offspring of every dream, in the dreams' order |
| PipeDream.OffspringAllDim | src/dream.rs:111-117 | the offspring of dreams of dimension n have dimension n |
| PipeDream.OffspringAllCrosses | src/dream.rs:111-117 | when every dream has K crosses, every dream of the offspring has K-1 |
| PipeDream.LongDream | src/dream.rs:66-76 | the staircase seed is a valid n x n dream |
| PipeDream.LongAt | src/dream.rs:66-76 | tile (r, c) of the seed is a cross exactly when r + c < n - 1 |
| PipeDream.StaircaseRow | src/dream.rs:69-73 | one pass of the inner loop gives row i its staircase tiles and leaves the other rows as they were |
| PipeDream.Long | src/dream.rs:66-76 | the nested loops in an SqMat of elbows build the staircase seed |
| PipeDream.LongRowCrosses | src/dream.rs:69-73 | row r of the staircase seed holds n-1-r crosses |
| PipeDream.LongCrosses | src/dream.rs:66-76 | the seed has n(n-1)/2 crosses |
| PipeDream.Descent | src/dream.rs:123 | (i - ci .. i).rev() is the ci letters i-1, i-2, ..., i-ci |
| PipeDream.WordPrefixSpec | src/dream.rs:122-124 | after m steps every letter is below m-1, and the length is the sum of the code entries read so far |
| PipeDream.ReducedWord | src/dream.rs:119-126 | the word's length is the sum of the Lehmer code, and every letter is at most len-2 |
| PipeDream.PushDescent | src/dream.rs:123 | pushing the letters of (i - ci .. i).rev() one at a time appends exactly the descent i-1, ..., i-ci |
| PipeDream.LexFirstReducedWord | src/dream.rs:119-126 | the reversed Lehmer entries satisfy ci <= i, so i - ci never underflows; the loops build the reduced word |
| PipeDream.ReverseInPlace | src/dream.rs:136 | the array ends as the reverse of its old contents |
| PipeDream.Apply | src/dream.rs:139-141 | folding mitosis over letters below n-1 keeps every dream at dimension n |
| PipeDream.ApplyCrosses | src/dream.rs:138-141 | every letter applied removes exactly one cross from every dream |
| PipeDream.WordOf | src/dream.rs:129-130 | the word of p composed with the longest permutation has the length of the sum of that composition's Lehmer code, and every letter is at most n-2 |
| PipeDream.ComputeReducedDreams | src/dream.rs:128-143 | compose, build the word, reverse it in place, seed with long(n), and fold mitosis; every mitosis call has i+1 < n |
| PipeDream.ReducedDreamsCrosses | src/dream.rs:128-143 | every output dream is n x n with exactly n(n-1)/2 - \|word\| crosses |
| PipeDream.LongestHasNoDreams | src/dream.rs:132-134 | for the longest permutation the word is empty, so no dream is returned, although the seed has the cross count a dream of it must have |
| PipeDream.ReducedDreamsCorrected | src/dream.rs:132-134 | the same as reduced_dreams, except that an empty word gives the seed alone |
| PipeDream.CorrectedCrosses | src/dream.rs:128-143 | the corrected generator's dreams are n x n with n(n-1)/2 - \|word\| crosses, and the output is never empty when the word is empty |
| PipeDream.LongestHasStaircase | src/dream.rs:132-134 | with the correction, the longest permutation's one dream is the staircase seed |
| PipeDream.ForPerm | src/dream.rs:94-100 | for_perm carries the permutation with the dreams reduced_dreams computes |
| Poly.PowersBelowSpec | src/poly.rs:23-33 | the listed rows are in range and strictly ascending, each paired with its positive number of crosses |
| Poly.PowersBelowComplete | src/poly.rs:23-30 | no row holding a cross is missing |
| Poly.MonomialOf | src/poly.rs:21-35 | one pair (i, p) per row holding a cross, with p its number of crosses, strictly ascending by row; rows without a cross are absent |
| Poly.DegreeBelow | src/poly.rs:24-33 | the exponents of the rows below m add up to those rows' crosses |
| Poly.MonomialDegree | src/poly.rs:21-35 | the exponents add up to the dream's number of crosses, and the monomial is empty exactly when there is no cross |
| Poly.TallyRow | src/poly.rs:25-29 | the inner loop adds one to row i's count for every cross of row i, so it ends at the row's number of crosses, and touches no other row's count |
| Poly.FromDream | src/poly.rs:21-35 | counting crosses per row in a table and listing the non-zero counts in row order gives the monomial |
| Poly.FactorReads | src/poly.rs:39-45 | a factor with exponent p >= 1 is "x_" and the row's digits, followed by "^" and the exponent's digits when p > 1, and both numbers read back |
| Poly.MonomialSplits | src/poly.rs:37-57 | the empty monomial renders as "1"; otherwise the rendering splits on "*" into the factors, one per pair, in order |
| Poly.PartIndicesSpec | src/poly.rs:67-80 | the positions of the dreams whose monomial is not 1, in increasing order, none missing |
| Poly.PartsInOrder | src/poly.rs:67-80 | part k is the monomial of the k-th dream with a non-empty monomial: dream order is kept, empty monomials are dropped, nothing is merged, and there are at most as many parts as dreams |
| Poly.FromDreams | src/poly.rs:67-80 | the loop keeps the non-empty monomials of the dreams in order and carries the permutation over unchanged |
| Poly.SchubertPluses | src/poly.rs:91-104 | the text starts with "S_" + perm + " = " and holds one '+' between each two parts, and none when there are no parts |
| Poly.SchubertHomogeneous | src/poly.rs:67-80 | every part of the Schubert polynomial of p has degree n(n-1)/2 - \|word\| |

## Left out

- src/main.rs is the demo driver: it parses "0,3,2,1", prints, and calls `expect`. Only its input is used, in `ExampleCompactParse`.
- src/lib.rs only declares modules.
- Accessors that only hand back a field or an iterator are not modelled as separate operations; their value is the field itself:
  - `Dream::dim` and `Dream::tiles`;
  - `ReducedDreams::perm` and `ReducedDreams::iter`;
  - `Monomial::powers`, `Schubert::perm` and `Schubert::parts`;
  - `Perm::iter`, `SqMat::dim`, `SqMat::iter`.
- `SqMat::iter_mut`, `rows_mut` and `IndexMut<usize>` hand out mutable borrows. Writes to a matrix are modelled only through `Set`, which is `IndexMut<(usize, usize)>`.
- Text.ParseNat: `usize::from_str` also accepts a leading `+` and fails on overflow. The model accepts only non-empty ASCII digit strings and has unbounded naturals.
- Text.Trim: `str::trim` also strips Unicode white space. The model strips the ASCII white space characters only.
- `HashMap` iteration order and `sort_unstable` inside `Monomial::from` are not modelled. The model counts crosses per row in an array and lists the non-zero counts in row order, which is what the sort produces.
- Permutation.SortInPlace: it is an insertion sort that stands in for `sort_unstable` in `Perm::new`. Only its result is modelled, sorted and with the same elements, not the library algorithm.
- Facts the code neither states nor checks are not claimed:
  - that the outputs are exactly the reduced pipe dreams of p;
  - that the number of crosses is the Coxeter length;
  - that the sum is the Schubert polynomial.
- `fmt::Formatter` errors, and `Display` for an arbitrary element type. Renderings are pure string functions, and `SqMat` renders through a given function from entries to text.
- Permutation.Perm.Matrix, Permutation.Perm.Rothe: the `u8` entries are modelled as naturals. They only ever hold 0 or 1.
- Matrix.SqMat.Get: it requires r, c < dim. In the source an out-of-range column reads into the next row, and `dim * dim` can overflow; neither is modelled.
- Matrix.SqMat.Rows, Matrix.SqMat.ToString: they require dim > 0. `slice::chunks(0)` panics there.
- PipeDream.Mitosis: it requires i + 1 < dim. The source reaches row i + 1 only for columns left of start(i), so it also works when i is the last row and that row starts with an elbow. That case never arises from `reduced_dreams`.
- PipeDream.Dream.At, Permutation.Perm.At: they require an in-range index. `Dream`'s index forwards to the flat buffer, where an out-of-range column reads into the next row, and `&self.inner[i]` panics when i is at least the length. No caller in the modelled code reaches either case.
- PipeDream.Start: it requires i < dim. For a larger i the source panics unless dim is 0.
- Lifetimes, cloning and borrowing: dreams and permutations are values, so a parent can never share storage with its children.

## Findings

| source | as written | input that shows it | evidently intended | confidence | as-written member | corrected member |
|---|---|---|---|---|---|---|
| src/dream.rs:132-134 | when the word of p composed with the longest permutation is empty, reduced_dreams returns no dream at all | p = [1, 0], the longest permutation of length 2: its composition with itself is the identity, whose word is empty | return the staircase seed long(n) alone: it is the one dream left when no mitosis is applied, and it has n(n-1)/2 - 0 crosses | medium, not executed | PipeDream.LongestHasNoDreams | PipeDream.LongestHasStaircase |
