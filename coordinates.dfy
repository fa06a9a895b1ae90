/** Coordinate arithmetic of the N-dimensional Minesweeper engine.

    The board stores its cells in one flat vector. This module converts an
    N-dimensional coordinate vector into an index of that vector and back, and
    enumerates the neighbours of a cell (its N-dimensional Moore neighbourhood).

    The flattening is a mixed-radix number with axis 0 as the least significant
    digit: index = sum of coords[i] * Stride(dims, i), where Stride(dims, 0) = 1
    and Stride(dims, i) = Stride(dims, i - 1) * dims[i - 1].

    Machine integers (usize, u32, i32) are modelled as unbounded naturals and
    integers. The requires clauses keep the source from indexing out of
    bounds or dividing by zero. For ToIndex and ToCoords they are exactly
    the conditions under which the source cannot panic. For GetNeighbors
    they suffice but are not necessary. */
module Coordinates {

  /** An N-dimensional coordinate vector, one component per axis. */
  type Coordinates = seq<nat>

  // ---------------------------------------------------------------------------
  // Arithmetic helpers
  // ---------------------------------------------------------------------------

  lemma MulComm(a: int, b: int)
    ensures a * b == b * a
  {
  }

  lemma MulDistrib(a: int, b: int, c: int)
    ensures (a + b) * c == a * c + b * c
  {
  }

  lemma MulAssoc(a: int, b: int, c: int)
    ensures (a * b) * c == a * (b * c)
  {
  }

  lemma MulNonNegative(a: nat, b: nat)
    ensures a * b >= 0
  {
  }

  lemma DivMod(a: nat, b: nat)
    requires b > 0
    ensures a == (a / b) * b + a % b && 0 <= a % b < b
  {
  }

  lemma MulMonotone(a: nat, b: nat, s: nat)
    requires a <= b
    ensures a * s <= b * s
  {
    MulDistrib(a, b - a, s);
    MulNonNegative(b - a, s);
  }

  /** A value written as a + x * s with 0 <= a < s has exactly one such form. */
  lemma DivModUnique(a: nat, x: nat, a': nat, x': nat, s: nat)
    requires a < s && a' < s
    requires a + x * s == a' + x' * s
    ensures x == x' && a == a'
  {
    if x < x' {
      MulDistrib(x, 1, s);
      MulMonotone(x + 1, x', s);
    } else if x' < x {
      MulDistrib(x', 1, s);
      MulMonotone(x' + 1, x, s);
    }
  }

  /** A number below s * d has quotient below d when divided by s. */
  lemma DivBelow(r: nat, s: nat, d: nat)
    requires s > 0 && r < s * d
    ensures r / s < d
  {
    DivMod(r, s);
    MulComm(s, d);
    if r / s >= d {
      MulMonotone(d, r / s, s);
    }
  }

  lemma MulDivCancel(a: nat, b: nat)
    requires b > 0
    ensures (a * b) / b == a
  {
    var p := a * b;
    DivMod(p, b);
    DivModUnique(p % b, p / b, 0, a, b);
  }

  /** a written as (q * c + r2) * b + r1 is q * (b * c) plus a remainder
      below b * c. */
  lemma Recompose(a: nat, b: nat, c: nat, p: nat, q: nat, r1: nat, r2: nat)
    requires a == p * b + r1 && r1 < b
    requires p == q * c + r2 && r2 < c
    ensures a == q * (b * c) + (r2 * b + r1)
    ensures r2 * b + r1 < b * c
  {
    MulDistrib(q * c, r2, b);
    MulAssoc(q, c, b);
    MulComm(c, b);
    MulDistrib(r2, 1, b);
    MulMonotone(r2 + 1, c, b);
  }

  /** Dividing by b and then by c is dividing by b * c. */
  lemma DivDiv(a: nat, b: nat, c: nat)
    requires b > 0 && c > 0
    ensures (a / b) / c == a / (b * c)
  {
    MulNonNegative(b, c);
    var bc: nat := b * c;
    var p: nat := a / b;
    var q: nat := p / c;
    DivMod(a, b);
    DivMod(p, c);
    Recompose(a, b, c, p, q, a % b, p % c);
    MulNonNegative(p % c, b);
    DivUnique(a, bc, q, (p % c) * b + a % b);
  }

  /** A value written as q * n + r with 0 <= r < n has quotient q. */
  lemma DivUnique(a: nat, n: nat, q: nat, r: nat)
    requires r < n && a == q * n + r
    ensures a / n == q
  {
    DivMod(a, n);
    DivModUnique(r, q, a % n, a / n, n);
  }

  // ---------------------------------------------------------------------------
  // Linear index of a coordinate vector
  // ---------------------------------------------------------------------------

  /** The weight of axis i: the product of the extents of the axes below i. */
  function Stride(dims: seq<nat>, i: nat): (s: nat)
    requires i <= |dims|
    ensures (forall j :: 0 <= j < i ==> dims[j] > 0) ==> s > 0
  {
    if i == 0 then 1 else Stride(dims, i - 1) * dims[i - 1]
  }

  /** The number of cells of a grid with extents dims. */
  function Product(dims: seq<nat>): nat
  {
    Stride(dims, |dims|)
  }

  /** Whether coords addresses a cell of the grid dims: one component per axis,
      each below its extent. */
  predicate IsValid(coords: Coordinates, dims: seq<nat>)
  {
    |coords| == |dims| && forall j :: 0 <= j < |dims| ==> coords[j] < dims[j]
  }

  /** The sum of coords[j] * Stride(dims, j) over the first m axes. */
  function PartialIndex(coords: Coordinates, dims: seq<nat>, m: nat): nat
    requires m <= |coords| <= |dims| + 1
  {
    if m == 0 then 0
    else PartialIndex(coords, dims, m - 1) + coords[m - 1] * Stride(dims, m - 1)
  }

  /** The mixed-radix value of coords: the linear index of the cell. */
  function IndexOf(coords: Coordinates, dims: seq<nat>): nat
    requires |coords| <= |dims| + 1
  {
    PartialIndex(coords, dims, |coords|)
  }

  /** Flattens a coordinate vector into its linear index, accumulating the
      stride axis by axis as the source does. Only the extents of the axes
      below the last coordinate are read. */
  method ToIndex(coords: Coordinates, dims: seq<nat>) returns (index: nat)
    requires |coords| <= |dims| + 1
    ensures index == IndexOf(coords, dims)
    ensures IsValid(coords, dims) ==> index < Product(dims)
  {
    index := 0;
    var stride: nat := 1;
    for i := 0 to |coords|
      invariant stride == Stride(dims, if i == 0 then 0 else i - 1)
      invariant index == PartialIndex(coords, dims, i)
    {
      if i > 0 {
        stride := stride * dims[i - 1];
      }
      index := index + coords[i] * stride;
    }
    if IsValid(coords, dims) {
      IndexBelowProduct(coords, dims);
    }
  }

  lemma {:induction false} PartialIndexBound(coords: Coordinates, dims: seq<nat>, m: nat)
    requires m <= |coords| <= |dims| + 1 && m <= |dims|
    requires forall j :: 0 <= j < m ==> coords[j] < dims[j]
    ensures PartialIndex(coords, dims, m) < Stride(dims, m)
  {
    if m > 0 {
      PartialIndexBound(coords, dims, m - 1);
      var st := Stride(dims, m - 1);
      // PartialIndex(m) < st + coords[m - 1] * st == (coords[m - 1] + 1) * st <= dims[m - 1] * st
      MulDistrib(coords[m - 1], 1, st);
      MulMonotone(coords[m - 1] + 1, dims[m - 1], st);
      MulComm(dims[m - 1], st);
    }
  }

  /** Every valid coordinate vector maps below the number of cells. */
  lemma IndexBelowProduct(coords: Coordinates, dims: seq<nat>)
    requires IsValid(coords, dims)
    ensures IndexOf(coords, dims) < Product(dims)
  {
    PartialIndexBound(coords, dims, |coords|);
  }

  lemma {:induction false} PartialIndexUnique(c: Coordinates, c': Coordinates, dims: seq<nat>, m: nat)
    requires m <= |c| <= |dims| + 1 && m <= |c'| <= |dims| + 1
    requires forall j :: 0 <= j < m - 1 ==> c[j] < dims[j] && c'[j] < dims[j]
    requires PartialIndex(c, dims, m) == PartialIndex(c', dims, m)
    ensures c[..m] == c'[..m]
  {
    if m > 0 {
      PartialIndexBound(c, dims, m - 1);
      PartialIndexBound(c', dims, m - 1);
      DivModUnique(PartialIndex(c, dims, m - 1), c[m - 1],
                   PartialIndex(c', dims, m - 1), c'[m - 1], Stride(dims, m - 1));
      PartialIndexUnique(c, c', dims, m - 1);
      assert c[..m] == c[..m - 1] + [c[m - 1]];
      assert c'[..m] == c'[..m - 1] + [c'[m - 1]];
    }
  }

  /** Two coordinate vectors of the grid's dimensionality whose components
      (all but the last) are below their extents and that have the same
      linear index are equal: the encoding is injective. */
  lemma IndexInjective(c: Coordinates, c': Coordinates, dims: seq<nat>)
    requires |c| == |c'| == |dims|
    requires forall j :: 0 <= j < |dims| - 1 ==> c[j] < dims[j] && c'[j] < dims[j]
    requires IndexOf(c, dims) == IndexOf(c', dims)
    ensures c == c'
  {
    PartialIndexUnique(c, c', dims, |dims|);
    assert c == c[..|dims|] && c' == c'[..|dims|];
  }

  /** The last component of a vector whose lower components are in range is
      in range exactly when its index is below the number of cells. */
  lemma LastComponentBound(c: Coordinates, dims: seq<nat>)
    requires |c| == |dims| > 0
    requires forall j :: 0 <= j < |dims| - 1 ==> c[j] < dims[j]
    requires IndexOf(c, dims) < Product(dims)
    ensures c[|dims| - 1] < dims[|dims| - 1]
  {
    var n := |dims|;
    PartialIndexBound(c, dims, n - 1);
    if c[n - 1] >= dims[n - 1] {
      MulMonotone(dims[n - 1], c[n - 1], Stride(dims, n - 1));
    }
  }

  // ---------------------------------------------------------------------------
  // Coordinate vector of a linear index
  // ---------------------------------------------------------------------------

  /** The source divides by the stride of every axis, so every extent except
      the last one must be positive. */
  predicate IsDecodable(dims: seq<nat>)
  {
    forall j :: 0 <= j < |dims| - 1 ==> dims[j] > 0
  }

  lemma {:induction false} PartialIndexOfZeros(c: Coordinates, dims: seq<nat>, m: nat)
    requires m <= |c| <= |dims| + 1
    requires forall j :: 0 <= j < m ==> c[j] == 0
    ensures PartialIndex(c, dims, m) == 0
  {
    if m > 0 {
      PartialIndexOfZeros(c, dims, m - 1);
    }
  }

  lemma {:induction false} PartialIndexUpdate(c: Coordinates, dims: seq<nat>, m: nat, i: nat, v: nat)
    requires m <= |c| <= |dims| + 1 && i < |c| && c[i] == 0
    ensures PartialIndex(c[i := v], dims, m)
            == PartialIndex(c, dims, m) + (if i < m then v * Stride(dims, i) else 0)
  {
    if m > 0 {
      PartialIndexUpdate(c, dims, m - 1, i, v);
    }
  }

  /** One step of the decoding loop: the component of axis i is the quotient
      of the remaining index by the stride of axis i, and the remainder is
      what the axes below still have to encode. */
  lemma DecodeStep(coords: Coordinates, dims: seq<nat>, i: nat, rest: nat)
    requires IsDecodable(dims) && |coords| == |dims| && i < |dims|
    requires i < |dims| - 1 ==> rest < Stride(dims, i + 1)
    requires coords[i] == 0
    ensures Stride(dims, i) > 0
    ensures 0 <= rest / Stride(dims, i) && 0 <= rest % Stride(dims, i) < Stride(dims, i)
    ensures i < |dims| - 1 ==> rest / Stride(dims, i) < dims[i]
    ensures rest + IndexOf(coords, dims)
            == rest % Stride(dims, i) + IndexOf(coords[i := rest / Stride(dims, i)], dims)
    ensures i > 0 ==> Stride(dims, i) / dims[i - 1] == Stride(dims, i - 1)
  {
    var s := Stride(dims, i);
    assert s > 0;
    if i < |dims| - 1 {
      DivBelow(rest, s, dims[i]);
    }
    PartialIndexUpdate(coords, dims, |dims|, i, rest / s);
    DivMod(rest, s);
    if i > 0 {
      MulDivCancel(Stride(dims, i - 1), dims[i - 1]);
    }
  }

  /** Decodes a linear index into a coordinate vector: first the stride of the
      last axis, then the components from the last axis down to axis 0 by
      division and remainder. The last component is not reduced modulo its
      extent, so an index past the end of the grid gives an out-of-range last
      component rather than wrapping around. */
  method ToCoords(index: nat, dims: seq<nat>) returns (coords: Coordinates)
    requires IsDecodable(dims)
    ensures |coords| == |dims|
    ensures forall j :: 0 <= j < |dims| - 1 ==> coords[j] < dims[j]
    ensures |dims| > 0 ==> IndexOf(coords, dims) == index
    ensures |dims| > 0 ==> (IsValid(coords, dims) <==> index < Product(dims))
  {
    var n := |dims|;
    coords := seq(n, _ => 0);
    var stride: nat := 1;
    for i := 0 to n
      invariant stride == Stride(dims, if i == 0 then 0 else i - 1)
    {
      if i > 0 {
        stride := stride * dims[i - 1];
      }
    }

    var rest: nat := index;
    PartialIndexOfZeros(coords, dims, n);
    for i := n downto 0
      invariant |coords| == n
      invariant i > 0 ==> stride == Stride(dims, i - 1)
      invariant i < n ==> rest < Stride(dims, i)
      invariant forall j :: 0 <= j < i ==> coords[j] == 0
      invariant forall j :: i <= j < n - 1 ==> coords[j] < dims[j]
      invariant index == rest + IndexOf(coords, dims)
    {
      DecodeStep(coords, dims, i, rest);
      assert stride == Stride(dims, i);
      var digit: nat, remainder: nat := rest / stride, rest % stride;
      coords := coords[i := digit];
      rest := remainder;
      if i > 0 {
        stride := stride / dims[i - 1];
      }
    }

    if n > 0 {
      assert Stride(dims, 0) == 1 && rest == 0;
      if index < Product(dims) {
        LastComponentBound(coords, dims);
      }
      if IsValid(coords, dims) {
        IndexBelowProduct(coords, dims);
      }
    }
  }

  /** Decoding the index of a cell gives the cell back. */
  method CoordsRoundTrip(coords: Coordinates, dims: seq<nat>) returns (decoded: Coordinates)
    requires IsValid(coords, dims)
    ensures decoded == coords
  {
    var index := ToIndex(coords, dims);
    decoded := ToCoords(index, dims);
    IndexInjective(decoded, coords, dims);
  }

  /** Encoding the decoded coordinates of any index gives the index back,
      even past the end of the grid, because the last component is not
      reduced. The 0-dimensional grid decodes every index to the empty
      vector, whose index is 0. */
  method IndexRoundTrip(index: nat, dims: seq<nat>) returns (encoded: nat)
    requires IsDecodable(dims) && (|dims| > 0 || index == 0)
    ensures encoded == index
  {
    var coords := ToCoords(index, dims);
    encoded := ToIndex(coords, dims);
  }

  // ---------------------------------------------------------------------------
  // Base-3 offset indices
  // ---------------------------------------------------------------------------

  /** 3 to the power n: the number of offset vectors in n dimensions. */
  function Pow3(n: nat): (p: nat)
    ensures p >= 1
  {
    if n == 0 then 1 else 3 * Pow3(n - 1)
  }

  /** The offset index whose offsets are all zero (the cell itself): every
      base-3 digit is 1. It is (3^n - 1) / 2, the value the source skips. */
  function CenterIndex(n: nat): (c: nat)
    ensures 2 * c + 1 == Pow3(n)
  {
    if n == 0 then 0 else 3 * CenterIndex(n - 1) + 1
  }

  /** Whether every component of o is -1, 0 or 1. */
  predicate IsOffsetVector(o: seq<int>)
  {
    forall j :: 0 <= j < |o| ==> -1 <= o[j] <= 1
  }

  /** The offsets encoded by the offset index i in n dimensions: the offset of
      axis j is base-3 digit j of i (least significant first) minus one. */
  function Offsets(i: nat, n: nat): (o: seq<int>)
    ensures |o| == n && IsOffsetVector(o)
  {
    if n == 0 then [] else [i % 3 - 1] + Offsets(i / 3, n - 1)
  }

  /** The offset index of an offset vector: its components plus one, read as
      base-3 digits with axis 0 least significant. */
  function OffsetIndex(o: seq<int>): (i: int)
    ensures IsOffsetVector(o) ==> 0 <= i < Pow3(|o|)
  {
    if o == [] then 0 else (o[0] + 1) + 3 * OffsetIndex(o[1..])
  }

  /** The offset of axis j is base-3 digit j of the offset index, minus one. */
  lemma {:induction false} OffsetDigit(i: nat, n: nat, j: nat)
    requires j < n
    ensures Offsets(i, n)[j] == (i / Pow3(j)) % 3 - 1
  {
    if j > 0 {
      OffsetDigit(i / 3, n - 1, j - 1);
      DivDiv(i, 3, Pow3(j - 1));
      assert Offsets(i, n)[j] == Offsets(i / 3, n - 1)[j - 1];
    }
  }

  /** Decoding the offset index of an offset vector gives the vector back. */
  lemma {:induction false} OffsetsOfOffsetIndex(o: seq<int>)
    requires IsOffsetVector(o)
    ensures Offsets(OffsetIndex(o), |o|) == o
  {
    if o != [] {
      OffsetsOfOffsetIndex(o[1..]);
      var i := OffsetIndex(o);
      assert i % 3 == o[0] + 1 && i / 3 == OffsetIndex(o[1..]);
      assert o == [o[0]] + o[1..];
    }
  }

  /** Encoding the offsets of an offset index below 3^n gives the index back:
      distinct offset indices have distinct offset vectors. */
  lemma {:induction false} OffsetIndexOfOffsets(i: nat, n: nat)
    requires i < Pow3(n)
    ensures OffsetIndex(Offsets(i, n)) == i
  {
    if n > 0 {
      OffsetIndexOfOffsets(i / 3, n - 1);
      var o := Offsets(i, n);
      assert o[1..] == Offsets(i / 3, n - 1);
    }
  }

  lemma {:induction false} OffsetIndexOfZeros(n: nat)
    ensures OffsetIndex(seq(n, _ => 0)) == CenterIndex(n)
  {
    if n > 0 {
      OffsetIndexOfZeros(n - 1);
      var z: seq<int> := seq(n, _ => 0);
      assert z[1..] == seq(n - 1, _ => 0);
    }
  }

  /** The centre index (3^n - 1) / 2 is the one offset index below 3^n whose
      offsets are all zero. */
  lemma CenterIsZeroOffset(i: nat, n: nat)
    requires i < Pow3(n)
    ensures i == CenterIndex(n) <==> forall j :: 0 <= j < n ==> Offsets(i, n)[j] == 0
  {
    var z: seq<int> := seq(n, _ => 0);
    OffsetIndexOfZeros(n);
    OffsetsOfOffsetIndex(z);
    OffsetIndexOfOffsets(i, n);
    if forall j :: 0 <= j < n ==> Offsets(i, n)[j] == 0 {
      assert Offsets(i, n) == z;
    }
  }

  // ---------------------------------------------------------------------------
  // Neighbours
  // ---------------------------------------------------------------------------

  /** Whether moving coords by the offsets o stays inside the grid dims on every
      axis. */
  predicate ShiftInBounds(coords: Coordinates, dims: seq<nat>, o: seq<int>)
    requires |o| == |coords| <= |dims|
  {
    forall j :: 0 <= j < |coords| ==> 0 <= coords[j] + o[j] < dims[j]
  }

  /** coords moved by the offsets o. */
  function Shift(coords: Coordinates, o: seq<int>): (r: Coordinates)
    requires |o| == |coords|
    requires forall j :: 0 <= j < |coords| ==> 0 <= coords[j] + o[j]
  {
    seq(|coords|, j requires 0 <= j < |coords| => (coords[j] + o[j]) as nat)
  }

  /** The componentwise difference t - coords. */
  function Displacement(coords: Coordinates, t: Coordinates): seq<int>
    requires |t| == |coords|
  {
    seq(|t|, j requires 0 <= j < |t| => t[j] as int - coords[j])
  }

  /** Whether the candidate of offset index i is reported: it is not the
      centre and it lies inside the grid. */
  predicate Kept(coords: Coordinates, dims: seq<nat>, i: nat)
    requires |coords| <= |dims|
  {
    i != CenterIndex(|coords|) && ShiftInBounds(coords, dims, Offsets(i, |coords|))
  }

  /** The neighbours found while scanning the offset indices below m, in scan
      order. */
  function NeighborsBelow(coords: Coordinates, dims: seq<nat>, m: nat): seq<Coordinates>
    requires |coords| <= |dims|
  {
    if m == 0 then []
    else NeighborsBelow(coords, dims, m - 1) +
         (if Kept(coords, dims, m - 1) then [Shift(coords, Offsets(m - 1, |coords|))] else [])
  }

  /** The neighbour list of coords in the grid dims. */
  function Neighbors(coords: Coordinates, dims: seq<nat>): seq<Coordinates>
    requires |coords| <= |dims|
  {
    if |coords| == 0 then [] else NeighborsBelow(coords, dims, Pow3(|coords|))
  }

  /** Whether t is a neighbour of coords in the grid dims: a different cell of
      the grid at Chebyshev distance 1 (every component differs by at most 1). */
  predicate IsNeighbor(coords: Coordinates, dims: seq<nat>, t: Coordinates)
    requires |coords| <= |dims|
  {
    && |t| == |coords|
    && t != coords
    && forall j :: 0 <= j < |coords| ==> t[j] < dims[j] && coords[j] <= t[j] + 1 && t[j] <= coords[j] + 1
  }

  /** The base-3 offset index of the move from coords to t. */
  function OffsetIndexOf(coords: Coordinates, t: Coordinates): int
    requires |t| == |coords|
  {
    OffsetIndex(Displacement(coords, t))
  }

  /** Whether every cell of coords lies strictly inside the grid on every axis. */
  predicate IsInterior(coords: Coordinates, dims: seq<nat>)
    requires |coords| <= |dims|
  {
    forall j :: 0 <= j < |coords| ==> 0 < coords[j] && coords[j] + 1 < dims[j]
  }

  /** The inner loop of the enumeration: moves coords by the offsets of the
      offset index i, axis by axis, and gives up (inBounds false) as soon as
      an axis would go below 0 or reach its extent. */
  method ShiftCandidate(coords: Coordinates, dims: seq<nat>, i: nat) returns (inBounds: bool, candidate: Coordinates)
    requires |coords| <= |dims|
    ensures inBounds == ShiftInBounds(coords, dims, Offsets(i, |coords|))
    ensures inBounds ==> candidate == Shift(coords, Offsets(i, |coords|))
  {
    var n := |coords|;
    candidate := coords;
    var rest: nat := i;
    ghost var o := Offsets(i, n);
    for j := 0 to n
      invariant |candidate| == n
      invariant Offsets(rest, n - j) == o[j..]
      invariant forall k :: 0 <= k < j ==> 0 <= coords[k] + o[k] < dims[k] && candidate[k] == coords[k] + o[k]
      invariant forall k :: j <= k < n ==> candidate[k] == coords[k]
    {
      OffsetsSuffix(o, j, rest);
      var offset := rest % 3 - 1;
      rest := rest / 3;

      if offset == -1 && candidate[j] == 0 {
        return false, candidate;
      }

      var next: nat := candidate[j] + offset;

      if next >= dims[j] {
        return false, candidate;
      }

      candidate := candidate[j := next];
    }
    assert candidate == Shift(coords, o);
    inBounds := true;
  }

  /** Enumerates the neighbours of coords: scans the offset indices 0 .. 3^n - 1,
      skips the centre index, and drops every candidate that leaves the grid. */
  method GetNeighbors(coords: Coordinates, dims: seq<nat>) returns (neighbors: seq<Coordinates>)
    requires |coords| <= |dims|
    ensures |coords| == 0 ==> neighbors == []
    ensures neighbors == Neighbors(coords, dims)
  {
    neighbors := [];
    var n := |coords|;
    if n == 0 {
      return;
    }

    var count := Pow3(n);
    var center := (count - 1) / 2;

    for i := 0 to count
      invariant neighbors == NeighborsBelow(coords, dims, i)
    {
      if i == center {
        continue;
      }
      var inBounds, candidate := ShiftCandidate(coords, dims, i);
      if !inBounds {
        continue;
      }
      neighbors := neighbors + [candidate];
    }
  }

  /** The suffix of an offset vector from axis j is decoded from what remains
      of the offset index after j divisions by 3. */
  lemma OffsetsSuffix(o: seq<int>, j: nat, rest: nat)
    requires j < |o| && Offsets(rest, |o| - j) == o[j..]
    ensures o[j] == rest % 3 - 1 && Offsets(rest / 3, |o| - j - 1) == o[j + 1..]
  {
    assert o[j..][0] == o[j] && o[j..][1..] == o[j + 1..];
  }

  // ---------------------------------------------------------------------------
  // Properties of the neighbour list
  // ---------------------------------------------------------------------------

  /** The candidate of a kept offset index is a neighbour, and the move to it
      has that offset index. */
  lemma KeptIsNeighbor(coords: Coordinates, dims: seq<nat>, i: nat)
    requires |coords| <= |dims| && i < Pow3(|coords|) && Kept(coords, dims, i)
    ensures IsNeighbor(coords, dims, Shift(coords, Offsets(i, |coords|)))
    ensures OffsetIndexOf(coords, Shift(coords, Offsets(i, |coords|))) == i
  {
    var n := |coords|;
    var o := Offsets(i, n);
    var t := Shift(coords, o);
    DisplacementOfShift(coords, o);
    OffsetIndexOfOffsets(i, n);
    CenterIsZeroOffset(i, n);
    var j :| 0 <= j < n && o[j] != 0;
    assert t[j] != coords[j];
  }

  /** Every entry found below offset index m is a neighbour whose offset index
      is below m, and the entries appear in increasing offset index. */
  lemma {:induction false} NeighborsBelowOrdered(coords: Coordinates, dims: seq<nat>, m: nat)
    requires |coords| <= |dims| && m <= Pow3(|coords|)
    ensures forall p :: 0 <= p < |NeighborsBelow(coords, dims, m)| ==>
              |NeighborsBelow(coords, dims, m)[p]| == |coords|
    ensures forall p :: 0 <= p < |NeighborsBelow(coords, dims, m)| ==>
              && IsNeighbor(coords, dims, NeighborsBelow(coords, dims, m)[p])
              && OffsetIndexOf(coords, NeighborsBelow(coords, dims, m)[p]) < m
    ensures forall p, q :: 0 <= p < q < |NeighborsBelow(coords, dims, m)| ==>
              OffsetIndexOf(coords, NeighborsBelow(coords, dims, m)[p])
              < OffsetIndexOf(coords, NeighborsBelow(coords, dims, m)[q])
  {
    if m > 0 {
      NeighborsBelowOrdered(coords, dims, m - 1);
      if Kept(coords, dims, m - 1) {
        KeptIsNeighbor(coords, dims, m - 1);
      }
    }
  }

  /** A neighbour is the candidate of its own offset index, and that index is
      kept by the scan. */
  lemma NeighborIsKept(coords: Coordinates, dims: seq<nat>, t: Coordinates)
    requires |coords| <= |dims| && IsNeighbor(coords, dims, t)
    ensures 0 <= OffsetIndexOf(coords, t) < Pow3(|coords|)
    ensures Kept(coords, dims, OffsetIndexOf(coords, t))
    ensures Shift(coords, Offsets(OffsetIndexOf(coords, t), |coords|)) == t
  {
    var n := |coords|;
    var d := Displacement(coords, t);
    assert IsOffsetVector(d);
    var i := OffsetIndex(d);
    OffsetsOfOffsetIndex(d);
    var j :| 0 <= j < n && t[j] != coords[j];
    assert Offsets(i, n)[j] != 0;
    CenterIsZeroOffset(i, n);
    assert ShiftInBounds(coords, dims, d);
    ShiftDisplacement(coords, t);
  }

  /** The displacement from coords to coords moved by o is o. */
  lemma DisplacementOfShift(coords: Coordinates, o: seq<int>)
    requires |o| == |coords|
    requires forall j :: 0 <= j < |coords| ==> 0 <= coords[j] + o[j]
    ensures Displacement(coords, Shift(coords, o)) == o
  {
    var t := Shift(coords, o);
    var r := Displacement(coords, t);
    assert |r| == |o|;
    forall j | 0 <= j < |o|
      ensures r[j] == o[j]
    {
      assert t[j] == coords[j] + o[j];
    }
  }

  /** Moving coords by the displacement towards t lands on t. */
  lemma ShiftDisplacement(coords: Coordinates, t: Coordinates)
    requires |t| == |coords|
    ensures Shift(coords, Displacement(coords, t)) == t
  {
    var d := Displacement(coords, t);
    var r := Shift(coords, d);
    assert |r| == |t|;
    forall j | 0 <= j < |t|
      ensures r[j] == t[j]
    {
      assert d[j] == t[j] as int - coords[j];
    }
  }

  /** Every neighbour whose offset index is below m is found below m. */
  lemma {:induction false} NeighborsBelowComplete(coords: Coordinates, dims: seq<nat>, m: nat, t: Coordinates)
    requires |coords| <= |dims| && IsNeighbor(coords, dims, t)
    requires OffsetIndexOf(coords, t) < m
    ensures t in NeighborsBelow(coords, dims, m)
  {
    var i := OffsetIndexOf(coords, t);
    var before := NeighborsBelow(coords, dims, m - 1);
    if i < m - 1 {
      NeighborsBelowComplete(coords, dims, m - 1, t);
      var last := if Kept(coords, dims, m - 1) then [Shift(coords, Offsets(m - 1, |coords|))] else [];
      assert NeighborsBelow(coords, dims, m) == before + last;
    } else {
      NeighborIsKept(coords, dims, t);
      assert NeighborsBelow(coords, dims, m) == before + [t];
    }
  }

  /** The list holds exactly the neighbours of coords: the cells of the grid,
      other than coords itself, at distance at most 1 on every axis. */
  lemma NeighborsExact(coords: Coordinates, dims: seq<nat>, t: Coordinates)
    requires |coords| <= |dims|
    ensures t in Neighbors(coords, dims) <==> IsNeighbor(coords, dims, t)
  {
    var n := |coords|;
    if n == 0 {
      if |t| == 0 {
        assert t == coords;
      }
    } else {
      var ns := Neighbors(coords, dims);
      NeighborsBelowOrdered(coords, dims, Pow3(n));
      if t in ns {
        var p :| 0 <= p < |ns| && ns[p] == t;
      }
      if IsNeighbor(coords, dims, t) {
        NeighborsBelowComplete(coords, dims, Pow3(n), t);
      }
    }
  }

  /** The neighbours are listed in increasing base-3 offset index (axis 0 is
      the least significant digit). */
  lemma NeighborsOrdered(coords: Coordinates, dims: seq<nat>)
    requires |coords| <= |dims|
    ensures forall p :: 0 <= p < |Neighbors(coords, dims)| ==>
              |Neighbors(coords, dims)[p]| == |coords|
    ensures forall p, q :: 0 <= p < q < |Neighbors(coords, dims)| ==>
              OffsetIndexOf(coords, Neighbors(coords, dims)[p])
              < OffsetIndexOf(coords, Neighbors(coords, dims)[q])
  {
    if |coords| > 0 {
      NeighborsBelowOrdered(coords, dims, Pow3(|coords|));
    }
  }

  /** No neighbour is listed twice. */
  lemma NeighborsDistinct(coords: Coordinates, dims: seq<nat>)
    requires |coords| <= |dims|
    ensures forall p, q :: 0 <= p < q < |Neighbors(coords, dims)| ==>
              Neighbors(coords, dims)[p] != Neighbors(coords, dims)[q]
  {
    NeighborsOrdered(coords, dims);
  }

  lemma {:induction false} NeighborsBelowCount(coords: Coordinates, dims: seq<nat>, m: nat)
    requires |coords| <= |dims|
    ensures |NeighborsBelow(coords, dims, m)| <= m - (if CenterIndex(|coords|) < m then 1 else 0)
    ensures IsInterior(coords, dims) && m <= Pow3(|coords|) ==>
              |NeighborsBelow(coords, dims, m)| == m - (if CenterIndex(|coords|) < m then 1 else 0)
  {
    if m > 0 {
      NeighborsBelowCount(coords, dims, m - 1);
      if IsInterior(coords, dims) && m <= Pow3(|coords|) && m - 1 != CenterIndex(|coords|) {
        var o := Offsets(m - 1, |coords|);
        assert ShiftInBounds(coords, dims, o);
      }
    }
  }

  /** At most 3^n - 1 neighbours are listed, and exactly 3^n - 1 when the cell
      is not on the boundary of the grid on any axis. */
  lemma NeighborsCount(coords: Coordinates, dims: seq<nat>)
    requires |coords| <= |dims|
    ensures |Neighbors(coords, dims)| <= Pow3(|coords|) - 1
    ensures IsInterior(coords, dims) ==> |Neighbors(coords, dims)| == Pow3(|coords|) - 1
  {
    if |coords| > 0 {
      NeighborsBelowCount(coords, dims, Pow3(|coords|));
    }
  }

  // ---------------------------------------------------------------------------
  // The source's unit tests, as lemmas
  // ---------------------------------------------------------------------------

  lemma Kept1D(c: Coordinates, d: seq<nat>, i: nat)
    requires |c| == 1 == |d|
    ensures Offsets(i, 1) == [i % 3 - 1]
    ensures Kept(c, d, i) <==> i != 1 && 0 <= c[0] + (i % 3 - 1) < d[0]
  {
    assert Pow3(1) == 3;
    assert Offsets(i, 1) == [i % 3 - 1] + Offsets(i / 3, 0);
  }

  lemma Kept2D(c: Coordinates, d: seq<nat>, i: nat)
    requires |c| == 2 == |d|
    ensures Offsets(i, 2) == [i % 3 - 1, (i / 3) % 3 - 1]
    ensures Kept(c, d, i) <==>
              && i != 4
              && 0 <= c[0] + (i % 3 - 1) < d[0]
              && 0 <= c[1] + ((i / 3) % 3 - 1) < d[1]
  {
    assert Pow3(2) == 9;
    assert Offsets(i / 3, 1) == [(i / 3) % 3 - 1] + Offsets(i / 3 / 3, 0);
  }

  /** One step of a 1-dimensional scan: the candidate t of offset index i is
      appended to the list found below i exactly when it is kept. */
  lemma Step1D(c: Coordinates, d: seq<nat>, i: nat, found: seq<Coordinates>, t: Coordinates)
    requires |c| == 1 == |d| && |t| == 1
    requires NeighborsBelow(c, d, i) == found
    requires 0 <= c[0] + (i % 3 - 1) ==> t[0] == c[0] + (i % 3 - 1)
    ensures NeighborsBelow(c, d, i + 1)
            == if i != 1 && 0 <= c[0] + (i % 3 - 1) < d[0] then found + [t] else found
  {
    Kept1D(c, d, i);
    if Kept(c, d, i) {
      assert Shift(c, Offsets(i, 1)) == t;
    }
  }

  /** One step of a 2-dimensional scan: the candidate t of offset index i is
      appended to the list found below i exactly when it is kept. */
  lemma Step2D(c: Coordinates, d: seq<nat>, i: nat, found: seq<Coordinates>, t: Coordinates)
    requires |c| == 2 == |d| && |t| == 2
    requires NeighborsBelow(c, d, i) == found
    requires 0 <= c[0] + (i % 3 - 1) ==> t[0] == c[0] + (i % 3 - 1)
    requires 0 <= c[1] + ((i / 3) % 3 - 1) ==> t[1] == c[1] + ((i / 3) % 3 - 1)
    ensures NeighborsBelow(c, d, i + 1)
            == if && i != 4
                  && 0 <= c[0] + (i % 3 - 1) < d[0]
                  && 0 <= c[1] + ((i / 3) % 3 - 1) < d[1]
               then found + [t] else found
  {
    Kept2D(c, d, i);
    if Kept(c, d, i) {
      assert Shift(c, Offsets(i, 2)) == t;
    }
  }

  // The scans below take the cell and the grid as parameters so that the
  // verifier follows them one offset index at a time. The candidate passed
  // for an offset that leaves the grid below 0 has that component written
  // as 0; it is dropped anyway.

  lemma ScanCenter2DLow(c: Coordinates, d: seq<nat>)
    requires c == [1, 1] && d == [3, 3]
    ensures NeighborsBelow(c, d, 5) == [[0, 0], [1, 0], [2, 0], [0, 1]]
  {
    Step2D(c, d, 0, [], [0, 0]);
    Step2D(c, d, 1, [[0, 0]], [1, 0]);
    Step2D(c, d, 2, [[0, 0], [1, 0]], [2, 0]);
    Step2D(c, d, 3, [[0, 0], [1, 0], [2, 0]], [0, 1]);
    Step2D(c, d, 4, [[0, 0], [1, 0], [2, 0], [0, 1]], [1, 1]);
  }

  lemma ScanCenter2DMid(c: Coordinates, d: seq<nat>)
    requires c == [1, 1] && d == [3, 3]
    ensures NeighborsBelow(c, d, 7) == [[0, 0], [1, 0], [2, 0], [0, 1], [2, 1], [0, 2]]
  {
    ScanCenter2DLow(c, d);
    Step2D(c, d, 5, [[0, 0], [1, 0], [2, 0], [0, 1]], [2, 1]);
    Step2D(c, d, 6, [[0, 0], [1, 0], [2, 0], [0, 1], [2, 1]], [0, 2]);
  }

  lemma ScanCenter2D(c: Coordinates, d: seq<nat>)
    requires c == [1, 1] && d == [3, 3]
    ensures Neighbors(c, d) == [[0, 0], [1, 0], [2, 0], [0, 1], [2, 1], [0, 2], [1, 2], [2, 2]]
  {
    assert Pow3(2) == 9;
    ScanCenter2DMid(c, d);
    Step2D(c, d, 7, [[0, 0], [1, 0], [2, 0], [0, 1], [2, 1], [0, 2]], [1, 2]);
    Step2D(c, d, 8, [[0, 0], [1, 0], [2, 0], [0, 1], [2, 1], [0, 2], [1, 2]], [2, 2]);
  }

  lemma ScanCorner2D(c: Coordinates, d: seq<nat>)
    requires c == [0, 0] && d == [3, 3]
    ensures Neighbors(c, d) == [[1, 0], [0, 1], [1, 1]]
  {
    assert Pow3(2) == 9;
    Step2D(c, d, 0, [], [0, 0]);
    Step2D(c, d, 1, [], [0, 0]);
    Step2D(c, d, 2, [], [1, 0]);
    Step2D(c, d, 3, [], [0, 0]);
    Step2D(c, d, 4, [], [0, 0]);
    Step2D(c, d, 5, [], [1, 0]);
    Step2D(c, d, 6, [[1, 0]], [0, 1]);
    Step2D(c, d, 7, [[1, 0]], [0, 1]);
    Step2D(c, d, 8, [[1, 0], [0, 1]], [1, 1]);
  }

  lemma ScanEdge2DLow(c: Coordinates, d: seq<nat>)
    requires c == [0, 1] && d == [3, 3]
    ensures NeighborsBelow(c, d, 5) == [[0, 0], [1, 0]]
  {
    Step2D(c, d, 0, [], [0, 0]);
    Step2D(c, d, 1, [], [0, 0]);
    Step2D(c, d, 2, [[0, 0]], [1, 0]);
    Step2D(c, d, 3, [[0, 0], [1, 0]], [0, 1]);
    Step2D(c, d, 4, [[0, 0], [1, 0]], [0, 1]);
  }

  lemma ScanEdge2D(c: Coordinates, d: seq<nat>)
    requires c == [0, 1] && d == [3, 3]
    ensures Neighbors(c, d) == [[0, 0], [1, 0], [1, 1], [0, 2], [1, 2]]
  {
    assert Pow3(2) == 9;
    ScanEdge2DLow(c, d);
    Step2D(c, d, 5, [[0, 0], [1, 0]], [1, 1]);
    Step2D(c, d, 6, [[0, 0], [1, 0], [1, 1]], [0, 2]);
    Step2D(c, d, 7, [[0, 0], [1, 0], [1, 1]], [0, 2]);
    Step2D(c, d, 8, [[0, 0], [1, 0], [1, 1], [0, 2]], [1, 2]);
  }

  lemma Scan1D(c: Coordinates, d: seq<nat>)
    requires c == [1] && d == [3]
    ensures Neighbors(c, d) == [[0], [2]]
  {
    assert Pow3(1) == 3;
    Step1D(c, d, 0, [], [0]);
    Step1D(c, d, 1, [[0]], [1]);
    Step1D(c, d, 2, [[0]], [2]);
  }

  /** Centre of a 3x3 grid: all eight surrounding cells. */
  lemma NeighborsOf2DCenter()
    ensures Neighbors([1, 1], [3, 3])
            == [[0, 0], [1, 0], [2, 0], [0, 1], [2, 1], [0, 2], [1, 2], [2, 2]]
  {
    ScanCenter2D([1, 1], [3, 3]);
  }

  /** Corner of a 3x3 grid: three cells. */
  lemma NeighborsOf2DCorner()
    ensures Neighbors([0, 0], [3, 3]) == [[1, 0], [0, 1], [1, 1]]
  {
    ScanCorner2D([0, 0], [3, 3]);
  }

  /** Edge of a 3x3 grid: five cells. */
  lemma NeighborsOf2DEdge()
    ensures Neighbors([0, 1], [3, 3]) == [[0, 0], [1, 0], [1, 1], [0, 2], [1, 2]]
  {
    ScanEdge2D([0, 1], [3, 3]);
  }

  /** Middle of a line of three cells: both ends. */
  lemma NeighborsOf1D()
    ensures Neighbors([1], [3]) == [[0], [2]]
  {
    Scan1D([1], [3]);
  }

  /** Centre of a 3x3x3 grid: twenty-six cells. */
  lemma NeighborsOf3DCenter()
    ensures |Neighbors([1, 1, 1], [3, 3, 3])| == 26
  {
    NeighborsCount([1, 1, 1], [3, 3, 3]);
  }
}
