/** Properties of one generation step. */
module Generations {
  import opened Errors
  import opened Bits
  import opened Rules
  import opened Automata

  /** Wrap-around: position 0 sees the last cell as its left neighbour, and
      the last position sees cell 0 as its right neighbour; every position
      sees itself in the middle. */
  lemma NeighbourhoodWraps(cells: seq<int>, margin: nat)
    requires |cells| > 0 && margin >= 1
    ensures Neighbourhood(cells, 0, margin)[margin - 1] == cells[|cells| - 1]
    ensures Neighbourhood(cells, |cells| - 1, margin)[margin + 1] == cells[0]
    ensures forall i :: 0 <= i < |cells| ==> Neighbourhood(cells, i, margin)[margin] == cells[i]
  {
    var size := |cells|;
    ModUnique(0 - margin + (margin - 1), size, -1, size - 1);
    ModUnique(size - 1 - margin + (margin + 1), size, 1, 0);
    forall i | 0 <= i < size ensures Neighbourhood(cells, i, margin)[margin] == cells[i] {
      ModUnique(i - margin + margin, size, 0, i);
    }
  }

  /** An all-zero ring is a fixed point of every rule that maps the all-zero
      neighbourhood to 0. */
  lemma ZeroRingAbsorbing(rule: Rule, size: int)
    requires ValidRule(rule) && GetNextCell(rule, Zeros(rule.n)) == Ok(0)
    ensures Successor(rule, Zeros(size)) == Zeros(size)
  {
    var ring := Zeros(size);
    var next := Successor(rule, ring);
    assert 2 * (rule.n / 2) + 1 == rule.n;
    forall i | 0 <= i < |ring| ensures next[i] == ring[i] {
      ZeroNeighbourhood(size, i, rule.n / 2);
      SuccessorAt(rule, ring, i);
    }
    assert next == ring;
  }

  /** Every neighbourhood of an all-zero ring is all zero. */
  lemma ZeroNeighbourhood(size: int, i: int, margin: nat)
    requires size > 0
    ensures Neighbourhood(Zeros(size), i, margin) == Zeros(2 * margin + 1)
  {
  }

  /** ... and stays all zero for any number of generations. */
  lemma ZeroRingStaysZero(rule: Rule, size: int, k: nat)
    requires ValidRule(rule) && GetNextCell(rule, Zeros(rule.n)) == Ok(0)
    ensures Iterate(rule, Zeros(size), k) == Zeros(size)
  {
    ZeroRingAbsorbing(rule, size);
    FixedPoint(rule, Zeros(size), k);
  }

  /** A ring that one generation leaves unchanged never changes again. */
  lemma {:induction false} FixedPoint(rule: Rule, cells: seq<int>, k: nat)
    requires ValidRule(rule) && IsBits(cells) && Successor(rule, cells) == cells
    ensures Iterate(rule, cells, k) == cells
    decreases k
  {
    if k > 0 {
      FixedPoint(rule, cells, k - 1);
    }
  }

  /** The ring turned one place to the left. */
  function RotateLeft(cells: seq<int>): (r: seq<int>)
    ensures |r| == |cells|
    ensures forall i :: 0 <= i < |cells| ==> r[i] == cells[(i + 1) % |cells|]
  {
    if |cells| == 0 then [] else cells[1..] + [cells[0]]
  }

  /** The update has no distinguished position: turning the ring and then
      advancing it is advancing it and then turning it. */
  lemma RotationCommutes(rule: Rule, cells: seq<int>)
    requires ValidRule(rule) && IsBits(cells)
    ensures IsBits(RotateLeft(cells))
    ensures Successor(rule, RotateLeft(cells)) == RotateLeft(Successor(rule, cells))
  {
    var turned := RotateLeft(cells);
    RotatedBits(cells);
    var lhs, rhs := Successor(rule, turned), RotateLeft(Successor(rule, cells));
    forall i | 0 <= i < |cells| ensures lhs[i] == rhs[i] {
      SuccessorRotatedAt(rule, cells, i);
    }
    assert lhs == rhs;
  }

  /** Turning a binary ring leaves it binary. */
  lemma RotatedBits(cells: seq<int>)
    requires IsBits(cells)
    ensures IsBits(RotateLeft(cells))
  {
  }

  /** Cell `i` of the next generation of the turned ring is cell `i + 1` of
      the next generation of the original ring. */
  lemma SuccessorRotatedAt(rule: Rule, cells: seq<int>, i: nat)
    requires ValidRule(rule) && IsBits(cells) && i < |cells|
    ensures IsBits(RotateLeft(cells))
    ensures Successor(rule, RotateLeft(cells))[i] == Successor(rule, cells)[(i + 1) % |cells|]
  {
    RotatedBits(cells);
    NeighbourhoodRotated(cells, rule.n / 2, i);
  }

  /** The neighbourhood of position `i` in the turned ring is the
      neighbourhood of position `i + 1` in the original one. */
  lemma NeighbourhoodRotated(cells: seq<int>, margin: nat, i: nat)
    requires i < |cells|
    ensures Neighbourhood(RotateLeft(cells), i, margin) == Neighbourhood(cells, (i + 1) % |cells|, margin)
  {
    var size := |cells|;
    var turned := RotateLeft(cells);
    var j := (i + 1) % size;
    var t := if i + 1 < size then 0 else -1;
    if i + 1 < size {
      ModUnique(i + 1, size, 0, i + 1);
    } else {
      ModUnique(i + 1, size, 1, 0);
    }
    assert j == i + 1 + size * t;
    forall k | 0 <= k < 2 * margin + 1
      ensures Neighbourhood(turned, i, margin)[k] == Neighbourhood(cells, j, margin)[k]
    {
      ShiftMod(i - margin + k, j - margin + k, size, t);
    }
  }

  /** Indices that differ by one modulo the ring size name neighbouring cells. */
  lemma ShiftMod(a: int, b: int, size: nat, t: int)
    requires size > 0 && b == a + 1 + size * t
    ensures (a % size + 1) % size == b % size
  {
    var q, r := a / size, a % size;
    if r + 1 < size {
      assert b == size * (q + t) + (r + 1);
      ModUnique(b, size, q + t, r + 1);
      ModUnique(r + 1, size, 0, r + 1);
    } else {
      assert b == size * (q + t + 1) + 0;
      ModUnique(b, size, q + t + 1, 0);
      ModUnique(r + 1, size, 1, 0);
    }
  }

  /** The remainder is determined by any quotient-remainder decomposition. */
  lemma ModUnique(x: int, size: nat, q: int, r: int)
    requires size > 0 && 0 <= r < size && x == size * q + r
    ensures x % size == r
  {
    var d := q - x / size;
    assert size * d == x % size - r;
    assert d >= 1 ==> size * d >= size;
    assert d <= -1 ==> size * (-d) >= size;
    assert size * (-d) == -(size * d);
  }

  /** Different rings render as different text. */
  lemma RenderInjective(a: seq<int>, b: seq<int>)
    requires IsBits(a) && IsBits(b) && Render(a) == Render(b)
    ensures a == b
  {
    assert forall i :: 0 <= i < |a| ==> a[i] == b[i];
  }
}
