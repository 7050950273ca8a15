/** The `CellularAutomata` class of cellular_automata.py: a ring of `size`
    binary cells that a rule advances one generation at a time.
 */
module Automata {
  import opened Errors
  import opened Bits
  import opened Rules

  /** The length of Python's `[0] * size`: `size`, or 0 when `size` is not positive. */
  function Width(size: int): (r: nat)
    ensures r == |Zeros(size)|
  {
    if size > 0 then size else 0
  }

  /** The neighbourhood of position `i` (cellular_automata.py:107-109): the
      cells at `i - margin .. i + margin`, each index taken modulo the ring
      size, so the ring wraps at both ends. */
  function Neighbourhood(cells: seq<int>, i: int, margin: nat): (r: seq<int>)
    requires |cells| > 0
    ensures |r| == 2 * margin + 1
    ensures IsBits(cells) ==> IsBits(r)
  {
    seq(2 * margin + 1, k requires 0 <= k < 2 * margin + 1 => cells[(i - margin + k) % |cells|])
  }

  /** The next generation of a whole ring, computed only from the given
      generation: position `i` becomes the output the rule number gives the
      value of `i`'s neighbourhood. */
  function Successor(rule: Rule, cells: seq<int>): (r: seq<int>)
    requires ValidRule(rule) && IsBits(cells)
    ensures |r| == |cells| && IsBits(r)
  {
    seq(|cells|, i requires 0 <= i < |cells| =>
      Output(rule.number, rule.n, Value(Neighbourhood(cells, i, rule.n / 2))))
  }

  /** Each new cell is what `get_next_cell` returns for that cell's
      neighbourhood in the given generation. */
  lemma SuccessorAt(rule: Rule, cells: seq<int>, i: nat)
    requires ValidRule(rule) && IsBits(cells) && i < |cells|
    ensures GetNextCell(rule, Neighbourhood(cells, i, rule.n / 2)) == Ok(Successor(rule, cells)[i])
  {
  }

  /** The ring after `k` generations. */
  function Iterate(rule: Rule, cells: seq<int>, k: nat): (r: seq<int>)
    requires ValidRule(rule) && IsBits(cells)
    ensures |r| == |cells| && IsBits(r)
    decreases k
  {
    if k == 0 then cells else Iterate(rule, Successor(rule, cells), k - 1)
  }

  /** `CellularAutomata.__str__` (cellular_automata.py:135-136): a space for
      each 0 and a `#` for each 1, in index order. */
  function Render(cells: seq<int>): (s: string)
    requires IsBits(cells)
    ensures |s| == |cells|
    ensures forall i :: 0 <= i < |cells| ==> (s[i] == ' ' <==> cells[i] == 0)
    ensures forall i :: 0 <= i < |cells| ==> (s[i] == '#' <==> cells[i] == 1)
  {
    if |cells| == 0 then "" else Render(cells[..|cells| - 1]) + [if cells[|cells| - 1] == 0 then ' ' else '#']
  }

  class CellularAutomata {
    var size: int
    var cells: seq<int>

    /** The class invariant: one binary cell per position of the ring. */
    ghost predicate Valid()
      reads this
    {
      |cells| == Width(size) && IsBits(cells)
    }

    /** `CellularAutomata(size)` (cellular_automata.py:62-66): all cells zero. */
    constructor (size: int := 256)
      ensures Valid()
      ensures this.size == size && cells == Zeros(size)
    {
      this.size := size;
      cells := [];
      new;
      InitZeroes();
    }

    /** The `size` setter (cellular_automata.py:72-75): the new size
        discards the previous cells and leaves them all zero. */
    method SetSize(value: int)
      modifies this
      ensures Valid()
      ensures size == value && cells == Zeros(value)
    {
      size := value;
      InitZeroes();
    }

    /** `init_zeroes` (cellular_automata.py:77-79). */
    method InitZeroes()
      modifies this`cells
      ensures Valid()
      ensures cells == Zeros(size)
    {
      cells := Zeros(size);
    }

    /** `init_single` (cellular_automata.py:81-92): all cells zero except a
        single 1, at `pos` when one is given and at `size // 2` otherwise.
        The cells are cleared before the position is checked, so a failure
        leaves them all zero. */
    method InitSingle(pos: Option<int>) returns (r: Result<()>)
      modifies this`cells
      ensures Valid()
      ensures pos.None? ==> (r.Ok? <==> size > 0) && (r.Err? ==> r.error == IndexOutOfRange)
      ensures pos.Some? ==> (r.Ok? <==> 0 <= pos.value < size) && (r.Err? ==> r.error == InvalidArgument)
      ensures r.Ok? ==> cells == Zeros(size)[(if pos.None? then size / 2 else pos.value) := 1]
      ensures r.Err? ==> cells == Zeros(size)
    {
      cells := Zeros(size);
      if pos.None? {
        if !(0 <= size / 2 < |cells|) {
          return Err(IndexOutOfRange);
        }
        cells := cells[size / 2 := 1];
      } else {
        if !(0 <= pos.value < size) {
          return Err(InvalidArgument);
        }
        cells := cells[pos.value := 1];
      }
      return Ok(());
    }

    /** `randomize` (cellular_automata.py:94-96) with the random draws, one
        per cell, supplied by the caller. */
    method Randomize(draws: seq<int>)
      requires |draws| == Width(size) && IsBits(draws)
      modifies this`cells
      ensures Valid()
      ensures cells == draws
    {
      cells := draws;
    }

    /** `next_generation` (cellular_automata.py:98-114): compute every new
        cell from the current generation into a fresh list, then replace the
        cells with it. */
    method NextGeneration(rule: Rule)
      requires Valid() && ValidRule(rule)
      modifies this`cells
      ensures Valid()
      ensures cells == Successor(rule, old(cells))
    {
      var current := cells;
      var next: seq<int> := [];
      var margin := rule.n / 2;
      var i := 0;
      while i < size
        invariant 0 <= i <= Width(size)
        invariant |next| == i
        invariant forall j :: 0 <= j < i ==> next[j] == Successor(rule, current)[j]
      {
        var interval := Neighbourhood(current, i, margin);
        var nextCell := GetNextCell(rule, interval);
        SuccessorAt(rule, current, i);
        next := next + [nextCell.value];
        i := i + 1;
      }
      cells := next;
    }

    /** `run` (cellular_automata.py:116-133) for a positive effective limit:
        it prints the ring, advances it, and stops once more advances than
        the limit have been made, so it prints and advances `limit + 1`
        times. The printed lines are returned. */
    method Run(rule: Rule, iterationLimit: Option<int>) returns (lines: seq<string>)
      requires Valid() && ValidRule(rule)
      requires (if iterationLimit.None? then size / 2 else iterationLimit.value) > 0
      modifies this`cells
      ensures Valid()
      ensures var limit := if iterationLimit.None? then size / 2 else iterationLimit.value;
        && |lines| == limit + 1
        && (forall k :: 0 <= k <= limit ==> lines[k] == Render(Iterate(rule, old(cells), k)))
        && cells == Iterate(rule, old(cells), limit + 1)
    {
      var limit := if iterationLimit.None? then size / 2 else iterationLimit.value;
      ghost var start := cells;
      var iteration := 0;
      lines := [];
      while true
        invariant Valid()
        invariant 0 <= iteration <= limit
        invariant |lines| == iteration
        invariant forall k :: 0 <= k < iteration ==> lines[k] == Render(Iterate(rule, start, k))
        invariant cells == Iterate(rule, start, iteration)
        decreases limit - iteration
      {
        AppendLine(lines, Render(cells), rule, start, iteration);
        lines := lines + [Render(cells)];
        NextGeneration(rule);
        IterateStep(rule, start, iteration);
        iteration := iteration + 1;
        assert cells == Iterate(rule, start, iteration);
        if iteration > limit && limit > 0 {
          assert iteration == limit + 1 && start == old(cells);
          break;
        }
      }
    }
  }

  /** Appending the rendering of generation `count` to the renderings of
      generations `0 .. count - 1`. */
  lemma AppendLine(lines: seq<string>, line: string, rule: Rule, start: seq<int>, count: nat)
    requires ValidRule(rule) && IsBits(start) && |lines| == count
    requires forall k :: 0 <= k < count ==> lines[k] == Render(Iterate(rule, start, k))
    requires line == Render(Iterate(rule, start, count))
    ensures forall k :: 0 <= k <= count ==> (lines + [line])[k] == Render(Iterate(rule, start, k))
  {
  }

  /** One more generation after `k` is generation `k + 1`. */
  lemma {:induction false} IterateStep(rule: Rule, cells: seq<int>, k: nat)
    requires ValidRule(rule) && IsBits(cells)
    ensures Iterate(rule, cells, k + 1) == Successor(rule, Iterate(rule, cells, k))
    decreases k
  {
    if k > 0 {
      IterateStep(rule, Successor(rule, cells), k - 1);
    }
  }
}
