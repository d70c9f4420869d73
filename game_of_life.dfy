/** The board of `examples.GameOfLife`: a `SIZE` by `SIZE` array of cells
    addressed modulo `SIZE`, so that it wraps round as a torus, and the step
    that computes the next generation into a fresh array. `MathUtils.mod`
    is taken to be the non-negative remainder. */
module Life {

  const SIZE: int := 1000

  /** `MathUtils.mod(a, SIZE)`: the remainder in `[0, SIZE)`. */
  function Mod(a: int): (r: int)
    ensures 0 <= r < SIZE
  {
    a % SIZE
  }

  /** B3/S23: a dead cell with exactly three live neighbours is born, a
      live cell with two or three survives, every other cell is dead. */
  predicate Conway(alive: bool, neighbours: int) {
    if alive then neighbours == 2 || neighbours == 3 else neighbours == 3
  }

  /** The static `STATE` array. */
  class Board {
    var state: array2<bool>

    ghost predicate Valid()
      reads this
    {
      state.Length0 == SIZE && state.Length1 == SIZE
    }

    /** `new boolean[SIZE][SIZE]`: every cell dead. */
    constructor ()
      ensures Valid() && fresh(state)
      ensures forall a, b :: !Get(a, b)
    {
      state := new bool[SIZE, SIZE]((_, _) => false);
    }

    /** `get(x, y)`: a cell on the board is read where it is; any other
        coordinate pair is taken modulo `SIZE` (lemma `Torus`). */
    function Get(x: int, y: int): (r: bool)
      requires Valid()
      reads this, state
      ensures 0 <= x < SIZE && 0 <= y < SIZE ==> r == state[x, y]
    {
      state[Mod(x), Mod(y)]
    }

    /** `set(x, y, val)`: writes the one cell `get(x, y)` reads. */
    method Set(x: int, y: int, val: bool)
      requires Valid()
      modifies state
      ensures Valid()
      ensures forall a, b :: 0 <= a < SIZE && 0 <= b < SIZE ==>
                state[a, b] == if a == Mod(x) && b == Mod(y) then val else old(state[a, b])
    {
      state[Mod(x), Mod(y)] := val;
    }

    /** One cell as a count. */
    function Alive(x: int, y: int): int
      requires Valid()
      reads this, state
    {
      if Get(x, y) then 1 else 0
    }

    /** The live cells `(x, y + j')` for `-1 <= j' < j`. */
    function ColumnCount(x: int, y: int, j: int): int
      requires Valid() && -1 <= j <= 2
      reads this, state
      decreases j + 1
    {
      if j == -1 then 0 else ColumnCount(x, y, j - 1) + Alive(x, y + j - 1)
    }

    /** The live cells `(x + i', y + j')` for `-1 <= i' < i` and
        `-1 <= j' <= 1`. */
    function BlockCount(x: int, y: int, i: int): int
      requires Valid() && -1 <= i <= 2
      reads this, state
      decreases i + 1
    {
      if i == -1 then 0 else BlockCount(x, y, i - 1) + ColumnCount(x + i - 1, y, 2)
    }

    /** `neighborCount`: the live cells of the 3 by 3 block centred on
        `(x, y)`, the cell itself included. */
    function NeighborCount(x: int, y: int): int
      requires Valid()
      reads this, state
    {
      BlockCount(x, y, 2)
    }

    /** The eight cells around `(x, y)`. */
    function Surrounding(x: int, y: int): int
      requires Valid()
      reads this, state
    {
      Alive(x - 1, y - 1) + Alive(x - 1, y) + Alive(x - 1, y + 1)
      + Alive(x, y - 1) + Alive(x, y + 1)
      + Alive(x + 1, y - 1) + Alive(x + 1, y) + Alive(x + 1, y + 1)
    }

    /** The value `nextState` gives cell `(x, y)`. */
    predicate NextCell(x: int, y: int)
      requires Valid()
      reads this, state
    {
      NeighborCount(x, y) == 3 || (NeighborCount(x, y) == 4 && Get(x, y))
    }

    /** The `i` and `j` loops of `nextState` for one cell. */
    method CountBlock(x: int, y: int) returns (count: int)
      requires Valid()
      ensures count == NeighborCount(x, y)
    {
      count := 0;
      for i := -1 to 2
        invariant count == BlockCount(x, y, i)
      {
        for j := -1 to 2
          invariant count == BlockCount(x, y, i) + ColumnCount(x + i, y, j)
        {
          count := count + if Get(x + i, y + j) then 1 else 0;
        }
      }
    }

    /** `nextState()`: every cell of a fresh array gets its next value; the
        board itself is not written. */
    method NextState() returns (next: array2<bool>)
      requires Valid()
      ensures fresh(next) && next.Length0 == SIZE && next.Length1 == SIZE
      ensures forall x, y :: 0 <= x < SIZE && 0 <= y < SIZE ==> next[x, y] == NextCell(x, y)
    {
      next := new bool[SIZE, SIZE];
      for x := 0 to SIZE
        invariant forall a, b :: 0 <= a < x && 0 <= b < SIZE ==> next[a, b] == NextCell(a, b)
      {
        for y := 0 to SIZE
          invariant forall a, b :: 0 <= a < x && 0 <= b < SIZE ==> next[a, b] == NextCell(a, b)
          invariant forall b :: 0 <= b < y ==> next[x, b] == NextCell(x, b)
        {
          var count := CountBlock(x, y);
          next[x, y] := count == 3 || (count == 4 && Get(x, y));
        }
      }
    }

    /** `STATE = nextState()`, the step `main` takes while running. */
    method Step()
      requires Valid()
      modifies this
      ensures Valid() && fresh(state)
      ensures forall x, y :: 0 <= x < SIZE && 0 <= y < SIZE ==> state[x, y] == old(NextCell(x, y))
    {
      state := NextState();
    }

    /** The block counts the cell itself once beside its eight neighbours. */
    lemma NeighborCountSplit(x: int, y: int)
      requires Valid()
      ensures NeighborCount(x, y) == Surrounding(x, y) + Alive(x, y)
    {
      assert BlockCount(x, y, 0) == ColumnCount(x - 1, y, 2);
      assert BlockCount(x, y, 1) == BlockCount(x, y, 0) + ColumnCount(x, y, 2);
      ColumnCountFull(x - 1, y);
      ColumnCountFull(x, y);
      ColumnCountFull(x + 1, y);
    }

    lemma ColumnCountFull(x: int, y: int)
      requires Valid()
      ensures ColumnCount(x, y, 2) == Alive(x, y - 1) + Alive(x, y) + Alive(x, y + 1)
    {
      assert ColumnCount(x, y, 0) == Alive(x, y - 1);
      assert ColumnCount(x, y, 1) == ColumnCount(x, y, 0) + Alive(x, y);
    }

    /** "Three in the block, or four with the cell alive" is Conway's rule
        on the eight neighbours. */
    lemma NextCellIsConway(x: int, y: int)
      requires Valid()
      ensures NextCell(x, y) == Conway(Get(x, y), Surrounding(x, y))
    {
      NeighborCountSplit(x, y);
    }

    /** The block holds between none and nine live cells. */
    lemma NeighborCountBounds(x: int, y: int)
      requires Valid()
      ensures 0 <= NeighborCount(x, y) <= 9
    {
      NeighborCountSplit(x, y);
    }

    /** The board wraps round in both directions. */
    lemma Torus(x: int, y: int)
      requires Valid()
      ensures Get(x + SIZE, y) == Get(x, y) && Get(x, y + SIZE) == Get(x, y)
      ensures Get(x - SIZE, y) == Get(x, y) && Get(x, y - SIZE) == Get(x, y)
    {
    }
  }
}
