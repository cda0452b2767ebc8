/** The square world the search runs over (class `World` of a-star.py): a size x size
    matrix of cell codes, indexed `cells[y, x]`, with a start and a goal position. */
module Grid {
  import opened Seqs

  /** A position; `x` is the column and `y` the row, so its code is `cells[y, x]`. */
  datatype Cell = Cell(x: nat, y: nat)

  // The cell codes the map holds.
  const FREE: int := 0
  const OBSTACLE: int := 1
  const START: int := 2
  const GOAL: int := 3
  const SEARCHED: int := 4

  predicate InGrid(size: nat, c: Cell)
  {
    c.x < size && c.y < size
  }

  predicate IsCode(v: int)
  {
    FREE <= v <= SEARCHED
  }

  /** `int(obstaclesPercentage * size * size)`: truncation; a negative count makes the
      obstacle loop run zero times. */
  function ObstacleCount(size: nat, obstaclesPercentage: real): (n: nat)
    ensures obstaclesPercentage <= 0.0 ==> n == 0
    ensures n as real <= obstaclesPercentage * (size * size) as real || n == 0
    ensures obstaclesPercentage * (size * size) as real < n as real + 1.0
  {
    var t := obstaclesPercentage * (size * size) as real;
    if t < 0.0 then 0 else t.Floor
  }

  // ---------------------------------------------------------------------------
  // The free list of generateObstacles: every cell except start and end, row by row.

  /** Cells (0, y) .. (x - 1, y) of row `y`, without `s` and `e`. */
  function RowPrefix(y: nat, x: nat, s: Cell, e: Cell): seq<Cell>
    decreases x
  {
    if x == 0 then []
    else
      var c := Cell(x - 1, y);
      RowPrefix(y, x - 1, s, e) + (if c != s && c != e then [c] else [])
  }

  /** Rows 0 .. y - 1 of a grid `size` wide, without `s` and `e`. */
  function FreeRows(size: nat, y: nat, s: Cell, e: Cell): seq<Cell>
    decreases y
  {
    if y == 0 then [] else FreeRows(size, y - 1, s, e) + RowPrefix(y - 1, size, s, e)
  }

  function FreeCells(size: nat, s: Cell, e: Cell): seq<Cell>
  {
    FreeRows(size, size, s, e)
  }

  /** Row-major order: the order in which the nested `for y / for x` loops visit cells. */
  predicate RowMajor(a: Cell, b: Cell)
  {
    a.y < b.y || (a.y == b.y && a.x < b.x)
  }

  predicate Ascending(s: seq<Cell>)
  {
    forall i, j :: 0 <= i < j < |s| ==> RowMajor(s[i], s[j])
  }

  /** How many of `s`, `e` lie in row `y` left of column `x`. */
  function RowHits(y: nat, x: nat, s: Cell, e: Cell): nat
  {
    (if s.y == y && s.x < x then 1 else 0) + (if e != s && e.y == y && e.x < x then 1 else 0)
  }

  /** How many of `s`, `e` lie in rows 0 .. y - 1 of a grid `size` wide. */
  function Hits(size: nat, y: nat, s: Cell, e: Cell): nat
  {
    (if s.y < y && s.x < size then 1 else 0) + (if e != s && e.y < y && e.x < size then 1 else 0)
  }

  lemma AscendingAppend(a: seq<Cell>, b: seq<Cell>)
    requires Ascending(a) && Ascending(b)
    requires forall c, d :: c in a && d in b ==> RowMajor(c, d)
    ensures Ascending(a + b)
  {
    var s := a + b;
    forall i, j | 0 <= i < j < |s|
      ensures RowMajor(s[i], s[j])
    {
      if j < |a| {
        assert s[i] == a[i] && s[j] == a[j];
      } else if i >= |a| {
        assert s[i] == b[i - |a|] && s[j] == b[j - |a|];
      } else {
        assert s[i] in a && s[j] in b;
      }
    }
  }

  lemma {:induction false} RowPrefixFacts(y: nat, x: nat, s: Cell, e: Cell)
    ensures forall c {:trigger c in RowPrefix(y, x, s, e)} :: c in RowPrefix(y, x, s, e) <==> c.y == y && c.x < x && c != s && c != e
    ensures Ascending(RowPrefix(y, x, s, e))
    ensures |RowPrefix(y, x, s, e)| + RowHits(y, x, s, e) == x
    decreases x
  {
    if x > 0 {
      RowPrefixFacts(y, x - 1, s, e);
      var c := Cell(x - 1, y);
      AscendingAppend(RowPrefix(y, x - 1, s, e), if c != s && c != e then [c] else []);
    }
  }

  lemma {:induction false} FreeRowsFacts(size: nat, y: nat, s: Cell, e: Cell)
    ensures forall c {:trigger c in FreeRows(size, y, s, e)} :: c in FreeRows(size, y, s, e) <==> c.y < y && c.x < size && c != s && c != e
    ensures Ascending(FreeRows(size, y, s, e))
    ensures |FreeRows(size, y, s, e)| + Hits(size, y, s, e) == y * size
    decreases y
  {
    if y > 0 {
      var upper, row := FreeRows(size, y - 1, s, e), RowPrefix(y - 1, size, s, e);
      FreeRowsFacts(size, y - 1, s, e);
      RowPrefixFacts(y - 1, size, s, e);
      assert FreeRows(size, y, s, e) == upper + row;
      forall c: Cell {:trigger c in upper + row} | c in upper + row
        ensures c.y < y && c.x < size && c != s && c != e
      {
        assert c in upper || c in row;
      }
      forall c: Cell, d: Cell | c in upper && d in row
        ensures RowMajor(c, d)
      {
        assert c.y < y - 1 && d.y == y - 1;
      }
      AscendingAppend(upper, row);
      assert Hits(size, y, s, e) == Hits(size, y - 1, s, e) + RowHits(y - 1, size, s, e);
      assert (y - 1) * size + size == y * size;
    }
  }

  lemma AscendingNoDup(s: seq<Cell>)
    requires Ascending(s)
    ensures NoDup(s)
  {
  }

  /** generateObstacles' free list holds each cell other than start and end exactly once,
      in row-major order, so it has size * size - 2 entries (one fewer when start is end). */
  lemma FreeCellsFacts(size: nat, s: Cell, e: Cell)
    requires InGrid(size, s) && InGrid(size, e)
    ensures forall c :: c in FreeCells(size, s, e) <==> InGrid(size, c) && c != s && c != e
    ensures Ascending(FreeCells(size, s, e)) && NoDup(FreeCells(size, s, e))
    ensures |FreeCells(size, s, e)| == size * size - (if s == e then 1 else 2)
  {
    FreeRowsFacts(size, size, s, e);
    AscendingNoDup(FreeCells(size, s, e));
  }

  // ---------------------------------------------------------------------------
  // The choices of generateObstacles. `random.choice` is replaced by `picks`: pick i is
  // the index, in the free list as it is before draw i, of the cell drawn.

  /** Each pick indexes the free list that is left at its draw. */
  predicate ValidPicks(n: nat, picks: seq<nat>)
  {
    forall i :: 0 <= i < |picks| ==> picks[i] < n - i
  }

  /** The free list after the draws `picks`. */
  function Remaining(free: seq<Cell>, picks: seq<nat>): (r: seq<Cell>)
    requires ValidPicks(|free|, picks)
    ensures |r| == |free| - |picks|
    decreases |picks|
  {
    if picks == [] then free
    else
      var init := picks[..|picks| - 1];
      assert ValidPicks(|free|, init) by {
        forall i | 0 <= i < |init| ensures init[i] < |free| - i {
          assert init[i] == picks[i];
        }
      }
      var rest := Remaining(free, init);
      RemoveFirst(rest, rest[picks[|picks| - 1]])
  }

  /** The cells drawn by `picks`, in draw order. */
  function Chosen(free: seq<Cell>, picks: seq<nat>): (r: seq<Cell>)
    requires ValidPicks(|free|, picks)
    ensures |r| == |picks|
    decreases |picks|
  {
    if picks == [] then []
    else
      var init := picks[..|picks| - 1];
      assert ValidPicks(|free|, init) by {
        forall i | 0 <= i < |init| ensures init[i] < |free| - i {
          assert init[i] == picks[i];
        }
      }
      var rest := Remaining(free, init);
      Chosen(free, init) + [rest[picks[|picks| - 1]]]
  }

  lemma ValidPicksPrefix(n: nat, picks: seq<nat>, k: nat)
    requires ValidPicks(n, picks) && k <= |picks|
    ensures ValidPicks(n, picks[..k])
  {
    forall i | 0 <= i < k ensures picks[..k][i] < n - i {
      assert picks[..k][i] == picks[i];
    }
  }

  /** Drawing without replacement: the drawn cells are distinct, none is still free, and
      drawn and remaining cells together are the original free list. */
  lemma {:induction false} ChosenFacts(free: seq<Cell>, picks: seq<nat>)
    requires NoDup(free) && ValidPicks(|free|, picks)
    ensures NoDup(Chosen(free, picks)) && NoDup(Remaining(free, picks))
    ensures forall c :: c in free <==> c in Chosen(free, picks) || c in Remaining(free, picks)
    ensures forall c :: c in Chosen(free, picks) ==> c !in Remaining(free, picks)
    decreases |picks|
  {
    if picks != [] {
      var init := picks[..|picks| - 1];
      ValidPicksPrefix(|free|, picks, |picks| - 1);
      ChosenFacts(free, init);
      var rest := Remaining(free, init);
      var c := rest[picks[|picks| - 1]];
      RemoveFirstNoDup(rest, c);
      var ch := Chosen(free, init);
      assert Chosen(free, picks) == ch + [c];
      assert Remaining(free, picks) == RemoveFirst(rest, c);
      assert c !in ch;
      forall i, j | 0 <= i < j < |ch + [c]| ensures (ch + [c])[i] != (ch + [c])[j] {
        if j < |ch| {
          assert (ch + [c])[i] == ch[i] && (ch + [c])[j] == ch[j];
        } else {
          assert (ch + [c])[i] in ch;
        }
      }
    }
  }

  /** With start and end on the map, the obstacles generateObstacles places are exactly
      `n` distinct cells of the map, none of them the start or the end cell; so `n` is at
      most size * size - 2 (size * size - 1 when start is end). */
  lemma ObstaclesPlaced(size: nat, s: Cell, e: Cell, picks: seq<nat>)
    requires InGrid(size, s) && InGrid(size, e)
    requires ValidPicks(|FreeCells(size, s, e)|, picks)
    ensures var placed := Chosen(FreeCells(size, s, e), picks);
      |placed| == |picks| && NoDup(placed) &&
      forall c :: c in placed ==> InGrid(size, c) && c != s && c != e
    ensures |picks| <= size * size - (if s == e then 1 else 2)
  {
    FreeCellsFacts(size, s, e);
    ChosenFacts(FreeCells(size, s, e), picks);
    if |picks| > 0 {
      assert picks[|picks| - 1] < |FreeCells(size, s, e)| - (|picks| - 1);
    }
  }

  // ---------------------------------------------------------------------------

  class World {
    const size: nat
    var cells: array2<int>
    var startpos: Cell
    var endpos: Cell

    /** Dimensions agree, start and end lie on the map, every cell holds a code 0..4. */
    ghost predicate Valid()
      reads this, cells
    {
      1 <= size && cells.Length0 == size && cells.Length1 == size &&
      InGrid(size, startpos) && InGrid(size, endpos) &&
      forall y, x :: 0 <= y < size && 0 <= x < size ==> IsCode(cells[y, x])
    }

    /** `World(size, obstaclesPercentage)`: buildWorld, then generateObstacles with
        int(obstaclesPercentage * size * size) draws. */
    constructor (size: nat, obstaclesPercentage: real, picks: seq<nat>)
      requires 1 <= size
      requires |picks| == ObstacleCount(size, obstaclesPercentage)
      requires ValidPicks(|FreeCells(size, Cell(0, 0), Cell(size - 1, size - 1))|, picks)
      ensures Valid() && fresh(cells) && this.size == size
      ensures startpos == Cell(0, 0) && endpos == Cell(size - 1, size - 1)
      ensures forall y, x :: 0 <= y < size && 0 <= x < size ==>
        cells[y, x] == if Cell(x, y) in Chosen(FreeCells(size, startpos, endpos), picks) then OBSTACLE
                     else if Cell(x, y) == endpos then GOAL
                     else if Cell(x, y) == startpos then START
                     else FREE
    {
      this.size := size;
      cells := new int[0, 0];
      startpos, endpos := Cell(0, 0), Cell(0, 0);
      new;
      BuildWorld();
      GenerateObstacles(ObstacleCount(size, obstaclesPercentage), picks);
    }

    /** buildWorld: a fresh all-free map with the start at (0, 0) and the end at
        (size - 1, size - 1); on a 1 x 1 map the end code overwrites the start code. */
    method BuildWorld()
      requires 1 <= size
      modifies this
      ensures Valid() && fresh(cells)
      ensures startpos == Cell(0, 0) && endpos == Cell(size - 1, size - 1)
      ensures forall y, x :: 0 <= y < size && 0 <= x < size ==>
        cells[y, x] == if Cell(x, y) == endpos then GOAL else if Cell(x, y) == startpos then START else FREE
    {
      cells := new int[size, size]((y, x) => FREE);
      startpos := Cell(0, 0);
      cells[0, 0] := START;
      endpos := Cell(size - 1, size - 1);
      cells[size - 1, size - 1] := GOAL;
    }

    /** setStartPos: the old start cell becomes free, then `pos` becomes the start,
        overwriting whatever it held (an obstacle, the goal code). */
    method SetStartPos(pos: Cell)
      requires Valid() && InGrid(size, pos)
      modifies this, cells
      ensures Valid() && cells == old(cells)
      ensures startpos == pos && endpos == old(endpos)
      ensures forall y, x :: 0 <= y < size && 0 <= x < size ==>
        cells[y, x] == if Cell(x, y) == pos then START
                     else if Cell(x, y) == old(startpos) then FREE
                     else old(cells[y, x])
    {
      cells[startpos.y, startpos.x] := FREE;
      startpos := pos;
      cells[pos.y, pos.x] := START;
    }

    /** setEndPos: the same for the end (goal) cell. */
    method SetEndPos(pos: Cell)
      requires Valid() && InGrid(size, pos)
      modifies this, cells
      ensures Valid() && cells == old(cells)
      ensures endpos == pos && startpos == old(startpos)
      ensures forall y, x :: 0 <= y < size && 0 <= x < size ==>
        cells[y, x] == if Cell(x, y) == pos then GOAL
                     else if Cell(x, y) == old(endpos) then FREE
                     else old(cells[y, x])
    {
      cells[endpos.y, endpos.x] := FREE;
      endpos := pos;
      cells[pos.y, pos.x] := GOAL;
    }

    /** The first half of generateObstacles: the free list, every cell other than the
        start and the end, row by row. */
    method FreeSpaces() returns (freeSpaces: seq<Cell>)
      ensures freeSpaces == FreeCells(size, startpos, endpos)
    {
      freeSpaces := [];
      for y := 0 to size
        invariant freeSpaces == FreeRows(size, y, startpos, endpos)
      {
        for x := 0 to size
          invariant freeSpaces == FreeRows(size, y, startpos, endpos) + RowPrefix(y, x, startpos, endpos)
        {
          if Cell(x, y) != startpos && Cell(x, y) != endpos {
            freeSpaces := freeSpaces + [Cell(x, y)];
          }
        }
      }
    }

    /** generateObstacles(n): collect the free list, then draw `n` cells from it without
        replacement and make each an obstacle. Drawing from an exhausted list fails in the
        source, so the draws must fit the list. */
    method GenerateObstacles(n: nat, picks: seq<nat>)
      requires Valid()
      requires |picks| == n && ValidPicks(|FreeCells(size, startpos, endpos)|, picks)
      modifies cells
      ensures Valid()
      ensures forall y, x :: 0 <= y < size && 0 <= x < size ==>
        cells[y, x] == if Cell(x, y) in Chosen(FreeCells(size, startpos, endpos), picks) then OBSTACLE
                     else old(cells[y, x])
    {
      var freeSpaces := FreeSpaces();
      ghost var free0 := freeSpaces;
      FreeCellsFacts(size, startpos, endpos);
      for i := 0 to n
        invariant ValidPicks(|free0|, picks[..i])
        invariant freeSpaces == Remaining(free0, picks[..i])
        invariant forall y, x :: 0 <= y < size && 0 <= x < size ==>
          cells[y, x] == if Cell(x, y) in Chosen(free0, picks[..i]) then OBSTACLE else old(cells[y, x])
      {
        ValidPicksPrefix(|free0|, picks, i + 1);
        ChosenFacts(free0, picks[..i]);
        assert picks[..i + 1][..i] == picks[..i];
        var space := freeSpaces[picks[i]];
        assert space in free0;
        cells[space.y, space.x] := OBSTACLE;
        freeSpaces := RemoveFirst(freeSpaces, space);
      }
      assert picks[..n] == picks;
    }

    /** resetWorld: every searched marker (4) becomes free (0); every other cell keeps
        its code. No marker is left, so a second call changes nothing. */
    method ResetWorld()
      requires Valid()
      modifies cells
      ensures Valid()
      ensures forall y, x :: 0 <= y < size && 0 <= x < size ==>
        cells[y, x] == if old(cells[y, x]) == SEARCHED then FREE else old(cells[y, x])
      ensures forall y, x :: 0 <= y < size && 0 <= x < size ==> cells[y, x] != SEARCHED
    {
      for y := 0 to size
        invariant forall r, x :: 0 <= r < size && 0 <= x < size ==>
          cells[r, x] == if r < y && old(cells[r, x]) == SEARCHED then FREE else old(cells[r, x])
      {
        for x := 0 to size
          invariant forall r, c :: 0 <= r < size && 0 <= c < size ==>
            cells[r, c] == if (r < y || (r == y && c < x)) && old(cells[r, c]) == SEARCHED then FREE
                         else old(cells[r, c])
        {
          if cells[y, x] == SEARCHED {
            cells[y, x] := FREE;
          }
        }
      }
    }
  }
}
