/** The step-by-step A* engine (class `AStarStep` of a-star.py) over a `World`. */
module Search {
  import opened Seqs
  import opened Grid

  datatype Option<T> = None | Some(value: T)

  /** A score that may be infinite: g-scores are whole numbers, f-scores reals. */
  datatype Score<T> = Finite(value: T) | Infinite

  /** `<` on f-scores, with infinity above every finite value. */
  predicate Less(a: Score<real>, b: Score<real>)
  {
    match a
    case Infinite => false
    case Finite(u) => b.Infinite? || u < b.value
  }

  /** The tentative g-score `g` beats the recorded one. */
  predicate Improves(g: nat, recorded: Score<nat>)
  {
    recorded.Infinite? || g < recorded.value
  }

  /** `a <= b` on g-scores. */
  predicate AtMost(a: Score<nat>, b: Score<nat>)
  {
    b.Infinite? || (a.Finite? && a.value <= b.value)
  }

  // ---------------------------------------------------------------------------
  // Neighbours

  predicate Adjacent(a: Cell, c: Cell)
  {
    (c.y == a.y && (c.x == a.x + 1 || c.x + 1 == a.x)) ||
    (c.x == a.x && (c.y == a.y + 1 || c.y + 1 == a.y))
  }

  /** The four cells orthogonally next to `a` (two when it is on an edge at 0). */
  lemma AdjacentCells(a: Cell)
    ensures forall c {:trigger Adjacent(a, c)} :: Adjacent(a, c) <==>
      c == Cell(a.x + 1, a.y) || (a.x > 0 && c == Cell(a.x - 1, a.y)) ||
      c == Cell(a.x, a.y + 1) || (a.y > 0 && c == Cell(a.x, a.y - 1))
  {
  }

  /** The position of a neighbour in getNeighbors' order +x, -x, +y, -y; meant only for
      cells adjacent to `a` (any other cell falls in the last position). */
  function Direction(a: Cell, c: Cell): int
  {
    if c == Cell(a.x + 1, a.y) then 0
    else if a.x > 0 && c == Cell(a.x - 1, a.y) then 1
    else if c == Cell(a.x, a.y + 1) then 2
    else 3
  }

  // ---------------------------------------------------------------------------
  // The search state as a value, so that what a step does to it can be stated and
  // proved apart from the object.

  datatype SearchState = SearchState(
    openSet: seq<Cell>,
    closedSet: seq<Cell>,
    cameFrom: map<Cell, Cell>,
    gScore: map<Cell, Score<nat>>,
    fScore: map<Cell, Score<real>>)

  /** A cell the search has discovered: open or closed. */
  predicate Reached(s: SearchState, c: Cell)
  {
    c in s.openSet || c in s.closedSet
  }

  /** g- and f-scores are kept for exactly the cells of the map. */
  ghost predicate Domains(size: nat, s: SearchState)
  {
    (forall c :: c in s.gScore <==> InGrid(size, c)) &&
    (forall c :: c in s.fScore <==> InGrid(size, c))
  }

  /** Open and closed are duplicate-free and disjoint. */
  predicate Frontier(s: SearchState)
  {
    NoDup(s.openSet) && NoDup(s.closedSet) &&
    (forall c :: c in s.openSet ==> c !in s.closedSet)
  }

  /** A discovered cell lies on the map, has a finite g-score and f = g + h. */
  ghost predicate Scored(size: nat, h: (Cell, Cell) -> real, goal: Cell, s: SearchState)
  {
    forall c :: Reached(s, c) ==>
      InGrid(size, c) && c in s.gScore && c in s.fScore && s.gScore[c].Finite? &&
      s.fScore[c] == Finite(s.gScore[c].value as real + h(c, goal))
  }

  /** An undiscovered cell has infinite scores (and, by `Chained`, no predecessor). */
  ghost predicate Untouched(size: nat, s: SearchState)
  {
    forall c :: InGrid(size, c) && c !in s.openSet && c !in s.closedSet ==>
      c in s.gScore && c in s.fScore && s.gScore[c] == Infinite && s.fScore[c] == Infinite
  }

  /** The start is discovered with g = 0; every other discovered cell has a predecessor. */
  ghost predicate Rooted(start: Cell, s: SearchState)
  {
    Reached(s, start) && start in s.gScore && s.gScore[start] == Finite(0) &&
    (forall c {:trigger c in s.cameFrom} :: Reached(s, c) && c != start ==> c in s.cameFrom)
  }

  /** Every predecessor is closed and exactly one step cheaper. */
  ghost predicate Chained(s: SearchState)
  {
    forall c :: c in s.cameFrom ==>
      Reached(s, c) && s.cameFrom[c] in s.closedSet &&
      c in s.gScore && s.cameFrom[c] in s.gScore &&
      s.gScore[c].Finite? && s.gScore[s.cameFrom[c]].Finite? &&
      s.gScore[c].value == s.gScore[s.cameFrom[c]].value + 1
  }

  /** One step back along the predecessors: a discovered cell, finite scores, one cheaper. */
  lemma ChainStep(s: SearchState, c: Cell)
    requires Chained(s) && c in s.cameFrom
    ensures var p := s.cameFrom[c];
      Reached(s, c) && Reached(s, p) && c in s.gScore && p in s.gScore &&
      s.gScore[c].Finite? && s.gScore[p].Finite? && s.gScore[c].value == s.gScore[p].value + 1
  {
  }

  /** What every state from initStepSearch on satisfies. */
  ghost predicate SearchInv(size: nat, h: (Cell, Cell) -> real, start: Cell, goal: Cell, s: SearchState)
  {
    InGrid(size, start) && InGrid(size, goal) &&
    Domains(size, s) && Frontier(s) && Scored(size, h, goal, s) && Untouched(size, s) &&
    Rooted(start, s) && Chained(s)
  }

  /** The neighbours the loop leaves alone are those in `closed`; of the others, those
      not yet in `open` are appended, in neighbour order. */
  function Unclaimed(ns: seq<Cell>, closed: seq<Cell>, open: seq<Cell>): seq<Cell>
    decreases |ns|
  {
    if ns == [] then []
    else
      var n := ns[|ns| - 1];
      Unclaimed(ns[..|ns| - 1], closed, open) + (if n !in closed && n !in open then [n] else [])
  }

  lemma {:induction false} UnclaimedFacts(ns: seq<Cell>, closed: seq<Cell>, open: seq<Cell>)
    requires NoDup(ns)
    ensures forall c :: c in Unclaimed(ns, closed, open) <==> c in ns && c !in closed && c !in open
    ensures NoDup(Unclaimed(ns, closed, open))
    decreases |ns|
  {
    if ns != [] {
      var init := ns[..|ns| - 1];
      var n := ns[|ns| - 1];
      assert ns == init + [n];
      assert NoDup(init) by {
        forall i, j | 0 <= i < j < |init| ensures init[i] != init[j] {
          assert init[i] == ns[i] && init[j] == ns[j];
        }
      }
      UnclaimedFacts(init, closed, open);
      assert n !in init;
    }
  }

  /** The test of stepSearch's neighbour loop: `n` is taken when it is not closed, and it
      is new to the open list or the tentative score `g` improves on its recorded one. */
  predicate Takes(n: Cell, closed: seq<Cell>, open: seq<Cell>, g0: map<Cell, Score<nat>>, g: nat)
  {
    n !in closed && (n !in open || (n in g0 && Improves(g, g0[n])))
  }

  /** Neighbour `c` of `cur` gets a new predecessor and score: it passes the loop's test
      against the lists `closed` and `open` and the scores `g0` before the loop. */
  predicate Relaxed(c: Cell, ns: seq<Cell>, closed: seq<Cell>, open: seq<Cell>,
                    g0: map<Cell, Score<nat>>, g: nat)
  {
    c in ns && Takes(c, closed, open, g0, g)
  }

  /** The lists after expanding `cur`, whose neighbours are `ns`: `cur` moves from open to
      closed and the unclaimed neighbours are appended to open. */
  predicate ExpandedLists(cur: Cell, ns: seq<Cell>, s0: SearchState, s1: SearchState)
  {
    var open := RemoveFirst(s0.openSet, cur);
    var closed := s0.closedSet + [cur];
    s1.closedSet == closed && s1.openSet == open + Unclaimed(ns, closed, open)
  }

  /** The scores after expanding `cur`: each relaxed neighbour records `cur` as predecessor,
      g(cur) + 1 as g and g + h as f; nothing else changes. */
  ghost predicate ExpandedScores(h: (Cell, Cell) -> real, goal: Cell, cur: Cell, ns: seq<Cell>,
                                 s0: SearchState, s1: SearchState)
  {
    cur in s0.gScore && s0.gScore[cur].Finite? &&
    RelaxedScores(h, goal, cur, s0.gScore[cur].value + 1, ns,
                  s0.closedSet + [cur], RemoveFirst(s0.openSet, cur), s0, s1)
  }

  /** The scores of `s1` are those of `s0` with every relaxed cell of `ns` set to reach it
      through `cur` at cost `g`. */
  ghost predicate RelaxedScores(h: (Cell, Cell) -> real, goal: Cell, cur: Cell, g: nat, ns: seq<Cell>,
                                closed: seq<Cell>, open: seq<Cell>, s0: SearchState, s1: SearchState)
  {
    RelaxedKeys(ns, closed, open, g, s0, s1) && RelaxedValues(h, goal, cur, g, ns, closed, open, s0, s1)
  }

  /** The keys of the maps: the score maps keep theirs, the relaxed cells join cameFrom. */
  ghost predicate RelaxedKeys(ns: seq<Cell>, closed: seq<Cell>, open: seq<Cell>, g: nat,
                              s0: SearchState, s1: SearchState)
  {
    (forall c :: c in s1.gScore <==> c in s0.gScore) &&
    (forall c :: c in s1.fScore <==> c in s0.fScore) &&
    (forall c {:trigger c in s1.cameFrom} :: c in s1.cameFrom <==> c in s0.cameFrom || Relaxed(c, ns, closed, open, s0.gScore, g))
  }

  /** The values of the maps: the relaxed cells get `cur`, `g` and `g + h`; the rest keep theirs. */
  ghost predicate RelaxedValues(h: (Cell, Cell) -> real, goal: Cell, cur: Cell, g: nat, ns: seq<Cell>,
                                closed: seq<Cell>, open: seq<Cell>, s0: SearchState, s1: SearchState)
    requires RelaxedKeys(ns, closed, open, g, s0, s1)
  {
    (forall c {:trigger s1.gScore[c]} :: c in s0.gScore ==>
       s1.gScore[c] == if Relaxed(c, ns, closed, open, s0.gScore, g) then Finite(g) else s0.gScore[c]) &&
    (forall c {:trigger s1.fScore[c]} :: c in s0.fScore ==>
       s1.fScore[c] == if Relaxed(c, ns, closed, open, s0.gScore, g) then Finite(g as real + h(c, goal))
                       else s0.fScore[c]) &&
    (forall c {:trigger s1.cameFrom[c]} :: c in s1.cameFrom ==>
       s1.cameFrom[c] == if Relaxed(c, ns, closed, open, s0.gScore, g) then cur else s0.cameFrom[c])
  }

  /** `s1` is `s0` after one expansion of `cur` (the else branch of stepSearch). */
  ghost predicate Expansion(h: (Cell, Cell) -> real, goal: Cell, cur: Cell, ns: seq<Cell>,
                            s0: SearchState, s1: SearchState)
  {
    ExpandedLists(cur, ns, s0, s1) && ExpandedScores(h, goal, cur, ns, s0, s1)
  }

  /** The state initStepSearch builds: open holds just the start, closed and the predecessors
      are empty, and every score is infinite except g(start) = 0 and f(start) = h(start, goal). */
  ghost predicate Initial(size: nat, h: (Cell, Cell) -> real, start: Cell, goal: Cell, s: SearchState)
  {
    s.openSet == [start] && s.closedSet == [] && s.cameFrom == map[] &&
    (forall c :: c in s.gScore <==> InGrid(size, c)) &&
    (forall c :: c in s.gScore ==> s.gScore[c] == if c == start then Finite(0) else Infinite) &&
    (forall c :: c in s.fScore <==> InGrid(size, c)) &&
    (forall c :: c in s.fScore ==> s.fScore[c] == if c == start then Finite(h(start, goal)) else Infinite)
  }

  /** The state initStepSearch builds satisfies the search invariant. */
  lemma InitialInvariant(size: nat, h: (Cell, Cell) -> real, start: Cell, goal: Cell, s: SearchState)
    requires InGrid(size, start) && InGrid(size, goal)
    requires Initial(size, h, start, goal, s)
    ensures SearchInv(size, h, start, goal, s)
  {
    assert forall c :: Reached(s, c) <==> c == start;
    assert 0 as real + h(start, goal) == h(start, goal);
  }

  /** The body of initStepSearch, on values. */
  method InitialState(size: nat, h: (Cell, Cell) -> real, start: Cell, goal: Cell)
    returns (s: SearchState)
    requires InGrid(size, start) && InGrid(size, goal)
    ensures Initial(size, h, start, goal, s) && SearchInv(size, h, start, goal, s)
  {
    var spaces := AllCells(size);
    var gScore: map<Cell, Score<nat>> := Unreached(spaces);
    gScore := gScore[start := Finite(0)];
    var fScore: map<Cell, Score<real>> := Unreached(spaces);
    fScore := fScore[start := Finite(h(start, goal))];
    s := SearchState([start], [], map[], gScore, fScore);
    InitialInvariant(size, h, start, goal, s);
  }


  /** The else branch of stepSearch on the search state `s0`: moves `cur` from open to
      closed and runs the neighbour loop over `ns`, the neighbours of `cur` on the map.
      The result is the expansion of `s0`, it keeps the search invariant, no g-score rises
      and the g-scores of closed cells stay as they were. */
  method ExpandState(size: nat, h: (Cell, Cell) -> real, start: Cell, goal: Cell,
                     cur: Cell, ns: seq<Cell>, s0: SearchState)
    returns (s: SearchState)
    requires SearchInv(size, h, start, goal, s0) && cur in s0.openSet
    requires NoDup(ns) && forall c :: c in ns ==> InGrid(size, c)
    ensures Expansion(h, goal, cur, ns, s0, s)
    ensures SearchInv(size, h, start, goal, s)
    ensures forall c :: c in s0.gScore ==> c in s.gScore && AtMost(s.gScore[c], s0.gScore[c])
    ensures forall c :: c in s0.closedSet ==> c in s.closedSet && s.gScore[c] == s0.gScore[c]
  {
    var open, closed := RemoveFirst(s0.openSet, cur), s0.closedSet + [cur];
    s := SearchState(open, closed, s0.cameFrom, s0.gScore, s0.fScore);
    ghost var g := s0.gScore[cur].value + 1;
    assert ns[..0] == [];
    RelaxNone(h, goal, cur, g, closed, open, s0, s);
    for i := 0 to |ns|
      invariant s.closedSet == closed && s.openSet == open + Unclaimed(ns[..i], closed, open)
      invariant cur in s.gScore && s.gScore[cur] == Finite(g - 1)
      invariant RelaxedScores(h, goal, cur, g, ns[..i], closed, open, s0, s)
    {
      s := RelaxNeighbor(h, goal, cur, g, ns, i, closed, open, s0, s);
    }
    PrefixFull(ns);
    LoopExpansion(h, goal, cur, ns, s0, s);
    ExpansionKeepsInvariant(size, h, start, goal, cur, ns, s0, s);
    ExpansionMonotone(size, h, goal, cur, ns, s0, s);
  }

  /** One pass of stepSearch's neighbour loop, over `ns[i]`, on the state `s` whose open and
      closed lists are `open` and `closed` extended by the unclaimed cells of `ns[..i]`. */
  method RelaxNeighbor(h: (Cell, Cell) -> real, goal: Cell, cur: Cell, ghost g: nat, ns: seq<Cell>, i: nat,
                       ghost closed: seq<Cell>, ghost open: seq<Cell>, ghost s0: SearchState, s: SearchState)
    returns (s1: SearchState)
    requires i < |ns| && NoDup(ns) && ns[i] in s0.gScore && ns[i] in s0.fScore && cur in closed
    requires s.closedSet == closed && s.openSet == open + Unclaimed(ns[..i], closed, open)
    requires cur in s.gScore && s.gScore[cur] == Finite(g - 1)
    requires RelaxedScores(h, goal, cur, g, ns[..i], closed, open, s0, s)
    ensures s1.closedSet == closed && s1.openSet == open + Unclaimed(ns[..i + 1], closed, open)
    ensures cur in s1.gScore && s1.gScore[cur] == Finite(g - 1)
    ensures RelaxedScores(h, goal, cur, g, ns[..i + 1], closed, open, s0, s1)
  {
    var n := ns[i];
    assert n in s.openSet <==> n in open by {
      PrefixStep(ns, i);
      UnclaimedFacts(ns[..i], closed, open);
    }
    assert n in s.gScore;
    if n in s.closedSet {
      RelaxSkip(h, goal, cur, g, ns, i, closed, open, s0, s);
      return s;
    }
    var tentative := s.gScore[cur].value + 1;
    var openSet := s.openSet;
    if n !in openSet {
      openSet := openSet + [n];
    } else if !Improves(tentative, s.gScore[n]) {
      RelaxSkip(h, goal, cur, g, ns, i, closed, open, s0, s);
      return s;
    }
    s1 := SearchState(openSet, s.closedSet, s.cameFrom[n := cur], s.gScore[n := Finite(tentative)],
                      s.fScore[n := Finite(tentative as real + h(n, goal))]);
    RelaxTake(h, goal, cur, g, ns, i, closed, open, s0, s, s1);
  }

  /** Before the neighbour loop nothing is relaxed. */
  lemma RelaxNone(h: (Cell, Cell) -> real, goal: Cell, cur: Cell, g: nat,
                  closed: seq<Cell>, open: seq<Cell>, s0: SearchState, s: SearchState)
    requires s.cameFrom == s0.cameFrom && s.gScore == s0.gScore && s.fScore == s0.fScore
    ensures RelaxedScores(h, goal, cur, g, [], closed, open, s0, s)
  {
  }

  /** A pass of the neighbour loop that skips `n` (closed, or open and not cheaper) leaves
      the state as it was, and `n` is not relaxed. */
  lemma RelaxSkip(h: (Cell, Cell) -> real, goal: Cell, cur: Cell, g: nat, ns: seq<Cell>, i: nat,
                  closed: seq<Cell>, open: seq<Cell>, s0: SearchState, s: SearchState)
    requires i < |ns| && NoDup(ns) && ns[i] in s0.gScore
    requires RelaxedScores(h, goal, cur, g, ns[..i], closed, open, s0, s)
    requires s.closedSet == closed && s.openSet == open + Unclaimed(ns[..i], closed, open)
    requires ns[i] in s.openSet <==> ns[i] in open
    requires ns[i] in s.gScore && !Takes(ns[i], s.closedSet, s.openSet, s.gScore, g)
    ensures s.openSet == open + Unclaimed(ns[..i + 1], closed, open)
    ensures RelaxedScores(h, goal, cur, g, ns[..i + 1], closed, open, s0, s)
  {
    var n := ns[i];
    PrefixStep(ns, i);
    assert ns[..i + 1][..i] == ns[..i];
    assert !Relaxed(n, ns[..i], closed, open, s0.gScore, g);
    forall c
      ensures Relaxed(c, ns[..i + 1], closed, open, s0.gScore, g) <==> Relaxed(c, ns[..i], closed, open, s0.gScore, g)
    {
    }
  }

  /** A pass of the neighbour loop that takes `n` (appending it to open if new) records the
      path through `cur` for it, and `n` is relaxed. */
  lemma RelaxTake(h: (Cell, Cell) -> real, goal: Cell, cur: Cell, g: nat, ns: seq<Cell>, i: nat,
                  closed: seq<Cell>, open: seq<Cell>, s0: SearchState, s: SearchState, s1: SearchState)
    requires i < |ns| && NoDup(ns) && ns[i] in s0.gScore && ns[i] in s0.fScore
    requires RelaxedScores(h, goal, cur, g, ns[..i], closed, open, s0, s)
    requires s.closedSet == closed && s.openSet == open + Unclaimed(ns[..i], closed, open)
    requires ns[i] in s.openSet <==> ns[i] in open
    requires ns[i] in s.gScore && Takes(ns[i], s.closedSet, s.openSet, s.gScore, g)
    requires s1.closedSet == s.closedSet
    requires s1.openSet == if ns[i] in s.openSet then s.openSet else s.openSet + [ns[i]]
    requires s1.gScore == s.gScore[ns[i] := Finite(g)]
    requires s1.fScore == s.fScore[ns[i] := Finite(g as real + h(ns[i], goal))]
    requires s1.cameFrom == s.cameFrom[ns[i] := cur]
    ensures s1.openSet == open + Unclaimed(ns[..i + 1], closed, open)
    ensures RelaxedScores(h, goal, cur, g, ns[..i + 1], closed, open, s0, s1)
  {
    var n := ns[i];
    PrefixStep(ns, i);
    assert ns[..i + 1][..i] == ns[..i];
    assert !Relaxed(n, ns[..i], closed, open, s0.gScore, g);
    assert s.gScore[n] == s0.gScore[n];
    RelaxUpdates(h, goal, cur, g, ns[..i], n, closed, open, s0, s, s1);
  }

  /** The score half of RelaxTake. */
  lemma RelaxUpdates(h: (Cell, Cell) -> real, goal: Cell, cur: Cell, g: nat, ns: seq<Cell>, n: Cell,
                     closed: seq<Cell>, open: seq<Cell>, s0: SearchState, s: SearchState, s1: SearchState)
    requires n !in ns && n in s0.gScore && n in s0.fScore
    requires RelaxedScores(h, goal, cur, g, ns, closed, open, s0, s)
    requires Relaxed(n, ns + [n], closed, open, s0.gScore, g)
    requires s1.gScore == s.gScore[n := Finite(g)]
    requires s1.fScore == s.fScore[n := Finite(g as real + h(n, goal))]
    requires s1.cameFrom == s.cameFrom[n := cur]
    ensures RelaxedScores(h, goal, cur, g, ns + [n], closed, open, s0, s1)
  {
    var ns1 := ns + [n];
    forall c
      ensures Relaxed(c, ns1, closed, open, s0.gScore, g) <==> Relaxed(c, ns, closed, open, s0.gScore, g) || c == n
    {
    }
    assert RelaxedKeys(ns1, closed, open, g, s0, s1);
  }

  /** The neighbour loop, run over all of `ns`, performs the expansion. */
  lemma LoopExpansion(h: (Cell, Cell) -> real, goal: Cell, cur: Cell, ns: seq<Cell>,
                      s0: SearchState, s1: SearchState)
    requires cur in s0.gScore && s0.gScore[cur].Finite?
    requires var open, closed := RemoveFirst(s0.openSet, cur), s0.closedSet + [cur];
      s1.closedSet == closed && s1.openSet == open + Unclaimed(ns, closed, open) &&
      RelaxedScores(h, goal, cur, s0.gScore[cur].value + 1, ns, closed, open, s0, s1)
    ensures Expansion(h, goal, cur, ns, s0, s1)
  {
  }

  /** How an expansion moves cells between the lists: `cur` goes from open to closed, and
      exactly the undiscovered neighbours join open; the lists stay disjoint and
      duplicate-free. */
  lemma ExpansionLists(cur: Cell, ns: seq<Cell>, s0: SearchState, s1: SearchState)
    requires Frontier(s0) && cur in s0.openSet && NoDup(ns)
    requires ExpandedLists(cur, ns, s0, s1)
    ensures Frontier(s1)
    ensures forall c :: c in s1.closedSet <==> c in s0.closedSet || c == cur
    ensures forall c :: c in s1.openSet <==> (c in s0.openSet && c != cur) || (c in ns && !Reached(s0, c))
    ensures forall c :: c in RemoveFirst(s0.openSet, cur) <==> c in s0.openSet && c != cur
  {
    var open := RemoveFirst(s0.openSet, cur);
    var closed := s0.closedSet + [cur];
    RemoveFirstNoDup(s0.openSet, cur);
    UnclaimedFacts(ns, closed, open);
    var added := Unclaimed(ns, closed, open);
    assert cur !in s0.closedSet;
    assert NoDup(s1.closedSet) by {
      forall i, j | 0 <= i < j < |closed| ensures closed[i] != closed[j] {
        if j < |s0.closedSet| {
          assert closed[i] == s0.closedSet[i] && closed[j] == s0.closedSet[j];
        } else {
          assert closed[i] in s0.closedSet;
        }
      }
    }
    assert NoDup(s1.openSet) by {
      var o := s1.openSet;
      forall i, j | 0 <= i < j < |o| ensures o[i] != o[j] {
        if j < |open| {
          assert o[i] == open[i] && o[j] == open[j];
        } else if i >= |open| {
          assert o[i] == added[i - |open|] && o[j] == added[j - |open|];
        } else {
          assert o[i] in open && o[j] in added;
        }
      }
    }
  }

  /** The scores of an expanded state stay consistent with the lists. */
  lemma ExpansionScored(size: nat, h: (Cell, Cell) -> real, goal: Cell,
                        cur: Cell, ns: seq<Cell>, s0: SearchState, s1: SearchState)
    requires Domains(size, s0) && Scored(size, h, goal, s0) && cur in s0.openSet
    requires forall n :: n in ns ==> InGrid(size, n)
    requires forall c :: c in s1.closedSet <==> c in s0.closedSet || c == cur
    requires forall c :: c in s1.openSet <==> (c in s0.openSet && c != cur) || (c in ns && !Reached(s0, c))
    requires forall c :: c in RemoveFirst(s0.openSet, cur) <==> c in s0.openSet && c != cur
    requires s1.closedSet == s0.closedSet + [cur]
    requires ExpandedScores(h, goal, cur, ns, s0, s1)
    ensures Domains(size, s1) && Scored(size, h, goal, s1)
  {
    var g := s0.gScore[cur].value + 1;
    var open := RemoveFirst(s0.openSet, cur);
    var closed := s0.closedSet + [cur];
    forall c | Reached(s1, c)
      ensures InGrid(size, c) && c in s1.gScore && c in s1.fScore && s1.gScore[c].Finite? &&
              s1.fScore[c] == Finite(s1.gScore[c].value as real + h(c, goal))
    {
      if !Relaxed(c, ns, closed, open, s0.gScore, g) {
        assert Reached(s0, c);
      }
    }
  }

  /** Undiscovered cells stay untouched, and the start stays the root. */
  lemma ExpansionUntouched(size: nat, h: (Cell, Cell) -> real, start: Cell, goal: Cell,
                           cur: Cell, ns: seq<Cell>, s0: SearchState, s1: SearchState)
    requires Domains(size, s0) && Untouched(size, s0) && Rooted(start, s0) && cur in s0.openSet
    requires forall c :: c in s1.closedSet <==> c in s0.closedSet || c == cur
    requires forall c :: c in s1.openSet <==> (c in s0.openSet && c != cur) || (c in ns && !Reached(s0, c))
    requires forall c :: c in RemoveFirst(s0.openSet, cur) <==> c in s0.openSet && c != cur
    requires s1.closedSet == s0.closedSet + [cur]
    requires ExpandedScores(h, goal, cur, ns, s0, s1)
    ensures Untouched(size, s1) && Rooted(start, s1)
  {
    var g := s0.gScore[cur].value + 1;
    var open := RemoveFirst(s0.openSet, cur);
    var closed := s0.closedSet + [cur];
    assert !Relaxed(start, ns, closed, open, s0.gScore, g);
    forall c | Reached(s1, c) && c != start
      ensures c in s1.cameFrom
    {
      if !Reached(s0, c) {
        assert Relaxed(c, ns, closed, open, s0.gScore, g);
      }
    }
  }

  /** Predecessors stay closed and one step cheaper. */
  lemma ExpansionChained(size: nat, h: (Cell, Cell) -> real, goal: Cell,
                         cur: Cell, ns: seq<Cell>, s0: SearchState, s1: SearchState)
    requires Domains(size, s0) && Chained(s0) && cur in s0.openSet
    requires forall n :: n in ns ==> InGrid(size, n)
    requires forall c :: c in s1.closedSet <==> c in s0.closedSet || c == cur
    requires forall c :: c in s1.openSet <==> (c in s0.openSet && c != cur) || (c in ns && !Reached(s0, c))
    requires forall c :: c in RemoveFirst(s0.openSet, cur) <==> c in s0.openSet && c != cur
    requires s1.closedSet == s0.closedSet + [cur]
    requires ExpandedScores(h, goal, cur, ns, s0, s1)
    ensures Chained(s1)
  {
    var g := s0.gScore[cur].value + 1;
    var open := RemoveFirst(s0.openSet, cur);
    var closed := s0.closedSet + [cur];
    assert !Relaxed(cur, ns, closed, open, s0.gScore, g);
    forall c | c in s1.cameFrom
      ensures Reached(s1, c) && s1.cameFrom[c] in s1.closedSet &&
        c in s1.gScore && s1.cameFrom[c] in s1.gScore &&
        s1.gScore[c].Finite? && s1.gScore[s1.cameFrom[c]].Finite? &&
        s1.gScore[c].value == s1.gScore[s1.cameFrom[c]].value + 1
    {
      if !Relaxed(c, ns, closed, open, s0.gScore, g) {
        var p := s0.cameFrom[c];
        assert !Relaxed(p, ns, closed, open, s0.gScore, g);
      }
    }
  }

  /** An expansion of an open cell keeps every invariant of the search: open and closed stay
      disjoint and duplicate-free, scores stay consistent, predecessors stay closed and one
      step cheaper. */
  lemma ExpansionKeepsInvariant(size: nat, h: (Cell, Cell) -> real, start: Cell, goal: Cell,
                                cur: Cell, ns: seq<Cell>, s0: SearchState, s1: SearchState)
    requires SearchInv(size, h, start, goal, s0)
    requires cur in s0.openSet
    requires NoDup(ns) && forall n :: n in ns ==> InGrid(size, n)
    requires Expansion(h, goal, cur, ns, s0, s1)
    ensures SearchInv(size, h, start, goal, s1)
  {
    ExpansionLists(cur, ns, s0, s1);
    ExpansionScored(size, h, goal, cur, ns, s0, s1);
    ExpansionUntouched(size, h, start, goal, cur, ns, s0, s1);
    ExpansionChained(size, h, goal, cur, ns, s0, s1);
  }

  /** An expansion never raises a g-score, leaves the scores of closed cells as they were,
      and closes exactly one more cell. */
  lemma ExpansionMonotone(size: nat, h: (Cell, Cell) -> real, goal: Cell,
                          cur: Cell, ns: seq<Cell>, s0: SearchState, s1: SearchState)
    requires Domains(size, s0) && Frontier(s0) && Scored(size, h, goal, s0) && Untouched(size, s0)
    requires cur in s0.openSet
    requires Expansion(h, goal, cur, ns, s0, s1)
    ensures forall c :: c in s0.gScore ==> c in s1.gScore && AtMost(s1.gScore[c], s0.gScore[c])
    ensures forall c :: c in s0.closedSet ==> c in s1.closedSet && s1.gScore[c] == s0.gScore[c]
    ensures |s1.closedSet| == |s0.closedSet| + 1
  {
    var g := s0.gScore[cur].value + 1;
    var open := RemoveFirst(s0.openSet, cur);
    var closed := s0.closedSet + [cur];
    RemoveFirstNoDup(s0.openSet, cur);
    forall c | c in s0.gScore && Relaxed(c, ns, closed, open, s0.gScore, g)
      ensures AtMost(Finite(g), s0.gScore[c])
    {
      if c !in open {
        assert !Reached(s0, c);
      }
    }
    forall c | c in s0.closedSet
      ensures c in s1.closedSet && s1.gScore[c] == s0.gScore[c]
    {
      assert !Relaxed(c, ns, closed, open, s0.gScore, g);
    }
  }

  /** Index `k` of `s` holds a first minimum of `scores`: nothing in `s` is cheaper, and
      everything before `k` is strictly dearer. */
  predicate FirstMinAt(s: seq<Cell>, scores: map<Cell, Score<real>>, k: int)
    requires forall c :: c in s ==> c in scores
  {
    0 <= k < |s| &&
    (forall j :: 0 <= j < |s| ==> !Less(scores[s[j]], scores[s[k]])) &&
    (forall j :: 0 <= j < k ==> Less(scores[s[k]], scores[s[j]]))
  }

  /** cheapestNode's result is determined: two first minima are the same cell. */
  lemma FirstMinUnique(s: seq<Cell>, scores: map<Cell, Score<real>>, k1: int, k2: int)
    requires forall c :: c in s ==> c in scores
    requires FirstMinAt(s, scores, k1) && FirstMinAt(s, scores, k2)
    ensures k1 == k2
  {
    // neither is cheaper than the other, so neither lies before the other
    assert !Less(scores[s[k2]], scores[s[k1]]);
    assert !Less(scores[s[k1]], scores[s[k2]]);
  }

  /** cheapestNode as a function of its inputs: the cell at the first minimum. */
  ghost predicate IsCheapest(s: seq<Cell>, scores: map<Cell, Score<real>>, node: Cell)
    requires forall c :: c in s ==> c in scores
  {
    exists k :: FirstMinAt(s, scores, k) && s[k] == node
  }

  // ---------------------------------------------------------------------------

  /** Every cell of a size x size grid, column by column (the `spaces` comprehension). */
  method AllCells(size: nat) returns (spaces: seq<Cell>)
    ensures forall c :: c in spaces <==> InGrid(size, c)
  {
    spaces := [];
    for x := 0 to size
      invariant forall c {:trigger c in spaces} :: c in spaces <==> c.x < x && c.y < size
    {
      for y := 0 to size
        invariant forall c {:trigger c in spaces} :: c in spaces <==> (c.x < x && c.y < size) || (c.x == x && c.y < y)
      {
        spaces := spaces + [Cell(x, y)];
      }
    }
  }

  /** Every listed cell gets an infinite score. */
  method Unreached<T>(spaces: seq<Cell>) returns (scores: map<Cell, Score<T>>)
    ensures forall c :: c in scores <==> c in spaces
    ensures forall c :: c in scores ==> scores[c] == Infinite
  {
    scores := map[];
    for i := 0 to |spaces|
      invariant forall c :: c in scores <==> c in spaces[..i]
      invariant forall c :: c in scores ==> scores[c] == Infinite
    {
      scores := scores[spaces[i] := Infinite];
    }
  }

  /** Four lists of at most one neighbour each, in directions 0, 1, 2, 3, concatenate to a
      list ordered by direction. */
  lemma DirectionsAscend(node: Cell, e: seq<Cell>, w: seq<Cell>, s: seq<Cell>, n: seq<Cell>)
    requires |e| <= 1 && |w| <= 1 && |s| <= 1 && |n| <= 1
    requires forall c :: c in e ==> Direction(node, c) == 0
    requires forall c :: c in w ==> Direction(node, c) == 1
    requires forall c :: c in s ==> Direction(node, c) == 2
    requires forall c :: c in n ==> Direction(node, c) == 3
    ensures var r := e + w + s + n;
      forall i, j :: 0 <= i < j < |r| ==> Direction(node, r[i]) < Direction(node, r[j])
  {
    var r := e + w + s + n;
    forall i | 0 <= i < |r|
      ensures Direction(node, r[i]) ==
        if i < |e| then 0 else if i < |e| + |w| then 1 else if i < |e| + |w| + |s| then 2 else 3
    {
      if i < |e| {
        assert r[i] == e[i];
      } else if i < |e| + |w| {
        assert r[i] == w[i - |e|];
      } else if i < |e| + |w| + |s| {
        assert r[i] == s[i - |e| - |w|];
      } else {
        assert r[i] == n[i - |e| - |w| - |s|];
      }
    }
  }

  class AStarStep {
    const world: World
    /** calcHeuristic: the straight-line distance in the source; any function here. */
    const heuristic: (Cell, Cell) -> real

    var start: Cell
    var goal: Cell
    var openSet: seq<Cell>
    var closedSet: seq<Cell>
    var cameFrom: map<Cell, Cell>
    var gScore: map<Cell, Score<nat>>
    var fScore: map<Cell, Score<real>>
    /** Absent until the first step selects a node. */
    var current: Option<Cell>
    var done: bool
    var success: bool
    /** initStepSearch has run (before that the search fields do not exist). */
    ghost var initialized: bool

    function State(): SearchState
      reads this`openSet, this`closedSet, this`cameFrom, this`gScore, this`fScore
    {
      SearchState(openSet, closedSet, cameFrom, gScore, fScore)
    }

    /** The search invariant, and what `done` and `success` say about the state. */
    ghost predicate Searching()
      reads this
    {
      initialized &&
      SearchInv(world.size, heuristic, start, goal, State()) &&
      (success ==> done && current == Some(goal) && goal in openSet) &&
      (done && !success ==> openSet == [])
    }

    constructor (world: World, heuristic: (Cell, Cell) -> real)
      ensures this.world == world && this.heuristic == heuristic
      ensures current == None && !initialized
    {
      this.world := world;
      this.heuristic := heuristic;
      start, goal := Cell(0, 0), Cell(0, 0);
      openSet, closedSet := [], [];
      cameFrom, gScore, fScore := map[], map[], map[];
      current := None;
      done, success := false, false;
      initialized := false;
    }

    /** initStepSearch: a fresh search from the world's start to its end. `current` keeps
        whatever the previous search left in it. */
    method InitStepSearch()
      requires world.Valid()
      modifies this
      ensures Searching()
      ensures start == world.startpos && goal == world.endpos
      ensures Initial(world.size, heuristic, start, goal, State())
      ensures !done && !success && current == old(current)
    {
      start := world.startpos;
      goal := world.endpos;
      done, success, initialized := false, false, true;
      var s := InitialState(world.size, heuristic, start, goal);
      Store(s, current);
    }

    /** One test of getNeighbors: `[c]` when `c` lies on the map and is not an obstacle. */
    function Passable(c: Cell): (r: seq<Cell>)
      reads world, world.cells
      requires world.Valid()
      ensures forall d {:trigger d in r} :: d in r <==>
        d == c && InGrid(world.size, c) && world.cells[c.y, c.x] != OBSTACLE
    {
      if c.x < world.size && c.y < world.size && world.cells[c.y, c.x] != OBSTACLE then [c] else []
    }

    /** getNeighbors: the orthogonally adjacent cells on the map that are not obstacles
        (start, goal and searched cells are passable), in the order +x, -x, +y, -y. */
    function Neighbors(node: Cell): (r: seq<Cell>)
      reads world, world.cells
      requires world.Valid() && InGrid(world.size, node)
      ensures forall i, j :: 0 <= i < j < |r| ==> Direction(node, r[i]) < Direction(node, r[j])
    {
      var x, y := node.x, node.y;
      var east := Passable(Cell(x + 1, y));
      var west := if x > 0 then Passable(Cell(x - 1, y)) else [];
      var south := Passable(Cell(x, y + 1));
      var north := if y > 0 then Passable(Cell(x, y - 1)) else [];
      assert forall c :: c in east ==> Direction(node, c) == 0;
      assert forall c :: c in west ==> Direction(node, c) == 1;
      assert forall c :: c in south ==> Direction(node, c) == 2;
      assert forall c :: c in north ==> Direction(node, c) == 3;
      DirectionsAscend(node, east, west, south, north);
      east + west + south + north
    }

    /** getNeighbors returns exactly the adjacent cells on the map that are not obstacles. */
    lemma NeighborsExact(node: Cell)
      requires world.Valid() && InGrid(world.size, node)
      ensures forall c {:trigger c in Neighbors(node)} :: c in Neighbors(node) <==>
        Adjacent(node, c) && InGrid(world.size, c) && world.cells[c.y, c.x] != OBSTACLE
    {
      AdjacentCells(node);
    }

    /** cheapestNode: a linear scan of the open list that keeps the first cell of least score. */
    method CheapestNode(scores: map<Cell, Score<real>>) returns (node: Cell)
      requires openSet != []
      requires forall c :: c in openSet ==> c in scores
      ensures node in openSet && IsCheapest(openSet, scores, node)
    {
      node := openSet[0];
      var cheapestScore := scores[node];
      ghost var k := 0;
      for i := 1 to |openSet|
        invariant 0 <= k < i && node == openSet[k] && cheapestScore == scores[node]
        invariant forall j :: 0 <= j < i ==> !Less(scores[openSet[j]], cheapestScore)
        invariant forall j :: 0 <= j < k ==> Less(cheapestScore, scores[openSet[j]])
      {
        var s := openSet[i];
        if Less(scores[s], cheapestScore) {
          cheapestScore := scores[s];
          node := s;
          k := i;
        }
      }
      assert FirstMinAt(openSet, scores, k);
    }

    /** reconstructPath: follows the predecessors from `node` back to a cell that has none;
        from a discovered cell that is the start, after g(node) steps. */
    method ReconstructPath(node: Cell) returns (path: seq<Cell>)
      requires Rooted(start, State()) && Chained(State())
      ensures |path| >= 1 && path[0] == node && path[|path| - 1] !in cameFrom
      ensures forall i :: 0 <= i < |path| - 1 ==> path[i] in cameFrom && cameFrom[path[i]] == path[i + 1]
      ensures Reached(State(), node) ==>
        path[|path| - 1] == start && |path| == gScore[node].value + 1
    {
      var last := node;
      path := [node];
      while last in cameFrom
        invariant |path| >= 1 && path[0] == node && path[|path| - 1] == last
        invariant forall i :: 0 <= i < |path| - 1 ==> path[i] in cameFrom && cameFrom[path[i]] == path[i + 1]
        invariant Reached(State(), node) ==>
          Reached(State(), last) && gScore[last].value + |path| - 1 == gScore[node].value
        invariant last in cameFrom ==> Reached(State(), last)
        decreases if last in cameFrom then gScore[last].value else 0
      {
        ChainStep(State(), last);
        last := cameFrom[last];
        path := path + [last];
      }
    }

    /** Writes the search state `s` and the current node `cur` back into the fields. */
    method Store(s: SearchState, cur: Option<Cell>)
      modifies this
      ensures State() == s && current == cur
      ensures start == old(start) && goal == old(goal)
      ensures done == old(done) && success == old(success) && initialized == old(initialized)
    {
      openSet, closedSet, cameFrom, gScore, fScore := s.openSet, s.closedSet, s.cameFrom, s.gScore, s.fScore;
      current := cur;
    }

    /** The two outcomes of stepSearch: the goal is current (`found`), or the open list is
        exhausted. The search state stays as it is. */
    method Finish(cur: Option<Cell>, found: bool)
      requires Searching() && !done
      requires found ==> cur == Some(goal) && goal in openSet
      requires !found ==> openSet == []
      modifies this
      ensures Searching() && State() == old(State())
      ensures start == old(start) && goal == old(goal)
      ensures current == cur && done && success == found
    {
      current, done, success := cur, true, found;
      assert State() == old(State());
    }

    /** The else branch of stepSearch: `cur` becomes current and is expanded. */
    method Expand(cur: Cell)
      requires Searching() && world.Valid() && !done && cur in openSet && cur != goal
      modifies this
      ensures Searching() && start == old(start) && goal == old(goal)
      ensures current == Some(cur) && !done && !success
      ensures Expansion(heuristic, goal, cur, Neighbors(cur), old(State()), State())
      ensures forall c :: c in old(gScore) ==> c in gScore && AtMost(gScore[c], old(gScore[c]))
      ensures forall c :: c in old(closedSet) ==> c in closedSet && gScore[c] == old(gScore[c])
    {
      var s0, neighbors := State(), Neighbors(cur);
      NeighborsExact(cur);
      assert NoDup(neighbors);
      var s := ExpandState(world.size, heuristic, start, goal, cur, neighbors, s0);
      Store(s, Some(cur));
      NeighborsKept(cur);
    }

    /** The neighbours of a cell depend on the map alone. */
    twostate lemma NeighborsKept(node: Cell)
      requires old(world.Valid()) && InGrid(world.size, node)
      requires unchanged(world) && unchanged(world.cells)
      ensures world.Valid() && Neighbors(node) == old(Neighbors(node))
    {
    }

    /** stepSearch: one expansion or one termination check. */
    method StepSearch()
      requires Searching() && world.Valid()
      modifies this
      ensures Searching()
      ensures start == old(start) && goal == old(goal)
      // finished: nothing changes
      ensures old(done) ==> unchanged(this)
      // open list exhausted: failure
      ensures !old(done) && old(openSet) == [] ==>
        done && !success && State() == old(State()) && current == old(current)
      // otherwise the first cheapest open cell becomes current
      ensures !old(done) && old(openSet) != [] ==>
        current.Some? && IsCheapest(old(openSet), old(fScore), current.value)
      // it is the goal: success, nothing else changes
      ensures !old(done) && old(openSet) != [] && current == Some(goal) ==>
        done && success && State() == old(State())
      // it is not: it is expanded
      ensures !old(done) && old(openSet) != [] && current != Some(goal) ==>
        var cur := current.value;
        !done && !success && Expansion(heuristic, goal, cur, Neighbors(cur), old(State()), State())
      // g-scores never rise; closed cells keep theirs; closed only grows
      ensures forall c :: c in old(gScore) ==> c in gScore && AtMost(gScore[c], old(gScore[c]))
      ensures forall c :: c in old(closedSet) ==> c in closedSet && gScore[c] == old(gScore[c])
    {
      if done {
        // finished: nothing changes
      } else if openSet != [] {
        var cur := CheapestNode(fScore);
        if cur == goal {
          Finish(Some(cur), true);
        } else {
          Expand(cur);
        }
      } else {
        Finish(current, false);
      }
    }
  }
}
