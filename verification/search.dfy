/** The breadth-first search of src/solve-worker.ts: explore the boards one
    press, two presses, ... away from the start, layer by layer, remembering
    for each board the board it was first reached from, until the dark board
    is taken from the queue; then walk the parents back to the start.

    The worker's own `togglePlus` has the same body as the one of
    src/App.tsx, so the model uses LightsOut.TogglePlus for both.

    The layers of the search are defined for a move function `step`, where
    step(u, r, c) is the board reached from u by pressing cell (r, c); the
    search itself works with any `step` that agrees with TogglePlus on the
    cells of the board (Toggles). Keeping the layers apart from the bit
    arithmetic of TogglePlus keeps their proofs small. */
module Search {
  import opened Bits
  import opened Wrappers
  import opened LightsOut

  /** A move function: the board reached from a board by pressing a cell. */
  type Step = (nat, nat, nat) -> nat

  /** step presses cells the way `togglePlus` does. */
  ghost predicate Toggles(size: BoardSize, step: Step)
  {
    forall u: nat, r: nat, c: nat {:trigger TogglePlus(u, size, r, c)} ::
      r < size && c < size ==> step(u, r, c) == TogglePlus(u, size, r, c)
  }

  /** `togglePlus` itself is such a move function. */
  lemma ToggleStep(size: BoardSize) returns (step: Step)
    ensures Toggles(size, step)
  {
    step := (u: nat, r: nat, c: nat) => if r < size && c < size then TogglePlus(u, size, r, c) else u;
  }

  /** Pressing cell (r, c) is the press of index r * size + c. */
  lemma PressCell(u: nat, size: BoardSize, r: nat, c: nat) returns (p: nat)
    requires r < size && c < size
    ensures p == r * size + c && p < size * size && Press(u, size, p) == TogglePlus(u, size, r, c)
  {
    CellBelowArea(size, r, c);
    CellCoords(size, r, c);
    p := r * size + c;
  }

  // ---------------------------------------------------------------------
  // Layers of the search
  // ---------------------------------------------------------------------

  /** The boards reached from u by pressing one of the cells that come before
      (rows, cols) in the row-by-row order of the loops over r and c. */
  ghost function Moves(u: nat, size: BoardSize, step: Step, rows: nat, cols: nat): set<nat>
    requires (rows < size && cols <= size) || (rows == size && cols == 0)
    decreases rows, cols
  {
    if cols > 0 then Moves(u, size, step, rows, cols - 1) + {step(u, rows, cols - 1)}
    else if rows > 0 then Moves(u, size, step, rows - 1, size)
    else {}
  }

  /** The boards one press away from u. */
  ghost function AllMoves(u: nat, size: BoardSize, step: Step): set<nat>
  {
    Moves(u, size, step, size, 0)
  }

  /** Some board of a nonempty set. */
  ghost function Pick(bs: set<nat>): (b: nat)
    requires bs != {}
    ensures b in bs
  {
    var b :| b in bs; b
  }

  /** The boards one press away from some board of bs, gathered one board of
      bs at a time. */
  ghost function Children(bs: set<nat>, size: BoardSize, step: Step): set<nat>
    decreases bs
  {
    if bs == {} then {}
    else Children(bs - {Pick(bs)}, size, step) + AllMoves(Pick(bs), size, step)
  }

  /** The boards at most k presses away from board. */
  ghost function Within(board: nat, size: BoardSize, step: Step, k: nat): set<nat>
  {
    if k == 0 then {board}
    else Within(board, size, step, k - 1) + Children(Within(board, size, step, k - 1), size, step)
  }

  /** The boards exactly k presses away from board, and not fewer. */
  ghost function Layer(board: nat, size: BoardSize, step: Step, k: nat): set<nat>
  {
    if k == 0 then {board} else Within(board, size, step, k) - Within(board, size, step, k - 1)
  }

  /** Each cell before (rows, cols) contributes its press to Moves. */
  lemma {:induction false} MovesHas(u: nat, size: BoardSize, step: Step, rows: nat, cols: nat, r: nat, c: nat)
    requires (rows < size && cols <= size) || (rows == size && cols == 0)
    requires r < size && c < size && (r < rows || (r == rows && c < cols))
    ensures step(u, r, c) in Moves(u, size, step, rows, cols)
    decreases rows, cols
  {
    if cols > 0 {
      if !(r == rows && c == cols - 1) {
        MovesHas(u, size, step, rows, cols - 1, r, c);
      }
    } else {
      MovesHas(u, size, step, rows - 1, size, r, c);
    }
  }

  /** ... and Moves holds nothing else. */
  lemma {:induction false} MovesFrom(u: nat, size: BoardSize, step: Step, rows: nat, cols: nat, b: nat)
    returns (r: nat, c: nat)
    requires (rows < size && cols <= size) || (rows == size && cols == 0)
    requires b in Moves(u, size, step, rows, cols)
    ensures r < size && c < size && b == step(u, r, c)
    decreases rows, cols
  {
    if cols > 0 {
      if b == step(u, rows, cols - 1) {
        r, c := rows, cols - 1;
      } else {
        r, c := MovesFrom(u, size, step, rows, cols - 1, b);
      }
    } else if rows > 0 {
      r, c := MovesFrom(u, size, step, rows - 1, size, b);
    }
  }

  lemma {:induction false} ChildrenHas(bs: set<nat>, size: BoardSize, step: Step, a: nat, r: nat, c: nat)
    requires a in bs && r < size && c < size
    ensures step(a, r, c) in Children(bs, size, step)
    decreases bs
  {
    var b := Pick(bs);
    if a == b {
      MovesHas(a, size, step, size, 0, r, c);
    } else {
      ChildrenHas(bs - {b}, size, step, a, r, c);
    }
  }

  lemma {:induction false} ChildrenFrom(bs: set<nat>, size: BoardSize, step: Step, m: nat)
    returns (a: nat, r: nat, c: nat)
    requires m in Children(bs, size, step)
    ensures a in bs && r < size && c < size && m == step(a, r, c)
    decreases bs
  {
    var b := Pick(bs);
    if m in AllMoves(b, size, step) {
      a := b;
      r, c := MovesFrom(b, size, step, size, 0, m);
    } else {
      a, r, c := ChildrenFrom(bs - {b}, size, step, m);
    }
  }

  /** The children of one more board are those of the others and its own
      moves. */
  lemma ChildrenAdd(bs: set<nat>, u: nat, size: BoardSize, step: Step)
    ensures Children(bs + {u}, size, step) == Children(bs, size, step) + AllMoves(u, size, step)
  {
    var more := bs + {u};
    forall m | m in Children(more, size, step)
      ensures m in Children(bs, size, step) + AllMoves(u, size, step)
    {
      var a, r, c := ChildrenFrom(more, size, step, m);
      if a == u {
        MovesHas(u, size, step, size, 0, r, c);
      } else {
        ChildrenHas(bs, size, step, a, r, c);
      }
    }
    forall m | m in Children(bs, size, step) + AllMoves(u, size, step)
      ensures m in Children(more, size, step)
    {
      if m in Children(bs, size, step) {
        var a, r, c := ChildrenFrom(bs, size, step, m);
        ChildrenHas(more, size, step, a, r, c);
      } else {
        var r, c := MovesFrom(u, size, step, size, 0, m);
        ChildrenHas(more, size, step, u, r, c);
      }
    }
  }

  /** The board a list of presses leads to is within that many presses. */
  lemma {:induction false} PressesWithin(board: nat, size: BoardSize, step: Step, ps: seq<nat>)
    requires Toggles(size, step) && OnBoard(size, ps)
    ensures ApplyPresses(board, size, ps) in Within(board, size, step, |ps|)
    decreases |ps|
  {
    if ps != [] {
      var init := ps[..|ps| - 1];
      var p := ps[|ps| - 1];
      assert init + [p] == ps;
      ApplyPressesSnoc(board, size, init, p);
      PressesWithin(board, size, step, init);
      var a := ApplyPresses(board, size, init);
      CellInRange(size, p);
      assert Press(a, size, p) == TogglePlus(a, size, p / size, p % size);
      ChildrenHas(Within(board, size, step, |init|), size, step, a, p / size, p % size);
    }
  }

  /** Every board within k presses is where some list of at most k presses
      leads. */
  lemma {:induction false} WithinPresses(board: nat, size: BoardSize, step: Step, k: nat, b: nat)
    returns (ps: seq<nat>)
    requires Toggles(size, step) && b in Within(board, size, step, k)
    ensures OnBoard(size, ps) && |ps| <= k && ApplyPresses(board, size, ps) == b
  {
    if k == 0 {
      ps := [];
    } else {
      var before := Within(board, size, step, k - 1);
      if b in before {
        ps := WithinPresses(board, size, step, k - 1, b);
      } else {
        var a, r, c := ChildrenFrom(before, size, step, b);
        var init := WithinPresses(board, size, step, k - 1, a);
        var p := PressCell(a, size, r, c);
        ApplyPressesSnoc(board, size, init, p);
        ps := init + [p];
      }
    }
  }

  lemma {:induction false} WithinMonotone(board: nat, size: BoardSize, step: Step, a: nat, b: nat)
    requires a <= b
    ensures Within(board, size, step, a) <= Within(board, size, step, b)
    decreases b - a
  {
    if a < b {
      WithinMonotone(board, size, step, a, b - 1);
    }
  }

  /** The next layer is what the current layer's children add. */
  lemma NextLayer(board: nat, size: BoardSize, step: Step, d: nat)
    ensures Within(board, size, step, d + 1)
         == Within(board, size, step, d) + Children(Layer(board, size, step, d), size, step)
  {
    if d > 0 {
      var older := Within(board, size, step, d - 1);
      forall b | b in Children(Within(board, size, step, d), size, step)
        ensures b in Within(board, size, step, d) + Children(Layer(board, size, step, d), size, step)
      {
        var a, r, c := ChildrenFrom(Within(board, size, step, d), size, step, b);
        if a in older {
          ChildrenHas(older, size, step, a, r, c);
        } else {
          ChildrenHas(Layer(board, size, step, d), size, step, a, r, c);
        }
      }
      forall b | b in Children(Layer(board, size, step, d), size, step)
        ensures b in Children(Within(board, size, step, d), size, step)
      {
        var a, r, c := ChildrenFrom(Layer(board, size, step, d), size, step, b);
        ChildrenHas(Within(board, size, step, d), size, step, a, r, c);
      }
    }
  }

  /** A set of boards that holds every move from its boards holds every
      board a list of presses leads to from one of them. */
  lemma {:induction false} ClosedReaches(b: nat, size: BoardSize, step: Step, w: set<nat>, ps: seq<nat>)
    requires Toggles(size, step) && b in w && OnBoard(size, ps)
    requires forall x, r: nat, c: nat :: x in w && r < size && c < size ==> step(x, r, c) in w
    ensures ApplyPresses(b, size, ps) in w
    decreases |ps|
  {
    if ps != [] {
      CellInRange(size, ps[0]);
      var next := Press(b, size, ps[0]);
      assert next == TogglePlus(b, size, ps[0] / size, ps[0] % size);
      ClosedReaches(next, size, step, w, ps[1..]);
    }
  }

  lemma StepOffBoard(a: nat, size: BoardSize, step: Step, r: nat, c: nat, j: nat)
    requires Toggles(size, step) && r < size && c < size && size * size <= j
    ensures Bit(step(a, r, c), j) == Bit(a, j)
  {
    TogglePlusOffBoard(a, size, r, c, j);
  }

  /** Presses never change the bits at or above size * size. */
  lemma {:induction false} WithinHighBits(board: nat, size: BoardSize, step: Step, k: nat, b: nat, j: nat)
    requires Toggles(size, step) && b in Within(board, size, step, k) && size * size <= j
    ensures Bit(b, j) == Bit(board, j)
  {
    if k > 0 {
      var before := Within(board, size, step, k - 1);
      if b in before {
        WithinHighBits(board, size, step, k - 1, b, j);
      } else {
        var a, r, c := ChildrenFrom(before, size, step, b);
        StepOffBoard(a, size, step, r, c, j);
        WithinHighBits(board, size, step, k - 1, a, j);
      }
    }
  }

  /** At most 2^(size^2) boards are ever seen. */
  lemma WithinBound(board: nat, size: BoardSize, step: Step, k: nat)
    requires Toggles(size, step)
    ensures |Within(board, size, step, k)| <= Pow2(size * size)
  {
    var n := size * size;
    forall b | b in Within(board, size, step, k)
      ensures b in Coset(board, n)
    {
      forall j: nat | n <= j
        ensures Bit(b, j) == Bit(board, j)
      {
        WithinHighBits(board, size, step, k, b, j);
      }
      InCoset(board, n, b);
    }
    SubsetSize(Within(board, size, step, k), Coset(board, n));
    CosetSize(board, n);
  }

  lemma ProperSubsetSize(a: set<nat>, b: set<nat>, x: nat)
    requires a <= b && x in b && x !in a
    ensures |a| < |b|
  {
    assert b == a + (b - a);
    assert x in b - a;
  }

  // ---------------------------------------------------------------------
  // The parent tree
  // ---------------------------------------------------------------------

  /** What `seen` and `parent` record: every seen board has a parent entry;
      the start's is -1; every other seen board is one press, at cell
      cellOf[b], away from its parent, a seen board one step closer (dist) to
      the start. */
  ghost predicate Tree(board: nat, size: BoardSize, step: Step, seen: set<nat>, parent: map<nat, int>,
                       dist: map<nat, nat>, cellOf: map<nat, (nat, nat)>)
  {
    board in seen && seen == parent.Keys &&
    (forall b :: b in seen ==> b in dist) &&
    parent[board] == -1 && dist[board] == 0 &&
    forall b {:trigger parent[b]} :: b in seen && b != board ==>
      0 <= parent[b] && parent[b] as nat in seen && b in cellOf &&
      cellOf[b].0 < size && cellOf[b].1 < size &&
      b == step(parent[b] as nat, cellOf[b].0, cellOf[b].1) && dist[b] == dist[parent[b] as nat] + 1
  }

  /** Recording a new board `move`, reached from the seen board u by pressing
      (r, c), keeps the tree. */
  lemma TreeAdd(board: nat, size: BoardSize, step: Step, seen: set<nat>, parent: map<nat, int>,
                dist: map<nat, nat>, cellOf: map<nat, (nat, nat)>, u: nat, move: nat, r: nat, c: nat)
    requires Tree(board, size, step, seen, parent, dist, cellOf)
    requires u in seen && move !in seen && r < size && c < size && move == step(u, r, c)
    ensures Tree(board, size, step, seen + {move}, parent[move := u], dist[move := dist[u] + 1], cellOf[move := (r, c)])
  {
  }

  /** `Array.prototype.reverse`. */
  function Reverse(s: seq<nat>): (r: seq<nat>)
    ensures |r| == |s| && forall i :: 0 <= i < |s| ==> r[i] == s[|s| - 1 - i]
  {
    if s == [] then [] else Reverse(s[1..]) + [s[0]]
  }

  lemma ReverseSnoc(s: seq<nat>, x: nat)
    ensures Reverse(s + [x]) == [x] + Reverse(s)
  {
    var r, t := Reverse(s + [x]), [x] + Reverse(s);
    forall i | 0 <= i < |r|
      ensures r[i] == t[i]
    {
      if i > 0 {
        assert (s + [x])[|s| - i] == s[|s| - i];
      }
    }
  }

  /** Pressing x first and then ps goes through p and then through the boards
      of ps from Press(p, x). */
  lemma {:induction false} BoardsCons(p: nat, size: BoardSize, x: nat, ps: seq<nat>)
    requires x < size * size && OnBoard(size, ps)
    ensures OnBoard(size, [x] + ps)
    ensures Boards(p, size, [x] + ps) == [p] + Boards(Press(p, size, x), size, ps)
    decreases |ps|
  {
    var q := Press(p, size, x);
    if ps == [] {
      assert Boards(p, size, [x]) == [p] + [q];
    } else {
      var init := ps[..|ps| - 1];
      var last := ps[|ps| - 1];
      assert init + [last] == ps;
      assert ([x] + init) + [last] == [x] + ps;
      BoardsCons(p, size, x, init);
      var tail := Boards(q, size, init);
      var front := Boards(p, size, [x] + init);
      assert front == [p] + tail;
      assert front[|init| + 1] == tail[|init|];
      var y := Press(tail[|init|], size, last);
      BoardsSnoc(q, size, init, last);
      assert Boards(q, size, ps) == tail + [y];
      BoardsSnoc(p, size, [x] + init, last);
      assert Boards(p, size, [x] + ps) == front + [y];
    }
  }

  /** The loop that follows the parents from u back to the start: the
      boards it pushes, reversed, are the boards of a list of dist[u]
      presses from the start to u. */
  method TracePath(board: nat, size: BoardSize, parent: map<nat, int>, u: nat, ghost step: Step,
                   ghost seen: set<nat>, ghost dist: map<nat, nat>, ghost cellOf: map<nat, (nat, nat)>)
    returns (solution: seq<nat>, ghost presses: seq<nat>)
    requires Toggles(size, step) && Tree(board, size, step, seen, parent, dist, cellOf) && u in seen
    ensures OnBoard(size, presses) && |presses| == dist[u]
    ensures Reverse(solution) == Boards(board, size, presses)
    ensures Boards(board, size, presses)[|presses|] == u
  {
    solution := [];
    presses := [];
    var p: int := u;
    while p != -1
      invariant OnBoard(size, presses)
      invariant solution == [] ==> p == u
      invariant solution != [] ==> solution[0] == u
      invariant p == -1 ==> solution != []
      invariant p == -1 ==> Reverse(solution) == Boards(board, size, presses) && |presses| == dist[u]
      invariant p != -1 ==>
        0 <= p && p as nat in seen &&
        [p as nat] + Reverse(solution) == Boards(p as nat, size, presses) && |presses| + dist[p as nat] == dist[u]
      decreases if p == -1 then 0 else dist[p as nat] + 1
    {
      var q := p as nat;
      ReverseSnoc(solution, q);
      solution := solution + [q];
      p := parent[q];
      if q != board {
        ghost var press := PressCell(p as nat, size, cellOf[q].0, cellOf[q].1);
        BoardsCons(p as nat, size, press, presses);
        presses := [press] + presses;
      }
    }
  }

  // ---------------------------------------------------------------------
  // solve
  // ---------------------------------------------------------------------

  /** The state while the moves of u are explored, `added` being the moves
      tried so far: they are all seen, those not seen before have joined the
      queue once, one step further than u, and nothing known before has
      changed parent or distance. */
  ghost predicate Expanding(board: nat, size: BoardSize, step: Step, u: nat, seen0: set<nat>, upcoming0: seq<nat>,
                            dist0: map<nat, nat>, parent0: map<nat, int>, added: set<nat>, seen: set<nat>,
                            parent: map<nat, int>, upcoming: seq<nat>, dist: map<nat, nat>,
                            cellOf: map<nat, (nat, nat)>)
  {
    Tree(board, size, step, seen, parent, dist, cellOf) && u in seen0 && u in dist0 &&
    seen == seen0 + added &&
    (forall b :: b in upcoming <==> b in upcoming0 || (b in added && b !in seen0)) &&
    (forall j :: 0 <= j < |upcoming| ==> upcoming[j] in seen && dist[upcoming[j]] == dist0[u] + 1) &&
    NoRepeats(upcoming) &&
    (forall b :: b in seen0 ==> b in dist0 && b in dist && dist[b] == dist0[b]) &&
    (forall b :: b in seen0 ==> b in parent0 && b in parent && parent[b] == parent0[b])
  }

  /** No board is listed twice. */
  ghost predicate NoRepeats(s: seq<nat>)
  {
    forall i, j :: 0 <= i < j < |s| ==> s[i] != s[j]
  }

  /** A move seen before changes nothing. */
  lemma ExpandingSeen(board: nat, size: BoardSize, step: Step, u: nat, seen0: set<nat>, upcoming0: seq<nat>,
                      dist0: map<nat, nat>, parent0: map<nat, int>, added: set<nat>, seen: set<nat>, parent: map<nat, int>,
                      upcoming: seq<nat>, dist: map<nat, nat>, cellOf: map<nat, (nat, nat)>, move: nat)
    requires Expanding(board, size, step, u, seen0, upcoming0, dist0, parent0, added, seen, parent, upcoming, dist, cellOf)
    requires move in seen
    ensures Expanding(board, size, step, u, seen0, upcoming0, dist0, parent0, added + {move}, seen, parent, upcoming, dist, cellOf)
  {
  }

  /** A move not seen before is seen, has u as its parent and is queued. */
  lemma ExpandingNew(board: nat, size: BoardSize, step: Step, u: nat, seen0: set<nat>, upcoming0: seq<nat>,
                     dist0: map<nat, nat>, parent0: map<nat, int>, added: set<nat>, seen: set<nat>, parent: map<nat, int>,
                     upcoming: seq<nat>, dist: map<nat, nat>, cellOf: map<nat, (nat, nat)>, move: nat, r: nat, c: nat)
    requires Expanding(board, size, step, u, seen0, upcoming0, dist0, parent0, added, seen, parent, upcoming, dist, cellOf)
    requires move !in seen && r < size && c < size && move == step(u, r, c)
    ensures Expanding(board, size, step, u, seen0, upcoming0, dist0, parent0, added + {move}, seen + {move}, parent[move := u],
                      upcoming + [move], dist[move := dist[u] + 1], cellOf[move := (r, c)])
  {
    TreeAdd(board, size, step, seen, parent, dist, cellOf, u, move, r, c);
    var upcoming' := upcoming + [move];
    assert move !in upcoming;
    forall b
      ensures b in upcoming' <==> b in upcoming0 || (b in added + {move} && b !in seen0)
    {
      assert b in upcoming' <==> b in upcoming || b == move;
    }
  }

  /** The body of the loop over c: the move at (r, c) from u, when not seen
      before, is marked seen, gets u as its parent and joins the next
      layer. */
  method Visit(u: nat, size: BoardSize, r: nat, c: nat,
               seen: set<nat>, parent: map<nat, int>, upcoming: seq<nat>,
               ghost board: nat, ghost step: Step, ghost dist: map<nat, nat>, ghost cellOf: map<nat, (nat, nat)>,
               ghost seen0: set<nat>, ghost upcoming0: seq<nat>, ghost dist0: map<nat, nat>,
               ghost parent0: map<nat, int>, ghost added: set<nat>)
    returns (seen': set<nat>, parent': map<nat, int>, upcoming': seq<nat>,
             ghost dist': map<nat, nat>, ghost cellOf': map<nat, (nat, nat)>)
    requires r < size && c < size && Toggles(size, step)
    requires Expanding(board, size, step, u, seen0, upcoming0, dist0, parent0, added, seen, parent, upcoming, dist, cellOf)
    ensures Expanding(board, size, step, u, seen0, upcoming0, dist0, parent0, added + {step(u, r, c)},
                      seen', parent', upcoming', dist', cellOf')
    ensures step(u, r, c) !in seen ==>
              seen' == seen + {step(u, r, c)} && parent' == parent[step(u, r, c) := u] &&
              upcoming' == upcoming + [step(u, r, c)]
    ensures step(u, r, c) in seen ==> seen' == seen && parent' == parent && upcoming' == upcoming
  {
    var move := TogglePlus(u, size, r, c);
    seen', parent', upcoming', dist', cellOf' := seen, parent, upcoming, dist, cellOf;
    if move !in seen {
      ExpandingNew(board, size, step, u, seen0, upcoming0, dist0, parent0, added, seen, parent, upcoming, dist, cellOf, move, r, c);
      seen' := seen + {move};
      parent' := parent[move := u];
      upcoming' := upcoming + [move];
      dist' := dist[move := dist[u] + 1];
      cellOf' := cellOf[move := (r, c)];
    } else {
      ExpandingSeen(board, size, step, u, seen0, upcoming0, dist0, parent0, added, seen, parent, upcoming, dist, cellOf, move);
    }
  }

  /** The loop over c for row r of the moves of u. */
  method ExpandRow(u: nat, size: BoardSize, r: nat, seen: set<nat>, parent: map<nat, int>, upcoming: seq<nat>,
                   ghost board: nat, ghost step: Step, ghost dist: map<nat, nat>, ghost cellOf: map<nat, (nat, nat)>,
                   ghost seen0: set<nat>, ghost upcoming0: seq<nat>, ghost dist0: map<nat, nat>,
                   ghost parent0: map<nat, int>)
    returns (seen': set<nat>, parent': map<nat, int>, upcoming': seq<nat>,
             ghost dist': map<nat, nat>, ghost cellOf': map<nat, (nat, nat)>)
    requires r < size && Toggles(size, step)
    requires Expanding(board, size, step, u, seen0, upcoming0, dist0, parent0, Moves(u, size, step, r, 0),
                       seen, parent, upcoming, dist, cellOf)
    ensures Expanding(board, size, step, u, seen0, upcoming0, dist0, parent0, Moves(u, size, step, r + 1, 0),
                      seen', parent', upcoming', dist', cellOf')
  {
    seen', parent', upcoming', dist', cellOf' := seen, parent, upcoming, dist, cellOf;
    for c := 0 to size
      invariant Expanding(board, size, step, u, seen0, upcoming0, dist0, parent0, Moves(u, size, step, r, c),
                          seen', parent', upcoming', dist', cellOf')
    {
      seen', parent', upcoming', dist', cellOf' :=
        Visit(u, size, r, c, seen', parent', upcoming', board, step, dist', cellOf',
              seen0, upcoming0, dist0, parent0, Moves(u, size, step, r, c));
    }
    assert Moves(u, size, step, r + 1, 0) == Moves(u, size, step, r, size);
  }

  /** The two loops over r and c for one board u taken from the queue. */
  method ExpandBoard(u: nat, size: BoardSize, seen: set<nat>, parent: map<nat, int>, upcoming: seq<nat>,
                     ghost board: nat, ghost step: Step, ghost dist: map<nat, nat>, ghost cellOf: map<nat, (nat, nat)>)
    returns (seen': set<nat>, parent': map<nat, int>, upcoming': seq<nat>,
             ghost dist': map<nat, nat>, ghost cellOf': map<nat, (nat, nat)>)
    requires Toggles(size, step) && Tree(board, size, step, seen, parent, dist, cellOf) && u in seen
    requires forall j :: 0 <= j < |upcoming| ==> upcoming[j] in seen && dist[upcoming[j]] == dist[u] + 1
    requires NoRepeats(upcoming)
    ensures Expanding(board, size, step, u, seen, upcoming, dist, parent, AllMoves(u, size, step),
                      seen', parent', upcoming', dist', cellOf')
  {
    seen', parent', upcoming', dist', cellOf' := seen, parent, upcoming, dist, cellOf;
    assert Expanding(board, size, step, u, seen, upcoming, dist, parent, Moves(u, size, step, 0, 0),
                     seen', parent', upcoming', dist', cellOf');
    for r := 0 to size
      invariant Expanding(board, size, step, u, seen, upcoming, dist, parent, Moves(u, size, step, r, 0),
                          seen', parent', upcoming', dist', cellOf')
    {
      seen', parent', upcoming', dist', cellOf' :=
        ExpandRow(u, size, r, seen', parent', upcoming', board, step, dist', cellOf', seen, upcoming, dist, parent);
    }
  }

  /** The search ends on the dark board: a shortest press list leads there
      through the boards it returns. */
  ghost predicate ShortestPath(board: nat, size: BoardSize, path: seq<nat>)
  {
    exists ps :: OnBoard(size, ps) && ApplyPresses(board, size, ps) == 0 && path == Boards(board, size, ps) &&
      forall qs :: OnBoard(size, qs) && ApplyPresses(board, size, qs) == 0 ==> |ps| <= |qs|
  }

  /** No list of presses turns every light off. */
  ghost predicate Unsolvable(board: nat, size: BoardSize)
  {
    forall ps :: OnBoard(size, ps) ==> ApplyPresses(board, size, ps) != 0
  }

  /** Every board listed in queue is seen and d presses from the start. */
  ghost predicate Queued(queue: seq<nat>, seen: set<nat>, dist: map<nat, nat>, d: nat)
  {
    forall j :: 0 <= j < |queue| ==> queue[j] in seen && queue[j] in dist && dist[queue[j]] == d
  }

  /** What the sets of the search hold at the head of the `while` loop:
      `seen` is everything within depth presses, `upcoming` lists exactly the
      boards depth presses away, and the dark board is not closer than
      that. */
  ghost predicate Reached(board: nat, size: BoardSize, step: Step, depth: nat, seen: set<nat>, upcoming: seq<nat>)
  {
    seen == Within(board, size, step, depth) &&
    (forall b :: b in upcoming <==> b in Layer(board, size, step, depth)) &&
    (depth > 0 ==> 0 !in Within(board, size, step, depth - 1)) &&
    |seen| <= Pow2(size * size)
  }

  /** The state at the head of the `while` loop. */
  ghost predicate Frontier(board: nat, size: BoardSize, step: Step, depth: nat, seen: set<nat>, parent: map<nat, int>,
                           upcoming: seq<nat>, dist: map<nat, nat>, cellOf: map<nat, (nat, nat)>)
  {
    Tree(board, size, step, seen, parent, dist, cellOf) &&
    Queued(upcoming, seen, dist, depth) && NoRepeats(upcoming) &&
    Reached(board, size, step, depth, seen, upcoming)
  }

  /** What the sets hold in the loop over the boards of the current layer,
      `done` being those already expanded: `seen` has gained their moves,
      and `upcoming` lists those moves that are new. */
  ghost predicate Gathered(board: nat, size: BoardSize, step: Step, depth: nat, current: seq<nat>, done: set<nat>,
                           seen0: set<nat>, seen: set<nat>, upcoming: seq<nat>)
  {
    seen0 == Within(board, size, step, depth) &&
    seen == seen0 + Children(done, size, step) &&
    (forall b :: b in upcoming <==> b in Children(done, size, step) && b !in seen0) &&
    (forall b :: b in current <==> b in Layer(board, size, step, depth)) &&
    (forall b :: b in done ==> b in Layer(board, size, step, depth)) &&
    (depth > 0 ==> 0 !in Within(board, size, step, depth - 1))
  }

  /** The state in the loop over the boards of the current layer. */
  ghost predicate Exploring(board: nat, size: BoardSize, step: Step, depth: nat, current: seq<nat>, done: set<nat>,
                            seen0: set<nat>, parent0: map<nat, int>, seen: set<nat>, parent: map<nat, int>,
                            upcoming: seq<nat>, dist: map<nat, nat>, cellOf: map<nat, (nat, nat)>)
  {
    Tree(board, size, step, seen, parent, dist, cellOf) &&
    Queued(upcoming, seen, dist, depth + 1) && NoRepeats(upcoming) &&
    (forall b :: b in seen0 ==> b in parent0 && b in parent && parent[b] == parent0[b]) &&
    Queued(current, seen, dist, depth) &&
    Gathered(board, size, step, depth, current, done, seen0, seen, upcoming)
  }

  lemma FrontierStart(board: nat, size: BoardSize, step: Step)
    requires Toggles(size, step)
    ensures Frontier(board, size, step, 0, {board}, map[board := -1], [board], map[board := 0], map[])
  {
    WithinBound(board, size, step, 0);
  }

  lemma ExploringStart(board: nat, size: BoardSize, step: Step, depth: nat, seen: set<nat>, parent: map<nat, int>,
                       current: seq<nat>, dist: map<nat, nat>, cellOf: map<nat, (nat, nat)>)
    requires Frontier(board, size, step, depth, seen, parent, current, dist, cellOf)
    ensures Exploring(board, size, step, depth, current, {}, seen, parent, seen, parent, [], dist, cellOf)
  {
    assert Children({}, size, step) == {};
  }

  /** Expanding one more board u of the current layer keeps the state. */
  lemma ExploringStep(board: nat, size: BoardSize, step: Step, depth: nat, current: seq<nat>, done: set<nat>,
                      seen0: set<nat>, parent0: map<nat, int>, seen: set<nat>, parent: map<nat, int>, upcoming: seq<nat>,
                      dist: map<nat, nat>, cellOf: map<nat, (nat, nat)>, i: nat,
                      seen': set<nat>, parent': map<nat, int>, upcoming': seq<nat>,
                      dist': map<nat, nat>, cellOf': map<nat, (nat, nat)>)
    requires Exploring(board, size, step, depth, current, done, seen0, parent0, seen, parent, upcoming, dist, cellOf)
    requires i < |current|
    requires Expanding(board, size, step, current[i], seen, upcoming, dist, parent, AllMoves(current[i], size, step),
                       seen', parent', upcoming', dist', cellOf')
    ensures Exploring(board, size, step, depth, current, done + {current[i]}, seen0, parent0,
                      seen', parent', upcoming', dist', cellOf')
  {
    GatheredStep(board, size, step, depth, current, done, seen0, seen, upcoming, current[i], seen', upcoming');
  }

  /** Gathering the moves of one more board u of the current layer. */
  lemma GatheredStep(board: nat, size: BoardSize, step: Step, depth: nat, current: seq<nat>, done: set<nat>,
                     seen0: set<nat>, seen: set<nat>, upcoming: seq<nat>, u: nat, seen': set<nat>, upcoming': seq<nat>)
    requires Gathered(board, size, step, depth, current, done, seen0, seen, upcoming) && u in current
    requires seen' == seen + AllMoves(u, size, step)
    requires forall b :: b in upcoming' <==> b in upcoming || (b in AllMoves(u, size, step) && b !in seen)
    ensures Gathered(board, size, step, depth, current, done + {u}, seen0, seen', upcoming')
  {
    ChildrenAdd(done, u, size, step);
  }

  /** Once every board of the layer has been expanded without meeting the
      dark board, the layer is done and the dark board is farther away. */
  lemma LayerComplete(board: nat, size: BoardSize, step: Step, depth: nat, current: seq<nat>, done: set<nat>)
    requires forall b :: b in current <==> b in Layer(board, size, step, depth)
    requires forall b :: b in done ==> b in Layer(board, size, step, depth)
    requires Covered(current, |current|, done)
    requires depth > 0 ==> 0 !in Within(board, size, step, depth - 1)
    ensures done == Layer(board, size, step, depth)
    ensures 0 !in Within(board, size, step, depth)
  {
    forall b | b in Layer(board, size, step, depth)
      ensures b in done
    {
      assert b in current;
    }
    if depth == 0 {
      assert Within(board, size, step, depth) == Layer(board, size, step, depth);
    }
  }

  /** After the whole layer, the sets are those of the frontier one press
      further. */
  lemma LayerExplored(board: nat, size: BoardSize, step: Step, depth: nat, current: seq<nat>, done: set<nat>,
                      seen0: set<nat>, seen: set<nat>, upcoming: seq<nat>)
    requires Toggles(size, step)
    requires Gathered(board, size, step, depth, current, done, seen0, seen, upcoming)
    requires Covered(current, |current|, done)
    ensures Reached(board, size, step, depth + 1, seen, upcoming)
    ensures |upcoming| > 0 ==> |seen0| < |seen|
    ensures |upcoming| == 0 ==> seen == seen0
  {
    LayerComplete(board, size, step, depth, current, done);
    LayerNext(board, size, step, depth, done, seen0, seen, upcoming);
    WithinBound(board, size, step, depth + 1);
    SeenGrows(size, step, done, seen0, seen, upcoming);
  }

  /** Adding the children of the whole layer to what is within depth presses
      gives what is within depth + 1, and the new ones are the next layer. */
  lemma LayerNext(board: nat, size: BoardSize, step: Step, depth: nat, done: set<nat>, seen0: set<nat>,
                  seen: set<nat>, upcoming: seq<nat>)
    requires done == Layer(board, size, step, depth) && seen0 == Within(board, size, step, depth)
    requires seen == seen0 + Children(done, size, step)
    requires forall b :: b in upcoming <==> b in Children(done, size, step) && b !in seen0
    ensures seen == Within(board, size, step, depth + 1)
    ensures forall b :: b in upcoming <==> b in Layer(board, size, step, depth + 1)
  {
    NextLayer(board, size, step, depth);
  }

  /** The layer's expansion added to `seen` exactly what it queued. */
  lemma SeenGrows(size: BoardSize, step: Step, done: set<nat>, seen0: set<nat>, seen: set<nat>, upcoming: seq<nat>)
    requires seen == seen0 + Children(done, size, step)
    requires forall b :: b in upcoming <==> b in Children(done, size, step) && b !in seen0
    ensures |upcoming| > 0 ==> |seen0| < |seen|
    ensures |upcoming| == 0 ==> seen == seen0
  {
    if |upcoming| > 0 {
      ProperSubsetSize(seen0, seen, upcoming[0]);
    } else {
      forall b | b in Children(done, size, step)
        ensures b in seen0
      {
        assert b !in upcoming;
      }
    }
  }

  /** The first i boards of the layer have been expanded, and none was the
      dark board. */
  ghost predicate Covered(current: seq<nat>, i: nat, done: set<nat>)
  {
    (forall j :: 0 <= j < i && j < |current| ==> current[j] in done) && 0 !in done
  }

  lemma CoveredStep(current: seq<nat>, i: nat, done: set<nat>)
    requires Covered(current, i, done) && i < |current| && current[i] != 0
    ensures Covered(current, i + 1, done + {current[i]})
  {
  }

  /** The `for` loop over the current layer: expand its boards in order
      until the dark board comes up (found), or to the end of the layer,
      leaving the next layer in `upcoming`. */
  method ExploreLayer(board: nat, size: BoardSize, ghost step: Step, ghost depth: nat, current: seq<nat>,
                      seen: set<nat>, parent: map<nat, int>, ghost dist: map<nat, nat>, ghost cellOf: map<nat, (nat, nat)>)
    returns (found: bool, seen': set<nat>, parent': map<nat, int>, upcoming: seq<nat>,
             ghost dist': map<nat, nat>, ghost cellOf': map<nat, (nat, nat)>)
    requires Toggles(size, step)
    requires Frontier(board, size, step, depth, seen, parent, current, dist, cellOf)
    ensures found ==> Tree(board, size, step, seen', parent', dist', cellOf') && 0 in seen' && dist'[0] == depth
    ensures !found ==> Frontier(board, size, step, depth + 1, seen', parent', upcoming, dist', cellOf')
    ensures !found && |upcoming| > 0 ==> |seen| < |seen'|
    ensures !found && |upcoming| == 0 ==> seen' == seen
    ensures forall b :: b in seen ==> b in parent' && parent'[b] == parent[b]
  {
    seen', parent', upcoming, dist', cellOf' := seen, parent, [], dist, cellOf;
    ghost var done: set<nat> := {};
    ExploringStart(board, size, step, depth, seen, parent, current, dist, cellOf);
    for i := 0 to |current|
      invariant Exploring(board, size, step, depth, current, done, seen, parent, seen', parent', upcoming, dist', cellOf')
      invariant Covered(current, i, done)
    {
      var u := current[i];
      if u == 0 {
        return true, seen', parent', upcoming, dist', cellOf';
      }
      var seen'', parent'', upcoming';
      ghost var dist'', cellOf'';
      seen'', parent'', upcoming', dist'', cellOf'' := ExpandBoard(u, size, seen', parent', upcoming, board, step, dist', cellOf');
      ExploringStep(board, size, step, depth, current, done, seen, parent, seen', parent', upcoming, dist', cellOf', i,
                    seen'', parent'', upcoming', dist'', cellOf'');
      CoveredStep(current, i, done);
      seen', parent', upcoming, dist', cellOf' := seen'', parent'', upcoming', dist'', cellOf'';
      done := done + {u};
    }
    found := false;
    LayerExplored(board, size, step, depth, current, done, seen, seen', upcoming);
  }

  /** `solve(board, size)`: the boards from the start to the dark board along
      a shortest list of presses, or none when no list of presses turns the
      lights off. */
  method Solve(board: nat, size: BoardSize) returns (solution: Option<seq<nat>>)
    ensures solution.Some? ==> ShortestPath(board, size, solution.value)
    ensures solution.None? ==> Unsolvable(board, size)
  {
    ghost var step := ToggleStep(size);
    var seen: set<nat> := {board};
    var parent: map<nat, int> := map[board := -1];
    ghost var dist: map<nat, nat> := map[board := 0];
    ghost var cellOf: map<nat, (nat, nat)> := map[];
    var current: seq<nat> := [];
    var upcoming: seq<nat> := [board];
    ghost var depth: nat := 0;
    ghost var limit := Pow2(size * size);
    FrontierStart(board, size, step);

    while |upcoming| > 0
      invariant Frontier(board, size, step, depth, seen, parent, upcoming, dist, cellOf)
      invariant |seen| <= limit
      decreases limit - |seen|, |upcoming|
    {
      current := upcoming;
      var found;
      found, seen, parent, upcoming, dist, cellOf := ExploreLayer(board, size, step, depth, current, seen, parent, dist, cellOf);
      if found {
        var trace;
        ghost var presses;
        trace, presses := TracePath(board, size, parent, 0, step, seen, dist, cellOf);
        solution := Some(Reverse(trace));
        Found(board, size, step, depth, presses, solution.value);
        return;
      }
      depth := depth + 1;
    }
    NothingLeft(board, size, step, depth);
    return None;
  }

  /** Taking the dark board from layer `depth` ends the search on a shortest
      path. */
  lemma Found(board: nat, size: BoardSize, step: Step, depth: nat, presses: seq<nat>, path: seq<nat>)
    requires Toggles(size, step)
    requires OnBoard(size, presses) && |presses| == depth && path == Boards(board, size, presses)
    requires path[|presses|] == 0
    requires depth > 0 ==> 0 !in Within(board, size, step, depth - 1)
    ensures ShortestPath(board, size, path)
  {
    BoardsArePresses(board, size, presses);
    forall qs | OnBoard(size, qs) && ApplyPresses(board, size, qs) == 0
      ensures |presses| <= |qs|
    {
      if |qs| < depth {
        PressesWithin(board, size, step, qs);
        WithinMonotone(board, size, step, |qs|, depth - 1);
      }
    }
  }

  /** When a layer is empty, no move leads out of the boards seen before it. */
  lemma EmptyLayerCloses(board: nat, size: BoardSize, step: Step, depth: nat)
    requires depth > 0 && Layer(board, size, step, depth) == {}
    ensures forall x, r: nat, c: nat ::
              x in Within(board, size, step, depth - 1) && r < size && c < size ==>
                step(x, r, c) in Within(board, size, step, depth - 1)
  {
    var older := Within(board, size, step, depth - 1);
    forall x, r: nat, c: nat | x in older && r < size && c < size
      ensures step(x, r, c) in older
    {
      ChildrenHas(older, size, step, x, r, c);
      assert step(x, r, c) !in Layer(board, size, step, depth);
    }
  }

  /** An empty layer means every reachable board has been seen; the dark
      board was not among them. */
  lemma NothingLeft(board: nat, size: BoardSize, step: Step, depth: nat)
    requires Toggles(size, step)
    requires Layer(board, size, step, depth) == {}
    requires depth > 0 ==> 0 !in Within(board, size, step, depth - 1)
    ensures Unsolvable(board, size)
  {
    assert depth > 0;
    var older := Within(board, size, step, depth - 1);
    EmptyLayerCloses(board, size, step, depth);
    WithinMonotone(board, size, step, 0, depth - 1);
    forall ps | OnBoard(size, ps)
      ensures ApplyPresses(board, size, ps) != 0
    {
      ClosedReaches(board, size, step, older, ps);
    }
  }
}
