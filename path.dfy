/** The vault maze: a 4x4 grid of operator and number rooms, the moves each
    room allows, and the depth-first search for a walk from the antechamber
    to the vault door that arrives with the orb weighing 30. */
module Maze {

  datatype Dir = N | S | E | W

  datatype Instr = Add | Mul | Sub | Num(operand: int)

  /** `dir_full`: the word the game understands for a direction. */
  function DirName(d: Dir): (name: string)
    ensures |name| >= 4
  {
    match d
    case N => "north"
    case S => "south"
    case E => "east"
    case W => "west"
  }

  /** Different directions have different words. */
  lemma DirNamesDistinct(a: Dir, b: Dir)
    ensures DirName(a) == DirName(b) <==> a == b
  {
    if a != b {
      assert DirName(a)[0] != DirName(b)[0];
    }
  }

  /** The rooms, row 0 at the top; the orb starts in row 3, column 0, and the
      vault door is row 0, column 3. */
  const MAZE: seq<seq<Instr>> :=
    [[Mul, Num(8), Sub, Num(1)],
     [Num(4), Mul, Num(11), Mul],
     [Add, Num(4), Sub, Num(18)],
     [Num(0), Sub, Num(9), Mul]]

  /** The moves each room allows. */
  const DIRS: seq<seq<seq<Dir>>> :=
    [[[S, E], [S, E, W], [S, E, W], []],
     [[N, S, E], [N, S, E, W], [N, S, E, W], [N, S, W]],
     [[N, E], [N, S, E, W], [N, S, E, W], [N, S, W]],
     [[N, E], [N, E], [N, E, W], [N, W]]]

  predicate InGrid(y: int, x: int) {
    0 <= y < 4 && 0 <= x < 4
  }

  /** The number rooms and the operator rooms alternate like the squares of a
      chessboard. */
  lemma Checkerboard(y: int, x: int)
    requires InGrid(y, x)
    ensures MAZE[y][x].Num? <==> (y + x) % 2 == 1
    ensures |DIRS[y][x]| <= 4
  {
  }

  /** The room a move leads to; a move off the top or the left of the grid
      would underflow the room index. */
  function Move(y: int, x: int, d: Dir): (int, int) {
    match d
    case N => (y - 1, x)
    case S => (y + 1, x)
    case E => (y, x + 1)
    case W => (y, x - 1)
  }

  /** Every move a room allows stays inside the grid, and it changes the
      colour of the square, so number and operator rooms alternate along any
      walk. */
  lemma MoveStaysInGrid(y: int, x: int, d: Dir)
    requires InGrid(y, x) && d in DIRS[y][x]
    ensures InGrid(Move(y, x, d).0, Move(y, x, d).1)
    ensures MAZE[Move(y, x, d).0][Move(y, x, d).1].Num? <==> !MAZE[y][x].Num?
  {
    Checkerboard(y, x);
    Checkerboard(Move(y, x, d).0, Move(y, x, d).1);
  }

  /** The orb's weight after entering a number room from an operator room.
      A number room entered from a number room has no operator to apply. */
  function Combine(last: Instr, w: int, operand: int): (r: Option<int>)
    ensures r.Some? <==> !last.Num?
  {
    match last
    case Add => Some(w + operand)
    case Mul => Some(w * operand)
    case Sub => Some(w - operand)
    case Num(_) => None
  }

  datatype Option<T> = None | Some(value: T)

  /** Where the orb is and what it weighs. */
  datatype Pose = Pose(y: int, x: int, w: int)

  /** The antechamber, where the orb weighs 22. */
  const START := Pose(3, 0, 22)
  /** The vault door and the weight it opens for. */
  const GOAL := Pose(0, 3, 30)

  /** One move of a walk: allowed by the room, and applying the room's
      operator when it enters a number room. */
  function Advance(p: Pose, d: Dir): (r: Option<Pose>)
    ensures r.Some? ==> InGrid(r.value.y, r.value.x)
  {
    if !InGrid(p.y, p.x) || d !in DIRS[p.y][p.x] then None
    else
      MoveStaysInGrid(p.y, p.x, d);
      var (y, x) := Move(p.y, p.x, d);
      if MAZE[y][x].Num? then
        match Combine(MAZE[p.y][p.x], p.w, MAZE[y][x].operand)
        case None => None
        case Some(w) => Some(Pose(y, x, w))
      else Some(Pose(y, x, p.w))
  }

  /** The pose a sequence of moves from the antechamber leads to, if every
      move is allowed. */
  function Walk(steps: seq<Dir>): (r: Option<Pose>)
    ensures r.Some? ==> InGrid(r.value.y, r.value.x)
  {
    if steps == [] then Some(START)
    else
      match Walk(steps[..|steps| - 1])
      case None => None
      case Some(p) => Advance(p, steps[|steps| - 1])
  }

  /** Extending a walk by one move is one more `Advance`. */
  lemma WalkSnoc(steps: seq<Dir>, d: Dir)
    ensures Walk(steps + [d]) == if Walk(steps).None? then None else Advance(Walk(steps).value, d)
  {
    assert (steps + [d])[..|steps|] == steps;
  }

  /** A state of the search: the room the orb is in, the move about to be
      taken from it, the room's instruction, the weight and the moves so far. */
  datatype Entry = Entry(py: int, px: int, dir: Dir, last: Instr, w: int, steps: seq<Dir>)

  /** What the search keeps true of every state on its stack: the room is in
      the grid and allows the move, `last` is that room's instruction, the
      moves so far lead there with the recorded weight, a state leaving a
      number room has passed the pruning test, and no state has more than 12
      moves behind it. */
  ghost predicate Good(e: Entry) {
    InGrid(e.py, e.px) && e.dir in DIRS[e.py][e.px] && e.last == MAZE[e.py][e.px]
    && Walk(e.steps) == Some(Pose(e.py, e.px, e.w))
    && |e.steps| <= 12
    && (e.last.Num? ==> e.w > 0 && |e.steps| < 12)
  }

  ghost predicate AllGood(stack: seq<Entry>) {
    forall i :: 0 <= i < |stack| ==> Good(stack[i])
  }

  lemma AllGoodPop(stack: seq<Entry>)
    requires stack != [] && AllGood(stack)
    ensures AllGood(stack[..|stack| - 1]) && Good(stack[|stack| - 1])
  {
  }

  /** Taking the move of a good state: the new room is in the grid and has at
      most four exits; a number room is entered from an operator room; an
      operator room is entered from a number room and so with fewer than 12
      moves behind; and the walk extended by the move leads to the new room
      with the weight the operator gives. */
  lemma Popped(e: Entry)
    requires Good(e)
    ensures InGrid(Move(e.py, e.px, e.dir).0, Move(e.py, e.px, e.dir).1)
    ensures |DIRS[Move(e.py, e.px, e.dir).0][Move(e.py, e.px, e.dir).1]| <= 4
    ensures var (py, px) := Move(e.py, e.px, e.dir);
      if MAZE[py][px].Num? then
        !e.last.Num?
        && Walk(e.steps + [e.dir]) == Some(Pose(py, px, Combine(e.last, e.w, MAZE[py][px].operand).value))
      else
        |e.steps| < 12 && Walk(e.steps + [e.dir]) == Some(Pose(py, px, e.w))
  {
    MoveStaysInGrid(e.py, e.px, e.dir);
    Checkerboard(Move(e.py, e.px, e.dir).0, Move(e.py, e.px, e.dir).1);
    WalkSnoc(e.steps, e.dir);
  }

  /** The two states the search starts from, the antechamber's two exits,
      are good. */
  lemma StartGood()
    ensures AllGood([Entry(3, 0, N, Num(0), 22, []), Entry(3, 0, E, Num(0), 22, [])])
  {
    ChildGood(3, 0, 0, 22, []);
    ChildGood(3, 0, 1, 22, []);
  }

  /** A bound on the states a stack entry with `s` moves behind it can still
      lead to: itself and at most four successors, each with one more move. */
  function Cost(s: nat): (c: nat)
    ensures c >= 1
    decreases 12 - s
  {
    if s >= 12 then 1 else 1 + 4 * Cost(s + 1)
  }

  function StackCost(stack: seq<Entry>): nat {
    if stack == [] then 0
    else StackCost(stack[..|stack| - 1]) + Cost(|stack[|stack| - 1].steps|)
  }

  lemma StackCostSnoc(stack: seq<Entry>, e: Entry)
    ensures StackCost(stack + [e]) == StackCost(stack) + Cost(|e.steps|)
  {
    assert (stack + [e])[..|stack|] == stack;
  }

  lemma {:induction false} StackCostAppend(a: seq<Entry>, b: seq<Entry>)
    ensures StackCost(a + b) == StackCost(a) + StackCost(b)
    decreases |b|
  {
    if b != [] {
      var k := |b| - 1;
      assert a + b == (a + b[..k]) + [b[k]];
      assert b == b[..k] + [b[k]];
      StackCostAppend(a, b[..k]);
      StackCostSnoc(a + b[..k], b[k]);
      StackCostSnoc(b[..k], b[k]);
    } else {
      assert a + b == a;
    }
  }

  lemma AllGoodAppend(a: seq<Entry>, b: seq<Entry>)
    requires AllGood(a) && AllGood(b)
    ensures AllGood(a + b)
  {
    forall i | 0 <= i < |a + b| ensures Good((a + b)[i]) {
      if i < |a| {
        assert (a + b)[i] == a[i];
      } else {
        assert (a + b)[i] == b[i - |a|];
      }
    }
  }

  /** The state pushed for exit `i` of a room the search has reached is good. */
  lemma ChildGood(py: int, px: int, i: int, w: int, steps: seq<Dir>)
    requires InGrid(py, px) && 0 <= i < |DIRS[py][px]|
    requires Walk(steps) == Some(Pose(py, px, w)) && |steps| <= 12
    requires MAZE[py][px].Num? ==> w > 0 && |steps| < 12
    ensures Good(Entry(py, px, DIRS[py][px][i], MAZE[py][px], w, steps))
  {
  }

  /** Expanding a state with `s < 12` moves behind it into at most four states
      with `s + 1` moves costs less than the state itself. */
  lemma ExpansionCost(children: seq<Entry>, s: nat)
    requires s < 12 && |children| <= 4
    requires forall i :: 0 <= i < |children| ==> |children[i].steps| == s + 1
    ensures StackCost(children) < Cost(s)
  {
    UniformCost(children, s + 1);
    MulAtMostFour(|children|, Cost(s + 1));
  }

  lemma MulAtMostFour(k: nat, c: nat)
    requires k <= 4
    ensures k * c <= 4 * c
  {
  }

  /** The states pushed for a room the search has reached are good. */
  lemma PushesGood(children: seq<Entry>, py: int, px: int, w: int, steps: seq<Dir>)
    requires InGrid(py, px) && Walk(steps) == Some(Pose(py, px, w)) && |steps| <= 12
    requires MAZE[py][px].Num? ==> w > 0 && |steps| < 12
    requires |children| == |DIRS[py][px]|
    requires forall i :: 0 <= i < |children| ==>
      children[i] == Entry(py, px, DIRS[py][px][i], MAZE[py][px], w, steps)
    ensures AllGood(children)
  {
    forall i | 0 <= i < |children| ensures Good(children[i]) {
      ChildGood(py, px, i, w, steps);
    }
  }

  lemma MulSucc(a: nat, c: nat)
    ensures (a + 1) * c == a * c + c
  {
  }

  /** States that all have `s` moves behind them cost `Cost(s)` each. */
  lemma {:induction false} UniformCost(stack: seq<Entry>, s: nat)
    requires forall i :: 0 <= i < |stack| ==> |stack[i].steps| == s
    ensures StackCost(stack) == |stack| * Cost(s)
    decreases |stack|
  {
    if stack != [] {
      var k := |stack| - 1;
      var init := stack[..k];
      assert stack == init + [stack[k]];
      UniformCost(init, s);
      StackCostSnoc(init, stack[k]);
      MulSucc(k, Cost(s));
    }
  }

  /** A way through the maze: the moves, and the pose after each of them. */
  const VAULT_PATH: seq<Dir> := [N, E, E, N, W, S, E, E, W, N, N, E]
  const VAULT_POSES: seq<Pose> := [
    Pose(2, 0, 22), Pose(2, 1, 26), Pose(2, 2, 26), Pose(1, 2, 15),
    Pose(1, 1, 15), Pose(2, 1, 60), Pose(2, 2, 60), Pose(2, 3, 42),
    Pose(2, 2, 42), Pose(1, 2, 31), Pose(0, 2, 31), Pose(0, 3, 30)]

  /** Each move of the way is allowed and leads to the next pose listed. */
  lemma VaultMove(k: nat)
    requires k < 12
    ensures Advance(if k == 0 then START else VAULT_POSES[k - 1], VAULT_PATH[k]) == Some(VAULT_POSES[k])
  {
  }

  /** The first `k + 1` moves of the way lead to pose `k`. */
  lemma {:induction false} VaultPrefix(k: nat)
    requires k < 12
    ensures Walk(VAULT_PATH[..k + 1]) == Some(VAULT_POSES[k])
  {
    VaultMove(k);
    WalkSnoc(VAULT_PATH[..k], VAULT_PATH[k]);
    assert VAULT_PATH[..k] + [VAULT_PATH[k]] == VAULT_PATH[..k + 1];
    if k == 0 {
      assert VAULT_PATH[..0] == [];
    } else {
      VaultPrefix(k - 1);
    }
  }

  /** The walk the search is after exists: twelve moves from the
      antechamber reach the vault door with weight 30. */
  lemma VaultReachable()
    ensures Walk(VAULT_PATH) == Some(GOAL) && |VAULT_PATH| == 12
  {
    VaultPrefix(11);
    assert VAULT_PATH[..12] == VAULT_PATH;
  }

  /** The states `main` pushes for the exits of the room it has reached: one
      per exit, in the order the room lists them, each carrying the room's
      instruction, the weight and the moves so far. */
  method Expand(py: int, px: int, w: int, steps: seq<Dir>) returns (children: seq<Entry>)
    requires InGrid(py, px)
    ensures |children| == |DIRS[py][px]|
    ensures forall i :: 0 <= i < |children| ==>
      children[i] == Entry(py, px, DIRS[py][px][i], MAZE[py][px], w, steps)
  {
    var next := DIRS[py][px];
    var instr := MAZE[py][px];
    children := [];
    for i := 0 to |next|
      invariant |children| == i
      invariant forall k :: 0 <= k < i ==> children[k] == Entry(py, px, next[k], instr, w, steps)
    {
      children := children + [Entry(py, px, next[i], instr, w, steps)];
    }
  }

  /** One turn of the search loop of `main` on a popped state: take its move,
      update the weight on entering a number room, stop at the vault door with
      weight 30, prune a number room with weight at most 0 or 12 moves behind
      it, and otherwise return the states to push. A walk it reports is an
      allowed walk from the antechamber to the vault door with weight 30; the
      states it returns are good and cost less than the popped one. */
  method Visit(e: Entry) returns (victory: seq<Dir>, children: seq<Entry>)
    requires Good(e)
    ensures victory != [] ==> Walk(victory) == Some(GOAL) && |victory| <= 13 && children == []
    ensures victory == [] || victory == e.steps + [e.dir]
    ensures forall i :: 0 <= i < |children| ==>
      children[i].steps == e.steps + [e.dir]
      && (children[i].py, children[i].px) == Move(e.py, e.px, e.dir)
    ensures AllGood(children)
    ensures StackCost(children) < Cost(|e.steps|)
    // which of the three things happens, and exactly which states are pushed
    ensures var (py, px) := Move(e.py, e.px, e.dir);
      InGrid(py, px) && Walk(e.steps + [e.dir]).Some? &&
      var w := Walk(e.steps + [e.dir]).value.w;
      var pruned := MAZE[py][px].Num? && (w <= 0 || |e.steps| + 1 >= 12);
      (victory != [] <==> py == 0 && px == 3 && w == 30)
      && (victory == [] && pruned ==> children == [])
      && (victory == [] && !pruned ==>
            |children| == |DIRS[py][px]|
            && forall i :: 0 <= i < |children| ==>
                 children[i] == Entry(py, px, DIRS[py][px][i], MAZE[py][px], w, e.steps + [e.dir]))
  {
    Popped(e);
    var (py, px) := Move(e.py, e.px, e.dir);
    var steps := e.steps + [e.dir];
    var instr := MAZE[py][px];
    var w := e.w;
    victory, children := [], [];
    if instr.Num? {
      match e.last {
        case Add => w := w + instr.operand;
        case Mul => w := w * instr.operand;
        case Sub => w := w - instr.operand;
        case Num(_) => assert false;
      }
      if py == 0 && px == 3 && w == 30 {
        victory := steps;
        return;
      }
      if w <= 0 || |steps| >= 12 {
        return;
      }
    }
    children := Expand(py, px, w, steps);
    PushesGood(children, py, px, w, steps);
    ExpansionCost(children, |e.steps|);
  }

  /** The search of `main`: starting from the antechamber's two exits, pop a
      state, visit it, and push the states it yields, until the vault opens or
      the stack is empty. A walk it returns is an allowed walk from the
      antechamber that ends at the vault door with weight 30. */
  method Search() returns (victory: seq<Dir>)
    ensures victory != [] ==> Walk(victory) == Some(GOAL) && |victory| <= 13
  {
    var stack := [Entry(3, 0, N, Num(0), 22, []), Entry(3, 0, E, Num(0), 22, [])];
    StartGood();
    victory := [];
    while stack != []
      invariant AllGood(stack)
      invariant victory == []
      decreases StackCost(stack)
    {
      var e := stack[|stack| - 1];
      var rest := stack[..|stack| - 1];
      AllGoodPop(stack);
      var found, children := Visit(e);
      if found != [] {
        victory := found;
        return;
      }
      StackCostAppend(rest, children);
      AllGoodAppend(rest, children);
      stack := rest + children;
    }
  }
}
