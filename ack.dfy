/** The teleporter's modified Ackermann function, its memoised evaluation over
    two fixed-size tables, and the search for the register value that makes
    `ack(4, 1, r)` equal the goal. */
module Ackermann {

  /** Rows (first argument) and columns (second argument) of the tables. */
  const M: nat := 6
  const N: nat := 32768
  /** The result the teleporter's check wants. */
  const GOAL: nat := 6
  /** Number of worker ranges the candidates are split into. */
  const THREADS: nat := 4

  /** The modified Ackermann function, with the eighth register's value `r`
      taking the place of 1 in the second case, and results modulo 32768. */
  function Ack(m: nat, n: nat, r: nat): (res: nat)
    ensures res < N
    decreases m, n
  {
    if m == 0 then (n + 1) % N
    else if n == 0 then Ack(m - 1, r, r)
    else Ack(m - 1, Ack(m, n - 1, r), r)
  }

  /** The table slot of `(m, n)`. */
  function Slot(m: nat, n: nat): nat {
    N * m + n
  }

  /** Slots of different arguments differ, and every argument pair of the
      tables has its slot inside them. */
  lemma {:induction false} SlotParts(m: nat, n: nat)
    requires n < N
    ensures Slot(m, n) / N == m && Slot(m, n) % N == n
    ensures m < M ==> Slot(m, n) < M * N
  {
    var i := Slot(m, n);
    assert i == N * m + n;
  }

  /** Adding to a residue is adding to the number. */
  lemma ModAdd(x: nat, y: nat)
    ensures (x % N + y) % N == (x + y) % N
  {
    var q := x / N;
    assert x == N * q + x % N;
    assert x + y == N * q + (x % N + y);
  }

  /** With first argument 1, the function adds `r + 1`. */
  lemma {:induction false} AckOne(n: nat, r: nat)
    ensures Ack(1, n, r) == (n + r + 1) % N
    decreases n
  {
    if n > 0 {
      AckOne(n - 1, r);
      ModAdd(n - 1 + r + 1, 1);
    }
  }

  /** With first argument 2, the function is `(n + 2) * (r + 1) - 1`. */
  lemma {:induction false} AckTwo(n: nat, r: nat)
    ensures Ack(2, n, r) == ((n + 2) * (r + 1) - 1) % N
    decreases n
  {
    if n == 0 {
      assert Ack(2, 0, r) == Ack(1, r, r);
      AckOne(r, r);
      assert (0 + 2) * (r + 1) - 1 == r + r + 1;
    } else {
      AckTwo(n - 1, r);
      AckTwoStep(n, r);
    }
  }

  /** One step of `AckTwo`: the value at `n` from the value at `n - 1`. */
  lemma AckTwoStep(n: nat, r: nat)
    requires n >= 1 && Ack(2, n - 1, r) == ((n + 1) * (r + 1) - 1) % N
    ensures Ack(2, n, r) == ((n + 2) * (r + 1) - 1) % N
  {
    var k := (n + 1) * (r + 1);
    assert (n + 2) * (r + 1) == k + r + 1;
    var prev := Ack(2, n - 1, r);
    assert Ack(2, n, r) == Ack(1, prev, r);
    AckOne(prev, r);
    ModAdd(k - 1, r + 1);
  }

  /** The memo invariant: a slot marked done holds the unmemoised value at its
      `(m, n)`, and only slots with `m >= 1` and `n >= 1` are ever marked. */
  ghost predicate MemoValid(done: array<bool>, tab: array<nat>, r: nat)
    reads done, tab
  {
    done.Length == M * N && tab.Length == M * N
    && forall i :: 0 <= i < M * N && done[i] ==>
      i / N >= 1 && i % N >= 1 && tab[i] == Ack(i / N, i % N, r)
  }

  /** `ack` with its tables: a hit returns the stored value; otherwise the
      three cases of `Ack`, the third storing its result in both tables. */
  method AckMemo(m: nat, n: nat, r: nat, done: array<bool>, tab: array<nat>) returns (res: nat)
    requires m < M && n < N && r < N
    requires MemoValid(done, tab, r)
    modifies done, tab
    ensures MemoValid(done, tab, r)
    ensures res == Ack(m, n, r)
    ensures forall i :: 0 <= i < M * N && old(done[i]) ==> done[i]
    ensures forall i :: 0 <= i < M * N && !done[i] ==> tab[i] == old(tab[i])
    ensures m >= 1 && n >= 1 ==> done[Slot(m, n)]
    decreases m, n
  {
    var idx := Slot(m, n);
    SlotParts(m, n);
    if done[idx] {
      res := tab[idx];
    } else if m == 0 {
      res := (n + 1) % N;
    } else if n == 0 {
      res := AckMemo(m - 1, r, r, done, tab);
    } else {
      var tmp := AckMemo(m, n - 1, r, done, tab);
      res := AckMemo(m - 1, tmp, r, done, tab);
      tab[idx] := res;
      done[idx] := true;
    }
  }

  /** One candidate: clear the `done` table, then evaluate `ack(4, 1, r)`. */
  method Trial(r: nat, done: array<bool>, tab: array<nat>) returns (result: nat)
    requires r < N && done.Length == M * N && tab.Length == M * N
    modifies done, tab
    ensures result == Ack(4, 1, r)
    ensures done.Length == M * N && tab.Length == M * N
  {
    for k := 0 to done.Length
      invariant forall i :: 0 <= i < k ==> !done[i]
    {
      done[k] := false;
    }
    result := AckMemo(4, 1, r, done, tab);
  }

  /** The candidates worker `j` tries: `j * (32768 / 4)` up to, not including,
      `(j + 1) * (32768 / 4)`. */
  function Lo(j: nat): nat {
    j * (N / THREADS)
  }

  function Hi(j: nat): nat {
    (j + 1) * (N / THREADS)
  }

  /** The worker ranges are disjoint, follow one another and together cover
      exactly the candidates 0 .. 32767; candidate `r` belongs to worker
      `r / 8192`. */
  lemma RangesPartition(r: nat, j: nat, j': nat)
    ensures Lo(0) == 0 && Hi(THREADS - 1) == N
    ensures Hi(j) == Lo(j + 1)
    ensures j < j' ==> Hi(j) <= Lo(j')
    ensures r < N ==>
      (r / (N / THREADS) < THREADS && Lo(r / (N / THREADS)) <= r < Hi(r / (N / THREADS)))
  {
    if j < j' {
      assert (j + 1) * (N / THREADS) <= j' * (N / THREADS);
    }
  }

  /** The magic values among the candidates `lo .. hi - 1`. */
  ghost function Magic(lo: nat, hi: nat): set<nat> {
    set r | lo <= r < hi && Ack(4, 1, r) == GOAL
  }

  /** One worker: its own tables, every candidate of its range in order, and
      the hits it reports, in the order it finds them. */
  method Worker(j: nat) returns (hits: seq<nat>)
    requires j < THREADS
    ensures forall r :: r in hits <==> r in Magic(Lo(j), Hi(j))
    ensures forall a, b :: 0 <= a < b < |hits| ==> hits[a] < hits[b]
  {
    var done := new bool[M * N];
    var tab := new nat[M * N];
    hits := [];
    for r := Lo(j) to Hi(j)
      invariant done.Length == M * N && tab.Length == M * N
      invariant forall x :: x in hits <==> x in Magic(Lo(j), r)
      invariant forall a :: 0 <= a < |hits| ==> hits[a] < r
      invariant forall a, b :: 0 <= a < b < |hits| ==> hits[a] < hits[b]
    {
      var result := Trial(r, done, tab);
      if result == GOAL {
        hits := hits + [r];
      }
    }
  }

  /** All workers' hits together: exactly the candidates below 32768 for
      which `ack(4, 1, r)` is the goal. */
  method FindMagic() returns (found: seq<nat>)
    ensures forall r :: r in found <==> r in Magic(0, N)
  {
    found := [];
    for j := 0 to THREADS
      invariant forall r :: r in found <==> r in Magic(0, Lo(j))
    {
      var hits := Worker(j);
      found := found + hits;
      forall r | r in Magic(0, Lo(j + 1))
        ensures r in found
      {
        RangesPartition(r, 0, 0);
      }
    }
  }
}
