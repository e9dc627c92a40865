/** The process list and the round-robin order on values.  Module ProcessList has the linked list
    and the scheduler loop, which are proved to compute these functions. */
module RoundRobin {
  import opened Lists

  // ----- Ordered insertion -----

  /** Where the injection loop puts a pid: before the first larger one. */
  function InsertIndex(pids: seq<nat>, pid: nat): (k: nat)
    ensures k <= |pids|
    ensures forall i :: 0 <= i < k ==> pids[i] <= pid
    ensures k < |pids| ==> pid < pids[k]
  {
    if pids == [] || pid < pids[0] then 0 else 1 + InsertIndex(pids[1..], pid)
  }

  /** Removes the first occurrence of x. */
  function Remove<T(==)>(xs: seq<T>, x: T): seq<T> {
    if xs == [] then [] else if xs[0] == x then xs[1..] else [xs[0]] + Remove(xs[1..], x)
  }

  ghost predicate Ascending(pids: seq<nat>) {
    forall i, j :: 0 <= i < j < |pids| ==> pids[i] <= pids[j]
  }

  /** Injecting into a pid-ordered list keeps the order. */
  lemma InsertKeepsOrder(pids: seq<nat>, pid: nat)
    requires Ascending(pids)
    ensures Ascending(Insert(pids, InsertIndex(pids, pid), pid))
  {
  }

  /** Extracting what was injected gives back the old list, wherever it was put. */
  lemma {:induction false} RemoveUndoesInsert<T>(xs: seq<T>, k: nat, x: T)
    requires k <= |xs| && x !in xs
    ensures Remove(Insert(xs, k, x), x) == xs
  {
    var ys := Insert(xs, k, x);
    if k == 0 {
      assert ys[1..] == xs;
    } else {
      assert ys[0] == xs[0];
      assert ys[1..] == Insert(xs[1..], k - 1, x);
      RemoveUndoesInsert(xs[1..], k - 1, x);
    }
  }

  /** Removing by position. */
  lemma {:induction false} RemoveAt<T>(xs: seq<T>, k: nat)
    requires k < |xs| && forall i :: 0 <= i < k ==> xs[i] != xs[k]
    ensures Remove(xs, xs[k]) == xs[..k] + xs[k + 1..]
  {
    if k > 0 {
      RemoveAt(xs[1..], k - 1);
      assert xs[1..][..k - 1] == xs[1..k];
      assert xs[..k] == [xs[0]] + xs[1..k];
    }
  }

  lemma {:induction false} RemoveAbsent<T>(xs: seq<T>, x: T)
    requires x !in xs
    ensures Remove(xs, x) == xs
  {
    if xs != [] {
      RemoveAbsent(xs[1..], x);
    }
  }

  // ----- Cyclic search -----

  /** First running position from e on, short of c; c if there is none. */
  function Search(running: seq<bool>, c: nat, e: nat): (r: nat)
    requires c < |running| && e < |running|
    ensures r < |running|
    decreases |running| - Distance(|running|, c, e)
  {
    if e == c || running[e] then e else Search(running, c, Succ(|running|, e))
  }

  /** The search finds the nearest running process in cyclic order, if there is one. */
  lemma {:induction false} SearchFindsNearest(running: seq<bool>, c: nat, e: nat)
    requires c < |running| && e < |running|
    ensures var n := |running|; var r := Search(running, c, e);
      (r != c ==> running[r] && Distance(n, c, e) <= Distance(n, c, r)) &&
      forall i :: 0 <= i < n && i != c && running[i] && Distance(n, c, e) <= Distance(n, c, i) ==>
        r != c && Distance(n, c, r) <= Distance(n, c, i)
    decreases |running| - Distance(|running|, c, e)
  {
    if e != c && !running[e] {
      SearchFindsNearest(running, c, Succ(|running|, e));
    }
  }

  /** Whom the scheduler picks after c. */
  function Next(running: seq<bool>, c: nat): nat
    requires c < |running|
  {
    Search(running, c, Succ(|running|, c))
  }

  /** The scheduler halts exactly when no process other than the current one is running. */
  lemma HaltsIffAlone(running: seq<bool>, c: nat)
    requires c < |running|
    ensures Next(running, c) == c <==> forall i :: 0 <= i < |running| && i != c ==> !running[i]
  {
    SearchFindsNearest(running, c, Succ(|running|, c));
  }

  /** The position before e in cyclic order: where a search from e ends. */
  function Pred(n: nat, e: nat): nat
    requires e < n
  {
    if e == 0 then n - 1 else e - 1
  }

  /** The search from e on when nothing on the list is current. */
  function FirstFrom(running: seq<bool>, e: nat): nat
    requires e < |running|
  {
    Search(running, Pred(|running|, e), e)
  }

  /** If somebody is running, that search finds the first running process in cyclic order from e on: from
      the root on, the first one in list order. */
  lemma FirstFromIsRunning(running: seq<bool>, e: nat)
    requires e < |running| && exists i :: 0 <= i < |running| && running[i]
    ensures var r := FirstFrom(running, e);
      r < |running| && running[r] &&
      forall i :: 0 <= i < |running| && running[i] ==> if e <= r then i >= r || i < e else r <= i < e
  {
    SearchFindsNearest(running, Pred(|running|, e), e);
  }

  /** The scheduler's loop stands at position i: it stops at the current process (at position c, or at
      no position if c is negative) and at a running one. */
  predicate Stops(running: seq<bool>, c: int, i: nat)
    requires i < |running|
  {
    i == c || running[i]
  }

  /** The loop ends if and only if the current process is on the list or somebody is running. */
  lemma SearchEndsIff(running: seq<bool>, c: int, e: nat)
    requires e < |running| && c < |running|
    ensures (exists t: nat :: Stops(running, c, Walk(|running|, e, t))) <==>
      c >= 0 || exists i :: 0 <= i < |running| && running[i]
  {
    var n := |running|;
    if c >= 0 {
      var t := WalkReaches(n, e, c);
      assert Stops(running, c, Walk(n, e, t));
    } else if exists i :: 0 <= i < n && running[i] {
      var i :| 0 <= i < n && running[i];
      var t := WalkReaches(n, e, i);
      assert Stops(running, c, Walk(n, e, t));
    }
  }

  /** It need not: with two processes, both paused, and none current, the loop goes on for ever.  This
      is how the kernel starts: a timer interrupt can come before either of its processes runs. */
  lemma SearchMayNotEnd()
    ensures !exists t: nat :: Stops([false, false], -1, Walk(2, 0, t))
  {
    SearchEndsIff([false, false], -1, 0);
  }

  // ----- Fairness -----

  ghost function Running(running: seq<bool>): set<nat> {
    set i: nat | i < |running| && running[i]
  }

  /** Running positions within d steps after c: those served before, or at, that point of the turn. */
  ghost function Passed(running: seq<bool>, c: nat, d: nat): set<nat>
    requires c < |running|
  {
    set i: nat | i < |running| && running[i] && Distance(|running|, c, i) <= d
  }

  /** Who is current after t calls of the scheduler. */
  ghost function Visit(running: seq<bool>, c: nat, t: nat): nat
    requires c < |running|
    ensures Visit(running, c, t) < |running|
    decreases t
  {
    if t == 0 then c else Visit(running, Next(running, c), t - 1)
  }

  /** One step of the turn: the next process is passed, the others keep their order. */
  lemma PassedStep(running: seq<bool>, c: nat, j: nat)
    requires c < |running| && j < |running| && running[j]
    requires Next(running, c) != c && Next(running, c) != j
    ensures var n := |running|; var c1 := Next(running, c);
      Distance(n, c1, j) < Distance(n, c, j) &&
      |Passed(running, c, Distance(n, c, j))| == 1 + |Passed(running, c1, Distance(n, c1, j))|
  {
    SearchFindsNearest(running, c, Succ(|running|, c));
    var n, c1 := |running|, Next(running, c);
    var d1 := Distance(n, c, c1);
    assert d1 < Distance(n, c, j);
    assert Distance(n, c1, j) == Distance(n, c, j) - d1;
    var rest := Passed(running, c1, Distance(n, c1, j));
    assert c1 !in rest;
    assert Passed(running, c, Distance(n, c, j)) == {c1} + rest;
  }

  lemma AnotherRunning(running: seq<bool>, c: nat)
    requires c < |running| && |Running(running)| >= 2
    ensures Next(running, c) != c
  {
    SearchFindsNearest(running, c, Succ(|running|, c));
    if forall i: nat :: i in Running(running) ==> i == c {
      assert Running(running) <= {c};
      SubsetSize(Running(running), {c});
    }
  }

  lemma {:induction false} SubsetSize<T>(a: set<T>, b: set<T>)
    requires a <= b
    ensures |a| <= |b|
  {
    if a != {} {
      var x :| x in a;
      SubsetSize(a - {x}, b - {x});
    }
  }

  /** Fairness.  With at least two running processes, wherever the current position is, process j is
      resumed for the first time at the call numbered by the running processes passed on the way,
      which is at most the number of running processes. */
  lemma {:induction false} EveryoneIsServed(running: seq<bool>, c: nat, j: nat)
    requires c < |running| && j < |running| && running[j] && |Running(running)| >= 2
    ensures var t := |Passed(running, c, Distance(|running|, c, j))|;
      1 <= t <= |Running(running)| && Visit(running, c, t) == j &&
      forall t': nat :: 1 <= t' < t ==> Visit(running, c, t') != j
    decreases Distance(|running|, c, j)
  {
    var n, c1 := |running|, Next(running, c);
    var t := |Passed(running, c, Distance(n, c, j))|;
    SubsetSize(Passed(running, c, Distance(n, c, j)), Running(running));
    AnotherRunning(running, c);
    SearchFindsNearest(running, c, Succ(|running|, c));
    if c1 == j {
      assert Passed(running, c, Distance(n, c, j)) == {j};
      assert Visit(running, c1, 0) == j;
    } else {
      PassedStep(running, c, j);
      EveryoneIsServed(running, c1, j);
      assert Visit(running, c, t) == Visit(running, c1, t - 1);
      forall t': nat | 1 <= t' < t ensures Visit(running, c, t') != j {
        assert Visit(running, c, t') == Visit(running, c1, t' - 1);
        if t' == 1 { assert Visit(running, c1, 0) == c1; }
      }
    }
  }
}
