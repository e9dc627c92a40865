/** The linked process list, process injection and extraction, and the scheduler. */
module ProcessList {
  import opened Lists
  import opened PageEntries
  import opened PageTables
  import opened RoundRobin
  import opened Words

  datatype State = Paused | Running

  /** struct pr_process_t.  A kernel stack is a page of words; the pointer into it is in bytes. */
  class Process {
    var pid: Word
    var state: State
    var pageTable: PageTable?
    var stack: array<Word>
    var kernelStack: Word
    var stackPointer: int
    var next: Process?

    /** The structure as kalloc leaves it: its contents are whatever was there. */
    constructor (pid: Word, state: State, pageTable: PageTable?, stack: array<Word>)
      ensures this.pid == pid && this.state == state && this.pageTable == pageTable && this.stack == stack
    {
      this.pid, this.state, this.pageTable, this.stack := pid, state, pageTable, stack;
      kernelStack, stackPointer, next := 0, 0, null;
    }
  }

  const STACK_WORDS := 1024
  /** Where pr_resume stores the segment registers and finds them again. */
  const FRAME := 1007
  const KERNEL_DATA: Word := 0x20

  /** What pr_create_process puts at the end of the stack: four segment registers, eight general ones,
      EIP, and a user-mode CS, flags with interrupts enabled, ESP and SS. */
  function InitialFrame(): seq<Word> {
    [KERNEL_DATA, KERNEL_DATA, KERNEL_DATA, KERNEL_DATA, 0, 0, 0, 0, 0, 0, 0, 0, 0, 0x1B, 0x202, 0x800, 0x23]
  }

  /** What pr_resume takes off a stack: four segment registers, the eight general ones, and what the
      return from the interrupt pops; `end` is where it leaves the stack. */
  datatype Context = Context(es: Word, fs: Word, gs: Word, ds: Word, general: seq<Word>,
                             eip: Word, cs: Word, flags: Word, esp: Word, ss: Word, end: int)

  function Popped(stack: seq<Word>, sp: int): Context
    requires 0 <= sp && sp + 17 <= |stack|
  {
    Context(stack[sp], stack[sp + 1], stack[sp + 2], stack[sp + 3], stack[sp + 4..sp + 12],
            stack[sp + 12], stack[sp + 13], stack[sp + 14], stack[sp + 15], stack[sp + 16], sp + 17)
  }

  /** A process that starts at address 0 in user mode: code and stack segments of privilege level 3,
      kernel data segments until it loads its own, interrupts enabled, and nothing left on the kernel
      stack. */
  predicate StartsInUserMode(c: Context) {
    && c.cs == 0x1B && c.cs % 4 == 3 && c.ss == 0x23 && c.ss % 4 == 3
    && c.flags / 0x200 % 2 == 1 && c.flags == 0x202
    && c.eip == 0 && c.esp == 0x800
    && c.es == c.fs == c.gs == c.ds == 0x20 && c.general == [0, 0, 0, 0, 0, 0, 0, 0]
    && c.end == STACK_WORDS
  }

  function Pids(ps: seq<Process>): (r: seq<nat>)
    reads ps
    ensures |r| == |ps| && forall i :: 0 <= i < |ps| ==> r[i] == ps[i].pid
  {
    seq(|ps|, i requires 0 <= i < |ps| reads ps => ps[i].pid)
  }

  function States(ps: seq<Process>): (r: seq<bool>)
    reads ps
    ensures |r| == |ps| && forall i :: 0 <= i < |ps| ==> r[i] == ps[i].state.Running?
  {
    seq(|ps|, i requires 0 <= i < |ps| reads ps => ps[i].state.Running?)
  }

  function After(nodes: seq<Process>, i: nat): Process? {
    if i + 1 < |nodes| then nodes[i + 1] else null
  }

  ghost predicate Distinct(nodes: seq<Process>) {
    forall i, j :: 0 <= i < j < |nodes| ==> nodes[i] != nodes[j]
  }

  lemma SameNode(nodes: seq<Process>, i: nat, j: nat)
    requires Distinct(nodes) && i < |nodes| && j < |nodes| && nodes[i] == nodes[j]
    ensures i == j
  {
  }

  lemma InsertDistinct(nodes: seq<Process>, k: nat, p: Process)
    requires Distinct(nodes) && p !in nodes && k <= |nodes|
    ensures Distinct(Insert(nodes, k, p))
  {
  }

  lemma DropDistinct(nodes: seq<Process>, k: nat)
    requires Distinct(nodes) && k < |nodes|
    ensures Distinct(nodes[..k] + nodes[k + 1..])
  {
  }

  lemma FramePops(stack: seq<Word>)
    requires |stack| == STACK_WORDS && stack[FRAME..] == InitialFrame()
    ensures StartsInUserMode(Popped(stack, FRAME))
  {
    assert forall k {:trigger stack[FRAME..][k]} :: 0 <= k < 17 ==> stack[FRAME + k] == stack[FRAME..][k];
    assert stack[FRAME + 4..FRAME + 12] == stack[FRAME..][4..12] == [0, 0, 0, 0, 0, 0, 0, 0];
  }

  /** `nodes` is the chain of next pointers from `first`. */
  ghost predicate Chain(first: Process?, nodes: seq<Process>)
    reads nodes
  {
    && first == (if nodes == [] then null else nodes[0])
    && (forall i {:trigger After(nodes, i)} :: 0 <= i < |nodes| ==> nodes[i].next == After(nodes, i))
    && Distinct(nodes)
  }

  /** Where p stands in the list, from position i on; -1 if it does not. */
  function IndexFrom(list: seq<Process>, p: Process?, i: nat): (r: int)
    requires i <= |list|
    ensures -1 <= r < |list| && (r >= 0 ==> i <= r && list[r] == p)
    ensures r < 0 ==> forall j :: i <= j < |list| ==> list[j] != p
    decreases |list| - i
  {
    if i == |list| then -1 else if list[i] == p then i else IndexFrom(list, p, i + 1)
  }

  function IndexOf(list: seq<Process>, p: Process?): int { IndexFrom(list, p, 0) }

  /** Whom the scheduler picks on the list: the next running process in cyclic order after the current
      one, or, if that is not listed, from `next` on, or from the root. */
  function Pick(list: seq<Process>, running: seq<bool>, current: Process?, next: Process?): nat
    requires |running| == |list| > 0
  {
    if IndexOf(list, current) >= 0 then Next(running, IndexOf(list, current))
    else FirstFrom(running, if IndexOf(list, next) < 0 then 0 else IndexOf(list, next))
  }

  function FirstRunning(ps: seq<Process>): (r: nat)
    reads ps
    ensures r <= |ps| && (r < |ps| ==> ps[r].state.Running?)
    ensures forall i :: 0 <= i < r ==> !ps[i].state.Running?
  {
    if ps == [] || ps[0].state.Running? then 0 else 1 + FirstRunning(ps[1..])
  }

  /** Where the next pointers lead from `first` on, behind the processes of `trail`. */
  function EndOf(first: Process?, trail: seq<Process>): Process?
    reads trail
  {
    if trail == [] then first else trail[|trail| - 1].next
  }

  /** Whom the scheduler picks when unlisted processes lie on its way to the list: the first running one
      of them, or the current process if they lead back to it, or else one on the list. */
  function Chosen(list: seq<Process>, trail: seq<Process>, current: Process?, next: Process?): Process
    requires list != []
    reads list, trail
  {
    if FirstRunning(trail) < |trail| then trail[FirstRunning(trail)]
    else if current != null && EndOf(next, trail) == current then current
    else list[Pick(list, States(list), current, EndOf(next, trail))]
  }

  function NextOf(p: Process?): Process?
    reads if p == null then {} else {p}
  {
    if p == null then null else p.next
  }

  /** The globals pr_root, pr_current, pr_next_pid and pg_active. */
  class ProcessTable {
    var root: Process?
    var current: Process?
    var active: PageTable
    const kernel: PageTable
    var nextPid: Word
    ghost var list: seq<Process>

    ghost predicate Valid()
      reads this, list
    {
      Chain(root, list)
    }

    constructor (kernel: PageTable)
      ensures Valid() && list == [] && current == null && nextPid == 0 && active == kernel == this.kernel
    {
      root, current, active, nextPid := null, null, kernel, 0;
      this.kernel := kernel;
      list := [];
    }

    method LinkFirst(proc: Process)
      requires Valid() && proc !in list
      modifies this`root, this`list, proc`next
      ensures Valid() && list == Insert(old(list), 0, proc)
    {
      ghost var before := list;
      proc.next := root;
      root := proc;
      list := Insert(list, 0, proc);
      InsertDistinct(before, 0, proc);
      forall j | 0 <= j < |list| ensures list[j].next == After(list, j) {
        if j > 0 {
          assert list[j] == before[j - 1] && before[j - 1].next == After(before, j - 1);
        }
      }
    }

    method UnlinkFirst(proc: Process)
      requires Valid() && list != [] && proc == root
      modifies this`root, this`list
      ensures Valid() && list == old(list)[1..]
    {
      assert list[0].next == After(list, 0);
      ghost var before := list;
      root := proc.next;
      list := list[1..];
      forall j | 0 <= j < |list| ensures list[j].next == After(list, j) {
        assert list[j] == before[j + 1] && before[j + 1].next == After(before, j + 1);
      }
    }

    /** Links proc in behind list[i]. */
    method LinkAfter(base: Process, proc: Process, ghost i: nat)
      requires Valid() && proc !in list && i < |list| && base == list[i]
      modifies this`list, proc`next, base`next
      ensures Valid() && list == Insert(old(list), i + 1, proc)
    {
      assert list[i].next == After(list, i);
      proc.next := base.next;
      base.next := proc;
      ghost var before := list;
      list := Insert(list, i + 1, proc);
      InsertDistinct(before, i + 1, proc);
      forall j | 0 <= j < |list| ensures list[j].next == After(list, j) {
        if j <= i {
          assert list[j] == before[j];
          assert j < i ==> before[j] != base && before[j].next == After(before, j);
        } else if j > i + 1 {
          assert list[j] == before[j - 1];
          assert before[j - 1] != base && before[j - 1].next == After(before, j - 1);
        }
      }
    }

    /** Unlinks the node behind list[i]. */
    method UnlinkAfter(base: Process, proc: Process, ghost i: nat)
      requires Valid() && i + 1 < |list| && base == list[i] && proc == list[i + 1]
      modifies this`list, base`next
      ensures Valid() && list == old(list)[..i + 1] + old(list)[i + 2..]
    {
      assert list[i + 1].next == After(list, i + 1);
      base.next := proc.next;
      ghost var before := list;
      list := list[..i + 1] + list[i + 2..];
      DropDistinct(before, i + 1);
      forall j | 0 <= j < |list| ensures list[j].next == After(list, j) {
        if j < i {
          assert list[j] == before[j] && before[j] != base;
          assert before[j].next == After(before, j);
        } else if j > i {
          assert list[j] == before[j + 1] && before[j + 1] != base;
          assert before[j + 1].next == After(before, j + 1);
        }
      }
    }

    /** pr_inject_process */
    method Inject(proc: Process) returns (ok: bool)
      requires Valid() && proc !in list
      modifies this`root, this`list, proc`next, (set p | p in list)`next
      ensures Valid() && ok
      ensures list == Insert(old(list), InsertIndex(old(Pids(list)), old(proc.pid)), proc)
    {
      ghost var pids := Pids(list);
      if root == null || root.pid > proc.pid {
        LinkFirst(proc);
        return true;
      }
      assert pids[0] == root.pid;
      var base := root;
      ghost var i := 0;
      ghost var k := InsertIndex(pids, proc.pid);
      while base != null
        invariant 0 <= i < k && base == list[i]
        decreases k - i
      {
        assert list[i].next == After(list, i);
        assert base.next != null ==> pids[i + 1] == base.next.pid;
        if base.next == null || base.next.pid > proc.pid {
          break;
        }
        base := base.next;
        i := i + 1;
      }
      if base == null {
        return false;
      }
      LinkAfter(base, proc, i);
      return true;
    }

    /** pr_extract_process: a process that is not listed, or NULL, is ignored. */
    method Extract(proc: Process?)
      requires Valid()
      modifies this`root, this`list, (set p | p in list)`next
      ensures Valid()
      ensures list == if proc == null then old(list) else Remove(old(list), proc)
    {
      if proc == null {
        return;
      }
      if proc == root {
        UnlinkFirst(proc);
        return;
      }
      var base := root;
      ghost var i := 0;
      while base != null
        invariant 0 <= i <= |list| && base == if i < |list| then list[i] else null
        invariant forall j :: 0 <= j <= i && j < |list| ==> list[j] != proc
        decreases |list| - i
      {
        assert list[i].next == After(list, i);
        if base.next == proc {
          break;
        }
        base := base.next;
        i := i + 1;
      }
      if base == null {
        RemoveAbsent<Process?>(list, proc);
        return;
      }
      RemoveAt<Process?>(list, i + 1);
      UnlinkAfter(base, proc, i);
    }

    /** pg_activate_table: NULL stands for the kernel's own table. */
    method Activate(table: PageTable?)
      modifies this`active
      ensures active == if table == null then kernel else table
    {
      if active == table {
        return;
      }
      active := if table == null then kernel else table;
    }

    /** pr_resume, up to the switch of stacks: the interrupted process's segment registers are stored
        where they will be popped from, and the process and its address space become current. */
    method Resume(proc: Process)
      requires current != null ==> current.stack.Length == STACK_WORDS
      modifies this`current, this`active, if current == null then {} else {current.stack}
      ensures current == proc && active == if proc.pageTable == null then kernel else proc.pageTable
      ensures old(current) != null ==> forall k :: 0 <= k < STACK_WORDS ==>
        old(current.stack)[k] == if FRAME <= k < FRAME + 4 then KERNEL_DATA else old(current.stack[k])
    {
      if current != null {
        var stack := current.stack;
        var i := 0;
        while i < 4
          invariant 0 <= i <= 4
          invariant forall k :: 0 <= k < STACK_WORDS ==>
            stack[k] == if FRAME <= k < FRAME + i then KERNEL_DATA else old(stack[k])
          modifies stack
        {
          stack[1024 + i - 17] := KERNEL_DATA;
          i := i + 1;
        }
      }
      current := proc;
      Activate(current.pageTable);
    }

    /** `trail` are the unlisted processes that the next pointer of the current one leads through: those
        extracted after it.  Either one of them is running, or behind them come the list, the end of the
        chain or the current process. */
    ghost predicate Strays(first: Process?, trail: seq<Process>)
      reads this, list, trail
    {
      && (forall i :: 0 <= i < |trail| ==> trail[i] !in list && trail[i] != current)
      && (forall i {:trigger After(trail, i)} :: 0 <= i < |trail| - 1 ==> trail[i].next == After(trail, i))
      && (trail != [] ==> first == trail[0])
      && (FirstRunning(trail) == |trail| ==>
            EndOf(first, trail) == null || EndOf(first, trail) in list || EndOf(first, trail) == current)
    }

    /** The search of pr_schedule, with `paused` counted as paused, comes to an end: it meets the current
        process or a running one. */
    ghost predicate CanSchedule(paused: Process?, trail: seq<Process>)
      reads this, list, trail, if current == null then {} else {current}
    {
      Strays(NextOf(current), trail) &&
      (list == [] || current in list || FirstRunning(trail) < |trail| ||
       (current != null && EndOf(NextOf(current), trail) == current) ||
       exists p :: p in list && p != paused && p.state.Running?)
    }

    /** The first running process of the list. */
    ghost predicate IsFirstRunning(p: Process?)
      reads this`list, list
    {
      exists k :: 0 <= k < |list| && p == list[k] && list[k].state.Running? &&
        forall j :: 0 <= j < k ==> !list[j].state.Running?
    }

    /** With no current process that is whom the scheduler picks. */
    lemma PicksFirstRunning(trail: seq<Process>)
      requires Valid() && CanSchedule(null, trail) && list != [] && current == null
      ensures IsFirstRunning(Chosen(list, trail, current, NextOf(current)))
    {
      assert trail == [];
      SomebodyRuns();
      FirstFromIsRunning(States(list), 0);
    }

    /** pr_schedule.  Without an end to its search it never returns: see SearchEndsIff. */
    method Schedule(ghost trail: seq<Process>) returns (halted: bool)
      requires Valid() && CanSchedule(null, trail) && (current != null ==> current.stack.Length == STACK_WORDS)
      modifies this`current, this`active, if current == null then {} else {current.stack}
      ensures list == [] ==> !halted && current == old(current)
      ensures list != [] ==> current == Chosen(list, trail, old(current), old(NextOf(current)))
      ensures list != [] ==> (halted <==> current == old(current))
      ensures list != [] && old(current) == null ==> IsFirstRunning(current)
      ensures current != old(current) ==>
        current != null && active == if current.pageTable == null then kernel else current.pageTable
    {
      halted := false;
      if root == null {
        return;
      }
      var proc := Choose(trail);
      if proc == current {
        return true;
      }
      Resume(proc);
    }

    /** Its search. */
    method Choose(ghost trail: seq<Process>) returns (proc: Process)
      requires Valid() && CanSchedule(null, trail) && list != []
      ensures proc == Chosen(list, trail, current, NextOf(current))
      ensures current == null ==> IsFirstRunning(proc)
    {
      if current == null { PicksFirstRunning(trail); }
      ghost var e, c := FindEntry(trail);
      var start := null;
      if current != null {
        start := current.next;
      }
      if start == null {
        start := root;
      }
      proc := FindStop(start, trail, e, c);
    }

    /** The unlisted processes lead back to the current one. */
    ghost predicate LeadsBack(trail: seq<Process>)
      reads this, trail, if current == null then {} else {current}
    {
      current != null && EndOf(NextOf(current), trail) == current
    }

    /** None of them stops the search. */
    ghost predicate OnWayToList(trail: seq<Process>)
      reads this, trail, if current == null then {} else {current}
    {
      FirstRunning(trail) == |trail| && !LeadsBack(trail)
    }

    /** The search is on the list at position e, it ends at position c at the latest, and it finds the
        process that is picked. */
    ghost predicate OnList(trail: seq<Process>, e: nat, c: nat)
      requires Valid() && list != []
      reads this, list, trail, if current == null then {} else {current}
    {
      var end := EndOf(NextOf(current), trail);
      e < |list| && c < |list| && list[e] == (if end != null then end else root) &&
      Search(States(list), c, e) == Pick(list, States(list), current, end) &&
      (if current in list then current == list[c]
       else States(list)[Search(States(list), c, e)])
    }

    /** Where the search enters the list, and where it ends at the latest. */
    lemma FindEntry(trail: seq<Process>) returns (e: nat, c: nat)
      requires Valid() && CanSchedule(null, trail) && list != []
      ensures OnWayToList(trail) ==> OnList(trail, e, c)
    {
      var end := EndOf(NextOf(current), trail);
      if current in list {
        c := IndexOf(list, current);
        CyclicSuccessor(c);
        e := Succ(|list|, c);
        assert trail == [];
      } else {
        e := if IndexOf(list, end) < 0 then 0 else IndexOf(list, end);
        c := Pred(|list|, e);
        if OnWayToList(trail) {
          SomebodyRuns();
          FirstFromIsRunning(States(list), e);
        }
      }
    }

    lemma SomebodyRuns()
      requires exists p :: p in list && p.state.Running?
      ensures exists i :: 0 <= i < |States(list)| && States(list)[i]
    {
      var p :| p in list && p.state.Running?;
      assert States(list)[IndexOf(list, p)];
    }

    /** The loop stands at proc, at position j of the unlisted processes, or behind them at position e of
        the list, and none that it has passed is running. */
    ghost predicate Stands(trail: seq<Process>, e0: nat, c: nat, j: nat, e: nat, proc: Process?)
      requires Valid() && list != []
      reads this, list, trail, if current == null then {} else {current}
    {
      j <= |trail| && (forall i :: 0 <= i < j ==> !trail[i].state.Running?) &&
      if j < |trail| then proc == trail[j] && e == e0
      else if LeadsBack(trail) then proc == current
      else
        OnList(trail, e0, c) && e < |list| && proc == list[e] &&
        Search(States(list), c, e) == Search(States(list), c, e0)
    }

    /** Steps to the end of the search on the list. */
    ghost function StepsLeft(c: nat, e: nat): nat
      reads this
    {
      if e < |list| && c < |list| then |list| - Distance(|list|, c, e) else 0
    }

    /** It moves on. */
    lemma StandsNext(trail: seq<Process>, e0: nat, c: nat, j: nat, e: nat, proc: Process)
      requires Valid() && list != [] && Strays(NextOf(current), trail) && Stands(trail, e0, c, j, e, proc)
      requires OnWayToList(trail) ==> OnList(trail, e0, c)
      requires proc != current && !proc.state.Running?
      ensures var next := if proc.next == null then root else proc.next;
        if j < |trail| then Stands(trail, e0, c, j + 1, e, next)
        else
          e < |list| && Stands(trail, e0, c, j, Succ(|list|, e), next) &&
          StepsLeft(c, Succ(|list|, e)) < StepsLeft(c, e)
    {
      if j < |trail| {
        assert j < |trail| - 1 ==> trail[j].next == After(trail, j);
      } else {
        CyclicSuccessor(e);
      }
    }

    /** The loop: follows the next pointers, on the list cyclically, until it meets a running process or
        the current one. */
    method FindStop(start: Process, ghost trail: seq<Process>, ghost e0: nat, ghost c: nat) returns (proc: Process)
      requires Valid() && list != [] && Strays(NextOf(current), trail)
      requires start == if NextOf(current) == null then root else NextOf(current)
      requires OnWayToList(trail) ==> OnList(trail, e0, c)
      ensures proc == Chosen(list, trail, current, NextOf(current))
    {
      ghost var j, e := 0, e0;
      proc := start;
      while proc != current && proc.state != Running
        invariant Stands(trail, e0, c, j, e, proc)
        decreases |trail| - j, StepsLeft(c, e)
      {
        StandsNext(trail, e0, c, j, e, proc);
        if j < |trail| {
          j := j + 1;
        } else {
          e := Succ(|list|, e);
        }
        proc := if proc.next == null then root else proc.next;
      }
      StopIsChosen(trail, e0, c, j, e, proc);
    }

    lemma StopIsChosen(trail: seq<Process>, e0: nat, c: nat, j: nat, e: nat, proc: Process)
      requires Valid() && list != [] && Strays(NextOf(current), trail) && Stands(trail, e0, c, j, e, proc)
      requires proc == current || proc.state.Running?
      ensures proc == Chosen(list, trail, current, NextOf(current))
    {
      if j == |trail| && !LeadsBack(trail) && proc == current {
        SameNode(list, e, c);
      }
    }

    /** The next process in list order, from the root again after the last. */
    lemma CyclicSuccessor(i: nat)
      requires Valid() && i < |list|
      ensures (if list[i].next == null then root else list[i].next) == list[Succ(|list|, i)]
    {
      assert list[i].next == After(list, i);
    }

    /** pr_suspend: pauses this process, and by the frame no other one. */
    method Suspend(proc: Process, ghost trail: seq<Process>) returns (halted: bool)
      requires Valid() && (proc == current ==> CanSchedule(proc, trail) && proc.stack.Length == STACK_WORDS)
      modifies this`current, this`active, proc`state, if proc == current then {proc.stack} else {}
      ensures proc.state == Paused
      ensures old(current) != proc ==> current == old(current) && !halted
      ensures old(current) == proc && list != [] ==> (halted <==> current == proc)
      ensures old(current) == proc && list != [] ==> current == Chosen(list, trail, proc, old(NextOf(proc)))
    {
      proc.state := Paused;
      halted := false;
      if proc == current {
        halted := Schedule(trail);
      }
    }

    /** pr_free_pid */
    method FreePid() returns (pid: Word)
      modifies this`nextPid
      ensures pid == old(nextPid) && nextPid == (old(nextPid) + 1) % 0x1_0000_0000
    {
      pid := nextPid;
      nextPid := (nextPid + 1) % 0x1_0000_0000;
    }

    /** What fork and creation do first: the structure from kalloc is listed by the pid that it happens
        to hold, and only then gets its own; it starts paused. */
    method Enlist(proc: Process)
      requires Valid() && proc !in list
      modifies this`root, this`list, this`nextPid, proc, (set p | p in list)`next
      ensures Valid() && list == Insert(old(list), InsertIndex(old(Pids(list)), old(proc.pid)), proc)
      ensures proc.pid == old(nextPid) && nextPid == (old(nextPid) + 1) % 0x1_0000_0000 && proc.state == Paused
      ensures proc.stack == old(proc.stack) && proc.pageTable == old(proc.pageTable)
    {
      var ok := Inject(proc);
      proc.pid := FreePid();
      proc.state := Paused;
    }

    /** pr_fork_process.  `proc` and `stack` come from kalloc and `pageTable` from the copy of the
        parent's directory.  The child's stack holds the parent's words, and its pointer the parent's
        offset: resuming the child pops what resuming the parent would. */
    method ForkProcess(src: Process, proc: Process, pageTable: PageTable, stack: array<Word>, base: Word)
      requires Valid() && proc !in list && src != proc
      requires src.stack.Length == STACK_WORDS == stack.Length && stack != src.stack
      modifies this`root, this`list, this`nextPid, proc, (set p | p in list)`next, stack
      ensures Valid() && list == Insert(old(list), InsertIndex(old(Pids(list)), old(proc.pid)), proc)
      ensures proc.pid == old(nextPid) && nextPid == (old(nextPid) + 1) % 0x1_0000_0000 && proc.state == Paused
      ensures proc.pageTable == pageTable && proc.stack == stack && proc.kernelStack == base
      ensures stack[..] == src.stack[..] == old(src.stack[..])
      ensures proc.stackPointer - proc.kernelStack == src.stackPointer - src.kernelStack
      ensures var offset := src.stackPointer - src.kernelStack;
        0 <= offset <= 4 * (STACK_WORDS - 17) ==>
          Popped(stack[..], (proc.stackPointer - base) / 4) == Popped(old(src.stack[..]), offset / 4)
    {
      Enlist(proc);
      proc.pageTable := pageTable;
      CopyStack(src.stack, stack);
      proc.stack, proc.kernelStack := stack, base;
      proc.stackPointer := base + (src.stackPointer - src.kernelStack);
    }

    /** The copy loop of fork. */
    method CopyStack(src: array<Word>, dst: array<Word>)
      requires src.Length == STACK_WORDS == dst.Length && src != dst
      modifies dst
      ensures dst[..] == src[..]
    {
      var i := 0;
      while i < 1024
        invariant 0 <= i <= 1024 && dst[..i] == src[..i]
      {
        dst[i] := src[i];
        i := i + 1;
      }
      assert dst[..] == dst[..1024] && src[..] == src[..1024];
    }

    /** pr_create_process, likewise; the stack pointer is where pr_resume starts to pop. */
    method CreateProcess(proc: Process, pageTable: PageTable, stack: array<Word>, base: Word)
      requires Valid() && proc !in list && stack.Length == STACK_WORDS
      modifies this`root, this`list, this`nextPid, proc, (set p | p in list)`next, stack
      ensures Valid() && list == Insert(old(list), InsertIndex(old(Pids(list)), old(proc.pid)), proc)
      ensures proc.pid == old(nextPid) && nextPid == (old(nextPid) + 1) % 0x1_0000_0000 && proc.state == Paused
      ensures proc.pageTable == pageTable && proc.stack == stack && proc.kernelStack == base
      ensures proc.stackPointer % 4 == base % 4 && 0 <= proc.stackPointer - base <= 4 * (STACK_WORDS - 17)
      ensures StartsInUserMode(Popped(stack[..], (proc.stackPointer - base) / 4))
    {
      Enlist(proc);
      proc.pageTable := pageTable;
      var sp := PushFrame(stack);
      FramePops(stack[..]);
      proc.stack, proc.kernelStack := stack, base;
      proc.stackPointer := base + sp * 4;
    }

    /** The stores through the descending pointer. */
    method PushFrame(stack: array<Word>) returns (sp: int)
      requires stack.Length == STACK_WORDS
      modifies stack
      ensures sp == FRAME && stack[FRAME..] == InitialFrame()
    {
      sp := 1024;
      sp := sp - 1;
      stack[sp], sp := 0x23, sp - 1;
      stack[sp], sp := 0x800, sp - 1;
      stack[sp], sp := 0x202, sp - 1;
      stack[sp], sp := 0x1B, sp - 1;
      stack[sp], sp := 0, sp - 1;
      var i := 0;
      while i < 8
        invariant 0 <= i <= 8 && sp == 1018 - i
        invariant forall k :: sp < k < STACK_WORDS ==> stack[k] == InitialFrame()[k - FRAME]
      {
        stack[sp], sp := 0, sp - 1;
        i := i + 1;
      }
      i := 0;
      while i < 4
        invariant 0 <= i <= 4 && sp == 1010 - i
        invariant forall k :: sp < k < STACK_WORDS ==> stack[k] == InitialFrame()[k - FRAME]
      {
        stack[sp], sp := KERNEL_DATA, sp - 1;
        i := i + 1;
      }
      sp := sp + 1;
    }
  }
}
