/** Task switching on a machine whose stacks live in one memory. The memory and the saved stack
    pointers refine a table of contexts: the registers, stack and resumption point of every
    suspended task. Addresses count eight-byte words. */
module Tasks {
  import opened RoundRobin

  type Memory = map<nat, nat>

  const FRAME_WORDS := 512

  // addresses of code
  const TASK_EXIT := 1
  const TASK_START := 2

  /** The callee-saved registers. */
  datatype Regs = Regs(rbx: nat, rbp: nat, r12: nat, r13: nat, r14: nat, r15: nat)

  datatype Region = Region(lo: nat, hi: nat)

  datatype Task = Task(rsp: nat, state: int) // 0 = free, 1 = ready

  /** Where a task continues, and with what: `stack` is its stack from `rsp` up. */
  datatype Context = Context(regs: Regs, rsp: nat, pc: nat, stack: seq<nat>)

  function Load(m: Memory, a: nat): nat
  {
    if a in m then m[a] else 0
  }

  function Image(m: Memory, lo: nat, hi: nat): seq<nat>
    requires lo <= hi
  {
    seq<nat>(hi - lo, k requires 0 <= k => Load(m, lo + k))
  }

  lemma ImageLength(m: Memory, lo: nat, hi: nat)
    requires lo <= hi
    ensures |Image(m, lo, hi)| == hi - lo
  {
  }

  /** The context that switch_task restores from a saved stack pointer. */
  function SavedAt(m: Memory, p: nat, top: nat): Context
    requires p + 7 <= top
  {
    Context(Regs(Load(m, p + 5), Load(m, p + 4), Load(m, p + 3), Load(m, p + 2), Load(m, p + 1), Load(m, p)),
            p + 7, Load(m, p + 6), Image(m, p + 7, top))
  }

  /** The pushes of switch_task. */
  function PushRegs(m: Memory, sp: nat, r: Regs): Memory
    requires sp >= 6
  {
    m[sp - 1 := r.rbx][sp - 2 := r.rbp][sp - 3 := r.r12][sp - 4 := r.r13][sp - 5 := r.r14][sp - 6 := r.r15]
  }

  /** What a switch leaves on the stack, from the top down: rbx, rbp, r12 to r15. */
  lemma PushedWords(m: Memory, sp: nat, r: Regs)
    requires sp >= 6
    ensures var m' := PushRegs(m, sp, r);
            && Load(m', sp - 1) == r.rbx && Load(m', sp - 2) == r.rbp && Load(m', sp - 3) == r.r12
            && Load(m', sp - 4) == r.r13 && Load(m', sp - 5) == r.r14 && Load(m', sp - 6) == r.r15
            && forall a: nat :: !(sp - 6 <= a < sp) ==> Load(m', a) == Load(m, a)
  {
  }

  predicate Apart(a: Region, b: Region) { a.hi <= b.lo || b.hi <= a.lo }

  /** Two memories agree on a region. */
  predicate SameOn(m: Memory, m': Memory, r: Region)
  {
    forall a :: r.lo <= a < r.hi ==> Load(m, a) == Load(m', a)
  }

  lemma SameImage(m: Memory, m': Memory, r: Region, lo: nat)
    requires SameOn(m, m', r) && r.lo <= lo <= r.hi
    ensures Image(m, lo, r.hi) == Image(m', lo, r.hi)
  {
  }

  lemma SameSaved(m: Memory, m': Memory, r: Region, p: nat)
    requires SameOn(m, m', r) && r.lo <= p && p + 7 <= r.hi
    ensures SavedAt(m, p, r.hi) == SavedAt(m', p, r.hi)
  {
    hide Image;
    SameImage(m, m', r, p + 7);
  }

  /** What is pushed is what a later switch restores. */
  lemma SaveRestores(m: Memory, sp: nat, ret: nat, r: Regs, top: nat)
    requires 7 <= sp <= top
    ensures SavedAt(PushRegs(m[sp - 1 := ret], sp - 1, r), sp - 7, top) == Context(r, sp, ret, Image(m, sp, top))
  {
    PushStaysInside(m, sp, ret, r, Region(sp, top));
    SameImage(m, PushRegs(m[sp - 1 := ret], sp - 1, r), Region(sp, top), sp);
  }

  lemma PushStaysInside(m: Memory, sp: nat, ret: nat, r: Regs, region: Region)
    requires sp >= 7 && Apart(Region(sp - 7, sp), region)
    ensures SameOn(m, PushRegs(m[sp - 1 := ret], sp - 1, r), region)
  {
  }

  /** The stack of a new task in the frame that ends at `top`. */
  function NewStack(m: Memory, top: nat, entry: nat): Memory
    requires top >= 9
  {
    PushRegs(m[top - 1 := TASK_EXIT][top - 2 := entry][top - 3 := TASK_START], top - 3, Regs(0, 0, 0, 0, 0, 0))
  }

  function PushZeros(m: Memory, sp: nat, j: nat): Memory
    requires j <= sp
  {
    if j == 0 then m else PushZeros(m, sp, j - 1)[sp - j := 0]
  }

  lemma SixZeros(m: Memory, sp: nat)
    requires sp >= 6
    ensures PushZeros(m, sp, 6) == PushRegs(m, sp, Regs(0, 0, 0, 0, 0, 0))
  {
    assert PushZeros(m, sp, 1) == m[sp - 1 := 0];
    assert PushZeros(m, sp, 2) == PushZeros(m, sp, 1)[sp - 2 := 0];
    assert PushZeros(m, sp, 3) == PushZeros(m, sp, 2)[sp - 3 := 0];
    assert PushZeros(m, sp, 4) == PushZeros(m, sp, 3)[sp - 4 := 0];
    assert PushZeros(m, sp, 5) == PushZeros(m, sp, 4)[sp - 5 := 0];
  }

  lemma ApartFromEnd(a: Region, b: Region)
    requires Apart(a, b) && b.lo + 9 <= b.hi
    ensures Apart(b, a) && Apart(Region(b.hi - 9, b.hi), a)
  {
  }

  lemma ApartFromInside(a: Region, sp: nat, b: Region)
    requires Apart(a, b) && a.lo + 7 <= sp <= a.hi
    ensures Apart(Region(sp - 7, sp), b)
  {
  }

  lemma NextIsReady(ready: seq<bool>, current: nat, next: nat)
    requires current < |ready| && IsNext(ready, current, next)
    ensures next < |ready| && (ready[next] || next == current)
  {
  }

  /** It continues in task_start, whose ret enters `entry` with task_exit as the return address. */
  lemma NewStackContext(m: Memory, top: nat, entry: nat)
    requires top >= 9
    ensures SavedAt(NewStack(m, top, entry), top - 9, top)
            == Context(Regs(0, 0, 0, 0, 0, 0), top - 2, TASK_START, [entry, TASK_EXIT])
  {
    var m2 := m[top - 1 := TASK_EXIT][top - 2 := entry];
    SaveRestores(m2, top - 2, TASK_START, Regs(0, 0, 0, 0, 0, 0), top);
    var image := Image(m2, top - 2, top);
    assert |image| == 2 && image[0] == Load(m2, top - 2) == entry && image[1] == Load(m2, top - 1) == TASK_EXIT;
  }

  lemma NewStackStaysInside(m: Memory, top: nat, entry: nat, region: Region)
    requires top >= 9 && Apart(Region(top - 9, top), region)
    ensures SameOn(m, NewStack(m, top, entry), region)
  {
  }

  /** A slot whose stack matters: its task is ready, or it is the one running. */
  predicate IsLive(ts: seq<Task>, current: nat, i: nat)
  {
    i < |ts| && (ts[i].state == 1 || i == current)
  }

  predicate IsSuspended(ts: seq<Task>, current: nat, i: nat)
  {
    i < |ts| && ts[i].state == 1 && i != current
  }

  function FrameAt(f: nat): Region { Region(f, f + FRAME_WORDS) }

  /** The stacks of live tasks and the free frames are apart from each other. */
  ghost predicate Separate(ts: seq<Task>, current: nat, stacks: seq<Region>, frames: seq<nat>)
  {
    && current < |ts| == |stacks|
    && (forall i: nat :: IsLive(ts, current, i) ==> stacks[i].lo <= stacks[i].hi)
    && (forall i: nat, j: nat :: IsLive(ts, current, i) && IsLive(ts, current, j) && i != j ==>
       Apart(stacks[i], stacks[j]))
    && (forall i: nat, k :: IsLive(ts, current, i) && 0 <= k < |frames| ==> Apart(stacks[i], FrameAt(frames[k])))
    && (forall j, k :: 0 <= j < k < |frames| ==> Apart(FrameAt(frames[j]), FrameAt(frames[k])))
  }

  ghost predicate Holds(m: Memory, p: nat, stack: Region, c: Context)
  {
    stack.lo <= p && p + 7 <= stack.hi && c == SavedAt(m, p, stack.hi)
  }

  /** The memory and the saved stack pointer of every suspended task hold its context. */
  ghost predicate Restorable(m: Memory, ts: seq<Task>, current: nat, stacks: seq<Region>, contexts: seq<Context>)
  {
    && |ts| == |stacks| == |contexts|
    && forall i: nat :: IsSuspended(ts, current, i) ==> Holds(m, ts[i].rsp, stacks[i], contexts[i])
  }

  lemma HoldsFrame(m: Memory, m': Memory, p: nat, stack: Region, c: Context)
    requires Holds(m, p, stack, c) && SameOn(m, m', stack)
    ensures Holds(m', p, stack, c)
  {
    SameSaved(m, m', stack, p);
  }

  /** Saving the running task and leaving it keeps every context, with its own added. */
  lemma SwitchKeeps(m: Memory, ts: seq<Task>, current: nat, stacks: seq<Region>, contexts: seq<Context>,
      frames: seq<nat>, sp: nat, ret: nat, r: Regs, next: nat)
    requires Separate(ts, current, stacks, frames) && Restorable(m, ts, current, stacks, contexts)
    requires stacks[current].lo + 7 <= sp <= stacks[current].hi && IsSuspended(ts, current, next)
    ensures var m' := PushRegs(m[sp - 1 := ret], sp - 1, r);
            var ts' := ts[current := ts[current].(rsp := sp - 7)];
            var c := Context(r, sp, ret, Image(m, sp, stacks[current].hi));
            && Separate(ts', next, stacks, frames)
            && Restorable(m', ts', next, stacks, contexts[current := c])
            && Holds(m', ts[next].rsp, stacks[next], contexts[next])
  {
    hide SavedAt, Image, PushRegs, Holds, SameOn, Apart;
    var m' := PushRegs(m[sp - 1 := ret], sp - 1, r);
    var ts' := ts[current := ts[current].(rsp := sp - 7)];
    SavedHolds(m, sp, ret, r, stacks[current]);
    forall i: nat | IsSuspended(ts, current, i) ensures Holds(m', ts[i].rsp, stacks[i], contexts[i]) {
      assert IsLive(ts, current, i) && IsLive(ts, current, current);
      ApartFromInside(stacks[current], sp, stacks[i]);
      PushStaysInside(m, sp, ret, r, stacks[i]);
      HoldsFrame(m, m', ts[i].rsp, stacks[i], contexts[i]);
    }
    assert forall i: nat :: IsLive(ts', next, i) ==> IsLive(ts, current, i);
    assert forall i: nat :: IsSuspended(ts', next, i) ==> i == current || IsSuspended(ts, current, i);
  }

  lemma SavedHolds(m: Memory, sp: nat, ret: nat, r: Regs, stack: Region)
    requires stack.lo + 7 <= sp <= stack.hi
    ensures Holds(PushRegs(m[sp - 1 := ret], sp - 1, r), sp - 7, stack, Context(r, sp, ret, Image(m, sp, stack.hi)))
  {
    SaveRestores(m, sp, ret, r, stack.hi);
  }

  function NewContext(top: nat, entry: nat): Context
    requires top >= 2
  {
    Context(Regs(0, 0, 0, 0, 0, 0), top - 2, TASK_START, [entry, TASK_EXIT])
  }

  /** A new task in a free slot and a free frame. */
  lemma CreateKeeps(m: Memory, ts: seq<Task>, current: nat, stacks: seq<Region>, contexts: seq<Context>,
      frames: seq<nat>, i: nat, entry: nat)
    requires Separate(ts, current, stacks, frames) && Restorable(m, ts, current, stacks, contexts)
    requires i < |ts| && !IsLive(ts, current, i) && frames != []
    ensures var top := frames[0] + FRAME_WORDS;
            var ts' := ts[i := Task(top - 9, 1)];
            && Separate(ts', current, stacks[i := FrameAt(frames[0])], frames[1..])
            && Restorable(NewStack(m, top, entry), ts', current, stacks[i := FrameAt(frames[0])],
               contexts[i := NewContext(top, entry)])
  {
    hide SavedAt, Image, NewStack, Holds, SameOn, Apart;
    var top := frames[0] + FRAME_WORDS;
    var ts', m' := ts[i := Task(top - 9, 1)], NewStack(m, top, entry);
    NewHolds(m, frames[0], entry);
    forall j: nat | IsLive(ts, current, j)
        ensures Apart(stacks[j], FrameAt(frames[0])) && Apart(FrameAt(frames[0]), stacks[j]) {
      ApartFromEnd(stacks[j], FrameAt(frames[0]));
    }
    forall j: nat | IsSuspended(ts, current, j) ensures Holds(m', ts[j].rsp, stacks[j], contexts[j]) {
      assert IsLive(ts, current, j);
      ApartFromEnd(stacks[j], FrameAt(frames[0]));
      NewStackStaysInside(m, top, entry, stacks[j]);
      HoldsFrame(m, m', ts[j].rsp, stacks[j], contexts[j]);
    }
    assert forall j: nat :: IsLive(ts', current, j) ==> j == i || IsLive(ts, current, j);
    forall k | 0 <= k < |frames[1..]|
        ensures Apart(FrameAt(frames[0]), FrameAt(frames[1..][k])) { assert frames[1..][k] == frames[k + 1]; }
  }

  /** A new task over the running slot uses up a frame and disturbs nothing. */
  lemma CreateOverKeeps(m: Memory, ts: seq<Task>, current: nat, stacks: seq<Region>, contexts: seq<Context>,
                        frames: seq<nat>, entry: nat)
    requires Separate(ts, current, stacks, frames) && Restorable(m, ts, current, stacks, contexts) && frames != []
    ensures var top := frames[0] + FRAME_WORDS;
            var ts' := ts[current := Task(top - 9, 1)];
            Separate(ts', current, stacks, frames[1..])
                && Restorable(NewStack(m, top, entry), ts', current, stacks, contexts)
  {
    hide SavedAt, Image, NewStack, Holds, SameOn, Apart;
    var top := frames[0] + FRAME_WORDS;
    var ts', m' := ts[current := Task(top - 9, 1)], NewStack(m, top, entry);
    forall j: nat | IsSuspended(ts, current, j) ensures Holds(m', ts[j].rsp, stacks[j], contexts[j]) {
      assert IsLive(ts, current, j);
      ApartFromEnd(stacks[j], FrameAt(frames[0]));
      NewStackStaysInside(m, top, entry, stacks[j]);
      HoldsFrame(m, m', ts[j].rsp, stacks[j], contexts[j]);
    }
    assert forall j: nat :: IsLive(ts', current, j) ==> IsLive(ts, current, j);
    assert forall j: nat :: IsSuspended(ts', current, j) ==> IsSuspended(ts, current, j);
  }

  lemma NewHolds(m: Memory, frame: nat, entry: nat)
    ensures Holds(NewStack(m, frame + FRAME_WORDS, entry), frame + FRAME_WORDS - 9,
            FrameAt(frame), NewContext(frame + FRAME_WORDS, entry))
  {
    NewStackContext(m, frame + FRAME_WORDS, entry);
  }

  class Machine {
    var mem: Memory
    var regs: Regs
    var rsp: nat
    var pc: nat
    const tasks: array<Task>
    var current: nat
    var taskingOn: bool
    /** The free frames of the physical allocator, by the address of their first word. */
    var frames: seq<nat>
    /** The stack that each task was given. */
    var stacks: seq<Region>
    /** The context of each suspended task. */
    ghost var contexts: seq<Context>

    predicate Suspended(i: nat)
      reads this, tasks
    {
      IsSuspended(tasks[..], current, i)
    }

    ghost predicate Valid()
      reads this, tasks
    {
      && Separate(tasks[..], current, stacks, frames)
      && stacks[current].lo <= rsp <= stacks[current].hi
      && Restorable(mem, tasks[..], current, stacks, contexts)
    }

    /** The context of the running task if it were to continue at `at`. */
    ghost function Running(at: nat): Context
      requires current < |stacks| && rsp <= stacks[current].hi
      reads this
    {
      Context(regs, rsp, at, Image(mem, rsp, stacks[current].hi))
    }

    ghost function Ready(): seq<bool>
      reads tasks
    {
      seq(tasks.Length, i requires 0 <= i < tasks.Length reads tasks => tasks[i].state == 1)
    }

    /** init_tasking: the boot flow becomes task 0. */
    constructor (n: nat, mem: Memory, regs: Regs, rsp: nat, boot: Region, frames: seq<nat>)
      requires n > 0 && boot.lo <= rsp <= boot.hi
      requires forall k :: 0 <= k < |frames| ==> Apart(boot, FrameAt(frames[k]))
      requires forall j, k :: 0 <= j < k < |frames| ==> Apart(FrameAt(frames[j]), FrameAt(frames[k]))
      ensures Valid() && fresh(tasks) && tasks.Length == n && current == 0 && taskingOn
      ensures tasks[0].state == 1 && forall i :: 0 < i < n ==> tasks[i].state == 0
      ensures this.mem == mem && this.regs == regs && this.rsp == rsp && this.frames == frames && stacks[0] == boot
    {
      this.mem, this.regs, this.rsp, this.frames, pc := mem, regs, rsp, frames, 0;
      tasks := new Task[n](i => Task(0, if i == 0 then 1 else 0));
      current, taskingOn := 0, true;
      stacks := seq(n, _ => boot);
      contexts := seq(n, _ => Context(regs, 0, 0, []));
    }

    method Push(v: nat)
      requires rsp > 0
      modifies this`mem, this`rsp
      ensures rsp == old(rsp) - 1 && mem == old(mem)[rsp := v]
    {
      rsp := rsp - 1;
      mem := mem[rsp := v];
    }

    method Pop() returns (v: nat)
      modifies this`rsp
      ensures rsp == old(rsp) + 1 && v == Load(mem, old(rsp))
    {
      v := Load(mem, rsp);
      rsp := rsp + 1;
    }

    method PushAll()
      requires rsp >= 6
      modifies this`mem, this`rsp
      ensures mem == PushRegs(old(mem), old(rsp), regs) && rsp == old(rsp) - 6
    {
      Push(regs.rbx);
      Push(regs.rbp);
      Push(regs.r12);
      Push(regs.r13);
      Push(regs.r14);
      Push(regs.r15);
    }

    method PopAll()
      modifies this`regs, this`rsp, this`pc
      ensures rsp == old(rsp) + 7
      ensures forall top :: rsp <= top ==> Context(regs, rsp, pc, Image(mem, rsp, top)) == SavedAt(mem, old(rsp), top)
    {
      hide Image;
      var r15 := Pop();
      var r14 := Pop();
      var r13 := Pop();
      var r12 := Pop();
      var rbp := Pop();
      var rbx := Pop();
      regs := Regs(rbx, rbp, r12, r13, r14, r15);
      pc := Pop();
    }

    /** Save the callee-saved registers on the stack of task `from` and restore those below `newRsp`. */
    method SwitchTask(from: nat, newRsp: nat)
      requires from < tasks.Length && rsp >= 6
      modifies this`mem, this`regs, this`rsp, this`pc, tasks
      ensures mem == PushRegs(old(mem), old(rsp), old(regs))
      ensures tasks[..] == old(tasks[..])[from := old(tasks[from]).(rsp := old(rsp) - 6)]
      ensures rsp == newRsp + 7
      ensures forall top :: rsp <= top ==> Context(regs, rsp, pc, Image(mem, rsp, top)) == SavedAt(mem, newRsp, top)
    {
      hide Image, SavedAt, PushRegs;
      PushAll();
      tasks[from] := tasks[from].(rsp := rsp);
      rsp := newRsp;
      PopAll();
    }

    /** The lowest free slot above 0, or the table's length. */
    method FindFree() returns (i: nat)
      requires tasks.Length > 0
      ensures 1 <= i && (i >= tasks.Length || tasks[i].state == 0)
      ensures forall j :: 1 <= j < i && j < tasks.Length ==> tasks[j].state != 0
    {
      i := 1;
      while i < tasks.Length && tasks[i].state != 0
        invariant 1 <= i && forall j :: 1 <= j < i && j < tasks.Length ==> tasks[j].state != 0
      {
        i := i + 1;
      }
    }

    lemma SameLength()
      requires Valid()
      ensures current < tasks.Length == |stacks| == |contexts|
    {
    }

    /** Lay out the stack of a new task below `top`. */
    method BuildStack(top: nat, entry: nat) returns (stack: nat)
      requires top >= 9
      modifies this`mem
      ensures stack == top - 9 && mem == NewStack(old(mem), top, entry)
    {
      stack := top - 1;
      mem := mem[stack := TASK_EXIT]; // where a finished task goes
      stack := stack - 1;
      mem := mem[stack := entry]; // where TaskStart goes
      stack := stack - 1;
      mem := mem[stack := TASK_START]; // where the first switch goes
      ghost var m := mem;
      var j := 0;
      while j < 6
        invariant 0 <= j <= 6 && stack == top - 3 - j && mem == PushZeros(m, top - 3, j)
      {
        stack := stack - 1;
        mem := mem[stack := 0];
        j := j + 1;
      }
      SixZeros(m, top - 3);
    }

    /** Start a task in the lowest free slot; -1 when there is none. The new task is suspended at its entry
        exactly when that slot is not the running one. */
    method TaskCreate(entry: nat) returns (r: int)
      requires Valid()
      requires frames != [] || forall i :: 1 <= i < tasks.Length ==> tasks[i].state != 0
      modifies this`mem, this`frames, this`stacks, this`contexts, tasks
      ensures Valid()
      ensures r == -1 <==> forall i :: 1 <= i < tasks.Length ==> old(tasks[i].state) != 0
      ensures r == -1 ==> mem == old(mem) && frames == old(frames) && tasks[..] == old(tasks[..])
      ensures r != -1 ==>
                && 1 <= r < tasks.Length && old(tasks[r].state) == 0 && tasks[r].state == 1
                && (forall j :: 1 <= j < r ==> old(tasks[j].state) != 0)
                && frames == old(frames)[1..]
                && (Suspended(r) && contexts[r] == NewContext(old(frames)[0] + 512, entry) <==> r != current)
                && (r != current ==> stacks[r] == Region(old(frames)[0], old(frames)[0] + 512))
                && (r == current ==> stacks == old(stacks) && contexts == old(contexts))
      ensures forall j: nat :: j < tasks.Length && j != r ==>
                tasks[j] == old(tasks[j]) && stacks[j] == old(stacks)[j] && contexts[j] == old(contexts)[j]
    {
      hide Restorable, Separate, NewStack;
      SameLength();
      var i := FindFree();
      if i >= tasks.Length {
        return -1;
      }
      var top := frames[0] + FRAME_WORDS;
      if i == current {
        CreateOverKeeps(mem, tasks[..], current, stacks, contexts, frames, entry);
      } else {
        CreateKeeps(mem, tasks[..], current, stacks, contexts, frames, i, entry);
      }
      var stack := BuildStack(top, entry);
      tasks[i] := Task(stack, 1);
      assert tasks[..] == old(tasks[..])[i := Task(stack, 1)];
      if i != current {
        stacks := stacks[i := FrameAt(frames[0])];
        contexts := contexts[i := NewContext(top, entry)];
      }
      frames := frames[1..];
      return i;
    }

    /** A task is created and the processor switched. The slot then holds the new task exactly when it was
        not the running one; otherwise it resumes the exited task that was running there. */
    method CreateThenSchedule(entry: nat, ret: nat) returns (r: int)
      requires Valid() && taskingOn && stacks[current].lo + 7 <= rsp && ret != TASK_START
      requires frames != [] || forall i :: 1 <= i < tasks.Length ==> tasks[i].state != 0
      modifies this, tasks
      ensures Valid() && current < tasks.Length
      ensures r == -1 <==> forall i :: 1 <= i < tasks.Length ==> old(tasks[i].state) != 0
      ensures IsNext(Ready(), old(current), current)
      ensures forall i :: 0 <= i < tasks.Length ==> tasks[i].state == if i == r then 1 else old(tasks[i].state)
      ensures r != -1 && current != old(current) ==>
                && 1 <= r < tasks.Length && tasks[r].state == 1
                && (contexts[r] == NewContext(old(frames)[0] + 512, entry) <==> r != old(current))
                && (r == old(current) ==>
                      contexts[r].regs == old(regs) && contexts[r].rsp == old(rsp) && contexts[r].pc == ret)
      ensures r != -1 ==>
                (r == old(current) <==>
                   old(current) != 0 && old(tasks[current].state) == 0
                   && forall j :: 1 <= j < old(current) ==> old(tasks[j].state) != 0)
    {
      hide Restorable, Separate, SavedAt, Image, IsNext;
      SameLength();
      r := TaskCreate(entry);
      SameLength();
      ghost var made, left := contexts, Running(ret);
      ghost var from, ready := current, Ready();
      Schedule(ret);
      assert Ready() == ready;
      if r != -1 && current != from {
        assert contexts == made[from := left];
        assert r != from ==> contexts[r] == made[r];
        assert r == from ==> contexts[r] == left && left.pc != TASK_START;
      }
    }

    /** task_exit: the slot is free, and what runs in it idles on its stack until the next schedule. */
    method TaskExit()
      requires Valid()
      modifies tasks
      ensures Valid() && tasks[..] == old(tasks[..])[current := old(tasks[current]).(state := 0)]
    {
      hide Holds, Apart;
      tasks[current] := tasks[current].(state := 0);
      ghost var ts := old(tasks[..]);
      assert tasks[..] == ts[current := ts[current].(state := 0)];
      assert forall j: nat :: IsSuspended(tasks[..], current, j) ==> IsSuspended(ts, current, j);
      assert forall j: nat :: IsLive(tasks[..], current, j) ==> IsLive(ts, current, j);
    }

    /** task_start: its ret takes the entry point off the new stack. */
    method TaskStart()
      requires Valid() && pc == TASK_START && rsp < stacks[current].hi
      modifies this`rsp, this`pc
      ensures Valid()
      ensures pc == old(Running(pc)).stack[0] && Running(pc).stack == old(Running(pc)).stack[1..]
    {
      pc := Pop();
    }

    /** What a task does on its own: anything to its registers and its stack, and to memory that is no
        live task's stack. */
    method Compute(regs: Regs, rsp: nat, pc: nat, mem: Memory)
      requires Valid() && stacks[current].lo <= rsp <= stacks[current].hi
      requires forall i: nat :: Suspended(i) ==> SameOn(this.mem, mem, stacks[i])
      modifies this`regs, this`rsp, this`pc, this`mem
      ensures Valid() && this.regs == regs && this.rsp == rsp && this.pc == pc && this.mem == mem
    {
      hide Holds, Apart, SameOn;
      forall i: nat | Suspended(i) ensures Holds(mem, tasks[i].rsp, stacks[i], contexts[i]) {
        HoldsFrame(this.mem, mem, tasks[i].rsp, stacks[i], contexts[i]);
      }
      this.regs, this.rsp, this.pc, this.mem := regs, rsp, pc, mem;
    }

    /** The search loop of schedule. */
    method FindNext() returns (next: nat)
      requires current < tasks.Length
      ensures IsNext(Ready(), current, next)
    {
      SuccIsMod(current, tasks.Length);
      next := (current + 1) % tasks.Length;
      while tasks[next].state != 1 && next != current
        invariant next < tasks.Length
        invariant forall j :: 0 <= j < tasks.Length && Ready()[j] ==>
                  Distance(current, next, tasks.Length) <= Distance(current, j, tasks.Length)
        decreases tasks.Length - Distance(current, next, tasks.Length)
      {
        assert !Ready()[next];
        SuccIsMod(next, tasks.Length);
        next := (next + 1) % tasks.Length;
      }
    }

    method SwitchTo(next: nat, ret: nat)
      requires Valid() && stacks[current].lo + 7 <= rsp && Suspended(next)
      modifies this`mem, this`regs, this`rsp, this`pc, this`current, this`contexts, tasks
      ensures Valid() && current == next
      ensures Running(pc) == old(contexts)[next]
      ensures contexts == old(contexts)[old(current) := old(Running(ret))]
      ensures tasks[..] == old(tasks[..])[old(current) := old(tasks[current]).(rsp := old(rsp) - 7)]
    {
      hide Restorable, Separate, PushRegs, Image, SavedAt;
      SameLength();
      ghost var ts := tasks[..];
      SwitchKeeps(mem, ts, current, stacks, contexts, frames, rsp, ret, regs, next);
      var from := current;
      ghost var saved := Running(ret);
      current := next;
      Push(ret); // the call pushes its return address
      SwitchTask(from, tasks[next].rsp);
      contexts := contexts[from := saved];
      assert tasks[..] == ts[from := ts[from].(rsp := old(rsp) - 7)];
    }

    /** Give the processor to the next ready task; the caller continues at `ret` when it is resumed. */
    method Schedule(ret: nat)
      requires Valid() && stacks[current].lo + 7 <= rsp
      modifies this`mem, this`regs, this`rsp, this`pc, this`current, this`contexts, tasks
      ensures Valid()
      ensures if old(taskingOn) then IsNext(old(Ready()), old(current), current) else current == old(current)
      ensures current == old(current) ==>
                pc == ret && mem == old(mem) && regs == old(regs) && rsp == old(rsp)
                && contexts == old(contexts) && tasks[..] == old(tasks[..])
      ensures current != old(current) ==>
                && IsSuspended(old(tasks[..]), old(current), current) && Running(pc) == old(contexts)[current]
                && contexts == old(contexts)[old(current) := old(Running(ret))]
      ensures forall i: nat :: i < tasks.Length ==> tasks[i].state == old(tasks[i].state)
      ensures forall i: nat :: i < tasks.Length && i != old(current) ==> tasks[i] == old(tasks[i])
    {
      hide Restorable, Separate, Image, IsNext;
      SameLength();
      if !taskingOn {
        pc := ret;
        return;
      }
      var next := FindNext();
      NextIsReady(Ready(), current, next);
      if next == current {
        pc := ret;
        return;
      }
      SwitchTo(next, ret);
    }

    /** Whether the machine can take a step here. */
    predicate Enabled(op: Op)
      requires Valid()
      reads this, tasks
    {
      match op
      case Compute(_, sp, _, m) =>
        && stacks[current].lo <= sp <= stacks[current].hi
        && forall i: nat :: i < tasks.Length && Suspended(i) ==> SameOn(mem, m, stacks[i])
      case Create(_) =>
        frames != [] || forall i :: 1 <= i < tasks.Length ==> tasks[i].state != 0
      case Exit => true
      case Start => pc == TASK_START && rsp < stacks[current].hi
      case Yield(_) => stacks[current].lo + 7 <= rsp
    }

    /** What the scheduling history records of a state. */
    ghost function Seen(): Shot
      requires Valid()
      reads this, tasks
    {
      Shot(tasks[..], current, contexts, Running(pc), stacks, frames, mem)
    }

    method CreateStep(entry: nat)
      requires Valid() && (frames != [] || NoneFree(tasks[..]))
      modifies this, tasks
      ensures Valid() && Follows(old(Seen()), Seen()) && taskingOn == old(taskingOn)
      ensures Scheduled(false, old(Seen()), Seen()) && Acts(Op.Create(entry), old(Seen()), Seen())
    {
      hide Restorable, Separate, SavedAt, Image, MadeIn;
      SameLength();
      var slot := TaskCreate(entry);
      SameLength();
      if slot == -1 {
        assert tasks[..] == old(tasks[..]);
      } else {
        NewTaskMade(old(Seen()), Seen(), entry, slot, if slot != current then old(frames)[0] + FRAME_WORDS else 2);
        assert IsLowestFree(old(tasks[..]), slot) && MadeIn(old(Seen()), Seen(), entry, slot);
      }
    }

    method YieldStep(ret: nat)
      requires Valid() && stacks[current].lo + 7 <= rsp
      modifies this, tasks
      ensures Valid() && Follows(old(Seen()), Seen()) && taskingOn == old(taskingOn)
      ensures taskingOn ==> Scheduled(true, old(Seen()), Seen())
      ensures Acts(Op.Yield(ret), old(Seen()), Seen())
    {
      hide Restorable, Separate, SavedAt, Image, IsNext;
      SameLength();
      Schedule(ret);
      SameLength();
      assert ReadyIn(old(tasks[..])) == old(Ready());
    }

    method Step(op: Op)
      requires Valid() && Enabled(op)
      modifies this, tasks
      ensures Valid() && Follows(old(Seen()), Seen()) && taskingOn == old(taskingOn)
      ensures taskingOn ==> Scheduled(op.Yield?, old(Seen()), Seen())
      ensures Acts(op, old(Seen()), Seen()) && Born(op, old(Seen()), Seen())
    {
      hide Restorable, Separate, SavedAt, Image, Born;
      SameLength();
      match op {
        case Compute(r, sp, at, m) =>
          Compute(r, sp, at, m);
        case Create(entry) =>
          CreateStep(entry);
        case Exit =>
          TaskExit();
        case Start =>
          ImageLength(mem, rsp, stacks[current].hi);
          TaskStart();
        case Yield(ret) =>
          YieldStep(ret);
      }
      SameLength();
      ActsBorn(op, old(Seen()), Seen());
    }

    lemma SeesEnabled(op: Op)
      requires Valid()
      ensures Enabled(op) <==> CanTake(Seen(), op)
    {
      hide SameOn, Restorable, Separate, Image;
      SameLength();
    }

    /** A run of steps; exactly those that the machine cannot take where they come are passed over. What is
        seen on the way is a scheduling history: a created task first gets the processor in task_start with
        its entry and above it task_exit; a task that gets the processor back finds it as it left it; and a
        task that stays ready while the scheduler is called as often as there are slots gets its turn. */
    method Run(ops: seq<Op>) returns (ghost shots: seq<Shot>, ghost calls: seq<bool>, ghost taken: seq<Op>)
      requires Valid() && taskingOn
      modifies this, tasks
      ensures Valid() && taskingOn
      ensures |shots| == |calls| + 1 == |taken| + 1 && shots[0] == old(Seen()) && shots[|calls|] == Seen()
      ensures IsHistory(shots) && IsSchedule(shots, calls) && TakenOf(shots, taken, ops)
      ensures forall k :: 0 <= k < |calls| ==> calls[k] == taken[k].Yield?
      ensures forall j, k, t: nat {:trigger Comes(shots, j, k, t)} :: Comes(shots, j, k, t) ==>
                && taken[j].Create? && shots[k].running.pc == TASK_START
                && shots[k].running.stack == [taken[j].entry, TASK_EXIT]
      ensures forall j, k, t: nat {:trigger Returns(shots, j, k, t)} :: Returns(shots, j, k, t) ==>
                shots[k].running.(pc := shots[j].running.pc) == shots[j].running
      ensures forall t: nat {:trigger StaysReady(shots, t)} ::
                StaysReady(shots, t) && CallCount(calls) >= tasks.Length ==>
                exists k :: 1 <= k < |shots| && shots[k].current == t
    {
      hide Separate, Restorable, Follows, Scheduled, Enabled, SavedAt, Image, IsHistory, IsSchedule, StaysReady;
      hide Acts, Born, CanTake, TakenOf;
      shots, calls, taken := [Seen()], [], [];
      NoneTaken(shots, ops);
      SameLength();
      OneShot(Seen());
      var i := 0;
      while i < |ops|
        invariant 0 <= i <= |ops| && Valid() && taskingOn && |shots| == |calls| + 1
        invariant shots[0] == old(Seen()) && shots[|calls|] == Seen() && |shots[0].ts| == tasks.Length
        invariant IsHistory(shots) && IsSchedule(shots, calls)
        invariant |taken| == |calls| && TakenOf(shots, taken, ops[..i])
        invariant forall k :: 0 <= k < |calls| ==> calls[k] == taken[k].Yield?
        invariant forall k {:trigger taken[k]} :: 0 <= k < |taken| ==> Born(taken[k], shots[k], shots[k + 1])
      {
        SeesEnabled(ops[i]);
        if Enabled(ops[i]) {
          Step(ops[i]);
          HistoryGrows(shots, Seen());
          ScheduleGrows(shots, calls, Seen(), ops[i].Yield?);
          OneTaken(shots, taken, ops, i, Seen());
          BornGrows(shots, taken, Seen(), ops[i]);
          shots, calls, taken := shots + [Seen()], calls + [ops[i].Yield?], taken + [ops[i]];
        } else {
          OnePassed(shots, taken, ops, i);
        }
        i := i + 1;
      }
      assert ops[..i] == ops;
      forall j, k, t: nat | Comes(shots, j, k, t)
        ensures taken[j].Create? && shots[k].running.pc == TASK_START
        ensures shots[k].running.stack == [taken[j].entry, TASK_EXIT]
      {
        ComesInside(shots, j, k, t);
        assert Born(taken[j], shots[j], shots[j + 1]);
        FirstRun(shots, j, k, t, taken[j]);
      }
      forall j, k, t: nat | Returns(shots, j, k, t)
        ensures shots[k].running.(pc := shots[j].running.pc) == shots[j].running
      {
        ResumedInHistory(shots, j, k, t);
      }
      forall t: nat | StaysReady(shots, t) && CallCount(calls) >= tasks.Length
        ensures exists k :: 1 <= k < |shots| && shots[k].current == t
      {
        TakesTurnInTime(shots, calls, t);
      }
    }
  }

  datatype Op =
    | Compute(regs: Regs, rsp: nat, pc: nat, mem: Memory)
    | Create(entry: nat)
    | Exit
    | Start
    | Yield(ret: nat)

  datatype Shot = Shot(ts: seq<Task>, current: nat, contexts: seq<Context>, running: Context,
                       stacks: seq<Region>, frames: seq<nat>, mem: Memory)

  /** Whether the machine can take a step where a shot was taken. */
  ghost predicate CanTake(s: Shot, op: Op)
  {
    s.current < |s.ts| == |s.stacks| &&
    match op
    case Compute(_, sp, _, m) =>
      && s.stacks[s.current].lo <= sp <= s.stacks[s.current].hi
      && forall i: nat :: IsSuspended(s.ts, s.current, i) ==> SameOn(s.mem, m, s.stacks[i])
    case Create(_) => s.frames != [] || NoneFree(s.ts)
    case Exit => true
    case Start => s.running.pc == TASK_START && s.running.rsp < s.stacks[s.current].hi
    case Yield(_) => s.stacks[s.current].lo + 7 <= s.running.rsp
  }

  predicate NoneFree(ts: seq<Task>)
  {
    forall i :: 1 <= i < |ts| ==> ts[i].state != 0
  }

  predicate IsLowestFree(ts: seq<Task>, r: nat)
  {
    1 <= r < |ts| && ts[r].state == 0 && forall i :: 1 <= i < r ==> ts[i].state != 0
  }

  /** A new task in slot `r`, suspended at its entry unless it is the running slot. */
  ghost predicate MadeIn(a: Shot, b: Shot, entry: nat, r: nat)
  {
    && |b.ts| == |a.ts| && r < |a.ts| && r < |b.contexts|
    && b.ts[r].state == 1 && (forall j :: 0 <= j < |a.ts| && j != r ==> b.ts[j] == a.ts[j])
    && (r != a.current ==> b.contexts[r].pc == TASK_START && b.contexts[r].stack == [entry, TASK_EXIT])
  }

  /** What each kind of step does. */
  ghost predicate Acts(op: Op, a: Shot, b: Shot)
  {
    match op
    case Compute(r, sp, at, m) =>
      b.ts == a.ts && b.running.regs == r && b.running.rsp == sp && b.running.pc == at && b.mem == m
    case Create(entry) =>
      if NoneFree(a.ts) then b.ts == a.ts else exists r :: IsLowestFree(a.ts, r) && MadeIn(a, b, entry, r)
    case Exit =>
      && a.current < |a.ts| && b.running == a.running
      && b.ts == a.ts[a.current := a.ts[a.current].(state := 0)]
    case Start =>
      && b.ts == a.ts && a.running.stack != []
      && b.running.pc == a.running.stack[0] && b.running.stack == a.running.stack[1..]
    case Yield(ret) =>
      && a.current < |b.contexts| && |b.ts| == |a.ts|
      && (forall j :: 0 <= j < |a.ts| ==> b.ts[j].state == a.ts[j].state)
      && (if b.current == a.current then b.running else b.contexts[a.current]) == a.running.(pc := ret)
  }

  /** The steps taken of `ops` are `taken`: each was possible where it came, and those passed over were not. */
  ghost predicate TakenOf(shots: seq<Shot>, taken: seq<Op>, ops: seq<Op>)
    decreases |ops|
  {
    |shots| == |taken| + 1 &&
    if ops == [] then taken == []
    else
      var n, before, op := |taken|, ops[..|ops| - 1], ops[|ops| - 1];
      || (!CanTake(shots[n], op) && TakenOf(shots, taken, before))
      || (&& n > 0 && taken[n - 1] == op && CanTake(shots[n - 1], op) && Acts(op, shots[n - 1], shots[n])
          && TakenOf(shots[..n], taken[..n - 1], before))
  }

  /** Slot `t` comes into being between shots `j` and `j + 1` and has the processor for the first time in
      shot `k`. */
  ghost predicate Comes(shots: seq<Shot>, j: int, k: int, t: nat)
  {
    && 0 <= j && j + 1 < k < |shots| && shots[j].current != t && shots[k].current == t
    && !IsSuspended(shots[j].ts, shots[j].current, t) && IsSuspended(shots[j + 1].ts, shots[j + 1].current, t)
    && (forall i :: j < i < k ==> shots[i].current != t)
  }

  /** Only creation brings a slot into being that was not running. */
  ghost predicate Born(op: Op, a: Shot, b: Shot)
  {
    forall t: nat :: IsSuspended(b.ts, b.current, t) && !IsSuspended(a.ts, a.current, t) && t != a.current ==>
      && op.Create? && t < |b.contexts|
      && b.contexts[t].pc == TASK_START && b.contexts[t].stack == [op.entry, TASK_EXIT]
  }

  lemma NewTaskMade(a: Shot, b: Shot, entry: nat, r: nat, top: nat)
    requires |b.ts| == |a.ts| && r < |a.ts| && r < |b.contexts| && top >= 2 && b.ts[r].state == 1
    requires forall j :: 0 <= j < |a.ts| && j != r ==> b.ts[j] == a.ts[j]
    requires r != a.current ==> b.contexts[r] == NewContext(top, entry)
    ensures MadeIn(a, b, entry, r)
  {
  }

  lemma ActsBorn(op: Op, a: Shot, b: Shot)
    requires Acts(op, a, b)
    ensures Born(op, a, b)
  {
  }

  /** A created task first gets the processor in task_start, with its entry and above it task_exit. */
  lemma FirstRun(shots: seq<Shot>, j: nat, k: nat, t: nat, op: Op)
    requires IsHistory(shots) && Comes(shots, j, k, t) && Born(op, shots[j], shots[j + 1])
    ensures op.Create? && shots[k].running.pc == TASK_START && shots[k].running.stack == [op.entry, TASK_EXIT]
  {
    hide Follows;
    var waiting := shots[j + 1..k];
    HistorySlice(shots, j + 1, k - 1);
    BornSize(shots, j);
    forall i | 0 <= i < |waiting| ensures waiting[i].current != t { assert waiting[i] == shots[j + 1 + i]; }
    StaysSuspended(waiting, t);
    assert waiting[|waiting| - 1] == shots[k - 1] && waiting[0] == shots[j + 1];
    Dispatched(shots, k);
  }

  lemma ComesInside(shots: seq<Shot>, j: int, k: int, t: nat)
    requires Comes(shots, j, k, t)
    ensures 0 <= j && j + 1 < k < |shots|
  {
  }

  lemma NoneTaken(shots: seq<Shot>, ops: seq<Op>)
    requires |shots| == 1
    ensures TakenOf(shots, [], ops[..0])
  {
  }

  lemma OneTaken(shots: seq<Shot>, taken: seq<Op>, ops: seq<Op>, i: nat, s: Shot)
    requires i < |ops| && TakenOf(shots, taken, ops[..i]) && CanTake(shots[|taken|], ops[i])
    requires Acts(ops[i], shots[|taken|], s)
    ensures TakenOf(shots + [s], taken + [ops[i]], ops[..i + 1])
  {
    hide CanTake, Acts;
    assert ops[..i + 1][..i] == ops[..i];
    assert (shots + [s])[..|shots|] == shots && (taken + [ops[i]])[..|taken|] == taken;
  }

  lemma OnePassed(shots: seq<Shot>, taken: seq<Op>, ops: seq<Op>, i: nat)
    requires i < |ops| && TakenOf(shots, taken, ops[..i]) && !CanTake(shots[|taken|], ops[i])
    ensures TakenOf(shots, taken, ops[..i + 1])
  {
    hide CanTake, Acts;
    assert ops[..i + 1][..i] == ops[..i];
  }

  lemma BornGrows(shots: seq<Shot>, taken: seq<Op>, s: Shot, op: Op)
    requires |shots| == |taken| + 1 && Born(op, shots[|taken|], s)
    requires forall k {:trigger taken[k]} :: 0 <= k < |taken| ==> Born(taken[k], shots[k], shots[k + 1])
    ensures var shots', taken' := shots + [s], taken + [op];
            forall k {:trigger taken'[k]} :: 0 <= k < |taken'| ==> Born(taken'[k], shots'[k], shots'[k + 1])
  {
    hide Born;
  }

  lemma BornSize(shots: seq<Shot>, j: nat)
    requires IsHistory(shots) && j + 1 < |shots|
    ensures |shots[j + 1].ts| == |shots[j + 1].contexts|
  {
    assert Follows(shots[j], shots[j + 1]);
  }

  lemma Dispatched(shots: seq<Shot>, k: nat)
    requires IsHistory(shots) && 1 <= k < |shots| && shots[k].current != shots[k - 1].current
    ensures shots[k].current < |shots[k - 1].contexts|
    ensures shots[k].running == shots[k - 1].contexts[shots[k].current]
  {
    assert Follows(shots[k - 1], shots[k]);
  }

  /** What every step keeps: a suspended task that stays off the processor keeps its context; a task that
      gets the processor continues from its context; a task that loses it leaves one to come back to,
      with its registers, stack pointer and stack. */
  ghost predicate Follows(a: Shot, b: Shot)
  {
    && |a.ts| == |a.contexts| == |b.ts| == |b.contexts| && a.current < |a.ts| && b.current < |b.ts|
    && (forall i: nat :: IsSuspended(a.ts, a.current, i) && i != b.current ==>
       IsSuspended(b.ts, b.current, i) && b.contexts[i] == a.contexts[i])
    && (b.current != a.current ==>
          && IsSuspended(a.ts, a.current, b.current) && b.running == a.contexts[b.current]
          && b.contexts[a.current].(pc := a.running.pc) == a.running)
  }

  ghost predicate IsHistory(shots: seq<Shot>)
  {
    forall k {:trigger shots[k]} :: 1 <= k < |shots| ==> Follows(shots[k - 1], shots[k])
  }

  lemma {:induction false} StaysSuspended(shots: seq<Shot>, t: nat)
    requires |shots| > 0 && IsHistory(shots) && IsSuspended(shots[0].ts, shots[0].current, t) && t < |shots[0].contexts|
    requires forall k :: 0 <= k < |shots| ==> shots[k].current != t
    ensures var last := shots[|shots| - 1];
            && IsSuspended(last.ts, last.current, t)
            && t < |last.contexts| && last.contexts[t] == shots[0].contexts[t]
  {
    if |shots| > 1 {
      var rest := shots[1..];
      assert Follows(shots[0], shots[1]);
      forall k | 1 <= k < |rest| ensures Follows(rest[k - 1], rest[k]) {
        assert rest[k] == shots[k + 1] && rest[k - 1] == shots[k];
      }
      StaysSuspended(shots[1..], t);
    }
  }

  /** Over any run, a task that is switched away from while ready and later gets the processor back finds
      the registers, stack pointer and stack contents it had. */
  lemma ResumedAsLeft(shots: seq<Shot>, t: nat)
    requires |shots| > 2 && IsHistory(shots) && shots[0].current == t && shots[|shots| - 1].current == t
    requires forall k :: 0 < k < |shots| - 1 ==> shots[k].current != t
    requires t < |shots[1].ts| && shots[1].ts[t].state == 1
    ensures shots[|shots| - 1].running.(pc := shots[0].running.pc) == shots[0].running
  {
    var n := |shots| - 1;
    var away := shots[1..n];
    assert Follows(shots[0], shots[1]) && Follows(shots[n - 1], shots[n]);
    forall k | 1 <= k < |away| ensures Follows(away[k - 1], away[k]) {
      assert away[k] == shots[k + 1] && away[k - 1] == shots[k];
    }
    StaysSuspended(away, t);
  }

  /** Task `t` runs in shot `j`, is switched away from while ready, and has the processor back in shot `k`. */
  ghost predicate Returns(shots: seq<Shot>, j: int, k: int, t: nat)
  {
    && 0 <= j && j + 2 <= k < |shots| && shots[j].current == t && shots[k].current == t
    && (forall i :: j < i < k ==> shots[i].current != t)
    && t < |shots[j + 1].ts| && shots[j + 1].ts[t].state == 1
  }

  lemma HistorySlice(shots: seq<Shot>, j: nat, k: nat)
    requires IsHistory(shots) && j <= k < |shots|
    ensures IsHistory(shots[j..k + 1])
  {
    hide Follows;
    var part := shots[j..k + 1];
    forall i | 1 <= i < |part| ensures Follows(part[i - 1], part[i]) {
      assert part[i] == shots[j + i] && part[i - 1] == shots[j + i - 1];
    }
  }

  lemma ResumedInHistory(shots: seq<Shot>, j: nat, k: nat, t: nat)
    requires IsHistory(shots) && Returns(shots, j, k, t)
    ensures shots[k].running.(pc := shots[j].running.pc) == shots[j].running
  {
    hide Follows;
    HistorySlice(shots, j, k);
    ResumedAsLeft(shots[j..k + 1], t);
  }

  lemma HistoryGrows(shots: seq<Shot>, s: Shot)
    requires |shots| > 0 && IsHistory(shots) && Follows(shots[|shots| - 1], s)
    ensures IsHistory(shots + [s])
  {
    hide Follows;
  }

  // ---- turns ----

  ghost function ReadyIn(ts: seq<Task>): seq<bool>
  {
    seq(|ts|, i requires 0 <= i < |ts| => ts[i].state == 1)
  }

  /** Only a call of schedule moves the processor, and it moves it to the next ready slot. */
  ghost predicate Scheduled(calls: bool, a: Shot, b: Shot)
  {
    && a.current < |a.ts| == |b.ts|
    && if calls then IsNext(ReadyIn(a.ts), a.current, b.current) else b.current == a.current
  }

  ghost predicate IsSchedule(shots: seq<Shot>, calls: seq<bool>)
  {
    |shots| == |calls| + 1 &&
    forall k {:trigger shots[k]} :: 1 <= k < |shots| ==> Scheduled(calls[k - 1], shots[k - 1], shots[k])
  }

  lemma ScheduleGrows(shots: seq<Shot>, calls: seq<bool>, s: Shot, call: bool)
    requires IsSchedule(shots, calls) && Scheduled(call, shots[|shots| - 1], s)
    ensures IsSchedule(shots + [s], calls + [call])
  {
    hide Scheduled;
  }

  lemma OneShot(s: Shot)
    ensures IsHistory([s]) && IsSchedule([s], [])
  {
  }

  ghost function CallCount(calls: seq<bool>): nat
  {
    if calls == [] then 0 else (if calls[0] then 1 else 0) + CallCount(calls[1..])
  }

  ghost predicate StaysReady(shots: seq<Shot>, t: nat)
  {
    forall k :: 0 <= k < |shots| ==> t < |shots[k].ts| && shots[k].ts[t].state == 1
  }

  /** A task that stays ready has the processor after as many calls of schedule as it is slots away. */
  lemma {:induction false} TakesTurn(shots: seq<Shot>, calls: seq<bool>, t: nat)
    requires IsSchedule(shots, calls) && StaysReady(shots, t) && shots[0].current < |shots[0].ts|
    requires CallCount(calls) >= Distance(shots[0].current, t, |shots[0].ts|)
    ensures exists k :: 1 <= k < |shots| && shots[k].current == t
    decreases |calls|
  {
    var n := |shots[0].ts|;
    assert calls != [];
    assert Scheduled(calls[0], shots[0], shots[1]);
    if shots[1].current != t {
      if calls[0] {
        CallApproaches(ReadyIn(shots[0].ts), shots[0].current, shots[1].current, t);
      }
      var rest := shots[1..];
      forall k | 1 <= k < |rest| ensures Scheduled(calls[1..][k - 1], rest[k - 1], rest[k]) {
        assert rest[k] == shots[k + 1] && rest[k - 1] == shots[k];
      }
      TakesTurn(rest, calls[1..], t);
      var k :| 1 <= k < |rest| && rest[k].current == t;
      assert shots[k + 1].current == t;
    }
  }

  lemma TakesTurnInTime(shots: seq<Shot>, calls: seq<bool>, t: nat)
    requires |shots| > 0 && IsSchedule(shots, calls) && StaysReady(shots, t) && shots[0].current < |shots[0].ts|
    requires CallCount(calls) >= |shots[0].ts|
    ensures exists k :: 1 <= k < |shots| && shots[k].current == t
  {
    assert t < |shots[0].ts|;
    TakesTurn(shots, calls, t);
  }

  /** A machine on which a new task is lost: the task in the one free slot exits, and before the processor is
      switched another is created there. */
  method ExitedSlotIsReused() returns (m: Machine, lost: int)
    ensures m.Valid() && lost == 1 && m.tasks.Length == 2 && m.tasks[1].state == 1 && m.current == 0
    ensures m.contexts[1].pc == 5 != TASK_START
  {
    hide Separate, Restorable, SavedAt, Image, IsNext;
    m := new Machine(2, map[], Regs(0, 0, 0, 0, 0, 0), 100, Region(0, 100), [1000, 2000]);
    m.SameLength();
    assert m.tasks[1].state == 0;
    var first := m.TaskCreate(7);
    m.SameLength();
    assert first == 1 && m.Ready() == [true, true];
    OtherOfTwo(0);
    m.Schedule(5);
    m.SameLength();
    m.TaskExit();
    m.SameLength();
    assert m.current == 1 && m.tasks[1].state == 0;
    lost := m.CreateThenSchedule(8, 5);
    OtherOfTwo(1);
    assert m.Ready() == [true, true];
  }

  lemma OtherOfTwo(current: nat)
    requires current < 2
    ensures forall next: nat :: IsNext([true, true], current, next) ==> next == 1 - current
  {
    forall next: nat | IsNext([true, true], current, next) ensures next == 1 - current {
      assert [true, true][1 - current];
    }
  }
}
