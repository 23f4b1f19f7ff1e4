/** Interactive processes (pty version): what ties them to buffers, and how their deaths are noticed. */
module Iproc {

  datatype IoState = New | Running | Eofed

  datatype ChildState = Live | Stopped | Exited(code: int) | Killed(sig: int)

  /** What wait says of a child. */
  datatype Status = WStopped | WExited(code: int) | WSignaled(sig: int) | WOther

  datatype Change = Change(pid: int, status: Status)

  /** What a read from a pty gives.  `retry`: the error is one that a pty may give before its first output. */
  datatype ReadResult = Data(text: string) | EndOfFile | ReadError(retry: bool, message: string)

  /** What select says of one pty. */
  datatype Poll = Ready(r: ReadResult, early: bool) | Interrupted | Nothing

  /** What was put into a buffer. */
  datatype Note = Output(text: string) | Obituary(state: ChildState)

  predicate ChildDead(c: ChildState) { c.Exited? || c.Killed? }

  function StateOf(w: Status): ChildState {
    match w
    case WStopped => Stopped
    case WExited(code) => Exited(code)
    case WSignaled(sig) => Killed(sig)
    case WOther => Exited(0)
  }

  class Buffer {
    var b_process: Process?
    var notes: seq<Note>

    constructor ()
      ensures b_process == null && notes == []
    {
      b_process, notes := null, [];
    }
  }

  class Process {
    var p_fd: int
    const p_pid: int
    var p_buffer: Buffer?
    var p_io_state: IoState
    var p_child_state: ChildState

    constructor (fd: int, pid: int, buffer: Buffer)
      ensures p_fd == fd && p_pid == pid && p_buffer == buffer && p_io_state == New && p_child_state == Live
    {
      p_fd, p_pid, p_buffer, p_io_state, p_child_state := fd, pid, buffer, New, Live;
    }

    predicate Dead()
      reads this`p_io_state, this`p_child_state
    {
      p_io_state == Eofed && ChildDead(p_child_state)
    }
  }

  /** No child is heard of after its end; `gone` are those that have ended. */
  ghost predicate Sensible(gone: set<int>, changes: seq<Change>)
    decreases |changes|
  {
    changes == [] || (changes[0].pid !in gone
      && Sensible(if changes[0].status.WStopped? then gone else gone + {changes[0].pid}, changes[1..]))
  }

  ghost predicate Distinct(ps: seq<Process>) {
    forall i, j :: 0 <= i < j < |ps| ==> ps[i] != ps[j]
  }

  lemma DistinctWithout(ps: seq<Process>, i: nat)
    requires Distinct(ps) && i < |ps|
    ensures var rest := ps[..i] + ps[i + 1..]; Distinct(rest) && ps[i] !in rest && forall q :: q in rest <==> q in ps && q != ps[i]
  {
    var rest := ps[..i] + ps[i + 1..];
    forall j | 0 <= j < |rest| ensures rest[j] == ps[if j < i then j else j + 1] && rest[j] != ps[i] {}
    forall j | 0 <= j < |ps| && j != i ensures ps[j] in rest {
      assert ps[j] == rest[if j < i then j else j - 1];
    }
  }

  lemma DistinctWith(ps: seq<Process>, p: Process)
    requires Distinct(ps) && p !in ps
    ensures Distinct([p] + ps)
  {}

  class Iprocs {
    var procs: seq<Process>
    /** The buffers that have not been killed. */
    var buffers: set<Buffer>
    /** Set by the handler of the signal that a child has changed, if it is in place. */
    var procs_to_reap: bool
    var installed: bool
    /** The changes to wait for, and those still to come. */
    var pending: seq<Change>
    var future: seq<Change>

    /** A process and its buffer point at each other. */
    ghost predicate Tied(p: Process)
      reads this`buffers, p`p_buffer, (if p.p_buffer != null then {p.p_buffer} else {})`b_process
    {
      p.p_buffer != null && p.p_buffer in buffers && p.p_buffer.b_process == p
    }

    ghost predicate FdsApart()
      reads this`procs, procs`p_fd
    {
      forall p, q :: p in procs && q in procs && p.p_fd == q.p_fd >= 0 ==> p == q
    }

    /** Processes that are not dead are tied to live buffers; nothing points at a buffer that is gone. */
    ghost predicate Valid()
      reads this`procs, this`buffers, procs`p_fd, procs`p_io_state, procs`p_child_state, procs`p_buffer, buffers`b_process
    {
      && Distinct(procs)
      && (forall p, q :: p in procs && q in procs && p.p_pid == q.p_pid ==> p == q)
      && FdsApart()
      && (forall p :: p in procs ==> (p.p_io_state == Eofed <==> p.p_fd < 0))
      && (forall p :: p in procs && p.p_buffer != null ==> p.p_buffer in buffers && p.p_buffer.b_process == p)
      && (forall p :: p in procs && !p.Dead() ==> p.p_buffer != null)
      && (forall b :: b in buffers && b.b_process != null ==> b.b_process in procs && b.b_process.p_buffer == b)
    }

    lemma Facts(p: Process)
      requires Valid() && p in procs
      ensures p.p_io_state == Eofed <==> p.p_fd < 0
      ensures p.p_buffer != null ==> Tied(p)
      ensures !p.Dead() ==> p.p_buffer != null
    {}

    /** Puts output into the process's buffer. */
    method proc_rec(p: Process, text: string)
      requires Valid() && p in procs && Tied(p)
      modifies p.p_buffer`notes
      ensures Valid() && p.p_buffer.notes == old(p.p_buffer.notes) + [Output(text)]
    {
      p.p_buffer.notes := p.p_buffer.notes + [Output(text)];
    }

    method proc_close(p: Process)
      requires Valid() && p in procs
      modifies p`p_fd, p`p_io_state
      ensures Valid() && p.p_io_state == Eofed
    {
      if p.p_fd >= 0 {
        p.p_fd := -1;
        p.p_io_state := Eofed;
      }
    }

    /** The first output. */
    method Start(p: Process)
      requires Valid() && p in procs && p.p_io_state == New
      modifies p`p_io_state
      ensures Valid() && p.p_io_state == Running
    {
      p.p_io_state := Running;
    }

    method FindFd(fd: int) returns (p: Process?)
      requires Valid() && fd >= 0
      ensures p != null ==> p in procs && p.p_fd == fd
      ensures forall q :: q in procs && q.p_fd == fd ==> q == p
    {
      var i := 0;
      while i < |procs|
        invariant 0 <= i <= |procs|
        invariant forall j :: 0 <= j < i ==> procs[j].p_fd != fd
      {
        if procs[i].p_fd == fd { return procs[i]; }
        i := i + 1;
      }
      p := null;
    }

    method proc_pid(pid: int) returns (p: Process?)
      requires Valid()
      ensures p != null ==> p in procs && p.p_pid == pid
      ensures forall q :: q in procs && q.p_pid == pid ==> q == p
    {
      var i := 0;
      while i < |procs|
        invariant 0 <= i <= |procs|
        invariant forall j :: 0 <= j < i ==> procs[j].p_pid != pid
      {
        if procs[i].p_pid == pid { return procs[i]; }
        i := i + 1;
      }
      p := null;
    }

    /** What a read leaves of an I/O state. */
    static function AfterRead(io: IoState, r: ReadResult, early: bool): IoState {
      match r
      case Data(_) => if io == New then Running else io
      case EndOfFile => Eofed
      case ReadError(retry, _) => if retry && io == New && early then New else Eofed
    }

    static function NotesOfRead(r: ReadResult): seq<Note> {
      match r
      case Data(text) => [Output(text)]
      case EndOfFile => []
      case ReadError(retry, message) => if retry then [] else [Output("\n[pty read error: " + message + "]\n")]
    }

    /** Something is ready on a pty: `r` is what a read finds there, `early` whether the process is just starting. */
    method read_pty_proc(fd: int, r: ReadResult, early: bool) returns (p: Process?)
      requires Valid() && fd >= 0
      modifies procs`p_fd, procs`p_io_state, buffers`notes
      ensures Valid()
      ensures p != null ==> p in procs && old(p.p_fd) == fd && old(Tied(p))
      ensures forall q :: q in procs && old(q.p_fd) == fd ==> q == p
      ensures p != null ==> p.p_buffer == old(p.p_buffer) && p.p_child_state == old(p.p_child_state)
      ensures p != null ==> p.p_io_state == AfterRead(old(p.p_io_state), r, early)
      ensures p != null ==> p.p_buffer.notes == old(p.p_buffer.notes) + NotesOfRead(r)
      ensures p != null && p.p_fd >= 0 ==> p.p_fd == fd
      ensures forall q :: q in procs && q != p ==> unchanged(q)
      ensures forall b :: b in buffers && (p == null || b != p.p_buffer) ==> unchanged(b)
    {
      hide Valid;
      p := FindFd(fd);
      if p == null { return; }
      Facts(p);
      match r {
        case Data(text) =>
          if p.p_io_state == New { Start(p); }
          proc_rec(p, text);
        case EndOfFile =>
          proc_close(p);
        case ReadError(retry, message) =>
          if retry {
            if p.p_io_state == New && early { return; }
          } else {
            proc_rec(p, "\n[pty read error: " + message + "]\n");
          }
          proc_close(p);
      }
    }

    /** Only output has been added. */
    ghost predicate OnlyOutput(before: seq<Note>, after: seq<Note>) {
      before <= after && forall k :: |before| <= k < |after| ==> after[k].Output?
    }

    /** Only output has been added, and then the obituary. */
    ghost predicate Ended(before: seq<Note>, after: seq<Note>, w: Status) {
      after != [] && OnlyOutput(before, after[..|after| - 1]) && after[|after| - 1] == Obituary(StateOf(w))
    }

    lemma EndedIs(before: seq<Note>, heard: seq<Note>, w: Status)
      requires OnlyOutput(before, heard)
      ensures Ended(before, heard + [Obituary(StateOf(w))], w)
    {
      assert (heard + [Obituary(StateOf(w))])[..|heard|] == heard;
    }

    /** Fetches what a child that has ended left in its pty, as long as there is something; each item is one select.  With `noEof` a pty never tells its end. */
    method Drain(child: Process, polls: seq<Poll>, noEof: bool)
      requires Valid() && child in procs && !ChildDead(child.p_child_state)
      modifies procs`p_fd, procs`p_io_state, buffers`notes
      ensures Valid()
      ensures child.p_buffer == old(child.p_buffer) && Tied(child) && OnlyOutput(old(child.p_buffer.notes), child.p_buffer.notes)
      ensures old(child.p_io_state) == Eofed ==> child.p_io_state == Eofed
      ensures forall q :: q in procs && q != child ==> unchanged(q)
      ensures forall b :: b in buffers && b != child.p_buffer ==> unchanged(b)
    {
      hide Valid;
      Facts(child);
      var i := 0;
      while child.p_io_state != Eofed && i < |polls|
        invariant Valid() && 0 <= i <= |polls|
        invariant Tied(child) && OnlyOutput(old(child.p_buffer.notes), child.p_buffer.notes)
        invariant old(child.p_io_state) == Eofed ==> child.p_io_state == Eofed
        invariant forall q :: q in procs && q != child ==> unchanged(q)
        invariant forall b :: b in buffers && b != child.p_buffer ==> unchanged(b)
      {
        var poll := polls[i];
        i := i + 1;
        match poll {
          case Ready(r, early) =>
            Facts(child);
            ghost var was := child.p_buffer.notes;
            var p := read_pty_proc(child.p_fd, r, early);
          case Interrupted =>
          case Nothing =>
            if noEof { proc_close(child); }
            break;
        }
      }
    }

    /** A child's state changes; a child that has ended does not come back. */
    method SetChild(child: Process, state: ChildState)
      requires Valid() && child in procs && !ChildDead(child.p_child_state)
      modifies child`p_child_state
      ensures Valid() && child.p_child_state == state
    {
      child.p_child_state := state;
    }

    /** A child has ended: its buffer is told. */
    method obituary(child: Process, w: Status)
      requires Valid() && child in procs && !ChildDead(child.p_child_state) && Tied(child) && !w.WStopped?
      modifies child`p_child_state, child.p_buffer`notes
      ensures Valid() && child.p_child_state == StateOf(w) && ChildDead(child.p_child_state)
      ensures child.p_buffer.notes == old(child.p_buffer.notes) + [Obituary(StateOf(w))]
    {
      hide Valid;
      SetChild(child, match w case WExited(code) => Exited(code) case WSignaled(sig) => Killed(sig) case _ => Exited(0));
      child.p_buffer.notes := child.p_buffer.notes + [Obituary(child.p_child_state)];
    }

    /** What wait said of a child is done: its state changes, and if it has ended, its last output and its obituary are in its buffer. */
    method kill_off(pid: int, w: Status, polls: seq<Poll>, noEof: bool) returns (child: Process?)
      requires Valid() && forall q :: q in procs && q.p_pid == pid ==> !ChildDead(q.p_child_state)
      modifies procs`p_fd, procs`p_io_state, procs`p_child_state, buffers`notes
      ensures Valid()
      ensures forall q :: q in procs && q.p_pid == pid ==> q == child
      ensures child != null ==> child in procs && child.p_pid == pid && old(Tied(child)) && child.p_buffer == old(child.p_buffer)
      ensures child != null ==> child.p_child_state == StateOf(w)
      ensures child != null && w.WStopped? ==> child.p_buffer.notes == old(child.p_buffer.notes)
      ensures child != null && !w.WStopped? ==> Ended(old(child.p_buffer.notes), child.p_buffer.notes, w)
      ensures forall q :: q in procs && q != child ==> unchanged(q)
      ensures forall b :: b in buffers && (child == null || b != child.p_buffer) ==> unchanged(b)
    {
      hide Valid, OnlyOutput, Ended;
      child := proc_pid(pid);
      if child == null { return; }
      Facts(child);
      if w.WStopped? {
        SetChild(child, Stopped);
      } else {
        Drain(child, polls, noEof);
        ghost var heard := child.p_buffer.notes;
        assert OnlyOutput(old(child.p_buffer.notes), heard);
        obituary(child, w);
        EndedIs(old(child.p_buffer.notes), heard, w);
      }
    }

    /** Unties a buffer from a process that is dead; refuses if it is not. */
    method untieDeadProcess(b: Buffer?) returns (ok: bool)
      requires Valid() && (b != null ==> b in buffers)
      modifies (if b != null then {b} else {})`b_process, procs`p_buffer
      ensures Valid()
      ensures ok <==> b == null || old(b.b_process) == null || old(b.b_process.Dead())
      ensures if ok then b != null ==> b.b_process == null else b.b_process == old(b.b_process)
      ensures forall q :: q in procs ==> q.p_buffer == if ok && b != null && old(b.b_process) == q then null else old(q.p_buffer)
    {
      if b != null {
        var p := b.b_process;
        if p != null {
          if !p.Dead() { return false; }
          p.p_buffer := null;
          b.b_process := null;
        }
      }
      return true;
    }

    /** Killing a buffer is refused exactly when its process is not dead. */
    method kill_buf(b: Buffer) returns (ok: bool)
      requires Valid() && b in buffers
      modifies this`buffers, b`b_process, procs`p_buffer
      ensures Valid()
      ensures ok <==> old(b.b_process) == null || old(b.b_process.Dead())
      ensures buffers == if ok then old(buffers) - {b} else old(buffers)
      ensures forall q :: q in procs ==> q.p_buffer == if ok && old(b.b_process) == q then null else old(q.p_buffer)
    {
      ok := untieDeadProcess(b);
      if ok { Unlist(b); }
    }

    method Unlist(b: Buffer)
      requires Valid() && b in buffers && b.b_process == null
      modifies this`buffers
      ensures Valid() && buffers == old(buffers) - {b}
    {
      buffers := buffers - {b};
    }

    /** Forgets a process that is dead. */
    method free_proc(child: Process)
      requires Valid() && child in procs
      modifies this`procs, procs`p_buffer, buffers`b_process
      ensures Valid()
      ensures old(child.Dead()) ==> child !in procs && forall q :: q in procs <==> q in old(procs) && q != child
      ensures !old(child.Dead()) ==> procs == old(procs)
      ensures forall q :: q in procs ==> q.p_buffer == old(q.p_buffer)
    {
      if !child.Dead() { return; }
      Facts(child);
      var ok := untieDeadProcess(child.p_buffer);
      var i := 0;
      while procs[i] != child
        invariant 0 <= i < |procs| && (exists j :: i <= j < |procs| && procs[j] == child)
        decreases |procs| - i
      {
        i := i + 1;
      }
      Remove(i);
    }

    method Remove(i: nat)
      requires Valid() && i < |procs| && procs[i].p_buffer == null && procs[i].Dead()
      modifies this`procs
      ensures Valid() && procs == old(procs[..i] + procs[i + 1..]) && old(procs[i]) !in procs
      ensures forall q :: q in procs <==> q in old(procs) && q != old(procs[i])
    {
      DistinctWithout(procs, i);
      hide Distinct;
      procs := procs[..i] + procs[i + 1..];
    }

    method NewBuffer() returns (b: Buffer)
      requires Valid()
      modifies this`buffers
      ensures Valid() && fresh(b) && b.b_process == null && buffers == old(buffers) + {b}
    {
      b := new Buffer();
      buffers := buffers + {b};
    }

    method Tie(b: Buffer, pid: int, fd: int) returns (p: Process)
      requires Valid() && b in buffers && b.b_process == null
      requires fd >= 0 && forall q :: q in procs ==> q.p_pid != pid && q.p_fd != fd
      modifies this`procs, b`b_process
      ensures Valid() && fresh(p) && procs == [p] + old(procs) && p.p_buffer == b && !p.Dead() && Tied(p) && p.p_pid == pid && p.p_fd == fd
    {
      p := new Process(fd, pid, b);
      b.b_process := p;
      DistinctWith(procs, p);
      hide Distinct;
      procs := [p] + procs;
    }

    /** A new process with its buffer: one that no process holds, or that a dead one does. */
    method proc_strt(b: Buffer?, pid: int, fd: int) returns (p: Process?)
      requires Valid() && (b != null ==> b in buffers)
      requires fd >= 0 && forall q :: q in procs ==> q.p_pid != pid && q.p_fd != fd
      modifies this`procs, this`buffers, (if b != null then {b} else {})`b_process, procs`p_buffer
      ensures Valid()
      ensures p == null <==> b != null && old(b.b_process) != null && !old(b.b_process.Dead())
      ensures p == null ==> procs == old(procs) && buffers == old(buffers)
      ensures p != null ==> fresh(p) && procs == [p] + old(procs) && !p.Dead() && Tied(p) && p.p_pid == pid && p.p_fd == fd
      ensures p != null ==> if b != null then p.p_buffer == b && buffers == old(buffers) else fresh(p.p_buffer) && buffers == old(buffers) + {p.p_buffer}
    {
      var ok := untieDeadProcess(b);
      if !ok { return null; }
      var buffer: Buffer;
      if b == null {
        buffer := NewBuffer();
      } else {
        buffer := b;
      }
      p := Tie(buffer, pid, fd);
    }

    /** Continuing a stopped child; `killed` says whether the signal could be sent. */
    method ProcCont(b: Buffer, killed: bool) returns (ok: bool)
      requires Valid() && b in buffers
      modifies procs`p_child_state
      ensures Valid() && (ok <==> b.b_process != null)
      ensures forall q :: q in procs ==>
        q.p_child_state == if q == b.b_process && killed && old(q.p_child_state) == Stopped then Live else old(q.p_child_state)
    {
      var p := b.b_process;
      if p == null { return false; }
      if !ChildDead(p.p_child_state) && killed && p.p_child_state == Stopped { SetChild(p, Live); }
      return true;
    }

    /** Leaving the editor closes every pty, unless something still runs and the user then says no. */
    method KillProcs(leave: bool) returns (ok: bool)
      requires Valid()
      modifies procs`p_fd, procs`p_io_state
      ensures Valid() && (ok <==> leave || forall q :: q in procs ==> old(q.Dead()))
      ensures ok ==> forall q :: q in procs ==> q.p_io_state == Eofed
      ensures !ok ==> forall q :: q in procs ==> unchanged(q)
    {
      hide Valid;
      var asked := false;
      var i := 0;
      while i < |procs|
        invariant Valid() && 0 <= i <= |procs|
        invariant forall j :: 0 <= j < i ==> procs[j].p_io_state == Eofed
        invariant asked ==> leave
        invariant !asked ==> (forall q :: q in procs ==> unchanged(q)) && forall j :: 0 <= j < i ==> procs[j].Dead()
      {
        if !procs[i].Dead() {
          if !asked {
            ghost var p := procs[i];
            assert p in procs && unchanged(p) && !old(p.Dead());
            if !leave { return false; }
            asked := true;
          }
          proc_close(procs[i]);
        }
        i := i + 1;
      }
      ok := true;
    }

    /** While the editor runs, some more children change: `n` of them, if there are that many to come. */
    method Meanwhile(n: nat, sys: System)
      modifies this`pending, this`future, this`procs_to_reap, this`installed
      ensures Signals() == Arrive(old(Signals()), n, sys)
      ensures pending + future == old(pending + future)
    {
      var m := if n < |future| then n else |future|;
      if m > 0 {
        pending, future := pending + future[..m], future[m..];
        if installed {
          procs_to_reap := true;
          installed := !sys.oneShot;
        }
      }
    }

    method resetsighandler(sys: System)
      modifies this`procs_to_reap, this`installed
      ensures pending == old(pending) && future == old(future)
      ensures Signals() == Reset(old(Signals()), sys)
    {
      if sys.oneShot {
        installed := true;
        if sys.level && pending != [] {
          procs_to_reap := true;
          installed := false;
        }
      }
    }

    ghost function Signals(): Sig
      reads this`pending, this`future, this`procs_to_reap, this`installed
    {
      Sig(procs_to_reap, installed, |pending|, |future|)
    }

    /** Who is dead is known to be gone. */
    ghost predicate Aware(gone: set<int>)
      reads this`procs, procs`p_child_state
    {
      forall p :: p in procs && ChildDead(p.p_child_state) ==> p.p_pid in gone
    }

    /**
     * Hears of every child that has changed.  Between any two of its steps more children may change: `arrivals`
     * says how many do, step by step.
     */
    method reap_procs(arrivals: seq<nat>, sys: System, polls: nat -> seq<Poll>, noEof: bool, ghost gone: set<int>)
      returns (ghost reaped: seq<Change>, ghost gone': set<int>)
      requires Valid() && Aware(gone) && Sensible(gone, pending + future)
      modifies procs`p_fd, procs`p_io_state, procs`p_child_state, buffers`notes
      modifies this`pending, this`future, this`procs_to_reap, this`installed
      ensures Valid() && Aware(gone') && Sensible(gone', pending + future)
      ensures Signals() == Reap(old(Signals()), arrivals, sys)
      ensures reaped + (pending + future) == old(pending + future)
      ensures forall p :: p in procs ==> p.p_child_state == Fate(old(p.p_child_state), p.p_pid, reaped)
    {
      hide Valid, Aware, Sensible, Fate, Fated, Reap, Arrive, Reset, Next, Later;
      var a, k, again := arrivals, 0, true;
      reaped, gone' := [], gone;
      assert [] + (pending + future) == pending + future;
      ghost var fates, changes, goal := map p | p in procs :: p.p_child_state, pending + future, Reap(Signals(), arrivals, sys);
      FatedNone(fates);
      while again
        invariant Valid() && Aware(gone') && Sensible(gone', pending + future) && Fated(fates, reaped)
        invariant goal == if again then Reap(Signals(), a, sys) else Signals()
        invariant reaped + (pending + future) == changes
        decreases again, Signals().left, Signals().waiting, Signals().flag
      {
        again, a, k, reaped, gone' := ReapTurn(a, sys, polls, k, noEof, gone', reaped, fates);
      }
      FatedAll(fates, reaped);
    }

    /** Once around the loop. */
    method ReapTurn(a: seq<nat>, sys: System, polls: nat -> seq<Poll>, k: nat, noEof: bool,
                    ghost gone: set<int>, ghost reaped: seq<Change>, ghost fates: map<Process, ChildState>)
      returns (again: bool, a': seq<nat>, k': nat, ghost reaped': seq<Change>, ghost gone': set<int>)
      requires Valid() && Aware(gone) && Sensible(gone, pending + future) && Fated(fates, reaped)
      modifies procs`p_fd, procs`p_io_state, procs`p_child_state, buffers`notes
      modifies this`pending, this`future, this`procs_to_reap, this`installed
      ensures Valid() && Aware(gone') && Sensible(gone', pending + future) && Fated(fates, reaped')
      ensures Reap(old(Signals()), a, sys) == if again then Reap(Signals(), a', sys) else Signals()
      ensures reaped' + (pending + future) == reaped + old(pending + future)
      ensures var s, s' := old(Signals()), Signals();
        again ==> s'.left < s.left || (s'.left == s.left && (s'.waiting < s.waiting || (s'.waiting == s.waiting && s.flag && !s'.flag)))
    {
      hide Valid, Aware, Sensible, Fate, Fated, Reap, Arrive, Reset, Next, Later;
      reaped', gone', k' := reaped, gone, k;
      ReapStep(Signals(), a, sys);
      Meanwhile(Next(a), sys);
      if pending == [] {
        again, a' := Rearm(Later(a), sys);
      } else {
        ghost var change;
        change, gone' := HearNext(polls(k), noEof, gone, reaped, fates);
        again, a', k', reaped' := true, Later(a), k + 1, reaped + [change];
      }
    }

    /** The processes are in the states that the changes make of those in `fates`. */
    ghost predicate Fated(fates: map<Process, ChildState>, changes: seq<Change>)
      reads this`procs, procs`p_child_state
    {
      forall p :: p in procs ==> p in fates && p.p_child_state == Fate(fates[p], p.p_pid, changes)
    }

    lemma FatedNone(fates: map<Process, ChildState>)
      requires forall p :: p in procs ==> p in fates && fates[p] == p.p_child_state
      ensures Fated(fates, [])
    {
      FateNone();
    }

    lemma FatedAll(fates: map<Process, ChildState>, changes: seq<Change>)
      requires Fated(fates, changes)
      ensures forall p :: p in procs ==> p in fates && p.p_child_state == Fate(fates[p], p.p_pid, changes)
    {}

    /** Hears of one change more. */
    method HearNext(poll: seq<Poll>, noEof: bool, ghost gone: set<int>, ghost reaped: seq<Change>, ghost fates: map<Process, ChildState>)
      returns (ghost change: Change, ghost gone': set<int>)
      requires Valid() && Aware(gone) && Sensible(gone, pending + future) && pending != [] && Fated(fates, reaped)
      modifies procs`p_fd, procs`p_io_state, procs`p_child_state, buffers`notes, this`pending
      ensures Valid() && Aware(gone') && Sensible(gone', pending + future) && Fated(fates, reaped + [change])
      ensures [change] + (pending + future) == old(pending + future)
      ensures Signals() == old(Signals()).(waiting := old(Signals()).waiting - 1)
    {
      hide Valid, Aware, Sensible, Fate;
      change, gone' := Hear(poll, noEof, gone);
      FateNext(reaped, change);
    }

    /** Nothing to wait for: if the flag is set, resets the handler and clears it, to go around once more. */
    method Rearm(a: seq<nat>, sys: System) returns (again: bool, a': seq<nat>)
      modifies this`pending, this`future, this`procs_to_reap, this`installed
      ensures var s := Arrive(old(Signals()), Next(a), sys);
        if s.flag then
          again && a' == Later(Later(a)) && Signals() == Arrive(Reset(s, sys), Next(Later(a)), sys).(flag := false)
        else !again && Signals() == s
      ensures pending + future == old(pending + future)
    {
      hide Arrive, Reset;
      Meanwhile(Next(a), sys);
      a' := Later(a);
      again := procs_to_reap;
      if procs_to_reap {
        resetsighandler(sys);
        Meanwhile(Next(a'), sys);
        a' := Later(a');
        procs_to_reap := false;
      }
    }

    /** Waits for one change and does what it takes. */
    method Hear(poll: seq<Poll>, noEof: bool, ghost gone: set<int>) returns (ghost change: Change, ghost gone': set<int>)
      requires Valid() && Aware(gone) && Sensible(gone, pending + future) && pending != []
      modifies procs`p_fd, procs`p_io_state, procs`p_child_state, buffers`notes, this`pending
      ensures Valid() && Aware(gone') && Sensible(gone', pending + future)
      ensures [change] + (pending + future) == old(pending + future)
      ensures Signals() == old(Signals()).(waiting := old(Signals()).waiting - 1)
      ensures forall p :: p in procs ==>
        p.p_child_state == if p.p_pid == change.pid then StateOf(change.status) else old(p.p_child_state)
    {
      hide Valid;
      var c := pending[0];
      change, gone' := c, if c.status.WStopped? then gone else gone + {c.pid};
      assert (pending + future)[1..] == pending[1..] + future;
      pending := pending[1..];
      var _ := kill_off(c.pid, c.status, poll, noEof);
    }
  }

  /** How signals work: whether a handler serves once, and whether resetting it signals again what is still to be waited for. */
  datatype System = System(oneShot: bool, level: bool)

  /** The flag, whether the handler is in place, and how many changes are to be waited for or still to come. */
  datatype Sig = Sig(flag: bool, installed: bool, waiting: nat, left: nat)

  function Arrive(s: Sig, n: nat, sys: System): Sig {
    var m := if n < s.left then n else s.left;
    if m == 0 then s else Sig(s.flag || s.installed, s.installed && !sys.oneShot, s.waiting + m, s.left - m)
  }

  function Reset(s: Sig, sys: System): Sig {
    if !sys.oneShot then s
    else if sys.level && s.waiting > 0 then s.(flag := true, installed := false)
    else s.(installed := true)
  }

  function Next(arrivals: seq<nat>): nat { if arrivals == [] then 0 else arrivals[0] }
  function Later(arrivals: seq<nat>): seq<nat> { if arrivals == [] then [] else arrivals[1..] }

  /** The signals' part of reap_procs. */
  function Reap(s: Sig, a: seq<nat>, sys: System): Sig
    decreases s.left, s.waiting, s.flag
  {
    var s1, a1 := Arrive(s, Next(a), sys), Later(a);
    if s1.waiting > 0 then Reap(s1.(waiting := s1.waiting - 1), a1, sys)
    else
      var s2, a2 := Arrive(s1, Next(a1), sys), Later(a1);
      if !s2.flag then s2
      else
        var s3 := Arrive(Reset(s2, sys), Next(a2), sys);
        Reap(s3.(flag := false), Later(a2), sys)
  }

  function Fate(c: ChildState, pid: int, changes: seq<Change>): ChildState {
    if changes == [] then c
    else
      var last := changes[|changes| - 1];
      if last.pid == pid then StateOf(last.status) else Fate(c, pid, changes[..|changes| - 1])
  }

  lemma FateNone()
    ensures forall c: ChildState, pid: int :: Fate(c, pid, []) == c
  {}

  lemma FateNext(changes: seq<Change>, change: Change)
    ensures forall c: ChildState, pid: int ::
      Fate(c, pid, changes + [change]) == if change.pid == pid then StateOf(change.status) else Fate(c, pid, changes)
  {
    assert (changes + [change])[..|changes|] == changes;
  }

  lemma ReapStep(s: Sig, a: seq<nat>, sys: System)
    ensures var s1, a1 := Arrive(s, Next(a), sys), Later(a);
      s1.left <= s.left && (s1.left == s.left ==> s1 == s)
      && if s1.waiting > 0 then Reap(s, a, sys) == Reap(s1.(waiting := s1.waiting - 1), a1, sys)
      else
        var s2, a2 := Arrive(s1, Next(a1), sys), Later(a1);
        s2.left <= s1.left && (s2.left == s1.left ==> s2 == s1)
        && if !s2.flag then Reap(s, a, sys) == s2
        else
          var s3 := Arrive(Reset(s2, sys), Next(a2), sys);
          s3.left <= s2.left && (s3.left == s2.left ==> s3.waiting == s2.waiting)
          && Reap(s, a, sys) == Reap(s3.(flag := false), Later(a2), sys)
  {}

  /** How many changes it takes, with handlers that serve once, for one of them to be forgotten. */
  function Need(s: Sig, sys: System): nat {
    if !s.flag && !s.installed then 1 else if s.flag || sys.level then 2 else 3
  }

  /** Fewer changes than that, or handlers that stay in place: whenever they come, none is left to wait for on return. */
  lemma {:induction false} ReapKeeps(s: Sig, a: seq<nat>, sys: System)
    requires if sys.oneShot then s.left < Need(s, sys) else s.installed
    ensures var r := Reap(s, a, sys); !r.flag && r.waiting == 0 && (!sys.oneShot ==> r.installed)
    decreases s.left, s.waiting, s.flag
  {
    hide Reap;
    ReapStep(s, a, sys);
    var s1, a1 := Arrive(s, Next(a), sys), Later(a);
    if s1.waiting > 0 {
      ReapKeeps(s1.(waiting := s1.waiting - 1), a1, sys);
    } else {
      var s2, a2 := Arrive(s1, Next(a1), sys), Later(a1);
      if s2.flag { ReapKeeps(Arrive(Reset(s2, sys), Next(a2), sys).(flag := false), Later(a2), sys); }
    }
  }

  /** Where handlers serve once and that many changes can come, they can come so that one is forgotten. */
  lemma {:induction false} ReapForgets(s: Sig, sys: System) returns (a: seq<nat>)
    requires sys.oneShot && s.left >= Need(s, sys)
    ensures Reap(s, a, sys).waiting > 0
    decreases s.left, s.waiting
  {
    hide Reap;
    var more: seq<nat>;
    if s.waiting > 0 {
      more := ReapForgets(s.(waiting := s.waiting - 1), sys);
      a := [0] + more;
    } else if !s.flag && !s.installed {
      a, more := [0, 1], [];
      assert Later(a) == [1];
    } else if s.flag {
      more := ReapForgets(Sig(false, false, 1, s.left - 1), sys);
      a := [0, 0, 1] + more;
      assert Later(a) == [0, 1] + more && Later([0, 1] + more) == [1] + more;
    } else if sys.level {
      more := ReapForgets(Sig(false, false, 1, s.left - 1), sys);
      a := [0, 1, 0] + more;
      assert Later(a) == [1, 0] + more && Later([1, 0] + more) == [0] + more;
    } else {
      more := ReapForgets(Sig(true, false, 0, s.left - 1), sys);
      a := [1] + more;
    }
    assert Later([0] + more) == more && Later([1] + more) == more;
    ReapStep(s, a, sys);
  }

  /**
   * When reap_procs returns, a change that it has not waited for has set the flag again: for all ways in which changes
   * may come meanwhile, exactly if handlers stay in place or too few can come.
   */
  lemma ReapKeepsIff(s: Sig, sys: System)
    requires !sys.oneShot ==> s.installed
    ensures (forall a: seq<nat> :: Reap(s, a, sys).waiting > 0 ==> Reap(s, a, sys).flag) <==> !sys.oneShot || s.left < Need(s, sys)
  {
    hide Reap;
    if !sys.oneShot || s.left < Need(s, sys) {
      forall a: seq<nat> ensures Reap(s, a, sys).waiting == 0 { ReapKeeps(s, a, sys); }
    } else {
      var a := ReapForgets(s, sys);
      ReturnsUnset(s, a, sys);
    }
  }

  lemma {:induction false} ReturnsUnset(s: Sig, a: seq<nat>, sys: System)
    ensures !Reap(s, a, sys).flag
    decreases s.left, s.waiting, s.flag
  {
    hide Reap;
    ReapStep(s, a, sys);
    var s1, a1 := Arrive(s, Next(a), sys), Later(a);
    if s1.waiting > 0 {
      ReturnsUnset(s1.(waiting := s1.waiting - 1), a1, sys);
    } else {
      var s2, a2 := Arrive(s1, Next(a1), sys), Later(a1);
      if s2.flag { ReturnsUnset(Arrive(Reset(s2, sys), Next(a2), sys).(flag := false), Later(a2), sys); }
    }
  }

  /** Where a handler serves once, a change can be forgotten: one comes just after the reset, another just before the return. */
  lemma OneShotForgets()
    ensures Reap(Sig(true, false, 0, 2), [0, 0, 1, 0, 0, 1], System(true, false)) == Sig(false, false, 1, 0)
  {
    var sys := System(true, false);
    assert Later(Later(Later([0, 0, 1, 0, 0, 1]))) == [0, 0, 1];
    assert Later([0, 0, 1]) == [0, 1];
    ReapStep(Sig(true, false, 0, 2), [0, 0, 1, 0, 0, 1], sys);
    ReapStep(Sig(false, false, 1, 1), [0, 0, 1], sys);
    ReapStep(Sig(false, false, 0, 1), [0, 1], sys);
  }
}
