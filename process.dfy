/**
 * The process bookkeeping of src/sys/process.c: the ready and reap queues (doubly
 * linked FIFO lists threaded through each process), the per-process file-descriptor
 * lists with their fd counter, PID assignment and the guard that keeps init alive.
 *
 * A queue is a `seq<Proc>` field of `Scheduler` (first element = queue.first); an fd
 * list is a `seq<FileDescriptor>` field of `Proc` (first element = process->fds).
 * The process tree is reduced to the set of live processes and the tree node each
 * one hangs on.
 */
module Process {
  import opened CInt
  import opened Wrappers

  type i32 = x: int | -0x8000_0000 <= x < 0x8000_0000

  /** (uint32_t) -1, the error return of process_add_fd and process_clone_fd. */
  const NO_FD: u32 := 0xFFFF_FFFF

  /** What a file_descriptor_t holds besides its number and its link: callbacks, context, position, length. */
  datatype Handle = Handle(ops: nat, context: nat, position: u32, length: u32)

  datatype FileDescriptor = FileDescriptor(fd: u32, handle: Handle)

  // ---- Queues -------------------------------------------------------------------------------

  /** One dequeue from the head: the queue left behind and the process taken, none when empty. */
  function Popped<T>(q: seq<T>): (r: (seq<T>, Option<T>))
    ensures q == [] <==> r.1.None?
    ensures q != [] ==> [r.1.value] + r.0 == q
  {
    if q == [] then (q, None) else (q[1..], Some(q[0]))
  }

  /** What repeated dequeues return until the queue is empty. */
  function Drained<T>(q: seq<T>): seq<T>
    decreases |q|
  {
    var (rest, x) := Popped(q);
    if x.None? then [] else [x.value] + Drained(rest)
  }

  /** The queues are FIFO: dequeuing returns the processes in the order they were appended. */
  lemma {:induction false} DrainedInOrder<T>(q: seq<T>)
    ensures Drained(q) == q
    decreases |q|
  {
    if q != [] {
      DrainedInOrder(q[1..]);
      assert [q[0]] + q[1..] == q;
    }
  }

  /**
   * next_reapable_process as written: the empty case returns 0 before spin_unlock, so
   * reap_lock stays taken. Result: (queue, lock held, process taken).
   */
  function ReapAsWritten<T>(q: seq<T>): (seq<T>, bool, Option<T>)
  {
    if q == [] then (q, true, None) else (q[1..], false, Some(q[0]))
  }

  /** next_reapable_process as intended: the lock is released on both paths. */
  function Reaped<T>(q: seq<T>): (r: (seq<T>, bool, Option<T>))
    ensures !r.1
    ensures (r.0, r.2) == Popped(q)
  {
    if q == [] then (q, false, None) else (q[1..], false, Some(q[0]))
  }

  /**
   * As written, reap_lock stays held exactly when the reap queue was empty, so after
   * asking an empty queue the next spin_lock(&reap_lock) (make_process_reapable or
   * next_reapable_process) never returns; as intended it is never left held.
   */
  lemma EmptyReapKeepsLock<T>(q: seq<T>)
    ensures ReapAsWritten(q).1 <==> q == []
    ensures ReapAsWritten(q).2.None? <==> q == []
    ensures !Reaped(q).1 && (Reaped(q).2.None? <==> q == [])
  {
  }

  // ---- File descriptors ----------------------------------------------------------------------

  /** The position of the first entry numbered `fd` at or after `from`, walking the links. */
  function FindFdFrom(fds: seq<FileDescriptor>, fd: u32, from: nat): (r: Option<nat>)
    requires from <= |fds|
    ensures r.Some? ==> (from <= r.value < |fds| && fds[r.value].fd == fd &&
      forall j :: from <= j < r.value ==> fds[j].fd != fd)
    ensures r.None? ==> forall j :: from <= j < |fds| ==> fds[j].fd != fd
    decreases |fds| - from
  {
    if from == |fds| then None
    else if fds[from].fd == fd then Some(from)
    else FindFdFrom(fds, fd, from + 1)
  }

  /** process_get_fd: the first entry of the list with that number, none (0) otherwise. */
  function FindFd(fds: seq<FileDescriptor>, fd: u32): (r: Option<nat>)
    ensures r.Some? <==> exists j :: 0 <= j < |fds| && fds[j].fd == fd
    ensures r.Some? ==> (r.value < |fds| && fds[r.value].fd == fd &&
      forall j :: 0 <= j < r.value ==> fds[j].fd != fd)
  {
    FindFdFrom(fds, fd, 0)
  }

  /** Every number in the list is at most current_fd. */
  predicate NumbersBelow(fds: seq<FileDescriptor>, current: u32)
  {
    forall j :: 0 <= j < |fds| ==> fds[j].fd <= current
  }

  /** process_add_fd on a live process and file: the list and counter afterwards. */
  function Added(fds: seq<FileDescriptor>, current: u32, h: Handle): (seq<FileDescriptor>, u32)
  {
    var n := Wrap32(current + 1);
    ([FileDescriptor(n, h)] + fds, n)
  }

  /**
   * Until current_fd wraps, the number process_add_fd hands out is new, it is what a
   * lookup then finds, and the counter still bounds every number.
   */
  lemma AddedIsFresh(fds: seq<FileDescriptor>, current: u32, h: Handle)
    requires NumbersBelow(fds, current) && current < NO_FD
    ensures var (fds', n) := Added(fds, current, h);
      n == current + 1 && FindFd(fds, n).None? && FindFd(fds', n) == Some(0) &&
      fds'[1..] == fds && NumbersBelow(fds', n)
  {
    var (fds', n) := Added(fds, current, h);
    assert forall j :: 1 <= j < |fds'| ==> fds'[j] == fds[j - 1];
  }

  /** process_clone_fd once `from` is found at position i: the list and counter afterwards. */
  function Cloned(fds: seq<FileDescriptor>, current: u32, i: nat, to: u32): (seq<FileDescriptor>, u32)
    requires i < |fds|
  {
    ([fds[i].(fd := to)] + fds, if current < to then to else current)
  }

  /**
   * The clone shares the handle of `from`, is what a lookup of `to` now finds (it sits at
   * the head), the old entries stay behind it, and the counter still bounds every number.
   */
  lemma ClonedShares(fds: seq<FileDescriptor>, current: u32, i: nat, to: u32)
    requires i < |fds| && NumbersBelow(fds, current)
    ensures var (fds', current') := Cloned(fds, current, i, to);
      fds'[0].handle == fds[i].handle && FindFd(fds', to) == Some(0) &&
      fds'[1..] == fds && NumbersBelow(fds', current') && current <= current'
  {
    var (fds', current') := Cloned(fds, current, i, to);
    assert forall j :: 1 <= j < |fds'| ==> fds'[j] == fds[j - 1];
  }

  // ---- Processes -------------------------------------------------------------------------------

  /** The fields of process_t that this model follows. */
  class Proc {
    /** id (pid_t). */
    var id: int
    /** process_tree: the tree node this process hangs on. */
    var node: nat
    /** fds, head first. */
    var fds: seq<FileDescriptor>
    var currentFd: u32
    /** queue_node.queued. */
    var queued: bool

    constructor (id: int, node: nat, fds: seq<FileDescriptor>, currentFd: u32)
      ensures this.id == id && this.node == node && this.fds == fds && this.currentFd == currentFd
      ensures !queued
    {
      this.id := id;
      this.node := node;
      this.fds := fds;
      this.currentFd := currentFd;
      queued := false;
    }

    /** process_get_fd: walks the list from its head. */
    method GetFd(fd: u32) returns (found: Option<nat>)
      ensures found == FindFd(fds, fd)
    {
      var i := 0;
      while i < |fds|
        invariant i <= |fds|
        invariant FindFd(fds, fd) == FindFdFrom(fds, fd, i)
      {
        if fds[i].fd == fd {
          return Some(i);
        }
        i := i + 1;
      }
      return None;
    }

    /** process_clone_fd: `from` and `to` are ints converted to uint32_t. */
    method CloneFd(from: i32, to: i32) returns (r: u32)
      modifies this`fds, this`currentFd
      ensures FindFd(old(fds), Wrap32(from)).None? ==> r == NO_FD && fds == old(fds) && currentFd == old(currentFd)
      ensures FindFd(old(fds), Wrap32(from)).Some? ==> (r == Wrap32(to) &&
        (fds, currentFd) == Cloned(old(fds), old(currentFd), FindFd(old(fds), Wrap32(from)).value, r))
    {
      var i := GetFd(Wrap32(from));
      if i.None? {
        return NO_FD;
      }
      r := Wrap32(to);
      fds := [fds[i.value].(fd := r)] + fds;
      if currentFd < r {
        currentFd := r;
      }
    }
  }

  /** process_add_fd: -1 for a null process or file; else the file is pushed with number ++current_fd. */
  method AddFd(p: Proc?, file: Option<Handle>) returns (r: u32)
    modifies p
    ensures p == null || file.None? ==> r == NO_FD
    ensures p != null && file.None? ==> p.fds == old(p.fds) && p.currentFd == old(p.currentFd)
    ensures p != null && file.Some? ==> (p.fds, p.currentFd) == Added(old(p.fds), old(p.currentFd), file.value) && r == p.currentFd
    ensures p != null ==> p.id == old(p.id) && p.node == old(p.node) && p.queued == old(p.queued)
  {
    if p == null || file.None? {
      return NO_FD;
    }
    p.currentFd := Wrap32(p.currentFd + 1);
    p.fds := [FileDescriptor(p.currentFd, file.value)] + p.fds;
    r := p.currentFd;
  }

  /** The ready and reap queues, the PID counter and the process tree of src/sys/process.c. */
  class Scheduler {
    /** process_queue, first to last. */
    var ready: seq<Proc>
    /** reap_queue, first to last. */
    var reapQueue: seq<Proc>
    /** reap_lock is held. */
    var reapLocked: bool
    /** current_pid: the last PID handed out. */
    var currentPid: int
    /** The processes in the process tree. */
    var live: set<Proc>
    /** The init process, whose node is the root process_tree. */
    var init: Proc
    /** The root node of the process tree. */
    var root: nat
    /** The next fresh tree node (tree_create). */
    var nextNode: nat

    /**
     * Every queued process is marked queued and appears once, init stays in the tree
     * on the root node no other live process shares, and no live PID exceeds current_pid.
     */
    ghost predicate Valid()
      reads this, ready, live
    {
      (forall i :: 0 <= i < |ready| ==> ready[i].queued) &&
      (forall i, j :: 0 <= i < j < |ready| ==> ready[i] != ready[j]) &&
      init in live && init.node == root && root < nextNode &&
      (forall q :: q in live ==> q.id <= currentPid && q.node < nextNode) &&
      (forall q :: q in live && q != init ==> q.node != root)
    }

    /** spawn_init: init gets PID 0, no descriptors and the root node of a new tree. */
    constructor ()
      ensures Valid() && fresh(init)
      ensures ready == [] && reapQueue == [] && !reapLocked && live == {init}
      ensures init.id == 0 && init.fds == [] && init.currentFd == 0 && currentPid == 0
    {
      init := new Proc(0, 0, [], 0);
      root := 0;
      nextNode := 1;
      live := {init};
      ready := [];
      reapQueue := [];
      reapLocked := false;
      currentPid := 0;
    }

    /**
     * spawn_process: the child gets the PID after current_pid, a copy of the parent's
     * descriptors and counter, a fresh node in the tree and no queue membership.
     */
    method Spawn(parent: Proc) returns (p: Proc)
      requires Valid()
      modifies this`currentPid, this`live, this`nextNode
      ensures Valid() && fresh(p)
      ensures p.id == old(currentPid) + 1 == currentPid && live == old(live) + {p}
      ensures forall q :: q in old(live) ==> q.id < p.id
      ensures p.fds == parent.fds && p.currentFd == parent.currentFd && !p.queued
    {
      currentPid := currentPid + 1;
      p := new Proc(currentPid, nextNode, parent.fds, parent.currentFd);
      nextNode := nextNode + 1;
      live := live + {p};
    }

    /** delete_process: a null process or init (on the root node) is refused; anything else leaves the tree. */
    method Delete(p: Proc?) returns (deleted: bool)
      requires Valid()
      modifies this`live
      ensures Valid()
      ensures deleted <==> p != null && p.node != root
      ensures live == if deleted then old(live) - {p} else old(live)
      ensures init in live
    {
      if p == null || p.node == root {
        return false;
      }
      live := live - {p};
      return true;
    }

    /** make_process_ready: appended at the tail and marked queued; nothing for a null process. */
    method MakeReady(p: Proc?)
      requires Valid() && (p != null ==> p !in ready)
      modifies this`ready, (if p == null then {} else {p})`queued
      ensures Valid()
      ensures p == null ==> ready == old(ready)
      ensures p != null ==> ready == old(ready) + [p] && p.queued
    {
      if p == null {
        return;
      }
      ready := ready + [p];
      p.queued := true;
    }

    /** next_ready_process: the head is unlinked and unmarked; null when the queue is empty. */
    method NextReady() returns (p: Proc?)
      requires Valid()
      modifies this`ready, ready`queued
      ensures Valid()
      ensures ready == Popped(old(ready)).0 && (p == null <==> Popped(old(ready)).1.None?)
      ensures p != null ==> p == Popped(old(ready)).1.value
      ensures p != null ==> !p.queued
      ensures forall q :: q in old(ready) && q != p ==> q.queued == old(q.queued)
    {
      if ready == [] {
        return null;
      }
      p := ready[0];
      ready := ready[1..];
      p.queued := false;
    }

    /** make_process_reapable: appended at the tail under reap_lock. */
    method MakeReapable(p: Proc?)
      requires !reapLocked
      modifies this`reapQueue
      ensures !reapLocked
      ensures reapQueue == if p == null then old(reapQueue) else old(reapQueue) + [p]
    {
      if p == null {
        return;
      }
      reapQueue := reapQueue + [p];
    }

    /** next_reapable_process, releasing reap_lock on the empty path as well. */
    method NextReapable() returns (p: Proc?)
      requires !reapLocked
      modifies this`reapQueue, this`reapLocked
      ensures reapQueue == Reaped(old(reapQueue)).0 && reapLocked == Reaped(old(reapQueue)).1
      ensures (p == null <==> Reaped(old(reapQueue)).2.None?) && (p != null ==> p == Reaped(old(reapQueue)).2.value)
    {
      reapLocked := true;
      if reapQueue == [] {
        reapLocked := false;
        return null;
      }
      p := reapQueue[0];
      reapQueue := reapQueue[1..];
      reapLocked := false;
    }
  }
}
