/** The analyzer's task queue: a circular buffer that doubles when full, and the two sets that
    keep an address from being queued twice. */
module TaskQueue {
  /** A task: where, and whether it asks for a function. */
  datatype Task = Task(va: int, makesFunc: bool)

  // ------------------------------------------------------------------ the circular buffer

  /** The elements from `head` up to `tail`, around the end of the buffer if need be; equal
      ends mean a full buffer. */
  function Circle(buf: seq<Task>, head: nat, tail: nat): seq<Task>
    requires head <= |buf| && tail <= |buf|
  {
    if head < tail then buf[head..tail] else buf[head..] + buf[..tail]
  }

  class CircularVector {
    var buf: array<Task>
    var head: nat
    var tail: nat

    /** An empty buffer is marked by a tail at its end. */
    ghost predicate Valid()
      reads this
    {
      && head <= buf.Length && tail <= buf.Length
      && (head == buf.Length ==> buf.Length == 0)
      && (tail == buf.Length ==> head == 0)
    }

    predicate Empty()
      reads this
    {
      tail >= buf.Length
    }

    ghost function Contents(): seq<Task>
      requires Valid()
      reads this, buf
    {
      if Empty() then [] else Circle(buf[..], head, tail)
    }

    constructor ()
      ensures Valid() && Contents() == [] && fresh(buf)
    {
      buf := new Task[0];
      head, tail := 0, 0;
    }

    /** Number of elements. */
    method Size() returns (n: nat)
      requires Valid()
      ensures n == |Contents()|
    {
      if Empty() {
        return 0;
      }
      if tail > head {
        return tail - head;
      }
      return (buf.Length - head) + tail;
    }

    /** Doubles a full buffer: the part in front of the tail stays, the part from the head on
        moves to the end. */
    method Expand()
      requires Valid() && tail == head
      modifies this
      ensures Valid() && fresh(buf) && buf.Length > 0
      ensures Contents() == old(Contents())
      ensures tail != head
    {
      if buf.Length > 0 {
        var b, h, e := buf, head, tail;
        var n := b.Length;
        var p := new Task[2 * n];
        var i := 0;
        while i < e
          invariant 0 <= i <= e
          invariant forall k :: 0 <= k < i ==> p[k] == b[k]
          modifies p
        {
          p[i] := b[i];
          i := i + 1;
        }
        var chunk := n - h;
        var newHead := 2 * n - chunk;
        i := 0;
        while i < chunk
          invariant 0 <= i <= chunk
          invariant forall k :: 0 <= k < e ==> p[k] == b[k]
          invariant forall k :: newHead <= k < newHead + i ==> p[k] == b[k - n]
          modifies p
        {
          p[newHead + i] := b[h + i];
          i := i + 1;
        }
        assert p[newHead..] == b[h..] && p[..e] == b[..e];
        buf, head := p, newHead;
      } else {
        buf := new Task[1];
        tail := 1;
      }
    }

    method PushBack(t: Task)
      requires Valid()
      modifies this, buf
      ensures Valid() && (buf == old(buf) || fresh(buf))
      ensures Contents() == old(Contents()) + [t]
    {
      if tail == head {
        Expand();
      }
      ghost var was := Contents();
      if tail == buf.Length {
        tail := 0;
      }
      ghost var b := buf[..];
      buf[tail] := t;
      assert buf[..] == b[tail := t];
      CirclePush(b, head, tail, t);
      tail := tail + 1;
      if tail == buf.Length {
        tail := 0;
      }
    }

    method Front() returns (t: Task)
      requires Valid() && Contents() != []
      ensures t == Contents()[0]
    {
      return buf[head];
    }

    method PopFront()
      requires Valid() && Contents() != []
      modifies this
      ensures Valid() && buf == old(buf)
      ensures Contents() == old(Contents())[1..]
    {
      CirclePop(buf[..], head, tail);
      head := head + 1;
      if head == buf.Length {
        head := 0;
      }
      if tail == head {
        head := 0;
        tail := buf.Length;
      }
    }
  }

  /** One element more behind the tail. */
  lemma CirclePush(buf: seq<Task>, head: nat, tail: nat, t: Task)
    requires head < |buf| && tail < |buf|
    ensures var b, e := buf[tail := t], if tail + 1 == |buf| then 0 else tail + 1;
            && (tail != head ==> Circle(b, head, e) == Circle(buf, head, tail) + [t])
            && (tail == head == 0 ==> Circle(b, head, e) == [t])
  {
    var b, e := buf[tail := t], if tail + 1 == |buf| then 0 else tail + 1;
    if tail != head {
      assert Circle(b, head, e) == Circle(buf, head, tail) + [t];
    }
  }

  /** One element less at the head. */
  lemma CirclePop(buf: seq<Task>, head: nat, tail: nat)
    requires head < |buf| && tail < |buf|
    ensures var h := if head + 1 == |buf| then 0 else head + 1;
            && Circle(buf, head, tail) != []
            && (h != tail ==> Circle(buf, h, tail) == Circle(buf, head, tail)[1..])
            && (h == tail ==> Circle(buf, head, tail)[1..] == [])
  {}

  // ------------------------------------------------------------------ the task list

  /** The addresses of the queued tasks that ask for a function, or of those that do not. */
  function Addresses(tasks: seq<Task>, makesFunc: bool): set<int> {
    set t | t in tasks && t.makesFunc == makesFunc :: t.va
  }

  /** No address is queued twice for the same kind of task. */
  ghost predicate Once(tasks: seq<Task>) {
    forall i, j :: 0 <= i < j < |tasks| ==> tasks[i] != tasks[j]
  }

  class TaskList {
    var queue: CircularVector
    var others: set<int>
    var funcs: set<int>

    /** Each set holds the addresses of its queued tasks, each once. */
    ghost predicate Valid()
      reads this, queue, queue.buf
    {
      && queue.Valid() && Once(queue.Contents())
      && funcs == Addresses(queue.Contents(), true)
      && others == Addresses(queue.Contents(), false)
    }

    constructor ()
      ensures Valid() && queue.Contents() == [] && fresh(queue) && fresh(queue.buf)
    {
      queue := new CircularVector();
      others, funcs := {}, {};
    }

    /** Queues a task, unless its address waits for one of the same kind, or for a function. */
    method PushTaskBack(t: Task) returns (ok: bool)
      requires Valid()
      modifies this, queue, queue.buf
      ensures Valid() && queue == old(queue) && (queue.buf == old(queue.buf) || fresh(queue.buf))
      ensures ok <==> t !in old(queue.Contents()) && (t.makesFunc || Task(t.va, true) !in old(queue.Contents()))
      ensures queue.Contents() == if ok then old(queue.Contents()) + [t] else old(queue.Contents())
    {
      InAddresses(queue.Contents());
      if t.makesFunc {
        if t.va in funcs {
          return false;
        }
        PushedAddresses(queue.Contents(), t);
        queue.PushBack(t);
        funcs := funcs + {t.va};
      } else {
        if t.va in funcs || t.va in others {
          return false;
        }
        PushedAddresses(queue.Contents(), t);
        queue.PushBack(t);
        others := others + {t.va};
      }
      return true;
    }

    /** Takes the oldest task off the queue; its address is always in its set. */
    method PopTaskFront() returns (t: Task)
      requires Valid() && queue.Contents() != []
      modifies this, queue
      ensures Valid() && queue == old(queue) && queue.buf == old(queue.buf)
      ensures [t] + queue.Contents() == old(queue.Contents())
      ensures t.va in if t.makesFunc then old(funcs) else old(others)
    {
      t := queue.Front();
      PoppedAddresses(queue.Contents());
      queue.PopFront();
      if t.makesFunc {
        funcs := funcs - {t.va};
      } else {
        others := others - {t.va};
      }
    }
  }

  lemma InAddresses(tasks: seq<Task>)
    ensures forall t: Task :: t in tasks <==> t.va in Addresses(tasks, t.makesFunc)
  {
    forall t: Task ensures t in tasks <==> t.va in Addresses(tasks, t.makesFunc) {
      if t.va in Addresses(tasks, t.makesFunc) {
        var u :| u in tasks && u.makesFunc == t.makesFunc && u.va == t.va;
        assert u == t;
      }
    }
  }

  lemma PushedAddresses(tasks: seq<Task>, t: Task)
    ensures forall f :: Addresses(tasks + [t], f) == Addresses(tasks, f) + if t.makesFunc == f then {t.va} else {}
    ensures Once(tasks) && t !in tasks ==> Once(tasks + [t])
  {
    assert forall u: Task :: u in tasks + [t] <==> u in tasks || u == t;
  }

  lemma FirstOnce(tasks: seq<Task>)
    requires tasks != [] && Once(tasks)
    ensures tasks[0] !in tasks[1..]
  {
    forall i | 0 <= i < |tasks[1..]| ensures tasks[1..][i] != tasks[0] {
      assert tasks[1..][i] == tasks[i + 1];
    }
  }

  /** Without the oldest task its address is in its set no more. */
  lemma PoppedAddresses(tasks: seq<Task>)
    requires tasks != [] && Once(tasks)
    ensures Once(tasks[1..])
    ensures tasks[0].va in Addresses(tasks, tasks[0].makesFunc)
    ensures forall f :: Addresses(tasks[1..], f) == Addresses(tasks, f)
              - if tasks[0].makesFunc == f then {tasks[0].va} else {}
  {
    InAddresses(tasks);
    InAddresses(tasks[1..]);
    assert tasks == [tasks[0]] + tasks[1..];
    FirstOnce(tasks);
  }
}
