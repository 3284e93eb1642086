/** The intrusive queues of `qemu-queue.h`.

    A `Link` is the pair of pointers that a tail queue head and the field of a queue entry have in
    common.  `next` is `tqh_first` or `tqe_next`.  `prev` is `tqh_last` or `tqe_prev`: the address of
    some link's `next`, represented by that link.  Reading an entry's link as if it were a head, as
    `QTAILQ_LAST` and `QTAILQ_PREV` do, is then reading the same two fields.

    A queue is described by its chain: the head followed by the entries in order. */
module Queues {

  class Link {
    var next: Link?
    var prev: Link?
  }

  ghost predicate Distinct(c: seq<Link>) {
    forall i, j :: 0 <= i < j < |c| ==> c[i] != c[j]
  }

  /** Every link's `next` is its successor in the chain. */
  ghost predicate Forward(c: seq<Link>)
    reads c
  {
    && c != [] && Distinct(c)
    && (forall i {:trigger c[i].next} :: 0 <= i < |c| - 1 ==> c[i].next == c[i + 1])
    && c[|c| - 1].next == null
  }

  /** Every entry's `prev` addresses its predecessor's `next`. */
  ghost predicate Backward(c: seq<Link>)
    reads c
  {
    forall i {:trigger c[i].prev} :: 1 <= i < |c| ==> c[i].prev == c[i - 1]
  }

  /** `QLIST`: doubly linked, the head's `prev` is not used. */
  ghost predicate List(c: seq<Link>)
    reads c
  {
    Forward(c) && Backward(c)
  }

  /** `QSIMPLEQ`: singly linked, the head's `prev` addresses the last `next`. */
  ghost predicate SimpleQueue(c: seq<Link>)
    reads c
  {
    Forward(c) && c[0].prev == c[|c| - 1]
  }

  /** `QTAILQ`: doubly linked, and the head's `prev` addresses the last `next`. */
  ghost predicate TailQueue(c: seq<Link>)
    reads c
  {
    Forward(c) && Backward(c) && c[0].prev == c[|c| - 1]
  }

  ghost function Insert(c: seq<Link>, k: nat, x: Link): seq<Link>
    requires k <= |c|
  {
    c[..k] + [x] + c[k..]
  }

  ghost function Delete(c: seq<Link>, k: nat): seq<Link>
    requires k < |c|
  {
    c[..k] + c[k + 1..]
  }

  ghost function Reverse(s: seq<Link>): seq<Link> {
    if s == [] then [] else Reverse(s[1..]) + [s[0]]
  }

  // ---------------------------------------------------------------- tail queues

  method TailInit(head: Link)
    modifies head
    ensures TailQueue([head])
  {
    head.next := null;
    head.prev := head;
  }

  method TailInsertHead(head: Link, elm: Link, ghost c: seq<Link>)
    requires TailQueue(c) && c[0] == head && elm !in c
    modifies head, elm, if |c| > 1 then {c[1]} else {}
    ensures TailQueue(Insert(c, 1, elm))
  {
    elm.next := head.next;
    if elm.next != null {
      head.next.prev := elm;
    } else {
      head.prev := elm;
    }
    head.next := elm;
    elm.prev := head;
  }

  method TailInsertTail(head: Link, elm: Link, ghost c: seq<Link>)
    requires TailQueue(c) && c[0] == head && elm !in c
    modifies head, elm, c[|c| - 1]
    ensures TailQueue(Insert(c, |c|, elm))
  {
    elm.next := null;
    elm.prev := head.prev;
    head.prev.next := elm;
    head.prev := elm;
  }

  method TailInsertAfter(head: Link, listelm: Link, elm: Link, ghost c: seq<Link>, ghost k: nat)
    requires TailQueue(c) && c[0] == head && elm !in c
    requires 1 <= k < |c| && c[k] == listelm
    modifies head, elm, listelm, if k + 1 < |c| then {c[k + 1]} else {}
    ensures TailQueue(Insert(c, k + 1, elm))
  {
    elm.next := listelm.next;
    if elm.next != null {
      elm.next.prev := elm;
    } else {
      head.prev := elm;
    }
    listelm.next := elm;
    elm.prev := listelm;
  }

  /** Does not need the head. */
  method TailInsertBefore(listelm: Link, elm: Link, ghost c: seq<Link>, ghost k: nat)
    requires TailQueue(c) && elm !in c
    requires 1 <= k < |c| && c[k] == listelm
    modifies elm, listelm, c[k - 1]
    ensures TailQueue(Insert(c, k, elm))
  {
    elm.prev := listelm.prev;
    elm.next := listelm;
    listelm.prev.next := elm;
    listelm.prev := elm;
  }

  /** The removed entry keeps its own pointers. */
  method TailRemove(head: Link, elm: Link, ghost c: seq<Link>, ghost k: nat)
    requires TailQueue(c) && c[0] == head
    requires 1 <= k < |c| && c[k] == elm
    modifies head, c[k - 1], if k + 1 < |c| then {c[k + 1]} else {}
    ensures TailQueue(Delete(c, k))
    ensures elm.next == old(elm.next) && elm.prev == old(elm.prev)
  {
    if elm.next != null {
      elm.next.prev := elm.prev;
    } else {
      head.prev := elm.prev;
    }
    elm.prev.next := elm.next;
  }

  /** `QTAILQ_LAST`: the link that the head's `prev` leads to, read as a head. */
  method TailLast(head: Link, ghost c: seq<Link>) returns (last: Link?)
    requires TailQueue(c) && c[0] == head
    ensures last == if |c| == 1 then null else c[|c| - 1]
  {
    last := head.prev.prev.next;
  }

  /** `QTAILQ_PREV`: NULL for the first entry. */
  method TailPrev(elm: Link, ghost c: seq<Link>, ghost k: nat) returns (previous: Link?)
    requires TailQueue(c) && 1 <= k < |c| && c[k] == elm
    ensures previous == if k == 1 then null else c[k - 1]
  {
    previous := elm.prev.prev.next;
  }

  /** `QTAILQ_FOREACH`. */
  method Traverse(head: Link, ghost c: seq<Link>) returns (visited: seq<Link>)
    requires Forward(c) && c[0] == head
    ensures visited == c[1..]
  {
    visited := [];
    var v := head.next;
    ghost var k := 1;
    while v != null
      invariant 1 <= k <= |c| && visited == c[1..k]
      invariant v == if k < |c| then c[k] else null
      decreases |c| - k
    {
      visited := visited + [v];
      v := v.next;
      k := k + 1;
    }
  }

  lemma {:induction false} ReverseAppendsFirst(s: seq<Link>, k: nat)
    requires k < |s|
    ensures Reverse(s[k..]) == Reverse(s[k + 1..]) + [s[k]]
  {
    assert s[k..][1..] == s[k + 1..];
  }

  /** `QTAILQ_FOREACH_REVERSE` visits the reverse of what `QTAILQ_FOREACH` visits. */
  method TraverseReverse(head: Link, ghost c: seq<Link>) returns (visited: seq<Link>)
    requires TailQueue(c) && c[0] == head
    ensures visited == Reverse(c[1..])
  {
    visited := [];
    ghost var entries := c[1..];
    ghost var k := |entries|;
    var v := head.prev.prev.next;
    while v != null
      invariant 0 <= k <= |entries| && visited == Reverse(entries[k..])
      invariant v == if k == 0 then null else entries[k - 1]
      decreases k
    {
      ReverseAppendsFirst(entries, k - 1);
      visited := visited + [v];
      v := v.prev.prev.next;
      k := k - 1;
    }
    assert entries[0..] == entries;
  }

  // ---------------------------------------------------------------- simple queues

  method SimpleInit(head: Link)
    modifies head
    ensures SimpleQueue([head])
  {
    head.next := null;
    head.prev := head;
  }

  method SimpleInsertHead(head: Link, elm: Link, ghost c: seq<Link>)
    requires SimpleQueue(c) && c[0] == head && elm !in c
    modifies head, elm`next
    ensures SimpleQueue(Insert(c, 1, elm))
  {
    elm.next := head.next;
    if elm.next == null {
      head.prev := elm;
    }
    head.next := elm;
  }

  method SimpleInsertTail(head: Link, elm: Link, ghost c: seq<Link>)
    requires SimpleQueue(c) && c[0] == head && elm !in c
    modifies head, elm`next, c[|c| - 1]
    ensures SimpleQueue(Insert(c, |c|, elm))
  {
    elm.next := null;
    head.prev.next := elm;
    head.prev := elm;
  }

  method SimpleInsertAfter(head: Link, listelm: Link, elm: Link, ghost c: seq<Link>, ghost k: nat)
    requires SimpleQueue(c) && c[0] == head && elm !in c
    requires 1 <= k < |c| && c[k] == listelm
    modifies head`prev, elm`next, listelm`next
    ensures SimpleQueue(Insert(c, k + 1, elm))
  {
    elm.next := listelm.next;
    if elm.next == null {
      head.prev := elm;
    }
    listelm.next := elm;
  }

  method SimpleRemoveHead(head: Link, ghost c: seq<Link>)
    requires SimpleQueue(c) && c[0] == head && |c| > 1
    modifies head
    ensures SimpleQueue(Delete(c, 1))
  {
    head.next := head.next.next;
    if head.next == null {
      head.prev := head;
    }
  }

  /** Walks to the predecessor of `elm`; terminates because `elm` is on the queue. */
  method SimpleRemove(head: Link, elm: Link, ghost c: seq<Link>, ghost k: nat)
    requires SimpleQueue(c) && c[0] == head
    requires 1 <= k < |c| && c[k] == elm
    modifies head, c[k - 1]
    ensures SimpleQueue(Delete(c, k))
  {
    if head.next == elm {
      SimpleRemoveHead(head, c);
    } else {
      var curelm := head.next;
      ghost var i := 1;
      while curelm.next != elm
        invariant 1 <= i < k && curelm == c[i]
        decreases k - i
      {
        curelm := curelm.next;
        i := i + 1;
      }
      curelm.next := curelm.next.next;
      if curelm.next == null {
        head.prev := curelm;
      }
    }
  }

  /** Moves all entries of the second queue to the end of the first. */
  method SimpleConcat(head1: Link, head2: Link, ghost c1: seq<Link>, ghost c2: seq<Link>)
    requires SimpleQueue(c1) && c1[0] == head1 && SimpleQueue(c2) && c2[0] == head2
    requires forall i, j :: 0 <= i < |c1| && 0 <= j < |c2| ==> c1[i] != c2[j]
    modifies head1, head2, c1[|c1| - 1]
    ensures SimpleQueue(c1 + c2[1..]) && SimpleQueue([head2])
  {
    if head2.next != null {
      head1.prev.next := head2.next;
      head1.prev := head2.prev;
      SimpleInit(head2);
      ghost var c := c1 + c2[1..];
      assert forall i :: |c1| <= i < |c| ==> c[i] == c2[i - |c1| + 1];
      assert forall i :: 0 <= i < |c1| ==> c[i] == c1[i] && c1[i] in c1;
      assert forall i {:trigger c2[i]} :: 0 <= i < |c2| ==> c2[i] in c2;
    } else {
      assert c1 + c2[1..] == c1;
    }
  }

  method SimpleLast(head: Link, ghost c: seq<Link>) returns (last: Link?)
    requires SimpleQueue(c) && c[0] == head
    ensures last == if |c| == 1 then null else c[|c| - 1]
  {
    last := if head.next == null then null else head.prev;
  }

  // ---------------------------------------------------------------- lists

  method ListInsertAfter(listelm: Link, elm: Link, ghost c: seq<Link>, ghost k: nat)
    requires List(c) && elm !in c
    requires 1 <= k < |c| && c[k] == listelm
    modifies listelm`next, elm, if k + 1 < |c| then {c[k + 1]} else {}
    ensures List(Insert(c, k + 1, elm))
  {
    elm.next := listelm.next;
    if elm.next != null {
      listelm.next.prev := elm;
    }
    listelm.next := elm;
    elm.prev := listelm;
  }

  method ListInsertBefore(listelm: Link, elm: Link, ghost c: seq<Link>, ghost k: nat)
    requires List(c) && elm !in c
    requires 1 <= k < |c| && c[k] == listelm
    modifies listelm`prev, elm, c[k - 1]
    ensures List(Insert(c, k, elm))
  {
    elm.prev := listelm.prev;
    elm.next := listelm;
    listelm.prev.next := elm;
    listelm.prev := elm;
  }

  method ListInsertHead(head: Link, elm: Link, ghost c: seq<Link>)
    requires List(c) && c[0] == head && elm !in c
    modifies head`next, elm, if |c| > 1 then {c[1]} else {}
    ensures List(Insert(c, 1, elm))
  {
    elm.next := head.next;
    if elm.next != null {
      head.next.prev := elm;
    }
    head.next := elm;
    elm.prev := head;
  }

  method ListRemove(elm: Link, ghost c: seq<Link>, ghost k: nat)
    requires List(c) && 1 <= k < |c| && c[k] == elm
    modifies c[k - 1], if k + 1 < |c| then {c[k + 1]} else {}
    ensures List(Delete(c, k))
  {
    if elm.next != null {
      elm.next.prev := elm.prev;
    }
    elm.prev.next := elm.next;
  }
}
