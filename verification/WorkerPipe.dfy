/**
 The circular doubly linked list of list.h, the message queue of a worker with its wake byte, and the interleaving of the
 threads that post messages and take them.
 */
module MessagePipes {
  import opened Bytes
  import opened Wrappers

  type Data = seq<byte>

  // ----- the circular list -----

  /** A list_head, embedded in a message; the head of the queue carries no data. */
  class ListHead {
    var prev: ListHead?
    var next: ListHead?
    const data: Data

    constructor (data: Data)
      ensures this.data == data && prev == null && next == null
    {
      this.data := data;
      prev, next := null, null;
    }
  }

  function After(i: nat, n: nat): nat
    requires i < n
  {
    if i + 1 == n then 0 else i + 1
  }

  /** The elements of r are linked in this order, both ways round. */
  ghost predicate Ring(r: seq<ListHead>)
    reads r
  {
    r != [] && Distinct(r) && forall i: nat | i < |r| :: Follows(r[i], r[After(i, |r|)])
  }

  ghost predicate Distinct<T>(r: seq<T>) {
    forall i, j | 0 <= i < j < |r| :: r[i] != r[j]
  }

  /** b comes after a. */
  ghost predicate Follows(a: ListHead, b: ListHead)
    reads a, b
  {
    a.next == b && b.prev == a
  }

  /** A sequence with el after position i: what is at position k, and what comes after it. */
  lemma InsertedAt<T>(r: seq<T>, i: nat, el: T, k: nat)
    requires i < |r| && k <= |r|
    ensures var t := r[..i + 1] + [el] + r[i + 1..];
            && |t| == |r| + 1
            && t[k] == (if k <= i then r[k] else if k == i + 1 then el else r[k - 1])
            && t[After(k, |t|)] == if k < i then r[k + 1] else if k == i then el else r[After(k - 1, |r|)]
  {
    var t := r[..i + 1] + [el] + r[i + 1..];
    if k + 1 == |t| {
      assert t[0] == r[0];
    } else {
      assert t[k + 1] == if k + 1 <= i then r[k + 1] else if k == i then el else r[k];
    }
  }

  /** A sequence without position i. */
  lemma RemovedAt<T>(r: seq<T>, i: nat, k: nat)
    requires 0 < i < |r| && k + 1 < |r|
    ensures var t := r[..i] + r[i + 1..];
            && |t| == |r| - 1
            && t[k] == (if k < i then r[k] else r[k + 1])
            && t[After(k, |t|)] == if k < i - 1 then r[k + 1] else if k == i - 1 then r[After(i, |r|)] else r[After(k + 1, |r|)]
  {
    var t := r[..i] + r[i + 1..];
    if k + 1 == |t| {
      assert t[0] == r[0];
    } else {
      assert t[k + 1] == if k + 1 < i then r[k + 1] else r[k + 2];
    }
  }

  lemma InsertedDistinct<T>(r: seq<T>, i: nat, el: T)
    requires i < |r| && Distinct(r) && el !in r
    ensures Distinct(r[..i + 1] + [el] + r[i + 1..])
  {
    var t := r[..i + 1] + [el] + r[i + 1..];
    forall j, k | 0 <= j < k < |t| ensures t[j] != t[k] {
      InsertedAt(r, i, el, j);
      InsertedAt(r, i, el, k);
    }
  }

  lemma RemovedDistinct<T>(r: seq<T>, i: nat)
    requires 0 < i < |r| && Distinct(r)
    ensures Distinct(r[..i] + r[i + 1..])
  {
    var t := r[..i] + r[i + 1..];
    forall j, k | 0 <= j < k < |t| ensures t[j] != t[k] {
      RemovedAt(r, i, j);
      RemovedAt(r, i, k);
    }
  }

  /** The links after el was put between neighbours i and i + 1. */
  lemma RingInserted(r: seq<ListHead>, i: nat, el: ListHead)
    requires i < |r| && Distinct(r) && el !in r
    requires forall j: nat | j < |r| && j != i :: Follows(r[j], r[After(j, |r|)])
    requires Follows(r[i], el) && Follows(el, r[After(i, |r|)])
    ensures Ring(r[..i + 1] + [el] + r[i + 1..])
  {
    hide Follows, Distinct;
    InsertedDistinct(r, i, el);
    var t := r[..i + 1] + [el] + r[i + 1..];
    forall k: nat | k < |t| ensures Follows(t[k], t[After(k, |t|)]) {
      InsertedAt(r, i, el, k);
      if k < i {
        assert Follows(r[k], r[After(k, |r|)]);
      } else if k > i + 1 {
        assert Follows(r[k - 1], r[After(k - 1, |r|)]);
      }
    }
  }

  /** The links after the neighbours of element i were joined. */
  lemma RingRemoved(r: seq<ListHead>, i: nat)
    requires 0 < i < |r| && Distinct(r)
    requires forall j: nat | j < |r| && j != i && j != i - 1 :: Follows(r[j], r[After(j, |r|)])
    requires Follows(r[i - 1], r[After(i, |r|)])
    ensures Ring(r[..i] + r[i + 1..])
  {
    hide Follows, Distinct;
    RemovedDistinct(r, i);
    var t := r[..i] + r[i + 1..];
    forall k: nat | k < |t| ensures Follows(t[k], t[After(k, |t|)]) {
      RemovedAt(r, i, k);
      if k < i - 1 {
        assert Follows(r[k], r[After(k, |r|)]);
      } else if k > i - 1 {
        assert Follows(r[k + 1], r[After(k + 1, |r|)]);
      }
    }
  }

  method InitListHead(head: ListHead)
    modifies head
    ensures Ring([head])
  {
    head.prev := head;
    head.next := head;
  }

  /** __list_add, between neighbours i and i + 1 of a ring. */
  method ListInsert(el: ListHead, prev: ListHead, next: ListHead, ghost r: seq<ListHead>, ghost i: nat)
    requires Ring(r) && el !in r && i < |r| && prev == r[i] && next == r[After(i, |r|)]
    modifies prev`next, el, next`prev
    ensures Ring(r[..i + 1] + [el] + r[i + 1..])
  {
    prev.next := el;
    el.prev := prev;
    el.next := next;
    next.prev := el;
    forall j: nat | j < |r| && j != i ensures Follows(r[j], r[After(j, |r|)]) {
      assert old(Follows(r[j], r[After(j, |r|)]));
      assert r[j] != prev && r[After(j, |r|)] != next && r[j] != el && r[After(j, |r|)] != el;
    }
    RingInserted(r, i, el);
  }

  method ListAddTail(el: ListHead, head: ListHead, ghost r: seq<ListHead>)
    requires Ring(r) && el !in r && head == r[0]
    modifies r, el
    ensures Ring(r + [el])
  {
    ghost var i := |r| - 1;
    assert After(i, |r|) == 0 && Follows(r[i], r[After(i, |r|)]);
    ListInsert(el, head.prev, head, r, i);
    assert r[..i + 1] + [el] + r[i + 1..] == r + [el];
  }

  method ListDel(el: ListHead, ghost r: seq<ListHead>, ghost i: nat)
    requires Ring(r) && 0 < i < |r| && el == r[i]
    modifies r
    ensures Ring(r[..i] + r[i + 1..]) && el.prev == null && el.next == null
  {
    assert Follows(r[i - 1], r[After(i - 1, |r|)]) && Follows(r[i], r[After(i, |r|)]);
    var prev, next := el.prev, el.next;
    prev.next := next;
    next.prev := prev;
    el.prev := null;
    el.next := null;
    forall j: nat | j < |r| && j != i && j != i - 1 ensures Follows(r[j], r[After(j, |r|)]) {
      assert old(Follows(r[j], r[After(j, |r|)]));
      assert r[j] != prev && r[After(j, |r|)] != next && r[j] != el && r[After(j, |r|)] != el;
    }
    assert Follows(r[i - 1], r[After(i, |r|)]);
    RingRemoved(r, i);
  }

  method ListEmpty(head: ListHead, ghost r: seq<ListHead>) returns (b: bool)
    requires Ring(r) && head == r[0]
    ensures b <==> |r| == 1
  {
    b := head.next == head;
    assert Follows(r[0], r[After(0, |r|)]);
  }

  // ----- the message pipe -----

  function Contents(r: seq<ListHead>): seq<Data> {
    if r == [] then [] else [r[0].data] + Contents(r[1..])
  }

  lemma {:induction false} ContentsPush(r: seq<ListHead>, el: ListHead)
    ensures Contents(r + [el]) == Contents(r) + [el.data]
  {
    if r == [] {
      assert r + [el] == [el];
    } else {
      ContentsPush(r[1..], el);
      assert (r + [el])[1..] == r[1..] + [el];
    }
  }

  lemma {:induction false} ContentsLength(r: seq<ListHead>)
    ensures |Contents(r)| == |r|
  {
    if r != [] {
      ContentsLength(r[1..]);
    }
  }

  lemma QueuePush(r: seq<ListHead>, el: ListHead)
    requires r != []
    ensures (r + [el])[1..] == r[1..] + [el] && Contents((r + [el])[1..]) == Contents(r[1..]) + [el.data]
  {
    ContentsPush(r[1..], el);
    assert (r + [el])[1..] == r[1..] + [el];
  }

  /** The queue without its first message. */
  lemma QueueFirst(r: seq<ListHead>)
    requires r != []
    ensures |Contents(r[1..])| == |r| - 1
    ensures |r| > 1 ==> var rest := r[..1] + r[2..];
              |rest| == |r| - 1 && rest[0] == r[0] && (forall x | x in rest :: x in r)
              && Contents(r[1..])[0] == r[1].data && Contents(rest[1..]) == Contents(r[1..])[1..]
  {
    ContentsLength(r[1..]);
    if |r| > 1 {
      var rest := r[..1] + r[2..];
      assert rest[1..] == r[2..] == r[1..][1..];
    }
  }

  /** The element after element k, none of the messages before message `gone` being read. */
  method NextOf(el: ListHead, ghost r: seq<ListHead>, ghost k: nat, ghost gone: nat) returns (n: ListHead)
    requires Ring(r) && k < |r| && el == r[k] && 1 <= gone <= |r| && (k == 0 || gone <= k)
    ensures n == r[After(k, |r|)] && el !in r[1..gone]
  {
    assert Follows(r[k], r[After(k, |r|)]);
    assert forall j | 1 <= j < gone :: r[j] != r[k];
    n := el.next;
  }

  lemma ContentsFrom(r: seq<ListHead>, i: nat)
    requires i < |r|
    ensures Contents(r[i..]) == [r[i].data] + Contents(r[i + 1..])
  {
    assert r[i..][1..] == r[i + 1..];
  }

  lemma NothingLeft(r: seq<ListHead>)
    ensures Contents(r[|r|..]) == []
  {
  }

  /** In a ring the head is only at position 0. */
  lemma IndexOfHead(r: seq<ListHead>, i: nat)
    requires Ring(r) && 1 <= i <= |r| && r[if i < |r| then i else 0] == r[0]
    ensures i == |r|
  {
    assert forall j | 0 < j < |r| :: r[0] != r[j];
  }

  /** One wake byte is pending exactly when there are messages. */
  function Wake(messages: nat): nat {
    if messages == 0 then 0 else 1
  }

  class MessagePipe {
    var refCount: int
    const msgQueue: ListHead
    /** The bytes that were written to the waker and not read yet. */
    var pending: nat
    ghost var ring: seq<ListHead>

    /** The messages are linked in a ring with the head of the queue. */
    ghost predicate Linked()
      reads this, ring
    {
      ring != [] && Ring(ring) && ring[0] == msgQueue
    }

    /** What holds whenever no thread is in the locked section. */
    ghost predicate Valid()
      reads this, ring
    {
      Linked() && pending == Wake(|ring| - 1)
    }

    ghost function Queue(): seq<Data>
      requires Linked()
      reads this, ring
    {
      Contents(ring[1..])
    }

    /** js_new_message_pipe */
    constructor ()
      ensures Valid() && Queue() == [] && refCount == 1 && fresh(ring)
    {
      var head := new ListHead([]);
      msgQueue := head;
      pending := 0;
      refCount := 1;
      ring := [head];
      new;
      InitListHead(msgQueue);
    }

    /** js_waker_signal, when the write is not interrupted. */
    method Signal()
      modifies this`pending
      ensures pending == old(pending) + 1
    {
      pending := pending + 1;
    }

    /** js_waker_clear: reads up to 16 bytes. A read with nothing pending would block. */
    method Clear()
      requires pending > 0
      modifies this`pending
      ensures pending == if old(pending) <= 16 then 0 else old(pending) - 16
    {
      pending := if pending <= 16 then 0 else pending - 16;
    }

    /** Before a message is added: the wake byte, if the queue is empty. */
    method SignalIfEmpty()
      requires Linked()
      modifies this`pending
      ensures Linked() && ring == old(ring) && Queue() == old(Queue())
      ensures pending == old(pending) + if Queue() == [] then 1 else 0
    {
      hide Ring, Contents;
      ContentsLength(ring[1..]);
      var empty := ListEmpty(msgQueue, ring);
      if empty {
        Signal();
      }
    }

    /** A message goes to the end of the queue. */
    method Append(msg: ListHead)
      requires Linked() && msg !in ring
      modifies this`ring, ring, msg
      ensures Linked() && ring == old(ring) + [msg] && Queue() == old(Queue()) + [msg.data]
    {
      hide Ring, Contents;
      ListAddTail(msg, msgQueue, ring);
      QueuePush(ring, msg);
      ring := ring + [msg];
    }

    /** The oldest message leaves the queue, if there is one. */
    method RemoveFirst() returns (el: ListHead?)
      requires Linked()
      modifies this`ring, ring
      ensures Linked() && forall x | x in ring :: x in old(ring)
      ensures |ring| == if |old(ring)| == 1 then 1 else |old(ring)| - 1
      ensures if old(Queue()) == [] then el == null && Queue() == []
              else el != null && el.data == old(Queue())[0] && Queue() == old(Queue())[1..]
    {
      hide Ring, Contents;
      QueueFirst(ring);
      var empty := ListEmpty(msgQueue, ring);
      if empty {
        return null;
      }
      el := NextOf(msgQueue, ring, 0, 1);
      ghost var rest := ring[..1] + ring[2..];
      ListDel(el, ring, 1);
      ring := rest;
    }

    /** After a message was removed: the wake byte is read, if the queue is empty now. */
    method ClearIfEmpty()
      requires Linked() && (Queue() == [] ==> pending > 0)
      modifies this`pending
      ensures Linked() && ring == old(ring) && Queue() == old(Queue())
      ensures pending == if Queue() != [] then old(pending) else if old(pending) <= 16 then 0 else old(pending) - 16
    {
      hide Ring, Contents;
      ContentsLength(ring[1..]);
      var last := ListEmpty(msgQueue, ring);
      if last {
        Clear();
      }
    }

    /** The locked section of js_worker_postMessage, with the message made before. */
    method PostMessage(msg: ListHead)
      requires Valid() && msg !in ring
      modifies this`pending, this`ring, ring, msg
      ensures Valid() && ring == old(ring) + [msg] && Queue() == old(Queue()) + [msg.data]
    {
      hide Ring, Contents;
      ContentsLength(ring[1..]);
      SignalIfEmpty();
      Append(msg);
    }

    /** The locked section of handle_posted_message: the oldest message, if there is one. */
    method HandlePostedMessage() returns (r: Option<Data>)
      requires Valid()
      modifies this`pending, this`ring, ring
      ensures Valid() && forall x | x in ring :: x in old(ring)
      ensures if old(Queue()) == [] then r == None && Queue() == []
              else r == Some(old(Queue())[0]) && Queue() == old(Queue())[1..]
    {
      hide Ring, Contents;
      ContentsLength(ring[1..]);
      var el := RemoveFirst();
      ContentsLength(ring[1..]);
      if el != null {
        ClearIfEmpty();
        r := Some(el.data);
      } else {
        r := None;
      }
    }

    /** js_free_message_pipe: with the last reference, every message that was not taken is freed, once, and none is read after that. */
    method Free() returns (freed: seq<Data>)
      requires Valid() && refCount > 0
      modifies this`refCount
      ensures refCount == old(refCount) - 1
      ensures Valid() && freed == if refCount == 0 then old(Queue()) else []
    {
      hide Ring, Contents;
      refCount := refCount - 1;
      freed := [];
      if refCount == 0 {
        ghost var i := 1;
        var el := NextOf(msgQueue, ring, 0, 1);
        var el1 := NextOf(el, ring, if |ring| == 1 then 0 else 1, 1);
        while el != msgQueue
          invariant Valid() && refCount == old(refCount) - 1 && 1 <= i <= |ring| && el == ring[if i < |ring| then i else 0]
          invariant el1 == ring[if i + 1 < |ring| then i + 1 else if i < |ring| then 0 else After(0, |ring|)]
          invariant freed + Contents(ring[i..]) == Contents(ring[1..])
          decreases |ring| - i
        {
          ContentsFrom(ring, i);
          freed := freed + [el.data];
          i := i + 1;
          el := el1;
          el1 := NextOf(el, ring, if i < |ring| then i else 0, i);
        }
        IndexOfHead(ring, i);
        NothingLeft(ring);
        assert freed + [] == freed == Contents(ring[1..]);
      }
    }
  }
}
