/**
 Bounded channels with a consumer that may receive at any point.
 */
module Channels {

  /** a is what is left of b after dropping some of its elements. */
  ghost predicate Subseq<T>(a: seq<T>, b: seq<T>)
    decreases |b|
  {
    a == [] ||
    (b != [] &&
      (Subseq(a, b[..|b| - 1]) || (a[|a| - 1] == b[|b| - 1] && Subseq(a[..|a| - 1], b[..|b| - 1]))))
  }

  lemma SubseqSnoc<T>(a: seq<T>, b: seq<T>, x: T)
    requires Subseq(a, b)
    ensures Subseq(a, b + [x]) && Subseq(a + [x], b + [x])
  {
    assert (b + [x])[..|b|] == b && (a + [x])[..|a|] == a;
  }

  lemma {:induction false} SubseqRemove<T>(a: seq<T>, i: nat, b: seq<T>)
    requires i < |a| && Subseq(a, b)
    ensures Subseq(a[..i] + a[i + 1..], b)
    decreases |b|
  {
    var b0, a0, c := b[..|b| - 1], a[..|a| - 1], a[..i] + a[i + 1..];
    if Subseq(a, b0) {
      SubseqRemove(a, i, b0);
    } else if i == |a| - 1 {
      assert c == a0;
    } else {
      SubseqRemove(a0, i, b0);
      assert c[..|c| - 1] == a0[..i] + a0[i + 1..];
    }
  }

  lemma {:induction false} SubseqMembers<T>(a: seq<T>, b: seq<T>)
    requires Subseq(a, b)
    ensures forall x :: x in a ==> x in b
    decreases |b|
  {
    if a != [] {
      var b0 := b[..|b| - 1];
      if Subseq(a, b0) {
        SubseqMembers(a, b0);
      } else {
        SubseqMembers(a[..|a| - 1], b0);
        assert a == a[..|a| - 1] + [b[|b| - 1]] && b == b0 + [b[|b| - 1]];
      }
    }
  }

  /**
   Of `all`, delivered and queued, everything stays in order but at most one
   element, the oldest that was not delivered, and x follows.
   */
  ghost predicate Pushed<T>(all: seq<T>, delivered: nat, all': seq<T>, delivered': nat, x: T) {
    || all' == all + [x]
    || exists i :: delivered <= i < |all| && i <= delivered' && all' == all[..i] + all[i + 1..] + [x]
  }

  class Chan<T> {
    const capacity: nat
    var queue: seq<T>
    var taken: seq<T> // the consumer: everything it received
    ghost var offered: seq<T> // everything a producer wanted to send

    ghost predicate Valid()
      reads this
    {
      |queue| <= capacity && Subseq(taken + queue, offered)
    }

    constructor (capacity: nat)
      ensures Valid() && this.capacity == capacity
      ensures queue == taken == offered == []
    {
      this.capacity := capacity;
      queue, taken, offered := [], [], [];
    }

    /** The consumer receives any number of elements, from the front. */
    method ConsumerMayReceive()
      requires Valid()
      modifies this`queue, this`taken
      ensures Valid() && old(taken) <= taken && taken + queue == old(taken + queue)
    {
      var k: nat :| k <= |queue|;
      assert queue == queue[..k] + queue[k..];
      assert taken + queue == (taken + queue[..k]) + queue[k..];
      taken, queue := taken + queue[..k], queue[k..];
    }

    method Receive() returns (x: T)
      requires Valid() && queue != []
      modifies this`queue, this`taken
      ensures Valid() && x == old(queue)[0] && queue == old(queue)[1..] && taken == old(taken) + [x]
    {
      x := queue[0];
      assert taken + queue == (taken + [x]) + queue[1..];
      taken, queue := taken + [x], queue[1..];
    }

    /** A send that gives up when the queue is full. */
    method TrySend(x: T) returns (sent: bool)
      requires Valid()
      modifies this`queue, this`offered
      ensures Valid() && offered == old(offered) + [x]
      ensures sent <==> |old(queue)| < capacity
      ensures queue == if sent then old(queue) + [x] else old(queue)
    {
      SubseqSnoc(taken + queue, offered, x);
      offered := offered + [x];
      sent := |queue| < capacity;
      if sent {
        assert taken + (queue + [x]) == (taken + queue) + [x];
        queue := queue + [x];
      }
    }

    /**
     A non-blocking send after the consumer may have received: x follows what was
     delivered and queued, or is dropped, which takes a queue that was full.
     */
    method Offer(x: T)
      requires Valid()
      modifies this
      ensures Valid() && offered == old(offered) + [x] && old(taken) <= taken
      ensures taken + queue == old(taken + queue) + [x]
           || (taken + queue == old(taken + queue) && |old(queue)| == capacity)
    {
      ConsumerMayReceive();
      ghost var before := queue;
      var sent := TrySend(x);
      assert taken + (before + [x]) == (taken + before) + [x];
    }

    /** A producer drops the oldest element, if there is one. */
    method Evict()
      requires Valid()
      modifies this`queue
      ensures Valid() && queue == if old(queue) == [] then [] else old(queue)[1..]
    {
      if queue != [] {
        EvictedSubseq(offered);
        queue := queue[1..];
      }
    }

    lemma EvictedSubseq(all: seq<T>)
      requires queue != [] && Subseq(taken + queue, all)
      ensures Subseq(taken + queue[1..], all)
    {
      SubseqRemove(taken + queue, |taken|, all);
      assert (taken + queue)[..|taken|] + (taken + queue)[|taken| + 1..] == taken + queue[1..];
    }

    /** A send that would block on a full queue; every call below is made with room. */
    method Send(x: T, ghost before: seq<T>)
      requires |queue| < capacity
      requires offered == before + [x] && Subseq(taken + queue, before)
      modifies this`queue
      ensures Valid() && queue == old(queue) + [x]
    {
      SubseqSnoc(taken + queue, before, x);
      assert taken + (queue + [x]) == (taken + queue) + [x];
      queue := queue + [x];
    }

    /**
     Send, replacing the oldest element when the consumer is slow. Whatever the
     consumer does meanwhile, there is room for the final send, x ends up newest
     in the queue, and nothing is lost but at most the oldest element not delivered.
     */
    method SendLatest(x: T)
      requires Valid() && capacity > 0
      modifies this
      ensures Valid() && offered == old(offered) + [x]
      ensures old(taken) <= taken
      ensures queue != [] && queue[|queue| - 1] == x
      ensures |old(queue)| < capacity ==> taken == old(taken) && queue == old(queue) + [x]
      ensures Pushed(old(taken + queue), |old(taken)|, taken + queue, |taken|, x)
    {
      hide Subseq;
      ghost var before, all, delivered := offered, taken + queue, |taken|;
      var sent := TrySend(x);
      if sent {
        assert taken + queue == all + [x];
      } else {
        ConsumerMayReceive();
        ghost var at := |taken|;
        if queue != [] {
          EvictedSubseq(before);
          assert all[..at] + all[at + 1..] == taken + queue[1..];
        }
        Evict();
        ConsumerMayReceive();
        ghost var rest := taken + queue;
        Send(x, before);
        assert taken + queue == rest + [x];
      }
    }
  }
}
