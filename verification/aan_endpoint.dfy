// The loops of aan over its buffer channels, as code that changes an endpoint's state.

/** fromclient's queueing, fromnet's ack loop and synchronize, proved against the steps of the model. */
module AanEndpoint {
  import opened AanModel
  import AanSafety

  datatype Outcome = Finished | Blocked | Bug

  /** The channels of one endpoint and what it writes on its connections. */
  class Endpoint {
    var empty: seq<Buf>
    var unsent: seq<Buf>
    var unacked: seq<Buf>
    var outmsg: nat
    var lastacked: nat
    var link: Link
    ghost var log: seq<Bytes>
    ghost var clientEof: bool

    /** The state the model speaks of, between two rounds of fromclient and with no write outstanding. */
    ghost function Queue(): Queues
      reads this
    {
      Queues(empty, None, unsent, unacked, false, lastacked, log, clientEof)
    }

    ghost predicate Valid()
      reads this
    {
      outmsg == |log|
    }

    constructor ()
      ensures Valid() && Queue() == InitialSide().q && link == InitialSide().link
    {
      empty := InitialSide().q.empty;
      unsent, unacked, outmsg, lastacked := [], [], 0, 0;
      link := InitialSide().link;
      log, clientEof := [], false;
    }

    /** One round of fromclient: a buffer is taken, filled with what the client supplied, numbered and queued. */
    method FromClient(data: Bytes) returns (more: bool)
      requires Valid() && empty != []
      modifies this
      ensures Valid() && Queue() == QueueRead(TakeBuffer(old(Queue())), data) && link == old(link)
      ensures more == (|data| > 0)
    {
      var b := empty[0];
      empty := empty[1..];
      b := b.(body := data, num := outmsg);
      unsent := unsent + [b];
      outmsg := outmsg + 1;
      log, clientEof := log + [data], |data| == 0;
      more := |data| > 0;
    }

    /** fromnet's ack loop; it is done exactly when every buffer acknowledged is there and in its place. */
    method AckLoop(acked: nat) returns (outcome: Outcome)
      requires Valid()
      modifies this
      ensures Valid() && link == old(link)
      ensures outcome.Finished? <==> AckLoopSafe(old(Queue()), acked)
      ensures outcome.Finished? ==> Queue() == Acknowledge(old(Queue()), acked)
      ensures outcome.Blocked? ==> Acks(old(Queue()), acked) > |old(unacked)|
    {
      ghost var q, n := Queue(), 0;
      FreedNothing();
      while acked > lastacked
        invariant Valid() && link == old(link) && n <= |q.unacked| && n <= Acks(q, acked)
        invariant forall i :: 0 <= i < n ==> q.unacked[i].num == q.lastacked + i
        invariant lastacked == q.lastacked + n && unacked == q.unacked[n..]
        invariant empty == q.empty + Freed(q.unacked[..n])
        invariant unsent == q.unsent && log == q.log && clientEof == q.clientEof
        decreases acked - lastacked
      {
        if unacked == [] {
          return Blocked;
        }
        var rb := unacked[0];
        unacked := unacked[1..];
        if rb.num != lastacked {
          return Bug;
        }
        FreedSnoc(q.unacked[..n], rb);
        assert q.unacked[..n + 1] == q.unacked[..n] + [rb];
        empty := empty + [rb.(num := 0xFFFF_FFFF)];
        lastacked := lastacked + 1;
        n := n + 1;
      }
      outcome := Finished;
    }

    /**
     * synchronize: every unacked buffer is written again, in order, and ends up queued as before. The writes after
     * the first `limit` fail.
     */
    method Synchronize(e: nat, limit: nat)
      requires Valid() && e >= link.joined
      modifies this
      ensures Valid() && Queue() == old(Queue())
      ensures link == Synchronized(old(link), Queue(), e, if limit < |unacked| then limit else |unacked|)
    {
      ghost var bs := unacked;
      var cut := WireAt(link.out, e).cut;
      var tmp, written: seq<Frame>, n := [], [], 0;
      var failed := false;
      while unacked != []
        invariant n == |tmp| <= |bs| && tmp == bs[..n] && unacked == bs[n..]
        invariant failed == (n > limit)
        invariant written == if cut then [] else Frames(bs[..if limit < n then limit else n])
        invariant Valid() && link == old(link) && lastacked == old(lastacked)
        invariant empty == old(empty) && unsent == old(unsent) && log == old(log) && clientEof == old(clientEof)
        decreases |unacked|
      {
        var b := unacked[0];
        unacked := unacked[1..];
        if n < limit {
          assert bs[..n + 1][..n] == bs[..n];
          written := if cut then written else written + [FrameOf(b)];
        } else {
          failed := true;
        }
        tmp := tmp + [b];
        n := n + 1;
      }
      unacked := tmp;
      link := Link(Some(e), e + 1, false, link.out[e := Wire(written, lastacked, cut || failed)]);
    }
  }

  lemma FreedNothing()
    ensures Freed([]) == []
  {
  }

  lemma {:induction false} FreedSnoc(bs: seq<Buf>, b: Buf)
    ensures Freed(bs + [b]) == Freed(bs) + [b.(num := 0xFFFF_FFFF)]
  {
    if bs == [] {
      assert [] + [b] == [b];
    } else {
      assert (bs + [b])[1..] == bs[1..] + [b];
      FreedSnoc(bs[1..], b);
    }
  }
}
