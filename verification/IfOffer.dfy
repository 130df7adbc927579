/** The test that every producer of a queue makes: drop and free the packet when the queue is full, link
    it in otherwise (net/if_ethersubr.c, net/if_loop.c, net/if_sl.c). */
module IfOffer {
  import opened Mbufs
  import opened MbufFree
  import opened Ifqueues

  /** What the test makes of the queue: `m` is its next packet, or was dropped and counted. */
  twostate predicate Taken(q: Ifqueue, new m: Mbuf)
    reads q
  {
    && q.maxlen == old(q.maxlen)
    && if old(q.Full())
       then q.contents == old(q.contents) && q.drops == old(q.drops) + 1
       else q.contents == old(q.contents) + [m] && q.drops == old(q.drops)
  }

  method Offer(q: Ifqueue, m: Mbuf, log: FreeLog, ghost ns: seq<Mbuf>) returns (queued: bool)
    requires q.Valid() && m !in q.contents && Linked(m, ns)
    modifies q, q.contents`nextpkt, m`nextpkt, log
    ensures q.Valid() && queued == !old(q.Full()) && Taken(q, m)
    ensures log.freed == old(log.freed) + if queued then [] else old(Releases(Items(ns)))
  {
    queued := !q.Full();
    if queued {
      q.Enqueue(m);
    } else {
      q.Drop();
      MFreem(m, log, ns);
    }
  }
}
