/** The deferred transmit queue: replies composed inside the transport's receive callback are
    queued and handed to the transport by the next tick's flush. */
module TxQueue {
  import opened Bytes

  /** FLEECE_MAX_PENDING_TX */
  const QUEUE_SLOTS: nat := 16

  /** Where a frame goes: one peer by node id, the address it came from, or everyone. */
  datatype Dest = Node(id: U64) | Source(address: seq<Byte>) | Mesh

  datatype Tx = Tx(dest: Dest, data: seq<Byte>)

  datatype Pending = Pending(used: bool, tx: Tx, ready: nat)

  /** enqueue_tx takes the first free slot; a full queue drops the newest frame. */
  function FreeFrom(q: seq<Pending>, i: nat): (k: nat)
    requires i <= |q|
    ensures i <= k <= |q| && (k < |q| ==> !q[k].used) && forall j :: i <= j < k ==> q[j].used
    decreases |q| - i
  {
    if i == |q| || !q[i].used then i else FreeFrom(q, i + 1)
  }

  function Enqueue(q: seq<Pending>, tx: Tx, tick: nat): (r: seq<Pending>)
    ensures |r| == |q|
  {
    var k := FreeFrom(q, 0);
    if k == |q| then q else q[k := Pending(true, tx, tick + 1)]
  }

  datatype Flushed = Flushed(queue: seq<Pending>, out: seq<Tx>)

  /** flush_pending_tx over the first `n` slots. */
  function Flush(q: seq<Pending>, tick: nat, n: nat): (f: Flushed)
    requires n <= |q|
    ensures |f.queue| == |q|
  {
    if n == 0 then Flushed(q, []) else
      var f := Flush(q, tick, n - 1);
      if q[n - 1].used && tick >= q[n - 1].ready
      then Flushed(f.queue[n - 1 := q[n - 1].(used := false)], f.out + [q[n - 1].tx])
      else f
  }

  /** The frames waiting in the first `n` slots. */
  ghost function Waiting(q: seq<Pending>, n: nat): multiset<Tx>
    requires n <= |q|
  {
    if n == 0 then multiset{} else Waiting(q, n - 1) + if q[n - 1].used then multiset{q[n - 1].tx} else multiset{}
  }

  /** Only the slots ready at `tick`. */
  ghost function ReadyBy(q: seq<Pending>, tick: nat, n: nat): multiset<Tx>
    requires n <= |q|
  {
    if n == 0 then multiset{} else
      ReadyBy(q, tick, n - 1) + if q[n - 1].used && q[n - 1].ready <= tick then multiset{q[n - 1].tx} else multiset{}
  }

  /** A flush frees exactly the ready slots. */
  lemma {:induction false} FlushSlots(q: seq<Pending>, tick: nat, n: nat)
    requires n <= |q|
    ensures var f := Flush(q, tick, n);
            && (forall i :: 0 <= i < n ==> f.queue[i] == if q[i].ready <= tick then q[i].(used := false) else q[i])
            && (forall i :: n <= i < |q| ==> f.queue[i] == q[i])
  {
    if n > 0 {
      FlushSlots(q, tick, n - 1);
    }
  }

  lemma {:induction false} FlushOut(q: seq<Pending>, tick: nat, n: nat)
    requires n <= |q|
    ensures multiset(Flush(q, tick, n).out) == ReadyBy(q, tick, n)
  {
    if n > 0 {
      FlushOut(q, tick, n - 1);
    }
  }

  lemma {:induction false} ReadyLeave(q: seq<Pending>, r: seq<Pending>, tick: nat, n: nat)
    requires |r| == |q| && n <= |q|
    requires forall i :: 0 <= i < n ==> r[i] == if q[i].ready <= tick then q[i].(used := false) else q[i]
    ensures Waiting(r, n) + ReadyBy(q, tick, n) == Waiting(q, n)
  {
    if n > 0 {
      ReadyLeave(q, r, tick, n - 1);
    }
  }

  /** A flush sends the ready frames, each once, and leaves the others queued. */
  lemma FlushSendsReady(q: seq<Pending>, tick: nat)
    ensures multiset(Flush(q, tick, |q|).out) == ReadyBy(q, tick, |q|)
    ensures Waiting(Flush(q, tick, |q|).queue, |q|) + ReadyBy(q, tick, |q|) == Waiting(q, |q|)
  {
    FlushOut(q, tick, |q|);
    FlushSlots(q, tick, |q|);
    ReadyLeave(q, Flush(q, tick, |q|).queue, tick, |q|);
  }

  lemma {:induction false} WaitingSame(q: seq<Pending>, r: seq<Pending>, n: nat)
    requires |q| == |r| && n <= |q| && forall i :: 0 <= i < n ==> q[i] == r[i]
    ensures Waiting(q, n) == Waiting(r, n)
  {
    if n > 0 {
      WaitingSame(q, r, n - 1);
    }
  }

  lemma {:induction false} WaitingUpdate(q: seq<Pending>, k: nat, p: Pending, n: nat)
    requires k < n <= |q| && !q[k].used && p.used
    ensures Waiting(q[k := p], n) == Waiting(q, n) + multiset{p.tx}
  {
    if k == n - 1 {
      WaitingSame(q, q[k := p], n - 1);
    } else {
      WaitingUpdate(q, k, p, n - 1);
    }
  }

  /** Frames queued by the handlers of one tick, in order. */
  function EnqueueAll(q: seq<Pending>, txs: seq<Tx>, tick: nat): (r: seq<Pending>)
    ensures |r| == |q|
    decreases |txs|
  {
    if txs == [] then q else EnqueueAll(Enqueue(q, txs[0], tick), txs[1..], tick)
  }

  /** The frames that found a slot. */
  function Queued(q: seq<Pending>, txs: seq<Tx>, tick: nat): seq<Tx>
    decreases |txs|
  {
    if txs == [] then []
    else (if FreeFrom(q, 0) < |q| then [txs[0]] else []) + Queued(Enqueue(q, txs[0], tick), txs[1..], tick)
  }

  /** Every waiting frame becomes ready at `tick`. */
  ghost predicate AllReadyAt(q: seq<Pending>, tick: nat)
  {
    forall i :: 0 <= i < |q| && q[i].used ==> q[i].ready == tick
  }

  ghost predicate ReadyNowOrNext(q: seq<Pending>, tick: nat)
  {
    forall i :: 0 <= i < |q| && q[i].used ==> q[i].ready == tick || q[i].ready == tick + 1
  }

  lemma {:induction false} EnqueueAllWaits(q: seq<Pending>, txs: seq<Tx>, tick: nat)
    requires ReadyNowOrNext(q, tick)
    ensures var r := EnqueueAll(q, txs, tick);
            && ReadyNowOrNext(r, tick) && Waiting(r, |r|) == Waiting(q, |q|) + multiset(Queued(q, txs, tick))
            && ReadyBy(r, tick, |r|) == ReadyBy(q, tick, |q|)
    decreases |txs|
  {
    if txs != [] {
      var q1 := Enqueue(q, txs[0], tick);
      var k := FreeFrom(q, 0);
      if k < |q| {
        WaitingUpdate(q, k, Pending(true, txs[0], tick + 1), |q|);
        ReadyUnchanged(q, q1, tick, |q|);
      }
      EnqueueAllWaits(q1, txs[1..], tick);
    }
  }

  lemma {:induction false} ReadyUnchanged(q: seq<Pending>, r: seq<Pending>, tick: nat, n: nat)
    requires |q| == |r| && n <= |q|
    requires forall i :: 0 <= i < n ==> r[i] == q[i] || (!q[i].used && r[i].ready > tick)
    ensures ReadyBy(r, tick, n) == ReadyBy(q, tick, n)
  {
    if n > 0 {
      ReadyUnchanged(q, r, tick, n - 1);
    }
  }

  lemma {:induction false} AllReady(q: seq<Pending>, tick: nat, n: nat)
    requires AllReadyAt(q, tick) && n <= |q|
    ensures ReadyBy(q, tick, n) == Waiting(q, n)
  {
    if n > 0 {
      AllReady(q, tick, n - 1);
    }
  }

  lemma Cancel<T>(a: multiset<T>, b: multiset<T>, c: multiset<T>)
    requires a + c == c + b
    ensures a == b
  {
    assert a == a + c - c;
    assert b == c + b - c;
  }

  /** One tick: the handlers queue `txs`, then the flush runs. What it sends is exactly what
      was waiting from the tick before, and what stays is exactly what this tick queued: every
      queued frame is sent once, in the next tick's flush. */
  lemma SentExactlyOnce(q: seq<Pending>, txs: seq<Tx>, tick: nat)
    requires AllReadyAt(q, tick)
    ensures var r := EnqueueAll(q, txs, tick);
            var f := Flush(r, tick, |r|);
            && multiset(f.out) == Waiting(q, |q|)
            && Waiting(f.queue, |r|) == multiset(Queued(q, txs, tick))
            && AllReadyAt(f.queue, tick + 1)
  {
    hide EnqueueAll, Flush, ReadyBy, Queued, Waiting;
    var r := EnqueueAll(q, txs, tick);
    EnqueueAllWaits(q, txs, tick);
    FlushSendsReady(r, tick);
    FlushSlots(r, tick, |r|);
    AllReady(q, tick, |q|);
    Cancel(Waiting(Flush(r, tick, |r|).queue, |r|), multiset(Queued(q, txs, tick)), Waiting(q, |q|));
  }

  // ----- Runs of ticks -----------------------------------------------------------------------------

  /** The queue after the first `n` ticks of a run starting at `tick`: in each, the handlers
      queue that tick's batch and then the flush runs. */
  function QueueAt(q: seq<Pending>, batches: seq<seq<Tx>>, tick: nat, n: nat): (r: seq<Pending>)
    requires n <= |batches|
    ensures |r| == |q|
  {
    if n == 0 then q else
      var r := EnqueueAll(QueueAt(q, batches, tick, n - 1), batches[n - 1], tick + n - 1);
      Flush(r, tick + n - 1, |r|).queue
  }

  /** What tick `n` of the run sends, and what of its batch finds a slot. */
  function SentAt(q: seq<Pending>, batches: seq<seq<Tx>>, tick: nat, n: nat): seq<Tx>
    requires n < |batches|
  {
    var r := EnqueueAll(QueueAt(q, batches, tick, n), batches[n], tick + n);
    Flush(r, tick + n, |r|).out
  }

  function QueuedAt(q: seq<Pending>, batches: seq<seq<Tx>>, tick: nat, n: nat): seq<Tx>
    requires n < |batches|
  {
    Queued(QueueAt(q, batches, tick, n), batches[n], tick + n)
  }

  lemma {:induction false} QueueRun(q: seq<Pending>, batches: seq<seq<Tx>>, tick: nat, n: nat)
    requires AllReadyAt(q, tick) && n <= |batches|
    ensures AllReadyAt(QueueAt(q, batches, tick, n), tick + n)
    ensures Waiting(QueueAt(q, batches, tick, n), |q|)
         == if n == 0 then Waiting(q, |q|) else multiset(QueuedAt(q, batches, tick, n - 1))
  {
    hide Waiting, AllReadyAt, Queued, EnqueueAll, Flush;
    if n > 0 {
      QueueRun(q, batches, tick, n - 1);
      SentExactlyOnce(QueueAt(q, batches, tick, n - 1), batches[n - 1], tick + n - 1);
    }
  }

  /** Over every run of ticks, tick n sends exactly what tick n - 1 queued, each once. */
  lemma SentNextTick(q: seq<Pending>, batches: seq<seq<Tx>>, tick: nat, n: nat)
    requires AllReadyAt(q, tick) && n < |batches|
    ensures multiset(SentAt(q, batches, tick, n))
         == if n == 0 then Waiting(q, |q|) else multiset(QueuedAt(q, batches, tick, n - 1))
  {
    hide Waiting, AllReadyAt, Queued, EnqueueAll, Flush, QueueAt;
    QueueRun(q, batches, tick, n);
    SentExactlyOnce(QueueAt(q, batches, tick, n), batches[n], tick + n);
  }
}
