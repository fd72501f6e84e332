/**
 The contract of the rate limited work queue that the operator's controllers share,
 and the lock map that partitions their work.
 */
module WorkQueue {

  /** A reference to a Kubernetes object: the items of the queue. */
  datatype ObjectName = ObjectName(namespace: string, name: string)

  /**
   The observable state of a client-go rate limiting queue: `fifo` is what Get hands out,
   `dirty` what must be processed (again), `processing` what was handed out and is not Done,
   `delayed` what AddAfter and AddRateLimited hold back.
   */
  datatype Queue = Queue(
    fifo: seq<ObjectName>,
    dirty: set<ObjectName>,
    processing: set<ObjectName>,
    delayed: set<ObjectName>,
    shuttingDown: bool)

  const EMPTY := Queue([], {}, {}, {}, false)

  /** Marks an item dirty; it is queued at once unless it is queued or being processed already. */
  function Add(q: Queue, k: ObjectName): Queue {
    if q.shuttingDown || k in q.dirty then q
    else if k in q.processing then q.(dirty := q.dirty + {k})
    else q.(dirty := q.dirty + {k}, fifo := q.fifo + [k])
  }

  /** AddAfter and AddRateLimited: the item is added later, by Fire. */
  function AddLater(q: Queue, k: ObjectName): Queue {
    if q.shuttingDown then q else q.(delayed := q.delayed + {k})
  }

  /** A delay has passed. */
  function Fire(q: Queue, k: ObjectName): Queue {
    if k in q.delayed then Add(q.(delayed := q.delayed - {k}), k) else q
  }

  function Get(q: Queue): Queue
    requires q.fifo != []
  {
    q.(fifo := q.fifo[1..], dirty := q.dirty - {q.fifo[0]}, processing := q.processing + {q.fifo[0]})
  }

  /** Ends the processing of an item; if it was marked dirty meanwhile it is queued again. */
  function Done(q: Queue, k: ObjectName): Queue {
    var r := q.(processing := q.processing - {k});
    if k in q.dirty then r.(fifo := q.fifo + [k]) else r
  }

  function ShutDown(q: Queue): Queue {
    q.(shuttingDown := true)
  }

  predicate NoDuplicates(s: seq<ObjectName>) {
    forall i, j :: 0 <= i < j < |s| ==> s[i] != s[j]
  }

  /** The items queued are exactly the dirty ones that nobody processes, each queued once. */
  ghost predicate Consistent(q: Queue) {
    && NoDuplicates(q.fifo)
    && (forall k :: k in q.fifo <==> k in q.dirty && k !in q.processing)
  }

  /** First in, first out: what is added or queued again goes last, and the first item is handed out. */
  lemma QueueIsFifo(q: Queue, k: ObjectName)
    ensures q.fifo <= Add(q, k).fifo && q.fifo <= Fire(q, k).fifo && q.fifo <= Done(q, k).fifo && AddLater(q, k).fifo == q.fifo
    ensures q.fifo != [] ==> q.fifo == [q.fifo[0]] + Get(q).fifo
  {
  }

  lemma AddKeepsConsistent(q: Queue, k: ObjectName)
    requires Consistent(q)
    ensures Consistent(Add(q, k)) && Consistent(Fire(q, k)) && Consistent(AddLater(q, k))
  {
    forall q' | Consistent(q') && q'.dirty == q.dirty && q'.fifo == q.fifo && q'.processing == q.processing
      ensures Consistent(Add(q', k))
    {
      forall x ensures x in Add(q', k).fifo <==> x in Add(q', k).dirty && x !in q'.processing {
        if Add(q', k).fifo != q'.fifo {
          assert x in Add(q', k).fifo <==> x in q'.fifo || x == k;
        }
      }
    }
    assert Consistent(q.(delayed := q.delayed - {k}));
  }

  lemma GetKeepsConsistent(q: Queue)
    requires Consistent(q) && q.fifo != []
    ensures Consistent(Get(q)) && q.fifo[0] in q.dirty && q.fifo[0] !in q.processing
  {
    var r, k := Get(q), q.fifo[0];
    assert k in q.fifo;
    forall x ensures x in r.fifo <==> x in r.dirty && x !in r.processing {
      assert q.fifo == [k] + r.fifo;
      assert x in q.fifo <==> x == k || x in r.fifo;
      assert k !in r.fifo;
    }
  }

  lemma DoneKeepsConsistent(q: Queue, k: ObjectName)
    requires Consistent(q) && k in q.processing
    ensures Consistent(Done(q, k))
  {
    var r := Done(q, k);
    forall x ensures x in r.fifo <==> x in r.dirty && x !in r.processing {
      if r.fifo != q.fifo {
        assert x in r.fifo <==> x in q.fifo || x == k;
      }
    }
  }
}

/** operator/common/utils.go: the lock map and the functions that choose the lock key. */
module ResourceLocker {
  import opened WorkQueue

  function NamespacePartitionKey(obj: ObjectName): string { obj.namespace }

  function NamePartitionKey(obj: ObjectName): string { obj.name }

  class DefaultResourceLocker {
    var l: map<string, bool>

    constructor ()
      ensures l == map[]
    {
      l := map[];
    }

    /** LoadOrStore: stores the key and succeeds unless it is there already. */
    method TryGetLock(key: string) returns (ok: bool)
      modifies this
      ensures ok <==> key !in old(l)
      ensures l.Keys == old(l).Keys + {key}
    {
      ok := key !in l;
      if ok {
        l := l[key := true];
      }
    }

    method ReleaseLock(key: string)
      modifies this
      ensures l.Keys == old(l).Keys - {key}
    {
      l := l - {key};
    }
  }
}
