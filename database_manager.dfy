/**
 * The batching database worker (Server/LuciferCore/Manager/DatabaseManager.cs).
 * Jobs are enqueued on a main queue; the background loop takes them one at a time,
 * sorts them into an insert, an update and a delete queue, and flushes a queue when
 * it reaches the batch size or when the flush interval has passed. A flush empties
 * its queue and reports the jobs it held. Clock readings are milliseconds.
 */
module DatabaseManagers {

  datatype JobType = Insert | Update | Delete

  /** A job: its operation, its table and an opaque payload. */
  datatype Job = Job(kind: JobType, table: string, data: nat)

  /** One flush: the operation and the jobs handed over (the log line reports their count). */
  datatype Flush = Flush(kind: JobType, jobs: seq<Job>)

  const BatchSize: nat := 50
  const FlushInterval: int := 5000

  /** Every job handed to flushes, in order. */
  function FlushedJobs(flushes: seq<Flush>): seq<Job>
  {
    if flushes == [] then [] else FlushedJobs(flushes[..|flushes| - 1]) + flushes[|flushes| - 1].jobs
  }

  lemma FlushedJobsPush(flushes: seq<Flush>, f: Flush)
    ensures FlushedJobs(flushes + [f]) == FlushedJobs(flushes) + f.jobs
  {
    assert (flushes + [f])[..|flushes|] == flushes;
  }

  /** Every job in the given queues and flushes, counted with multiplicity. */
  function Tally(main: seq<Job>, inserts: seq<Job>, updates: seq<Job>, deletes: seq<Job>, flushes: seq<Flush>): multiset<Job>
  {
    multiset(main) + multiset(inserts) + multiset(updates) + multiset(deletes) + multiset(FlushedJobs(flushes))
  }

  predicate OfType(jobs: seq<Job>, k: JobType)
  {
    forall i :: 0 <= i < |jobs| ==> jobs[i].kind == k
  }

  /** The job that an iteration takes from `main` and routes to queue `k`, if any. */
  function Arrived(main: seq<Job>, k: JobType): seq<Job>
  {
    if main != [] && main[0].kind == k then [main[0]] else []
  }

  /** The flush a batch check emits for a queue holding `q`. */
  function BatchOut(k: JobType, q: seq<Job>): seq<Flush>
  {
    if |q| >= BatchSize then [Flush(k, q)] else []
  }

  /** The flush a check for leftovers emits for a queue holding `q`. */
  function LeftoverOut(k: JobType, q: seq<Job>): seq<Flush>
  {
    if |q| > 0 then [Flush(k, q)] else []
  }

  /** What a batch check leaves in a queue holding `q`. */
  function AfterBatch(q: seq<Job>): (r: seq<Job>)
    ensures |r| < BatchSize
  {
    if |q| >= BatchSize then [] else q
  }

  /** Each flush hands over a non-empty run of jobs of its own operation. */
  predicate Homogeneous(flushes: seq<Flush>)
  {
    forall i :: 0 <= i < |flushes| ==> flushes[i].jobs != [] && OfType(flushes[i].jobs, flushes[i].kind)
  }

  lemma HomogeneousPush(flushes: seq<Flush>, more: seq<Flush>)
    requires Homogeneous(flushes) && Homogeneous(more)
    ensures Homogeneous(flushes + more)
  {
    assert forall i :: |flushes| <= i < |flushes + more| ==> (flushes + more)[i] == more[i - |flushes|];
  }

  /** Flushing a queue moves its jobs to the flushed ones: nothing is lost or added. */
  lemma TallyFlush(m: seq<Job>, i: seq<Job>, u: seq<Job>, d: seq<Job>, f: seq<Flush>, k: JobType)
    ensures k == Insert ==> Tally(m, [], u, d, f + [Flush(k, i)]) == Tally(m, i, u, d, f)
    ensures k == Update ==> Tally(m, i, [], d, f + [Flush(k, u)]) == Tally(m, i, u, d, f)
    ensures k == Delete ==> Tally(m, i, u, [], f + [Flush(k, d)]) == Tally(m, i, u, d, f)
  {
    match k
    case Insert => FlushedJobsPush(f, Flush(k, i));
    case Update => FlushedJobsPush(f, Flush(k, u));
    case Delete => FlushedJobsPush(f, Flush(k, d));
  }

  /** Routing the first waiting job to the queue of its operation keeps every job. */
  lemma TallyRoute(m: seq<Job>, i: seq<Job>, u: seq<Job>, d: seq<Job>, f: seq<Flush>)
    requires m != []
    ensures m[0].kind == Insert ==> Tally(m[1..], i + [m[0]], u, d, f) == Tally(m, i, u, d, f)
    ensures m[0].kind == Update ==> Tally(m[1..], i, u + [m[0]], d, f) == Tally(m, i, u, d, f)
    ensures m[0].kind == Delete ==> Tally(m[1..], i, u, d + [m[0]], f) == Tally(m, i, u, d, f)
  {
    assert m == [m[0]] + m[1..];
    assert multiset(m) == multiset{m[0]} + multiset(m[1..]);
  }

  class DatabaseManager {
    var main: seq<Job>
    var inserts: seq<Job>
    var updates: seq<Job>
    var deletes: seq<Job>
    var flushes: seq<Flush>

    constructor ()
      ensures main == [] && inserts == [] && updates == [] && deletes == [] && flushes == []
      ensures Valid() && Held() == multiset{}
    {
      main, inserts, updates, deletes, flushes := [], [], [], [], [];
    }

    function Queue(k: JobType): seq<Job>
      reads this
    {
      match k
      case Insert => inserts
      case Update => updates
      case Delete => deletes
    }

    /** Each sub-queue holds only jobs of its own operation, and so does each flush. */
    ghost predicate Valid()
      reads this
    {
      OfType(inserts, Insert) && OfType(updates, Update) && OfType(deletes, Delete) && Homogeneous(flushes)
    }

    /** Every job the manager knows of: waiting, sorted into a queue, or flushed. */
    ghost function Held(): multiset<Job>
      reads this
    {
      Tally(main, inserts, updates, deletes, flushes)
    }

    /** Enqueue: appends to the main queue only. */
    method Enqueue(job: Job)
      requires Valid()
      modifies this
      ensures Valid() && Held() == old(Held()) + multiset{job}
      ensures main == old(main) + [job]
      ensures inserts == old(inserts) && updates == old(updates) && deletes == old(deletes) && flushes == old(flushes)
    {
      main := main + [job];
    }

    /** FlushInsertAsync / FlushUpdateAsync / FlushDeleteAsync: hand over and empty exactly one queue. */
    method FlushQueue(k: JobType)
      requires Valid() && Queue(k) != []
      modifies this
      ensures Valid()
      ensures flushes == old(flushes) + [Flush(k, old(Queue(k)))]
      ensures inserts == (if k == Insert then [] else old(inserts))
      ensures updates == (if k == Update then [] else old(updates))
      ensures deletes == (if k == Delete then [] else old(deletes))
      ensures main == old(main) && Held() == old(Held())
    {
      var q := Queue(k);
      assert Homogeneous([Flush(k, q)]);
      HomogeneousPush(flushes, [Flush(k, q)]);
      TallyFlush(main, inserts, updates, deletes, flushes, k);
      flushes := flushes + [Flush(k, q)];
      match k
      case Insert => inserts := [];
      case Update => updates := [];
      case Delete => deletes := [];
    }

    /** The TryTake and switch of the loop: the first waiting job, if any, joins the queue of its operation. */
    method Route()
      requires Valid()
      modifies this
      ensures Valid()
      ensures main == (if old(main) == [] then [] else old(main)[1..])
      ensures inserts == old(inserts) + Arrived(old(main), Insert)
      ensures updates == old(updates) + Arrived(old(main), Update)
      ensures deletes == old(deletes) + Arrived(old(main), Delete)
      ensures flushes == old(flushes) && Held() == old(Held())
    {
      if main != [] {
        var job := main[0];
        TallyRoute(main, inserts, updates, deletes, flushes);
        main := main[1..];
        match job.kind
        case Insert => inserts := inserts + [job];
        case Update => updates := updates + [job];
        case Delete => deletes := deletes + [job];
      }
    }

    /** One batch-size check: the queue of `k` is flushed when it holds a whole batch. */
    method FlushIfFull(k: JobType)
      requires Valid()
      modifies this
      ensures Valid() && main == old(main) && Held() == old(Held())
      ensures inserts == (if k == Insert then AfterBatch(old(inserts)) else old(inserts))
      ensures updates == (if k == Update then AfterBatch(old(updates)) else old(updates))
      ensures deletes == (if k == Delete then AfterBatch(old(deletes)) else old(deletes))
      ensures flushes == old(flushes) + BatchOut(k, old(Queue(k)))
    {
      if |Queue(k)| >= BatchSize {
        FlushQueue(k);
      }
    }

    /** One check for leftovers: the queue of `k` is flushed when it holds anything. */
    method FlushIfAny(k: JobType)
      requires Valid()
      modifies this
      ensures Valid() && main == old(main) && Held() == old(Held())
      ensures inserts == (if k == Insert then [] else old(inserts))
      ensures updates == (if k == Update then [] else old(updates))
      ensures deletes == (if k == Delete then [] else old(deletes))
      ensures flushes == old(flushes) + LeftoverOut(k, old(Queue(k)))
    {
      if Queue(k) != [] {
        FlushQueue(k);
      }
    }

    /** The batch-size checks: each queue that reached the batch size is flushed, in the order insert, update, delete. */
    method FlushFull()
      requires Valid()
      modifies this
      ensures Valid()
      ensures inserts == AfterBatch(old(inserts)) && updates == AfterBatch(old(updates)) && deletes == AfterBatch(old(deletes))
      ensures flushes == old(flushes) + BatchOut(Insert, old(inserts)) + BatchOut(Update, old(updates)) + BatchOut(Delete, old(deletes))
      ensures main == old(main) && Held() == old(Held())
    {
      FlushIfFull(Insert);
      FlushIfFull(Update);
      FlushIfFull(Delete);
    }

    /** The interval flush and the final flush: every non-empty queue is flushed, in the order insert, update, delete. */
    method FlushLeftovers()
      requires Valid()
      modifies this
      ensures Valid()
      ensures inserts == [] && updates == [] && deletes == []
      ensures flushes == old(flushes) + LeftoverOut(Insert, old(inserts)) + LeftoverOut(Update, old(updates)) + LeftoverOut(Delete, old(deletes))
      ensures main == old(main) && Held() == old(Held())
    {
      FlushIfAny(Insert);
      FlushIfAny(Update);
      FlushIfAny(Delete);
    }

    /**
     * One pass of the loop of Run with the clock reading `now`: route the first waiting
     * job, flush the queues that reached the batch size, then, when the interval since
     * `lastFlush` has passed, flush the rest and return `now` as the new last-flush
     * time. After the pass no queue holds a whole batch.
     */
    method Iteration(now: int, lastFlush: int) returns (next: int)
      requires Valid()
      modifies this
      ensures Valid() && Held() == old(Held()) && old(flushes) <= flushes
      ensures main == (if old(main) == [] then [] else old(main)[1..])
      ensures next == (if now - lastFlush >= FlushInterval then now else lastFlush)
      ensures |inserts| < BatchSize && |updates| < BatchSize && |deletes| < BatchSize
      ensures now - lastFlush >= FlushInterval ==> inserts == [] && updates == [] && deletes == []
      ensures now - lastFlush < FlushInterval ==>
                && inserts == AfterBatch(old(inserts) + Arrived(old(main), Insert))
                && updates == AfterBatch(old(updates) + Arrived(old(main), Update))
                && deletes == AfterBatch(old(deletes) + Arrived(old(main), Delete))
      ensures var qi, qu, qd := old(inserts) + Arrived(old(main), Insert),
                               old(updates) + Arrived(old(main), Update),
                               old(deletes) + Arrived(old(main), Delete);
              var batch := old(flushes) + BatchOut(Insert, qi) + BatchOut(Update, qu) + BatchOut(Delete, qd);
              flushes == if now - lastFlush >= FlushInterval
                         then batch + LeftoverOut(Insert, AfterBatch(qi)) + LeftoverOut(Update, AfterBatch(qu)) + LeftoverOut(Delete, AfterBatch(qd))
                         else batch
    {
      Route();
      FlushFull();
      next := lastFlush;
      if now - lastFlush >= FlushInterval {
        FlushLeftovers();
        next := now;
      }
    }

    /**
     * Run: start the clock at `start` and do one pass per reading of `clock` until the
     * cancellation; then flush every non-empty queue. A cancellation that arrives
     * during the back-off after a fault (`cancelledInBackoff`) escapes Run, and the
     * final flush is skipped. Jobs waiting or held then stay where they are.
     */
    method Run(start: int, clock: seq<int>, cancelledInBackoff: bool)
      requires Valid()
      modifies this
      ensures Valid() && Held() == old(Held())
      ensures |main| == (if |clock| >= |old(main)| then 0 else |old(main)| - |clock|)
      ensures old(flushes) <= flushes
      ensures !cancelledInBackoff ==> inserts == [] && updates == [] && deletes == []
      ensures !cancelledInBackoff ==> multiset(main) + multiset(FlushedJobs(flushes)) == old(Held())
      ensures cancelledInBackoff && |clock| > 0 ==> |inserts| < BatchSize && |updates| < BatchSize && |deletes| < BatchSize
    {
      Passes(start, clock);
      if !cancelledInBackoff {
        FlushLeftovers();
        TallyDrained(main, flushes);
      }
    }

    /** The loop of Run: one pass per reading of `clock`, starting the clock at `start`. */
    method Passes(start: int, clock: seq<int>)
      requires Valid()
      modifies this
      ensures Valid() && Held() == old(Held())
      ensures |main| == (if |clock| >= |old(main)| then 0 else |old(main)| - |clock|)
      ensures old(flushes) <= flushes
      ensures |clock| > 0 ==> |inserts| < BatchSize && |updates| < BatchSize && |deletes| < BatchSize
    {
      var lastFlush := start;
      var i := 0;
      while i < |clock|
        invariant 0 <= i <= |clock|
        invariant Valid() && Held() == old(Held())
        invariant |main| == (if i >= |old(main)| then 0 else |old(main)| - i)
        invariant old(flushes) <= flushes
        invariant i > 0 ==> |inserts| < BatchSize && |updates| < BatchSize && |deletes| < BatchSize
      {
        lastFlush := Iteration(clock[i], lastFlush);
        i := i + 1;
      }
    }
  }

  /** With every sub-queue empty, the jobs held are the waiting ones and the flushed ones. */
  lemma TallyDrained(m: seq<Job>, f: seq<Flush>)
    ensures Tally(m, [], [], [], f) == multiset(m) + multiset(FlushedJobs(f))
  {
  }
}
