/**
 * The background indexing worker of service/worker/worker.py: `IndexWorker`,
 * a FIFO job queue, a job-status dictionary and a pool of worker threads
 * stopped by `None` sentinels.
 *
 * The model is sequential: `Step` is one iteration of `_worker_loop` taken
 * by some worker thread, and the result of `index_repo` is the `outcome`
 * parameter. Job ids (`uuid4`) and timestamps are parameters. Each database
 * write is best effort: it is recorded in `dbLog` when the write succeeds
 * (`dbOk`) and is otherwise dropped without any other effect.
 */
module IndexWorker {
  import opened Wrappers

  datatype JobState = Queued | Running | Completed | Failed

  /** One entry of `self.status`. */
  datatype JobRecord<R> = JobRecord(status: JobState, repoId: string, result: Option<R>,
                                    error: Option<string>, createdAt: int)

  /** What `self.q` carries: a job tuple or the `None` stop sentinel. */
  datatype Item<F> = Sentinel | Job(jobId: string, repoId: string, files: F,
                                    metadata: Option<map<string, string>>)

  /** What `index_repo` did: returned a result or raised an exception whose
      `str(e)` is `message`. */
  datatype Outcome<R> = Success(value: R) | Failure(message: string)

  /** A database write that went through. */
  datatype DbWrite<R> =
    | SaveJob(jobId: string, repoId: string, metadata: map<string, string>)
    | SaveResult(jobId: string, result: R)
    | SaveError(jobId: string, message: string)

  /** What one iteration of `_worker_loop` did. */
  datatype StepResult<F> =
    | Exited                         // loop condition false, or a sentinel
    | Blocked                        // `q.get()` waits on an empty queue
    | Processed(jobId: string, repoId: string, files: F, metadata: map<string, string>)

  /** `metadata or {}`. */
  function MetaOrEmpty(metadata: Option<map<string, string>>): (r: map<string, string>)
    ensures metadata.Some? ==> r == metadata.value
    ensures metadata.None? ==> r == map[]
  {
    if metadata.Some? then metadata.value else map[]
  }

  /** The record `submit` creates. */
  function QueuedRecord<R>(repoId: string, now: int): JobRecord<R> {
    JobRecord(Queued, repoId, None, None, now)
  }

  /** A job's status only moves forward: queued, running, then completed or
      failed. */
  predicate Advances(before: JobState, after: JobState) {
    before == after
    || (before == Queued && after != Queued)
    || (before == Running && (after == Completed || after == Failed))
  }

  /** The record after `index_repo` has returned or raised. */
  function Finished<R>(rec: JobRecord<R>, outcome: Outcome<R>): (r: JobRecord<R>)
    ensures r.repoId == rec.repoId && r.createdAt == rec.createdAt
    ensures outcome.Success? ==> r.status == Completed && r.result == Some(outcome.value) && r.error == rec.error
    ensures outcome.Failure? ==> r.status == Failed && r.error == Some(outcome.message) && r.result == rec.result
  {
    match outcome
    case Success(v) => rec.(status := Completed, result := Some(v))
    case Failure(m) => rec.(status := Failed, error := Some(m))
  }

  /** The database write after a finished job, when it goes through. */
  function FinishWrite<R>(jobId: string, outcome: Outcome<R>): DbWrite<R> {
    match outcome
    case Success(v) => SaveResult(jobId, v)
    case Failure(m) => SaveError(jobId, m)
  }

  /** `dbLog` after a best-effort write. */
  function Logged<R>(log: seq<DbWrite<R>>, w: DbWrite<R>, ok: bool): seq<DbWrite<R>> {
    if ok then log + [w] else log
  }

  /** `n` stop sentinels. */
  function Sentinels<F>(n: nat): (r: seq<Item<F>>)
    ensures |r| == n && forall i :: 0 <= i < n ==> r[i] == Sentinel
  {
    seq(n, _ => Sentinel)
  }

  /**
   * Every job waiting in the queue has a record, still `Queued`, for the
   * same repository, and no job id waits twice.
   */
  ghost predicate QueueInvariant<F, R>(queue: seq<Item<F>>, status: map<string, JobRecord<R>>) {
    && (forall i :: 0 <= i < |queue| && queue[i].Job? ==>
          queue[i].jobId in status && status[queue[i].jobId].status == Queued
          && status[queue[i].jobId].repoId == queue[i].repoId)
    && (forall i, j :: 0 <= i < j < |queue| && queue[i].Job? && queue[j].Job? ==>
          queue[i].jobId != queue[j].jobId)
  }

  /** A new job at the tail keeps the invariant, given a fresh id. */
  lemma SubmitKeepsInvariant<F, R>(queue: seq<Item<F>>, status: map<string, JobRecord<R>>,
                                   jobId: string, repoId: string, files: F,
                                   metadata: Option<map<string, string>>, now: int)
    requires QueueInvariant(queue, status) && jobId !in status
    ensures QueueInvariant(queue + [Job(jobId, repoId, files, metadata)],
                           status[jobId := QueuedRecord(repoId, now)])
  {
    var q := queue + [Job(jobId, repoId, files, metadata)];
    forall i, j | 0 <= i < j < |q| && q[i].Job? && q[j].Job? ensures q[i].jobId != q[j].jobId {
      assert q[i] == queue[i];
      if j < |queue| {
        assert q[j] == queue[j];
      }
    }
  }

  /** Taking the head job and marking it running keeps the invariant for
      the jobs still waiting, and stop sentinels never break it. */
  lemma TakeKeepsInvariant<F, R>(queue: seq<Item<F>>, status: map<string, JobRecord<R>>)
    requires QueueInvariant(queue, status) && queue != []
    ensures queue[0].Job? ==>
              QueueInvariant(queue[1..], status[queue[0].jobId := status[queue[0].jobId].(status := Running)])
    ensures queue[0].Sentinel? ==> QueueInvariant(queue[1..], status)
  {
    var q := queue[1..];
    forall i | 0 <= i < |q| && q[i].Job? && queue[0].Job? ensures q[i].jobId != queue[0].jobId {
      assert q[i] == queue[i + 1];
    }
    forall i, j | 0 <= i < j < |q| && q[i].Job? && q[j].Job? ensures q[i].jobId != q[j].jobId {
      assert q[i] == queue[i + 1] && q[j] == queue[j + 1];
    }
  }

  lemma SentinelsKeepInvariant<F, R>(queue: seq<Item<F>>, status: map<string, JobRecord<R>>, n: nat)
    requires QueueInvariant(queue, status)
    ensures QueueInvariant(queue + Sentinels(n), status)
  {
    var q := queue + Sentinels(n);
    forall i | |queue| <= i < |q| ensures q[i] == Sentinel {
      assert q[i] == Sentinels<F>(n)[i - |queue|];
    }
  }

  /**
   * `IndexWorker`. `threads` counts the threads `start` has appended to
   * `self.threads`, which is never cleared.
   */
  class Worker<F, R> {
    const numWorkers: int
    var queue: seq<Item<F>>
    var status: map<string, JobRecord<R>>
    var threads: nat
    var running: bool
    var dbLog: seq<DbWrite<R>>

    ghost predicate Valid()
      reads this
    {
      QueueInvariant(queue, status)
    }

    constructor (numWorkers: int)
      ensures Valid() && this.numWorkers == numWorkers
      ensures queue == [] && status == map[] && threads == 0 && !running && dbLog == []
    {
      this.numWorkers := numWorkers;
      queue := [];
      status := map[];
      threads := 0;
      running := false;
      dbLog := [];
    }

    /** `start`: nothing when already running; otherwise mark running and
        start `num_workers` more threads (none when it is not positive). */
    method Start()
      modifies this
      ensures running
      ensures threads == if old(running) then old(threads)
                         else old(threads) + (if numWorkers > 0 then numWorkers else 0)
      ensures queue == old(queue) && status == old(status) && dbLog == old(dbLog)
    {
      if running {
        return;
      }
      running := true;
      var started := threads;
      for k := 0 to if numWorkers > 0 then numWorkers else 0
        invariant started == threads + k
      {
        started := started + 1;
      }
      threads := started;
    }

    /** `stop`: clear `running` and put one sentinel per started thread. */
    method Stop()
      requires Valid()
      modifies this
      ensures Valid()
      ensures !running
      ensures queue == old(queue) + Sentinels(threads)
      ensures threads == old(threads) && status == old(status) && dbLog == old(dbLog)
    {
      SentinelsKeepInvariant(queue, status, threads);
      running := false;
      var q := queue;
      for k := 0 to threads
        invariant q == queue + Sentinels(k)
      {
        assert Sentinels<F>(k + 1) == Sentinels<F>(k) + [Sentinel];
        q := q + [Sentinel];
      }
      queue := q;
    }

    /** `submit` with the fresh id `jobId` at time `now`; `dbOk` says whether
        `save_index_job` succeeded. The id is returned either way. */
    method Submit(jobId: string, repoId: string, files: F, metadata: Option<map<string, string>>,
                  now: int, dbOk: bool) returns (id: string)
      requires Valid() && jobId !in status
      modifies this
      ensures Valid()
      ensures id == jobId
      ensures status == old(status)[jobId := QueuedRecord(repoId, now)]
      ensures queue == old(queue) + [Job(jobId, repoId, files, metadata)]
      ensures dbLog == Logged(old(dbLog), SaveJob(jobId, repoId, MetaOrEmpty(metadata)), dbOk)
      ensures running == old(running) && threads == old(threads)
    {
      SubmitKeepsInvariant(queue, status, jobId, repoId, files, metadata, now);
      status := status[jobId := QueuedRecord(repoId, now)];
      queue := queue + [Job(jobId, repoId, files, metadata)];
      if dbOk {
        dbLog := dbLog + [SaveJob(jobId, repoId, MetaOrEmpty(metadata))];
      }
      id := jobId;
    }

    /** `get_status`: the job's record, `None` for an unknown id. */
    method GetStatus(jobId: string) returns (r: Option<JobRecord<R>>)
      ensures r.Some? <==> jobId in status
      ensures r.Some? ==> r.value == status[jobId]
    {
      if jobId in status {
        r := Some(status[jobId]);
      } else {
        r := None;
      }
    }

    /** `q.get()` and, for a job, marking it `running`. */
    method TakeNext() returns (item: Option<Item<F>>)
      requires Valid()
      modifies this
      ensures Valid()
      ensures old(queue) == [] ==> item == None && queue == old(queue) && status == old(status)
      ensures old(queue) != [] ==> item == Some(old(queue)[0]) && queue == old(queue)[1..]
      ensures old(queue) != [] && old(queue)[0].Job? ==>
                var id := old(queue)[0].jobId;
                id in old(status) && old(status)[id].status == Queued &&
                status == old(status)[id := old(status)[id].(status := Running)]
      ensures old(queue) != [] && old(queue)[0].Sentinel? ==> status == old(status)
      ensures running == old(running) && threads == old(threads) && dbLog == old(dbLog)
    {
      if queue == [] {
        return None;
      }
      var head := queue[0];
      TakeKeepsInvariant(queue, status);
      queue := queue[1..];
      if head.Job? {
        status := status[head.jobId := status[head.jobId].(status := Running)];
      }
      item := Some(head);
    }

    /** The end of a job: the terminal record, then the best-effort write
        of the result or of the error message. */
    method Finish(jobId: string, outcome: Outcome<R>, dbOk: bool)
      requires Valid() && jobId in status && status[jobId].status == Running
      modifies this
      ensures Valid()
      ensures status == old(status)[jobId := Finished(old(status)[jobId], outcome)]
      ensures dbLog == Logged(old(dbLog), FinishWrite(jobId, outcome), dbOk)
      ensures queue == old(queue) && running == old(running) && threads == old(threads)
    {
      status := status[jobId := Finished(status[jobId], outcome)];
      if dbOk {
        dbLog := dbLog + [FinishWrite(jobId, outcome)];
      }
    }

    /**
     * One iteration of `_worker_loop`: leave when not running; wait on an
     * empty queue; leave on a sentinel; otherwise run the head job, whose
     * `index_repo(repo_id, files, metadata or {})` gives `outcome`.
     */
    method Step(outcome: Outcome<R>, dbOk: bool) returns (s: StepResult<F>)
      requires Valid()
      modifies this
      ensures Valid()
      ensures running == old(running) && threads == old(threads)
      ensures !old(running) || old(queue) == [] ==>
                s == (if old(running) then Blocked else Exited) &&
                queue == old(queue) && status == old(status) && dbLog == old(dbLog)
      ensures old(running) && old(queue) != [] && old(queue)[0].Sentinel? ==>
                s == Exited && queue == old(queue)[1..] && status == old(status) && dbLog == old(dbLog)
      ensures old(running) && old(queue) != [] && old(queue)[0].Job? ==>
                var j := old(queue)[0];
                j.jobId in old(status) && old(status)[j.jobId].status == Queued &&
                s == Processed(j.jobId, j.repoId, j.files, MetaOrEmpty(j.metadata)) &&
                queue == old(queue)[1..] &&
                status == old(status)[j.jobId := Finished(old(status)[j.jobId], outcome)] &&
                dbLog == Logged(old(dbLog), FinishWrite(j.jobId, outcome), dbOk)
      ensures forall id :: id in old(status) ==> id in status && Advances(old(status)[id].status, status[id].status)
    {
      if !running {
        return Exited;
      }
      var item := TakeNext();
      if item.None? {
        return Blocked;
      }
      var it := item.value;
      if it.Sentinel? {
        return Exited;
      }
      Finish(it.jobId, outcome, dbOk);
      s := Processed(it.jobId, it.repoId, it.files, MetaOrEmpty(it.metadata));
    }
  }
}
