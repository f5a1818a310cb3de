/** The job-queue layer: three named queues, the default options each is
    created with, the priority each enqueue helper uses, and the lifecycle a
    job goes through under attempts and exponential backoff. The broker
    itself is abstract: a queue is its list of waiting entries, and the
    outcome of each handler run is a parameter. */
module Queue {
  datatype QueueKind = RagProcessing | DocumentIngestion | EmailNotifications

  const AllQueues: seq<QueueKind> := [RagProcessing, DocumentIngestion, EmailNotifications]

  function QueueName(q: QueueKind): string {
    match q
    case RagProcessing => "rag-processing"
    case DocumentIngestion => "document-ingestion"
    case EmailNotifications => "email-notifications"
  }

  /** No two queues share a name, so a worker attached by name serves exactly one queue. */
  lemma QueueNamesDistinct(a: QueueKind, b: QueueKind)
    ensures QueueName(a) == QueueName(b) <==> a == b
  {
    if a != b {
      assert |QueueName(a)| != |QueueName(b)|;
    }
  }

  /** Options every job of a queue gets unless the enqueue overrides them:
      how many finished jobs the broker retains, the total number of
      attempts, and the base delay of the exponential backoff in ms. */
  datatype JobOptions = JobOptions(removeOnComplete: nat, removeOnFail: nat, attempts: nat, backoffDelay: nat)

  function DefaultJobOptions(q: QueueKind): JobOptions {
    match q
    case RagProcessing => JobOptions(100, 50, 3, 2000)
    case DocumentIngestion => JobOptions(50, 25, 5, 5000)
    case EmailNotifications => JobOptions(100, 50, 3, 1000)
  }

  /** The job name each enqueue helper uses. */
  function JobName(q: QueueKind): string {
    match q
    case RagProcessing => "process-rag"
    case DocumentIngestion => "ingest-document"
    case EmailNotifications => "send-email"
  }

  /** The priority each enqueue helper passes; a smaller number is served first. */
  function Priority(q: QueueKind): nat {
    match q
    case RagProcessing => 1
    case DocumentIngestion => 2
    case EmailNotifications => 3
  }

  function Pow2(k: nat): (r: nat)
    ensures r >= 1
  {
    if k == 0 then 1 else 2 * Pow2(k - 1)
  }

  /** The exponential strategy: after the k-th failed attempt the job waits
      base * 2^(k-1) ms before attempt k + 1. */
  function BackoffDelay(base: nat, k: nat): nat
    requires k >= 1
  {
    base * Pow2(k - 1)
  }

  /** Each wait is twice the one before, and the first is the base delay. */
  lemma BackoffDoubles(base: nat, k: nat)
    requires k >= 1
    ensures BackoffDelay(base, 1) == base
    ensures BackoffDelay(base, k + 1) == 2 * BackoffDelay(base, k)
  {
  }

  /** The waits scheduled after the first k failures, in order. */
  function Schedule(base: nat, k: nat): (s: seq<nat>)
    ensures |s| == k
    decreases k
  {
    if k == 0 then [] else Schedule(base, k - 1) + [BackoffDelay(base, k)]
  }

  function Sum(s: seq<nat>): nat
    decreases |s|
  {
    if |s| == 0 then 0 else Sum(s[..|s| - 1]) + s[|s| - 1]
  }

  /** The waits after k failures add up to base * (2^k - 1). */
  lemma {:induction false} ScheduleTotal(base: nat, k: nat)
    ensures Sum(Schedule(base, k)) == base * (Pow2(k) - 1)
    decreases k
  {
    if k > 0 {
      ScheduleTotal(base, k - 1);
      var s := Schedule(base, k);
      assert s[..|s| - 1] == Schedule(base, k - 1);
      assert Sum(s) == Sum(Schedule(base, k - 1)) + BackoffDelay(base, k);
      DoublingStep(base, Pow2(k - 1));
    }
  }

  /** One doubling step of the total: base * (p - 1) + base * p == base * (2p - 1). */
  lemma DoublingStep(base: nat, p: nat)
    requires p >= 1
    ensures base * (p - 1) + base * p == base * (2 * p - 1)
  {
    assert base * (2 * p - 1) == base * (p - 1) + base * p by {
      assert 2 * p - 1 == (p - 1) + p;
    }
  }

  /** The total backoff a job that fails on every attempt waits under its
      queue's defaults. */
  function WorstCaseWait(q: QueueKind): nat {
    Sum(Schedule(DefaultJobOptions(q).backoffDelay, DefaultJobOptions(q).attempts - 1))
  }

  /** That total is 6 s for answer generation, 75 s for document ingestion
      and 3 s for e-mail. */
  lemma WorstCaseWaits()
    ensures WorstCaseWait(RagProcessing) == 6000
    ensures WorstCaseWait(DocumentIngestion) == 75000
    ensures WorstCaseWait(EmailNotifications) == 3000
  {
    ScheduleTotal(DefaultJobOptions(RagProcessing).backoffDelay, 2);
    ScheduleTotal(DefaultJobOptions(DocumentIngestion).backoffDelay, 4);
    ScheduleTotal(DefaultJobOptions(EmailNotifications).backoffDelay, 2);
  }

  /** Every default retries at least once, retains at least as many
      completed as failed jobs, and the priorities order the queues as
      answer generation, then ingestion, then e-mail. */
  lemma PolicyShape(q: QueueKind)
    ensures DefaultJobOptions(q).attempts >= 3
    ensures DefaultJobOptions(q).removeOnComplete == 2 * DefaultJobOptions(q).removeOnFail
    ensures Priority(RagProcessing) < Priority(DocumentIngestion) < Priority(EmailNotifications)
    ensures Priority(q) == 1 <==> q == RagProcessing
  {
  }

  datatype JobState = Waiting | Delayed | Completed | Failed {
    predicate Terminal() { this == Completed || this == Failed }
  }

  /** A job: its state, how many times its handler has run, and the waits
      scheduled so far. */
  datatype Job = Job(state: JobState, attemptsMade: nat, delays: seq<nat>)

  const NewJob: Job := Job(Waiting, 0, [])

  /** One handler run of a job that is waiting or delayed. A success
      completes it; a failure either schedules the next attempt after the
      backoff or, once the attempts are used up, fails it for good. A job
      in a terminal state is not picked up again. */
  function Attempt(job: Job, opts: JobOptions, succeeded: bool): Job {
    if job.state.Terminal() then job
    else
      var made := job.attemptsMade + 1;
      if succeeded then Job(Completed, made, job.delays)
      else if made < opts.attempts then Job(Delayed, made, job.delays + [BackoffDelay(opts.backoffDelay, made)])
      else Job(Failed, made, job.delays)
  }

  /** Successive handler runs, one outcome each, until the job settles or the outcomes run out. */
  function Run(job: Job, opts: JobOptions, outcomes: seq<bool>): Job
    decreases |outcomes|
  {
    if |outcomes| == 0 || job.state.Terminal() then job
    else Run(Attempt(job, opts, outcomes[0]), opts, outcomes[1..])
  }

  /** The lifecycle invariant: the handler has run at most `attempts` times;
      a job is failed exactly when every attempt was used; the waits
      recorded are the backoff schedule of the failures that were retried. */
  predicate Valid(job: Job, opts: JobOptions) {
    && opts.attempts >= 1
    && job.attemptsMade <= opts.attempts
    && (job.state == Waiting ==> job.attemptsMade == 0)
    && (job.state == Delayed ==> 1 <= job.attemptsMade < opts.attempts)
    && (job.state == Completed ==> job.attemptsMade >= 1)
    && (job.state == Failed ==> job.attemptsMade == opts.attempts)
    && job.delays == Schedule(opts.backoffDelay, if job.state.Terminal() then job.attemptsMade - 1 else job.attemptsMade)
  }

  lemma NewJobValid(opts: JobOptions)
    requires opts.attempts >= 1
    ensures Valid(NewJob, opts)
  {
  }

  lemma AttemptValid(job: Job, opts: JobOptions, succeeded: bool)
    requires Valid(job, opts)
    ensures Valid(Attempt(job, opts, succeeded), opts)
    ensures !job.state.Terminal() ==> Attempt(job, opts, succeeded).attemptsMade == job.attemptsMade + 1
  {
  }

  /** Running the handler keeps the invariant; it is run at most once per
      outcome and never more than `attempts` times in all. */
  lemma {:induction false} RunValid(job: Job, opts: JobOptions, outcomes: seq<bool>)
    requires Valid(job, opts)
    ensures Valid(Run(job, opts, outcomes), opts)
    ensures job.attemptsMade <= Run(job, opts, outcomes).attemptsMade <= job.attemptsMade + |outcomes|
    ensures Run(job, opts, outcomes).attemptsMade <= opts.attempts
    decreases |outcomes|
  {
    if |outcomes| > 0 && !job.state.Terminal() {
      AttemptValid(job, opts, outcomes[0]);
      RunValid(Attempt(job, opts, outcomes[0]), opts, outcomes[1..]);
    }
  }

  /** A completed or failed job is never run again, whatever happens next. */
  lemma TerminalAbsorbs(job: Job, opts: JobOptions, outcomes: seq<bool>)
    requires job.state.Terminal()
    ensures Run(job, opts, outcomes) == job
  {
  }

  predicate AllFail(outcomes: seq<bool>) {
    forall i :: 0 <= i < |outcomes| ==> !outcomes[i]
  }

  lemma AllFailTail(outcomes: seq<bool>)
    requires |outcomes| > 0 && AllFail(outcomes)
    ensures AllFail(outcomes[1..])
  {
    forall i | 0 <= i < |outcomes| - 1 ensures !outcomes[1..][i] {
      assert outcomes[1..][i] == outcomes[i + 1];
    }
  }

  /** A job whose handler always throws ends FAILED after exactly `attempts`
      runs, having waited the whole backoff schedule in between. */
  lemma {:induction false} AlwaysFailingJob(job: Job, opts: JobOptions, outcomes: seq<bool>)
    requires Valid(job, opts) && !job.state.Terminal()
    requires AllFail(outcomes) && job.attemptsMade + |outcomes| >= opts.attempts
    ensures Run(job, opts, outcomes).state == Failed
    ensures Run(job, opts, outcomes).attemptsMade == opts.attempts
    ensures Run(job, opts, outcomes).delays == Schedule(opts.backoffDelay, opts.attempts - 1)
    decreases |outcomes|
  {
    var next := Attempt(job, opts, outcomes[0]);
    AttemptValid(job, opts, outcomes[0]);
    if !next.state.Terminal() {
      AllFailTail(outcomes);
      AlwaysFailingJob(next, opts, outcomes[1..]);
    }
  }

  /** A job whose handler first succeeds on run i + 1, within its attempts,
      completes after exactly i + 1 runs with i waits behind it. */
  lemma {:induction false} FirstSuccessCompletes(job: Job, opts: JobOptions, outcomes: seq<bool>, i: nat)
    requires Valid(job, opts) && !job.state.Terminal()
    requires i < |outcomes| && outcomes[i] && AllFail(outcomes[..i])
    requires job.attemptsMade + i < opts.attempts
    ensures Run(job, opts, outcomes).state == Completed
    ensures Run(job, opts, outcomes).attemptsMade == job.attemptsMade + i + 1
    ensures Run(job, opts, outcomes).delays == Schedule(opts.backoffDelay, job.attemptsMade + i)
    decreases i
  {
    var next := Attempt(job, opts, outcomes[0]);
    AttemptValid(job, opts, outcomes[0]);
    if i > 0 {
      assert !outcomes[..i][0];
      assert outcomes[1..][..i - 1] == outcomes[..i][1..];
      AllFailTail(outcomes[..i]);
      FirstSuccessCompletes(next, opts, outcomes[1..], i - 1);
    } else {
      TerminalAbsorbs(next, opts, outcomes[1..]);
    }
  }

  /** A waiting entry of a queue: the job's id, its name and its priority. */
  datatype Entry = Entry(id: nat, name: string, priority: nat)

  /** A queue as its waiting entries, oldest first. */
  datatype WaitList = WaitList(kind: QueueKind, entries: seq<Entry>) {
    /** Every entry came through the queue's own enqueue helper. */
    predicate Uniform() {
      forall k :: 0 <= k < |entries| ==> entries[k].priority == Priority(kind) && entries[k].name == JobName(kind)
    }
  }

  /** The enqueue helper of a queue: the job name and priority are fixed by the queue. */
  function AddJob(w: WaitList, id: nat): (r: WaitList)
    ensures r.kind == w.kind && |r.entries| == |w.entries| + 1
    ensures r.entries[..|w.entries|] == w.entries
    ensures r.entries[|w.entries|] == Entry(id, JobName(w.kind), Priority(w.kind))
    ensures w.Uniform() ==> r.Uniform()
  {
    WaitList(w.kind, w.entries + [Entry(id, JobName(w.kind), Priority(w.kind))])
  }

  /** The index the broker serves next: the first entry of the smallest priority. */
  function PickNext(entries: seq<Entry>): (i: nat)
    requires |entries| > 0
    ensures i < |entries|
    ensures forall k :: 0 <= k < |entries| ==> entries[i].priority <= entries[k].priority
    ensures forall k :: 0 <= k < i ==> entries[k].priority > entries[i].priority
    decreases |entries|
  {
    if |entries| == 1 then 0
    else
      var j := PickNext(entries[1..]) + 1;
      if entries[0].priority <= entries[j].priority then 0 else j
  }

  /** The order in which the broker hands out every waiting entry. */
  function Drain(entries: seq<Entry>): (r: seq<nat>)
    ensures |r| == |entries|
    decreases |entries|
  {
    if |entries| == 0 then []
    else
      var i := PickNext(entries);
      [entries[i].id] + Drain(entries[..i] + entries[i + 1..])
  }

  function Ids(entries: seq<Entry>): (r: seq<nat>)
    ensures |r| == |entries|
  {
    seq(|entries|, k requires 0 <= k < |entries| => entries[k].id)
  }

  /** Taking out entry i takes its id out of the ids, in place. */
  lemma IdsRemove(es: seq<Entry>, i: nat)
    requires i < |es|
    ensures Ids(es[..i] + es[i + 1..]) == Ids(es)[..i] + Ids(es)[i + 1..]
    ensures Ids(es) == Ids(es)[..i] + [es[i].id] + Ids(es)[i + 1..]
  {
    var rest := es[..i] + es[i + 1..];
    forall k | 0 <= k < |rest| ensures Ids(rest)[k] == (Ids(es)[..i] + Ids(es)[i + 1..])[k] {
      if k >= i {
        assert rest[k] == es[k + 1];
      }
    }
  }

  /** The broker hands out every waiting entry exactly once, whatever the
      priorities. */
  lemma {:induction false} DrainIsPermutation(es: seq<Entry>)
    ensures multiset(Drain(es)) == multiset(Ids(es))
    decreases |es|
  {
    if |es| > 0 {
      var i := PickNext(es);
      var rest := es[..i] + es[i + 1..];
      DrainIsPermutation(rest);
      IdsRemove(es, i);
      var ids := Ids(es);
      assert multiset(ids) == multiset(ids[..i]) + multiset{es[i].id} + multiset(ids[i + 1..]);
    }
  }

  /** Among entries of one priority the broker serves the oldest first. */
  lemma PickNextSamePriority(es: seq<Entry>, p: nat)
    requires |es| > 0
    requires forall k :: 0 <= k < |es| ==> es[k].priority == p
    ensures PickNext(es) == 0
  {
    var i := PickNext(es);
    assert es[0].priority == es[i].priority;
  }

  lemma DrainFront(es: seq<Entry>)
    requires |es| > 0 && PickNext(es) == 0
    ensures Drain(es) == [es[0].id] + Drain(es[1..])
  {
    assert es[..0] + es[1..] == es[1..];
  }

  lemma IdsFront(es: seq<Entry>)
    requires |es| > 0
    ensures Ids(es) == [es[0].id] + Ids(es[1..])
  {
    var a := Ids(es);
    var b := [es[0].id] + Ids(es[1..]);
    forall k | 0 <= k < |a| ensures a[k] == b[k] {
      if k > 0 {
        assert b[k] == Ids(es[1..])[k - 1] == es[1..][k - 1].id;
      }
    }
  }

  lemma {:induction false} SamePriorityIsFifo(es: seq<Entry>, p: nat)
    requires forall k :: 0 <= k < |es| ==> es[k].priority == p
    ensures Drain(es) == Ids(es)
    decreases |es|
  {
    if |es| > 0 {
      PickNextSamePriority(es, p);
      DrainFront(es);
      assert forall k :: 0 <= k < |es[1..]| ==> es[1..][k].priority == p;
      SamePriorityIsFifo(es[1..], p);
      IdsFront(es);
    }
  }

  /** Because a queue only ever receives its one job kind at one priority,
      priority never reorders it: jobs are served first in, first out. */
  lemma UniformQueueIsFifo(w: WaitList)
    requires w.Uniform()
    ensures Drain(w.entries) == Ids(w.entries)
  {
    SamePriorityIsFifo(w.entries, Priority(w.kind));
  }
}
