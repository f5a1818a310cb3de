/** The bodies of the three queue workers, as transitions of the store.
    Each returns the new store and the job's result; an Err is the handler
    throwing, which the queue then retries under the job's options. */
module Workers {
  import opened Wrappers
  import opened Domain
  import opened Listing
  import opened Generator
  import opened Store

  /** The payload of an answer-generation job. */
  datatype RagJob = RagJob(questionId: nat, question: string, lang: Language, persona: Persona, userId: string)

  /** Generate an answer for the job's question and store it under the
      question; the generation outcome and the year are parameters. */
  function RagHandler(db: Db, job: RagJob, retrieved: Option<seq<Candidate>>, reply: LlmReply,
                      currentYear: int): (r: (Db, Result<nat>))
    ensures r.1.Err? ==> r.0 == db
    ensures r.1.Ok? ==> r.1.value == job.questionId
    ensures r.1.Ok? <==> GenerateAnswer(RagRequest(job.question, job.lang, job.persona, job.userId), retrieved, reply, currentYear).Ok?
                          && job.questionId in db.questions
    ensures Valid(db) ==> Valid(r.0)
  {
    var generated := GenerateAnswer(RagRequest(job.question, job.lang, job.persona, job.userId), retrieved, reply, currentYear);
    if generated.Err? then (db, Err(generated.message))
    else
      var res := generated.value;
      var (db', created) := InsertAnswer(db, job.questionId, res.summary, res.citations,
                                         res.confidence as real, res.controversy, job.persona);
      if created.Err? then (db', Err(created.message)) else (db', Ok(job.questionId))
  }

  /** A successful run adds exactly one answer: it belongs to the job's
      question, carries the generated summary, citations and scores and the
      job's persona, becomes that question's newest answer, and nothing
      else in the store changes. */
  lemma RagHandlerCreatesOneAnswer(db: Db, job: RagJob, retrieved: Option<seq<Candidate>>, reply: LlmReply,
                                   currentYear: int)
    requires Valid(db)
    requires RagHandler(db, job, retrieved, reply, currentYear).1.Ok?
    ensures var db' := RagHandler(db, job, retrieved, reply, currentYear).0;
            var res := GenerateAnswer(RagRequest(job.question, job.lang, job.persona, job.userId), retrieved, reply, currentYear).value;
            && db'.answers.Keys == db.answers.Keys + {db.nextId}
            && db.nextId !in db.answers
            && db'.answers[db.nextId] == Answer(db.nextId, job.questionId, res.summary, res.citations,
                                                res.confidence as real, res.controversy, job.persona)
            && db'.questions == db.questions && db'.notes == db.notes
            && db'.sources == db.sources && db'.docs == db.docs
            && AnswersOf(db', job.questionId) == [db.nextId] + AnswersOf(db, job.questionId)
  {
    NewestFirstAfterInsert(db.answers, (a: Answer) => a.questionId == job.questionId, db.nextId,
                           RagHandler(db, job, retrieved, reply, currentYear).0.answers[db.nextId]);
  }

  /** The handler uses a plain insert, not an upsert: running the same job
      again after a success stores a second answer for the question. */
  lemma RagRerunDuplicates(db: Db, job: RagJob, retrieved: Option<seq<Candidate>>, reply: LlmReply, currentYear: int)
    requires Valid(db)
    requires RagHandler(db, job, retrieved, reply, currentYear).1.Ok?
    ensures var db1 := RagHandler(db, job, retrieved, reply, currentYear).0;
            var db2 := RagHandler(db1, job, retrieved, reply, currentYear).0;
            && RagHandler(db1, job, retrieved, reply, currentYear).1.Ok?
            && |AnswersOf(db2, job.questionId)| == |AnswersOf(db, job.questionId)| + 2
  {
    var db1 := RagHandler(db, job, retrieved, reply, currentYear).0;
    RagHandlerCreatesOneAnswer(db, job, retrieved, reply, currentYear);
    RagHandlerCreatesOneAnswer(db1, job, retrieved, reply, currentYear);
  }

  /** Mark the job's source as verified; a missing source makes the job fail. */
  function DocumentHandler(db: Db, sourceId: nat): (r: (Db, Result<nat>))
    ensures r.1.Ok? <==> sourceId in db.sources
    ensures r.1.Err? ==> r.0 == db
    ensures r.1.Ok? ==> r.0 == db.(sources := r.0.sources) && r.0.sources.Keys == db.sources.Keys
    ensures r.1.Ok? ==> r.0.sources[sourceId] == db.sources[sourceId].(status := Verified)
    ensures r.1.Ok? ==> forall i :: i in db.sources && i != sourceId ==> r.0.sources[i] == db.sources[i]
    ensures Valid(db) ==> Valid(r.0)
  {
    if sourceId !in db.sources then (db, Err("record to update not found"))
    else
      (db.(sources := db.sources[sourceId := db.sources[sourceId].(status := Verified)]), Ok(sourceId))
  }

  /** Ingesting the same source twice leaves the store as ingesting it once. */
  lemma DocumentHandlerIdempotent(db: Db, sourceId: nat)
    ensures var once := DocumentHandler(db, sourceId);
            DocumentHandler(once.0, sourceId) == once
  {
    if sourceId in db.sources {
      var once := DocumentHandler(db, sourceId).0;
      assert once.sources[sourceId := once.sources[sourceId].(status := Verified)] == once.sources;
    }
  }

  /** The payload of an e-mail job; sending is not implemented. */
  datatype EmailJob = EmailJob(to: string, subject: string, template: string)

  /** The e-mail worker touches no state and reports the recipient. */
  function EmailHandler(db: Db, job: EmailJob): (r: (Db, Result<string>))
    ensures r.0 == db && r.1 == Ok(job.to)
  {
    (db, Ok(job.to))
  }
}
