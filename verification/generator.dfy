/** The pure skeleton of answer generation: the no-evidence short circuit,
    the numbered context, the persona-selected system instruction, and the
    assembly of summary, citations and scores. Retrieval and the chat
    completion are parameters. */
module Generator {
  import opened Wrappers
  import opened Domain
  import opened Decimal
  import opened Scoring
  import opened Citations

  datatype RagRequest = RagRequest(question: string, lang: Language, persona: Persona, userId: string)

  datatype RagResult = RagResult(summary: string, citations: seq<Citation>, confidence: int, controversy: real)

  /** What the chat-completion service gives back: the first choice's
      message content (possibly missing), or a thrown error. */
  datatype LlmReply = Completion(content: Option<string>) | ApiError

  const NoEvidenceSummary: string :=
    "I couldn't find relevant information to answer your question. Please try rephrasing or check back later as we continue to expand our knowledge base."

  const FallbackSummary: string := "Unable to generate answer"

  const GenerationFailure: string := "Failed to generate answer"

  const NoEvidenceResult: RagResult := RagResult(NoEvidenceSummary, [], 0, 0.0)

  const BasePrompt: string :=
    "You are Qadim, an AI assistant specialized in Lebanese and Phoenician history, politics, and culture. You provide accurate, well-sourced answers based on historical documents and scholarly research.\n\nGuidelines:\n- Always cite sources using [1], [2], etc. format\n- Be precise and factual\n- Acknowledge uncertainty when sources conflict\n- Group information by authority level (Official, Scholarly, Press, Community, Claims)\n- Maintain academic rigor while being accessible"

  /** Each persona instruction is written as its opening, up to the mode's
      name, and the rest; the two openings differ in their last word. */
  const ZaatarOpening: string := "\n\nPersona: You're in \"Zaatar"

  const ZaatarInstructions: string :=
    ZaatarOpening + " Mode\" - maintain Lebanese cultural warmth and context:\n- Use Lebanese expressions and cultural references where appropriate\n- Show pride in Lebanese heritage while remaining factual\n- Include cultural context that helps explain historical significance\n- Use a slightly more conversational tone while maintaining accuracy"

  const NeutralOpening: string := "\n\nPersona: You're in \"Neutral"

  const NeutralInstructions: string :=
    NeutralOpening + " Mode\" - maintain academic objectivity:\n- Use formal, scholarly language\n- Present information without cultural bias\n- Focus on facts and verifiable information\n- Maintain professional academic tone"

  /** The system instruction; the language argument is accepted and ignored. */
  function SystemPrompt(persona: Persona, lang: Language): string {
    BasePrompt + (if persona == Zaatar then ZaatarInstructions else NeutralInstructions)
  }

  /** The persona instructions first differ where each names its mode. */
  lemma PersonaMarks()
    ensures |ZaatarInstructions| > 22 && ZaatarInstructions[22] == 'Z'
    ensures |NeutralInstructions| > 22 && NeutralInstructions[22] == 'N'
  {
    assert |ZaatarOpening| == 28 && ZaatarOpening[22] == 'Z';
    assert |NeutralOpening| == 29 && NeutralOpening[22] == 'N';
  }

  /** Strings that differ at one position stay different behind a common prefix. */
  lemma PrefixKeepsDifference(a: string, b: string, c: string, k: nat)
    requires k < |b| && k < |c| && b[k] != c[k]
    ensures a + b != a + c
  {
    assert (a + b)[|a| + k] == b[k];
    assert (a + c)[|a| + k] == c[k];
  }

  /** The system instruction is chosen by the persona alone: the language
      never changes it and the two personas never share it. */
  lemma SystemPromptChoice(p1: Persona, l1: Language, p2: Persona, l2: Language)
    ensures SystemPrompt(p1, l1) == SystemPrompt(p2, l2) <==> p1 == p2
  {
    if p1 != p2 {
      PersonaMarks();
      PrefixKeepsDifference(BasePrompt, ZaatarInstructions, NeutralInstructions, 22);
    }
  }

  /** The publisher line falls back when the publisher is missing or empty. */
  function PublisherText(publisher: Option<string>): string {
    if publisher.Some? && publisher.value != "" then publisher.value else "Unknown"
  }

  /** The year falls back when it is missing or zero. */
  function YearText(year: Option<int>): string {
    if year.Some? && year.value != 0 then IntToString(year.value) else "Unknown year"
  }

  /** The block of context describing candidate `d` at position `index`. */
  function ContextEntry(d: Candidate, index: nat): string {
    Label(index + 1) + EntryBody(d)
  }

  /** Everything in an entry after its label. */
  function EntryBody(d: Candidate): string {
    " " + d.sourceTitle + " (" + AuthorityName(d.authority) + ", " + YearText(d.year) + ")\n"
    + "Publisher: " + PublisherText(d.publisher) + "\n"
    + "Credibility: " + IntToString(d.credibility) + "/100\n"
    + "Content: " + d.content[..Min(500, |d.content|)] + "..."
  }

  /** The context entries of the candidates, numbered from 1. */
  function Entries(docs: seq<Candidate>): (es: seq<string>)
    ensures |es| == |docs|
  {
    seq(|docs|, i requires 0 <= i < |docs| => ContextEntry(docs[i], i))
  }

  function Join(parts: seq<string>, sep: string): string
    decreases |parts|
  {
    if |parts| == 0 then ""
    else if |parts| == 1 then parts[0]
    else parts[0] + sep + Join(parts[1..], sep)
  }

  /** Whether `t` occurs in `s` starting at position `k`. */
  predicate OccursAt(s: string, t: string, k: nat) {
    k + |t| <= |s| && s[k..k + |t|] == t
  }

  /** Whether `t` occurs in `s` as a run of consecutive characters. */
  ghost predicate Contains(s: string, t: string) {
    exists k: nat :: OccursAt(s, t, k)
  }

  /** An occurrence survives adding text on either side. */
  lemma ContainsWithin(pre: string, s: string, post: string, t: string)
    requires Contains(s, t)
    ensures Contains(pre + s + post, t)
  {
    var k: nat :| OccursAt(s, t, k);
    var w := pre + s + post;
    assert w[|pre| + k..|pre| + k + |t|] == s[k..k + |t|];
    assert OccursAt(w, t, |pre| + k);
  }

  /** Joining keeps every part, whole. */
  lemma {:induction false} JoinContains(parts: seq<string>, sep: string)
    ensures forall i :: 0 <= i < |parts| ==> Contains(Join(parts, sep), parts[i])
    decreases |parts|
  {
    if |parts| == 1 {
      assert OccursAt(Join(parts, sep), parts[0], 0);
    } else if |parts| > 1 {
      JoinContains(parts[1..], sep);
      var rest := Join(parts[1..], sep);
      forall i | 0 <= i < |parts| ensures Contains(Join(parts, sep), parts[i]) {
        if i == 0 {
          assert OccursAt(Join(parts, sep), parts[0], 0);
        } else {
          assert parts[1..][i - 1] == parts[i];
          ContainsWithin(parts[0] + sep, rest, "", parts[i]);
          assert parts[0] + sep + rest + "" == Join(parts, sep);
        }
      }
    }
  }

  /** The context block: one entry per candidate, numbered from 1, separated
      by blank lines. Every candidate's entry appears in it whole, and there
      is no context without candidates. */
  function Context(docs: seq<Candidate>): (c: string)
    ensures forall i :: 0 <= i < |docs| ==> Contains(c, Entries(docs)[i])
    ensures |docs| == 0 <==> c == ""
  {
    JoinContains(Entries(docs), "\n\n");
    assert |docs| > 0 ==> |Entries(docs)[0]| > 0 && Contains(Join(Entries(docs), "\n\n"), Entries(docs)[0]);
    Join(Entries(docs), "\n\n")
  }

  /** The context entry of candidate i opens with label i + 1: scanning it
      yields i + 1 first, and that label, echoed in generated text, is
      extracted as candidate i's citation. */
  lemma ContextEntryRoundTrip(docs: seq<Candidate>, i: nat)
    requires i < |docs|
    ensures Entries(docs)[i] == Label(i + 1) + EntryBody(docs[i])
    ensures Markers(Entries(docs)[i]) == [i + 1] + Markers(EntryBody(docs[i]))
    ensures ExtractCitations(Label(i + 1), docs) == [Cite(docs[i])]
  {
    MarkersOfLabel(i + 1, EntryBody(docs[i]));
    ExtractSingleMarker(i + 1, docs);
  }

  /** The closing request of the user message. */
  const CiteRequest: string :=
    "\n\nPlease provide a comprehensive answer based on the provided"
    + " sources. Include specific citations using [1], [2], etc. format."

  /** The user message: the question, then the context, then the request
      to cite by number. */
  function UserPrompt(question: string, context: string): (u: string)
    ensures Contains(u, question) && Contains(u, context)
  {
    var head := "Question: " + question + "\n\nContext:\n";
    var u := head + context + CiteRequest;
    assert OccursAt(u, question, 10);
    assert OccursAt(u, context, |head|);
    u
  }

  /** The summary taken from a completion: its content, unless that is
      missing or empty. */
  function SummaryOf(content: Option<string>): (s: string)
    ensures s != ""
    ensures content.Some? && content.value != "" ==> s == content.value
    ensures !(content.Some? && content.value != "") ==> s == FallbackSummary
  {
    if content.Some? && content.value != "" then content.value else FallbackSummary
  }

  /** An occurrence inside an occurrence is an occurrence. */
  lemma ContainsTrans(s: string, t: string, u: string)
    requires Contains(s, t) && Contains(t, u)
    ensures Contains(s, u)
  {
    var k: nat :| OccursAt(s, t, k);
    var m: nat :| OccursAt(t, u, m);
    forall x | 0 <= x < |u| ensures s[k + m + x] == u[x] {
      assert s[k + m + x] == s[k..k + |t|][m + x];
      assert t[m + x] == t[m..m + |u|][x];
    }
    assert s[k + m..k + m + |u|] == u;
    assert OccursAt(s, u, k + m);
  }

  /** The user message sent for a question over candidates carries the
      question and every candidate's numbered entry. */
  lemma UserPromptCarriesCandidates(question: string, docs: seq<Candidate>)
    ensures Contains(UserPrompt(question, Context(docs)), question)
    ensures forall i :: 0 <= i < |docs| ==> Contains(UserPrompt(question, Context(docs)), Entries(docs)[i])
  {
    var context := Context(docs);
    var user := UserPrompt(question, context);
    forall i | 0 <= i < |docs| ensures Contains(user, Entries(docs)[i]) {
      ContainsTrans(user, context, Entries(docs)[i]);
    }
  }

  /** The result assembled from a completion over non-empty candidates. */
  function Assemble(docs: seq<Candidate>, content: Option<string>, currentYear: int): (r: RagResult)
    requires |docs| > 0
    ensures r.summary != "" && r.confidence <= 100 && 0.0 <= r.controversy <= 100.0
    ensures CitesOnly(r.citations, docs)
    ensures r.summary == SummaryOf(content)
  {
    var summary := SummaryOf(content);
    RagResult(summary, ExtractCitations(summary, docs), Confidence(docs, currentYear), Controversy(docs))
  }

  /** One run of answer generation. `retrieved` is None when retrieval
      threw; `reply` is what the chat completion returns for the prompts
      `SystemPrompt(req.persona, req.lang)` and
      `UserPrompt(req.question, Context(docs))`, and is consulted only when
      there is evidence.
      Every failure surfaces as the one generic error. */
  function GenerateAnswer(req: RagRequest, retrieved: Option<seq<Candidate>>,
                          reply: LlmReply, currentYear: int): (r: Result<RagResult>)
    ensures retrieved.None? ==> r == Err(GenerationFailure)
    ensures retrieved == Some([]) ==> r == Ok(NoEvidenceResult)
    ensures r.Err? ==> r.message == GenerationFailure
    ensures retrieved.Some? && |retrieved.value| > 0 ==>
              (r.Ok? <==> reply.Completion?)
    ensures retrieved.Some? && |retrieved.value| > 0 && reply.Completion? ==>
              r.Ok? && r.value.summary == SummaryOf(reply.content)
  {
    match retrieved
    case None => Err(GenerationFailure)
    case Some(docs) =>
      if |docs| == 0 then Ok(NoEvidenceResult)
      else
        if reply.ApiError? then Err(GenerationFailure)
        else Ok(Assemble(docs, reply.content, currentYear))
  }

  /** Every answer generation produces: a non-empty summary, scores within
      [0,100], and citations drawn only from the candidates it was given. */
  lemma GeneratedAnswerWellFormed(req: RagRequest, retrieved: Option<seq<Candidate>>,
                                  reply: LlmReply, currentYear: int)
    requires GenerateAnswer(req, retrieved, reply, currentYear).Ok?
    ensures retrieved.Some?
    ensures var r := GenerateAnswer(req, retrieved, reply, currentYear).value;
            r.summary != "" && r.confidence <= 100 && 0.0 <= r.controversy <= 100.0
            && CitesOnly(r.citations, retrieved.value)
    ensures CredibilitiesWithin(retrieved.value, 0, 100) ==>
              0 <= GenerateAnswer(req, retrieved, reply, currentYear).value.confidence
  {
    if retrieved.value == [] {
      assert |NoEvidenceSummary| > 0;
    }
  }

  /** Persona and language shape only the prompt: whenever generation
      succeeds over the same candidates, the scores are the same and are the
      candidates' confidence and controversy. */
  lemma ScoresIndependentOfPersona(req1: RagRequest, req2: RagRequest, docs: seq<Candidate>,
                                   reply1: LlmReply, reply2: LlmReply,
                                   currentYear: int)
    requires GenerateAnswer(req1, Some(docs), reply1, currentYear).Ok?
    requires GenerateAnswer(req2, Some(docs), reply2, currentYear).Ok?
    ensures var r1 := GenerateAnswer(req1, Some(docs), reply1, currentYear).value;
            var r2 := GenerateAnswer(req2, Some(docs), reply2, currentYear).value;
            r1.confidence == r2.confidence == Confidence(docs, currentYear)
            && r1.controversy == r2.controversy == Controversy(docs)
  {
  }

  /** A successful generation over candidates cites exactly the in-range
      markers of its own summary. */
  lemma CitationsFollowSummary(req: RagRequest, docs: seq<Candidate>,
                               reply: LlmReply, currentYear: int)
    requires |docs| > 0
    requires GenerateAnswer(req, Some(docs), reply, currentYear).Ok?
    ensures var r := GenerateAnswer(req, Some(docs), reply, currentYear).value;
            r.citations == ExtractCitations(r.summary, docs)
  {
  }
}
