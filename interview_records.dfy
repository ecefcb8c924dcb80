/**
  The records the interview app keeps: the candidate as read from the
  shortlist table, the per-candidate session fields, the work handed to the
  transcription worker, and the row written to the results table.
 */
module InterviewRecords {
  import opened Wrappers
  import opened Candidates

  /** `candidate_info`: the shortlist row's id, name, e-mail, phone and resume text. */
  datatype CandidateInfo = CandidateInfo(candidateId: int, name: string, email: string, phone: string, resumeText: Option<string>)

  function InfoOf(row: CandidateRow): CandidateInfo {
    CandidateInfo(row.candidateId, row.name, row.email, row.phone, row.resumeText)
  }

  /** One `{"question", "answer"}` pair of the session transcript. */
  datatype QA = QA(question: string, answer: string)

  /**
    The four session keys; `None` is a key that is not in the session.
    `index` is the number of questions answered so far.
   */
  datatype Snapshot = Snapshot(
    info: Option<CandidateInfo>,
    questions: Option<seq<string>>,
    index: Option<nat>,
    transcript: Option<seq<QA>>)

  const EmptySession := Snapshot(None, None, None, None)

  /**
    The session invariant: the three interview keys come and go together and
    only with a candidate, the transcript has one pair per answered question,
    pair k holds question k, and no more questions are answered than asked.
   */
  predicate WellFormed(s: Snapshot) {
    (s.questions.Some? <==> s.index.Some?) &&
    (s.index.Some? <==> s.transcript.Some?) &&
    (s.questions.Some? ==> s.info.Some?) &&
    (s.index.Some? ==>
      |s.transcript.value| == s.index.value <= |s.questions.value| &&
      forall k :: 0 <= k < s.index.value ==> s.transcript.value[k].question == s.questions.value[k])
  }

  /** The arguments of `process_audio_async`: the saved audio, the candidate, the question and its 0-based index. */
  datatype TranscriptionTask = TranscriptionTask(audio: nat, info: CandidateInfo, question: string, index: nat)

  /** A row of the interview results table. */
  datatype ResultRow = ResultRow(
    candidateId: int,
    name: string,
    email: string,
    phone: string,
    fullTranscript: string,
    finalScore: real,
    summary: string)
}
