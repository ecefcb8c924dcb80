/**
  interview.py, `results`: wait a bounded number of polls for the transcript
  file to hold ten entries, read it (or fall back to a fixed text), score it,
  and attempt exactly one insert into the results table.
 */
module InterviewResults {
  import opened Wrappers
  import opened Text
  import opened Candidates
  import opened InterviewRecords
  import opened InterviewSession
  import opened TranscriptStore

  const MaxPolls: nat := 15
  const ReadyEntries: nat := 10
  const TranscriptionIncomplete: string := "Transcription incomplete."
  const EvaluationError: string := "Evaluation error."

  /** A poll finds the file and counts at least ten "Question" in it. */
  predicate Ready(file: Option<string>) {
    file.Some? && Count(file.value, QuestionWord) >= ReadyEntries
  }

  /** Further worker runs never take a ready transcript file back to not ready. */
  lemma ReadyStaysReady(files: map<int, string>, task: TranscriptionTask, answer: Option<string>, id: int)
    requires Ready(FileAt(files, id))
    ensures Ready(FileAt(AfterTask(files, task, answer), id))
  {
    WorkerOnlyAppends(files, task, answer, id);
  }

  /**
    The waiting loop: poll `p` sees `observe(p)` (the file's text, or `None`
    when it does not exist yet); stop at the first ready poll, else sleep one
    second and go on, for at most fifteen polls.
   */
  method WaitForTranscript(observe: nat -> Option<string>) returns (polls: nat, ready: bool, sleeps: nat)
    ensures 1 <= polls <= MaxPolls
    ensures forall p :: 0 <= p < polls - 1 ==> !Ready(observe(p))
    ensures ready <==> Ready(observe(polls - 1))
    ensures ready ==> sleeps == polls - 1
    ensures !ready ==> polls == MaxPolls && sleeps == MaxPolls
  {
    polls, ready, sleeps := 0, false, 0;
    for p := 0 to MaxPolls
      invariant polls == p && sleeps == p && !ready
      invariant forall j :: 0 <= j < p ==> !Ready(observe(j))
    {
      polls := p + 1;
      var file := observe(p);
      if file.Some? && Count(file.value, QuestionWord) >= ReadyEntries {
        ready := true;
        break;
      }
      sleeps := sleeps + 1;
    }
  }

  /** The text that is scored and stored: the file as read after the wait, or "Transcription incomplete.". */
  function FinalText(file: Option<string>): (text: string)
    ensures file.None? ==> text == TranscriptionIncomplete
    ensures file.Some? ==> text == file.value
  {
    file.GetOr(TranscriptionIncomplete)
  }

  /** The parts of the evaluator's JSON reply the page and the row use. */
  datatype Evaluation = Evaluation(averageScore: real, summary: string)

  /** The final score, the stored summary and the feedback shown on the page. */
  datatype Verdict = Verdict(score: real, summary: string, feedback: string)

  /**
    `evaluate_answers_with_gemini` and its `try`: the reply with its fences
    removed is parsed; any failure, of the call or of the parse, gives score
    0.0 and "Evaluation error." as both summary and feedback.
   */
  function Evaluate(reply: Option<string>, parse: string -> Option<Evaluation>): (v: Verdict)
    ensures reply.None? ==> v == Verdict(0.0, EvaluationError, EvaluationError)
    ensures reply.Some? && parse(CleanFences(reply.value)).None? ==> v == Verdict(0.0, EvaluationError, EvaluationError)
    ensures reply.Some? && parse(CleanFences(reply.value)).Some? ==>
              v.score == parse(CleanFences(reply.value)).value.averageScore &&
              v.summary == v.feedback == parse(CleanFences(reply.value)).value.summary
  {
    if reply.None? then Verdict(0.0, EvaluationError, EvaluationError)
    else match parse(CleanFences(reply.value))
      case None => Verdict(0.0, EvaluationError, EvaluationError)
      case Some(e) => Verdict(e.averageScore, e.summary, e.summary)
  }

  /** The row inserted for the candidate. */
  function ResultRowFor(info: CandidateInfo, text: string, v: Verdict): (row: ResultRow)
    ensures row.candidateId == info.candidateId && row.fullTranscript == text
    ensures row.finalScore == v.score && row.summary == v.summary
    ensures row.name == info.name && row.email == info.email && row.phone == info.phone
  {
    ResultRow(info.candidateId, info.name, info.email, info.phone, text, v.score, v.summary)
  }

  datatype ResultsPage =
    | ResultsToLogin
    | Shown(name: string, transcript: seq<QA>, summary: string, feedback: string, score: real)

  /** `not info or not transcript`: no candidate, or no transcript key, or an empty transcript. */
  predicate MayShowResults(s: Snapshot) {
    s.info.Some? && s.transcript.Some? && s.transcript.value != []
  }

  /**
    The `results` route. `observe` is what each poll reads, `finalFile` the
    file as read after the wait, `reply`/`parse` the evaluator, and
    `insertOk` whether the insert reported no errors. `attempts` are the
    rows offered to the insert, `table` the results table afterwards.
   */
  method Results(s: Snapshot, observe: nat -> Option<string>, finalFile: Option<string>,
                 reply: Option<string>, parse: string -> Option<Evaluation>,
                 table: seq<ResultRow>, insertOk: bool)
    returns (page: ResultsPage, attempts: seq<ResultRow>, newTable: seq<ResultRow>)
    ensures !MayShowResults(s) ==> page == ResultsToLogin && attempts == [] && newTable == table
    ensures MayShowResults(s) ==>
              attempts == [ResultRowFor(s.info.value, FinalText(finalFile), Evaluate(reply, parse))] &&
              page == Shown(s.info.value.name, s.transcript.value, Evaluate(reply, parse).summary,
                            Evaluate(reply, parse).feedback, Evaluate(reply, parse).score)
    ensures newTable == if insertOk then table + attempts else table
  {
    if s.info.None? || s.transcript.None? || s.transcript.value == [] {
      return ResultsToLogin, [], table;
    }
    var info := s.info.value;
    var polls, ready, sleeps := WaitForTranscript(observe);
    var finalText := if finalFile.Some? then finalFile.value else TranscriptionIncomplete;
    var verdict := Evaluate(reply, parse);
    var row := ResultRow(info.candidateId, info.name, info.email, info.phone, finalText, verdict.score, verdict.summary);
    attempts := [row];
    newTable := if insertOk then table + [row] else table;
    page := Shown(info.name, s.transcript.value, verdict.summary, verdict.feedback, verdict.score);
  }

  /**
    Once the insert succeeds, logging in again with the same id is refused as
    already interviewed, whatever the shortlist and the question generator do.
   */
  lemma InsertedCandidateCannotLogInAgain(info: CandidateInfo, text: string, v: Verdict, table: seq<ResultRow>,
                                          shortlist: Option<seq<CandidateRow>>, reply: Option<string>,
                                          parseList: string -> Option<seq<string>>)
    ensures LoginDecision(Some(info.candidateId), Some(table + [ResultRowFor(info, text, v)]), shortlist, reply, parseList)
            == AlreadyInterviewed
  {
    var rows := table + [ResultRowFor(info, text, v)];
    assert rows[|table|].candidateId == info.candidateId;
  }

  /** A session that has just logged in has an empty transcript, so `results` sends it back to login. */
  lemma FreshLoginHasNoResults(s: Snapshot, info: CandidateInfo, questions: seq<string>)
    ensures !MayShowResults(AfterLogin(s, LoggedIn(info, questions)))
  {
  }
}
