/**
  interview.py: the login, interview, processing and submit_answer routes
  over the per-candidate session. Each route's decision is a function of the
  session and of what the external calls returned; the session object is
  changed in place by the `Session` methods, which are proved against those
  functions.
 */
module InterviewSession {
  import opened Wrappers
  import opened Text
  import opened Candidates
  import opened InterviewRecords

  // ---------------------------------------------------------------------------
  // login
  // ---------------------------------------------------------------------------

  /**
    `check_duplicate_interview`: the id has a row in the results table; a
    failed query (`None`) counts as no row.
   */
  predicate AlreadyInResults(results: Option<seq<ResultRow>>, id: int) {
    results.Some? && exists i :: 0 <= i < |results.value| && results.value[i].candidateId == id
  }

  /** `authenticate_candidate`: the first shortlist row with the id; `None` when there is none or the query failed. */
  function FindCandidate(shortlist: Option<seq<CandidateRow>>, id: int): (r: Option<CandidateInfo>)
    ensures r.Some? ==> shortlist.Some? && exists i :: 0 <= i < |shortlist.value| && r.value == InfoOf(shortlist.value[i])
    ensures r.Some? ==> r.value.candidateId == id
    ensures r.None? <==> shortlist.None? || forall i :: 0 <= i < |shortlist.value| ==> shortlist.value[i].candidateId != id
  {
    if shortlist.None? then None
    else FirstWithId(shortlist.value, id)
  }

  /** Position of the first row carrying `id`, or `|rows|` when there is none. */
  function FirstIndexWithId(rows: seq<CandidateRow>, id: int): (i: nat)
    ensures i <= |rows|
    ensures i < |rows| ==> rows[i].candidateId == id
    ensures forall j :: 0 <= j < i ==> rows[j].candidateId != id
  {
    if rows == [] || rows[0].candidateId == id then 0
    else
      var i := FirstIndexWithId(rows[1..], id);
      assert forall j :: 1 <= j < i + 1 ==> rows[j] == rows[1..][j - 1];
      i + 1
  }

  function FirstWithId(rows: seq<CandidateRow>, id: int): (r: Option<CandidateInfo>)
    ensures r.Some? ==> exists i :: 0 <= i < |rows| && rows[i].candidateId == id && r.value == InfoOf(rows[i]) &&
                          forall j :: 0 <= j < i ==> rows[j].candidateId != id
    ensures r.None? <==> forall i :: 0 <= i < |rows| ==> rows[i].candidateId != id
  {
    var i := FirstIndexWithId(rows, id);
    if i < |rows| then Some(InfoOf(rows[i])) else None
  }

  /** `generate_questions`: the reply with its fences removed, then parsed as a JSON list of strings. */
  function GeneratedQuestions(reply: Option<string>, parseList: string -> Option<seq<string>>): Option<seq<string>> {
    if reply.None? then None else parseList(CleanFences(reply.value))
  }

  /** How the login POST ends. */
  datatype LoginOutcome =
    | LoginCrashed                          // `int(candidate_id)` raised
    | AlreadyInterviewed                    // the results table has the id
    | InvalidCandidate                      // not on the shortlist
    | QuestionsFailed(info: CandidateInfo)  // `generate_questions` raised after `candidate_info` was stored
    | LoggedIn(info: CandidateInfo, questions: seq<string>)

  /** The decision of `login`, in the route's order: id conversion, duplicate check, lookup, questions. */
  function LoginDecision(id: Option<int>, results: Option<seq<ResultRow>>, shortlist: Option<seq<CandidateRow>>,
                         reply: Option<string>, parseList: string -> Option<seq<string>>): (o: LoginOutcome)
    ensures o.LoginCrashed? <==> id.None?
    ensures o.AlreadyInterviewed? <==> id.Some? && AlreadyInResults(results, id.value)
    ensures o.InvalidCandidate? <==> id.Some? && !AlreadyInResults(results, id.value) && FindCandidate(shortlist, id.value).None?
    ensures o.QuestionsFailed? || o.LoggedIn? ==>
              id.Some? && !AlreadyInResults(results, id.value) && FindCandidate(shortlist, id.value) == Some(o.info) &&
              (o.LoggedIn? <==> GeneratedQuestions(reply, parseList).Some?)
    ensures o.LoggedIn? ==> Some(o.questions) == GeneratedQuestions(reply, parseList)
  {
    if id.None? then LoginCrashed
    else if AlreadyInResults(results, id.value) then AlreadyInterviewed
    else
      match FindCandidate(shortlist, id.value)
      case None => InvalidCandidate
      case Some(info) =>
        match GeneratedQuestions(reply, parseList)
        case None => QuestionsFailed(info)
        case Some(qs) => LoggedIn(info, qs)
  }

  /** The session after `login`: a new interview on success, only `candidate_info` if the questions failed. */
  function AfterLogin(s: Snapshot, o: LoginOutcome): (t: Snapshot)
    ensures o.LoggedIn? ==> t.index == Some(0) && t.transcript == Some([]) && t.questions == Some(o.questions) && t.info == Some(o.info)
    ensures o.QuestionsFailed? ==> t == s.(info := Some(o.info))
    ensures !o.LoggedIn? && !o.QuestionsFailed? ==> t == s
    ensures WellFormed(s) ==> WellFormed(t)
  {
    match o
    case LoggedIn(info, qs) => Snapshot(Some(info), Some(qs), Some(0), Some([]))
    case QuestionsFailed(info) => s.(info := Some(info))
    case _ => s
  }

  // ---------------------------------------------------------------------------
  // submit_answer
  // ---------------------------------------------------------------------------

  const ProcessingPlaceholder: string := "[Processing...]"
  const NoAnswer: string := "[no answer]"

  /**
    The request body of `submit_answer`: an uploaded audio file, or a JSON
    object whose `answer_text` may be missing, or a body that is not a JSON
    object (`get_json()` or `.get` raises).
   */
  datatype Payload = AudioAnswer(audio: nat) | TextAnswer(answerText: Option<string>) | NotJsonObject

  datatype SubmitOutcome = SubmitCrashed | Advanced(next: Snapshot, task: Option<TranscriptionTask>)

  /** The session lookups `submit_answer` makes before it changes anything; any of them failing raises. */
  predicate CanAnswer(s: Snapshot, p: Payload) {
    !p.NotJsonObject? && s.index.Some? && s.questions.Some? && s.index.value < |s.questions.value| &&
    (p.AudioAnswer? ==> s.info.Some?) && s.transcript.Some?
  }

  /** What `submit_answer` does to the session, and the task it hands to the worker. */
  function Submit(s: Snapshot, p: Payload): (o: SubmitOutcome)
    ensures o.SubmitCrashed? <==> !CanAnswer(s, p)
    ensures o.Advanced? ==>
              var idx := s.index.value;
              o.next.index == Some(idx + 1) &&
              o.next.transcript.Some? && o.next.transcript.value == s.transcript.value + [QA(s.questions.value[idx], AnswerText(p))] &&
              o.next.info == s.info && o.next.questions == s.questions &&
              (o.task.Some? <==> p.AudioAnswer?) &&
              (o.task.Some? ==> o.task.value == TranscriptionTask(p.audio, s.info.value, s.questions.value[idx], idx))
  {
    if !CanAnswer(s, p) then SubmitCrashed
    else
      var idx := s.index.value;
      var q := s.questions.value[idx];
      var next := s.(transcript := Some(s.transcript.value + [QA(q, AnswerText(p))]), index := Some(idx + 1));
      Advanced(next, if p.AudioAnswer? then Some(TranscriptionTask(p.audio, s.info.value, q, idx)) else None)
  }

  /** The answer stored in the session: the placeholder for audio, else `answer_text` or "[no answer]". */
  function AnswerText(p: Payload): (a: string)
    requires !p.NotJsonObject?
    ensures p.AudioAnswer? ==> a == ProcessingPlaceholder
    ensures p.TextAnswer? && p.answerText.None? ==> a == NoAnswer
    ensures p.TextAnswer? && p.answerText.Some? ==> a == p.answerText.value
  {
    match p
    case AudioAnswer(_) => ProcessingPlaceholder
    case TextAnswer(t) => t.GetOr(NoAnswer)
  }

  /** A well-formed session stays well-formed; a crash leaves it untouched, so `index` never passes `len(questions)`. */
  lemma SubmitPreservesWellFormed(s: Snapshot, p: Payload)
    requires WellFormed(s)
    ensures Submit(s, p).Advanced? ==> WellFormed(Submit(s, p).next)
    ensures Submit(s, p).Advanced? ==> Submit(s, p).next.index.value <= |Submit(s, p).next.questions.value|
  {
    if Submit(s, p).Advanced? {
      var t := Submit(s, p).next;
      var idx := s.index.value;
      forall k | 0 <= k < t.index.value
        ensures t.transcript.value[k].question == t.questions.value[k]
      {
        if k < idx {
          assert t.transcript.value[k] == s.transcript.value[k];
        }
      }
    }
  }

  /** Once every question is answered, every further submission fails. */
  lemma NoAnswerPastTheEnd(s: Snapshot, p: Payload)
    requires WellFormed(s) && s.index.Some? && s.index.value == |s.questions.value|
    ensures Submit(s, p).SubmitCrashed?
  {
  }

  /** Feed a sequence of submissions to the session, keeping it unchanged on every crash. */
  function SubmitAll(s: Snapshot, ps: seq<Payload>): Snapshot
    decreases |ps|
  {
    if ps == [] then s
    else match Submit(s, ps[0])
      case SubmitCrashed => SubmitAll(s, ps[1..])
      case Advanced(next, _) => SubmitAll(next, ps[1..])
  }

  /** The number of those submissions that were accepted. */
  function AcceptedCount(s: Snapshot, ps: seq<Payload>): nat
    decreases |ps|
  {
    if ps == [] then 0
    else match Submit(s, ps[0])
      case SubmitCrashed => AcceptedCount(s, ps[1..])
      case Advanced(next, _) => 1 + AcceptedCount(next, ps[1..])
  }

  /**
    However many requests arrive, at most `len(questions) - index` of them
    are accepted, each one advancing `index` by exactly one.
   */
  lemma {:induction false} AcceptedAtMostRemaining(s: Snapshot, ps: seq<Payload>)
    requires WellFormed(s) && s.index.Some?
    ensures AcceptedCount(s, ps) <= |s.questions.value| - s.index.value
    ensures WellFormed(SubmitAll(s, ps))
    ensures SubmitAll(s, ps).index == Some(s.index.value + AcceptedCount(s, ps))
    ensures SubmitAll(s, ps).questions == s.questions
    decreases |ps|
  {
    if ps != [] {
      SubmitPreservesWellFormed(s, ps[0]);
      match Submit(s, ps[0])
      case SubmitCrashed =>
        AcceptedAtMostRemaining(s, ps[1..]);
      case Advanced(next, _) =>
        AcceptedAtMostRemaining(next, ps[1..]);
    }
  }

  // ---------------------------------------------------------------------------
  // interview and processing
  // ---------------------------------------------------------------------------

  datatype InterviewView =
    | InterviewToLogin
    | InterviewCrashed
    | InterviewToProcessing
    | ShowQuestion(question: string, audio: string, number: nat, total: nat)

  /**
    `interview`: no questions sends to login; all answered goes to
    processing; otherwise the next question is spoken by `tts` and shown.
    `tts` stands for `text_to_speech`, the Text-to-Speech call and its
    base64 encoding: `None` when the call raises, which crashes the page,
    as does a session without `index`.
   */
  function InterviewRoute(s: Snapshot, tts: string -> Option<string>): (v: InterviewView)
    ensures v.ShowQuestion? <==>
              s.questions.Some? && s.index.Some? && s.index.value < |s.questions.value| &&
              tts(s.questions.value[s.index.value]).Some?
    ensures v.ShowQuestion? ==> v.number == s.index.value + 1 && v.total == |s.questions.value| &&
                                v.question == s.questions.value[s.index.value] && tts(v.question) == Some(v.audio)
    ensures v.InterviewToProcessing? <==> s.questions.Some? && s.index.Some? && s.index.value >= |s.questions.value|
    ensures v.InterviewToLogin? <==> s.questions.None?
    ensures v.InterviewCrashed? <==>
              s.questions.Some? &&
              (s.index.None? || (s.index.value < |s.questions.value| && tts(s.questions.value[s.index.value]).None?))
  {
    if s.questions.None? then InterviewToLogin
    else if s.index.None? then InterviewCrashed
    else if s.index.value >= |s.questions.value| then InterviewToProcessing
    else
      var q := s.questions.value[s.index.value];
      match tts(q)
      case None => InterviewCrashed
      case Some(audio) => ShowQuestion(q, audio, s.index.value + 1, |s.questions.value|)
  }

  datatype ProcessingView = ProcessingToInterview | ShowProcessing

  /** `processing`: back to the interview while `session.get("index", 0) < len(session.get("questions", []))`. */
  function ProcessingRoute(s: Snapshot): (v: ProcessingView)
    ensures v.ProcessingToInterview? <==> s.questions.Some? && s.index.GetOr(0) < |s.questions.value|
  {
    if s.index.GetOr(0) < |s.questions.GetOr([])| then ProcessingToInterview else ShowProcessing
  }

  /**
    On a well-formed session the two routes agree: the interview page hands
    over to processing exactly when processing does not send back, the
    question shown is the first one without an answer, and the page crashes
    only when speaking that question fails.
   */
  lemma RoutesAgree(s: Snapshot, tts: string -> Option<string>)
    requires WellFormed(s)
    ensures InterviewRoute(s, tts).InterviewToProcessing? <==> s.questions.Some? && ProcessingRoute(s).ShowProcessing?
    ensures InterviewRoute(s, tts).InterviewToLogin? <==> s.questions.None?
    ensures InterviewRoute(s, tts).ShowQuestion? || InterviewRoute(s, tts).InterviewCrashed? <==>
              ProcessingRoute(s).ProcessingToInterview?
    ensures InterviewRoute(s, tts).InterviewCrashed? <==>
              ProcessingRoute(s).ProcessingToInterview? && tts(s.questions.value[|s.transcript.value|]).None?
    ensures InterviewRoute(s, tts).ShowQuestion? ==>
              InterviewRoute(s, tts).question == s.questions.value[|s.transcript.value|]
  {
  }

  /**
    The question an audio answer is recorded for is the one the interview
    page showed, and the worker's entry number `index + 1` is the number the
    page showed with it.
   */
  lemma AudioTaskMatchesShownQuestion(s: Snapshot, audio: nat, tts: string -> Option<string>)
    requires WellFormed(s) && Submit(s, AudioAnswer(audio)).Advanced?
    requires tts(s.questions.value[s.index.value]).Some?
    ensures InterviewRoute(s, tts).ShowQuestion?
    ensures Submit(s, AudioAnswer(audio)).task.value.question == InterviewRoute(s, tts).question
    ensures Submit(s, AudioAnswer(audio)).task.value.index + 1 == InterviewRoute(s, tts).number
  {
  }

  // ---------------------------------------------------------------------------
  // The session object
  // ---------------------------------------------------------------------------

  /** What `submit_answer` does outside the session, in order. */
  datatype Effect = SessionSaved(saved: Snapshot) | TaskSubmitted(task: TranscriptionTask)

  /** The signed session of one browser, changed in place by the routes. */
  class Session {
    var info: Option<CandidateInfo>
    var questions: Option<seq<string>>
    var index: Option<nat>
    var transcript: Option<seq<QA>>

    function Snap(): Snapshot
      reads this
    {
      Snapshot(info, questions, index, transcript)
    }

    predicate Valid()
      reads this
    {
      WellFormed(Snap())
    }

    constructor ()
      ensures Snap() == EmptySession && Valid()
    {
      info := None;
      questions := None;
      index := None;
      transcript := None;
    }

    /** The POST branch of `login`. */
    method Login(id: Option<int>, results: Option<seq<ResultRow>>, shortlist: Option<seq<CandidateRow>>,
                 reply: Option<string>, parseList: string -> Option<seq<string>>)
      returns (outcome: LoginOutcome)
      requires Valid()
      modifies this
      ensures Valid()
      ensures outcome == LoginDecision(id, results, shortlist, reply, parseList)
      ensures Snap() == AfterLogin(old(Snap()), outcome)
    {
      if id.None? {
        return LoginCrashed;
      }
      if AlreadyInResults(results, id.value) {
        return AlreadyInterviewed;
      }
      var found := FindCandidate(shortlist, id.value);
      if found.None? {
        return InvalidCandidate;
      }
      info := found;
      var generated := GeneratedQuestions(reply, parseList);
      if generated.None? {
        return QuestionsFailed(found.value);
      }
      questions := generated;
      index := Some(0);
      transcript := Some([]);
      outcome := LoggedIn(found.value, generated.value);
    }

    /** `submit_answer`: append one pair, advance the index, and for audio save the session and then submit the task. */
    method SubmitAnswer(p: Payload) returns (accepted: bool, effects: seq<Effect>)
      requires Valid()
      modifies this
      ensures Valid()
      ensures accepted <==> Submit(old(Snap()), p).Advanced?
      ensures !accepted ==> Snap() == old(Snap()) && effects == []
      ensures accepted ==> Snap() == Submit(old(Snap()), p).next
      ensures accepted && p.AudioAnswer? ==>
                effects == [SessionSaved(Snap()), TaskSubmitted(Submit(old(Snap()), p).task.value)]
      ensures accepted && !p.AudioAnswer? ==> effects == []
    {
      SubmitPreservesWellFormed(Snap(), p);
      if p.NotJsonObject? || index.None? || questions.None? || index.value >= |questions.value| ||
         (p.AudioAnswer? && info.None?) || transcript.None? {
        return false, [];
      }
      var idx := index.value;
      var question := questions.value[idx];
      var answer := if p.AudioAnswer? then ProcessingPlaceholder else p.answerText.GetOr(NoAnswer);
      transcript := Some(transcript.value + [QA(question, answer)]);
      index := Some(idx + 1);
      accepted := true;
      effects := [];
      if p.AudioAnswer? {
        effects := [SessionSaved(Snap()), TaskSubmitted(TranscriptionTask(p.audio, info.value, question, idx))];
      }
    }
  }
}
