/**
  interview.py, `process_audio_async`: the background worker that turns one
  recorded answer into a numbered question/answer entry of the candidate's
  transcript file, appending it only when that question number is not
  already present.
 */
module TranscriptStore {
  import opened Wrappers
  import opened Text
  import opened InterviewRecords

  const NoSpeech: string := "[No speech detected]"
  const QuestionWord: string := "Question"

  /**
    What the transcription call gave back: a reply with text, a reply
    without a `text` attribute, or a failure (reading the audio file or the
    call itself raised; the worker swallows it).
   */
  datatype Transcription = Transcribed(text: string) | NoTextAttribute | TranscriptionFailed

  /**
    The answer the worker writes: the reply stripped, or "[No speech
    detected]" without a text attribute; `None` when the worker gave up.
   */
  function WrittenAnswer(t: Transcription): (r: Option<string>)
    ensures r.None? <==> t.TranscriptionFailed?
    ensures t.Transcribed? ==> r == Some(Strip(t.text)) && IsStripped(r.value)
    ensures t.NoTextAttribute? ==> r == Some(NoSpeech)
  {
    match t
    case Transcribed(text) => Some(Strip(text))
    case NoTextAttribute => Some(NoSpeech)
    case TranscriptionFailed => None
  }

  /** `"Question{k}:"`, the text whose presence marks entry k as written. */
  function Marker(k: nat): (m: string)
    ensures IsPrefix(QuestionWord, m)
  {
    QuestionWord + NatToString(k) + ":"
  }

  /** `"Question{k}: {question}\nAnswer{k}: {answer}\n\n"`. */
  function Entry(k: nat, question: string, answer: string): string {
    Marker(k) + " " + question + "\nAnswer" + NatToString(k) + ": " + answer + "\n\n"
  }

  /** Every entry begins with its own marker, and so with "Question". */
  lemma EntryStartsWithMarker(k: nat, question: string, answer: string)
    ensures IsPrefix(Marker(k), Entry(k, question, answer))
    ensures IsPrefix(QuestionWord, Entry(k, question, answer))
  {
    var e := Entry(k, question, answer);
    var rest := " " + question + "\nAnswer" + NatToString(k) + ": " + answer + "\n\n";
    assert e == Marker(k) + rest;
    assert e[..|Marker(k)|] == Marker(k);
    assert e[..|QuestionWord|] == Marker(k)[..|QuestionWord|];
  }

  /** The check-then-append on one text: entry k is added only when its marker is absent. */
  function AppendOnce(content: string, k: nat, question: string, answer: string): (r: string)
    ensures IsPrefix(content, r)
    ensures Contains(content, Marker(k)) ==> r == content
    ensures !Contains(content, Marker(k)) ==> r == content + Entry(k, question, answer)
  {
    if Contains(content, Marker(k)) then content else content + Entry(k, question, answer)
  }

  /** After the append the marker is present, so a repeat for the same k, whatever its text, changes nothing. */
  lemma AppendOnceIdempotent(content: string, k: nat, q1: string, a1: string, q2: string, a2: string)
    ensures Contains(AppendOnce(content, k, q1, a1), Marker(k))
    ensures AppendOnce(AppendOnce(content, k, q1, a1), k, q2, a2) == AppendOnce(content, k, q1, a1)
  {
    if !Contains(content, Marker(k)) {
      var e := Entry(k, q1, a1);
      EntryStartsWithMarker(k, q1, a1);
      assert Contains(e, Marker(k));
      ContainsExtend(content, e, [], Marker(k));
      assert content + e + [] == content + e;
    }
  }

  /** Appending never lowers the count of "Question", and a written entry raises it by at least one. */
  lemma AppendOnceCount(content: string, k: nat, question: string, answer: string)
    ensures Count(AppendOnce(content, k, question, answer), QuestionWord) >= Count(content, QuestionWord)
    ensures !Contains(content, Marker(k)) ==>
              Count(AppendOnce(content, k, question, answer), QuestionWord) >= Count(content, QuestionWord) + 1
  {
    if !Contains(content, Marker(k)) {
      var e := Entry(k, question, answer);
      EntryStartsWithMarker(k, question, answer);
      CountConcat(content, e, QuestionWord);
      CountLeadingOccurrence(e, QuestionWord, []);
      assert e + [] == e;
    }
  }

  // ---------------------------------------------------------------------------
  // The per-candidate files
  // ---------------------------------------------------------------------------

  /** `answers_cleaned/{candidate_id}.txt`, or `None` when that file does not exist. */
  function FileAt(files: map<int, string>, id: int): Option<string> {
    if id in files then Some(files[id]) else None
  }

  /** The text the worker reads: the file's content, or "" when there is no file yet. */
  function Read(files: map<int, string>, id: int): string {
    if id in files then files[id] else ""
  }

  /** The worker's effect on the files for one task, given the answer it writes (`None`: it gave up). */
  function AfterTask(files: map<int, string>, task: TranscriptionTask, answer: Option<string>): map<int, string> {
    if answer.None? then files
    else if Contains(Read(files, task.info.candidateId), Marker(task.index + 1)) then files
    else files[task.info.candidateId := Read(files, task.info.candidateId) + Entry(task.index + 1, task.question, answer.value)]
  }

  /** With an answer to write, the task's file becomes the check-then-append of that answer. */
  lemma AfterTaskIsAppendOnce(files: map<int, string>, task: TranscriptionTask, answer: string)
    ensures AfterTask(files, task, Some(answer)) ==
              files[task.info.candidateId := AppendOnce(Read(files, task.info.candidateId), task.index + 1, task.question, answer)]
  {
    var id := task.info.candidateId;
    if Contains(Read(files, id), Marker(task.index + 1)) {
      assert files[id := Read(files, id)] == files;
    }
  }

  /** A written answer whose marker is absent is appended to the candidate's file. */
  lemma AfterTaskAppends(files: map<int, string>, task: TranscriptionTask, answer: string)
    requires !Contains(Read(files, task.info.candidateId), Marker(task.index + 1))
    ensures AfterTask(files, task, Some(answer)) ==
              files[task.info.candidateId := Read(files, task.info.candidateId) + Entry(task.index + 1, task.question, answer)]
  {
  }

  /** A written answer whose marker is present leaves the files alone. */
  lemma AfterTaskKeeps(files: map<int, string>, task: TranscriptionTask, answer: string)
    requires Contains(Read(files, task.info.candidateId), Marker(task.index + 1))
    ensures AfterTask(files, task, Some(answer)) == files
  {
  }

  /**
    Only the task's own candidate file can change, and once a transcription
    has been handled the file holds the marker of its question number.
   */
  lemma WorkerTouchesOnlyItsFile(files: map<int, string>, task: TranscriptionTask, answer: Option<string>)
    ensures forall id :: id != task.info.candidateId ==> FileAt(AfterTask(files, task, answer), id) == FileAt(files, id)
    ensures answer.Some? ==> Contains(Read(AfterTask(files, task, answer), task.info.candidateId), Marker(task.index + 1))
  {
    var id := task.info.candidateId;
    var k := task.index + 1;
    var content := Read(files, id);
    if answer.Some? && !Contains(content, Marker(k)) {
      var written := content + Entry(k, task.question, answer.value);
      AppendOnceIdempotent(content, k, task.question, answer.value, task.question, "");
      assert AfterTask(files, task, answer) == files[id := written];
      assert Read(files[id := written], id) == written;
    }
  }

  /**
    A second run of the worker for the same candidate and question number,
    whatever it transcribes, leaves the files as the first run left them.
   */
  lemma WorkerIdempotent(files: map<int, string>, task: TranscriptionTask, answer: Option<string>,
                         again: TranscriptionTask, answer2: Option<string>)
    requires answer.Some?
    requires again.info.candidateId == task.info.candidateId && again.index == task.index
    ensures AfterTask(AfterTask(files, task, answer), again, answer2) == AfterTask(files, task, answer)
  {
    var id := task.info.candidateId;
    var k := task.index + 1;
    var content := Read(files, id);
    if !Contains(content, Marker(k)) {
      var written := content + Entry(k, task.question, answer.value);
      AppendOnceIdempotent(content, k, task.question, answer.value, again.question, "");
      assert AfterTask(files, task, answer) == files[id := written];
      assert Read(files[id := written], id) == written;
    }
  }

  /**
    The worker only ever appends: each file's old text is a prefix of its new
    text, and the count of "Question" the results page waits on never drops.
   */
  lemma WorkerOnlyAppends(files: map<int, string>, task: TranscriptionTask, answer: Option<string>, id: int)
    ensures FileAt(files, id).Some? ==>
              (FileAt(AfterTask(files, task, answer), id).Some? &&
               IsPrefix(FileAt(files, id).value, FileAt(AfterTask(files, task, answer), id).value))
    ensures Count(Read(AfterTask(files, task, answer), id), QuestionWord) >= Count(Read(files, id), QuestionWord)
  {
    if id == task.info.candidateId && answer.Some? {
      AppendOnceCount(Read(files, id), task.index + 1, task.question, answer.value);
    }
  }

  /** A transcript file whose entry for the task is missing gains one more "Question". */
  lemma WorkerRaisesCount(files: map<int, string>, task: TranscriptionTask, answer: Option<string>)
    requires answer.Some?
    requires !Contains(Read(files, task.info.candidateId), Marker(task.index + 1))
    ensures Count(FileAt(AfterTask(files, task, answer), task.info.candidateId).value, QuestionWord) >=
            Count(Read(files, task.info.candidateId), QuestionWord) + 1
  {
    AppendOnceCount(Read(files, task.info.candidateId), task.index + 1, task.question, answer.value);
  }

  /** The directory of transcript files the worker writes to. */
  class Store {
    var files: map<int, string>

    constructor ()
      ensures files == map[]
    {
      files := map[];
    }

    /** `process_audio_async`: read the file (or ""), and append the entry if its marker is absent. */
    method ProcessAudio(task: TranscriptionTask, t: Transcription)
      modifies this
      ensures files == AfterTask(old(files), task, WrittenAnswer(t))
    {
      var answer := WrittenAnswer(t);
      if answer.None? {
        return;
      }
      var k := task.index + 1;
      var path := task.info.candidateId;
      var content := if path in files then files[path] else "";
      if !Contains(content, Marker(k)) {
        AfterTaskAppends(files, task, answer.value);
        files := files[path := content + Entry(k, task.question, answer.value)];
      } else {
        AfterTaskKeeps(files, task, answer.value);
      }
    }
  }
}
