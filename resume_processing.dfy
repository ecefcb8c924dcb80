/**
  resume_processing.py: the batch variant of the screening pipeline. Every
  selected blob name yields exactly one row, failures included, all rows of
  a run share one batch id, every row is loaded, and invitations also
  require an "@" in the e-mail.
 */
module ResumeProcessing {
  import opened Wrappers
  import opened Text
  import opened AtsScoring
  import opened Candidates
  import UploadedResumeProcessing

  /** What `process_all_resumes` did. */
  datatype BatchRun =
    | NothingToProcess
    | BatchCompleted(names: seq<string>, rows: seq<CandidateRow>, copies: seq<string>,
                     loaded: Option<seq<CandidateRow>>, invitations: seq<Invitation>)

  /** The names under the all-resumes prefix that end in ".pdf", case-insensitively, in listing order. */
  function PdfNames(listing: seq<string>): (r: seq<string>)
    ensures |r| <= |listing|
    ensures forall k :: 0 <= k < |r| ==> IsPdfBlob(r[k])
  {
    if listing == [] then []
    else
      var init := listing[..|listing| - 1];
      var last := listing[|listing| - 1];
      assert listing == init + [last];
      PdfNames(init) + (if IsPdfBlob(last) then [last] else [])
  }

  /** The PDF names are exactly the listed names at the kept positions, in listing order. */
  lemma {:induction false} PdfNamesInOrder(listing: seq<string>)
    ensures |PdfNames(listing)| == |KeptPositions(listing, IsPdfBlob)|
    ensures forall k :: 0 <= k < |PdfNames(listing)| ==>
              PdfNames(listing)[k] == listing[KeptPositions(listing, IsPdfBlob)[k]]
  {
    if listing != [] {
      var init := listing[..|listing| - 1];
      PdfNamesInOrder(init);
      PdfNamesSnoc(listing);
      KeptPositionsSnoc(listing, IsPdfBlob);
      forall k | 0 <= k < |PdfNames(init)|
        ensures PdfNames(listing)[k] == listing[KeptPositions(listing, IsPdfBlob)[k]]
      {
        assert listing[KeptPositions(init, IsPdfBlob)[k]] == init[KeptPositions(init, IsPdfBlob)[k]];
      }
    }
  }

  /** A name is kept exactly when it is listed and is a PDF. */
  lemma PdfNamesMembers(listing: seq<string>)
    ensures forall n :: n in PdfNames(listing) <==> n in listing && IsPdfBlob(n)
  {
    PdfNamesInOrder(listing);
    var r := PdfNames(listing);
    var pos := KeptPositions(listing, IsPdfBlob);
    forall n | n in listing && IsPdfBlob(n) ensures n in r {
      var j :| 0 <= j < |listing| && listing[j] == n;
      var k :| 0 <= k < |pos| && pos[k] == j;
      assert r[k] == n;
    }
    forall n | n in r ensures n in listing {
      var k :| 0 <= k < |r| && r[k] == n;
      assert listing[pos[k]] == n;
    }
  }

  lemma PdfNamesSnoc(listing: seq<string>)
    requires listing != []
    ensures PdfNames(listing) ==
              PdfNames(listing[..|listing| - 1]) +
              (if IsPdfBlob(listing[|listing| - 1]) then [listing[|listing| - 1]] else [])
  {
  }

  /** `blob_names`: the PDF listing when processing the whole bucket, else the names given (`None` as empty). */
  method SelectBlobNames(processAll: bool, listing: seq<string>, specific: Option<seq<string>>)
    returns (names: seq<string>)
    ensures processAll ==> names == PdfNames(listing)
    ensures !processAll ==> names == specific.GetOr([])
  {
    if !processAll {
      return specific.GetOr([]);
    }
    names := [];
    var i := 0;
    while i < |listing|
      invariant 0 <= i <= |listing|
      invariant names == PdfNames(listing[..i])
    {
      assert listing[..i + 1][..i] == listing[..i];
      if IsPdfBlob(listing[i]) {
        names := names + [listing[i]];
      }
      i := i + 1;
    }
    assert listing[..|listing|] == listing;
  }

  /** The row written from the `except` branch: id and batch kept, the error text as resume text. */
  function ErrorRow(candidateId: int, message: string, batchId: int): CandidateRow {
    CandidateRow(candidateId, "", "", "", Some(message), 0.0, "NO", Some(batchId))
  }

  /** The body of the loop for the k-th selected name. */
  function BatchStepAt(names: seq<string>, batchId: int, parse: nat -> ParseOutcome, copy: nat -> CopyOutcome, k: nat): (s: Step)
    requires k < |names|
    ensures s.row.Some?
    ensures s.row.value.candidateId == FirstCandidateId + k && s.row.value.batchId == Some(batchId)
    ensures s.row.value.shortlisted == Status(IsShortlisted(s.row.value.atsScore, s.row.value.email, s.row.value.phone))
    ensures parse(k).ParseFailed? ==> s.row.value == ErrorRow(FirstCandidateId + k, parse(k).message, batchId)
    ensures s.copy.Some? <==> s.row.value.shortlisted == "YES"
    ensures s.copy.Some? ==> s.copy.value == ShortlistedPath(names[k]) && copy(k).Copied?
    ensures parse(k).Parsed? && copy(k).CopyFailed? &&
            IsShortlisted(BatchAtsScore(parse(k).text, BatchJdKeywords),
                          parse(k).fields.email.GetOr(""), parse(k).fields.phone.GetOr("")) ==>
              s.row.value == ErrorRow(FirstCandidateId + k, copy(k).message, batchId)
    ensures parse(k).Parsed? &&
            !(copy(k).CopyFailed? &&
              IsShortlisted(BatchAtsScore(parse(k).text, BatchJdKeywords),
                            parse(k).fields.email.GetOr(""), parse(k).fields.phone.GetOr(""))) ==>
              s.row.value.atsScore == BatchAtsScore(parse(k).text, BatchJdKeywords) &&
              s.row.value.resumeText == parse(k).text &&
              s.row.value.name == parse(k).fields.name.GetOr("") &&
              s.row.value.email == parse(k).fields.email.GetOr("") &&
              s.row.value.phone == parse(k).fields.phone.GetOr("")
  {
    var id := FirstCandidateId + k;
    match parse(k)
    case ParseFailed(message) => Step(Some(ErrorRow(id, message, batchId)), None)
    case Parsed(text, fields) =>
      var score := BatchAtsScore(text, BatchJdKeywords);
      var email := fields.email.GetOr("");
      var phone := fields.phone.GetOr("");
      var shortlisted := IsShortlisted(score, email, phone);
      if shortlisted && copy(k).CopyFailed? then
        Step(Some(ErrorRow(id, copy(k).message, batchId)), None)
      else
        var row := CandidateRow(id, fields.name.GetOr(""), phone, email, text, score, Status(shortlisted), Some(batchId));
        Step(Some(row), if shortlisted then Some(ShortlistedPath(names[k])) else None)
  }

  function BatchSteps(names: seq<string>, batchId: int, parse: nat -> ParseOutcome, copy: nat -> CopyOutcome): (steps: seq<Step>)
    ensures |steps| == |names|
    ensures IdsFollowPositions(steps) && CopiesShortlisted(steps)
    ensures forall i :: 0 <= i < |steps| ==> steps[i].row.Some? && steps[i].row.value.batchId == Some(batchId)
  {
    seq(|names|, k requires 0 <= k < |names| => BatchStepAt(names, batchId, parse, copy, k))
  }

  /** `load_to_bigquery(rows)`: nothing for an empty list, otherwise every row, shortlisted or not. */
  function LoadAll(rows: seq<CandidateRow>): (r: Option<seq<CandidateRow>>)
    ensures r.None? <==> rows == []
    ensures r.Some? ==> r.value == rows
  {
    if rows == [] then None else Some(rows)
  }

  /** `name.split(" ")[0] or "Candidate"`. */
  function BatchGreeting(name: string): (g: string)
    ensures BeforeFirst(name, ' ') != "" ==> g == BeforeFirst(name, ' ')
    ensures BeforeFirst(name, ' ') == "" ==> g == "Candidate"
    ensures g != "" && ' ' !in g
  {
    var first := BeforeFirst(name, ' ');
    if first == "" then "Candidate" else first
  }

  function BatchInviteOf(row: CandidateRow): Invitation {
    Invitation(row.email, BatchGreeting(row.name), row.candidateId)
  }

  /** The filter of `prepare_email_data`: "YES", a non-empty e-mail, and an "@" in it. */
  predicate Invitable(row: CandidateRow) {
    row.shortlisted == "YES" && row.email != "" && '@' in row.email
  }

  /** `prepare_email_data`: one invitation per invitable row, in order. */
  function BatchInvitations(rows: seq<CandidateRow>): (r: seq<Invitation>)
    ensures |r| <= |rows|
    ensures forall inv :: inv in r ==> exists row :: row in rows && Invitable(row) && inv == BatchInviteOf(row)
    ensures forall row :: row in rows && Invitable(row) ==> BatchInviteOf(row) in r
  {
    if rows == [] then []
    else
      var rest := BatchInvitations(rows[1..]);
      assert forall row :: row in rows[1..] ==> row in rows;
      (if Invitable(rows[0]) then [BatchInviteOf(rows[0])] else []) + rest
  }

  lemma {:induction false} BatchInvitationsAppend(a: seq<CandidateRow>, b: seq<CandidateRow>)
    ensures BatchInvitations(a + b) == BatchInvitations(a) + BatchInvitations(b)
  {
    if a != [] {
      assert (a + b)[1..] == a[1..] + b;
      BatchInvitationsAppend(a[1..], b);
    } else {
      assert a + b == b;
    }
  }

  lemma BatchInvitationsSnoc(rows: seq<CandidateRow>)
    requires rows != []
    ensures BatchInvitations(rows) ==
              BatchInvitations(rows[..|rows| - 1]) + (if Invitable(rows[|rows| - 1]) then [BatchInviteOf(rows[|rows| - 1])] else [])
  {
    var init := rows[..|rows| - 1];
    var last := rows[|rows| - 1];
    assert rows == init + [last];
    BatchInvitationsAppend(init, [last]);
    assert BatchInvitations([last]) == (if Invitable(last) then [BatchInviteOf(last)] else []) by {
      assert [last][1..] == [];
    }
  }

  /** The k-th invitation goes to the k-th invitable row: each such row is mailed once, in row order. */
  lemma {:induction false} BatchInvitationsInOrder(rows: seq<CandidateRow>)
    ensures |BatchInvitations(rows)| == |KeptPositions(rows, Invitable)|
    ensures forall k :: 0 <= k < |BatchInvitations(rows)| ==>
              BatchInvitations(rows)[k] == BatchInviteOf(rows[KeptPositions(rows, Invitable)[k]])
  {
    if rows != [] {
      var init := rows[..|rows| - 1];
      BatchInvitationsSnoc(rows);
      BatchInvitationsInOrder(init);
      KeptMapSnoc(rows, Invitable, BatchInviteOf, BatchInvitations(init), BatchInvitations(rows));
    }
  }


  /** The `try`/`except` body of the batch loop for the k-th selected name. */
  method ProcessBlob(names: seq<string>, k: nat, batchId: int, parse: nat -> ParseOutcome, copy: nat -> CopyOutcome)
    returns (row: CandidateRow, copied: Option<string>)
    requires k < |names|
    ensures Step(Some(row), copied) == BatchStepAt(names, batchId, parse, copy, k)
  {
    var id := FirstCandidateId + k;
    copied := None;
    if parse(k).ParseFailed? {
      row := ErrorRow(id, parse(k).message, batchId);
    } else {
      var text := parse(k).text;
      var fields := parse(k).fields;
      var score := CalculateAtsScoreBatch(text, BatchJdKeywords);
      var email := fields.email.GetOr("");
      var phone := fields.phone.GetOr("");
      var shortlisted := IsShortlisted(score, email, phone);
      if shortlisted && copy(k).CopyFailed? {
        row := ErrorRow(id, copy(k).message, batchId);
      } else {
        if shortlisted {
          copied := Some(ShortlistedPath(names[k]));
        }
        row := CandidateRow(id, fields.name.GetOr(""), phone, email, text, score,
                            Status(shortlisted), Some(batchId));
      }
    }
  }

  /** The `for` loop over the selected names: one step per name, in order. */
  method ProcessBlobs(names: seq<string>, batchId: int, parse: nat -> ParseOutcome, copy: nat -> CopyOutcome)
    returns (rows: seq<CandidateRow>, copies: seq<string>)
    ensures rows == Rows(BatchSteps(names, batchId, parse, copy))
    ensures copies == Copies(BatchSteps(names, batchId, parse, copy))
  {
    rows := [];
    copies := [];
    ghost var steps := BatchSteps(names, batchId, parse, copy);
    var k := 0;
    while k < |names|
      invariant 0 <= k <= |names|
      invariant rows == Rows(steps[..k])
      invariant copies == Copies(steps[..k])
    {
      var row, copied := ProcessBlob(names, k, batchId, parse, copy);
      StepEmits(steps, k, row, copied);
      rows := rows + [row];
      copies := copies + OptionToSeq(copied);
      k := k + 1;
    }
    assert steps[..|names|] == steps;
  }

  /** `process_all_resumes(process_all_in_bucket, specific_blob_names, send_email)`. */
  method ProcessAllResumes(processAll: bool, listing: seq<string>, specific: Option<seq<string>>,
                           batchId: int, parse: nat -> ParseOutcome, copy: nat -> CopyOutcome, sendEmail: bool)
    returns (run: BatchRun)
    ensures processAll ==> (run.NothingToProcess? <==> PdfNames(listing) == [])
    ensures !processAll ==> (run.NothingToProcess? <==> specific.GetOr([]) == [])
    ensures run.BatchCompleted? ==>
              run.names == (if processAll then PdfNames(listing) else specific.GetOr([])) &&
              run.rows == Rows(BatchSteps(run.names, batchId, parse, copy)) &&
              run.copies == Copies(BatchSteps(run.names, batchId, parse, copy)) &&
              run.loaded == LoadAll(run.rows) &&
              run.invitations == (if sendEmail then BatchInvitations(run.rows) else [])
  {
    var names := SelectBlobNames(processAll, listing, specific);
    if names == [] {
      return NothingToProcess;
    }
    var rows, copies := ProcessBlobs(names, batchId, parse, copy);
    var invitations := if sendEmail then BatchInvitations(rows) else [];
    run := BatchCompleted(names, rows, copies, LoadAll(rows), invitations);
  }

  // ---------------------------------------------------------------------------
  // Properties of the batch run
  // ---------------------------------------------------------------------------

  /** One row per selected name, with contiguous ids 100, 101, ... and the run's batch id. */
  lemma OneRowPerName(names: seq<string>, batchId: int, parse: nat -> ParseOutcome, copy: nat -> CopyOutcome)
    ensures |Rows(BatchSteps(names, batchId, parse, copy))| == |names|
    ensures forall k :: 0 <= k < |names| ==>
              Rows(BatchSteps(names, batchId, parse, copy))[k].candidateId == FirstCandidateId + k &&
              Rows(BatchSteps(names, batchId, parse, copy))[k].batchId == Some(batchId)
  {
    RowsOnePerStep(BatchSteps(names, batchId, parse, copy));
  }

  /** A name whose calls failed still has its row: no score, not shortlisted, the error as text. */
  lemma FailedResumeKeepsRow(names: seq<string>, batchId: int, parse: nat -> ParseOutcome, copy: nat -> CopyOutcome, k: nat)
    requires k < |names| && parse(k).ParseFailed?
    ensures |Rows(BatchSteps(names, batchId, parse, copy))| == |names| &&
            Rows(BatchSteps(names, batchId, parse, copy))[k] == ErrorRow(FirstCandidateId + k, parse(k).message, batchId)
  {
    RowsOnePerStep(BatchSteps(names, batchId, parse, copy));
  }

  /** With the same outcomes and the same (PDF) names, the uploaded pipeline never emits more rows. */
  lemma UploadedEmitsAtMostBatch(names: seq<string>, batchId: int, parse: nat -> ParseOutcome, copy: nat -> CopyOutcome)
    ensures |Rows(UploadedResumeProcessing.Steps(names, parse, copy))| <= |Rows(BatchSteps(names, batchId, parse, copy))|
  {
    RowsOnePerStep(BatchSteps(names, batchId, parse, copy));
    RowsAtMostSteps(UploadedResumeProcessing.Steps(names, parse, copy));
  }

  /** The first word of "Ann Lee" is "Ann". */
  lemma FirstWordOfAnnLee()
    ensures BeforeFirst("Ann Lee", ' ') == "Ann"
  {
    var r := BeforeFirst("Ann Lee", ' ');
    assert "Ann Lee"[3] == ' ';
    assert r == "Ann Lee"[..3];
  }

  /** Both pipelines greet "Ann Lee" as "Ann". */
  lemma GreetingOfFullName()
    ensures BatchGreeting("Ann Lee") == "Ann" && UploadedResumeProcessing.UploadedGreeting("Ann Lee") == "Ann"
  {
    FirstWordOfAnnLee();
    StripStripped("Ann");
  }

  /**
    The two pipelines greet alike whenever the first word is non-empty and
    has no other whitespace around it: `strip()` then has nothing to remove.
   */
  lemma GreetingsAgree(name: string)
    requires BeforeFirst(name, ' ') != "" && IsStripped(BeforeFirst(name, ' '))
    ensures BatchGreeting(name) == UploadedResumeProcessing.UploadedGreeting(name)
  {
    StripStripped(BeforeFirst(name, ' '));
  }

  /** A leading space tells the two greetings apart: the batch one falls back to "Candidate", the uploaded one is empty. */
  lemma GreetingOfLeadingSpace()
    ensures BatchGreeting(" Ann") == "Candidate" && UploadedResumeProcessing.UploadedGreeting(" Ann") == ""
  {
    assert BeforeFirst(" Ann", ' ') == "";
  }
}
