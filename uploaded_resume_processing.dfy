/**
  uploaded_resume_processing.py: score every resume under the all-resumes
  prefix, copy the shortlisted ones, load the shortlisted rows and mail them.
  Candidate ids are 100 plus the position in the full listing, so skipped
  blobs leave gaps.
 */
module UploadedResumeProcessing {
  import opened Wrappers
  import opened Text
  import opened AtsScoring
  import opened Candidates

  /** What `process_all_resumes` did. */
  datatype Run =
    | JdNotLoaded
    | Completed(rows: seq<CandidateRow>, copies: seq<string>,
                loaded: Option<seq<CandidateRow>>, invitations: seq<Invitation>)

  /** The row (and copy) of a PDF blob whose text and fields were extracted and whose score was computed. */
  function ScoredStep(blobName: string, i: nat, text: string, fields: Extracted, score: real, copied: CopyOutcome): (s: Step)
    ensures s.row.Some? ==> s.row.value.candidateId == FirstCandidateId + i && s.row.value.resumeText == Some(text)
    ensures s.row.Some? ==> s.row.value.batchId.None? && s.row.value.atsScore == score
    ensures s.row.Some? ==>
              s.row.value.name == fields.name.GetOr("N/A") && s.row.value.email == fields.email.GetOr("") &&
              s.row.value.phone == fields.phone.GetOr("")
    ensures s.row.Some? ==>
              s.row.value.shortlisted == Status(IsShortlisted(s.row.value.atsScore, s.row.value.email, s.row.value.phone))
    ensures s.row.None? <==> copied.CopyFailed? && IsShortlisted(score, fields.email.GetOr(""), fields.phone.GetOr(""))
    ensures s.copy.Some? <==> s.row.Some? && s.row.value.shortlisted == "YES"
    ensures s.copy.Some? ==> s.copy.value == ShortlistedPath(blobName) && copied.Copied?
  {
    var email := fields.email.GetOr("");
    var phone := fields.phone.GetOr("");
    var shortlisted := IsShortlisted(score, email, phone);
    if shortlisted && copied.CopyFailed? then Step(None, None)
    else
      var row := CandidateRow(FirstCandidateId + i, fields.name.GetOr("N/A"), phone, email,
                              Some(text), score, Status(shortlisted), None);
      Step(Some(row), if shortlisted then Some(ShortlistedPath(blobName)) else None)
  }

  /**
    The body of the enumeration loop for the i-th listed blob: non-PDF blobs
    are skipped; any exception (failed call, `None` text, missing weight,
    failed copy) drops the row; otherwise the row is emitted with id 100 + i.
   */
  function StepAt(blobs: seq<string>, parse: nat -> ParseOutcome, copy: nat -> CopyOutcome, i: nat): (s: Step)
    requires i < |blobs|
    ensures s.row.Some? ==>
              s.row.value.candidateId == FirstCandidateId + i && IsPdfBlob(blobs[i]) &&
              parse(i).Parsed? && parse(i).text.Some? && s.row.value.resumeText == parse(i).text &&
              s.row.value.batchId.None?
    ensures s.row.Some? ==>
              s.row.value.shortlisted == Status(IsShortlisted(s.row.value.atsScore, s.row.value.email, s.row.value.phone))
    ensures s.copy.Some? <==> s.row.Some? && s.row.value.shortlisted == "YES"
    ensures s.copy.Some? ==> s.copy.value == ShortlistedPath(blobs[i]) && copy(i).Copied?
    ensures s.row.Some? <==>
              IsPdfBlob(blobs[i]) && parse(i).Parsed? && parse(i).text.Some? &&
              UploadedAtsScore(parse(i).text.value, UploadedJdKeywords).Ok? &&
              !(copy(i).CopyFailed? &&
                IsShortlisted(UploadedAtsScore(parse(i).text.value, UploadedJdKeywords).value,
                              parse(i).fields.email.GetOr(""), parse(i).fields.phone.GetOr("")))
    ensures s.row.Some? ==>
              s.row.value.atsScore == UploadedAtsScore(parse(i).text.value, UploadedJdKeywords).value &&
              s.row.value.name == parse(i).fields.name.GetOr("N/A") &&
              s.row.value.email == parse(i).fields.email.GetOr("") &&
              s.row.value.phone == parse(i).fields.phone.GetOr("")
  {
    if !IsPdfBlob(blobs[i]) || parse(i).ParseFailed? || parse(i).text.None? then Step(None, None)
    else
      var score := UploadedAtsScore(parse(i).text.value, UploadedJdKeywords);
      if score.Err? then Step(None, None)
      else ScoredStep(blobs[i], i, parse(i).text.value, parse(i).fields, score.value, copy(i))
  }

  /** The steps of the enumeration loop over the whole listing. */
  function Steps(blobs: seq<string>, parse: nat -> ParseOutcome, copy: nat -> CopyOutcome): (steps: seq<Step>)
    ensures |steps| == |blobs|
    ensures IdsFollowPositions(steps) && CopiesShortlisted(steps)
  {
    seq(|blobs|, i requires 0 <= i < |blobs| => StepAt(blobs, parse, copy, i))
  }

  /** The row as loaded: the e-mail is stripped and lower-cased, nothing else changes. */
  function Normalized(row: CandidateRow): (r: CandidateRow)
    ensures IsStripped(r.email) && IsLowerCase(r.email)
    ensures r.(email := row.email) == row
  {
    row.(email := NormalizeEmail(row.email))
  }

  /**
    `load_to_bigquery(data)`: nothing is loaded for an empty input or when no
    row is shortlisted; otherwise exactly the "YES" rows, in order, each
    normalized.
   */
  function LoadShortlisted(rows: seq<CandidateRow>): (r: Option<seq<CandidateRow>>)
    ensures r.None? <==> forall k :: 0 <= k < |rows| ==> rows[k].shortlisted != "YES"
    ensures r.Some? ==> |r.value| == |YesRows(rows)|
    ensures r.Some? ==> forall k :: 0 <= k < |r.value| ==> r.value[k] == Normalized(YesRows(rows)[k])
  {
    if rows == [] then None
    else
      var yes := YesRows(rows);
      YesRowsMembers(rows);
      if yes == [] then
        assert forall k :: 0 <= k < |rows| ==> rows[k] in rows;
        None
      else
        assert yes[0] in rows;
        Some(seq(|yes|, k requires 0 <= k < |yes| => Normalized(yes[k])))
  }

  /** The first space-separated word of the name, stripped; "Candidate" for an empty name. */
  function UploadedGreeting(name: string): (g: string)
    ensures name == "" ==> g == "Candidate"
    ensures name != "" ==> g == Strip(BeforeFirst(name, ' '))
    ensures name != "" ==> IsStripped(g) && ' ' !in g
  {
    if name == "" then "Candidate" else Strip(BeforeFirst(name, ' '))
  }

  function InviteOf(row: CandidateRow): Invitation {
    Invitation(row.email, UploadedGreeting(row.name), row.candidateId)
  }

  /** The filter of `prepare_email_data`: "YES" and a non-empty e-mail. */
  predicate Mailable(row: CandidateRow) {
    row.shortlisted == "YES" && row.email != ""
  }

  /** `prepare_email_data`: one invitation per "YES" row with a non-empty e-mail, in order. */
  function UploadedInvitations(rows: seq<CandidateRow>): (r: seq<Invitation>)
    ensures |r| <= |rows|
    ensures forall inv :: inv in r ==> exists row :: row in rows && Mailable(row) && inv == InviteOf(row)
    ensures forall row :: row in rows && Mailable(row) ==> InviteOf(row) in r
  {
    if rows == [] then []
    else
      var rest := UploadedInvitations(rows[1..]);
      assert forall row :: row in rows[1..] ==> row in rows;
      (if Mailable(rows[0]) then [InviteOf(rows[0])] else []) + rest
  }

  lemma {:induction false} UploadedInvitationsAppend(a: seq<CandidateRow>, b: seq<CandidateRow>)
    ensures UploadedInvitations(a + b) == UploadedInvitations(a) + UploadedInvitations(b)
  {
    if a != [] {
      assert (a + b)[1..] == a[1..] + b;
      UploadedInvitationsAppend(a[1..], b);
    } else {
      assert a + b == b;
    }
  }

  lemma UploadedInvitationsSnoc(rows: seq<CandidateRow>)
    requires rows != []
    ensures UploadedInvitations(rows) ==
              UploadedInvitations(rows[..|rows| - 1]) + (if Mailable(rows[|rows| - 1]) then [InviteOf(rows[|rows| - 1])] else [])
  {
    var init := rows[..|rows| - 1];
    var last := rows[|rows| - 1];
    assert rows == init + [last];
    UploadedInvitationsAppend(init, [last]);
    assert UploadedInvitations([last]) == (if Mailable(last) then [InviteOf(last)] else []) by {
      assert [last][1..] == [];
    }
  }

  /** The k-th invitation goes to the k-th mailable row: each such row is mailed once, in row order. */
  lemma {:induction false} UploadedInvitationsInOrder(rows: seq<CandidateRow>)
    ensures |UploadedInvitations(rows)| == |KeptPositions(rows, Mailable)|
    ensures forall k :: 0 <= k < |UploadedInvitations(rows)| ==>
              UploadedInvitations(rows)[k] == InviteOf(rows[KeptPositions(rows, Mailable)[k]])
  {
    if rows != [] {
      var init := rows[..|rows| - 1];
      UploadedInvitationsSnoc(rows);
      UploadedInvitationsInOrder(init);
      KeptMapSnoc(rows, Mailable, InviteOf, UploadedInvitations(init), UploadedInvitations(rows));
    }
  }


  /** `process_all_resumes(send_email)`: the enumeration loop, then the load and the e-mails. */
  method ProcessAllResumes(jdContent: Option<string>, blobs: seq<string>,
                           parse: nat -> ParseOutcome, copy: nat -> CopyOutcome, sendEmail: bool)
    returns (run: Run)
    ensures run.JdNotLoaded? <==> jdContent.None? || jdContent == Some("")
    ensures run.Completed? ==>
              run.rows == Rows(Steps(blobs, parse, copy)) &&
              run.copies == Copies(Steps(blobs, parse, copy)) &&
              run.loaded == LoadShortlisted(run.rows) &&
              run.invitations == (if sendEmail then UploadedInvitations(run.rows) else [])
  {
    if jdContent.None? || jdContent == Some("") {
      return JdNotLoaded;
    }
    var rows: seq<CandidateRow> := [];
    var copies: seq<string> := [];
    ghost var steps := Steps(blobs, parse, copy);
    var i := 0;
    while i < |blobs|
      invariant 0 <= i <= |blobs|
      invariant rows == Rows(steps[..i])
      invariant copies == Copies(steps[..i])
    {
      RowsSnoc(steps, i);
      var name := blobs[i];
      if IsPdfBlob(name) && parse(i).Parsed? && parse(i).text.Some? {
        var text := parse(i).text.value;
        var fields := parse(i).fields;
        var score := CalculateAtsScoreUploaded(text, UploadedJdKeywords);
        if score.Ok? {
          var email := fields.email.GetOr("");
          var phone := fields.phone.GetOr("");
          var shortlisted := IsShortlisted(score.value, email, phone);
          if !(shortlisted && copy(i).CopyFailed?) {
            if shortlisted {
              copies := copies + [ShortlistedPath(name)];
            }
            rows := rows + [CandidateRow(FirstCandidateId + i, fields.name.GetOr("N/A"), phone, email,
                                         Some(text), score.value, Status(shortlisted), None)];
          }
          assert StepAt(blobs, parse, copy, i) == ScoredStep(name, i, text, fields, score.value, copy(i));
        }
      }
      i := i + 1;
    }
    assert steps[..|blobs|] == steps;
    var invitations := if sendEmail then UploadedInvitations(rows) else [];
    run := Completed(rows, copies, LoadShortlisted(rows), invitations);
  }

  // ---------------------------------------------------------------------------
  // Properties of the enumeration
  // ---------------------------------------------------------------------------

  /** The two-blob listing of the gap example: a text file, then a PDF. */
  const GapListing: seq<string> := ["resumes-all/notes.txt", "resumes-all/cv.pdf"]

  /** The text file is skipped: its step emits nothing. */
  lemma GapListingSkipsNotes(parse: nat -> ParseOutcome, copy: nat -> CopyOutcome)
    ensures StepAt(GapListing, parse, copy, 0) == Step(None, None)
  {
    var l0 := Lower(GapListing[0]);
    assert l0[|l0| - 4..] == ".txt";
  }

  /** The PDF with text, whose copy succeeds, is scored and emitted. */
  lemma GapListingEmitsCv(parse: nat -> ParseOutcome, copy: nat -> CopyOutcome)
    requires parse(1).Parsed? && parse(1).text.Some?
    requires copy(1).Copied?
    ensures StepAt(GapListing, parse, copy, 1).row.Some?
  {
    var l1 := Lower(GapListing[1]);
    assert l1[|l1| - 4..] == ".pdf";
    ShippedTablesScoreInRange(parse(1).text.value);
  }

  /** A non-PDF blob in front uses up id 100: the first PDF gets id 101. */
  lemma SkippedBlobLeavesGap(parse: nat -> ParseOutcome, copy: nat -> CopyOutcome)
    requires parse(1).Parsed? && parse(1).text.Some?
    requires copy(1).Copied?
    ensures |Rows(Steps(GapListing, parse, copy))| == 1
    ensures Rows(Steps(GapListing, parse, copy))[0].candidateId == 101
  {
    var steps := Steps(GapListing, parse, copy);
    GapListingSkipsNotes(parse, copy);
    GapListingEmitsCv(parse, copy);
    assert steps[0] == Step(None, None);
    StepEmits(steps, 1, steps[1].row.value, steps[1].copy);
    assert steps[..1][..0] == [];
    assert steps[..2] == steps;
    RowsSnoc(steps, 0);
  }
}
