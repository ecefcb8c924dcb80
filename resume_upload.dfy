/**
  app.py: the upload form. Only files whose extension after the last dot is
  "pdf", in any case, are stored under the all-resumes prefix, and the names
  of the stored blobs are handed to the batch pipeline.
 */
module ResumeUpload {
  import opened Wrappers
  import opened Text
  import opened Candidates
  import ResumeProcessing

  const AllResumesPrefix: string := "resumes-all/"

  /** `"." in name and name.rsplit(".", 1)[1].lower() == "pdf"`. */
  predicate AllowedFile(name: string) {
    '.' in name && Lower(LastSegment(name, '.')) == "pdf"
  }

  /** A name with a dot is judged only by what follows its last dot. */
  lemma AllowedFileByExtension(stem: string, ext: string)
    requires '.' !in ext
    ensures AllowedFile(stem + "." + ext) <==> Lower(ext) == "pdf"
  {
    LastSegmentAfterSeparator(stem, '.', ext);
    assert (stem + "." + ext)[|stem|] == '.';
  }

  /** Upper-case extensions pass. */
  lemma UpperCaseExtensionAllowed()
    ensures AllowedFile("a.PDF")
  {
    AllowedFileByExtension("a", "PDF");
    assert "a" + "." + "PDF" == "a.PDF";
    var l := Lower("PDF");
    assert l[0] == 'p' && l[1] == 'd' && l[2] == 'f';
  }

  /** Only the last extension counts: a trailing ".exe" is rejected. */
  lemma DoubleExtensionRejected()
    ensures !AllowedFile("a.pdf.exe")
  {
    AllowedFileByExtension("a.pdf", "exe");
    assert "a.pdf" + "." + "exe" == "a.pdf.exe";
    assert Lower("exe")[0] == 'e';
  }

  /** An empty stem passes. */
  lemma EmptyStemAllowed()
    ensures AllowedFile(".pdf")
  {
    AllowedFileByExtension("", "pdf");
    assert "" + "." + "pdf" == ".pdf";
    LowerPdf();
  }

  lemma LowerPdf()
    ensures Lower("pdf") == "pdf"
  {
    var l := Lower("pdf");
    assert l[0] == 'p' && l[1] == 'd' && l[2] == 'f';
  }

  /** An empty extension does not. */
  lemma EmptyExtensionRejected()
    ensures !AllowedFile("report.")
  {
    AllowedFileByExtension("report", "");
    assert "report" + "." + "" == "report.";
  }

  /** `uploaded_blob_names`: `"resumes-all/" + secure_filename(f)` for each allowed file, in order. */
  function UploadedBlobNames(files: seq<string>, secure: string -> string): (r: seq<string>)
    ensures |r| <= |files|
  {
    if files == [] then []
    else
      var last := files[|files| - 1];
      UploadedBlobNames(files[..|files| - 1], secure) + (if AllowedFile(last) then [AllResumesPrefix + secure(last)] else [])
  }

  /** The k-th blob name comes from the k-th allowed file: the allowed files, in upload order, each under the prefix. */
  lemma {:induction false} UploadedBlobNamesInOrder(files: seq<string>, secure: string -> string)
    ensures |UploadedBlobNames(files, secure)| == |KeptPositions(files, AllowedFile)|
    ensures forall k :: 0 <= k < |UploadedBlobNames(files, secure)| ==>
              UploadedBlobNames(files, secure)[k] == AllResumesPrefix + secure(files[KeptPositions(files, AllowedFile)[k]])
  {
    if files != [] {
      var init := files[..|files| - 1];
      UploadedBlobNamesInOrder(init, secure);
      KeptPositionsSnoc(files, AllowedFile);
      forall k | 0 <= k < |UploadedBlobNames(init, secure)|
        ensures UploadedBlobNames(files, secure)[k] ==
                AllResumesPrefix + secure(files[KeptPositions(files, AllowedFile)[k]])
      {
        assert files[KeptPositions(init, AllowedFile)[k]] == init[KeptPositions(init, AllowedFile)[k]];
      }
    }
  }

  /** Exactly the allowed files contribute a name, and the list is empty only when none is allowed. */
  lemma {:induction false} UploadedBlobNamesMembers(files: seq<string>, secure: string -> string)
    ensures forall i :: 0 <= i < |files| && AllowedFile(files[i]) ==>
              AllResumesPrefix + secure(files[i]) in UploadedBlobNames(files, secure)
    ensures forall n :: n in UploadedBlobNames(files, secure) ==>
              exists i :: 0 <= i < |files| && AllowedFile(files[i]) && n == AllResumesPrefix + secure(files[i])
    ensures UploadedBlobNames(files, secure) == [] <==> forall i :: 0 <= i < |files| ==> !AllowedFile(files[i])
  {
    if files != [] {
      var init := files[..|files| - 1];
      var last := files[|files| - 1];
      UploadedBlobNamesMembers(init, secure);
      var prev := UploadedBlobNames(init, secure);
      var r := UploadedBlobNames(files, secure);
      assert forall i :: 0 <= i < |init| ==> init[i] == files[i];
      forall n | n in r
        ensures exists i :: 0 <= i < |files| && AllowedFile(files[i]) && n == AllResumesPrefix + secure(files[i])
      {
        if n !in prev {
          assert AllowedFile(files[|files| - 1]);
        }
      }
    }
  }

  /** Where the POST handler of `index` ends up. */
  datatype UploadOutcome =
    | NoFilesSelected
    | NoValidPdfs
    | Processed(names: seq<string>, run: ResumeProcessing.BatchRun)

  /**
    The POST branch of `index`: store each allowed file, then run the batch
    pipeline on exactly the stored names with e-mails on. `secure` stands for
    `secure_filename`; the temporary file and the upload are not modelled.
   */
  method IndexPost(files: seq<string>, secure: string -> string, batchId: int,
                   parse: nat -> ParseOutcome, copy: nat -> CopyOutcome)
    returns (outcome: UploadOutcome)
    ensures outcome.NoFilesSelected? <==> files == []
    ensures outcome.NoValidPdfs? <==> files != [] && UploadedBlobNames(files, secure) == []
    ensures outcome.Processed? ==>
              outcome.names == UploadedBlobNames(files, secure) && outcome.names != [] &&
              outcome.run.BatchCompleted? && outcome.run.names == outcome.names &&
              outcome.run.rows == Rows(ResumeProcessing.BatchSteps(outcome.names, batchId, parse, copy)) &&
              outcome.run.copies == Copies(ResumeProcessing.BatchSteps(outcome.names, batchId, parse, copy)) &&
              outcome.run.loaded == ResumeProcessing.LoadAll(outcome.run.rows) &&
              outcome.run.invitations == ResumeProcessing.BatchInvitations(outcome.run.rows)
  {
    if files == [] {
      return NoFilesSelected;
    }
    var names: seq<string> := [];
    var i := 0;
    while i < |files|
      invariant 0 <= i <= |files|
      invariant names == UploadedBlobNames(files[..i], secure)
    {
      assert files[..i + 1][..i] == files[..i];
      if AllowedFile(files[i]) {
        names := names + [AllResumesPrefix + secure(files[i])];
      }
      i := i + 1;
    }
    assert files[..|files|] == files;
    if names == [] {
      return NoValidPdfs;
    }
    var run := ResumeProcessing.ProcessAllResumes(false, [], Some(names), batchId, parse, copy, true);
    outcome := Processed(names, run);
  }
}
