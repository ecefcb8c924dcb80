/**
  The values both resume pipelines pass around: what the language model
  extracted from a resume, the per-resume outcome of the external calls, and
  the candidate row that is loaded into the warehouse and mailed.
 */
module Candidates {
  import opened Wrappers
  import opened Text

  /** The JSON object returned by the extraction call; `None` is a missing key. */
  datatype Extracted = Extracted(name: Option<string>, email: Option<string>, phone: Option<string>)

  /**
    What the external calls for one resume produced, after their retries:
    the transcribed text (`None` when the reply carried no text) and the
    extracted fields, or the error that either call raised.
   */
  datatype ParseOutcome = Parsed(text: Option<string>, fields: Extracted) | ParseFailed(message: string)

  /** Outcome of copying a blob to the shortlisted prefix. */
  datatype CopyOutcome = Copied | CopyFailed(message: string)

  /** One candidate record; `batchId` is absent in the uploaded pipeline, which has no such column. */
  datatype CandidateRow = CandidateRow(
    candidateId: int,
    name: string,
    phone: string,
    email: string,
    resumeText: Option<string>,
    atsScore: real,
    shortlisted: string,
    batchId: Option<int>)

  /** One invitation e-mail: recipient, the name used in the greeting, and the candidate id quoted in the body. */
  datatype Invitation = Invitation(to: string, greeting: string, candidateId: int)

  const FirstCandidateId: int := 100
  const ShortlistedPrefix: string := "resumes-shortlisted/"

  /** `name.lower().endswith(".pdf")`. */
  predicate IsPdfBlob(name: string) {
    EndsWith(Lower(name), ".pdf")
  }

  /** Destination of the shortlisted copy: the shortlisted prefix plus the last `/` segment of the blob name. */
  function ShortlistedPath(blobName: string): (p: string)
    ensures IsPrefix(ShortlistedPrefix, p)
    ensures '/' !in p[|ShortlistedPrefix|..]
    ensures EndsWith(blobName, p[|ShortlistedPrefix|..])
    ensures |p| - |ShortlistedPrefix| < |blobName| ==> blobName[|blobName| - (|p| - |ShortlistedPrefix|) - 1] == '/'
    ensures '/' !in blobName ==> p == ShortlistedPrefix + blobName
  {
    var base := LastSegment(blobName, '/');
    assert (ShortlistedPrefix + base)[|ShortlistedPrefix|..] == base;
    ShortlistedPrefix + base
  }

  /**
    The positions of the elements of `s` that `keep` accepts, in increasing
    order: the index map of an order-preserving filter.
   */
  function KeptPositions<T>(s: seq<T>, keep: T -> bool): (pos: seq<nat>)
    ensures forall k :: 0 <= k < |pos| ==> pos[k] < |s| && keep(s[pos[k]])
    ensures forall k, l :: 0 <= k < l < |pos| ==> pos[k] < pos[l]
    ensures forall j :: 0 <= j < |s| && keep(s[j]) ==> j in pos
  {
    if s == [] then []
    else
      var init := s[..|s| - 1];
      assert forall j :: 0 <= j < |init| ==> init[j] == s[j];
      KeptPositions(init, keep) + (if keep(s[|s| - 1]) then [|s| - 1] else [])
  }

  lemma KeptPositionsSnoc<T>(s: seq<T>, keep: T -> bool)
    requires s != []
    ensures KeptPositions(s, keep) ==
              KeptPositions(s[..|s| - 1], keep) + (if keep(s[|s| - 1]) then [|s| - 1] else [])
  {
  }

  /**
    The inductive step of an order-preserving map-filter: if `prev` maps the
    kept elements of all but the last element, `prev` extended with the last
    one's image when it is kept maps the kept elements of the whole sequence.
   */
  lemma KeptMapSnoc<T, U>(s: seq<T>, keep: T -> bool, f: T -> U, prev: seq<U>, r: seq<U>)
    requires s != []
    requires |prev| == |KeptPositions(s[..|s| - 1], keep)|
    requires forall k :: 0 <= k < |prev| ==> prev[k] == f(s[..|s| - 1][KeptPositions(s[..|s| - 1], keep)[k]])
    requires r == prev + (if keep(s[|s| - 1]) then [f(s[|s| - 1])] else [])
    ensures |r| == |KeptPositions(s, keep)|
    ensures forall k :: 0 <= k < |r| ==> r[k] == f(s[KeptPositions(s, keep)[k]])
  {
    var init := s[..|s| - 1];
    var prevPos := KeptPositions(init, keep);
    KeptPositionsSnoc(s, keep);
    forall k | 0 <= k < |prev| ensures r[k] == f(s[KeptPositions(s, keep)[k]]) {
      assert s[prevPos[k]] == init[prevPos[k]];
    }
  }

  predicate IsYes(row: CandidateRow) {
    row.shortlisted == "YES"
  }

  /** `[d for d in data if d["shortlisted"] == "YES"]`, order kept. */
  function YesRows(rows: seq<CandidateRow>): (r: seq<CandidateRow>)
    ensures |r| <= |rows|
    ensures forall k :: 0 <= k < |r| ==> IsYes(r[k])
  {
    if rows == [] then []
    else (if rows[0].shortlisted == "YES" then [rows[0]] else []) + YesRows(rows[1..])
  }

  /** The "YES" rows are exactly the rows at the kept positions, in their original order. */
  lemma {:induction false} YesRowsInOrder(rows: seq<CandidateRow>)
    ensures |YesRows(rows)| == |KeptPositions(rows, IsYes)|
    ensures forall k :: 0 <= k < |YesRows(rows)| ==> YesRows(rows)[k] == rows[KeptPositions(rows, IsYes)[k]]
  {
    if rows != [] {
      var init := rows[..|rows| - 1];
      YesRowsSnoc(rows);
      YesRowsInOrder(init);
      KeptPositionsSnoc(rows, IsYes);
      forall k | 0 <= k < |YesRows(init)|
        ensures YesRows(rows)[k] == rows[KeptPositions(rows, IsYes)[k]]
      {
        assert rows[KeptPositions(init, IsYes)[k]] == init[KeptPositions(init, IsYes)[k]];
      }
    }
  }

  /** A row is kept exactly when it is among the input rows and holds "YES". */
  lemma YesRowsMembers(rows: seq<CandidateRow>)
    ensures forall x :: x in YesRows(rows) <==> x in rows && IsYes(x)
  {
    YesRowsInOrder(rows);
    var r := YesRows(rows);
    var pos := KeptPositions(rows, IsYes);
    forall x | x in rows && IsYes(x) ensures x in r {
      var j :| 0 <= j < |rows| && rows[j] == x;
      var k :| 0 <= k < |pos| && pos[k] == j;
      assert r[k] == x;
    }
    forall x | x in r ensures x in rows {
      var k :| 0 <= k < |r| && r[k] == x;
      assert rows[pos[k]] == x;
    }
  }

  lemma YesRowsSnoc(rows: seq<CandidateRow>)
    requires rows != []
    ensures YesRows(rows) ==
              YesRows(rows[..|rows| - 1]) + (if IsYes(rows[|rows| - 1]) then [rows[|rows| - 1]] else [])
  {
    var init := rows[..|rows| - 1];
    var last := rows[|rows| - 1];
    assert rows == init + [last];
    YesRowsAppend(init, [last]);
    assert YesRows([last]) == (if IsYes(last) then [last] else []) by {
      assert [last][1..] == [];
    }
  }

  /** What handling one listed blob contributes: at most one row, and the path it was copied to. */
  datatype Step = Step(row: Option<CandidateRow>, copy: Option<string>)

  function OptionToSeq<T>(o: Option<T>): seq<T> {
    if o.Some? then [o.value] else []
  }

  /** `all_candidate_data` after the given steps, in listing order. */
  function Rows(steps: seq<Step>): seq<CandidateRow> {
    if steps == [] then [] else Rows(steps[..|steps| - 1]) + OptionToSeq(steps[|steps| - 1].row)
  }

  /** The shortlisted copies made by the given steps, in listing order. */
  function Copies(steps: seq<Step>): seq<string> {
    if steps == [] then [] else Copies(steps[..|steps| - 1]) + OptionToSeq(steps[|steps| - 1].copy)
  }

  /** The loop counter is the id: a row emitted at position i carries id 100 + i. */
  predicate IdsFollowPositions(steps: seq<Step>) {
    forall i :: 0 <= i < |steps| && steps[i].row.Some? ==> steps[i].row.value.candidateId == FirstCandidateId + i
  }

  /** A step copies its blob exactly when it emits a shortlisted row. */
  predicate CopiesShortlisted(steps: seq<Step>) {
    forall i :: 0 <= i < |steps| ==>
      (steps[i].copy.Some? <==> steps[i].row.Some? && steps[i].row.value.shortlisted == "YES")
  }

  /** One more step appends its row, if any. */
  lemma RowsSnoc(steps: seq<Step>, i: nat)
    requires i < |steps|
    ensures Rows(steps[..i + 1]) == Rows(steps[..i]) + OptionToSeq(steps[i].row)
    ensures Copies(steps[..i + 1]) == Copies(steps[..i]) + OptionToSeq(steps[i].copy)
  {
    assert steps[..i + 1][..i] == steps[..i];
  }

  /** A step that emits a row appends exactly that row, and its copy if any. */
  lemma StepEmits(steps: seq<Step>, i: nat, row: CandidateRow, copied: Option<string>)
    requires i < |steps| && steps[i] == Step(Some(row), copied)
    ensures Rows(steps[..i + 1]) == Rows(steps[..i]) + [row]
    ensures Copies(steps[..i + 1]) == Copies(steps[..i]) + OptionToSeq(copied)
  {
    RowsSnoc(steps, i);
  }

  /** Ids lie in [100, 100 + |steps|) and strictly increase along the rows, possibly with gaps. */
  lemma {:induction false} RowIdsIncreasing(steps: seq<Step>)
    requires IdsFollowPositions(steps)
    ensures forall k :: 0 <= k < |Rows(steps)| ==>
              FirstCandidateId <= Rows(steps)[k].candidateId < FirstCandidateId + |steps|
    ensures forall a, b :: 0 <= a < b < |Rows(steps)| ==> Rows(steps)[a].candidateId < Rows(steps)[b].candidateId
  {
    if steps != [] {
      var init := steps[..|steps| - 1];
      assert IdsFollowPositions(init) by {
        forall i | 0 <= i < |init| && init[i].row.Some?
          ensures init[i].row.value.candidateId == FirstCandidateId + i
        {
          assert init[i] == steps[i];
        }
      }
      RowIdsIncreasing(init);
      var prev := Rows(init);
      var rows := Rows(steps);
      forall k | |prev| <= k < |rows|
        ensures rows[k].candidateId == FirstCandidateId + |steps| - 1
      {
        assert rows[k] == steps[|steps| - 1].row.value;
      }
    }
  }

  /** Every row is the one emitted by the step at position id - 100. */
  lemma {:induction false} RowProvenance(steps: seq<Step>, k: nat)
    requires IdsFollowPositions(steps) && k < |Rows(steps)|
    ensures 0 <= Rows(steps)[k].candidateId - FirstCandidateId < |steps|
    ensures steps[Rows(steps)[k].candidateId - FirstCandidateId].row == Some(Rows(steps)[k])
  {
    var init := steps[..|steps| - 1];
    var prev := Rows(init);
    if k < |prev| {
      assert IdsFollowPositions(init) by {
        forall i | 0 <= i < |init| && init[i].row.Some?
          ensures init[i].row.value.candidateId == FirstCandidateId + i
        {
          assert init[i] == steps[i];
        }
      }
      RowProvenance(init, k);
      assert Rows(steps)[k] == prev[k];
      assert init[prev[k].candidateId - FirstCandidateId] == steps[prev[k].candidateId - FirstCandidateId];
    } else {
      assert Rows(steps)[k] == steps[|steps| - 1].row.value;
    }
  }

  /** Conversely, every step that emits a row has that row in the output. */
  lemma {:induction false} RowCompleteness(steps: seq<Step>, i: nat)
    requires i < |steps| && steps[i].row.Some?
    ensures steps[i].row.value in Rows(steps)
  {
    var init := steps[..|steps| - 1];
    if i < |init| {
      assert init[i] == steps[i];
      RowCompleteness(init, i);
    }
  }

  /** One copy per shortlisted row: the copies and the "YES" rows are equally many. */
  lemma {:induction false} CopiesMatchShortlisted(steps: seq<Step>)
    requires CopiesShortlisted(steps)
    ensures |Copies(steps)| == |YesRows(Rows(steps))|
  {
    if steps != [] {
      var init := steps[..|steps| - 1];
      assert CopiesShortlisted(init) by {
        forall i | 0 <= i < |init|
          ensures (init[i].copy.Some? <==> init[i].row.Some? && init[i].row.value.shortlisted == "YES")
        {
          assert init[i] == steps[i];
        }
      }
      CopiesMatchShortlisted(init);
      YesRowsAppend(Rows(init), OptionToSeq(steps[|steps| - 1].row));
    }
  }

  lemma {:induction false} YesRowsAppend(a: seq<CandidateRow>, b: seq<CandidateRow>)
    ensures YesRows(a + b) == YesRows(a) + YesRows(b)
  {
    if a != [] {
      assert (a + b)[1..] == a[1..] + b;
      YesRowsAppend(a[1..], b);
    } else {
      assert a + b == b;
    }
  }

  /** When every step emits a row, the rows are exactly the steps' rows, one per step. */
  lemma {:induction false} RowsOnePerStep(steps: seq<Step>)
    requires forall i :: 0 <= i < |steps| ==> steps[i].row.Some?
    ensures |Rows(steps)| == |steps|
    ensures forall k :: 0 <= k < |steps| ==> Rows(steps)[k] == steps[k].row.value
  {
    if steps != [] {
      var init := steps[..|steps| - 1];
      assert forall i :: 0 <= i < |init| ==> init[i] == steps[i];
      RowsOnePerStep(init);
    }
  }

  /** A step emits at most one row. */
  lemma {:induction false} RowsAtMostSteps(steps: seq<Step>)
    ensures |Rows(steps)| <= |steps|
  {
    if steps != [] {
      RowsAtMostSteps(steps[..|steps| - 1]);
    }
  }
}
