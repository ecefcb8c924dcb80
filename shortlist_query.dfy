/**
  The query of `fetch_shortlisted_from_bq` in resume_processing.py, read as
  relational semantics over the loaded table: the "yes" rows of the latest
  batch, best score first, at most `limit` of them, and nothing at all when
  the query fails.
 */
module ShortlistQuery {
  import opened Wrappers
  import opened Text
  import opened Candidates

  /** One returned record: `{"name", "candidate_id", "ats_score"}`. */
  datatype ShortlistEntry = ShortlistEntry(name: string, candidateId: int, atsScore: real)

  function EntryOf(row: CandidateRow): ShortlistEntry {
    ShortlistEntry(row.name, row.candidateId, row.atsScore)
  }

  /** `SELECT MAX(batch_id)`: NULL when no row carries a batch id. */
  function LatestBatch(table: seq<CandidateRow>): (r: Option<int>)
    ensures r.None? <==> forall i :: 0 <= i < |table| ==> table[i].batchId.None?
    ensures r.Some? ==> exists i :: 0 <= i < |table| && table[i].batchId == r
    ensures r.Some? ==> forall i :: 0 <= i < |table| && table[i].batchId.Some? ==> table[i].batchId.value <= r.value
  {
    if table == [] then None
    else
      var rest := LatestBatch(table[1..]);
      assert forall i :: 1 <= i < |table| ==> table[i] == table[1..][i - 1];
      var b := table[0].batchId;
      if rest.None? then b
      else if b.Some? && b.value > rest.value then b
      else
        assert exists i :: 1 <= i < |table| && table[i].batchId == rest by {
          var j :| 0 <= j < |table[1..]| && table[1..][j].batchId == rest;
          assert table[j + 1] == table[1..][j];
        }
        rest
  }

  /** The WHERE clause: `LOWER(shortlisted) = 'yes' AND batch_id = latest`; a NULL latest matches nothing. */
  predicate Selected(row: CandidateRow, latest: Option<int>) {
    Lower(row.shortlisted) == "yes" && latest.Some? && row.batchId == latest
  }

  /** The selected rows, projected, in table order. */
  function SelectedEntries(table: seq<CandidateRow>, latest: Option<int>): (r: seq<ShortlistEntry>)
    ensures |r| <= |table|
    ensures forall e :: e in r <==> exists i :: 0 <= i < |table| && Selected(table[i], latest) && e == EntryOf(table[i])
  {
    if table == [] then []
    else
      var rest := SelectedEntries(table[1..], latest);
      assert forall i :: 1 <= i < |table| ==> table[i] == table[1..][i - 1];
      assert forall e :: e in rest ==> exists i :: 1 <= i < |table| && Selected(table[i], latest) && e == EntryOf(table[i]);
      (if Selected(table[0], latest) then [EntryOf(table[0])] else []) + rest
  }

  /** `ORDER BY ats_score DESC`. */
  predicate SortedDesc(s: seq<ShortlistEntry>) {
    forall i, j :: 0 <= i < j < |s| ==> s[i].atsScore >= s[j].atsScore
  }

  /** Insert after every entry that scores at least as much. */
  function Insert(e: ShortlistEntry, s: seq<ShortlistEntry>): (r: seq<ShortlistEntry>)
    requires SortedDesc(s)
    ensures SortedDesc(r)
    ensures multiset(r) == multiset(s) + multiset{e}
    ensures |r| == |s| + 1
  {
    if s == [] then [e]
    else if s[0].atsScore >= e.atsScore then
      assert SortedDesc(s[1..]) by {
        forall i, j | 0 <= i < j < |s| - 1 ensures s[1..][i].atsScore >= s[1..][j].atsScore {
          assert s[1..][i] == s[i + 1] && s[1..][j] == s[j + 1];
        }
      }
      var tail := Insert(e, s[1..]);
      assert s == [s[0]] + s[1..];
      HeadDominates(s[0], e, s[1..], tail);
      assert multiset([s[0]] + tail) == multiset{s[0]} + multiset(tail);
      [s[0]] + tail
    else
      PrependLarger(e, s);
      [e] + s
  }

  /** An entry scoring more than the head of a sorted sequence can go in front. */
  lemma PrependLarger(e: ShortlistEntry, s: seq<ShortlistEntry>)
    requires SortedDesc(s) && s != [] && e.atsScore > s[0].atsScore
    ensures SortedDesc([e] + s)
  {
    forall i, j | 0 <= i < j < |s| + 1 ensures ([e] + s)[i].atsScore >= ([e] + s)[j].atsScore {
      assert ([e] + s)[j] == s[j - 1];
      if i > 0 {
        assert ([e] + s)[i] == s[i - 1];
      }
    }
  }

  /** A head that scores at least every entry of the tail keeps the sequence sorted. */
  lemma HeadDominates(h: ShortlistEntry, e: ShortlistEntry, rest: seq<ShortlistEntry>, tail: seq<ShortlistEntry>)
    requires SortedDesc([h] + rest) && SortedDesc(tail) && h.atsScore >= e.atsScore
    requires multiset(tail) == multiset(rest) + multiset{e}
    ensures SortedDesc([h] + tail)
  {
    forall j | 0 <= j < |tail|
      ensures h.atsScore >= tail[j].atsScore
    {
      assert tail[j] in multiset(tail);
      if tail[j] != e {
        assert tail[j] in multiset(rest);
        var k :| 0 <= k < |rest| && rest[k] == tail[j];
        assert ([h] + rest)[0] == h && ([h] + rest)[k + 1] == rest[k];
      }
    }
    forall a, b | 0 <= a < b < |[h] + tail|
      ensures ([h] + tail)[a].atsScore >= ([h] + tail)[b].atsScore
    {
      if a > 0 {
        assert ([h] + tail)[a] == tail[a - 1];
      }
      assert ([h] + tail)[b] == tail[b - 1];
    }
  }

  /** An ordering of the selected entries, best score first; ties keep no particular order. */
  function SortDesc(s: seq<ShortlistEntry>): (r: seq<ShortlistEntry>)
    ensures SortedDesc(r)
    ensures multiset(r) == multiset(s)
    ensures |r| == |s|
  {
    if s == [] then []
    else
      assert s == [s[0]] + s[1..];
      Insert(s[0], SortDesc(s[1..]))
  }

  /**
    `fetch_shortlisted_from_bq(limit)`: `[]` when the query fails, which a
    negative `LIMIT` also causes; otherwise the first `limit` selected
    entries in descending score.
   */
  function FetchShortlisted(table: seq<CandidateRow>, limit: int, queryOk: bool): (r: seq<ShortlistEntry>)
    ensures !queryOk || limit < 0 ==> r == []
    ensures SortedDesc(r)
    ensures limit >= 0 ==> |r| <= limit
    ensures queryOk && limit >= 0 ==>
              |r| == if limit < |SelectedEntries(table, LatestBatch(table))| then limit
                     else |SelectedEntries(table, LatestBatch(table))|
    ensures multiset(r) <= multiset(SelectedEntries(table, LatestBatch(table)))
  {
    if !queryOk || limit < 0 then []
    else
      var sorted := SortDesc(SelectedEntries(table, LatestBatch(table)));
      var n := if limit < |sorted| then limit else |sorted|;
      PrefixSubMultiset(sorted, n);
      sorted[..n]
  }

  lemma PrefixSubMultiset(s: seq<ShortlistEntry>, n: nat)
    requires n <= |s|
    ensures multiset(s[..n]) <= multiset(s)
  {
    assert s == s[..n] + s[n..];
  }

  // ---------------------------------------------------------------------------
  // Properties of the query
  // ---------------------------------------------------------------------------

  /** Every returned entry comes from a "yes" row of the latest batch. */
  lemma FetchFromLatestBatch(table: seq<CandidateRow>, limit: int, queryOk: bool, e: ShortlistEntry)
    requires e in FetchShortlisted(table, limit, queryOk)
    ensures LatestBatch(table).Some?
    ensures exists i :: 0 <= i < |table| && Selected(table[i], LatestBatch(table)) && e == EntryOf(table[i]) &&
                        table[i].batchId == LatestBatch(table) && Lower(table[i].shortlisted) == "yes"
  {
    var selected := SelectedEntries(table, LatestBatch(table));
    var sorted := SortDesc(selected);
    assert e in sorted;
    assert e in multiset(sorted);
    assert e in multiset(selected);
    assert e in selected;
  }

  /** Nothing left out scores above anything returned: the result is a top-`limit` selection. */
  lemma FetchIsTopK(table: seq<CandidateRow>, limit: int, i: nat, e: ShortlistEntry)
    requires i < |table| && Selected(table[i], LatestBatch(table))
    requires e in FetchShortlisted(table, limit, true)
    requires EntryOf(table[i]) !in FetchShortlisted(table, limit, true)
    ensures table[i].atsScore <= e.atsScore
  {
    var selected := SelectedEntries(table, LatestBatch(table));
    var sorted := SortDesc(selected);
    var n := if limit < |sorted| then limit else |sorted|;
    var x := EntryOf(table[i]);
    assert x in selected;
    assert x in multiset(selected);
    assert x in multiset(sorted);
    PrefixDominates(sorted, n, x, e);
  }

  /** In a descending sequence, whatever a prefix holds scores at least what lies beyond it. */
  lemma PrefixDominates(sorted: seq<ShortlistEntry>, n: nat, x: ShortlistEntry, e: ShortlistEntry)
    requires SortedDesc(sorted) && n <= |sorted|
    requires x in sorted && x !in sorted[..n] && e in sorted[..n]
    ensures x.atsScore <= e.atsScore
  {
    var j :| 0 <= j < |sorted| && sorted[j] == x;
    var k :| 0 <= k < n && sorted[..n][k] == e;
    assert sorted[k] == e;
  }
}
