/**
  The keyword-based ATS score of both resume pipelines. A job description is
  a list of categories, each with its keywords; a category scores the share
  of its keywords found in the lower-cased resume text, weighted by the fixed
  category weights. Scores are kept as exact reals: the final
  `round(score * 100, 2)` is not modelled.
 */
module AtsScoring {
  import opened Wrappers
  import opened Text

  datatype Category = Category(name: string, keywords: seq<string>)

  const Weights: map<string, real> :=
    map["skills" := 0.60, "experience" := 0.15, "projects" := 0.15,
        "education" := 0.05, "soft_indicators" := 0.05]

  const ShortlistThreshold: real := 60.0

  /** Keyword table of uploaded_resume_processing.py's `load_and_analyze_jd`. */
  const UploadedJdKeywords: seq<Category> := [
    Category("skills", ["python", "sql", "sklearn", "pandas", "numpy",
                        "tensorflow", "pytorch", "docker", "git", "ci/cd",
                        "mlflow", "kubeflow", "gcp", "bigquery", "machine learning"]),
    Category("experience", ["deployed", "production", "pipeline", "monitoring", "drift",
                            "scalable", "high-volume", "api", "rest"]),
    Category("projects", ["classification", "regression", "nlp", "cv", "computer vision",
                          "measurable impact", "model training", "deep learning"]),
    Category("education", ["cs", "computer science", "engineering", "statistics", "related field"]),
    Category("soft_indicators", ["collaboration", "timeline", "cross-functional", "leadership", "communication"])
  ]

  /** Keyword table of resume_processing.py's `load_and_analyze_jd`. */
  const BatchJdKeywords: seq<Category> := [
    Category("skills", ["python", "sql", "sklearn", "pandas", "numpy",
                        "tensorflow", "pytorch", "docker", "git", "ci/cd",
                        "mlflow", "kubeflow", "gcp", "bigquery", "machine learning"]),
    Category("experience", ["deployed", "production", "pipeline", "monitoring",
                            "drift", "scalable", "api", "rest"]),
    Category("projects", ["classification", "regression", "nlp", "cv",
                          "computer vision", "deep learning"]),
    Category("education", ["cs", "computer science", "engineering", "statistics"]),
    Category("soft_indicators", ["collaboration", "timeline", "leadership"])
  ]

  // ---------------------------------------------------------------------------
  // Per-category terms
  // ---------------------------------------------------------------------------

  /** `sum(1 for k in keywords if k in text)`: how many keywords occur in the text. */
  function Hits(text: string, keywords: seq<string>): (n: nat)
    ensures n == |HitPositions(text, keywords)|
    ensures n <= |keywords|
    ensures n == |keywords| <==> forall i :: 0 <= i < |keywords| ==> Contains(text, keywords[i])
    ensures n == 0 <==> forall i :: 0 <= i < |keywords| ==> !Contains(text, keywords[i])
  {
    if keywords == [] then 0
    else
      var rest := Hits(text, keywords[1..]);
      assert forall i :: 1 <= i < |keywords| ==> keywords[i] == keywords[1..][i - 1];
      HitPositionsStep(text, keywords);
      (if Contains(text, keywords[0]) then 1 else 0) + rest
  }

  /** The positions of the keywords that occur in the text; a keyword listed twice counts twice. */
  function HitPositions(text: string, keywords: seq<string>): set<nat> {
    set i: nat | i < |keywords| && Contains(text, keywords[i])
  }

  function Shifted(s: set<nat>): set<nat> {
    set j | j in s :: j + 1
  }

  lemma {:induction false} ShiftedSize(s: set<nat>)
    ensures |Shifted(s)| == |s|
    decreases |s|
  {
    if s != {} {
      var x :| x in s;
      ShiftedSize(s - {x});
      assert Shifted(s) == Shifted(s - {x}) + {x + 1} by {
        forall y | y in Shifted(s) ensures y in Shifted(s - {x}) + {x + 1} {
          var j :| j in s && y == j + 1;
          if j != x { assert j in s - {x}; }
        }
      }
      assert x + 1 !in Shifted(s - {x});
    }
  }

  /** Dropping the first keyword shifts the remaining hit positions down by one. */
  lemma HitPositionsStep(text: string, keywords: seq<string>)
    requires keywords != []
    ensures |HitPositions(text, keywords)| ==
              (if Contains(text, keywords[0]) then 1 else 0) + |HitPositions(text, keywords[1..])|
  {
    var tail := HitPositions(text, keywords[1..]);
    var head: set<nat> := if Contains(text, keywords[0]) then {0} else {};
    assert HitPositions(text, keywords) == head + Shifted(tail) by {
      forall i: nat | i in HitPositions(text, keywords) ensures i in head + Shifted(tail) {
        if i > 0 {
          assert keywords[1..][i - 1] == keywords[i];
          assert i - 1 in tail;
        }
      }
      forall i | i in Shifted(tail) ensures i in HitPositions(text, keywords) {
        var j :| j in tail && i == j + 1;
        assert keywords[1..][j] == keywords[i];
      }
    }
    ShiftedSize(tail);
    assert head * Shifted(tail) == {};
  }

  /** `len(keywords) if keywords else 1`, equivalently `len(keys) or 1`. */
  function Divisor(keywords: seq<string>): (d: nat)
    ensures keywords == [] ==> d == 1
    ensures keywords != [] ==> d == |keywords|
  {
    if keywords == [] then 1 else |keywords|
  }

  /** The share of a category's keywords found in the text. */
  function Ratio(text: string, keywords: seq<string>): (r: real)
    ensures 0.0 <= r <= 1.0
    ensures r == 1.0 <==> keywords != [] && forall i :: 0 <= i < |keywords| ==> Contains(text, keywords[i])
  {
    var h := Hits(text, keywords) as real;
    var d := Divisor(keywords) as real;
    ShareBounds(h, d);
    h / d
  }

  lemma ShareBounds(h: real, d: real)
    requires 0.0 <= h <= d && d > 0.0
    ensures 0.0 <= h / d <= 1.0
    ensures h / d == 1.0 <==> h == d
  {
    assert (h / d) * d == h;
  }

  function Min(a: real, b: real): real {
    if a <= b then a else b
  }

  /** `weights.get(cat, 0)`. */
  function WeightOrZero(name: string): (w: real)
    ensures name in Weights ==> w == Weights[name]
    ensures name !in Weights ==> w == 0.0
    ensures 0.0 <= w <= 0.6
  {
    if name in Weights then Weights[name] else 0.0
  }

  // ---------------------------------------------------------------------------
  // The two totals
  // ---------------------------------------------------------------------------

  function Plus(r: Result<real, string>, x: real): Result<real, string> {
    match r
    case Ok(t) => Ok(t + x)
    case Err(e) => Err(e)
  }

  /**
    uploaded_resume_processing.py: `min(ratio, 1.0) * weights[category]`
    summed in table order; the first category missing from `weights` raises
    `KeyError(category)`.
   */
  function UploadedTotal(text: string, jd: seq<Category>): Result<real, string>
  {
    if jd == [] then Ok(0.0)
    else if jd[0].name !in Weights then Err(jd[0].name)
    else Plus(UploadedTotal(text, jd[1..]), Weighted(text, jd[0]))
  }

  /** `min(ratio, 1.0) * weights[category]` for a category that has a weight. */
  function Weighted(text: string, c: Category): (x: real)
    requires c.name in Weights
    ensures 0.0 <= x <= Weights[c.name]
  {
    Min(Ratio(text, c.keywords), 1.0) * Weights[c.name]
  }

  /** resume_processing.py: `(hit / max_sc) * weights.get(cat, 0)` summed in table order. */
  function BatchTotal(text: string, jd: seq<Category>): real
  {
    if jd == [] then 0.0
    else BatchTerm(text, jd[0]) + BatchTotal(text, jd[1..])
  }

  /** `(hit / max_sc) * weights.get(cat, 0)` for one category. */
  function BatchTerm(text: string, c: Category): (x: real)
    ensures 0.0 <= x <= WeightOrZero(c.name)
    ensures c.name in Weights ==> x == Weighted(text, c)
  {
    var r := Ratio(text, c.keywords);
    var w := WeightOrZero(c.name);
    assert r * w <= 1.0 * w;
    r * w
  }

  /** `calculate_ats_score(resume_text, jd_keywords)` of uploaded_resume_processing.py, unrounded. */
  function UploadedAtsScore(resumeText: string, jd: seq<Category>): Result<real, string> {
    match UploadedTotal(Lower(resumeText), jd)
    case Ok(t) => Ok(t * 100.0)
    case Err(e) => Err(e)
  }

  /** `calculate_ats_score(text, keywords)` of resume_processing.py, unrounded; `None` text scores as "". */
  function BatchAtsScore(text: Option<string>, jd: seq<Category>): real {
    100.0 * BatchTotal(Lower(text.GetOr("")), jd)
  }

  // ---------------------------------------------------------------------------
  // The loops of the two `calculate_ats_score`
  // ---------------------------------------------------------------------------

  /** The accumulation loop of uploaded_resume_processing.py's `calculate_ats_score`. */
  method CalculateAtsScoreUploaded(resumeText: string, jd: seq<Category>) returns (r: Result<real, string>)
    ensures r == UploadedAtsScore(resumeText, jd)
    ensures r.Err? <==> exists i :: 0 <= i < |jd| && jd[i].name !in Weights
    ensures r.Err? ==> exists i :: 0 <= i < |jd| && jd[i].name == r.error &&
                         r.error !in Weights && forall j :: 0 <= j < i ==> jd[j].name in Weights
    ensures r.Ok? && DistinctNames(jd) ==> 0.0 <= r.value <= 100.0
  {
    var text := Lower(resumeText);
    var total := 0.0;
    var i := 0;
    while i < |jd|
      invariant 0 <= i <= |jd|
      invariant UploadedTotal(text, jd) == Plus(UploadedTotal(text, jd[i..]), total)
    {
      var category := jd[i];
      assert jd[i..][1..] == jd[i + 1..];
      if category.name !in Weights {
        r := Err(category.name);
        UploadedScoreProperties(resumeText, jd);
        return;
      }
      assert jd[i..][0] == category;
      UploadedTotalStep(text, jd[i..], total);
      total := total + Weighted(text, category);
      i := i + 1;
    }
    r := Ok(total * 100.0);
    UploadedScoreProperties(resumeText, jd);
  }

  /** One iteration of the uploaded loop: adding a weighted category to the running total. */
  lemma UploadedTotalStep(text: string, jd: seq<Category>, total: real)
    requires jd != [] && jd[0].name in Weights
    ensures Plus(UploadedTotal(text, jd), total) == Plus(UploadedTotal(text, jd[1..]), total + Weighted(text, jd[0]))
  {
  }

  /** The first category without a weight, when there is one. */
  lemma {:induction false} FirstMissing(jd: seq<Category>) returns (k: nat)
    requires exists i :: 0 <= i < |jd| && jd[i].name !in Weights
    ensures k < |jd| && jd[k].name !in Weights
    ensures forall j :: 0 <= j < k ==> jd[j].name in Weights
  {
    if jd[0].name !in Weights {
      k := 0;
    } else {
      var i :| 0 <= i < |jd| && jd[i].name !in Weights;
      assert jd[1..][i - 1] == jd[i];
      var k' := FirstMissing(jd[1..]);
      k := k' + 1;
      assert forall j :: 1 <= j < k ==> jd[j] == jd[1..][j - 1];
    }
  }

  /** The error and range guarantees of the uploaded score, gathered for its loop. */
  lemma UploadedScoreProperties(resumeText: string, jd: seq<Category>)
    ensures UploadedAtsScore(resumeText, jd).Err? <==> exists i :: 0 <= i < |jd| && jd[i].name !in Weights
    ensures UploadedAtsScore(resumeText, jd).Err? ==>
              exists i :: 0 <= i < |jd| && jd[i].name == UploadedAtsScore(resumeText, jd).error &&
                jd[i].name !in Weights && forall j :: 0 <= j < i ==> jd[j].name in Weights
    ensures UploadedAtsScore(resumeText, jd).Ok? && DistinctNames(jd) ==>
              0.0 <= UploadedAtsScore(resumeText, jd).value <= 100.0
  {
    var text := Lower(resumeText);
    UploadedErrIffMissing(text, jd);
    if UploadedTotal(text, jd).Err? {
      var k := FirstMissing(jd);
      UploadedErrIsFirstMissing(text, jd, k);
    } else if DistinctNames(jd) {
      UploadedAgreesWithBatch(text, jd);
      BatchTotalBounds(text, jd);
    }
  }

  /** The accumulation loop of resume_processing.py's `calculate_ats_score`. */
  method CalculateAtsScoreBatch(text: Option<string>, jd: seq<Category>) returns (score: real)
    ensures score == BatchAtsScore(text, jd)
    ensures DistinctNames(jd) ==> 0.0 <= score <= 100.0
  {
    var lowered := Lower(text.GetOr(""));
    var total := 0.0;
    var i := 0;
    while i < |jd|
      invariant 0 <= i <= |jd|
      invariant BatchTotal(lowered, jd) == total + BatchTotal(lowered, jd[i..])
    {
      assert jd[i..][1..] == jd[i + 1..];
      total := total + BatchTerm(lowered, jd[i]);
      i := i + 1;
    }
    score := total * 100.0;
    if DistinctNames(jd) {
      BatchTotalBounds(lowered, jd);
    }
  }

  // ---------------------------------------------------------------------------
  // Properties
  // ---------------------------------------------------------------------------

  /** A job description is a dict: no category appears twice. */
  predicate DistinctNames(jd: seq<Category>) {
    forall i, j :: 0 <= i < j < |jd| ==> jd[i].name != jd[j].name
  }

  function Names(jd: seq<Category>): set<string> {
    set i | 0 <= i < |jd| :: jd[i].name
  }

  /** The total weight of the known categories named in `s`. */
  function WeightOfSet(s: set<string>): (w: real)
    ensures 0.0 <= w <= 1.0
  {
    (if "skills" in s then 0.60 else 0.0) +
    (if "experience" in s then 0.15 else 0.0) +
    (if "projects" in s then 0.15 else 0.0) +
    (if "education" in s then 0.05 else 0.0) +
    (if "soft_indicators" in s then 0.05 else 0.0)
  }

  function SumWeights(jd: seq<Category>): real {
    if jd == [] then 0.0 else WeightOrZero(jd[0].name) + SumWeights(jd[1..])
  }

  /** Over distinct category names the weights add up to at most 1. */
  lemma {:induction false} SumWeightsDistinct(jd: seq<Category>)
    requires DistinctNames(jd)
    ensures SumWeights(jd) == WeightOfSet(Names(jd))
    ensures SumWeights(jd) <= 1.0
  {
    if jd != [] {
      var rest := jd[1..];
      assert DistinctNames(rest) by {
        forall i, j | 0 <= i < j < |rest| ensures rest[i].name != rest[j].name {
          assert rest[i] == jd[i + 1] && rest[j] == jd[j + 1];
        }
      }
      SumWeightsDistinct(rest);
      assert Names(jd) == Names(rest) + {jd[0].name} by {
        forall x | x in Names(jd) ensures x in Names(rest) + {jd[0].name} {
          var i :| 0 <= i < |jd| && jd[i].name == x;
          if i > 0 { assert rest[i - 1] == jd[i]; }
        }
        forall x | x in Names(rest) ensures x in Names(jd) {
          var i :| 0 <= i < |rest| && rest[i].name == x;
          assert jd[i + 1] == rest[i];
        }
      }
      assert jd[0].name !in Names(rest);
    }
  }

  /** Each category adds between 0 and its weight, so the total is at most the summed weights. */
  lemma {:induction false} BatchTotalAtMostWeights(text: string, jd: seq<Category>)
    ensures 0.0 <= BatchTotal(text, jd) <= SumWeights(jd)
  {
    if jd != [] {
      BatchTotalAtMostWeights(text, jd[1..]);
    }
  }

  /** With distinct categories the resume_processing.py total lies in [0, 1]. */
  lemma BatchTotalBounds(text: string, jd: seq<Category>)
    requires DistinctNames(jd)
    ensures 0.0 <= BatchTotal(text, jd) <= 1.0
  {
    BatchTotalAtMostWeights(text, jd);
    SumWeightsDistinct(jd);
  }

  /** The uploaded total fails exactly when some category has no weight. */
  lemma {:induction false} UploadedErrIffMissing(text: string, jd: seq<Category>)
    ensures UploadedTotal(text, jd).Err? <==> exists i :: 0 <= i < |jd| && jd[i].name !in Weights
  {
    if jd != [] {
      UploadedErrIffMissing(text, jd[1..]);
      if exists i :: 0 <= i < |jd[1..]| && jd[1..][i].name !in Weights {
        var i :| 0 <= i < |jd[1..]| && jd[1..][i].name !in Weights;
        assert jd[i + 1].name !in Weights;
      }
      if exists i :: 0 <= i < |jd| && jd[i].name !in Weights {
        var i :| 0 <= i < |jd| && jd[i].name !in Weights;
        if i > 0 { assert jd[1..][i - 1] == jd[i]; }
      }
    }
  }

  /** The error names the first category, in table order, that has no weight. */
  lemma {:induction false} UploadedErrIsFirstMissing(text: string, jd: seq<Category>, k: nat)
    requires k < |jd| && jd[k].name !in Weights
    requires forall j :: 0 <= j < k ==> jd[j].name in Weights
    ensures UploadedTotal(text, jd) == Err(jd[k].name)
  {
    if k > 0 {
      UploadedErrIsFirstMissing(text, jd[1..], k - 1);
    }
  }

  /**
    When every category has a weight, the two files' formulas agree: the
    `min(..., 1.0)` clamp of uploaded_resume_processing.py never bites
    because a share of keywords is at most 1.
   */
  lemma {:induction false} UploadedAgreesWithBatch(text: string, jd: seq<Category>)
    requires forall i :: 0 <= i < |jd| ==> jd[i].name in Weights
    ensures UploadedTotal(text, jd) == Ok(BatchTotal(text, jd))
  {
    if jd != [] {
      assert forall i :: 0 <= i < |jd[1..]| ==> jd[1..][i] == jd[i + 1];
      UploadedAgreesWithBatch(text, jd[1..]);
    }
  }

  /** On the same text and table the two scores agree whenever the uploaded one does not raise. */
  lemma UploadedScoreMatchesBatchScore(resumeText: string, jd: seq<Category>)
    requires forall i :: 0 <= i < |jd| ==> jd[i].name in Weights
    ensures UploadedAtsScore(resumeText, jd) == Ok(BatchAtsScore(Some(resumeText), jd))
  {
    UploadedAgreesWithBatch(Lower(resumeText), jd);
  }

  /** Both shipped keyword tables have five distinct, weighted categories. */
  lemma KeywordTablesWellFormed()
    ensures DistinctNames(UploadedJdKeywords) && DistinctNames(BatchJdKeywords)
    ensures forall i :: 0 <= i < |UploadedJdKeywords| ==> UploadedJdKeywords[i].name in Weights
    ensures forall i :: 0 <= i < |BatchJdKeywords| ==> BatchJdKeywords[i].name in Weights
  {
  }

  /** With the shipped tables the uploaded score never raises and both scores lie in [0, 100]. */
  lemma ShippedTablesScoreInRange(text: string)
    ensures UploadedAtsScore(text, UploadedJdKeywords).Ok?
    ensures 0.0 <= UploadedAtsScore(text, UploadedJdKeywords).value <= 100.0
    ensures 0.0 <= BatchAtsScore(Some(text), BatchJdKeywords) <= 100.0
  {
    KeywordTablesWellFormed();
    UploadedAgreesWithBatch(Lower(text), UploadedJdKeywords);
    BatchTotalBounds(Lower(text), UploadedJdKeywords);
    BatchTotalBounds(Lower(text), BatchJdKeywords);
  }

  // ---------------------------------------------------------------------------
  // Shortlisting
  // ---------------------------------------------------------------------------

  /** `ats_score >= 60 and (email or phone_number)`. */
  predicate IsShortlisted(score: real, email: string, phone: string) {
    score >= ShortlistThreshold && (email != "" || phone != "")
  }

  /** `"YES" if is_shortlisted else "NO"`. */
  function Status(shortlisted: bool): (s: string)
    ensures s == "YES" <==> shortlisted
    ensures !shortlisted ==> s == "NO"
  {
    if shortlisted then "YES" else "NO"
  }
}
