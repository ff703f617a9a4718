/**
 * The analytics engine: `surveyAnalytics` (response count plus one summary
 * per question, in position order) and the participation percentage shown
 * on the report page.
 */
module Analytics {
  import opened Wrappers
  import opened Seqs
  import opened Store

  /** A frequency table: distinct answer values with their counts, in the order values were first seen. */
  type Counts = seq<(string, nat)>

  /** A closed question is summarised by a frequency table, any other by its raw answers. */
  datatype Summary = Frequencies(counts: Counts) | Values(values: seq<string>)

  datatype QuestionSummary = QuestionSummary(q: Question, summary: Summary)

  /** `{count, summaries}` as `surveyAnalytics` returns it. */
  datatype Report = Report(count: nat, summaries: seq<QuestionSummary>)

  /** The question types whose answers are tallied. */
  predicate IsClosed(kind: string) {
    kind == "rating" || kind == "dropdown" || kind == "multiple_choice"
  }

  // Frequency tables.

  /** The count the table holds for `v` (the JavaScript `c[v] || 0`). */
  function CountOf(t: Counts, v: string): nat {
    if |t| == 0 then 0 else if t[0].0 == v then t[0].1 else CountOf(t[1..], v)
  }

  /** The sum of all counts in the table. */
  function Total(t: Counts): nat {
    if |t| == 0 then 0 else t[0].1 + Total(t[1..])
  }

  function Keys(t: Counts): set<string> {
    if |t| == 0 then {} else {t[0].0} + Keys(t[1..])
  }

  ghost predicate DistinctKeys(t: Counts) {
    forall i, j :: 0 <= i < j < |t| ==> t[i].0 != t[j].0
  }

  /** `c[v] = (c[v] || 0) + 1`: increments an existing entry in place, or appends a new one. */
  function Bump(t: Counts, v: string): (r: Counts)
    ensures forall w :: CountOf(r, w) == CountOf(t, w) + (if w == v then 1 else 0)
    ensures Keys(r) == Keys(t) + {v}
    decreases |t|
  {
    if |t| == 0 then [(v, 1)]
    else if t[0].0 == v then
      var r := [(v, t[0].1 + 1)] + t[1..];
      assert r[1..] == t[1..];
      r
    else
      var r := [t[0]] + Bump(t[1..], v);
      assert r[1..] == Bump(t[1..], v);
      r
  }

  lemma {:induction false} KeysHoldIndices(t: Counts)
    ensures forall k :: k in Keys(t) <==> exists i :: 0 <= i < |t| && t[i].0 == k
    decreases |t|
  {
    if |t| > 0 {
      KeysHoldIndices(t[1..]);
      forall k | k in Keys(t)
        ensures exists i :: 0 <= i < |t| && t[i].0 == k
      {
        if k != t[0].0 {
          assert k in Keys(t[1..]);
          var i :| 0 <= i < |t[1..]| && t[1..][i].0 == k;
          assert t[i + 1].0 == k;
        }
      }
      forall k, i | 0 <= i < |t| && t[i].0 == k
        ensures k in Keys(t)
      {
        if i > 0 {
          assert t[1..][i - 1].0 == k;
        }
      }
    }
  }

  /** What one increment does to the table: the bumped value gains one, nothing else changes. */
  lemma {:induction false} BumpCounts(t: Counts, v: string)
    ensures Total(Bump(t, v)) == Total(t) + 1
    ensures forall w :: CountOf(Bump(t, v), w) == CountOf(t, w) + (if w == v then 1 else 0)
    ensures Keys(Bump(t, v)) == Keys(t) + {v}
    ensures (forall i :: 0 <= i < |t| ==> t[i].1 > 0) ==> forall i :: 0 <= i < |Bump(t, v)| ==> Bump(t, v)[i].1 > 0
    decreases |t|
  {
    var r := Bump(t, v);
    if |t| > 0 {
      if t[0].0 == v {
        assert r[1..] == t[1..];
      } else {
        BumpCounts(t[1..], v);
        assert r[1..] == Bump(t[1..], v);
        forall i | 0 <= i < |r| && (forall i :: 0 <= i < |t| ==> t[i].1 > 0)
          ensures r[i].1 > 0
        {
          if i > 0 {
            assert r[i] == Bump(t[1..], v)[i - 1];
            assert forall k :: 0 <= k < |t[1..]| ==> t[1..][k] == t[k + 1];
          }
        }
      }
    }
  }

  /** The tail of a table with distinct keys has distinct keys and lacks the head's key. */
  lemma TailOfDistinct(t: Counts)
    requires DistinctKeys(t) && |t| > 0
    ensures DistinctKeys(t[1..]) && t[0].0 !in Keys(t[1..])
  {
    forall i | 0 <= i < |t[1..]|
      ensures t[1..][i].0 != t[0].0
    {
      assert t[1..][i] == t[i + 1];
    }
    KeysHoldIndices(t[1..]);
  }

  /** An entry whose key the table lacks can head it without repeating a key. */
  lemma ConsDistinct(h: (string, nat), rest: Counts)
    requires DistinctKeys(rest) && h.0 !in Keys(rest)
    ensures DistinctKeys([h] + rest)
  {
    KeysHoldIndices(rest);
    var r := [h] + rest;
    forall i, j | 0 <= i < j < |r|
      ensures r[i].0 != r[j].0
    {
      assert r[j] == rest[j - 1];
      if i > 0 {
        assert r[i] == rest[i - 1];
      }
    }
  }

  lemma {:induction false} BumpKeepsKeysDistinct(t: Counts, v: string)
    requires DistinctKeys(t)
    ensures DistinctKeys(Bump(t, v))
    decreases |t|
  {
    if |t| > 0 {
      TailOfDistinct(t);
      if t[0].0 == v {
        ConsDistinct((v, t[0].1 + 1), t[1..]);
      } else {
        BumpKeepsKeysDistinct(t[1..], v);
        BumpCounts(t[1..], v);
        ConsDistinct(t[0], Bump(t[1..], v));
      }
    }
  }

  /**
   * The frequency table of `vals`, built as the `forEach` loop builds it:
   * its keys are exactly the distinct values, each counted as often as it
   * occurs, and the counts add up to the number of values.
   */
  function Tally(vals: seq<string>): (r: Counts)
    ensures DistinctKeys(r)
    ensures Total(r) == |vals|
    ensures forall v :: CountOf(r, v) == multiset(vals)[v]
    ensures forall v :: v in Keys(r) <==> v in vals
    ensures forall i :: 0 <= i < |r| ==> r[i].1 > 0
    decreases |vals|
  {
    if |vals| == 0 then []
    else
      var init := vals[..|vals| - 1];
      var last := vals[|vals| - 1];
      assert vals == init + [last];
      var t := Tally(init);
      BumpCounts(t, last);
      BumpKeepsKeysDistinct(t, last);
      Bump(t, last)
  }

  /** Under distinct keys each entry's count is the table's count for its value. */
  lemma {:induction false} EntryCount(t: Counts, i: nat)
    requires DistinctKeys(t) && i < |t|
    ensures CountOf(t, t[i].0) == t[i].1
    decreases |t|
  {
    if i > 0 {
      assert DistinctKeys(t[1..]);
      EntryCount(t[1..], i - 1);
      assert t[1..][i - 1] == t[i];
    }
  }

  /** Every entry of a tally pairs a value with its number of occurrences. */
  lemma TallyEntries(vals: seq<string>)
    ensures forall i :: 0 <= i < |Tally(vals)| ==> Tally(vals)[i].1 == multiset(vals)[Tally(vals)[i].0]
  {
    var t := Tally(vals);
    forall i | 0 <= i < |t|
      ensures t[i].1 == multiset(vals)[t[i].0]
    {
      EntryCount(t, i);
    }
  }

  /** Appending one value to the answers bumps its entry and nothing else. */
  lemma TallySnoc(vals: seq<string>, v: string)
    ensures Tally(vals + [v]) == Bump(Tally(vals), v)
    ensures forall w :: CountOf(Tally(vals + [v]), w) == CountOf(Tally(vals), w) + (if w == v then 1 else 0)
  {
    assert (vals + [v])[..|vals|] == vals;
    BumpCounts(Tally(vals), v);
  }

  // Summaries.

  /** An answer counts for `q` when it answers `q` and its response is one of `rs`. */
  function CountedFor(q: Question, rs: seq<Response>): Answer -> bool {
    (a: Answer) => a.questionId == q.id && exists r :: r in rs && r.id == a.responseId
  }

  function AnswerValue(a: Answer): string {
    a.value
  }

  /** The values of the answers to `q` given in responses `rs`, in storage order. */
  function AnswerValues(db: Db, q: Question, rs: seq<Response>): (r: seq<string>)
    ensures |r| == |Filter(db.answers, CountedFor(q, rs))|
    ensures forall k :: 0 <= k < |r| ==> r[k] == Filter(db.answers, CountedFor(q, rs))[k].value
    ensures forall v :: v in r <==>
              exists a :: a in db.answers && a.questionId == q.id && a.value == v
                          && exists x :: x in rs && x.id == a.responseId
  {
    var p := CountedFor(q, rs);
    var counted := Filter(db.answers, p);
    var r := Map(counted, AnswerValue);
    assert forall a :: p(a) <==> a.questionId == q.id && exists x :: x in rs && x.id == a.responseId;
    forall v | v in r
      ensures exists a :: a in db.answers && a.questionId == q.id && a.value == v
                          && exists x :: x in rs && x.id == a.responseId
    {
      var k :| 0 <= k < |r| && r[k] == v;
      assert counted[k] in counted;
    }
    forall a | a in db.answers && a.questionId == q.id && exists x :: x in rs && x.id == a.responseId
      ensures a.value in r
    {
      assert a in counted;
      var k :| 0 <= k < |counted| && counted[k] == a;
      assert r[k] == a.value;
    }
    r
  }

  /** The summary of one question. */
  function Summarize(db: Db, rs: seq<Response>, q: Question): (r: QuestionSummary)
    ensures r.q == q
    ensures r.summary.Frequencies? <==> IsClosed(q.kind)
    ensures r.summary.Values? ==> r.summary.values == AnswerValues(db, q, rs)
    ensures r.summary.Frequencies? ==>
              && DistinctKeys(r.summary.counts)
              && Total(r.summary.counts) == |AnswerValues(db, q, rs)|
              && forall v :: CountOf(r.summary.counts, v) == multiset(AnswerValues(db, q, rs))[v]
  {
    var vals := AnswerValues(db, q, rs);
    if IsClosed(q.kind) then QuestionSummary(q, Frequencies(Tally(vals)))
    else QuestionSummary(q, Values(vals))
  }

  /**
   * `surveyAnalytics`: the number of responses to `sid`, and one summary per
   * question of `sid`, in position order, built only from answers whose
   * response belongs to `sid`.
   */
  function SurveyAnalytics(db: Db, sid: string): (r: Report)
    ensures r.count == |ResponsesOf(db, sid)|
    ensures |r.summaries| == |QuestionsOf(db, sid)|
    ensures forall i :: 0 <= i < |r.summaries| ==> r.summaries[i] == Summarize(db, ResponsesOf(db, sid), QuestionsOf(db, sid)[i])
  {
    var qs := QuestionsOf(db, sid);
    var rs := ResponsesOf(db, sid);
    var sums := Summaries(db, rs, qs);
    Report(|rs|, sums)
  }

  /** The report has a summary for exactly the survey's questions. */
  lemma AnalyticsCoversQuestions(db: Db, sid: string)
    ensures var r := SurveyAnalytics(db, sid);
      forall q :: q in db.questions && q.surveyId == sid <==> exists i :: 0 <= i < |r.summaries| && r.summaries[i].q == q
  {
    var r := SurveyAnalytics(db, sid);
    var qs := QuestionsOf(db, sid);
    forall i | 0 <= i < |qs|
      ensures r.summaries[i].q == qs[i]
    {
    }
    forall q | q in db.questions && q.surveyId == sid
      ensures exists i :: 0 <= i < |r.summaries| && r.summaries[i].q == q
    {
      var i :| 0 <= i < |qs| && qs[i] == q;
      assert r.summaries[i].q == q;
    }
  }

  /** The summaries come in ascending question position. */
  lemma AnalyticsInPositionOrder(db: Db, sid: string)
    ensures var r := SurveyAnalytics(db, sid);
      forall i, j :: 0 <= i < j < |r.summaries| ==> r.summaries[i].q.position <= r.summaries[j].q.position
  {
    var r := SurveyAnalytics(db, sid);
    var qs := QuestionsOf(db, sid);
    forall i | 0 <= i < |qs|
      ensures r.summaries[i].q == qs[i]
    {
    }
  }

  /** One summary per question of `qs`, in order. */
  function Summaries(db: Db, rs: seq<Response>, qs: seq<Question>): (r: seq<QuestionSummary>)
    ensures |r| == |qs|
    ensures forall i :: 0 <= i < |qs| ==> r[i] == Summarize(db, rs, qs[i]) && r[i].q == qs[i]
  {
    seq(|qs|, i requires 0 <= i < |qs| => Summarize(db, rs, qs[i]))
  }

  /** One more value for a closed question adds one to its entry and leaves the others. */
  lemma SummaryOfOneMore(db: Db, rs: seq<Response>, db1: Db, rs1: seq<Response>, q: Question, v: string)
    requires IsClosed(q.kind)
    requires AnswerValues(db1, q, rs1) == AnswerValues(db, q, rs) + [v]
    ensures var before := Summarize(db, rs, q).summary;
      var after := Summarize(db1, rs1, q).summary;
      && before.Frequencies? && after.Frequencies?
      && Total(after.counts) == Total(before.counts) + 1
      && CountOf(after.counts, v) == CountOf(before.counts, v) + 1
      && forall w :: w != v ==> CountOf(after.counts, w) == CountOf(before.counts, w)
  {
    var vals := AnswerValues(db, q, rs);
    assert multiset(vals + [v]) == multiset(vals) + multiset{v};
  }

  /**
   * The report depends only on the survey's questions, its responses and the
   * answers: two data sets that agree on those agree on the report.
   */
  lemma AnalyticsDependsOnAnswersAndResponses(db: Db, db2: Db, sid: string)
    requires db2.questions == db.questions && db2.answers == db.answers
    requires ResponsesOf(db2, sid) == ResponsesOf(db, sid)
    ensures SurveyAnalytics(db2, sid) == SurveyAnalytics(db, sid)
  {
    var a := SurveyAnalytics(db, sid);
    var b := SurveyAnalytics(db2, sid);
    assert QuestionsOf(db2, sid) == QuestionsOf(db, sid);
    forall i | 0 <= i < |a.summaries|
      ensures b.summaries[i] == a.summaries[i]
    {
      var q := QuestionsOf(db, sid)[i];
      assert AnswerValues(db2, q, ResponsesOf(db, sid)) == AnswerValues(db, q, ResponsesOf(db, sid));
    }
  }

  /** Answers hanging off responses that are not this survey's are never counted. */
  lemma AnalyticsIgnoresForeignAnswers(db: Db, sid: string, extra: seq<Answer>)
    requires forall a, r :: a in extra && r in db.responses && r.surveyId == sid ==> r.id != a.responseId
    ensures SurveyAnalytics(db.(answers := db.answers + extra), sid) == SurveyAnalytics(db, sid)
  {
    var db2 := db.(answers := db.answers + extra);
    var rs := ResponsesOf(db, sid);
    var a := SurveyAnalytics(db, sid);
    var b := SurveyAnalytics(db2, sid);
    assert QuestionsOf(db2, sid) == QuestionsOf(db, sid);
    forall x, r | x in extra && r in rs
      ensures r.id != x.responseId
    {
    }
    assert ResponsesOf(db2, sid) == rs;
    forall i | 0 <= i < |a.summaries|
      ensures b.summaries[i] == a.summaries[i]
    {
      SummaryIgnoresForeign(db, QuestionsOf(db, sid)[i], rs, extra);
    }
  }

  /** A question's summary is unchanged by answers that belong to none of the given responses. */
  lemma SummaryIgnoresForeign(db: Db, q: Question, rs: seq<Response>, extra: seq<Answer>)
    requires forall x, r :: x in extra && r in rs ==> r.id != x.responseId
    ensures Summarize(db.(answers := db.answers + extra), rs, q) == Summarize(db, rs, q)
  {
    AnswerValuesIgnoreForeign(db, q, rs, extra);
  }

  /** Appending answers none of which hangs off a response in `rs` leaves the counted values alone. */
  lemma AnswerValuesIgnoreForeign(db: Db, q: Question, rs: seq<Response>, extra: seq<Answer>)
    requires forall x, r :: x in extra && r in rs ==> r.id != x.responseId
    ensures AnswerValues(db.(answers := db.answers + extra), q, rs) == AnswerValues(db, q, rs)
  {
    var p := CountedFor(q, rs);
    FilterConcat(db.answers, extra, p);
    forall x | x in extra
      ensures !p(x)
    {
    }
    FilterDropsAll(extra, p);
    assert Filter(db.answers + extra, p) == Filter(db.answers, p);
  }

  // Participation.

  lemma CancelPositiveFactor(d: int, x: int, y: int)
    requires d > 0 && d * x < d * y
    ensures x < y
  {
  }

  /**
   * `Math.round(completed / total * 100)`, or 0 without invitations, in exact
   * arithmetic: the whole percent nearest to completed/total, halves rounded up.
   */
  function RoundedPercent(completed: nat, total: nat): (r: nat)
    ensures total == 0 ==> r == 0
    ensures total > 0 ==> -(total as int) <= 2 * (100 * completed - r * total) < total
    ensures completed <= total ==> r <= 100
    ensures total > 0 && completed == total ==> r == 100
  {
    if total == 0 then 0
    else
      var n := 200 * completed + total;
      var d := 2 * total;
      var q := n / d;
      DivisionFacts(n, d, q);
      PercentOfQuotient(completed, total, q);
      q
  }

  /** Euclidean division by a positive divisor, as a product and a remainder. */
  lemma DivisionFacts(n: nat, d: nat, q: int)
    requires d > 0 && q == n / d
    ensures q >= 0 && d * q <= n < d * q + d
  {
  }

  /** The quotient of the rounding division is the nearest percent, at most 100 and exactly 100 at completion. */
  lemma PercentOfQuotient(completed: nat, total: nat, q: int)
    requires total > 0
    requires 2 * total * q <= 200 * completed + total < 2 * total * q + 2 * total
    ensures -(total as int) <= 2 * (100 * completed - q * total) < total
    ensures completed <= total ==> q <= 100
    ensures completed == total ==> q == 100
  {
    var d := 2 * total;
    assert d * q == 2 * (q * total);
    if completed <= total {
      assert d * q < d * 101;
      CancelPositiveFactor(d, q, 101);
    }
    if completed == total {
      assert d * 100 < d * (q + 1);
      CancelPositiveFactor(d, 99, q);
    }
  }

  datatype Participation = Participation(completed: nat, invited: nat, percent: nat)

  function IsCompleted(): Invitation -> bool {
    (i: Invitation) => i.status == Completed
  }

  /** The report page's "completed/invited (percent%)" line for survey `sid`. */
  function ParticipationOf(db: Db, sid: string): (r: Participation)
    ensures r.invited == |InvitationsOf(db, sid)|
    ensures r.completed == |Filter(InvitationsOf(db, sid), IsCompleted())|
    ensures r.percent == RoundedPercent(r.completed, r.invited)
    ensures r.completed <= r.invited
    ensures r.percent <= 100
    ensures r.invited == 0 ==> r.percent == 0
  {
    var invites := InvitationsOf(db, sid);
    var completed := |Filter(invites, IsCompleted())|;
    Participation(completed, |invites|, RoundedPercent(completed, |invites|))
  }
}
