/**
 * How the handlers' effects show up in what the administrator reads back:
 * a submission adds one row to the export, one value per question to the
 * analytics and one completed invitation to the participation line, and
 * leaves every other survey's figures alone.
 */
module Lifecycle {
  import opened Wrappers
  import opened Seqs
  import opened Store
  import opened Intake
  import opened Analytics
  import opened Export

  /** No two questions of `qs` share an id, so each form field answers exactly one of them. */
  ghost predicate DistinctQuestionIds(qs: seq<Question>) {
    forall i, j :: 0 <= i < j < |qs| ==> qs[i].id != qs[j].id
  }

  /** The response an accepted submission of `u` records. */
  function NewResponse(sid: string, u: User, rid: string, submittedAt: string): Response {
    Response(rid, sid, u.email, u.name, submittedAt)
  }

  /** A recorded submission appends its response to its own survey's responses and to no other survey's. */
  lemma SubmitResponses(db: Db, sid: string, u: User, form: Form, rid: string, aids: seq<string>,
                        submittedAt: string, now: int, other: string)
    requires |aids| == |QuestionsOf(db, sid)|
    requires !u.isAdmin
    requires Submit(db, sid, Some(u), form, rid, aids, submittedAt, now).Ok?
    ensures var db1 := Submit(db, sid, Some(u), form, rid, aids, submittedAt, now).value;
      && ResponsesOf(db1, sid) == ResponsesOf(db, sid) + [NewResponse(sid, u, rid, submittedAt)]
      && (other != sid ==> ResponsesOf(db1, other) == ResponsesOf(db, other))
      && QuestionsOf(db1, other) == QuestionsOf(db, other)
  {
    var resp := NewResponse(sid, u, rid, submittedAt);
    FilterSnoc(db.responses, resp, ResponseIn(sid));
    FilterSnoc(db.responses, resp, ResponseIn(other));
  }

  /** Answers already stored cannot belong to a response whose id is fresh. */
  lemma StoredAnswersIgnoreFreshResponse(db: Db, q: Question, rs: seq<Response>, resp: Response)
    requires resp.id !in Ids(db)
    ensures Filter(db.answers, CountedFor(q, rs + [resp])) == Filter(db.answers, CountedFor(q, rs))
  {
    forall k | 0 <= k < |db.answers|
      ensures CountedFor(q, rs + [resp])(db.answers[k]) == CountedFor(q, rs)(db.answers[k])
    {
      var a := db.answers[k];
      assert a.responseId in Ids(db);
      assert forall x :: x in rs + [resp] <==> x in rs || x == resp;
    }
    FilterCongruent(db.answers, CountedFor(q, rs + [resp]), CountedFor(q, rs));
  }

  /** Of the new response's answers, question `qs[j]` counts exactly the one at `j`. */
  lemma NewAnswersCountOnce(qs: seq<Question>, j: nat, form: Form, aids: seq<string>,
                            rs: seq<Response>, resp: Response)
    requires |aids| == |qs| && j < |qs|
    requires DistinctQuestionIds(qs)
    ensures var added := NewAnswers(resp.id, qs, form, aids);
      Filter(added, CountedFor(qs[j], rs + [resp])) == [added[j]]
  {
    var added := NewAnswers(resp.id, qs, form, aids);
    var p := CountedFor(qs[j], rs + [resp]);
    assert resp in rs + [resp];
    assert p(added[j]);
    forall k | 0 <= k < |added| && k != j
      ensures !p(added[k])
    {
      assert added[k].questionId == qs[k].id;
      if k < j {
        assert qs[k].id != qs[j].id;
      } else {
        assert qs[j].id != qs[k].id;
      }
    }
    FilterSingleMatch(added, j, p);
  }

  /** With the new response and its answers stored, question `qs[j]` has one more value: the form's. */
  lemma OneMoreValue(db: Db, db1: Db, qs: seq<Question>, j: nat, form: Form, aids: seq<string>,
                     rs: seq<Response>, resp: Response)
    requires |aids| == |qs| && j < |qs|
    requires DistinctQuestionIds(qs) && resp.id !in Ids(db)
    requires db1.answers == db.answers + NewAnswers(resp.id, qs, form, aids)
    ensures AnswerValues(db1, qs[j], rs + [resp]) == AnswerValues(db, qs[j], rs) + [FormValue(form, qs[j].id)]
  {
    var added := NewAnswers(resp.id, qs, form, aids);
    var p := CountedFor(qs[j], rs + [resp]);
    FilterConcat(db.answers, added, p);
    StoredAnswersIgnoreFreshResponse(db, qs[j], rs, resp);
    NewAnswersCountOnce(qs, j, form, aids, rs, resp);
    MapConcat(Filter(db.answers, CountedFor(qs[j], rs)), [added[j]], AnswerValue);
  }

  /**
   * A recorded submission counts one more response and gives every question
   * of the survey exactly one more value, the form's text for it, after the
   * values it already had.
   */
  lemma SubmitFeedsAnalytics(db: Db, sid: string, u: User, form: Form, rid: string, aids: seq<string>,
                             submittedAt: string, now: int)
    requires |aids| == |QuestionsOf(db, sid)|
    requires rid !in Ids(db) && !u.isAdmin
    requires DistinctQuestionIds(QuestionsOf(db, sid))
    requires Submit(db, sid, Some(u), form, rid, aids, submittedAt, now).Ok?
    ensures var db1 := Submit(db, sid, Some(u), form, rid, aids, submittedAt, now).value;
      && SurveyAnalytics(db1, sid).count == SurveyAnalytics(db, sid).count + 1
      && QuestionsOf(db1, sid) == QuestionsOf(db, sid)
      && forall j :: 0 <= j < |QuestionsOf(db, sid)| ==>
           var q := QuestionsOf(db, sid)[j];
           AnswerValues(db1, q, ResponsesOf(db1, sid))
             == AnswerValues(db, q, ResponsesOf(db, sid)) + [FormValue(form, q.id)]
  {
    var db1 := Submit(db, sid, Some(u), form, rid, aids, submittedAt, now).value;
    var qs := QuestionsOf(db, sid);
    var resp := NewResponse(sid, u, rid, submittedAt);
    SubmitResponses(db, sid, u, form, rid, aids, submittedAt, now, sid);
    forall j | 0 <= j < |qs|
      ensures AnswerValues(db1, qs[j], ResponsesOf(db, sid) + [resp])
                == AnswerValues(db, qs[j], ResponsesOf(db, sid)) + [FormValue(form, qs[j].id)]
    {
      OneMoreValue(db, db1, qs, j, form, aids, ResponsesOf(db, sid), resp);
    }
  }

  /** The frequency table of a closed question gains exactly the submitted choice. */
  lemma SubmitBumpsFrequencies(db: Db, sid: string, u: User, form: Form, rid: string, aids: seq<string>,
                               submittedAt: string, now: int, j: nat)
    requires |aids| == |QuestionsOf(db, sid)|
    requires rid !in Ids(db) && !u.isAdmin
    requires DistinctQuestionIds(QuestionsOf(db, sid))
    requires Submit(db, sid, Some(u), form, rid, aids, submittedAt, now).Ok?
    requires j < |QuestionsOf(db, sid)| && IsClosed(QuestionsOf(db, sid)[j].kind)
    ensures var db1 := Submit(db, sid, Some(u), form, rid, aids, submittedAt, now).value;
      var q := QuestionsOf(db, sid)[j];
      var before := SurveyAnalytics(db, sid).summaries[j].summary;
      var after := SurveyAnalytics(db1, sid).summaries[j].summary;
      && before.Frequencies? && after.Frequencies?
      && Total(after.counts) == Total(before.counts) + 1
      && CountOf(after.counts, FormValue(form, q.id)) == CountOf(before.counts, FormValue(form, q.id)) + 1
      && forall v :: v != FormValue(form, q.id) ==> CountOf(after.counts, v) == CountOf(before.counts, v)
  {
    var db1 := Submit(db, sid, Some(u), form, rid, aids, submittedAt, now).value;
    var q := QuestionsOf(db, sid)[j];
    SubmitFeedsAnalytics(db, sid, u, form, rid, aids, submittedAt, now);
    SummaryOfOneMore(db, ResponsesOf(db, sid), db1, ResponsesOf(db1, sid), q, FormValue(form, q.id));
  }

  /** A submission to one survey leaves every other survey's report as it was. */
  lemma SubmitLeavesOtherAnalytics(db: Db, sid: string, u: User, form: Form, rid: string, aids: seq<string>,
                                   submittedAt: string, now: int, other: string)
    requires |aids| == |QuestionsOf(db, sid)|
    requires rid !in Ids(db) && other != sid
    requires Submit(db, sid, Some(u), form, rid, aids, submittedAt, now).Ok?
    ensures var db1 := Submit(db, sid, Some(u), form, rid, aids, submittedAt, now).value;
      SurveyAnalytics(db1, other) == SurveyAnalytics(db, other)
  {
    if !u.isAdmin {
      var db1 := Submit(db, sid, Some(u), form, rid, aids, submittedAt, now).value;
      var added := NewAnswers(rid, QuestionsOf(db, sid), form, aids);
      SubmitResponses(db, sid, u, form, rid, aids, submittedAt, now, other);
      forall a, r | a in added && r in db.responses && r.surveyId == other
        ensures r.id != a.responseId
      {
        assert r.id in Ids(db);
      }
      AnalyticsIgnoresForeignAnswers(db, other, added);
      AnalyticsDependsOnAnswersAndResponses(db.(answers := db.answers + added), db1, other);
    }
  }

  /** The submitter's only invitation, still pending. */
  ghost predicate PendingInvitation(db: Db, sid: string, email: string) {
    exists k :: 0 <= k < |db.invitations| && db.invitations[k].surveyId == sid
      && db.invitations[k].email == email && db.invitations[k].status == Pending
  }

  /**
   * With one invitation per (survey, email), a submission by an employee
   * whose invitation is pending raises the completed count by one and leaves
   * the number invited unchanged; without an invitation neither moves.
   */
  lemma SubmitRaisesParticipation(db: Db, sid: string, u: User, form: Form, rid: string, aids: seq<string>,
                                  submittedAt: string, now: int)
    requires |aids| == |QuestionsOf(db, sid)|
    requires UniqueInvitations(db) && !u.isAdmin
    requires Submit(db, sid, Some(u), form, rid, aids, submittedAt, now).Ok?
    ensures var db1 := Submit(db, sid, Some(u), form, rid, aids, submittedAt, now).value;
      && ParticipationOf(db1, sid).invited == ParticipationOf(db, sid).invited
      && (PendingInvitation(db, sid, u.email) ==>
            ParticipationOf(db1, sid).completed == ParticipationOf(db, sid).completed + 1)
      && (!HasInvitation(db, sid, u.email) ==> ParticipationOf(db1, sid) == ParticipationOf(db, sid))
  {
    var db1 := Submit(db, sid, Some(u), form, rid, aids, submittedAt, now).value;
    CompletingRaisesParticipation(db, db1, sid, u.email, now);
  }

  /** Completing the employee's invitation moves the participation as a submission does. */
  lemma CompletingRaisesParticipation(db: Db, db1: Db, sid: string, email: string, now: int)
    requires UniqueInvitations(db)
    requires db1.invitations == CompleteInvitation(db.invitations, sid, email, now)
    ensures ParticipationOf(db1, sid).invited == ParticipationOf(db, sid).invited
    ensures PendingInvitation(db, sid, email) ==>
              ParticipationOf(db1, sid).completed == ParticipationOf(db, sid).completed + 1
    ensures !HasInvitation(db, sid, email) ==> ParticipationOf(db1, sid) == ParticipationOf(db, sid)
  {
    var invs := db.invitations;
    match FindIndex(invs, InvitationFor(sid, email))
    case None =>
      assert db1.invitations == invs;
    case Some(k) =>
      var y := invs[k].(status := Completed, respondedAt := Some(now));
      assert db1.invitations == invs[k := y];
      FilterUpdateAccepted(invs, k, y, InvitationIn(sid));
      var f := Filter(invs, InvitationIn(sid));
      var i := |Filter(invs[..k], InvitationIn(sid))|;
      FilterLengthUpdate(f, i, y, IsCompleted());
      assert HasInvitation(db, sid, email) by {
        assert invs[k] in invs;
      }
      if PendingInvitation(db, sid, email) {
        var m :| 0 <= m < |invs| && invs[m].surveyId == sid && invs[m].email == email && invs[m].status == Pending;
        assert m == k;
      }
  }

  /** Answers of some other response, appended after the stored ones, do not change what the export shows. */
  lemma AnswerTextUnchanged(db: Db, added: seq<Answer>, rid: string, qid: string)
    requires forall k :: 0 <= k < |added| ==> added[k].responseId != rid
    ensures AnswerText(db.(answers := db.answers + added), rid, qid) == AnswerText(db, rid, qid)
  {
    FindIndexConcatRejected(db.answers, added, AnswerFor(rid, qid));
  }

  /** The export shows, for a fresh response, the form's text of each question. */
  lemma FreshResponseAnswerText(db: Db, rid: string, qs: seq<Question>, form: Form, aids: seq<string>, j: nat)
    requires |aids| == |qs| && j < |qs|
    requires forall k :: 0 <= k < |db.answers| ==> db.answers[k].responseId != rid
    ensures AnswerText(db.(answers := db.answers + NewAnswers(rid, qs, form, aids)), rid, qs[j].id)
              == FormValue(form, qs[j].id)
  {
    var added := NewAnswers(rid, qs, form, aids);
    var all := db.answers + added;
    var p := AnswerFor(rid, qs[j].id);
    var n := |db.answers|;
    assert p(all[n + j]);
    match FindIndex(all, p)
    case None =>
      assert false;
    case Some(k) =>
      assert all[k] == added[k - n];
  }

  /** A response's row reads the same once answers of other responses are appended. */
  lemma ExportRowUnchanged(db: Db, db1: Db, added: seq<Answer>, qs: seq<Question>, r: Response)
    requires db1.answers == db.answers + added
    requires forall k :: 0 <= k < |added| ==> added[k].responseId != r.id
    ensures ExportRow(db1, qs, r) == ExportRow(db, qs, r)
  {
    var db2 := db.(answers := db.answers + added);
    forall j | 0 <= j < |qs|
      ensures AnswerText(db1, r.id, qs[j].id) == AnswerText(db, r.id, qs[j].id)
    {
      AnswerTextUnchanged(db, added, r.id, qs[j].id);
      assert AnswerText(db1, r.id, qs[j].id) == AnswerText(db2, r.id, qs[j].id);
    }
    var x := ExportRow(db1, qs, r);
    var y := ExportRow(db, qs, r);
    forall k | 0 <= k < |x|
      ensures x[k] == y[k]
    {
      if k < 3 {
        assert x[k] == x[..3][k] && y[k] == y[..3][k];
      } else {
        assert x[3 + (k - 3)] == y[3 + (k - 3)];
      }
    }
  }

  /** The row of a fresh response carries the form's text for each question. */
  lemma ExportRowOfFreshResponse(db: Db, db1: Db, qs: seq<Question>, form: Form, aids: seq<string>, r: Response)
    requires |aids| == |qs|
    requires db1.answers == db.answers + NewAnswers(r.id, qs, form, aids)
    requires forall k :: 0 <= k < |db.answers| ==> db.answers[k].responseId != r.id
    ensures forall j :: 0 <= j < |qs| ==> ExportRow(db1, qs, r)[3 + j] == Cell(qs[j].prompt, FormValue(form, qs[j].id))
  {
    var db2 := db.(answers := db.answers + NewAnswers(r.id, qs, form, aids));
    forall j | 0 <= j < |qs|
      ensures AnswerText(db1, r.id, qs[j].id) == FormValue(form, qs[j].id)
    {
      FreshResponseAnswerText(db, r.id, qs, form, aids, j);
      assert AnswerText(db1, r.id, qs[j].id) == AnswerText(db2, r.id, qs[j].id);
    }
  }

  /** Answers of a fresh response leave the rows of every stored response as they were. */
  lemma StoredRowsUnchanged(db: Db, db1: Db, added: seq<Answer>, qs: seq<Question>, rs: seq<Response>, rid: string)
    requires db1.answers == db.answers + added
    requires rid !in Ids(db)
    requires forall k :: 0 <= k < |added| ==> added[k].responseId == rid
    requires forall r :: r in rs ==> r in db.responses
    ensures forall i :: 0 <= i < |rs| ==> ExportRow(db1, qs, rs[i]) == ExportRow(db, qs, rs[i])
  {
    forall i | 0 <= i < |rs|
      ensures ExportRow(db1, qs, rs[i]) == ExportRow(db, qs, rs[i])
    {
      assert rs[i] in db.responses;
      assert rs[i].id in Ids(db);
      ExportRowUnchanged(db, db1, added, qs, rs[i]);
    }
  }

  /** No stored answer belongs to a fresh response id. */
  lemma NoStoredAnswerOf(db: Db, rid: string)
    requires rid !in Ids(db)
    ensures forall k :: 0 <= k < |db.answers| ==> db.answers[k].responseId != rid
  {
    forall k | 0 <= k < |db.answers|
      ensures db.answers[k].responseId != rid
    {
      assert db.answers[k].responseId in Ids(db);
    }
  }

  /**
   * After a recorded submission the export keeps every earlier row as it was
   * and ends with the submitter's row: name, e-mail, time, then the form's
   * text for each question in position order.
   */
  lemma SubmitAppendsExportRow(db: Db, sid: string, u: User, form: Form, rid: string, aids: seq<string>,
                               submittedAt: string, now: int)
    requires |aids| == |QuestionsOf(db, sid)|
    requires rid !in Ids(db) && !u.isAdmin
    requires Submit(db, sid, Some(u), form, rid, aids, submittedAt, now).Ok?
    ensures var db1 := Submit(db, sid, Some(u), form, rid, aids, submittedAt, now).value;
      var before := ExportRows(db, sid);
      var after := ExportRows(db1, sid);
      var qs := QuestionsOf(db, sid);
      && |after| == |before| + 1
      && after[..|before|] == before
      && after[|before|][..3] == [Cell("Name", u.name), Cell("Email", u.email), Cell("SubmittedAt", submittedAt)]
      && |after[|before|]| == 3 + |qs|
      && forall j :: 0 <= j < |qs| ==> after[|before|][3 + j] == Cell(qs[j].prompt, FormValue(form, qs[j].id))
  {
    var db1 := Submit(db, sid, Some(u), form, rid, aids, submittedAt, now).value;
    SubmitResponses(db, sid, u, form, rid, aids, submittedAt, now, sid);
    AppendedExportRow(db, db1, sid, NewResponse(sid, u, rid, submittedAt), form, aids);
  }

  /** A fresh response appended with its answers appends its row to the export and keeps the earlier rows. */
  lemma AppendedExportRow(db: Db, db1: Db, sid: string, resp: Response, form: Form, aids: seq<string>)
    requires |aids| == |QuestionsOf(db, sid)| && resp.id !in Ids(db)
    requires QuestionsOf(db1, sid) == QuestionsOf(db, sid)
    requires ResponsesOf(db1, sid) == ResponsesOf(db, sid) + [resp]
    requires db1.answers == db.answers + NewAnswers(resp.id, QuestionsOf(db, sid), form, aids)
    ensures var before := ExportRows(db, sid);
      var after := ExportRows(db1, sid);
      var qs := QuestionsOf(db, sid);
      && |after| == |before| + 1
      && after[..|before|] == before
      && after[|before|][..3] == [Cell("Name", resp.name), Cell("Email", resp.email), Cell("SubmittedAt", resp.submittedAt)]
      && |after[|before|]| == 3 + |qs|
      && forall j :: 0 <= j < |qs| ==> after[|before|][3 + j] == Cell(qs[j].prompt, FormValue(form, qs[j].id))
  {
    var qs := QuestionsOf(db, sid);
    var rs := ResponsesOf(db, sid);
    var added := NewAnswers(resp.id, qs, form, aids);
    StoredRowsUnchanged(db, db1, added, qs, rs, resp.id);
    ExportRowsSnoc(db, db1, sid, resp);
    NoStoredAnswerOf(db, resp.id);
    ExportRowOfFreshResponse(db, db1, qs, form, aids, resp);
    var before := ExportRows(db, sid);
    assert (before + [ExportRow(db1, qs, resp)])[..|before|] == before;
  }

  /** When the stored rows are unchanged, appending one response appends its row to the export. */
  lemma ExportRowsSnoc(db: Db, db1: Db, sid: string, resp: Response)
    requires QuestionsOf(db1, sid) == QuestionsOf(db, sid)
    requires ResponsesOf(db1, sid) == ResponsesOf(db, sid) + [resp]
    requires var rs := ResponsesOf(db, sid);
      forall i :: 0 <= i < |rs| ==> ExportRow(db1, QuestionsOf(db, sid), rs[i]) == ExportRow(db, QuestionsOf(db, sid), rs[i])
    ensures ExportRows(db1, sid) == ExportRows(db, sid) + [ExportRow(db1, QuestionsOf(db, sid), resp)]
  {
    var qs := QuestionsOf(db, sid);
    var rs := ResponsesOf(db, sid);
    var rs1 := ResponsesOf(db1, sid);
    var before := ExportRows(db, sid);
    var after := ExportRows(db1, sid);
    var want := before + [ExportRow(db1, qs, resp)];
    assert |after| == |want|;
    forall i | 0 <= i < |after|
      ensures after[i] == want[i]
    {
      if i < |rs| {
        assert rs1[i] == rs[i];
        assert after[i] == ExportRow(db1, qs, rs[i]);
      } else {
        assert rs1[i] == resp;
      }
    }
  }
}
