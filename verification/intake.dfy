/**
 * Response intake: `POST /survey/{id}`. A non-administrator's first
 * submission to a survey records one response and one answer per question
 * of the survey, and completes the matching invitation. The handler is
 * modelled as one step from the stored state it loaded to the state it saves.
 */
module Intake {
  import opened Wrappers
  import opened Seqs
  import opened Store
  import opened Identity

  /** The submitted form, field name to text (field names are question ids). */
  type Form = map<string, string>

  /** `String(b[q.id] || '')`: a missing or empty field is recorded as the empty answer. */
  function FormValue(form: Form, key: string): (r: string)
    ensures key in form ==> r == form[key]
    ensures key !in form ==> r == ""
  {
    if key in form then form[key] else ""
  }

  /** One answer row per question of `qs`, in order, all belonging to response `rid`. */
  function NewAnswers(rid: string, qs: seq<Question>, form: Form, aids: seq<string>): (r: seq<Answer>)
    requires |aids| == |qs|
    ensures |r| == |qs|
    ensures forall j :: 0 <= j < |r| ==>
              && r[j].id == aids[j] && r[j].responseId == rid
              && r[j].questionId == qs[j].id && r[j].value == FormValue(form, qs[j].id)
  {
    seq(|qs|, j requires 0 <= j < |qs| => Answer(aids[j], rid, qs[j].id, FormValue(form, qs[j].id)))
  }

  /** The first invitation of (`sid`, `email`), if any, becomes completed at `now`; the rest are kept. */
  function CompleteInvitation(invs: seq<Invitation>, sid: string, email: string, now: int): (r: seq<Invitation>)
    ensures |r| == |invs|
    ensures forall i :: 0 <= i < |invs| ==>
              || r[i] == invs[i]
              || (&& invs[i].surveyId == sid && invs[i].email == email
                  && r[i] == invs[i].(status := Completed, respondedAt := Some(now)))
    ensures (exists i :: i in invs && i.surveyId == sid && i.email == email) ==>
              exists i :: 0 <= i < |r| && r[i].surveyId == sid && r[i].email == email && r[i].status == Completed
    ensures (exists i :: i in invs && i.surveyId == sid && i.email == email) ==>
              exists i :: && 0 <= i < |invs| && invs[i].surveyId == sid && invs[i].email == email
                          && (forall j :: 0 <= j < i ==> !(invs[j].surveyId == sid && invs[j].email == email))
                          && r == invs[i := invs[i].(status := Completed, respondedAt := Some(now))]
    ensures (forall i :: i in invs ==> !(i.surveyId == sid && i.email == email)) ==> r == invs
  {
    match FindIndex(invs, InvitationFor(sid, email))
    case None => invs
    case Some(i) => invs[i := invs[i].(status := Completed, respondedAt := Some(now))]
  }

  /**
   * The accepted path: append the response, then one answer per question of
   * the survey in position order holding the posted value, and complete the
   * employee's invitation when there is one. Nothing else changes.
   */
  function Record(db: Db, sid: string, u: User, form: Form, rid: string, aids: seq<string>,
                  submittedAt: string, now: int): (r: Db)
    requires |aids| == |QuestionsOf(db, sid)|
    ensures r.responses == db.responses + [Response(rid, sid, u.email, u.name, submittedAt)]
    ensures r.answers == db.answers + NewAnswers(rid, QuestionsOf(db, sid), form, aids)
    ensures HasInvitation(db, sid, u.email) ==>
              exists i :: 0 <= i < |r.invitations| && r.invitations[i].surveyId == sid
                          && r.invitations[i].email == u.email && r.invitations[i].status == Completed
    ensures r.(responses := db.responses, answers := db.answers, invitations := db.invitations) == db
  {
    db.(responses := db.responses + [Response(rid, sid, u.email, u.name, submittedAt)],
        answers := db.answers + NewAnswers(rid, QuestionsOf(db, sid), form, aids),
        invitations := CompleteInvitation(db.invitations, sid, u.email, now))
  }

  /**
   * `POST /survey/{id}` for the signed-in `user`: an unknown survey is not
   * found, a missing user is sent to log in, an administrator is redirected
   * with nothing recorded, and a second submission for the same (survey,
   * email) is refused. The handler does not look for an invitation.
   * `rid` and `aids` are fresh ids; `submittedAt` and `now` render the clock.
   */
  function Submit(db: Db, sid: string, user: Option<User>, form: Form, rid: string, aids: seq<string>,
                  submittedAt: string, now: int): (r: Result<Db, Failure>)
    requires |aids| == |QuestionsOf(db, sid)|
    ensures !HasSurvey(db, sid) ==> r == Err(NotFound)
    ensures HasSurvey(db, sid) && user.None? ==> r == Err(Unauthenticated)
    ensures HasSurvey(db, sid) && user.Some? && user.value.isAdmin ==> r == Ok(db)
    ensures r.Ok? <==> HasSurvey(db, sid) && user.Some? && (user.value.isAdmin || !HasResponse(db, sid, user.value.email))
    ensures r.Err? && HasSurvey(db, sid) && user.Some? ==> r.error == DuplicateSubmission
    ensures r.Ok? && !user.value.isAdmin ==>
              var u := user.value;
              && r.value.responses == db.responses + [Response(rid, sid, u.email, u.name, submittedAt)]
              && r.value.answers == db.answers + NewAnswers(rid, QuestionsOf(db, sid), form, aids)
              && r.value.invitations == CompleteInvitation(db.invitations, sid, u.email, now)
              && r.value.users == db.users && r.value.loginTokens == db.loginTokens
              && r.value.surveys == db.surveys && r.value.questions == db.questions
  {
    if !HasSurvey(db, sid) then Err(NotFound)
    else
      match RequireLogin(user)
      case Err(e) => Err(e)
      case Ok(u) =>
        if u.isAdmin then Ok(db)
        else if HasResponse(db, sid, u.email) then Err(DuplicateSubmission)
        else Ok(Record(db, sid, u, form, rid, aids, submittedAt, now))
  }

  function AnswerTo(rid: string): Answer -> bool {
    (a: Answer) => a.responseId == rid
  }

  // Properties.

  /** A second submission by the same employee is refused, whatever the form holds. */
  lemma SubmitTwiceIsDuplicate(db: Db, sid: string, u: User, form: Form, rid: string, aids: seq<string>,
                               submittedAt: string, now: int,
                               form2: Form, rid2: string, aids2: seq<string>, submittedAt2: string, now2: int)
    requires |aids| == |QuestionsOf(db, sid)| && |aids2| == |aids|
    requires !u.isAdmin
    requires Submit(db, sid, Some(u), form, rid, aids, submittedAt, now).Ok?
    ensures var db1 := Submit(db, sid, Some(u), form, rid, aids, submittedAt, now).value;
      Submit(db1, sid, Some(u), form2, rid2, aids2, submittedAt2, now2) == Err(DuplicateSubmission)
  {
    var db1 := Submit(db, sid, Some(u), form, rid, aids, submittedAt, now).value;
    assert db1.responses[|db.responses|] in db1.responses;
    assert db1.surveys == db.surveys;
  }

  /** Submission keeps "at most one response per (survey, email)". */
  lemma SubmitKeepsResponsesUnique(db: Db, sid: string, user: Option<User>, form: Form, rid: string,
                                   aids: seq<string>, submittedAt: string, now: int)
    requires |aids| == |QuestionsOf(db, sid)|
    requires UniqueResponses(db)
    requires Submit(db, sid, user, form, rid, aids, submittedAt, now).Ok?
    ensures UniqueResponses(Submit(db, sid, user, form, rid, aids, submittedAt, now).value)
  {
    var r := Submit(db, sid, user, form, rid, aids, submittedAt, now).value;
    if !user.value.isAdmin {
      var n := |db.responses|;
      forall i, j | 0 <= i < j < |r.responses|
        ensures !(r.responses[i].surveyId == r.responses[j].surveyId && r.responses[i].email == r.responses[j].email)
      {
        assert r.responses[i] == db.responses[i];
        if j == n {
          assert db.responses[i] in db.responses;
        } else {
          assert r.responses[j] == db.responses[j];
        }
      }
    }
  }

  /**
   * With one invitation per (survey, email), an accepted submission leaves
   * the submitter's invitation completed, leaves every other invitation as it
   * was, and keeps invitations unique.
   */
  lemma SubmitCompletesInvitation(db: Db, sid: string, u: User, form: Form, rid: string,
                                  aids: seq<string>, submittedAt: string, now: int)
    requires |aids| == |QuestionsOf(db, sid)|
    requires UniqueInvitations(db)
    requires !u.isAdmin
    requires Submit(db, sid, Some(u), form, rid, aids, submittedAt, now).Ok?
    ensures var r := Submit(db, sid, Some(u), form, rid, aids, submittedAt, now).value;
      && UniqueInvitations(r)
      && (forall i :: 0 <= i < |r.invitations| && r.invitations[i].surveyId == sid && r.invitations[i].email == u.email ==>
            r.invitations[i].status == Completed && r.invitations[i].respondedAt == Some(now))
      && (forall i :: 0 <= i < |r.invitations| && !(r.invitations[i].surveyId == sid && r.invitations[i].email == u.email) ==>
            r.invitations[i] == db.invitations[i])
  {
    var r := Submit(db, sid, Some(u), form, rid, aids, submittedAt, now).value;
    match FindIndex(db.invitations, InvitationFor(sid, u.email))
    case None =>
      assert r.invitations == db.invitations;
    case Some(k) =>
      assert r.invitations == db.invitations[k := db.invitations[k].(status := Completed, respondedAt := Some(now))];
  }

  /** The survey's own questions each get exactly one answer of the new response, carrying the form's text. */
  lemma SubmitAnswersEveryQuestionOnce(db: Db, sid: string, u: User, form: Form, rid: string,
                                       aids: seq<string>, submittedAt: string, now: int)
    requires |aids| == |QuestionsOf(db, sid)|
    requires rid !in Ids(db)
    requires !u.isAdmin
    requires Submit(db, sid, Some(u), form, rid, aids, submittedAt, now).Ok?
    ensures var r := Submit(db, sid, Some(u), form, rid, aids, submittedAt, now).value;
      var qs := QuestionsOf(db, sid);
      var mine := Filter(r.answers, AnswerTo(rid));
      && |mine| == |qs|
      && (forall j :: 0 <= j < |qs| ==> mine[j].questionId == qs[j].id && mine[j].value == FormValue(form, qs[j].id))
  {
    var r := Submit(db, sid, Some(u), form, rid, aids, submittedAt, now).value;
    var added := NewAnswers(rid, QuestionsOf(db, sid), form, aids);
    FilterConcat(db.answers, added, AnswerTo(rid));
    forall a | a in db.answers
      ensures a.responseId != rid
    {
      assert a.responseId in Ids(db);
    }
    FilterDropsAll(db.answers, AnswerTo(rid));
    FilterKeepsAll(added, AnswerTo(rid));
  }

  /** The handler accepts an employee who holds no invitation and then touches no invitation. */
  lemma SubmitDoesNotRequireInvitation(db: Db, sid: string, u: User, form: Form, rid: string,
                                       aids: seq<string>, submittedAt: string, now: int)
    requires |aids| == |QuestionsOf(db, sid)|
    requires HasSurvey(db, sid) && !u.isAdmin && !HasResponse(db, sid, u.email)
    requires !HasInvitation(db, sid, u.email)
    ensures var r := Submit(db, sid, Some(u), form, rid, aids, submittedAt, now);
      r.Ok? && r.value.invitations == db.invitations && HasResponse(r.value, sid, u.email)
  {
    var r := Submit(db, sid, Some(u), form, rid, aids, submittedAt, now).value;
    assert r.responses[|db.responses|] in r.responses;
  }
}
