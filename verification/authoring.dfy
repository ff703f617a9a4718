/** Survey authoring: `POST /survey/new` and `POST /publish/{id}`. */
module Authoring {
  import opened Wrappers
  import opened Seqs
  import opened Store
  import opened Identity

  /** One element of the questions JSON array an administrator submits. */
  datatype QuestionSpec = QuestionSpec(prompt: string, kind: string, options: seq<string>)

  /** `String(b.title)`: a missing title field becomes the text "undefined". */
  function TitleText(title: Option<string>): string {
    title.GetOr("undefined")
  }

  /** The question list the form yields: the parsed array, or no questions when the text does not parse. */
  function Specs(parsed: Option<seq<QuestionSpec>>): seq<QuestionSpec> {
    parsed.GetOr([])
  }

  /** The question records for `specs`: ids from `qids`, all in survey `sid`, positions 1..n in input order. */
  function NewQuestions(sid: string, specs: seq<QuestionSpec>, qids: seq<string>): (r: seq<Question>)
    requires |qids| == |specs|
    ensures |r| == |specs|
    ensures forall i :: 0 <= i < |r| ==> r[i].position == i + 1 && r[i].surveyId == sid && r[i].id == qids[i]
    ensures forall i :: 0 <= i < |r| ==>
              r[i].prompt == specs[i].prompt && r[i].kind == specs[i].kind && r[i].options == specs[i].options
    ensures SortedByPosition(r)
  {
    seq(|specs|, i requires 0 <= i < |specs| =>
      Question(qids[i], sid, specs[i].prompt, specs[i].kind, specs[i].options, i + 1))
  }

  /**
   * `POST /survey/new`: an administrator appends one unpublished survey `sid`
   * and its questions. `qids` are the added question ids, `now` the clock.
   */
  function CreateSurvey(db: Db, user: Option<User>, title: Option<string>, description: string,
                        individualReport: bool, parsed: Option<seq<QuestionSpec>>,
                        sid: string, qids: seq<string>, now: int): (r: Result<Db, Failure>)
    requires |qids| == |Specs(parsed)|
    ensures r.Ok? <==> user.Some? && user.value.isAdmin
    ensures r.Err? ==> r.error == (if user.None? then Unauthenticated else Forbidden)
    ensures r.Ok? ==>
              && r.value.surveys == db.surveys
                   + [Survey(sid, TitleText(title), description, false, individualReport, user.value.email, now)]
              && r.value.questions == db.questions + NewQuestions(sid, Specs(parsed), qids)
              && r.value.users == db.users && r.value.loginTokens == db.loginTokens
              && r.value.invitations == db.invitations && r.value.responses == db.responses
              && r.value.answers == db.answers
  {
    match RequireAdmin(user)
    case Err(e) => Err(e)
    case Ok(admin) =>
      var survey := Survey(sid, TitleText(title), description, false, individualReport, admin.email, now);
      Ok(db.(surveys := db.surveys + [survey],
             questions := db.questions + NewQuestions(sid, Specs(parsed), qids)))
  }

  /** Sets `published` on the first survey with id `sid`; an unknown id changes nothing. */
  function PublishSurvey(db: Db, sid: string): (r: Db)
    ensures !HasSurvey(db, sid) ==> r == db
    ensures |r.surveys| == |db.surveys|
    ensures forall i :: 0 <= i < |db.surveys| ==>
              r.surveys[i] == db.surveys[i] || (db.surveys[i].id == sid && r.surveys[i] == db.surveys[i].(published := true))
    ensures HasSurvey(db, sid) ==> exists i :: 0 <= i < |r.surveys| && r.surveys[i].id == sid && r.surveys[i].published
    ensures r.(surveys := db.surveys) == db
  {
    match FindIndex(db.surveys, SurveyWith(sid))
    case None => db
    case Some(i) => db.(surveys := db.surveys[i := db.surveys[i].(published := true)])
  }

  /** `POST /publish/{id}`: administrators only. */
  function Publish(db: Db, user: Option<User>, sid: string): (r: Result<Db, Failure>)
    ensures r.Ok? <==> user.Some? && user.value.isAdmin
    ensures r.Ok? ==> r.value == PublishSurvey(db, sid)
    ensures r.Err? ==> r.error == (if user.None? then Unauthenticated else Forbidden)
  {
    match RequireAdmin(user)
    case Err(e) => Err(e)
    case Ok(_) => Ok(PublishSurvey(db, sid))
  }

  // Properties.

  /**
   * Creating survey `sid` with a added id gives it exactly the submitted
   * questions, in input order with positions 1..n, and leaves every other
   * survey's question list as it was.
   */
  lemma CreatedSurveyHasItsQuestionsInOrder(db: Db, user: Option<User>, title: Option<string>, description: string,
                                            individualReport: bool, parsed: Option<seq<QuestionSpec>>,
                                            sid: string, qids: seq<string>, now: int, other: string)
    requires |qids| == |Specs(parsed)|
    requires sid !in Ids(db)
    requires other != sid
    requires CreateSurvey(db, user, title, description, individualReport, parsed, sid, qids, now).Ok?
    ensures var db1 := CreateSurvey(db, user, title, description, individualReport, parsed, sid, qids, now).value;
      && QuestionsOf(db1, sid) == NewQuestions(sid, Specs(parsed), qids)
      && QuestionsOf(db1, other) == QuestionsOf(db, other)
  {
    var db1 := CreateSurvey(db, user, title, description, individualReport, parsed, sid, qids, now).value;
    var added := NewQuestions(sid, Specs(parsed), qids);
    FilterConcat(db.questions, added, QuestionIn(sid));
    assert Filter(db.questions, QuestionIn(sid)) == [] by {
      forall q | q in db.questions
        ensures q.surveyId != sid
      {
        assert q.surveyId in Ids(db);
      }
      FilterDropsAll(db.questions, QuestionIn(sid));
    }
    FilterKeepsAll(added, QuestionIn(sid));
    assert Filter(db1.questions, QuestionIn(sid)) == added;
    SortOfSortedIsIdentity(added);
    FilterConcat(db.questions, added, QuestionIn(other));
    assert Filter(added, QuestionIn(other)) == [] by {
      assert forall q :: q in added ==> q.surveyId == sid;
      FilterDropsAll(added, QuestionIn(other));
    }
    assert Filter(db1.questions, QuestionIn(other)) == Filter(db.questions, QuestionIn(other));
  }

  /** Publishing twice is publishing once. */
  lemma PublishIdempotent(db: Db, sid: string)
    ensures PublishSurvey(PublishSurvey(db, sid), sid) == PublishSurvey(db, sid)
  {
    var once := PublishSurvey(db, sid);
    match FindIndex(db.surveys, SurveyWith(sid))
    case None =>
    case Some(i) =>
      assert FindIndex(once.surveys, SurveyWith(sid)) == Some(i) by {
        var p := SurveyWith(sid);
        assert forall j :: 0 <= j < i ==> once.surveys[j] == db.surveys[j];
        assert once.surveys[i].id == sid;
      }
  }

  /** Publication is one-way: no survey that was published becomes a draft again. */
  lemma PublishNeverUnpublishes(db: Db, sid: string)
    ensures forall i :: 0 <= i < |db.surveys| && db.surveys[i].published ==> PublishSurvey(db, sid).surveys[i].published
  {
  }
}
