/**
 * One pass through the whole workflow on concrete data: an administrator
 * creates a survey with a rating question and a free-text question, invites
 * one employee, the employee answers, and the report shows the answer.
 */
module Scenario {
  import opened Wrappers
  import opened Seqs
  import opened Text
  import opened Store
  import opened Identity
  import opened Authoring
  import opened Roster
  import opened Intake
  import opened Analytics
  import opened Export

  const Boss: User := User("boss@admin.local", "boss", true)
  const Rating: QuestionSpec := QuestionSpec("Rate us", "rating", ["1", "2", "3", "4", "5"])
  const Comment: QuestionSpec := QuestionSpec("Comments", "text", [])
  const Q1: Question := Question("q1", "s1", "Rate us", "rating", ["1", "2", "3", "4", "5"], 1)
  const Q2: Question := Question("q2", "s1", "Comments", "text", [], 2)
  const Pulse: Survey := Survey("s1", "Pulse", "", false, false, "boss@admin.local", 0)

  /** The data set after the administrator created the survey. */
  function Created(): Db {
    Db([], [], [Pulse], [Q1, Q2], [], [], [])
  }

  /** The two question records the form yields, at positions 1 and 2. */
  lemma TwoQuestions()
    ensures NewQuestions("s1", [Rating, Comment], ["q1", "q2"]) == [Q1, Q2]
  {
    var qs := NewQuestions("s1", [Rating, Comment], ["q1", "q2"]);
    assert qs[0] == Q1 && qs[1] == Q2;
  }

  /** The survey's questions in display order. */
  lemma CreatedQuestions()
    ensures QuestionsOf(Created(), "s1") == [Q1, Q2]
  {
    assert Created().questions == [Q1, Q2];
    FilterKeepsAll([Q1, Q2], QuestionIn("s1"));
    assert SortedByPosition([Q1, Q2]);
    SortOfSortedIsIdentity([Q1, Q2]);
  }

  /** Creating the survey in an empty data set stores it unpublished with its two questions at positions 1 and 2. */
  lemma CreateTwoQuestions()
    ensures CreateSurvey(EmptyDb, Some(Boss), Some("Pulse"), "", false, Some([Rating, Comment]), "s1", ["q1", "q2"], 0)
              == Ok(Created())
  {
    var r := CreateSurvey(EmptyDb, Some(Boss), Some("Pulse"), "", false, Some([Rating, Comment]), "s1", ["q1", "q2"], 0);
    CreatedByBoss();
    CreatedSurveyRecord();
    CreatedQuestionRecords();
    var db := r.value;
    assert db == Db(db.users, db.loginTokens, db.surveys, db.questions, db.invitations, db.responses, db.answers);
  }

  lemma CreatedByBoss()
    ensures CreateSurvey(EmptyDb, Some(Boss), Some("Pulse"), "", false, Some([Rating, Comment]), "s1", ["q1", "q2"], 0).Ok?
  {
  }

  lemma CreatedSurveyRecord()
    ensures var r := CreateSurvey(EmptyDb, Some(Boss), Some("Pulse"), "", false, Some([Rating, Comment]), "s1", ["q1", "q2"], 0);
      r.Ok? && r.value.surveys == [Pulse]
  {
  }

  lemma CreatedQuestionRecords()
    ensures var r := CreateSurvey(EmptyDb, Some(Boss), Some("Pulse"), "", false, Some([Rating, Comment]), "s1", ["q1", "q2"], 0);
      r.Ok? && r.value.questions == [Q1, Q2]
  {
    TwoQuestions();
  }

  /** The data set after inviting the employee with address `e`, named `n`. */
  function Invited(e: string, n: string): Db {
    Created().(users := [User(e, n, false)], invitations := [Invitation("i1", "s1", e, n, Pending, 1, None)])
  }

  /** The invite loop's one step for a new employee adds the user and a pending invitation. */
  lemma InviteNewEmployee(e: string, n: string)
    ensures InviteOne(Created(), "s1", Recipient(e, n), "i1", 1) == Invited(e, n)
  {
    var db := Created();
    assert !HasUser(db, e);
    var db1 := db.(users := [User(e, n, false)]);
    assert db1.users == db.users + [User(e, n, false)];
    assert !HasInvitation(db1, "s1", e);
    var db2 := db1.(invitations := [Invitation("i1", "s1", e, n, Pending, 1, None)]);
    assert db2.invitations == db1.invitations + [Invitation("i1", "s1", e, n, Pending, 1, None)];
    assert db2 == Invited(e, n);
  }

  /** Inviting a bare normalised address adds the employee, named `n` after the trimmed local part, and one pending invitation. */
  lemma InviteOneAddress(e: string, n: string)
    requires IsNormalized(e) && e != "" && '\n' !in e && ',' !in e && n == Trim(Before(e, '@'))
    ensures |RecipientLines(e)| == 1
    ensures Invite(Created(), Some(Boss), "s1", e, ["i1"], 1) == Ok(Invited(e, n))
  {
    OneAddressField(e);
    OneAddressRecipient(e);
    InviteListedEmployee(e, n);
  }

  /** A field that names just the employee invites the employee. */
  lemma InviteListedEmployee(e: string, n: string)
    requires |RecipientLines(e)| == 1 && Recipients(e) == [Recipient(e, n)]
    ensures Invite(Created(), Some(Boss), "s1", e, ["i1"], 1) == Ok(Invited(e, n))
  {
    InviteOneRecipient(Created(), Boss, "s1", e, Recipient(e, n), "i1", 1);
    InviteNewEmployee(e, n);
  }

  /** An administrator's bulk invite invites the field's recipients in order. */
  lemma InviteAsAdmin(db: Db, u: User, sid: string, field: string, ids: seq<string>, now: int)
    requires u.isAdmin && |ids| == |RecipientLines(field)|
    ensures Invite(db, Some(u), sid, field, ids, now) == Ok(InviteAll(db, sid, Recipients(field), ids, now))
  {
  }

  /** A field naming one recipient invites just that recipient. */
  lemma InviteOneRecipient(db: Db, u: User, sid: string, field: string, rc: Recipient, id: string, now: int)
    requires u.isAdmin && |RecipientLines(field)| == 1 && Recipients(field) == [rc]
    ensures Invite(db, Some(u), sid, field, [id], now) == Ok(InviteOne(db, sid, rc, id, now))
  {
    InviteAsAdmin(db, u, sid, field, [id], now);
    InviteSingle(db, sid, rc, id, now);
  }

  /** Inviting a one-recipient list is inviting that recipient. */
  lemma InviteSingle(db: Db, sid: string, rc: Recipient, id: string, now: int)
    ensures InviteAll(db, sid, [rc], [id], now) == InviteOne(db, sid, rc, id, now)
  {
    assert [rc][1..] == [] && [id][1..] == [];
  }

  /** The employee's answers: 4 on the rating, "good" as the comment. */
  const Answers: Form := map["q1" := "4", "q2" := "good"]

  /** The data set after the employee answered. */
  function Answered(e: string, n: string): Db {
    Invited(e, n).(
      invitations := [Invitation("i1", "s1", e, n, Completed, 1, Some(2))],
      responses := [Response("r1", "s1", e, n, "t")],
      answers := [Answer("a1", "r1", "q1", "4"), Answer("a2", "r1", "q2", "good")])
  }

  /** Inviting leaves the survey's questions as they were. */
  lemma InvitedQuestions(e: string, n: string)
    ensures QuestionsOf(Invited(e, n), "s1") == [Q1, Q2]
  {
    CreatedQuestions();
    assert Invited(e, n).questions == Created().questions;
  }

  /** The two answer rows the submission writes. */
  lemma TwoAnswers()
    ensures NewAnswers("r1", [Q1, Q2], Answers, ["a1", "a2"])
              == [Answer("a1", "r1", "q1", "4"), Answer("a2", "r1", "q2", "good")]
  {
    assert FormValue(Answers, "q1") == "4";
    assert FormValue(Answers, "q2") == "good";
  }

  /** The submission completes the employee's invitation at time 2. */
  lemma InvitationCompleted(e: string, n: string)
    ensures CompleteInvitation(Invited(e, n).invitations, "s1", e, 2) == Answered(e, n).invitations
  {
    var invs := Invited(e, n).invitations;
    assert InvitationFor("s1", e)(invs[0]);
    assert FindIndex(invs, InvitationFor("s1", e)) == Some(0);
  }

  /** What the accepted submission records. */
  lemma RecordAnswers(e: string, n: string)
    requires |QuestionsOf(Invited(e, n), "s1")| == 2
    ensures Record(Invited(e, n), "s1", User(e, n, false), Answers, "r1", ["a1", "a2"], "t", 2) == Answered(e, n)
  {
    var db := Invited(e, n);
    var r := Record(db, "s1", User(e, n, false), Answers, "r1", ["a1", "a2"], "t", 2);
    InvitationCompleted(e, n);
    RecordedResponses(e, n);
    RecordedAnswers(e, n);
    assert r == db.(invitations := r.invitations, responses := r.responses, answers := r.answers);
  }

  lemma RecordedResponses(e: string, n: string)
    requires |QuestionsOf(Invited(e, n), "s1")| == 2
    ensures Record(Invited(e, n), "s1", User(e, n, false), Answers, "r1", ["a1", "a2"], "t", 2).responses
              == Answered(e, n).responses
  {
    assert Invited(e, n).responses == [];
  }

  lemma RecordedAnswers(e: string, n: string)
    requires |QuestionsOf(Invited(e, n), "s1")| == 2
    ensures Record(Invited(e, n), "s1", User(e, n, false), Answers, "r1", ["a1", "a2"], "t", 2).answers
              == Answered(e, n).answers
  {
    InvitedQuestions(e, n);
    TwoAnswers();
    assert Invited(e, n).answers == [];
  }

  /** The invited employee's submission is recorded and completes the invitation. */
  lemma SubmitAnswers(e: string, n: string)
    ensures |QuestionsOf(Invited(e, n), "s1")| == 2
    ensures Submit(Invited(e, n), "s1", Some(User(e, n, false)), Answers, "r1", ["a1", "a2"], "t", 2)
              == Ok(Answered(e, n))
  {
    var db := Invited(e, n);
    InvitedQuestions(e, n);
    RecordAnswers(e, n);
    assert db.surveys[0].id == "s1";
    assert HasSurvey(db, "s1");
    assert !HasResponse(db, "s1", e);
  }

  /** The employee's one response, as the report sees it. */
  function Responded(e: string, n: string): seq<Response> {
    [Response("r1", "s1", e, n, "t")]
  }

  lemma AnsweredQueries(e: string, n: string)
    ensures QuestionsOf(Answered(e, n), "s1") == [Q1, Q2]
    ensures ResponsesOf(Answered(e, n), "s1") == Responded(e, n)
  {
    AnsweredQuestions(e, n);
    var rs := Answered(e, n).responses;
    assert rs == Responded(e, n);
    FilterKeepsAll(rs, ResponseIn("s1"));
  }

  lemma AnsweredQuestions(e: string, n: string)
    ensures QuestionsOf(Answered(e, n), "s1") == [Q1, Q2]
  {
    InvitedQuestions(e, n);
    assert Answered(e, n).questions == Invited(e, n).questions;
  }

  /** Each question collects the one value the employee gave it. */
  lemma AnsweredValues(e: string, n: string)
    ensures AnswerValues(Answered(e, n), Q1, Responded(e, n)) == ["4"]
    ensures AnswerValues(Answered(e, n), Q2, Responded(e, n)) == ["good"]
  {
    var db := Answered(e, n);
    var rs := Responded(e, n);
    assert rs[0] in rs && rs[0].id == "r1";
    assert CountedFor(Q1, rs)(db.answers[0]);
    assert CountedFor(Q2, rs)(db.answers[1]);
    OnlyCountedAnswer(db, Q1, rs, 0);
    OnlyCountedAnswer(db, Q2, rs, 1);
  }

  /** When one stored answer counts for `q` and no other answers `q`, its value is all the report sees. */
  lemma OnlyCountedAnswer(db: Db, q: Question, rs: seq<Response>, j: nat)
    requires j < |db.answers| && CountedFor(q, rs)(db.answers[j])
    requires forall k :: 0 <= k < |db.answers| && k != j ==> db.answers[k].questionId != q.id
    ensures AnswerValues(db, q, rs) == [db.answers[j].value]
  {
    FilterSingleMatch(db.answers, j, CountedFor(q, rs));
  }

  lemma TallyOfOne(v: string)
    ensures Tally([v]) == [(v, 1)]
  {
    assert [v][..0] == [];
  }

  /** The rating question's summary is a table with the single entry 4 × 1. */
  lemma RatingSummary(e: string, n: string)
    ensures Summarize(Answered(e, n), Responded(e, n), Q1) == QuestionSummary(Q1, Frequencies([("4", 1)]))
  {
    AnsweredValues(e, n);
    TallyOfOne("4");
    assert IsClosed(Q1.kind);
  }

  /** The comment question's summary lists the comment. */
  lemma CommentSummary(e: string, n: string)
    ensures Summarize(Answered(e, n), Responded(e, n), Q2) == QuestionSummary(Q2, Values(["good"]))
  {
    AnsweredValues(e, n);
    assert !IsClosed(Q2.kind);
  }

  /** The report then counts one response, tallies the rating and lists the comment. */
  lemma ReportAfterAnswer(e: string, n: string)
    ensures SurveyAnalytics(Answered(e, n), "s1")
              == Report(1, [QuestionSummary(Q1, Frequencies([("4", 1)])), QuestionSummary(Q2, Values(["good"]))])
  {
    AnsweredQueries(e, n);
    RatingSummary(e, n);
    CommentSummary(e, n);
    ReportOfTwo(Answered(e, n), "s1", Responded(e, n), Q1, Q2,
      QuestionSummary(Q1, Frequencies([("4", 1)])), QuestionSummary(Q2, Values(["good"])));
  }

  lemma ReportOfTwo(db: Db, sid: string, rs: seq<Response>, q1: Question, q2: Question, s1: QuestionSummary, s2: QuestionSummary)
    requires QuestionsOf(db, sid) == [q1, q2] && ResponsesOf(db, sid) == rs
    requires Summarize(db, rs, q1) == s1 && Summarize(db, rs, q2) == s2
    ensures SurveyAnalytics(db, sid) == Report(|rs|, [s1, s2])
  {
    var r := SurveyAnalytics(db, sid);
    assert r.summaries[0] == s1 && r.summaries[1] == s2;
  }

  /** The export then has one row: the employee's name, address and time, then each prompt with its answer. */
  lemma ExportAfterAnswer(e: string, n: string)
    ensures ExportRows(Answered(e, n), "s1")
              == [[Cell("Name", n), Cell("Email", e), Cell("SubmittedAt", "t"), Cell("Rate us", "4"), Cell("Comments", "good")]]
  {
    var db := Answered(e, n);
    AnsweredQueries(e, n);
    AnsweredText(e, n);
    RowOfTwo(db, Q1, Q2, Responded(e, n)[0], "4", "good");
    ExportOfOne(db, "s1", Responded(e, n)[0]);
  }

  /** A survey with one response exports that response's row alone. */
  lemma ExportOfOne(db: Db, sid: string, r: Response)
    requires ResponsesOf(db, sid) == [r]
    ensures ExportRows(db, sid) == [ExportRow(db, QuestionsOf(db, sid), r)]
  {
  }

  lemma RowOfTwo(db: Db, q1: Question, q2: Question, r: Response, v1: string, v2: string)
    requires AnswerText(db, r.id, q1.id) == v1 && AnswerText(db, r.id, q2.id) == v2
    ensures ExportRow(db, [q1, q2], r)
              == [Cell("Name", r.name), Cell("Email", r.email), Cell("SubmittedAt", r.submittedAt), Cell(q1.prompt, v1), Cell(q2.prompt, v2)]
  {
    var row := ExportRow(db, [q1, q2], r);
    assert row[..3] == [Cell("Name", r.name), Cell("Email", r.email), Cell("SubmittedAt", r.submittedAt)];
    assert row[3] == Cell(q1.prompt, v1) && row[3 + 1] == Cell(q2.prompt, v2);
  }

  /** Each question's cell shows the one stored answer. */
  lemma AnsweredText(e: string, n: string)
    ensures AnswerText(Answered(e, n), "r1", "q1") == "4"
    ensures AnswerText(Answered(e, n), "r1", "q2") == "good"
  {
    var answers := Answered(e, n).answers;
    assert AnswerFor("r1", "q1")(answers[0]);
    assert FindIndex(answers, AnswerFor("r1", "q1")) == Some(0);
    assert !AnswerFor("r1", "q2")(answers[0]) && AnswerFor("r1", "q2")(answers[1]);
    assert FindIndex(answers, AnswerFor("r1", "q2")) == Some(1);
  }

  /** All invited, all completed: 1/1, or 100%. */
  lemma ParticipationAfterAnswer(e: string, n: string)
    ensures InvitationsOf(Answered(e, n), "s1") == Answered(e, n).invitations
    ensures ParticipationOf(Answered(e, n), "s1") == Participation(1, 1, 100)
  {
    var db := Answered(e, n);
    FilterKeepsAll(db.invitations, InvitationIn("s1"));
    FilterKeepsAll(db.invitations, IsCompleted());
  }

  /** Creating the concrete survey succeeds and yields `Created()`. */
  ghost predicate CreateStep() {
    CreateSurvey(EmptyDb, Some(Boss), Some("Pulse"), "", false, Some([Rating, Comment]), "s1", ["q1", "q2"], 0)
      == Ok(Created())
  }

  /** Inviting the bare address `e` into `Created()` yields `Invited(e, n)`, `n` the trimmed local part. */
  ghost predicate InviteStep(e: string) {
    && |RecipientLines(e)| == 1
    && Invite(Created(), Some(Boss), "s1", e, ["i1"], 1) == Ok(Invited(e, Trim(Before(e, '@'))))
  }

  /** The invited employee's submission into `Invited(e, n)` yields `Answered(e, n)`. */
  ghost predicate SubmitStep(e: string, n: string) {
    && |QuestionsOf(Invited(e, n), "s1")| == 2
    && Submit(Invited(e, n), "s1", Some(User(e, n, false)), Answers, "r1", ["a1", "a2"], "t", 2) == Ok(Answered(e, n))
  }

  /** The report and the participation figure of `Answered(e, n)`. */
  ghost predicate ReportStep(e: string, n: string) {
    && SurveyAnalytics(Answered(e, n), "s1")
         == Report(1, [QuestionSummary(Q1, Frequencies([("4", 1)])), QuestionSummary(Q2, Values(["good"]))])
    && Answered(e, n).invitations == [Invitation("i1", "s1", e, n, Completed, 1, Some(2))]
    && ParticipationOf(Answered(e, n), "s1") == Participation(1, 1, 100)
  }

  /** The whole flow: each step's result is the next step's input, from creation through the report. */
  lemma Workflow(e: string)
    requires IsNormalized(e) && e != "" && '\n' !in e && ',' !in e
    ensures var n := Trim(Before(e, '@'));
      CreateStep() && InviteStep(e) && SubmitStep(e, n) && ReportStep(e, n)
  {
    var n := Trim(Before(e, '@'));
    CreateTwoQuestions();
    InviteOneAddress(e, n);
    SubmitAnswers(e, n);
    ReportAfterAnswer(e, n);
    ParticipationAfterAnswer(e, n);
  }
}
