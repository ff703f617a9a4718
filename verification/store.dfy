/**
 * The persisted data set: one record of seven flat entity tables,
 * cross-referenced by opaque string identifiers, and the queries the
 * handlers run over it.
 */
module Store {
  import opened Wrappers
  import opened Seqs

  datatype User = User(email: string, name: string, isAdmin: bool)

  /** A one-time login credential; `expiresAt` is a millisecond timestamp. */
  datatype LoginToken = LoginToken(token: string, email: string, expiresAt: int, used: bool)

  datatype Survey = Survey(
    id: string,
    title: string,
    description: string,
    published: bool,
    individualReport: bool,
    createdBy: string,
    createdAt: int)

  /** `kind` is the question's `type` text ("rating", "dropdown", "multiple_choice", or anything else). */
  datatype Question = Question(
    id: string,
    surveyId: string,
    prompt: string,
    kind: string,
    options: seq<string>,
    position: int)

  datatype Status = Pending | Completed

  datatype Invitation = Invitation(
    id: string,
    surveyId: string,
    email: string,
    name: string,
    status: Status,
    invitedAt: int,
    respondedAt: Option<int>)

  /** `submittedAt` is the ISO-8601 rendering of the submission instant. */
  datatype Response = Response(id: string, surveyId: string, email: string, name: string, submittedAt: string)

  datatype Answer = Answer(id: string, responseId: string, questionId: string, value: string)

  datatype Db = Db(
    users: seq<User>,
    loginTokens: seq<LoginToken>,
    surveys: seq<Survey>,
    questions: seq<Question>,
    invitations: seq<Invitation>,
    responses: seq<Response>,
    answers: seq<Answer>)

  /** The error pages a handler can answer with. */
  datatype Failure = Unauthenticated | Forbidden | NotFound | InvalidOrExpiredToken | DuplicateSubmission

  /** The seed written when no data file exists yet. */
  const EmptyDb: Db := Db([], [], [], [], [], [], [])

  // Row selectors, named so that every query and every lemma about it shares one term.

  function QuestionIn(sid: string): Question -> bool {
    (q: Question) => q.surveyId == sid
  }

  function ResponseIn(sid: string): Response -> bool {
    (r: Response) => r.surveyId == sid
  }

  function InvitationIn(sid: string): Invitation -> bool {
    (i: Invitation) => i.surveyId == sid
  }

  function InvitationFor(sid: string, email: string): Invitation -> bool {
    (i: Invitation) => i.surveyId == sid && i.email == email
  }

  function UserWith(email: string): User -> bool {
    (u: User) => u.email == email
  }

  function SurveyWith(sid: string): Survey -> bool {
    (s: Survey) => s.id == sid
  }

  function AtPosition(p: int): Question -> bool {
    (q: Question) => q.position == p
  }

  predicate HasUser(db: Db, email: string) {
    exists u :: u in db.users && u.email == email
  }

  predicate HasSurvey(db: Db, sid: string) {
    exists s :: s in db.surveys && s.id == sid
  }

  predicate HasInvitation(db: Db, sid: string, email: string) {
    exists i :: i in db.invitations && i.surveyId == sid && i.email == email
  }

  predicate HasResponse(db: Db, sid: string, email: string) {
    exists r :: r in db.responses && r.surveyId == sid && r.email == email
  }

  // Ordering of a survey's questions.

  ghost predicate SortedByPosition(s: seq<Question>) {
    forall i, j :: 0 <= i < j < |s| ==> s[i].position <= s[j].position
  }

  /** Places `q` in front of the first element whose position is not smaller. */
  function InsertByPosition(q: Question, s: seq<Question>): (r: seq<Question>)
    ensures |r| == |s| + 1
    ensures multiset(r) == multiset(s) + multiset{q}
    ensures forall x :: x in r <==> x == q || x in s
  {
    if |s| == 0 then [q]
    else if q.position <= s[0].position then [q] + s
    else
      assert s == [s[0]] + s[1..];
      [s[0]] + InsertByPosition(q, s[1..])
  }

  /** The head of a sorted sequence is at a position no greater than any other element's. */
  lemma HeadIsLeast(s: seq<Question>, x: Question)
    requires SortedByPosition(s) && |s| > 0 && x in s
    ensures s[0].position <= x.position
  {
    var k :| 0 <= k < |s| && s[k] == x;
  }

  lemma {:induction false} InsertKeepsSorted(q: Question, s: seq<Question>)
    requires SortedByPosition(s)
    ensures SortedByPosition(InsertByPosition(q, s))
    decreases |s|
  {
    if |s| > 0 && q.position > s[0].position {
      var t := s[1..];
      var rest := InsertByPosition(q, t);
      assert SortedByPosition(t);
      InsertKeepsSorted(q, t);
      forall x | x in rest
        ensures s[0].position <= x.position
      {
        if x != q {
          assert x in s;
          HeadIsLeast(s, x);
        }
      }
      ConsSorted(s[0], rest);
    }
  }

  /** A sorted sequence stays sorted under a head no later than any of its elements. */
  lemma ConsSorted(h: Question, rest: seq<Question>)
    requires SortedByPosition(rest)
    requires forall x :: x in rest ==> h.position <= x.position
    ensures SortedByPosition([h] + rest)
  {
    var r := [h] + rest;
    forall i, j | 0 <= i < j < |r|
      ensures r[i].position <= r[j].position
    {
      assert r[j] == rest[j - 1];
      if i > 0 {
        assert r[i] == rest[i - 1];
      } else {
        assert r[j] in rest;
      }
    }
  }

  /**
   * `sort((a, b) => a.position - b.position)`: the questions in ascending
   * position. The sort is stable, as `Array.prototype.sort` is.
   */
  function SortByPosition(s: seq<Question>): (r: seq<Question>)
    ensures |r| == |s|
    ensures multiset(r) == multiset(s)
    ensures forall x :: x in r <==> x in s
    ensures SortedByPosition(r)
  {
    if |s| == 0 then []
    else
      assert s == [s[0]] + s[1..];
      InsertKeepsSorted(s[0], SortByPosition(s[1..]));
      InsertByPosition(s[0], SortByPosition(s[1..]))
  }

  lemma {:induction false} InsertKeepsEqualPositionsInOrder(q: Question, s: seq<Question>, p: int)
    ensures Filter(InsertByPosition(q, s), AtPosition(p))
         == (if q.position == p then [q] else []) + Filter(s, AtPosition(p))
    decreases |s|
  {
    var at := AtPosition(p);
    var lhs := Filter(InsertByPosition(q, s), at);
    var head: seq<Question> := if q.position == p then [q] else [];
    assert at(q) == (q.position == p);
    if |s| == 0 {
      assert InsertByPosition(q, s) == [q] + [];
      FilterCons(q, [], at);
      assert lhs == head;
    } else if q.position <= s[0].position {
      assert InsertByPosition(q, s) == [q] + s;
      FilterCons(q, s, at);
      assert lhs == head + Filter(s, at);
    } else {
      assert InsertByPosition(q, s) == [s[0]] + InsertByPosition(q, s[1..]);
      InsertKeepsEqualPositionsInOrder(q, s[1..], p);
      FilterConsPast(s[0], InsertByPosition(q, s[1..]), s[1..], head, at);
      assert s == [s[0]] + s[1..];
    }
  }

  /** Stability: questions sharing a position keep their storage order. */
  lemma {:induction false} SortIsStable(s: seq<Question>, p: int)
    ensures Filter(SortByPosition(s), AtPosition(p)) == Filter(s, AtPosition(p))
    decreases |s|
  {
    if |s| > 0 {
      SortIsStable(s[1..], p);
      InsertKeepsEqualPositionsInOrder(s[0], SortByPosition(s[1..]), p);
    }
  }

  /** Questions already in position order are left as they are. */
  lemma {:induction false} SortOfSortedIsIdentity(s: seq<Question>)
    requires SortedByPosition(s)
    ensures SortByPosition(s) == s
    decreases |s|
  {
    if |s| > 0 {
      assert SortedByPosition(s[1..]);
      SortOfSortedIsIdentity(s[1..]);
      assert s == [s[0]] + s[1..];
    }
  }

  // Queries.

  /** The questions of survey `sid` in display order, as every survey view computes them. */
  function QuestionsOf(db: Db, sid: string): (r: seq<Question>)
    ensures SortedByPosition(r)
    ensures multiset(r) == multiset(Filter(db.questions, QuestionIn(sid)))
    ensures forall q :: q in r <==> q in db.questions && q.surveyId == sid
  {
    SortByPosition(Filter(db.questions, QuestionIn(sid)))
  }

  function ResponsesOf(db: Db, sid: string): seq<Response> {
    Filter(db.responses, ResponseIn(sid))
  }

  function InvitationsOf(db: Db, sid: string): seq<Invitation> {
    Filter(db.invitations, InvitationIn(sid))
  }

  // Identifiers and invariants.

  /** Every identifier the data set mentions, as a key or as a reference. */
  function Ids(db: Db): set<string> {
    (set s | s in db.surveys :: s.id)
    + (set q | q in db.questions :: q.id) + (set q | q in db.questions :: q.surveyId)
    + (set i | i in db.invitations :: i.id) + (set i | i in db.invitations :: i.surveyId)
    + (set r | r in db.responses :: r.id) + (set r | r in db.responses :: r.surveyId)
    + (set a | a in db.answers :: a.id) + (set a | a in db.answers :: a.responseId)
    + (set a | a in db.answers :: a.questionId)
  }

  ghost predicate UniqueUsers(db: Db) {
    forall i, j :: 0 <= i < j < |db.users| ==> db.users[i].email != db.users[j].email
  }

  ghost predicate UniqueTokens(db: Db) {
    forall i, j :: 0 <= i < j < |db.loginTokens| ==> db.loginTokens[i].token != db.loginTokens[j].token
  }

  /** At most one invitation per (survey, email). */
  ghost predicate UniqueInvitations(db: Db) {
    forall i, j :: 0 <= i < j < |db.invitations| ==>
      !(db.invitations[i].surveyId == db.invitations[j].surveyId && db.invitations[i].email == db.invitations[j].email)
  }

  /** At most one response per (survey, email). */
  ghost predicate UniqueResponses(db: Db) {
    forall i, j :: 0 <= i < j < |db.responses| ==>
      !(db.responses[i].surveyId == db.responses[j].surveyId && db.responses[i].email == db.responses[j].email)
  }
}
