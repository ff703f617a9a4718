/**
 * The invitation roster: `POST /invite/{id}` turns a block of
 * "email[,name]" lines into users and pending invitations, adding only
 * what is missing.
 */
module Roster {
  import opened Wrappers
  import opened Seqs
  import opened Text
  import opened Store
  import opened Identity

  /** One parsed recipient line. */
  datatype Recipient = Recipient(email: string, name: string)

  function IsFilled(): string -> bool {
    (l: string) => l != ""
  }

  /** The non-blank lines of the recipients field, each trimmed. */
  function RecipientLines(field: string): (r: seq<string>)
    ensures forall l :: l in r ==> l != "" && Trim(l) == l && '\n' !in l
  {
    var pieces := Split(field, '\n');
    var trimmed := Map(pieces, Trim);
    forall k | 0 <= k < |trimmed|
      ensures Trim(trimmed[k]) == trimmed[k] && '\n' !in trimmed[k]
    {
      TrimIdempotent(pieces[k]);
    }
    Filter(trimmed, IsFilled())
  }

  /** Lines that are non-empty, trimmed and free of newlines, joined by newlines, come back as the recipient lines. */
  lemma RecipientLinesOfJoin(ls: seq<string>)
    requires forall k :: 0 <= k < |ls| ==> ls[k] != "" && Trim(ls[k]) == ls[k] && '\n' !in ls[k]
    ensures RecipientLines(Join(ls, "\n")) == ls
  {
    if |ls| == 0 {
      SplitFree("", '\n');
      TrimmedIsFixed("");
      LinesOfPieces([""], "");
      FilterDropsAll([""], IsFilled());
    } else {
      SplitJoin(ls, '\n');
      LinesOfPieces(ls, Join(ls, "\n"));
      FilterKeepsAll(ls, IsFilled());
    }
  }

  /** The recipient lines of a field are its split pieces, trimmed, with the empty ones dropped. */
  lemma LinesOfPieces(pieces: seq<string>, field: string)
    requires Split(field, '\n') == pieces
    requires forall k :: 0 <= k < |pieces| ==> Trim(pieces[k]) == pieces[k]
    ensures RecipientLines(field) == Filter(pieces, IsFilled())
  {
    assert Map(pieces, Trim) == pieces;
  }

  /**
   * `const [email, nameRaw] = line.split(',')`: the address is normalised; the
   * name is the second field, or the address's local part when that field is
   * absent or empty, trimmed either way. Any further fields are ignored.
   */
  function ParseRecipient(line: string): (r: Recipient)
    ensures IsNormalized(r.email)
  {
    var fields := Split(line, ',');
    var e := NormalizeEmail(fields[0]);
    var nameRaw := if |fields| > 1 then fields[1] else "";
    Recipient(e, Trim(if nameRaw != "" then nameRaw else Before(e, '@')))
  }

  /** One iteration of the invite loop: add the user if unknown, then the invitation if missing. */
  function InviteOne(db: Db, sid: string, rc: Recipient, id: string, now: int): (r: Db)
    ensures HasUser(r, rc.email) && HasInvitation(r, sid, rc.email)
  {
    var db1 := if HasUser(db, rc.email) then db else db.(users := db.users + [User(rc.email, rc.name, false)]);
    assert !HasUser(db, rc.email) ==> db1.users[|db.users|] in db1.users;
    var r :=
      if HasInvitation(db1, sid, rc.email) then db1
      else db1.(invitations := db1.invitations + [Invitation(id, sid, rc.email, rc.name, Pending, now, None)]);
    assert !HasInvitation(db1, sid, rc.email) ==> r.invitations[|db1.invitations|] in r.invitations;
    assert HasUser(db1, rc.email) ==> HasUser(r, rc.email);
    r
  }

  /**
   * The invite loop over parsed recipients; `ids` holds one fresh invitation
   * id per recipient. It only appends users and invitations, and every
   * recipient ends up with a user and an invitation to `sid`.
   */
  function InviteAll(db: Db, sid: string, rcs: seq<Recipient>, ids: seq<string>, now: int): (r: Db)
    requires |ids| == |rcs|
    ensures Grows(db, r)
    ensures forall k :: 0 <= k < |rcs| ==> HasUser(r, rcs[k].email) && HasInvitation(r, sid, rcs[k].email)
    decreases |rcs|
  {
    if |rcs| == 0 then db
    else
      var db1 := InviteOne(db, sid, rcs[0], ids[0], now);
      var r := InviteAll(db1, sid, rcs[1..], ids[1..], now);
      InviteOneAppends(db, sid, rcs[0], ids[0], now);
      GrowsTransitive(db, db1, r);
      GrowsKeepsMembership(db1, r, sid, rcs[0].email);
      assert forall k :: 1 <= k < |rcs| ==> rcs[k] == rcs[1..][k - 1];
      r
  }

  /** The recipients the field names, in line order. */
  function Recipients(field: string): (r: seq<Recipient>)
    ensures |r| == |RecipientLines(field)|
    ensures forall k :: 0 <= k < |r| ==> IsNormalized(r[k].email)
  {
    Map(RecipientLines(field), ParseRecipient)
  }

  /** `POST /invite/{id}`: administrators only; the survey id is not checked against the surveys. */
  function Invite(db: Db, user: Option<User>, sid: string, field: string, ids: seq<string>, now: int): (r: Result<Db, Failure>)
    requires |ids| == |RecipientLines(field)|
    ensures r.Ok? <==> user.Some? && user.value.isAdmin
    ensures r.Err? ==> r.error == (if user.None? then Unauthenticated else Forbidden)
    ensures r.Ok? ==> forall k :: 0 <= k < |Recipients(field)| ==> HasInvitation(r.value, sid, Recipients(field)[k].email)
  {
    match RequireAdmin(user)
    case Err(e) => Err(e)
    case Ok(_) =>
      var r := InviteAll(db, sid, Recipients(field), ids, now);
      InviteAllCovers(db, sid, Recipients(field), ids, now);
      Ok(r)
  }

  // Growth: invitations and users are only ever appended.

  ghost predicate IsPrefix<T>(a: seq<T>, b: seq<T>) {
    |a| <= |b| && b[..|a|] == a
  }

  /** `b` is `a` with possibly more users and invitations appended and nothing else changed. */
  ghost predicate Grows(a: Db, b: Db) {
    && IsPrefix(a.users, b.users)
    && IsPrefix(a.invitations, b.invitations)
    && b.(users := a.users, invitations := a.invitations) == a
  }

  /** An invitation the loop may have created from the recipients: pending, in `sid`, named by one recipient. */
  ghost predicate InvitedFrom(inv: Invitation, sid: string, rcs: seq<Recipient>, ids: seq<string>, now: int)
    requires |ids| == |rcs|
  {
    exists k :: 0 <= k < |rcs| && inv == Invitation(ids[k], sid, rcs[k].email, rcs[k].name, Pending, now, None)
  }

  /** A user the loop may have created: a non-administrator named by one recipient. */
  ghost predicate UserFrom(u: User, rcs: seq<Recipient>) {
    exists k :: 0 <= k < |rcs| && u == User(rcs[k].email, rcs[k].name, false)
  }

  lemma GrowsTransitive(a: Db, b: Db, c: Db)
    requires Grows(a, b) && Grows(b, c)
    ensures Grows(a, c)
  {
    assert c.users[..|a.users|] == b.users[..|a.users|];
    assert c.invitations[..|a.invitations|] == b.invitations[..|a.invitations|];
  }

  lemma GrowsKeepsMembership(a: Db, b: Db, sid: string, email: string)
    requires Grows(a, b)
    ensures HasUser(a, email) ==> HasUser(b, email)
    ensures HasInvitation(a, sid, email) ==> HasInvitation(b, sid, email)
  {
    assert forall u :: u in a.users ==> u in b.users by {
      forall u | u in a.users ensures u in b.users {
        var k :| 0 <= k < |a.users| && a.users[k] == u;
        assert b.users[k] == u;
      }
    }
    assert forall i :: i in a.invitations ==> i in b.invitations by {
      forall i | i in a.invitations ensures i in b.invitations {
        var k :| 0 <= k < |a.invitations| && a.invitations[k] == i;
        assert b.invitations[k] == i;
      }
    }
  }

  /** One iteration appends at most one user and at most one invitation, both built from the recipient. */
  lemma InviteOneAppends(db: Db, sid: string, rc: Recipient, id: string, now: int)
    ensures var r := InviteOne(db, sid, rc, id, now);
      && Grows(db, r)
      && (forall i :: |db.invitations| <= i < |r.invitations| ==>
            r.invitations[i] == Invitation(id, sid, rc.email, rc.name, Pending, now, None))
      && (forall i :: |db.users| <= i < |r.users| ==> r.users[i] == User(rc.email, rc.name, false))
  {
  }

  lemma {:induction false} InviteAllGrows(db: Db, sid: string, rcs: seq<Recipient>, ids: seq<string>, now: int)
    requires |ids| == |rcs|
    ensures Grows(db, InviteAll(db, sid, rcs, ids, now))
    decreases |rcs|
  {
    if |rcs| > 0 {
      var db1 := InviteOne(db, sid, rcs[0], ids[0], now);
      InviteOneAppends(db, sid, rcs[0], ids[0], now);
      InviteAllGrows(db1, sid, rcs[1..], ids[1..], now);
      GrowsTransitive(db, db1, InviteAll(db, sid, rcs, ids, now));
    }
  }

  lemma {:induction false} InviteAllAddsInvitationsFrom(db: Db, sid: string, rcs: seq<Recipient>, ids: seq<string>, now: int)
    requires |ids| == |rcs|
    ensures var r := InviteAll(db, sid, rcs, ids, now);
      forall i :: |db.invitations| <= i < |r.invitations| ==> InvitedFrom(r.invitations[i], sid, rcs, ids, now)
    decreases |rcs|
  {
    var r := InviteAll(db, sid, rcs, ids, now);
    if |rcs| > 0 {
      var db1 := InviteOne(db, sid, rcs[0], ids[0], now);
      InviteOneAppends(db, sid, rcs[0], ids[0], now);
      InviteAllGrows(db1, sid, rcs[1..], ids[1..], now);
      InviteAllAddsInvitationsFrom(db1, sid, rcs[1..], ids[1..], now);
      assert r == InviteAll(db1, sid, rcs[1..], ids[1..], now);
      forall i | |db.invitations| <= i < |r.invitations|
        ensures InvitedFrom(r.invitations[i], sid, rcs, ids, now)
      {
        if i < |db1.invitations| {
          assert r.invitations[i] == db1.invitations[i];
          assert r.invitations[i] == Invitation(ids[0], sid, rcs[0].email, rcs[0].name, Pending, now, None);
        } else {
          assert InvitedFrom(r.invitations[i], sid, rcs[1..], ids[1..], now);
          var k :| 0 <= k < |rcs[1..]| && r.invitations[i] == Invitation(ids[1..][k], sid, rcs[1..][k].email, rcs[1..][k].name, Pending, now, None);
          assert rcs[1..][k] == rcs[k + 1] && ids[1..][k] == ids[k + 1];
        }
      }
    }
  }

  lemma {:induction false} InviteAllAddsUsersFrom(db: Db, sid: string, rcs: seq<Recipient>, ids: seq<string>, now: int)
    requires |ids| == |rcs|
    ensures var r := InviteAll(db, sid, rcs, ids, now);
      forall i :: |db.users| <= i < |r.users| ==> UserFrom(r.users[i], rcs)
    decreases |rcs|
  {
    var r := InviteAll(db, sid, rcs, ids, now);
    if |rcs| > 0 {
      var db1 := InviteOne(db, sid, rcs[0], ids[0], now);
      InviteOneAppends(db, sid, rcs[0], ids[0], now);
      InviteAllGrows(db1, sid, rcs[1..], ids[1..], now);
      InviteAllAddsUsersFrom(db1, sid, rcs[1..], ids[1..], now);
      assert r == InviteAll(db1, sid, rcs[1..], ids[1..], now);
      forall i | |db.users| <= i < |r.users|
        ensures UserFrom(r.users[i], rcs)
      {
        if i < |db1.users| {
          assert r.users[i] == db1.users[i];
          assert r.users[i] == User(rcs[0].email, rcs[0].name, false);
        } else {
          assert UserFrom(r.users[i], rcs[1..]);
          var k :| 0 <= k < |rcs[1..]| && r.users[i] == User(rcs[1..][k].email, rcs[1..][k].name, false);
          assert rcs[1..][k] == rcs[k + 1];
        }
      }
    }
  }

  /**
   * Inviting only appends: existing users and invitations are untouched, and
   * every added invitation is a pending one for `sid` built from one of the
   * recipients (likewise every added user, as a non-administrator).
   */
  lemma InviteAllOnlyAppends(db: Db, sid: string, rcs: seq<Recipient>, ids: seq<string>, now: int)
    requires |ids| == |rcs|
    ensures var r := InviteAll(db, sid, rcs, ids, now);
      && Grows(db, r)
      && (forall i :: |db.invitations| <= i < |r.invitations| ==> InvitedFrom(r.invitations[i], sid, rcs, ids, now))
      && (forall i :: |db.users| <= i < |r.users| ==> UserFrom(r.users[i], rcs))
  {
    InviteAllGrows(db, sid, rcs, ids, now);
    InviteAllAddsInvitationsFrom(db, sid, rcs, ids, now);
    InviteAllAddsUsersFrom(db, sid, rcs, ids, now);
  }

  /** After the loop every recipient is a user and invited to `sid`. */
  lemma {:induction false} InviteAllCovers(db: Db, sid: string, rcs: seq<Recipient>, ids: seq<string>, now: int)
    requires |ids| == |rcs|
    ensures var r := InviteAll(db, sid, rcs, ids, now);
      forall k :: 0 <= k < |rcs| ==> HasUser(r, rcs[k].email) && HasInvitation(r, sid, rcs[k].email)
    decreases |rcs|
  {
    if |rcs| > 0 {
      var db1 := InviteOne(db, sid, rcs[0], ids[0], now);
      var r := InviteAll(db1, sid, rcs[1..], ids[1..], now);
      assert InviteAll(db, sid, rcs, ids, now) == r;
      InviteAllCovers(db1, sid, rcs[1..], ids[1..], now);
      InviteAllGrows(db1, sid, rcs[1..], ids[1..], now);
      GrowsKeepsMembership(db1, r, sid, rcs[0].email);
      forall k | 0 <= k < |rcs|
        ensures HasUser(r, rcs[k].email) && HasInvitation(r, sid, rcs[k].email)
      {
        if k > 0 {
          assert rcs[1..][k - 1] == rcs[k];
        }
      }
    }
  }

  /** When every recipient is already a user and already invited, the loop changes nothing. */
  lemma {:induction false} InviteAllNoOp(db: Db, sid: string, rcs: seq<Recipient>, ids: seq<string>, now: int)
    requires |ids| == |rcs|
    requires forall k :: 0 <= k < |rcs| ==> HasUser(db, rcs[k].email) && HasInvitation(db, sid, rcs[k].email)
    ensures InviteAll(db, sid, rcs, ids, now) == db
    decreases |rcs|
  {
    if |rcs| > 0 {
      assert InviteOne(db, sid, rcs[0], ids[0], now) == db;
      forall k | 0 <= k < |rcs[1..]|
        ensures HasUser(db, rcs[1..][k].email) && HasInvitation(db, sid, rcs[1..][k].email)
      {
        assert rcs[1..][k] == rcs[k + 1];
      }
      InviteAllNoOp(db, sid, rcs[1..], ids[1..], now);
    }
  }

  /** One iteration keeps "at most one invitation per (survey, email)". */
  lemma InviteOneKeepsInvitationsUnique(db: Db, sid: string, rc: Recipient, id: string, now: int)
    requires UniqueInvitations(db)
    ensures UniqueInvitations(InviteOne(db, sid, rc, id, now))
  {
    var r := InviteOne(db, sid, rc, id, now);
    var n := |db.invitations|;
    if |r.invitations| > n {
      assert !HasInvitation(db, sid, rc.email);
      forall i, j | 0 <= i < j < |r.invitations|
        ensures !(r.invitations[i].surveyId == r.invitations[j].surveyId && r.invitations[i].email == r.invitations[j].email)
      {
        assert r.invitations[i] == db.invitations[i];
        if j == n {
          assert db.invitations[i] in db.invitations;
        } else {
          assert r.invitations[j] == db.invitations[j];
        }
      }
    } else {
      assert r.invitations == db.invitations;
    }
  }

  /** One iteration keeps user addresses unique. */
  lemma InviteOneKeepsUsersUnique(db: Db, sid: string, rc: Recipient, id: string, now: int)
    requires UniqueUsers(db)
    ensures UniqueUsers(InviteOne(db, sid, rc, id, now))
  {
    var r := InviteOne(db, sid, rc, id, now);
    var n := |db.users|;
    if |r.users| > n {
      assert !HasUser(db, rc.email);
      forall i, j | 0 <= i < j < |r.users|
        ensures r.users[i].email != r.users[j].email
      {
        assert r.users[i] == db.users[i];
        if j == n {
          assert db.users[i] in db.users;
        } else {
          assert r.users[j] == db.users[j];
        }
      }
    } else {
      assert r.users == db.users;
    }
  }

  /** Any recipient list keeps "at most one invitation per (survey, email)" and unique user addresses. */
  lemma {:induction false} InviteAllKeepsUniqueness(db: Db, sid: string, rcs: seq<Recipient>, ids: seq<string>, now: int)
    requires |ids| == |rcs|
    requires UniqueInvitations(db) && UniqueUsers(db)
    ensures UniqueInvitations(InviteAll(db, sid, rcs, ids, now))
    ensures UniqueUsers(InviteAll(db, sid, rcs, ids, now))
    decreases |rcs|
  {
    if |rcs| > 0 {
      InviteOneKeepsInvitationsUnique(db, sid, rcs[0], ids[0], now);
      InviteOneKeepsUsersUnique(db, sid, rcs[0], ids[0], now);
      InviteAllKeepsUniqueness(InviteOne(db, sid, rcs[0], ids[0], now), sid, rcs[1..], ids[1..], now);
    }
  }

  /**
   * The invite handler only appends; everything it adds is a pending
   * invitation to `sid` for a normalised address taken from one of the lines,
   * and the uniqueness invariants survive any input.
   */
  lemma InviteAppendsNormalizedPending(db: Db, user: Option<User>, sid: string, field: string, ids: seq<string>, now: int)
    requires |ids| == |RecipientLines(field)|
    requires Invite(db, user, sid, field, ids, now).Ok?
    requires UniqueInvitations(db) && UniqueUsers(db)
    ensures var r := Invite(db, user, sid, field, ids, now).value;
      && Grows(db, r)
      && UniqueInvitations(r) && UniqueUsers(r)
      && (forall i :: |db.invitations| <= i < |r.invitations| ==>
            && r.invitations[i].status == Pending
            && r.invitations[i].surveyId == sid
            && IsNormalized(r.invitations[i].email)
            && r.invitations[i].respondedAt == None)
      && (forall i :: |db.users| <= i < |r.users| ==> !r.users[i].isAdmin && IsNormalized(r.users[i].email))
  {
    var rcs := Recipients(field);
    var r := Invite(db, user, sid, field, ids, now).value;
    InviteAllOnlyAppends(db, sid, rcs, ids, now);
    InviteAllKeepsUniqueness(db, sid, rcs, ids, now);
    forall i | |db.invitations| <= i < |r.invitations|
      ensures IsNormalized(r.invitations[i].email)
    {
      var k :| 0 <= k < |rcs| && r.invitations[i] == Invitation(ids[k], sid, rcs[k].email, rcs[k].name, Pending, now, None);
    }
    forall i | |db.users| <= i < |r.users|
      ensures !r.users[i].isAdmin && IsNormalized(r.users[i].email)
    {
      var k :| 0 <= k < |rcs| && r.users[i] == User(rcs[k].email, rcs[k].name, false);
    }
  }

  /** Sending the same recipient block twice adds nothing the second time. */
  lemma InviteIdempotent(db: Db, user: Option<User>, sid: string, field: string, ids: seq<string>, ids2: seq<string>, now: int, later: int)
    requires |ids| == |RecipientLines(field)| && |ids2| == |RecipientLines(field)|
    requires Invite(db, user, sid, field, ids, now).Ok?
    ensures var r := Invite(db, user, sid, field, ids, now).value;
      Invite(r, user, sid, field, ids2, later) == Ok(r)
  {
    var rcs := Recipients(field);
    var r := InviteAll(db, sid, rcs, ids, now);
    InviteAllCovers(db, sid, rcs, ids, now);
    InviteAllNoOp(r, sid, rcs, ids2, later);
  }

  /** Splitting "a,b" on commas, with comma-free `a` and `b`. */
  lemma SplitPair(a: string, b: string)
    requires ',' !in a && ',' !in b
    ensures Split(a + "," + b, ',') == [a, b]
  {
    SplitJoin([a, b], ',');
    assert Join([a, b], [',']) == a + "," + b by {
      assert Join([a, b][1..], [',']) == b;
    }
  }

  /**
   * Any recipient line: the address is the text before the first comma,
   * trimmed and lower-cased; the name is the text up to the next comma, or
   * the address's local part when that is absent or empty, trimmed either way.
   */
  lemma ParseRecipientFields(line: string)
    ensures var e := NormalizeEmail(Before(line, ','));
      var nameRaw := if ',' in line then Before(line[|Before(line, ',')| + 1..], ',') else "";
      ParseRecipient(line) == Recipient(e, Trim(if nameRaw != "" then nameRaw else Before(e, '@')))
  {
    if ',' in line {
      SplitAfterFirst(line, ',');
    } else {
      SplitFree(line, ',');
    }
  }

  /** A line "email,name" with a normalised, comma-free address and a trimmed, non-empty name parses back to both. */
  lemma ParseRecipientWithName(e: string, n: string)
    requires IsNormalized(e) && ',' !in e
    requires n != "" && Trim(n) == n && ',' !in n
    ensures ParseRecipient(e + "," + n) == Recipient(e, n)
  {
    SplitPair(e, n);
    NormalizeIdempotent(e);
  }

  /** A bare address is named after its local part. */
  lemma ParseRecipientDefaultName(e: string)
    requires IsNormalized(e) && ',' !in e
    ensures ParseRecipient(e) == Recipient(e, Trim(Before(e, '@')))
  {
    SplitFree(e, ',');
    NormalizeIdempotent(e);
  }

  /** An address followed by an empty name field is also named after its local part. */
  lemma ParseRecipientEmptyName(e: string)
    requires IsNormalized(e) && ',' !in e
    ensures ParseRecipient(e + ",") == Recipient(e, Trim(Before(e, '@')))
  {
    SplitPair(e, "");
    assert e + "," + "" == e + ",";
    NormalizeIdempotent(e);
  }

  /** A field holding one normalised address has that address as its only recipient line. */
  lemma OneAddressField(e: string)
    requires IsNormalized(e) && e != "" && '\n' !in e
    ensures RecipientLines(e) == [e]
  {
    SplitFree(e, '\n');
    assert Map([e], Trim) == [e];
    FilterKeepsAll([e], IsFilled());
  }

  /** A field with a single recipient line names the recipient that line parses to. */
  lemma OneLineRecipients(field: string)
    requires |RecipientLines(field)| == 1
    ensures Recipients(field) == [ParseRecipient(RecipientLines(field)[0])]
  {
  }

  /** Such a field invites one recipient, named after the address's local part. */
  lemma OneAddressRecipient(e: string)
    requires IsNormalized(e) && e != "" && '\n' !in e && ',' !in e
    ensures Recipients(e) == [Recipient(e, Trim(Before(e, '@')))]
  {
    OneAddressField(e);
    OneLineRecipients(e);
    ParseRecipientDefaultName(e);
  }
}
