/**
 * `Service.create_otp_request`: expire every OTP request of a user with one
 * bulk update, then build a fresh pending request with a six-digit code that
 * expires ten minutes from `now`.
 *
 * The current time and the six random digits are parameters. The update and
 * the construction happen inside one transaction and are one atomic step here.
 */
module Services {
  import opened Wrappers
  import opened UserModels

  /** `timedelta(minutes=10)` in microseconds. */
  const OtpLifetime: int := 600_000_000

  /** The number of digits in a code: `range(6)`. */
  const CodeLength: nat := 6

  /** A value of `random.randint(0, 9)`: both bounds are included. */
  type Digit = d: int | 0 <= d <= 9

  /** `str(d)` for a single digit. */
  function DigitChar(d: Digit): (c: char)
    ensures '0' <= c <= '9'
    ensures c as int - '0' as int == d
  {
    ('0' as int + d) as char
  }

  /** `"".join(str(d) for d in digits)`. */
  function CodeOf(digits: seq<Digit>): (code: string)
    ensures |code| == |digits|
    ensures forall i :: 0 <= i < |digits| ==> code[i] == DigitChar(digits[i])
  {
    seq(|digits|, i requires 0 <= i < |digits| => DigitChar(digits[i]))
  }

  /** Reading a code back into its digits; `None` when a character is not a decimal digit. */
  function ParseCode(code: string): (r: Option<seq<Digit>>)
    ensures r.Some? ==> |r.value| == |code|
    ensures r.None? <==> exists i :: 0 <= i < |code| && !('0' <= code[i] <= '9')
  {
    if forall i :: 0 <= i < |code| ==> '0' <= code[i] <= '9' then
      Some(seq(|code|, i requires 0 <= i < |code| && '0' <= code[i] <= '9' => code[i] as int - '0' as int))
    else None
  }

  /** A code reads back as the digits it was made of, so no digit is lost or changed. */
  lemma CodeRoundTrip(digits: seq<Digit>)
    ensures ParseCode(CodeOf(digits)) == Some(digits)
  {
    var code := CodeOf(digits);
    assert forall i :: 0 <= i < |code| ==> '0' <= code[i] <= '9';
    var back := ParseCode(code).value;
    assert forall i :: 0 <= i < |digits| ==> back[i] == digits[i];
    assert back == digits;
  }

  /** A string of decimal digits is the code of what it reads back as. */
  lemma ParseCodeRoundTrip(code: string)
    requires ParseCode(code).Some?
    ensures CodeOf(ParseCode(code).value) == code
  {
  }

  /** Leading zeros are kept: a code is always six characters long. */
  lemma CodeKeepsLeadingZeros()
    ensures CodeOf([0, 0, 7, 0, 0, 1]) == "007001"
  {
  }

  /** The request `create_otp_request` builds and returns; the database never assigned it an id. */
  function NewOtpRequest(userId: Id, now: Timestamp, digits: seq<Digit>): (r: OtpRequest)
    requires |digits| == CodeLength
    ensures r.id.None? && r.userId == userId && r.status == OtpStatus.Pending
    ensures r.expiresAt == now + OtpLifetime
    ensures |r.code| == CodeLength && forall i :: 0 <= i < |r.code| ==> '0' <= r.code[i] <= '9'
    ensures ParseCode(r.code) == Some(digits)
  {
    CodeRoundTrip(digits);
    OtpRequest(None, userId, CodeOf(digits), OtpStatus.Pending, now + OtpLifetime)
  }

  // ---------------------------------------------------------------------
  // The bulk update.
  // ---------------------------------------------------------------------

  /** One row under `UPDATE ... SET status = 'expired' WHERE user_id = uid`. */
  function ExpireRow(row: OtpRequest, uid: Id): (r: OtpRequest)
    ensures row.userId == uid ==> r.status == OtpStatus.Expired
    ensures row.userId != uid ==> r == row
    ensures r == row.(status := r.status)
  {
    if row.userId == uid then row.(status := OtpStatus.Expired) else row
  }

  /** The table after the bulk update for user `uid`. */
  function ExpireAll(otps: seq<OtpRequest>, uid: Id): (r: seq<OtpRequest>)
    ensures |r| == |otps|
  {
    seq(|otps|, i requires 0 <= i < |otps| => ExpireRow(otps[i], uid))
  }

  /**
   * After the update every row of `uid` is expired, including rows that were
   * expired already; rows of other users are unchanged; and a row of `uid`
   * differs from before in its status alone.
   */
  lemma ExpireAllRows(otps: seq<OtpRequest>, uid: Id, i: nat)
    requires i < |otps|
    ensures otps[i].userId == uid ==> ExpireAll(otps, uid)[i].status == OtpStatus.Expired
    ensures otps[i].userId != uid ==> ExpireAll(otps, uid)[i] == otps[i]
    ensures ExpireAll(otps, uid)[i] == otps[i].(status := ExpireAll(otps, uid)[i].status)
  {
  }

  /** After the update the user has no pending request. */
  lemma {:induction false} ExpireAllNoPending(otps: seq<OtpRequest>, uid: Id)
    ensures CountPending(ExpireAll(otps, uid), uid) == 0
  {
    var r := ExpireAll(otps, uid);
    assert forall i :: 0 <= i < |r| ==> !(IsPending(r[i]) && r[i].userId == uid) by {
      forall i | 0 <= i < |r| ensures !(IsPending(r[i]) && r[i].userId == uid) {
        ExpireAllRows(otps, uid, i);
      }
    }
    CountPendingZero(r, uid);
  }

  /** Running the update twice is the same as running it once. */
  lemma ExpireAllIdempotent(otps: seq<OtpRequest>, uid: Id)
    ensures ExpireAll(ExpireAll(otps, uid), uid) == ExpireAll(otps, uid)
  {
  }

  /** The other users' pending counts do not change. */
  lemma {:induction false} ExpireAllOtherCounts(otps: seq<OtpRequest>, uid: Id, other: Id)
    requires other != uid
    ensures CountPending(ExpireAll(otps, uid), other) == CountPending(otps, other)
  {
    if otps != [] {
      assert ExpireAll(otps, uid)[1..] == ExpireAll(otps[1..], uid);
      ExpireAllOtherCounts(otps[1..], uid, other);
    }
  }

  /**
   * The update keeps every constraint of the table, as declared and as
   * intended: it changes no id or user, and only ever turns a row non-pending.
   */
  lemma ExpireAllValid(otps: seq<OtpRequest>, users: seq<User>, uid: Id)
    ensures OtpsValid(otps, users) ==> OtpsValid(ExpireAll(otps, uid), users)
    ensures OtpsValidIntended(otps, users) ==> OtpsValidIntended(ExpireAll(otps, uid), users)
  {
    var r := ExpireAll(otps, uid);
    assert forall i :: 0 <= i < |r| ==> r[i].id == otps[i].id && r[i].userId == otps[i].userId;
    assert forall i :: 0 <= i < |r| && IsPending(r[i]) ==> IsPending(otps[i]);
  }

  // ---------------------------------------------------------------------
  // Appending the request: the evidently intended behaviour.
  // ---------------------------------------------------------------------

  /** Inserting a pending row with a fresh id, for a user with no pending row, keeps the intended constraints. */
  lemma AppendValidIntended(e: seq<OtpRequest>, users: seq<User>, r: OtpRequest)
    requires OtpsValidIntended(e, users)
    requires r.id.Some? && forall i :: 0 <= i < |e| ==> e[i].id != r.id
    requires r.userId in UserIds(users)
    requires forall i :: 0 <= i < |e| && IsPending(e[i]) ==> e[i].userId != r.userId
    ensures OtpsValidIntended(e + [r], users)
  {
  }

  /**
   * Expiring the user's requests and then inserting a pending one for them,
   * with a fresh id, keeps the intended constraints and leaves the user with
   * exactly one pending request.
   */
  lemma {:induction false} IssueValidIntended(otps: seq<OtpRequest>, users: seq<User>, r: OtpRequest)
    requires OtpsValidIntended(otps, users)
    requires r.id.Some? && forall i :: 0 <= i < |otps| ==> otps[i].id != r.id
    requires r.userId in UserIds(users) && IsPending(r)
    ensures OtpsValidIntended(ExpireAll(otps, r.userId) + [r], users)
    ensures CountPending(ExpireAll(otps, r.userId) + [r], r.userId) == 1
  {
    var e := ExpireAll(otps, r.userId);
    ExpireAllValid(otps, users, r.userId);
    assert forall i :: 0 <= i < |e| ==> e[i].id == otps[i].id;
    assert forall i :: 0 <= i < |e| && IsPending(e[i]) ==> e[i].userId != r.userId;
    AppendValidIntended(e, users, r);
    ExpireAllNoPending(otps, r.userId);
    CountPendingAppend(e, r, r.userId);
  }

  /**
   * The declared index refuses that insert whenever another user already has
   * a pending request.
   */
  lemma DeclaredIndexRejectsIssue(otps: seq<OtpRequest>, r: OtpRequest, j: nat)
    requires j < |otps| && IsPending(otps[j]) && otps[j].userId != r.userId && IsPending(r)
    ensures !AtMostOnePending(ExpireAll(otps, r.userId) + [r])
  {
    var t := ExpireAll(otps, r.userId) + [r];
    assert t[j] == otps[j];
    assert t[|otps|] == r;
  }

  /** Holds the database session. */
  class Service {
    const db: Db

    constructor (db: Db)
      ensures this.db == db
    {
      this.db := db;
    }

    /**
     * `update(OtpRequest).where(OtpRequest.user_id == uid).values(status=EXPIRED)`,
     * row by row.
     */
    method ExpireRequestsOf(uid: Id)
      modifies db
      ensures db.users == old(db.users)
      ensures db.otpRequests == ExpireAll(old(db.otpRequests), uid)
    {
      var i := 0;
      while i < |db.otpRequests|
        invariant 0 <= i <= |db.otpRequests| == |old(db.otpRequests)|
        invariant db.users == old(db.users)
        invariant forall k :: 0 <= k < i ==> db.otpRequests[k] == ExpireRow(old(db.otpRequests)[k], uid)
        invariant forall k :: i <= k < |db.otpRequests| ==> db.otpRequests[k] == old(db.otpRequests)[k]
      {
        if db.otpRequests[i].userId == uid {
          db.otpRequests := db.otpRequests[i := db.otpRequests[i].(status := OtpStatus.Expired)];
        }
        i := i + 1;
      }
    }

    /**
     * `create_otp_request(user, now)` as written: the user's requests are
     * expired and a new pending request is returned, but it is never added
     * to the session, so the table keeps its size.
     */
    method CreateOtpRequest(user: User, now: Timestamp, digits: seq<Digit>) returns (r: OtpRequest)
      requires db.Valid() && |digits| == CodeLength
      modifies db
      ensures db.Valid()
      ensures db.users == old(db.users)
      ensures db.otpRequests == ExpireAll(old(db.otpRequests), user.id)
      ensures |db.otpRequests| == |old(db.otpRequests)|
      ensures r == NewOtpRequest(user.id, now, digits)
    {
      ExpireRequestsOf(user.id);
      ExpireAllValid(old(db.otpRequests), db.users, user.id);
      r := NewOtpRequest(user.id, now, digits);
    }

    /**
     * The same operation with the request added to the session, as evidently
     * intended: the database gives it the fresh id `newId`.
     */
    method IssueOtpRequest(user: User, now: Timestamp, digits: seq<Digit>, newId: Id) returns (r: OtpRequest)
      requires db.ValidIntended() && |digits| == CodeLength
      requires user.id in UserIds(db.users)
      requires forall i :: 0 <= i < |db.otpRequests| ==> db.otpRequests[i].id != Some(newId)
      modifies db
      ensures db.ValidIntended()
      ensures db.users == old(db.users)
      ensures r == NewOtpRequest(user.id, now, digits).(id := Some(newId))
      ensures db.otpRequests == ExpireAll(old(db.otpRequests), user.id) + [r]
      ensures CountPending(db.otpRequests, user.id) == 1
    {
      ExpireRequestsOf(user.id);
      r := NewOtpRequest(user.id, now, digits).(id := Some(newId));
      IssueValidIntended(old(db.otpRequests), db.users, r);
      db.otpRequests := db.otpRequests + [r];
    }
  }
}
