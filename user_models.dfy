/**
 * The `users` and `otp_requests` tables: their rows, the status enums, and
 * the constraints the schema declares, stated as table invariants.
 *
 * Row ids are database-generated UUIDs; here they are natural numbers chosen
 * by the caller. Timestamps are integers counting microseconds.
 */
module UserModels {
  import opened Wrappers
  import opened StringUtils
  import opened CoreModels

  type Id = nat
  type Timestamp = int

  /** `User.Status`. */
  datatype UserStatus = New | Pending | Complete
  {
    /** The member's name in the source. */
    function Name(): string
    {
      match this
      case New => "NEW"
      case Pending => "PENDING"
      case Complete => "COMPLETE"
    }

    /** The member's string value, which is what the column stores: its name in lower case. */
    function Value(): (v: string)
      ensures v == Lower(Name())
    {
      match this
      case New => "new"
      case Pending => "pending"
      case Complete => "complete"
    }

    function Member(): EnumMember
    {
      EnumMember(Name(), Value())
    }
  }

  /** `OtpRequest.Status`. */
  datatype OtpStatus = Pending | Expired
  {
    function Name(): string
    {
      match this
      case Pending => "PENDING"
      case Expired => "EXPIRED"
    }

    function Value(): (v: string)
      ensures v == Lower(Name())
    {
      match this
      case Pending => "pending"
      case Expired => "expired"
    }

    function Member(): EnumMember
    {
      EnumMember(Name(), Value())
    }
  }

  /** The members of `User.Status` in declaration order. */
  const UserStatusMembers: seq<EnumMember> := [UserStatus.New.Member(), UserStatus.Pending.Member(), UserStatus.Complete.Member()]

  /** The members of `OtpRequest.Status` in declaration order. */
  const OtpStatusMembers: seq<EnumMember> := [OtpStatus.Pending.Member(), OtpStatus.Expired.Member()]

  /** Reading a stored `users.status` string back. */
  function UserStatusFromValue(v: string): (r: Option<UserStatus>)
    ensures r.Some? ==> r.value.Value() == v
    ensures r.None? ==> v != "new" && v != "pending" && v != "complete"
  {
    if v == "new" then Some(UserStatus.New)
    else if v == "pending" then Some(UserStatus.Pending)
    else if v == "complete" then Some(UserStatus.Complete)
    else None
  }

  /** Reading a stored `otp_requests.status` string back. */
  function OtpStatusFromValue(v: string): (r: Option<OtpStatus>)
    ensures r.Some? ==> r.value.Value() == v
    ensures r.None? ==> v != "pending" && v != "expired"
  {
    if v == "pending" then Some(OtpStatus.Pending)
    else if v == "expired" then Some(OtpStatus.Expired)
    else None
  }

  lemma UserStatusRoundTrip(s: UserStatus)
    ensures UserStatusFromValue(s.Value()) == Some(s)
  {
  }

  lemma OtpStatusRoundTrip(s: OtpStatus)
    ensures OtpStatusFromValue(s.Value()) == Some(s)
  {
  }

  /**
   * The `users.status` column stores exactly the strings `"new"`, `"pending"`,
   * `"complete"`, as a non-native enum, and each reads back as its member.
   */
  lemma UserStatusColumn()
    ensures EnumColumn(UserStatusMembers) == EnumColumnType(["new", "pending", "complete"], false)
    ensures DistinctValues(UserStatusMembers)
    ensures forall s: UserStatus :: s.Value() in EnumColumn(UserStatusMembers).values
  {
  }

  /**
   * The `otp_requests.status` column stores exactly `"pending"` and
   * `"expired"`, as a non-native enum.
   */
  lemma OtpStatusColumn()
    ensures EnumColumn(OtpStatusMembers) == EnumColumnType(["pending", "expired"], false)
    ensures DistinctValues(OtpStatusMembers)
    ensures forall s: OtpStatus :: s.Value() in EnumColumn(OtpStatusMembers).values
  {
  }

  /** A row of `users`. */
  datatype User = User(id: Id, phoneNumber: string, status: UserStatus)

  /**
   * A row of `otp_requests`, or a request object not yet stored: its id is
   * assigned by the database on insert, so an object never inserted has none.
   */
  datatype OtpRequest = OtpRequest(id: Option<Id>, userId: Id, code: string, status: OtpStatus, expiresAt: Timestamp)

  // ---------------------------------------------------------------------
  // Constraints of the `users` table.
  // ---------------------------------------------------------------------

  function UserIds(users: seq<User>): (ids: set<Id>)
    ensures forall i :: 0 <= i < |users| ==> users[i].id in ids
    ensures forall id :: id in ids ==> exists i :: 0 <= i < |users| && users[i].id == id
  {
    set i | 0 <= i < |users| :: users[i].id
  }

  /** The primary key. */
  predicate UniqueUserIds(users: seq<User>)
  {
    forall i, j :: 0 <= i < j < |users| ==> users[i].id != users[j].id
  }

  /** `phone_number` is declared unique. */
  predicate UniquePhoneNumbers(users: seq<User>)
  {
    forall i, j :: 0 <= i < j < |users| ==> users[i].phoneNumber != users[j].phoneNumber
  }

  predicate UsersValid(users: seq<User>)
  {
    UniqueUserIds(users) && UniquePhoneNumbers(users)
  }

  /** How many users have the phone number `phone`. */
  function CountPhone(users: seq<User>, phone: string): (n: nat)
    ensures n <= |users|
  {
    if users == [] then 0
    else (if users[0].phoneNumber == phone then 1 else 0) + CountPhone(users[1..], phone)
  }

  lemma {:induction false} CountPhoneZero(users: seq<User>, phone: string)
    requires forall i :: 0 <= i < |users| ==> users[i].phoneNumber != phone
    ensures CountPhone(users, phone) == 0
  {
    if users != [] {
      CountPhoneZero(users[1..], phone);
    }
  }

  /** Under the unique index, a phone number that occurs at all occurs exactly once. */
  lemma {:induction false} CountPhoneUnique(users: seq<User>, phone: string)
    requires UniquePhoneNumbers(users)
    ensures CountPhone(users, phone) == (if exists i :: 0 <= i < |users| && users[i].phoneNumber == phone then 1 else 0)
  {
    if users == [] {
    } else if users[0].phoneNumber == phone {
      CountPhoneZero(users[1..], phone);
    } else {
      var rest := users[1..];
      assert UniquePhoneNumbers(rest) by {
        forall a, b | 0 <= a < b < |rest| ensures rest[a].phoneNumber != rest[b].phoneNumber {
          assert users[a + 1].phoneNumber != users[b + 1].phoneNumber;
        }
      }
      CountPhoneUnique(rest, phone);
      assert (exists i :: 0 <= i < |users| && users[i].phoneNumber == phone)
        <==> (exists i :: 0 <= i < |rest| && rest[i].phoneNumber == phone) by {
        forall i | 0 < i < |users| ensures users[i] == rest[i - 1] { }
      }
    }
  }

  // ---------------------------------------------------------------------
  // Constraints of the `otp_requests` table.
  // ---------------------------------------------------------------------

  /** Stored rows have distinct ids (the primary key). */
  predicate UniqueOtpIds(otps: seq<OtpRequest>)
  {
    (forall i :: 0 <= i < |otps| ==> otps[i].id.Some?) &&
    forall i, j :: 0 <= i < j < |otps| ==> otps[i].id != otps[j].id
  }

  /** `user_id` is a foreign key to `users.id`. */
  predicate OtpUsersExist(otps: seq<OtpRequest>, users: seq<User>)
  {
    forall i :: 0 <= i < |otps| ==> otps[i].userId in UserIds(users)
  }

  predicate IsPending(r: OtpRequest) { r.status == OtpStatus.Pending }

  /**
   * The partial unique index as it is declared: its first argument is the
   * index's name, so the only column is `status`, and among the rows where
   * `status` is pending no two may be equal there. At most one row of the
   * whole table is pending.
   */
  predicate AtMostOnePending(otps: seq<OtpRequest>)
  {
    forall i, j :: 0 <= i < j < |otps| && IsPending(otps[i]) ==> !IsPending(otps[j])
  }

  /** The index the declaration evidently intends: one pending request per user. */
  predicate AtMostOnePendingPerUser(otps: seq<OtpRequest>)
  {
    forall i, j :: 0 <= i < j < |otps| && IsPending(otps[i]) && IsPending(otps[j]) ==> otps[i].userId != otps[j].userId
  }

  /** The constraints of `otp_requests` as declared. */
  predicate OtpsValid(otps: seq<OtpRequest>, users: seq<User>)
  {
    UniqueOtpIds(otps) && OtpUsersExist(otps, users) && AtMostOnePending(otps)
  }

  /** The constraints of `otp_requests` with the intended per-user index. */
  predicate OtpsValidIntended(otps: seq<OtpRequest>, users: seq<User>)
  {
    UniqueOtpIds(otps) && OtpUsersExist(otps, users) && AtMostOnePendingPerUser(otps)
  }

  /** How many pending requests the user `uid` has. */
  function CountPending(otps: seq<OtpRequest>, uid: Id): (n: nat)
    ensures n <= |otps|
  {
    if otps == [] then 0
    else (if IsPending(otps[0]) && otps[0].userId == uid then 1 else 0) + CountPending(otps[1..], uid)
  }

  lemma {:induction false} CountPendingZero(otps: seq<OtpRequest>, uid: Id)
    requires forall i :: 0 <= i < |otps| ==> !(IsPending(otps[i]) && otps[i].userId == uid)
    ensures CountPending(otps, uid) == 0
  {
    if otps != [] {
      CountPendingZero(otps[1..], uid);
    }
  }

  lemma {:induction false} CountPendingAppend(otps: seq<OtpRequest>, r: OtpRequest, uid: Id)
    ensures CountPending(otps + [r], uid) == CountPending(otps, uid) + (if IsPending(r) && r.userId == uid then 1 else 0)
  {
    if otps == [] {
      assert otps + [r] == [r];
    } else {
      assert (otps + [r])[1..] == otps[1..] + [r];
      CountPendingAppend(otps[1..], r, uid);
    }
  }

  /** The index as declared allows each user at most one pending request. */
  lemma {:induction false} AtMostOnePendingPerUserCount(otps: seq<OtpRequest>, uid: Id)
    requires AtMostOnePending(otps)
    ensures CountPending(otps, uid) <= 1
  {
    if otps != [] {
      var rest := otps[1..];
      if IsPending(otps[0]) {
        assert forall i :: 0 <= i < |rest| ==> !IsPending(rest[i]) by {
          forall i | 0 <= i < |rest| ensures !IsPending(rest[i]) {
            assert rest[i] == otps[i + 1];
          }
        }
        CountPendingZero(rest, uid);
      } else {
        assert AtMostOnePending(rest) by {
          forall a, b | 0 <= a < b < |rest| && IsPending(rest[a]) ensures !IsPending(rest[b]) {
            assert rest[a] == otps[a + 1] && rest[b] == otps[b + 1];
          }
        }
        AtMostOnePendingPerUserCount(rest, uid);
      }
    }
  }

  /** The declared index implies the intended one. */
  lemma GlobalImpliesPerUser(otps: seq<OtpRequest>)
    requires AtMostOnePending(otps)
    ensures AtMostOnePendingPerUser(otps)
  {
  }

  /** The converse fails: two users with one pending request each break the declared index. */
  lemma PerUserAllowsTwoPending()
    ensures var otps := [OtpRequest(Some(0), 0, "000000", OtpStatus.Pending, 0),
                         OtpRequest(Some(1), 1, "000000", OtpStatus.Pending, 0)];
            AtMostOnePendingPerUser(otps) && !AtMostOnePending(otps)
  {
    var otps := [OtpRequest(Some(0), 0, "000000", OtpStatus.Pending, 0),
                 OtpRequest(Some(1), 1, "000000", OtpStatus.Pending, 0)];
    assert IsPending(otps[0]) && IsPending(otps[1]);
  }

  /**
   * The session's view of the two tables. The ORM queries and the bulk
   * update read and write these rows; `Valid` is the schema's constraints.
   */
  class Db {
    var users: seq<User>
    var otpRequests: seq<OtpRequest>

    /** The constraints as declared. */
    ghost predicate Valid()
      reads this
    {
      UsersValid(users) && OtpsValid(otpRequests, users)
    }

    /** The constraints with the intended per-user pending index. */
    ghost predicate ValidIntended()
      reads this
    {
      UsersValid(users) && OtpsValidIntended(otpRequests, users)
    }

    /** An empty database. */
    constructor ()
      ensures users == [] && otpRequests == []
      ensures Valid() && ValidIntended()
    {
      users := [];
      otpRequests := [];
    }
  }
}
