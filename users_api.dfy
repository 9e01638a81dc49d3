/**
 * The users router: `POST /request_otp` normalises the phone number in the
 * request body, then gets or creates the user with that number.
 * `POST /verify_otp` does nothing.
 *
 * `phone_utils.format` is a parameter `normalize`: it returns the E.164 form
 * of a phone number, or `None` where the phone-number library rejects it.
 * The id the database would give a new user is a parameter too.
 */
module UsersApi {
  import opened Wrappers
  import opened UserModels

  /** The validated request body. */
  datatype CreateOtpRequest = CreateOtpRequest(phoneNumber: string)

  /** The (empty) response body. */
  datatype CreateOtpResponse = CreateOtpResponse

  /**
   * Building the request body runs the `pre=True` validator on the raw
   * value, so the stored phone number is the normalised one; a value the
   * validator rejects yields no request (the framework refuses the call).
   */
  function ValidateCreateOtpRequest(raw: string, normalize: string -> Option<string>): (r: Option<CreateOtpRequest>)
    ensures r.None? <==> normalize(raw).None?
    ensures r.Some? ==> r.value.phoneNumber == normalize(raw).value
  {
    match normalize(raw)
    case None => None
    case Some(p) => Some(CreateOtpRequest(p))
  }

  /** `db.query(User).filter(User.phone_number == phone).first()`, in table order. */
  method FindUserByPhone(users: seq<User>, phone: string) returns (found: Option<User>)
    ensures found.None? <==> forall j :: 0 <= j < |users| ==> users[j].phoneNumber != phone
    ensures found.Some? ==> exists i :: 0 <= i < |users| && users[i] == found.value &&
                              found.value.phoneNumber == phone &&
                              forall j :: 0 <= j < i ==> users[j].phoneNumber != phone
  {
    var i := 0;
    while i < |users|
      invariant 0 <= i <= |users|
      invariant forall j :: 0 <= j < i ==> users[j].phoneNumber != phone
    {
      if users[i].phoneNumber == phone {
        return Some(users[i]);
      }
      i := i + 1;
    }
    return None;
  }

  predicate HasPhone(users: seq<User>, phone: string)
  {
    exists i :: 0 <= i < |users| && users[i].phoneNumber == phone
  }

  /** The `users` table after the get-or-create for `phone`; a new user is PENDING, not NEW. */
  function GetOrCreateUser(users: seq<User>, phone: string, newId: Id): (r: seq<User>)
    ensures |r| >= |users| && r[..|users|] == users
    ensures HasPhone(r, phone)
  {
    if HasPhone(users, phone) then users
    else
      var r := users + [User(newId, phone, UserStatus.Pending)];
      assert r[|users|].phoneNumber == phone;
      r
  }

  /**
   * An existing user with that phone number leaves the table unchanged;
   * otherwise exactly one user is appended, with that number and status
   * PENDING.
   */
  lemma GetOrCreateUserRows(users: seq<User>, phone: string, newId: Id)
    ensures HasPhone(users, phone) ==> GetOrCreateUser(users, phone, newId) == users
    ensures !HasPhone(users, phone) ==>
      |GetOrCreateUser(users, phone, newId)| == |users| + 1 &&
      GetOrCreateUser(users, phone, newId)[|users|] == User(newId, phone, UserStatus.Pending)
  {
  }

  /** A second get-or-create for the same number changes nothing. */
  lemma GetOrCreateUserIdempotent(users: seq<User>, phone: string, newId: Id, otherId: Id)
    ensures var once := GetOrCreateUser(users, phone, newId);
            GetOrCreateUser(once, phone, otherId) == once
  {
  }

  /** The get-or-create keeps the constraints of `users` when the new id is fresh. */
  lemma GetOrCreateUserValid(users: seq<User>, phone: string, newId: Id)
    requires UsersValid(users) && newId !in UserIds(users)
    ensures UsersValid(GetOrCreateUser(users, phone, newId))
    ensures UserIds(users) <= UserIds(GetOrCreateUser(users, phone, newId))
  {
  }

  /** Afterwards exactly one user has the phone number. */
  lemma {:induction false} GetOrCreateUserUnique(users: seq<User>, phone: string, newId: Id)
    requires UsersValid(users) && newId !in UserIds(users)
    ensures CountPhone(GetOrCreateUser(users, phone, newId), phone) == 1
  {
    var r := GetOrCreateUser(users, phone, newId);
    GetOrCreateUserValid(users, phone, newId);
    CountPhoneUnique(r, phone);
  }

  /** Every OTP request keeps a user to refer to. */
  lemma GetOrCreateUserKeepsOtps(otps: seq<OtpRequest>, users: seq<User>, phone: string, newId: Id)
    requires OtpsValid(otps, users) && UsersValid(users) && newId !in UserIds(users)
    ensures OtpsValid(otps, GetOrCreateUser(users, phone, newId))
    ensures OtpsValidIntended(otps, users) ==> OtpsValidIntended(otps, GetOrCreateUser(users, phone, newId))
  {
  }

  /**
   * `create_otp(request, db)`: look the user up by the normalised number and
   * add them if absent. No OTP request is created.
   */
  method CreateOtp(request: CreateOtpRequest, db: Db, newId: Id) returns (response: CreateOtpResponse)
    requires db.Valid() && newId !in UserIds(db.users)
    modifies db
    ensures db.Valid()
    ensures old(db.ValidIntended()) ==> db.ValidIntended()
    ensures db.users == GetOrCreateUser(old(db.users), request.phoneNumber, newId)
    ensures db.otpRequests == old(db.otpRequests)
  {
    var phone := request.phoneNumber;
    GetOrCreateUserKeepsOtps(db.otpRequests, db.users, phone, newId);
    var user := FindUserByPhone(db.users, phone);
    if user.None? {
      user := Some(User(newId, phone, UserStatus.Pending));
      db.users := db.users + [user.value];
    }
    response := CreateOtpResponse;
  }

  /**
   * The whole call: validation of the body, then the handler. A number the
   * normaliser rejects is refused with the database untouched.
   */
  method RequestOtp(raw: string, normalize: string -> Option<string>, db: Db, newId: Id)
    returns (response: Option<CreateOtpResponse>)
    requires db.Valid() && newId !in UserIds(db.users)
    modifies db
    ensures db.Valid()
    ensures response.None? <==> normalize(raw).None?
    ensures normalize(raw).None? ==> db.users == old(db.users)
    ensures normalize(raw).Some? ==> db.users == GetOrCreateUser(old(db.users), normalize(raw).value, newId)
    ensures db.otpRequests == old(db.otpRequests)
  {
    var request := ValidateCreateOtpRequest(raw, normalize);
    if request.None? {
      return None;
    }
    var r := CreateOtp(request.value, db, newId);
    response := Some(r);
  }

  /** `verify_otp()`: no input, no effect, and a `None` result. */
  function VerifyOtp(): (r: Option<()>)
    ensures r.None?
  {
    None
  }
}
