/**
 * The declarative base of the ORM models: the table name every model class
 * gets, the foreign-key column type (a `"table.column"` target string with
 * cascades) and the enum column type (stored as the members' values).
 * A model class is represented by its class name.
 */
module CoreModels {
  import opened Wrappers
  import opened StringUtils

  /** `Base.__tablename__`: the plural of the snake-case class name. */
  function TableName(className: string): (r: string)
    ensures r == Plural(CamelToSnake(className))
    ensures NoUpper(r) && r[|r| - 1] == 's'
    ensures RemoveUnderscores(r) == RemoveUnderscores(Lower(className)) + "s"
  {
    var snake := CamelToSnake(className);
    CamelToSnakeOnlyInsertsUnderscores(className);
    RemoveUnderscoresConcat(snake, "s");
    Plural(snake)
  }

  /** `legacy_pk_field_name or "id"`: a missing or empty name falls back to `"id"`. */
  function PkFieldName(legacy: Option<string>): (r: string)
    ensures legacy.Some? && legacy.value != [] ==> r == legacy.value
    ensures legacy.None? || legacy.value == [] ==> r == "id"
    ensures r != []
  {
    if legacy.Some? && legacy.value != [] then legacy.value else "id"
  }

  /** What the wrapped `ForeignKey` hands to the ORM: a target column and two cascades. */
  datatype ForeignKeySpec = ForeignKeySpec(target: string, onUpdate: string, onDelete: string)

  /** `ForeignKey(to, legacy_pk_field_name)`, where `to` is the referenced class's name. */
  function ForeignKey(to: string, legacy: Option<string>): (fk: ForeignKeySpec)
    ensures fk.target == TableName(to) + ("." + PkFieldName(legacy))
    ensures fk.onUpdate == "CASCADE" && fk.onDelete == "CASCADE"
  {
    ForeignKeySpec(TableName(to) + ("." + PkFieldName(legacy)), "CASCADE", "CASCADE")
  }

  /** Index of the last occurrence of `c` in `s`, if any. */
  function LastIndexOf(s: string, c: char): (r: Option<nat>)
    ensures r.Some? ==> r.value < |s| && s[r.value] == c && forall j :: r.value < j < |s| ==> s[j] != c
    ensures r.None? ==> c !in s
  {
    if s == [] then None
    else if s[|s| - 1] == c then Some(|s| - 1)
    else LastIndexOf(s[..|s| - 1], c)
  }

  /**
   * How a `"table.column"` target string is read back: the column is what
   * follows the last `'.'`, the table what precedes it.
   */
  function TargetParts(target: string): (r: Option<(string, string)>)
    ensures r.None? <==> '.' !in target
    ensures r.Some? ==> target == r.value.0 + ("." + r.value.1) && '.' !in r.value.1
  {
    match LastIndexOf(target, '.')
    case None => None
    case Some(k) =>
      assert target == target[..k] + ("." + target[k + 1..]);
      Some((target[..k], target[k + 1..]))
  }

  /** Splitting `a.b` at its last `'.'` gives back `a` and `b` when neither holds a `'.'`. */
  lemma {:induction false} TargetPartsOfJoin(a: string, b: string)
    requires '.' !in a && '.' !in b
    ensures TargetParts(a + ("." + b)) == Some((a, b))
  {
    var target := a + ("." + b);
    assert target[|a|] == '.';
    var k := LastIndexOf(target, '.');
    assert k.Some?;
    assert target[..|a|] == a;
    assert target[|a| + 1..] == b;
  }

  /** A table name contains a `'.'` only if the class name does. */
  lemma {:induction false} TableNameDots(className: string)
    ensures '.' in TableName(className) <==> '.' in className
  {
    var snake := CamelToSnake(className);
    CamelToSnakeKeepsOtherChars(className, '.');
    assert TableName(className) == snake + "s";
  }

  /**
   * The target of a foreign key names the referenced table and the primary-key
   * column, and splitting it at its last `'.'` recovers both.
   */
  lemma {:induction false} ForeignKeyTargetParts(to: string, legacy: Option<string>)
    requires '.' !in to && (legacy.Some? ==> '.' !in legacy.value)
    ensures TargetParts(ForeignKey(to, legacy).target) == Some((TableName(to), PkFieldName(legacy)))
  {
    TableNameDots(to);
    assert '.' !in PkFieldName(legacy);
    TargetPartsOfJoin(TableName(to), PkFieldName(legacy));
  }

  // ---------------------------------------------------------------------
  // Enum columns.
  // ---------------------------------------------------------------------

  /** One member of a Python `StrEnum`: its name and its string value. */
  datatype EnumMember = EnumMember(name: string, value: string)

  /** The column type the wrapped `Enum` builds: the stored strings, and whether the database's own enum type is used. */
  datatype EnumColumnType = EnumColumnType(values: seq<string>, nativeEnum: bool)

  /** `Enum(E)`: the members' values in declaration order, as a non-native enum. */
  function EnumColumn(members: seq<EnumMember>): (t: EnumColumnType)
    ensures !t.nativeEnum
    ensures |t.values| == |members|
    ensures forall i :: 0 <= i < |members| ==> t.values[i] == members[i].value
  {
    EnumColumnType(seq(|members|, i requires 0 <= i < |members| => members[i].value), false)
  }

  predicate DistinctValues(members: seq<EnumMember>)
  {
    forall i, j :: 0 <= i < j < |members| ==> members[i].value != members[j].value
  }

  /** Reading a stored string back: the first member with that value. */
  function MemberWithValue(members: seq<EnumMember>, stored: string): (r: Option<EnumMember>)
    ensures r.Some? ==> r.value in members && r.value.value == stored
    ensures r.None? ==> forall i :: 0 <= i < |members| ==> members[i].value != stored
  {
    if members == [] then None
    else if members[0].value == stored then Some(members[0])
    else MemberWithValue(members[1..], stored)
  }

  /**
   * With pairwise distinct values, what is stored for a member reads back as
   * that member, and a string that is no member's value reads back as nothing.
   */
  lemma EnumColumnRoundTrip(members: seq<EnumMember>, i: nat)
    requires DistinctValues(members) && i < |members|
    ensures MemberWithValue(members, EnumColumn(members).values[i]) == Some(members[i])
  {
  }

  // ---------------------------------------------------------------------
  // The model classes of the application.
  // ---------------------------------------------------------------------

  /*
   * Facts about string literals, kept apart from the lemmas that use them so
   * that the solver never has to evaluate `TableName` of a literal directly.
   */
  lemma UsersFacts()
    ensures "user" + "s" == "users"
    ensures "users" + ("." + "id") == "users.id"
  {
  }

  lemma OtpRequestsFacts()
    ensures "otp_request" + "s" == "otp_requests"
  {
  }

  lemma SpotifyAccountsFacts()
    ensures "spotify_account" + "s" == "spotify_accounts"
    ensures "spotify_accounts" + ("." + "id") == "spotify_accounts.id"
  {
  }

  lemma OAuthTokensFacts()
    ensures "o_auth_token" + "s" == "o_auth_tokens"
  {
  }

  /** The table of `User`. */
  lemma TableNameUser()
    ensures TableName("User") == "users"
  {
    CamelToSnakeUser();
    UsersFacts();
  }

  /** The table of `OtpRequest`. */
  lemma TableNameOtpRequest()
    ensures TableName("OtpRequest") == "otp_requests"
  {
    CamelToSnakeOtpRequest();
    OtpRequestsFacts();
  }

  /** The table of `SpotifyAccount`. */
  lemma TableNameSpotifyAccount()
    ensures TableName("SpotifyAccount") == "spotify_accounts"
  {
    CamelToSnakeSpotifyAccount();
    SpotifyAccountsFacts();
  }

  /** The table of `OAuthToken`. */
  lemma TableNameOAuthToken()
    ensures TableName("OAuthToken") == "o_auth_tokens"
  {
    CamelToSnakeOAuthToken();
    OAuthTokensFacts();
  }

  /** `OtpRequest.user_id` and `SpotifyAccount.user_id` reference `users.id`. */
  lemma ForeignKeyToUser()
    ensures ForeignKey("User", None).target == "users.id"
  {
    TableNameUser();
    UsersFacts();
  }

  /** `OAuthToken.user_id` references `spotify_accounts.id`, not `users.id`. */
  lemma ForeignKeyToSpotifyAccount()
    ensures ForeignKey("SpotifyAccount", None).target == "spotify_accounts.id"
  {
    TableNameSpotifyAccount();
    SpotifyAccountsFacts();
  }
}
