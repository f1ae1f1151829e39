/** The account store of the authentication module: registration, login and profile lookup
    against the `users` table.

    The table is a sequence of rows in insertion order together with the AUTO_INCREMENT
    counter. `Register`, `Login` and `UserInfoOf` say what one call does to a table value;
    the class `UserStore` holds the table and runs the same steps in the source's order,
    each method proved against its function. The password hash is a deterministic function
    fixed when the store is made and otherwise unknown; nothing assumes it is injective.
    Whether the database can be reached, or a statement raises, is an input (`DbFault`). */
module Accounts {
  import opened Common
  import opened Validators

  /** `created_at`, as supplied by the database clock. */
  type Timestamp = int

  datatype Row = Row(id: int, username: string, email: string, passwordHash: string, createdAt: Timestamp)

  /** The `users` table: its rows in insertion order and the next AUTO_INCREMENT id. */
  datatype Table = Table(rows: seq<Row>, nextId: int)

  /** How the database behaves during one call: reachable and well-behaved, unreachable
      (`get_db_connection` returns nothing), or raising a `mysql.connector.Error` with the
      given text at the first statement. */
  datatype DbFault = Healthy | ConnectionFailed | QueryError(detail: string)

  datatype RegisterReply = RegisterReply(ok: bool, message: string)

  datatype LoginReply = LoginReply(ok: bool, userId: Option<int>, message: string)

  datatype UserInfo = UserInfo(username: string, email: string, createdAt: Timestamp)

  const MinPasswordLength := 6

  const BadUsernameMessage := "Username must be 3-20 characters (alphanumeric and underscore only)"
  const BadEmailMessage := "Invalid email format"
  const ShortPasswordMessage := "Password must be at least 6 characters"
  const NoConnectionMessage := "Database connection failed"
  const DuplicateMessage := "Username or email already exists"
  const RegisteredMessage := "Registration successful! Please login."
  const RegisterErrorPrefix := "Error during registration: "
  const UnknownUserMessage := "Username not found"
  const WrongPasswordMessage := "Incorrect password"
  const LoggedInMessage := "Login successful!"
  const LoginErrorPrefix := "Error during login: "

  /** The table's constraints: the primary key and the two UNIQUE columns hold, and the
      AUTO_INCREMENT counter is positive and past every id issued. */
  predicate TableInvariant(t: Table)
  {
    && 1 <= t.nextId
    && (forall i :: 0 <= i < |t.rows| ==> 1 <= t.rows[i].id < t.nextId)
    && (forall i, j :: 0 <= i < j < |t.rows| ==>
          && t.rows[i].id != t.rows[j].id
          && t.rows[i].username != t.rows[j].username
          && t.rows[i].email != t.rows[j].email)
  }

  /** The first failing input check of register_user, in the source's order. */
  function InputError(username: string, email: string, password: string): Option<string>
  {
    if !ValidateUsername(username) then Some(BadUsernameMessage)
    else if !ValidateEmail(email) then Some(BadEmailMessage)
    else if |password| < MinPasswordLength then Some(ShortPasswordMessage)
    else None
  }

  /** `SELECT * FROM users WHERE username = %s OR email = %s` returns a row. */
  predicate Clashes(rows: seq<Row>, username: string, email: string)
  {
    exists i :: 0 <= i < |rows| && (rows[i].username == username || rows[i].email == email)
  }

  /** `SELECT ... FROM users WHERE username = %s` followed by `fetchone`. */
  function FindUsername(rows: seq<Row>, username: string): Option<nat>
  {
    FirstMatch(rows, (r: Row) => r.username == username)
  }

  /** `SELECT ... FROM users WHERE id = %s` followed by `fetchone`. */
  function FindId(rows: seq<Row>, id: int): Option<nat>
  {
    FirstMatch(rows, (r: Row) => r.id == id)
  }

  /** register_user: the reply and the table afterwards. */
  function Register(t: Table, hash: string -> string, username: string, email: string, password: string,
                    now: Timestamp, fault: DbFault): (RegisterReply, Table)
  {
    match InputError(username, email, password)
    case Some(message) => (RegisterReply(false, message), t)
    case None =>
      if fault.ConnectionFailed? then (RegisterReply(false, NoConnectionMessage), t)
      else if fault.QueryError? then (RegisterReply(false, RegisterErrorPrefix + fault.detail), t)
      else if Clashes(t.rows, username, email) then (RegisterReply(false, DuplicateMessage), t)
      else
        var row := Row(t.nextId, username, email, hash(password), now);
        (RegisterReply(true, RegisteredMessage), Table(t.rows + [row], t.nextId + 1))
  }

  /** login_user: the reply; the table is only read. */
  function Login(t: Table, hash: string -> string, username: string, password: string, fault: DbFault): LoginReply
  {
    if fault.ConnectionFailed? then LoginReply(false, None, NoConnectionMessage)
    else if fault.QueryError? then LoginReply(false, None, LoginErrorPrefix + fault.detail)
    else
      match FindUsername(t.rows, username)
      case None => LoginReply(false, None, UnknownUserMessage)
      case Some(i) =>
        if t.rows[i].passwordHash == hash(password) then LoginReply(true, Some(t.rows[i].id), LoggedInMessage)
        else LoginReply(false, None, WrongPasswordMessage)
  }

  /** get_user_info: the profile of the row with the given id, if the lookup succeeds. */
  function UserInfoOf(t: Table, userId: int, fault: DbFault): Option<UserInfo>
  {
    if !fault.Healthy? then None
    else
      match FindId(t.rows, userId)
      case None => None
      case Some(i) => Some(UserInfo(t.rows[i].username, t.rows[i].email, t.rows[i].createdAt))
  }

  // ---------------------------------------------------------------------------
  // Properties of registration

  /** The input checks run in a fixed order and each message names the first failing one;
      a password of exactly six characters passes. */
  lemma InputErrorOrder(username: string, email: string, password: string)
    ensures (InputError(username, email, password) == Some(BadUsernameMessage))
              <==> !MatchesUsernamePattern(username)
    ensures (InputError(username, email, password) == Some(BadEmailMessage))
              <==> MatchesUsernamePattern(username) && !MatchesEmailPattern(email)
    ensures (InputError(username, email, password) == Some(ShortPasswordMessage))
              <==> MatchesUsernamePattern(username) && MatchesEmailPattern(email) && |password| < 6
    ensures (InputError(username, email, password).None?)
              <==> MatchesUsernamePattern(username) && MatchesEmailPattern(email) && |password| >= 6
  {
    ValidateUsernameCorrect(username);
    ValidateEmailCorrect(email);
  }

  /** A rejected input is rejected before the database is consulted: the reply depends on
      neither the table nor the database, and the table is left as it was. */
  lemma RegisterValidatesFirst(t1: Table, t2: Table, hash: string -> string, username: string, email: string,
                               password: string, now: Timestamp, fault1: DbFault, fault2: DbFault)
    requires !MatchesUsernamePattern(username) || !MatchesEmailPattern(email) || |password| < 6
    ensures !Register(t1, hash, username, email, password, now, fault1).0.ok
    ensures Register(t1, hash, username, email, password, now, fault1).0
              == Register(t2, hash, username, email, password, now, fault2).0
    ensures Register(t1, hash, username, email, password, now, fault1).1 == t1
  {
    InputErrorOrder(username, email, password);
  }

  /** A registration succeeds exactly when the inputs have the right shape, the database is
      healthy and no row shares the username or the email. */
  lemma RegisterSucceedsIff(t: Table, hash: string -> string, username: string, email: string, password: string,
                            now: Timestamp, fault: DbFault)
    ensures Register(t, hash, username, email, password, now, fault).0.ok
      <==> && MatchesUsernamePattern(username) && MatchesEmailPattern(email) && |password| >= 6
           && fault.Healthy?
           && forall i :: 0 <= i < |t.rows| ==> t.rows[i].username != username && t.rows[i].email != email
  {
    InputErrorOrder(username, email, password);
  }

  /** A successful registration appends one row carrying the next id and the password's hash
      and leaves every earlier row alone; a failed one leaves the table as it was. */
  lemma RegisterEffect(t: Table, hash: string -> string, username: string, email: string, password: string,
                       now: Timestamp, fault: DbFault)
    ensures var r := Register(t, hash, username, email, password, now, fault);
      if r.0.ok
      then r.1.rows == t.rows + [Row(t.nextId, username, email, hash(password), now)] && r.1.nextId == t.nextId + 1
      else r.1 == t
  {
    // Not needed for validity, but naming the success condition keeps the proof cheap.
    if InputError(username, email, password).None? && fault.Healthy? && !Clashes(t.rows, username, email) {
      assert Register(t, hash, username, email, password, now, fault).0.ok;
    } else {
      assert !Register(t, hash, username, email, password, now, fault).0.ok;
    }
  }

  /** Registration keeps the primary key and the UNIQUE constraints. */
  lemma RegisterPreservesInvariant(t: Table, hash: string -> string, username: string, email: string,
                                   password: string, now: Timestamp, fault: DbFault)
    requires TableInvariant(t)
    ensures TableInvariant(Register(t, hash, username, email, password, now, fault).1)
  {
    var (reply, t') := Register(t, hash, username, email, password, now, fault);
    if reply.ok {
      assert !Clashes(t.rows, username, email);
      var n := |t.rows|;
      forall i, j | 0 <= i < j < |t'.rows|
        ensures t'.rows[i].id != t'.rows[j].id
        ensures t'.rows[i].username != t'.rows[j].username
        ensures t'.rows[i].email != t'.rows[j].email
      {
        if j == n {
          assert t'.rows[i] == t.rows[i];
        }
      }
    }
  }

  /** Registering the same username or the same email a second time is refused as a
      duplicate and stores no second row. */
  lemma RegisterTwiceRefused(t: Table, hash: string -> string, username: string, email: string, password: string,
                             now: Timestamp, username2: string, email2: string, password2: string, now2: Timestamp)
    requires Register(t, hash, username, email, password, now, Healthy).0.ok
    requires InputError(username2, email2, password2).None?
    requires username2 == username || email2 == email
    ensures var t' := Register(t, hash, username, email, password, now, Healthy).1;
      Register(t', hash, username2, email2, password2, now2, Healthy) == (RegisterReply(false, DuplicateMessage), t')
  {
    var t' := Register(t, hash, username, email, password, now, Healthy).1;
    var n := |t.rows|;
    assert t'.rows[n].username == username && t'.rows[n].email == email;
    assert Clashes(t'.rows, username2, email2);
  }

  // ---------------------------------------------------------------------------
  // Properties of login and profile lookup

  /** Under the table's constraints login has three outcomes: an unknown username, a
      matching hash (answering that row's id), or an incorrect password. */
  lemma LoginOutcome(t: Table, hash: string -> string, username: string, password: string)
    requires TableInvariant(t)
    ensures var reply := Login(t, hash, username, password, Healthy);
      && ((forall i :: 0 <= i < |t.rows| ==> t.rows[i].username != username)
            <==> reply == LoginReply(false, None, UnknownUserMessage))
      && (forall i :: 0 <= i < |t.rows| && t.rows[i].username == username ==>
            if t.rows[i].passwordHash == hash(password)
            then reply == LoginReply(true, Some(t.rows[i].id), LoggedInMessage)
            else reply == LoginReply(false, None, WrongPasswordMessage))
  {
  }

  /** Round trip: after a successful registration, logging in with the same username and
      password succeeds and answers the new row's id. Only the hash's determinism is used. */
  lemma {:induction false} RegisterThenLogin(t: Table, hash: string -> string, username: string, email: string,
                                             password: string, now: Timestamp)
    requires Register(t, hash, username, email, password, now, Healthy).0.ok
    ensures var t' := Register(t, hash, username, email, password, now, Healthy).1;
      Login(t', hash, username, password, Healthy) == LoginReply(true, Some(t.nextId), LoggedInMessage)
  {
    var t' := Register(t, hash, username, email, password, now, Healthy).1;
    var n := |t.rows|;
    assert !Clashes(t.rows, username, email);
    assert t'.rows[n].username == username;
    var found := FindUsername(t'.rows, username);
    assert found.Some?;
    assert found.value == n;
  }

  /** Under the table's constraints get_user_info answers the profile of the one row with
      that id, and None when no row has it. */
  lemma UserInfoOfOutcome(t: Table, userId: int)
    requires TableInvariant(t)
    ensures UserInfoOf(t, userId, Healthy).None? <==> forall i :: 0 <= i < |t.rows| ==> t.rows[i].id != userId
    ensures forall i :: 0 <= i < |t.rows| && t.rows[i].id == userId ==>
              UserInfoOf(t, userId, Healthy) == Some(UserInfo(t.rows[i].username, t.rows[i].email, t.rows[i].createdAt))
  {
  }

  /** After a successful registration the new id answers the registered profile. */
  lemma {:induction false} RegisterThenUserInfo(t: Table, hash: string -> string, username: string, email: string,
                                                password: string, now: Timestamp)
    requires TableInvariant(t)
    requires Register(t, hash, username, email, password, now, Healthy).0.ok
    ensures var t' := Register(t, hash, username, email, password, now, Healthy).1;
      UserInfoOf(t', t.nextId, Healthy) == Some(UserInfo(username, email, now))
  {
    var t' := Register(t, hash, username, email, password, now, Healthy).1;
    var n := |t.rows|;
    var found := FindId(t'.rows, t.nextId);
    assert t'.rows[n].id == t.nextId;
    assert found.value == n;
  }

  // ---------------------------------------------------------------------------
  // The store

  class UserStore {
    var rows: seq<Row>
    var nextId: int
    const hashPassword: string -> string

    function Snapshot(): Table
      reads this
    {
      Table(rows, nextId)
    }

    predicate Valid()
      reads this
    {
      TableInvariant(Snapshot())
    }

    /** An empty `users` table whose ids start at 1. */
    constructor (hashPassword: string -> string)
      ensures Valid()
      ensures rows == [] && nextId == 1 && this.hashPassword == hashPassword
    {
      this.hashPassword := hashPassword;
      rows := [];
      nextId := 1;
    }

    /** register_user */
    method RegisterUser(username: string, email: string, password: string, now: Timestamp, fault: DbFault)
      returns (ok: bool, message: string)
      requires Valid()
      modifies this
      ensures Valid()
      ensures RegisterReply(ok, message) == Register(old(Snapshot()), hashPassword, username, email, password, now, fault).0
      ensures Snapshot() == Register(old(Snapshot()), hashPassword, username, email, password, now, fault).1
      ensures !ok ==> rows == old(rows) && nextId == old(nextId)
      ensures ok ==> rows == old(rows) + [Row(old(nextId), username, email, hashPassword(password), now)]
    {
      ghost var before := Snapshot();
      RegisterPreservesInvariant(before, hashPassword, username, email, password, now, fault);
      if !ValidateUsername(username) {
        return false, BadUsernameMessage;
      }
      if !ValidateEmail(email) {
        return false, BadEmailMessage;
      }
      if |password| < MinPasswordLength {
        return false, ShortPasswordMessage;
      }
      if fault.ConnectionFailed? {
        return false, NoConnectionMessage;
      }
      if fault.QueryError? {
        return false, RegisterErrorPrefix + fault.detail;
      }
      if Clashes(rows, username, email) {
        return false, DuplicateMessage;
      }
      var hashed := hashPassword(password);
      rows := rows + [Row(nextId, username, email, hashed, now)];
      nextId := nextId + 1;
      return true, RegisteredMessage;
    }

    /** login_user; it only reads the table. */
    method LoginUser(username: string, password: string, fault: DbFault) returns (reply: LoginReply)
      ensures reply == Login(Snapshot(), hashPassword, username, password, fault)
      ensures reply.ok <==> reply.userId.Some?
    {
      if fault.ConnectionFailed? {
        return LoginReply(false, None, NoConnectionMessage);
      }
      if fault.QueryError? {
        return LoginReply(false, None, LoginErrorPrefix + fault.detail);
      }
      var found := FindUsername(rows, username);
      if found.None? {
        return LoginReply(false, None, UnknownUserMessage);
      }
      var user := rows[found.value];
      var hashedInput := hashPassword(password);
      if user.passwordHash == hashedInput {
        reply := LoginReply(true, Some(user.id), LoggedInMessage);
      } else {
        reply := LoginReply(false, None, WrongPasswordMessage);
      }
    }

    /** get_user_info; it only reads the table. */
    method GetUserInfo(userId: int, fault: DbFault) returns (info: Option<UserInfo>)
      ensures info == UserInfoOf(Snapshot(), userId, fault)
      ensures info.Some? ==> exists i :: 0 <= i < |rows| && rows[i].id == userId
                               && info.value == UserInfo(rows[i].username, rows[i].email, rows[i].createdAt)
    {
      if !fault.Healthy? {
        return None;
      }
      var found := FindId(rows, userId);
      if found.None? {
        return None;
      }
      var row := rows[found.value];
      info := Some(UserInfo(row.username, row.email, row.createdAt));
    }
  }
}
