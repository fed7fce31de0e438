/** routes/auth.js: the account lifecycle. A user registers (unverified, with
    an emailed six-digit code), verifies the code, may ask for a reset code
    that expires after 15 minutes, may reset the password with it once, and
    logs in, which an unverified account is refused.

    Each handler is specified by a pure step function on the users table;
    the handler itself is a method of the router object, which also owns the
    one-shot `dbInitialized` flag. Hashing, its comparison, the random draw
    behind a code and the clock are parameters. */
module AuthRoute {
  import opened Wrappers
  import opened Sql
  import opened Schema

  // ------------------------------------------------------------ lookups

  /** `SELECT * FROM users WHERE email = ?` with `.get`: the first row
      holding the email. */
  function FindByEmail(users: seq<User>, email: string): (r: Option<User>)
    ensures r.None? <==> forall u :: u in users ==> u.email != email
    ensures r.Some? ==> r.value in users && r.value.email == email
  {
    if users == [] then None
    else if users[0].email == email then Some(users[0])
    else
      assert forall u :: u in users ==> u == users[0] || u in users[1..];
      FindByEmail(users[1..], email)
  }

  /** With emails unique (the column is UNIQUE), the lookup finds the one
      row that holds the email. */
  lemma FindUnique(users: seq<User>, u: User)
    requires UniqueBy(users, EmailKey) && u in users
    ensures FindByEmail(users, u.email) == Some(u)
  {
    var r := FindByEmail(users, u.email);
    var i :| 0 <= i < |users| && users[i] == r.value;
    var j :| 0 <= j < |users| && users[j] == u;
    assert EmailKey(users[i]) == EmailKey(users[j]);
  }

  /** `UPDATE users SET ... WHERE id = ?`: the row with `u`'s id becomes `u`.
      The ensures only describe the rows one by one; `ReplaceUserAt` and
      `ReplaceUserMissing` state what the update means. */
  function ReplaceUser(users: seq<User>, u: User): (r: seq<User>)
    ensures |r| == |users|
    ensures forall i :: 0 <= i < |r| ==> r[i] == if users[i].id == u.id then u else users[i]
  {
    seq(|users|, i requires 0 <= i < |users| => if users[i].id == u.id then u else users[i])
  }

  /** With ids unique, the update rewrites exactly the one row holding the
      id, in place. */
  lemma ReplaceUserAt(users: seq<User>, k: int, u: User)
    requires UniqueBy(users, UserKey) && 0 <= k < |users| && users[k].id == u.id
    ensures ReplaceUser(users, u) == users[k := u]
  {
    var r := ReplaceUser(users, u);
    forall i | 0 <= i < |users| ensures r[i] == users[k := u][i] {
      if i != k {
        assert UserKey(users[i]) != UserKey(users[k]);
      }
    }
  }

  /** An update whose id matches no row changes nothing. */
  lemma ReplaceUserMissing(users: seq<User>, u: User)
    requires forall v :: v in users ==> v.id != u.id
    ensures ReplaceUser(users, u) == users
  {
    var r := ReplaceUser(users, u);
    forall i | 0 <= i < |users| ensures r[i] == users[i] {
      assert users[i] in users;
    }
  }

  /** Rewriting a stored row without touching its id or email changes no
      row's id or email. */
  lemma ReplaceKeepsKeys(users: seq<User>, u0: User, u: User)
    requires UniqueBy(users, UserKey) && u0 in users
    requires u.id == u0.id && u.email == u0.email
    ensures forall i :: 0 <= i < |users| ==>
      ReplaceUser(users, u)[i].id == users[i].id && ReplaceUser(users, u)[i].email == users[i].email
  {
    var k :| 0 <= k < |users| && users[k] == u0;
    forall i | 0 <= i < |users| && users[i].id == u.id ensures users[i] == u0 {
      assert UserKey(users[i]) == UserKey(users[k]);
    }
  }

  /** Such a rewrite keeps the table's keys, and the lookup by that email
      then finds the new row. */
  lemma ReplaceSpec(users: seq<User>, nextId: int, u0: User, u: User)
    requires UsersValid(users, nextId) && u0 in users
    requires u.id == u0.id && u.email == u0.email
    ensures UsersValid(ReplaceUser(users, u), nextId)
    ensures FindByEmail(ReplaceUser(users, u), u.email) == Some(u)
  {
    var r := ReplaceUser(users, u);
    ReplaceKeepsKeys(users, u0, u);
    assert UniqueBy(r, UserKey) && UniqueBy(r, EmailKey);
    assert forall v :: v in r ==> v.id < nextId by {
      forall v | v in r ensures v.id < nextId {
        var i :| 0 <= i < |r| && r[i] == v;
        assert users[i] in users;
      }
    }
    var k :| 0 <= k < |users| && users[k] == u0;
    assert r[k] == u;
    FindUnique(r, u);
  }

  /** What a handler leaves behind: its response and the users table with
      its AUTOINCREMENT counter. */
  datatype Step<R> = Step(result: R, users: seq<User>, nextId: int)

  // ------------------------------------------------------- one-time codes

  /** `Math.floor(100000 + Math.random() * 900000)`, the draw in [0, 1)
      supplied by the caller. */
  function OtpNumber(random: real): (r: int)
    requires 0.0 <= random < 1.0
    ensures 100000 <= r <= 999999
  {
    (100000.0 + random * 900000.0).Floor
  }

  function DigitChar(d: int): (c: char)
    requires 0 <= d < 10
    ensures '0' <= c <= '9'
    ensures c as int - '0' as int == d
  {
    ('0' as int + d) as char
  }

  /** `toString()` of a non-negative integer: its decimal digits, with no
      leading zero. */
  function DecimalString(n: nat): (r: string)
    ensures 1 <= |r|
    ensures forall i :: 0 <= i < |r| ==> '0' <= r[i] <= '9'
    ensures 0 < n ==> r[0] != '0'
  {
    if n < 10 then [DigitChar(n)] else DecimalString(n / 10) + [DigitChar(n % 10)]
  }

  /** The number a string of decimal digits denotes. */
  function DecimalValue(s: string): nat
    requires forall i :: 0 <= i < |s| ==> '0' <= s[i] <= '9'
  {
    if s == [] then 0 else DecimalValue(s[..|s| - 1]) * 10 + (s[|s| - 1] as int - '0' as int)
  }

  /** The digits of a number denote that number. */
  lemma {:induction false} DecimalRoundTrip(n: nat)
    ensures DecimalValue(DecimalString(n)) == n
  {
    if 10 <= n {
      var s := DecimalString(n);
      assert s[..|s| - 1] == DecimalString(n / 10);
      DecimalRoundTrip(n / 10);
    }
  }

  ghost function Pow10(k: nat): (r: nat)
    ensures 1 <= r
  {
    if k == 0 then 1 else 10 * Pow10(k - 1)
  }

  /** A number in [10^k, 10^(k+1)) has k + 1 digits. */
  lemma {:induction false} DecimalLength(n: nat, k: nat)
    requires Pow10(k) <= n < 10 * Pow10(k)
    ensures |DecimalString(n)| == k + 1
  {
    if 0 < k {
      DecimalLength(n / 10, k - 1);
    }
  }

  /** Six decimal digits, the first not zero. */
  predicate IsOtp(s: string)
  {
    |s| == 6 && s[0] != '0' && forall i :: 0 <= i < |s| ==> '0' <= s[i] <= '9'
  }

  /** The code emailed at registration and for a reset: six digits
      denoting a number in [100000, 999999]. */
  function OtpOf(random: real): (r: string)
    requires 0.0 <= random < 1.0
    ensures IsOtp(r)
    ensures DecimalValue(r) == OtpNumber(random)
    ensures 100000 <= DecimalValue(r) <= 999999
  {
    var n := OtpNumber(random);
    assert Pow10(5) == 100000 by {
      assert Pow10(1) == 10;
      assert Pow10(2) == 100;
      assert Pow10(3) == 1000;
      assert Pow10(4) == 10000;
    }
    DecimalLength(n, 5);
    DecimalRoundTrip(n);
    DecimalString(n)
  }

  // ----------------------------------------------------- POST /register

  datatype RegisterRequest = RegisterRequest(nama: Option<string>, email: Option<string>, password: Option<string>)

  /** 400 'Semua field harus diisi', 400 'Email sudah terdaftar', or 201
      with the new id and the email. */
  datatype RegisterResult = RegisterMissingFields | EmailTaken | Registered(userId: int, email: string)

  predicate MissingRegisterField(req: RegisterRequest)
  {
    Falsy(req.nama) || Falsy(req.email) || Falsy(req.password)
  }

  /** The row `INSERT INTO users (nama, email, password, role, is_verified,
      otp_code) VALUES (?, ?, ?, 'user', 0, ?)` adds. */
  function NewUser(id: int, nama: string, email: string, hashed: string, otp: string): User
  {
    User(id, nama, email, hashed, "user", false, Some(otp), None, None)
  }

  function RegisterStep(users: seq<User>, nextId: int, req: RegisterRequest,
                        hash: string -> string, random: real): Step<RegisterResult>
    requires 0.0 <= random < 1.0
  {
    if MissingRegisterField(req) then Step(RegisterMissingFields, users, nextId)
    else if FindByEmail(users, req.email.value).Some? then Step(EmailTaken, users, nextId)
    else
      var u := NewUser(nextId, req.nama.value, req.email.value, hash(req.password.value), OtpOf(random));
      Step(Registered(nextId, req.email.value), users + [u], nextId + 1)
  }

  /** Registration is refused, changing nothing, when a field is missing or
      the email is taken; otherwise it appends exactly one unverified row
      with role 'user', the hashed password and a six-digit code, and the
      table keeps its keys. */
  lemma RegisterSpec(users: seq<User>, nextId: int, req: RegisterRequest, hash: string -> string, random: real)
    requires UsersValid(users, nextId) && 0.0 <= random < 1.0
    ensures UsersValid(RegisterStep(users, nextId, req, hash, random).users,
                       RegisterStep(users, nextId, req, hash, random).nextId)
    ensures RegisterStep(users, nextId, req, hash, random).result.Registered? <==>
      !MissingRegisterField(req) && forall u :: u in users ==> u.email != req.email.value
    ensures !RegisterStep(users, nextId, req, hash, random).result.Registered? ==>
      RegisterStep(users, nextId, req, hash, random).users == users &&
      RegisterStep(users, nextId, req, hash, random).nextId == nextId
    ensures RegisterStep(users, nextId, req, hash, random).result.Registered? ==>
      exists u ::
        && RegisterStep(users, nextId, req, hash, random).users == users + [u]
        && u.id == nextId && u.email == req.email.value && u.nama == req.nama.value
        && u.password == hash(req.password.value) && u.role == "user" && !u.isVerified
        && u.otpCode.Some? && IsOtp(u.otpCode.value)
        && u.resetToken.None? && u.resetExpires.None?
        && FindByEmail(RegisterStep(users, nextId, req, hash, random).users, u.email) == Some(u)
  {
    var s := RegisterStep(users, nextId, req, hash, random);
    if s.result.Registered? {
      var u := NewUser(nextId, req.nama.value, req.email.value, hash(req.password.value), OtpOf(random));
      assert s.users == users + [u];
      UniqueSnoc(users, u, UserKey);
      UniqueSnoc(users, u, EmailKey);
      FindUnique(s.users, u);
    }
  }

  // ------------------------------------------------------- POST /verify

  /** 400 'Email dan OTP harus diisi', 404 'User tidak ditemukan', 400 'Kode
      OTP salah', or success. */
  datatype VerifyResult = VerifyMissingFields | UserNotFound | WrongOtp | Verified

  function VerifyStep(users: seq<User>, nextId: int, email: Option<string>, otp: Option<string>): Step<VerifyResult>
  {
    if Falsy(email) || Falsy(otp) then Step(VerifyMissingFields, users, nextId)
    else match FindByEmail(users, email.value)
      case None => Step(UserNotFound, users, nextId)
      case Some(u) =>
        if u.otpCode != otp then Step(WrongOtp, users, nextId)
        else Step(Verified, ReplaceUser(users, u.(isVerified := true, otpCode := None)), nextId)
  }

  /** Verification succeeds exactly when the user with that email holds
      that code; it then marks that user verified and clears the code, and
      every refusal leaves the table as it was. */
  lemma VerifySpec(users: seq<User>, nextId: int, email: Option<string>, otp: Option<string>)
    requires UsersValid(users, nextId)
    ensures UsersValid(VerifyStep(users, nextId, email, otp).users, nextId)
    ensures VerifyStep(users, nextId, email, otp).nextId == nextId
    ensures VerifyStep(users, nextId, email, otp).result == UserNotFound <==>
      !Falsy(email) && !Falsy(otp) && forall u :: u in users ==> u.email != email.value
    ensures VerifyStep(users, nextId, email, otp).result == Verified <==>
      !Falsy(email) && !Falsy(otp) && exists u :: u in users && u.email == email.value && u.otpCode == otp
    ensures VerifyStep(users, nextId, email, otp).result != Verified ==>
      VerifyStep(users, nextId, email, otp).users == users
    ensures VerifyStep(users, nextId, email, otp).result == Verified ==>
      exists u :: u in users && u.email == email.value &&
        FindByEmail(VerifyStep(users, nextId, email, otp).users, email.value) ==
          Some(u.(isVerified := true, otpCode := None))
  {
    if !Falsy(email) && !Falsy(otp) {
      var f := FindByEmail(users, email.value);
      if f.Some? {
        forall v | v in users && v.email == email.value ensures v == f.value {
          FindUnique(users, v);
        }
        if f.value.otpCode == otp {
          ReplaceSpec(users, nextId, f.value, f.value.(isVerified := true, otpCode := None));
        }
      }
    }
  }

  /** A code works once: verifying again with the same code is refused. */
  lemma VerifyOnce(users: seq<User>, nextId: int, email: Option<string>, otp: Option<string>)
    requires UsersValid(users, nextId)
    requires VerifyStep(users, nextId, email, otp).result == Verified
    ensures VerifyStep(VerifyStep(users, nextId, email, otp).users, nextId, email, otp).result == WrongOtp
  {
    var u := FindByEmail(users, email.value).value;
    ReplaceSpec(users, nextId, u, u.(isVerified := true, otpCode := None));
  }

  /** The code a registration emails verifies the new account. */
  lemma RegisterThenVerify(users: seq<User>, nextId: int, req: RegisterRequest, hash: string -> string, random: real)
    requires UsersValid(users, nextId) && 0.0 <= random < 1.0
    requires RegisterStep(users, nextId, req, hash, random).result.Registered?
    ensures VerifyStep(RegisterStep(users, nextId, req, hash, random).users, nextId + 1,
                       req.email, Some(OtpOf(random))).result == Verified
  {
    var u := NewUser(nextId, req.nama.value, req.email.value, hash(req.password.value), OtpOf(random));
    var s := RegisterStep(users, nextId, req, hash, random);
    assert s.users == users + [u];
    UniqueSnoc(users, u, EmailKey);
    FindUnique(s.users, u);
  }

  // ---------------------------------------------- POST /forgot-password

  /** 15 minutes in milliseconds, the lifetime of a reset code. */
  const ResetWindow: int := 15 * 60 * 1000

  /** 400 'Email harus diisi', or the one success message. */
  datatype ForgotResult = ForgotMissingEmail | ForgotAccepted

  /** The answer does not depend on whether the email is registered; only a
      registered user's row receives a code and an expiry. */
  function ForgotStep(users: seq<User>, nextId: int, email: Option<string>, random: real, now: int): (r: Step<ForgotResult>)
    requires 0.0 <= random < 1.0
    ensures r.result == if Falsy(email) then ForgotMissingEmail else ForgotAccepted
    ensures r.nextId == nextId
    ensures (Falsy(email) || forall u :: u in users ==> u.email != email.value) ==> r.users == users
  {
    if Falsy(email) then Step(ForgotMissingEmail, users, nextId)
    else match FindByEmail(users, email.value)
      case None => Step(ForgotAccepted, users, nextId)
      case Some(u) =>
        Step(ForgotAccepted, ReplaceUser(users, u.(resetToken := Some(OtpOf(random)), resetExpires := Some(now + ResetWindow))), nextId)
  }

  /** A registered user gets a six-digit reset code expiring at `now` plus
      15 minutes, and the table keeps its keys. */
  lemma ForgotSpec(users: seq<User>, nextId: int, u: User, random: real, now: int)
    requires UsersValid(users, nextId) && u in users && 0.0 <= random < 1.0
    ensures UsersValid(ForgotStep(users, nextId, Some(u.email), random, now).users, nextId)
    ensures u.email != "" ==>
      FindByEmail(ForgotStep(users, nextId, Some(u.email), random, now).users, u.email) ==
        Some(u.(resetToken := Some(OtpOf(random)), resetExpires := Some(now + ResetWindow)))
    ensures IsOtp(OtpOf(random))
  {
    if u.email != "" {
      FindUnique(users, u);
      ReplaceSpec(users, nextId, u, u.(resetToken := Some(OtpOf(random)), resetExpires := Some(now + ResetWindow)));
    }
  }

  // ----------------------------------------------- POST /reset-password

  /** 400 'Semua data harus diisi', 400 'Kode OTP salah atau kadaluarsa', or
      success. */
  datatype ResetResult = ResetMissingFields | InvalidOrExpired | PasswordReset

  /** `user.reset_expires < Date.now()`; a NULL expiry compares as 0. */
  predicate Expired(u: User, now: int)
  {
    match u.resetExpires
    case None => 0 < now
    case Some(e) => e < now
  }

  function ResetStep(users: seq<User>, nextId: int, email: Option<string>, otp: Option<string>,
                     newPassword: Option<string>, hash: string -> string, now: int): Step<ResetResult>
  {
    if Falsy(email) || Falsy(otp) || Falsy(newPassword) then Step(ResetMissingFields, users, nextId)
    else match FindByEmail(users, email.value)
      case None => Step(InvalidOrExpired, users, nextId)
      case Some(u) =>
        if u.resetToken != otp || Expired(u, now) then Step(InvalidOrExpired, users, nextId)
        else Step(PasswordReset,
                  ReplaceUser(users, u.(password := hash(newPassword.value), resetToken := None, resetExpires := None)),
                  nextId)
  }

  /** A reset succeeds exactly when the user with that email holds that code
      and its expiry is not before `now`; it then stores the new hash and
      clears code and expiry, and a refusal changes nothing. */
  lemma ResetSpec(users: seq<User>, nextId: int, email: Option<string>, otp: Option<string>,
                  newPassword: Option<string>, hash: string -> string, now: int)
    requires UsersValid(users, nextId)
    ensures UsersValid(ResetStep(users, nextId, email, otp, newPassword, hash, now).users, nextId)
    ensures ResetStep(users, nextId, email, otp, newPassword, hash, now).result == PasswordReset <==>
      && !Falsy(email) && !Falsy(otp) && !Falsy(newPassword)
      && exists u :: u in users && u.email == email.value && u.resetToken == otp && !Expired(u, now)
    ensures ResetStep(users, nextId, email, otp, newPassword, hash, now).result != PasswordReset ==>
      ResetStep(users, nextId, email, otp, newPassword, hash, now).users == users
    ensures ResetStep(users, nextId, email, otp, newPassword, hash, now).result == PasswordReset ==>
      exists u :: u in users && u.email == email.value &&
        FindByEmail(ResetStep(users, nextId, email, otp, newPassword, hash, now).users, email.value) ==
          Some(u.(password := hash(newPassword.value), resetToken := None, resetExpires := None))
  {
    if !Falsy(email) && !Falsy(otp) && !Falsy(newPassword) {
      var f := FindByEmail(users, email.value);
      if f.Some? {
        forall v | v in users && v.email == email.value ensures v == f.value {
          FindUnique(users, v);
        }
        if f.value.resetToken == otp && !Expired(f.value, now) {
          ReplaceSpec(users, nextId, f.value,
                      f.value.(password := hash(newPassword.value), resetToken := None, resetExpires := None));
        }
      }
    }
  }

  /** A reset code is single-use: once it has reset the password, the same
      code is refused, whatever the new password and the time. */
  lemma ResetSingleUse(users: seq<User>, nextId: int, email: Option<string>, otp: Option<string>,
                       newPassword: Option<string>, again: Option<string>, hash: string -> string, now: int, later: int)
    requires UsersValid(users, nextId)
    requires ResetStep(users, nextId, email, otp, newPassword, hash, now).result == PasswordReset
    ensures ResetStep(ResetStep(users, nextId, email, otp, newPassword, hash, now).users, nextId,
                      email, otp, again, hash, later).result != PasswordReset
  {
    var u := FindByEmail(users, email.value).value;
    ReplaceSpec(users, nextId, u, u.(password := hash(newPassword.value), resetToken := None, resetExpires := None));
  }

  /** The code a forgot-password request issues at `now` resets the
      password exactly up to and including `now` plus 15 minutes. */
  lemma ForgotThenReset(users: seq<User>, nextId: int, u: User, random: real, now: int,
                        newPassword: string, hash: string -> string, later: int)
    requires UsersValid(users, nextId) && u in users && u.email != "" && newPassword != ""
    requires 0.0 <= random < 1.0
    ensures ResetStep(ForgotStep(users, nextId, Some(u.email), random, now).users, nextId,
                      Some(u.email), Some(OtpOf(random)), Some(newPassword), hash, later).result == PasswordReset
            <==> later <= now + ResetWindow
  {
    ForgotSpec(users, nextId, u, random, now);
  }

  // -------------------------------------------------------- POST /login

  /** 400 'Email dan password harus diisi'; 401 'Email atau password salah'
      for an unknown email and for a wrong password alike; 403 with the
      email for an unverified account; or success with the user. */
  datatype LoginResult = LoginMissingFields | InvalidCredentials | NotVerified(email: string)
                       | LoggedIn(id: int, nama: string, email: string)

  /** The login decision; `matches` stands for `bcrypt.compareSync`. */
  function LoginOutcome(users: seq<User>, email: Option<string>, password: Option<string>,
                        matches: (string, string) -> bool): LoginResult
  {
    if Falsy(email) || Falsy(password) then LoginMissingFields
    else match FindByEmail(users, email.value)
      case None => InvalidCredentials
      case Some(u) =>
        if !matches(password.value, u.password) then InvalidCredentials
        else if !u.isVerified then NotVerified(u.email)
        else LoggedIn(u.id, u.nama, u.email)
  }

  /** Login in terms of the stored rows: it succeeds exactly for the
      verified user with that email whose hash the password matches; an
      unknown email and a wrong password get the same refusal. */
  lemma LoginSpec(users: seq<User>, email: Option<string>, password: Option<string>, matches: (string, string) -> bool)
    requires UniqueBy(users, EmailKey)
    ensures LoginOutcome(users, email, password, matches) == InvalidCredentials <==>
      && !Falsy(email) && !Falsy(password)
      && forall u :: u in users && u.email == email.value ==> !matches(password.value, u.password)
    ensures LoginOutcome(users, email, password, matches).NotVerified? <==>
      && !Falsy(email) && !Falsy(password)
      && exists u :: u in users && u.email == email.value && matches(password.value, u.password) && !u.isVerified
    ensures LoginOutcome(users, email, password, matches).LoggedIn? ==>
      exists u :: && u in users && u.email == email.value && matches(password.value, u.password) && u.isVerified
                  && LoginOutcome(users, email, password, matches) == LoggedIn(u.id, u.nama, u.email)
  {
    if !Falsy(email) && !Falsy(password) {
      var f := FindByEmail(users, email.value);
      if f.Some? {
        forall v | v in users && v.email == email.value ensures v == f.value {
          FindUnique(users, v);
        }
      }
    }
  }

  /** A freshly registered account cannot log in with its own password
      until it is verified (given that a password matches its own hash). */
  lemma RegisterThenLogin(users: seq<User>, nextId: int, req: RegisterRequest, hash: string -> string,
                          random: real, matches: (string, string) -> bool)
    requires UsersValid(users, nextId) && 0.0 <= random < 1.0
    requires forall p :: matches(p, hash(p))
    requires RegisterStep(users, nextId, req, hash, random).result.Registered?
    ensures LoginOutcome(RegisterStep(users, nextId, req, hash, random).users, req.email, req.password, matches)
            == NotVerified(req.email.value)
  {
    var u := NewUser(nextId, req.nama.value, req.email.value, hash(req.password.value), OtpOf(random));
    var s := RegisterStep(users, nextId, req, hash, random);
    assert s.users == users + [u];
    UniqueSnoc(users, u, EmailKey);
    FindUnique(s.users, u);
  }

  /** After a reset, the new password logs in to a verified account (given
      that a password matches its own hash). */
  lemma ResetThenLogin(users: seq<User>, nextId: int, email: Option<string>, otp: Option<string>,
                       newPassword: Option<string>, hash: string -> string, now: int, matches: (string, string) -> bool)
    requires UsersValid(users, nextId)
    requires forall p :: matches(p, hash(p))
    requires ResetStep(users, nextId, email, otp, newPassword, hash, now).result == PasswordReset
    ensures var u := FindByEmail(users, email.value).value;
      LoginOutcome(ResetStep(users, nextId, email, otp, newPassword, hash, now).users, email, newPassword, matches)
        == if u.isVerified then LoggedIn(u.id, u.nama, u.email) else NotVerified(u.email)
  {
    var u := FindByEmail(users, email.value).value;
    ReplaceSpec(users, nextId, u, u.(password := hash(newPassword.value), resetToken := None, resetExpires := None));
  }

  // ------------------------------------------------------------ objects

  /** The session fields `POST /login` writes. */
  class Session {
    var userId: Option<int>
    var userName: Option<string>
    var userEmail: Option<string>

    constructor ()
      ensures userId.None? && userName.None? && userEmail.None?
    {
      userId, userName, userEmail := None, None, None;
    }
  }

  /** The router: the database it serves and the module-level flag that
      makes initialisation run once. `initRuns` counts the runs of
      `initDatabase(); seedPTNData();`. */
  class AuthRouter {
    const db: Db
    var dbInitialized: bool
    ghost var initRuns: nat

    ghost predicate Valid()
      reads this, db
    {
      db.Valid() && initRuns == if dbInitialized then 1 else 0
    }

    constructor (db: Db)
      requires db.Valid()
      ensures Valid() && this.db == db && !dbInitialized
    {
      this.db := db;
      dbInitialized := false;
      initRuns := 0;
    }

    /** `ensureDbInit`: the first call initialises and sets the flag, every
        later call does nothing, so initialisation runs at most once. */
    method EnsureDbInit()
      requires Valid()
      modifies this
      ensures Valid() && dbInitialized && initRuns == 1
      ensures initRuns == if old(dbInitialized) then old(initRuns) else old(initRuns) + 1
    {
      if !dbInitialized {
        initRuns := initRuns + 1;
        dbInitialized := true;
      }
    }

    /** `POST /register`; `hash` stands for `bcrypt.hashSync` and `random`
        for the `Math.random()` draw. */
    method Register(req: RegisterRequest, hash: string -> string, random: real) returns (res: RegisterResult)
      requires Valid() && 0.0 <= random < 1.0
      modifies this, db`users, db`nextUserId
      ensures Valid() && dbInitialized
      ensures Step(res, db.users, db.nextUserId) == RegisterStep(old(db.users), old(db.nextUserId), req, hash, random)
    {
      EnsureDbInit();
      if MissingRegisterField(req) {
        return RegisterMissingFields;
      }
      var existing := FindByEmail(db.users, req.email.value);
      if existing.Some? {
        return EmailTaken;
      }
      var id := db.nextUserId;
      var u := NewUser(id, req.nama.value, req.email.value, hash(req.password.value), OtpOf(random));
      UniqueSnoc(db.users, u, UserKey);
      UniqueSnoc(db.users, u, EmailKey);
      db.users := db.users + [u];
      db.nextUserId := id + 1;
      res := Registered(id, req.email.value);
    }

    /** `POST /verify`. */
    method Verify(email: Option<string>, otp: Option<string>) returns (res: VerifyResult)
      requires Valid()
      modifies this, db`users
      ensures Valid() && dbInitialized
      ensures Step(res, db.users, db.nextUserId) == VerifyStep(old(db.users), db.nextUserId, email, otp)
    {
      EnsureDbInit();
      if Falsy(email) || Falsy(otp) {
        return VerifyMissingFields;
      }
      var user := FindByEmail(db.users, email.value);
      if user.None? {
        return UserNotFound;
      }
      var u := user.value;
      if u.otpCode != otp {
        return WrongOtp;
      }
      ReplaceSpec(db.users, db.nextUserId, u, u.(isVerified := true, otpCode := None));
      db.users := ReplaceUser(db.users, u.(isVerified := true, otpCode := None));
      res := Verified;
    }

    /** `POST /forgot-password`; `random` is the code's draw and `now` the
        clock in milliseconds. */
    method ForgotPassword(email: Option<string>, random: real, now: int) returns (res: ForgotResult)
      requires Valid() && 0.0 <= random < 1.0
      modifies this, db`users
      ensures Valid() && dbInitialized
      ensures Step(res, db.users, db.nextUserId) == ForgotStep(old(db.users), db.nextUserId, email, random, now)
    {
      EnsureDbInit();
      if Falsy(email) {
        return ForgotMissingEmail;
      }
      var user := FindByEmail(db.users, email.value);
      if user.None? {
        return ForgotAccepted;
      }
      var u := user.value;
      var otp := OtpOf(random);
      var expires := now + ResetWindow;
      ReplaceSpec(db.users, db.nextUserId, u, u.(resetToken := Some(otp), resetExpires := Some(expires)));
      db.users := ReplaceUser(db.users, u.(resetToken := Some(otp), resetExpires := Some(expires)));
      res := ForgotAccepted;
    }

    /** `POST /reset-password`. */
    method ResetPassword(email: Option<string>, otp: Option<string>, newPassword: Option<string>,
                         hash: string -> string, now: int) returns (res: ResetResult)
      requires Valid()
      modifies this, db`users
      ensures Valid() && dbInitialized
      ensures Step(res, db.users, db.nextUserId) == ResetStep(old(db.users), db.nextUserId, email, otp, newPassword, hash, now)
    {
      EnsureDbInit();
      if Falsy(email) || Falsy(otp) || Falsy(newPassword) {
        return ResetMissingFields;
      }
      var user := FindByEmail(db.users, email.value);
      if user.None? || user.value.resetToken != otp || Expired(user.value, now) {
        return InvalidOrExpired;
      }
      var u := user.value;
      var hashed := hash(newPassword.value);
      ReplaceSpec(db.users, db.nextUserId, u, u.(password := hashed, resetToken := None, resetExpires := None));
      db.users := ReplaceUser(db.users, u.(password := hashed, resetToken := None, resetExpires := None));
      res := PasswordReset;
    }

    /** `POST /login`: only a success writes the session. */
    method Login(session: Session, email: Option<string>, password: Option<string>,
                 matches: (string, string) -> bool) returns (res: LoginResult)
      requires Valid()
      modifies this, session
      ensures Valid() && dbInitialized
      ensures res == LoginOutcome(db.users, email, password, matches)
      ensures res.LoggedIn? ==>
        session.userId == Some(res.id) && session.userName == Some(res.nama) && session.userEmail == Some(res.email)
      ensures !res.LoggedIn? ==>
        session.userId == old(session.userId) && session.userName == old(session.userName) &&
        session.userEmail == old(session.userEmail)
    {
      EnsureDbInit();
      if Falsy(email) || Falsy(password) {
        return LoginMissingFields;
      }
      var user := FindByEmail(db.users, email.value);
      if user.None? {
        return InvalidCredentials;
      }
      var u := user.value;
      if !matches(password.value, u.password) {
        return InvalidCredentials;
      }
      if !u.isVerified {
        return NotVerified(u.email);
      }
      session.userId := Some(u.id);
      session.userName := Some(u.nama);
      session.userEmail := Some(u.email);
      res := LoggedIn(u.id, u.nama, u.email);
    }
  }
}
