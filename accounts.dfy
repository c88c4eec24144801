/**
 * The account handling of the web front end: the two validators, and the
 * in-memory `users` table and `session` that `register`, `login` and
 * `logout` change, with the `login_required` guard and `get_user` reading
 * them.
 */
module Accounts {
  import opened Results
  import opened PyStr

  // ---------------------------------------------------------------- validators

  /** `[a-zA-Z0-9._%+-]`: a character of the part before the `@`. */
  predicate LocalChar(c: char) {
    IsAsciiLetter(c) || IsAsciiDigit(c) || c == '.' || c == '_' || c == '%' || c == '+' || c == '-'
  }

  /** `[a-zA-Z0-9.-]`: a character of the domain. */
  predicate DomainChar(c: char) {
    IsAsciiLetter(c) || IsAsciiDigit(c) || c == '.' || c == '-'
  }

  /**
   * `t` is `local@domain.tld` with the `@` at `i` and the last dot at `j`:
   * `local` and `domain` are non-empty runs of their classes and `tld` is at
   * least two ASCII letters.
   */
  predicate EmailParts(t: string, i: int, j: int) {
    && 0 < i && i + 1 < j && j + 3 <= |t|
    && (forall k :: 0 <= k < i ==> LocalChar(t[k]))
    && t[i] == '@'
    && (forall k :: i < k < j ==> DomainChar(t[k]))
    && t[j] == '.'
    && (forall k :: j < k < |t| ==> IsAsciiLetter(t[k]))
  }

  /** The language of `[a-zA-Z0-9._%+-]+@[a-zA-Z0-9.-]+\.[a-zA-Z]{2,}`: some way of cutting `t` into its parts. */
  ghost predicate EmailMatches(t: string) {
    exists i, j :: EmailParts(t, i, j)
  }

  /** The index of the first `c` in `s`, or `|s|` when there is none. */
  function FirstIndexOf(s: string, c: char): (r: nat)
    ensures r <= |s|
    ensures forall k :: 0 <= k < r ==> s[k] != c
    ensures r < |s| ==> s[r] == c
    decreases |s|
  {
    if s == [] then 0
    else if s[0] == c then 0
    else
      var r := FirstIndexOf(s[1..], c);
      assert forall k :: 1 <= k < r + 1 ==> s[k] == s[1..][k - 1];
      r + 1
  }

  /** The index of the last `c` in `s`, or `-1` when there is none. */
  function LastIndexOf(s: string, c: char): (r: int)
    ensures -1 <= r < |s|
    ensures forall k :: r < k < |s| ==> s[k] != c
    ensures 0 <= r ==> s[r] == c
    decreases |s|
  {
    if s == [] then -1
    else if s[|s| - 1] == c then |s| - 1
    else LastIndexOf(s[..|s| - 1], c)
  }

  /** The cut the pattern must use: the `@` is the first one and the dot before the top-level domain is the last one. */
  predicate EmailShape(t: string) {
    EmailParts(t, FirstIndexOf(t, '@'), LastIndexOf(t, '.'))
  }

  /** `is_valid_email`: `re.match` with `^…$`, where `$` also matches just before a final newline. */
  predicate IsValidEmail(email: string) {
    || EmailShape(email)
    || (|email| > 0 && email[|email| - 1] == '\n' && EmailShape(email[..|email| - 1]))
  }

  /** Since neither part before the top-level domain may hold an `@` nor the domain a dot, only one cut is possible. */
  lemma EmailShapeIff(t: string)
    ensures EmailShape(t) <==> EmailMatches(t)
  {
    if EmailMatches(t) {
      var i, j :| EmailParts(t, i, j);
      var fi := FirstIndexOf(t, '@');
      var lj := LastIndexOf(t, '.');
      assert fi == i && lj == j;
    }
  }

  /** `is_valid_email` holds exactly when the address, or the address without one final newline, is in the pattern's language. */
  lemma IsValidEmailIff(email: string)
    ensures IsValidEmail(email) <==>
      || EmailMatches(email)
      || (|email| > 0 && email[|email| - 1] == '\n' && EmailMatches(email[..|email| - 1]))
  {
    EmailShapeIff(email);
    if |email| > 0 {
      EmailShapeIff(email[..|email| - 1]);
    }
  }

  /** A valid address contains no whitespace other than the final newline `$` allows. */
  lemma ValidEmailHasNoInnerSpace(email: string)
    requires IsValidEmail(email)
    ensures forall k :: 0 <= k < |email| - 1 ==> !IsSpace(email[k])
  {
    var t := if EmailShape(email) then email else email[..|email| - 1];
    assert EmailShape(t);
    var i, j := FirstIndexOf(t, '@'), LastIndexOf(t, '.');
    forall k | 0 <= k < |t|
      ensures !IsSpace(t[k])
    {
      if k < i {
        assert LocalChar(t[k]);
      } else if i < k < j {
        assert DomainChar(t[k]);
      } else if j < k {
        assert IsAsciiLetter(t[k]);
      }
    }
    assert forall k :: 0 <= k < |email| - 1 ==> email[k] == t[k];
  }

  /** `is_valid_password`: at least 8 characters. */
  predicate IsValidPassword(password: string) {
    |password| >= 8
  }

  // ---------------------------------------------------------------- normalisation

  /** `email.strip().lower()`. */
  function NormalizeEmail(email: string): (r: string)
    ensures |r| <= |email|
    ensures r == [] || (!IsSpace(r[0]) && !IsSpace(r[|r| - 1]))
    ensures forall k :: 0 <= k < |r| ==> !('A' <= r[k] <= 'Z')
  {
    StripSpec(email, IsSpace);
    LowerKeepsEnds(StripSpace(email));
    Lower(StripSpace(email))
  }

  /** Lower-casing keeps a string's first and last characters non-whitespace. */
  lemma LowerKeepsEnds(s: string)
    requires s == [] || (!IsSpace(s[0]) && !IsSpace(s[|s| - 1]))
    ensures var l := Lower(s); l == [] || (!IsSpace(l[0]) && !IsSpace(l[|l| - 1]))
  {
  }

  /** Normalising a normalised address changes nothing, so keys stored normalised are found again by `login`. */
  lemma NormalizeEmailIdempotent(email: string)
    ensures NormalizeEmail(NormalizeEmail(email)) == NormalizeEmail(email)
  {
    var t := StripSpace(email);
    StripSpec(email, IsSpace);
    LowerKeepsEnds(t);
    StripUnchanged(Lower(t), IsSpace);
    LowerIdempotent(t);
  }

  // ---------------------------------------------------------------- register and login as functions of the table

  /** A stored account: `{'password': …, 'name': …}`. */
  datatype User = User(password: string, name: string)

  /** Why `register` answers 400, in the order it checks. */
  datatype RegisterError =
    | AllFieldsRequired       // "All fields are required"
    | InvalidEmailFormat      // "Invalid email format"
    | PasswordTooShort        // "Password must be at least 8 characters long"
    | EmailAlreadyRegistered  // "Email already registered"

  /** The checks of `register` on the stripped name, the normalised address and the password, in order. */
  function RegisterCheck(users: map<string, User>, name: string, email: string, password: string): Outcome<RegisterError> {
    var n, e := StripSpace(name), NormalizeEmail(email);
    if n == [] || e == [] || password == [] then Fail(AllFieldsRequired)
    else if !IsValidEmail(e) then Fail(InvalidEmailFormat)
    else if !IsValidPassword(password) then Fail(PasswordTooShort)
    else if e in users then Fail(EmailAlreadyRegistered)
    else Pass
  }

  /** `users` after `register`: one new entry under the normalised address on success, nothing otherwise. */
  function Registered(users: map<string, User>, name: string, email: string, password: string): map<string, User> {
    if RegisterCheck(users, name, email, password).Pass? then users[NormalizeEmail(email) := User(password, StripSpace(name))]
    else users
  }

  /** `register` succeeds exactly when every field is present, the address and password are valid and the address is new. */
  lemma RegisterCheckPass(users: map<string, User>, name: string, email: string, password: string)
    ensures RegisterCheck(users, name, email, password).Pass? <==>
      && StripSpace(name) != []
      && password != []
      && IsValidEmail(NormalizeEmail(email))
      && IsValidPassword(password)
      && NormalizeEmail(email) !in users
  {
  }

  /** Which rejection `register` gives: the first check that fails, whatever the later ones would say. */
  lemma RegisterCheckOrder(users: map<string, User>, name: string, email: string, password: string)
    ensures var n, e := StripSpace(name), NormalizeEmail(email);
      match RegisterCheck(users, name, email, password)
      case Fail(AllFieldsRequired) => n == [] || e == [] || password == []
      case Fail(InvalidEmailFormat) => n != [] && e != [] && password != [] && !IsValidEmail(e)
      case Fail(PasswordTooShort) => n != [] && e != [] && IsValidEmail(e) && !IsValidPassword(password)
      case Fail(EmailAlreadyRegistered) => n != [] && IsValidEmail(e) && IsValidPassword(password) && e in users
      case Pass => e !in users
  {
  }

  /**
   * A rejected registration leaves the table as it was; an accepted one adds
   * the new address, which was not there, with the password and the stripped
   * name, and every other account keeps its entry.
   */
  lemma RegisteredChangesOneEntry(users: map<string, User>, name: string, email: string, password: string)
    ensures var after, e := Registered(users, name, email, password), NormalizeEmail(email);
      && (RegisterCheck(users, name, email, password).Fail? ==> after == users)
      && (RegisterCheck(users, name, email, password).Pass? ==>
            && e !in users
            && after.Keys == users.Keys + {e}
            && after[e] == User(password, StripSpace(name))
            && forall k :: k in users ==> after[k] == users[k])
  {
  }

  /** `login`'s test on the normalised address and the given password (absent when the request has none). */
  predicate LoginCheck(users: map<string, User>, email: string, password: Option<string>) {
    var e := NormalizeEmail(email);
    e in users && password == Some(users[e].password)
  }

  /** A successful registration followed by a login with the same password and any address with the same key succeeds. */
  lemma RegisterThenLogin(users: map<string, User>, name: string, email: string, password: string, email2: string)
    requires RegisterCheck(users, name, email, password).Pass?
    requires NormalizeEmail(email2) == NormalizeEmail(email)
    ensures LoginCheck(Registered(users, name, email, password), email2, Some(password))
  {
  }

  /** Registering an address that is already taken fails, and the first account stays as it was. */
  lemma RegisterTwice(users: map<string, User>, name: string, email: string, password: string, name2: string, email2: string, password2: string)
    requires RegisterCheck(users, name, email, password).Pass?
    requires NormalizeEmail(email2) == NormalizeEmail(email)
    ensures var after := Registered(users, name, email, password);
      && RegisterCheck(after, name2, email2, password2).Fail?
      && Registered(after, name2, email2, password2) == after
  {
  }

  // ---------------------------------------------------------------- the store

  /** What `login_required` does with a request. */
  datatype Guarded<T> = RedirectToLogin | Ran(value: T)

  /** `login_required`: the handler, which reads the session, runs only when someone is logged in; otherwise the request is sent to the login page. */
  function LoginRequired<T>(session: map<string, string>, handler: map<string, string> -> T): (r: Guarded<T>)
    ensures r.Ran? <==> "user" in session
    ensures r.Ran? ==> r.value == handler(session)
  {
    if "user" !in session then RedirectToLogin else Ran(handler(session))
  }

  /** `get_user`'s answer: the logged-in address and its name, or the `KeyError` of a session for an unknown address. */
  datatype UserInfo = UserInfo(email: string, name: string) | UnknownUser

  /** A stored account as `register` leaves it: a valid normalised address, a valid password and a stripped non-empty name. */
  ghost predicate WellFormedAccount(email: string, user: User) {
    && NormalizeEmail(email) == email
    && IsValidEmail(email)
    && IsValidPassword(user.password)
    && user.name != []
    && StripSpace(user.name) == user.name
  }

  /** Every account of the table is well formed. */
  ghost predicate AllWellFormed(users: map<string, User>) {
    forall e {:trigger WellFormedAccount(e, users[e])} :: e in users ==> WellFormedAccount(e, users[e])
  }

  /** `register` keeps every account of the table well formed. */
  lemma RegisteredWellFormed(users: map<string, User>, name: string, email: string, password: string)
    requires AllWellFormed(users)
    ensures AllWellFormed(Registered(users, name, email, password))
  {
    if RegisterCheck(users, name, email, password).Pass? {
      var e, u := NormalizeEmail(email), User(password, StripSpace(name));
      NewAccountWellFormed(name, email, password);
      var after := users[e := u];
      forall k | k in after
        ensures WellFormedAccount(k, after[k])
      {
        if k != e {
          assert after[k] == users[k];
        }
      }
    }
  }

  /** The module-level `users` table and the Flask `session`. */
  class AccountStore {
    var users: map<string, User>
    var session: map<string, string>

    /** Every account is well formed and the session names a registered address. */
    ghost predicate Valid()
      reads this
    {
      && AllWellFormed(users)
      && ("user" in session ==> session["user"] in users)
    }

    /** The table as the program starts: one test account, nobody logged in. */
    constructor ()
      ensures Valid()
      ensures users == map["test@example.com" := User("password123", "Test User")]
      ensures session == map[]
    {
      users := map["test@example.com" := User("password123", "Test User")];
      session := map[];
      SeedAccountWellFormed();
    }

    /** `register` with the request's `name`, `email` and `password` (an absent field is the empty string). */
    method Register(name: string, email: string, password: string) returns (r: Outcome<RegisterError>)
      requires Valid()
      modifies this`users
      ensures Valid()
      ensures r == RegisterCheck(old(users), name, email, password)
      ensures users == Registered(old(users), name, email, password)
    {
      var n := StripSpace(name);
      var e := NormalizeEmail(email);
      if n == [] || e == [] || password == [] {
        return Fail(AllFieldsRequired);
      }
      if !IsValidEmail(e) {
        return Fail(InvalidEmailFormat);
      }
      if !IsValidPassword(password) {
        return Fail(PasswordTooShort);
      }
      if e in users {
        return Fail(EmailAlreadyRegistered);
      }
      RegisteredWellFormed(users, name, email, password);
      users := users[e := User(password, n)];
      r := Pass;
    }

    /** `login`: on success the session records the normalised address; on failure it is left as it was. */
    method Login(email: string, password: Option<string>) returns (ok: bool)
      requires Valid()
      modifies this`session
      ensures Valid()
      ensures ok == LoginCheck(users, email, password)
      ensures session == if ok then old(session)["user" := NormalizeEmail(email)] else old(session)
    {
      var e := NormalizeEmail(email);
      if e in users && password == Some(users[e].password) {
        session := session["user" := e];
        return true;
      }
      return false;
    }

    /** `logout`: `session.pop('user', None)`, which succeeds whether or not someone is logged in. */
    method Logout()
      requires Valid()
      modifies this`session
      ensures Valid()
      ensures session == old(session) - {"user"}
      ensures "user" !in session
    {
      session := session - {"user"};
    }

    /** `get_user` behind `login_required`. */
    function GetUser(): (r: Guarded<UserInfo>)
      reads this
      ensures r.Ran? <==> "user" in session
      ensures Valid() && r.Ran? ==> r.value == UserInfo(session["user"], users[session["user"]].name)
    {
      var table := users;
      LoginRequired(session, (s: map<string, string>) =>
        if "user" in s && s["user"] in table then UserInfo(s["user"], table[s["user"]].name) else UnknownUser)
    }
  }

  /** Lower-casing a string without upper-case ASCII letters changes nothing. */
  lemma LowerOfLowerCase(s: string)
    requires forall k :: 0 <= k < |s| ==> !('A' <= s[k] <= 'Z')
    ensures Lower(s) == s
  {
  }

  /** Stripping a stripped string changes nothing. */
  lemma StripSpaceIdempotent(s: string)
    ensures StripSpace(StripSpace(s)) == StripSpace(s)
  {
    StripSpec(s, IsSpace);
    StripUnchanged(StripSpace(s), IsSpace);
  }

  /** The test account's address is stored normalised. */
  lemma SeedEmailNormalized()
    ensures NormalizeEmail("test@example.com") == "test@example.com"
  {
    var e := "test@example.com";
    StripUnchanged(e, IsSpace);
    forall k | 0 <= k < |e|
      ensures !('A' <= e[k] <= 'Z')
    {
      assert k < 8 || 8 <= k < 16;
      assert k < 4 || 4 <= k < 8 || 8 <= k < 12 || 12 <= k;
      assert k == 0 || k == 1 || k == 2 || k == 3 || k == 4 || k == 5 || k == 6 || k == 7
        || k == 8 || k == 9 || k == 10 || k == 11 || k == 12 || k == 13 || k == 14 || k == 15;
    }
    LowerOfLowerCase(e);
  }

  /** The test account's address is valid. */
  lemma SeedEmailValid()
    ensures IsValidEmail("test@example.com")
  {
    var e := "test@example.com";
    forall k | 0 <= k < 4
      ensures LocalChar(e[k])
    {
      assert k == 0 || k == 1 || k == 2 || k == 3;
    }
    forall k | 4 < k < 12
      ensures DomainChar(e[k])
    {
      assert k == 5 || k == 6 || k == 7 || k == 8 || k == 9 || k == 10 || k == 11;
    }
    forall k | 12 < k < 16
      ensures IsAsciiLetter(e[k])
    {
      assert k == 13 || k == 14 || k == 15;
    }
    assert EmailParts(e, 4, 12);
    EmailShapeIff(e);
  }

  /** The test account is well formed. */
  lemma SeedAccountWellFormed()
    ensures WellFormedAccount("test@example.com", User("password123", "Test User"))
  {
    SeedEmailNormalized();
    SeedEmailValid();
    SeedNameStripped();
  }

  /** The test account's name has no surrounding whitespace. */
  lemma SeedNameStripped()
    ensures StripSpace("Test User") == "Test User"
  {
    StripUnchanged("Test User", IsSpace);
  }

  /** What `register` stores is well formed. */
  lemma NewAccountWellFormed(name: string, email: string, password: string)
    requires RegisterCheck(map[], name, email, password).Pass?
    ensures WellFormedAccount(NormalizeEmail(email), User(password, StripSpace(name)))
  {
    NormalizeEmailIdempotent(email);
    StripSpaceIdempotent(name);
  }
}
