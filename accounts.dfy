/**
 The local account system of script.js: a registry of users keyed by their
 normalised username (the `veltrix_users` slot) and the signed-in profile
 (the `veltrix_session` slot). Both slots hold JSON in local storage; here
 they are held decoded, as the fields of `Registry`.
 */
module Accounts {
  import opened Text

  /** A stored account, as signup writes it. */
  datatype User = User(name: string, username: string, email: string, password: string)

  /** The session record: the account without its password. */
  datatype Profile = Profile(name: string, username: string, email: string)

  /** Why a signup was refused, one case per message the form shows. */
  datatype SignupError = MissingField | PasswordTooShort | UsernameTaken

  datatype SignupResult = Registered(user: User) | Rejected(reason: SignupError)

  const MinPasswordLength: nat := 6

  /**
   The property names that an object produced by `JSON.parse` inherits from
   `Object.prototype`. Looking one of them up yields a function or an object,
   so `users[key]` is truthy for them even when no account has that key.
   */
  const InheritedKeys: set<string> := {
    "__proto__", "__defineGetter__", "__defineSetter__", "__lookupGetter__",
    "__lookupSetter__", "constructor", "hasOwnProperty", "isPrototypeOf",
    "propertyIsEnumerable", "toLocaleString", "toString", "valueOf"
  }

  /** `value.trim().toLowerCase()`, the key under which an account is stored. */
  function Normalize(s: string): (r: string)
    ensures Trimmed(r) && |r| == |Trim(s)|
    ensures forall k :: 0 <= k < |r| ==> r[k] == LowerChar(Trim(s)[k])
    ensures r == [] <==> Trim(s) == []
  {
    ToLowerKeepsTrimmed(Trim(s));
    ToLower(Trim(s))
  }

  /** A string that normalising leaves alone: trimmed, with no upper-case ASCII letter. */
  predicate Normalized(k: string) {
    Trimmed(k) && forall i :: 0 <= i < |k| ==> LowerChar(k[i]) == k[i]
  }

  lemma NormalizeGivesNormalized(s: string)
    ensures Normalized(Normalize(s))
  {
    ToLowerIsLower(Trim(s));
  }

  lemma {:induction false} NormalizedIsFixed(k: string)
    requires Normalized(k)
    ensures Normalize(k) == k
  {
    TrimOfTrimmed(k);
    assert ToLower(k) == k;
  }

  /** Normalising twice is normalising once. */
  lemma {:induction false} NormalizeIdempotent(s: string)
    ensures Normalize(Normalize(s)) == Normalize(s)
  {
    NormalizeGivesNormalized(s);
    NormalizedIsFixed(Normalize(s));
  }

  function ProfileOf(u: User): (p: Profile)
    ensures p.name == u.name && p.username == u.username && p.email == u.email
  {
    Profile(u.name, u.username, u.email)
  }

  /** `users[key]` is truthy: an own entry, or an inherited property. */
  predicate Taken(users: map<string, User>, key: string) {
    key in users || key in InheritedKeys
  }

  /** A key with an upper-case ASCII letter is not normalised. */
  lemma UpperCaseNotNormalized(k: string, i: nat)
    requires i < |k| && 'A' <= k[i] <= 'Z'
    ensures !Normalized(k)
  {
    assert LowerChar(k[i]) != k[i];
  }

  /**
   Of the inherited names only `__proto__` and `constructor` have no
   upper-case letter, so only they can be a normalised key.
   */
  lemma {:induction false} NormalizedInheritedKey(k: string)
    ensures Normalized(k) && k in InheritedKeys ==> k == "__proto__" || k == "constructor"
  {
    if k == "hasOwnProperty" {
      UpperCaseNotNormalized(k, 3);
    } else if k == "isPrototypeOf" || k == "toLocaleString" || k == "toString" {
      UpperCaseNotNormalized(k, 2);
    } else if k == "valueOf" {
      UpperCaseNotNormalized(k, 5);
    } else if k == "__defineGetter__" || k == "__defineSetter__" || k == "__lookupGetter__" ||
              k == "__lookupSetter__" || k == "propertyIsEnumerable" {
      UpperCaseNotNormalized(k, 8);
    }
  }

  /**
   Signup lower-cases the username before it looks it up, so of the inherited
   names only `__proto__` and `constructor` are ever refused as taken: a typed
   `toString` is looked up, and stored, as `tostring`.
   */
  lemma {:induction false} InheritedNamesAfterNormalizing(s: string)
    ensures Normalize(s) in InheritedKeys ==> Normalize(s) == "__proto__" || Normalize(s) == "constructor"
  {
    NormalizeGivesNormalized(s);
    NormalizedInheritedKey(Normalize(s));
  }

  /** The four fields of the signup form, as the handler reads them. */
  datatype SignupForm = SignupForm(name: string, username: string, email: string, password: string)

  /**
   The handler's reading of the form: the name is trimmed, the username and
   the email are trimmed and lower-cased, and the password is taken as it is.
   */
  function ReadSignupForm(name: string, username: string, email: string, password: string): (f: SignupForm)
    ensures f.name == Trim(name) && f.username == Normalize(username) && f.email == Normalize(email)
    ensures Trimmed(f.name) && Normalized(f.username) && Normalized(f.email) && f.password == password
    ensures f.name == [] <==> forall k :: 0 <= k < |name| ==> IsTrimmable(name[k])
  {
    NormalizeGivesNormalized(username);
    NormalizeGivesNormalized(email);
    TrimEmptyIffAllTrimmable(name);
    SignupForm(Trim(name), Normalize(username), Normalize(email), password)
  }

  /**
   The checks of the signup handler on the form it has read, in its order:
   an empty field, then a password shorter than six characters, then a
   username that is already taken.
   */
  function CheckSignup(users: map<string, User>, f: SignupForm): (r: SignupResult)
    ensures r == Rejected(MissingField) <==> f.name == [] || f.username == [] || f.email == [] || f.password == []
    ensures r == Rejected(PasswordTooShort) <==>
              f.name != [] && f.username != [] && f.email != [] && f.password != [] &&
              |f.password| < MinPasswordLength
    ensures r == Rejected(UsernameTaken) <==>
              f.name != [] && f.username != [] && f.email != [] && |f.password| >= MinPasswordLength &&
              Taken(users, f.username)
    ensures r.Registered? <==>
              f.name != [] && f.username != [] && f.email != [] && |f.password| >= MinPasswordLength &&
              !Taken(users, f.username)
    ensures r.Registered? ==> r.user == User(f.name, f.username, f.email, f.password)
  {
    if f.name == [] || f.username == [] || f.email == [] || f.password == [] then Rejected(MissingField)
    else if |f.password| < MinPasswordLength then Rejected(PasswordTooShort)
    else if Taken(users, f.username) then Rejected(UsernameTaken)
    else Registered(User(f.name, f.username, f.email, f.password))
  }

  /** The signup handler's decision on the raw form fields. */
  function SignupOf(users: map<string, User>, name: string, username: string, email: string, password: string): SignupResult {
    CheckSignup(users, ReadSignupForm(name, username, email, password))
  }

  /** The lookup key of a typed `toString`. */
  lemma NormalizeToString()
    ensures Normalize("toString") == "tostring"
  {
    TrimToString();
    LowerToString();
  }

  lemma TrimToString()
    ensures Trim("toString") == "toString"
  {
    assert "toString"[0] == 't' && "toString"[7] == 'g';
    TrimOfTrimmed("toString");
  }

  lemma LowerToString()
    ensures ToLower("toString") == "tostring"
  {
    var l := ToLower("toString");
    assert |l| == 8 && l[2] == LowerChar('S');
    assert l == "tostring";
  }

  lemma ReadToStringForm()
    ensures ReadSignupForm("n", "toString", "e", "secret") == SignupForm("n", "tostring", "e", "secret")
  {
    NormalizeToString();
    assert "n"[0] == 'n';
    TrimOfTrimmed("n");
    assert Normalized("e");
    NormalizedIsFixed("e");
  }

  /** A typed `toString` is not refused: it is registered under `tostring`. */
  lemma TypedToStringIsRegistered()
    ensures SignupOf(map[], "n", "toString", "e", "secret") == Registered(User("n", "tostring", "e", "secret"))
  {
    ReadToStringForm();
    assert "tostring" !in InheritedKeys;
  }

  /**
   The login check: the key is the trimmed, lower-cased username, and the
   stored password must equal the given one exactly. An inherited property
   has no `password`, so it never matches.
   */
  function CheckLogin(users: map<string, User>, username: string, password: string): (r: Option<Profile>)
    ensures r.Some? <==> Normalize(username) in users && users[Normalize(username)].password == password
    ensures r.Some? ==> r.value == ProfileOf(users[Normalize(username)])
  {
    var key := Normalize(username);
    if key in users && users[key].password == password then Some(ProfileOf(users[key])) else None
  }

  /**
   What signup and login keep true of the two slots once they start out
   empty: every account is stored under its own normalised username, which
   is not an inherited name, and a session is the profile of a stored account.
   */
  ghost predicate WellFormed(users: map<string, User>, session: Option<Profile>) {
    (forall k :: k in users ==> users[k].username == k && k !in InheritedKeys && Normalized(k)) &&
    (session.Some? ==> session.value.username in users &&
                       ProfileOf(users[session.value.username]) == session.value)
  }

  lemma FirstRunWellFormed()
    ensures WellFormed(map[], None)
  {
  }

  /**
   Adding an account under a fresh, normalised username that is not an
   inherited name keeps the slots well formed, with it signed in.
   */
  lemma AddAccountKeepsWellFormed(users: map<string, User>, session: Option<Profile>, u: User)
    requires WellFormed(users, session)
    requires u.username !in users && u.username !in InheritedKeys && Normalized(u.username)
    ensures WellFormed(users[u.username := u], Some(ProfileOf(u)))
  {
    var users' := users[u.username := u];
    forall k | k in users'
      ensures users'[k].username == k && k !in InheritedKeys && Normalized(k)
    {
      if k != u.username {
        assert users'[k] == users[k];
      }
    }
  }

  /** Every account signup creates can be added that way. */
  lemma {:induction false} SignupKeepsWellFormed(users: map<string, User>, session: Option<Profile>,
                                                name: string, username: string, email: string, password: string)
    ensures var r := SignupOf(users, name, username, email, password);
            WellFormed(users, session) && r.Registered? ==>
            WellFormed(users[r.user.username := r.user], Some(ProfileOf(r.user)))
  {
    var r := SignupOf(users, name, username, email, password);
    if WellFormed(users, session) && r.Registered? {
      AddAccountKeepsWellFormed(users, session, r.user);
    }
  }

  lemma LoginKeepsWellFormed(users: map<string, User>, session: Option<Profile>, username: string, password: string)
    requires WellFormed(users, session)
    requires CheckLogin(users, username, password).Some?
    ensures WellFormed(users, CheckLogin(users, username, password))
  {
  }

  /**
   An account can log in right after it signs up, with the username as typed
   or as it is stored (and shown in the navigation bar).
   */
  lemma {:induction false} SignupThenLogin(users: map<string, User>, name: string, username: string, email: string, password: string)
    ensures var r := SignupOf(users, name, username, email, password);
            r.Registered? ==>
            CheckLogin(users[r.user.username := r.user], username, password) == Some(ProfileOf(r.user)) &&
            CheckLogin(users[r.user.username := r.user], r.user.username, password) == Some(ProfileOf(r.user))
  {
    var f := ReadSignupForm(name, username, email, password);
    if CheckSignup(users, f).Registered? {
      var u := CheckSignup(users, f).user;
      LoginAfterAdd(users, u, username, password);
      NormalizeIdempotent(username);
      LoginAfterAdd(users, u, u.username, password);
    }
  }

  /** Once an account is stored, a username that normalises to its key and its password log in. */
  lemma LoginAfterAdd(users: map<string, User>, u: User, typed: string, password: string)
    requires Normalize(typed) == u.username && u.password == password
    ensures CheckLogin(users[u.username := u], typed, password) == Some(ProfileOf(u))
  {
  }

  /**
   Usernames are compared after trimming and lower-casing: once an account
   exists, a second signup whose username normalises to the same key is
   refused as taken, once its name, email and password pass the empty-field
   and length checks.
   */
  lemma SecondSignupRefused(users: map<string, User>, u: User,
                            name: string, username: string, email: string, password: string)
    ensures Normalize(username) == u.username != [] &&
            Trim(name) != [] && Normalize(email) != [] && |password| >= MinPasswordLength ==>
            SignupOf(users[u.username := u], name, username, email, password) == Rejected(UsernameTaken)
  {
  }

  /**
   The signed-in account can always log in again: its stored username is
   its own key, and the stored password matches.
   */
  lemma {:induction false} SessionLogsInAgain(users: map<string, User>, session: Option<Profile>)
    requires WellFormed(users, session) && session.Some?
    ensures CheckLogin(users, session.value.username, users[session.value.username].password) == session
  {
    var k := session.value.username;
    assert users[k].username == k && Normalized(k);
    NormalizedIsFixed(k);
  }

  /**
   The two slots of the account system. Signup, login and logout read and
   write them as the handlers do; nothing else is stored.
   */
  class Registry {
    var users: map<string, User>
    var session: Option<Profile>

    ghost predicate Valid()
      reads this
    {
      WellFormed(users, session)
    }

    /** The slots as a returning visitor's storage holds them (a first visit has `map[]` and `None`). */
    constructor (storedUsers: map<string, User>, storedSession: Option<Profile>)
      ensures users == storedUsers && session == storedSession
      ensures storedUsers == map[] && storedSession == None ==> Valid()
    {
      users := storedUsers;
      session := storedSession;
    }

    /**
     The signup form's submit handler, once it has read the form. On a
     refusal neither slot changes; on success exactly one account is added,
     under the username read from the form, and the session becomes its
     profile, which carries no password. A form read by `ReadSignupForm` has
     a normalised username, so the slots stay well formed.
     */
    method Signup(form: SignupForm) returns (r: SignupResult)
      modifies this
      ensures r == CheckSignup(old(users), form)
      ensures r.Rejected? ==> users == old(users) && session == old(session)
      ensures r.Registered? ==>
                users == old(users)[form.username := r.user] &&
                form.username !in old(users) &&
                users[form.username].password == form.password &&
                session == Some(ProfileOf(r.user))
      ensures old(Valid()) && Normalized(form.username) ==> Valid()
    {
      r := CheckSignup(users, form);
      if r.Registered? {
        if Valid() && Normalized(form.username) {
          AddAccountKeepsWellFormed(users, session, r.user);
        }
        users := users[form.username := r.user];
        session := Some(ProfileOf(r.user));
      }
    }

    /**
     The login form's submit handler. The accounts are never changed; the
     session becomes the account's profile exactly when the password matches,
     and stays as it was otherwise.
     */
    method Login(username: string, password: string) returns (ok: bool)
      modifies this`session
      ensures ok <==> Normalize(username) in users && users[Normalize(username)].password == password
      ensures session == if ok then CheckLogin(users, username, password) else old(session)
      ensures ok ==> session == Some(ProfileOf(users[Normalize(username)]))
      ensures old(Valid()) ==> Valid()
    {
      var p := CheckLogin(users, username, password);
      ok := p.Some?;
      if ok {
        session := p;
      }
    }

    /** The logout button: the session slot is removed. */
    method Logout()
      modifies this`session
      ensures session == None
      ensures old(Valid()) ==> Valid()
    {
      session := None;
    }
  }
}
