/** The user directory (app.py, register_user and the login lookup of the main menu):
    users are found by e-mail address, compared in lower case. */
module Directory {
  import opened Wrappers
  import opened Ascii
  import opened Seqs

  /** One record of the users table. */
  datatype User = User(name: string, email: string, phone: string)

  /** What register_user hands back: a user already registered under the address,
      or the user it has just created. */
  datatype Registration = Existing(user: User) | Created(user: User)

  function EmailKey(u: User): string {
    Lower(u.email)
  }

  /** No two users share an e-mail address, ignoring case. */
  predicate UniqueEmails(users: seq<User>) {
    Distinct(users, EmailKey)
  }

  /** The index of the first user whose lower-cased address is `email`. */
  function FindByEmail(users: seq<User>, email: string): (r: Option<nat>)
    ensures r.Some? ==> r.value < |users| && Lower(users[r.value].email) == email
    ensures r.Some? ==> forall j :: 0 <= j < r.value ==> Lower(users[j].email) != email
    ensures r.None? <==> forall u :: u in users ==> Lower(u.email) != email
  {
    FindFirst(users, (u: User) => Lower(u.email) == email)
  }

  /** The login lookup: the address is lower-cased, then stripped; the first user
      with that address logs in, and a missing user means no login. */
  function Login(users: seq<User>, emailRaw: string): (r: Option<User>)
    ensures r.None? <==> forall u :: u in users ==> Lower(u.email) != Strip(Lower(emailRaw))
    ensures r.Some? ==> exists k :: 0 <= k < |users| && users[k] == r.value
                          && Lower(users[k].email) == Strip(Lower(emailRaw))
                          && forall j :: 0 <= j < k ==> Lower(users[j].email) != Strip(Lower(emailRaw))
  {
    var k := FindByEmail(users, Strip(Lower(emailRaw)));
    if k.None? then None else Some(users[k.value])
  }

  /** register_user: the address is stripped, then lower-cased; an existing user with
      that address is returned as is, otherwise a new user is built from the stripped
      name and phone. */
  function Register(users: seq<User>, emailRaw: string, nameRaw: string, phoneRaw: string): (r: Registration)
    ensures r.Existing? <==> exists u :: u in users && Lower(u.email) == Lower(Strip(emailRaw))
    ensures r.Existing? ==> r.user in users && Lower(r.user.email) == Lower(Strip(emailRaw))
    ensures r.Existing? ==> r.user == users[FindByEmail(users, Lower(Strip(emailRaw))).value]
    ensures r.Created? ==> r.user == User(Strip(nameRaw), Lower(Strip(emailRaw)), Strip(phoneRaw))
  {
    var email := Lower(Strip(emailRaw));
    var k := FindByEmail(users, email);
    if k.Some? then Existing(users[k.value]) else Created(User(Strip(nameRaw), email, Strip(phoneRaw)))
  }

  /** The directory after register_user: one user more exactly when it created one. */
  function Registered(users: seq<User>, r: Registration): seq<User> {
    if r.Created? then users + [r.user] else users
  }

  /** A new registration keeps the addresses distinct. */
  lemma RegisterKeepsUniqueEmails(users: seq<User>, emailRaw: string, nameRaw: string, phoneRaw: string)
    requires UniqueEmails(users)
    ensures UniqueEmails(Registered(users, Register(users, emailRaw, nameRaw, phoneRaw)))
  {
    var r := Register(users, emailRaw, nameRaw, phoneRaw);
    if r.Created? {
      LowerIdempotent(Strip(emailRaw));
      DistinctSnoc(users, r.user, EmailKey);
    }
  }

  /** Registering the same address twice creates at most one user: the second call
      returns the user the first one found or made and leaves the directory as it is. */
  lemma RegisterIdempotent(users: seq<User>, emailRaw: string, nameRaw: string, phoneRaw: string,
                           nameAgain: string, phoneAgain: string)
    ensures var r := Register(users, emailRaw, nameRaw, phoneRaw);
      var later := Registered(users, r);
      Register(later, emailRaw, nameAgain, phoneAgain) == Existing(r.user)
  {
    var r := Register(users, emailRaw, nameRaw, phoneRaw);
    var later := Registered(users, r);
    var email := Lower(Strip(emailRaw));
    LowerIdempotent(Strip(emailRaw));
    var k := FindByEmail(users, email);
    if r.Created? {
      assert FindByEmail(later, email) == Some(|users|) by {
        assert later[|users|] == r.user;
        assert forall j :: 0 <= j < |users| ==> later[j] == users[j];
      }
    } else {
      assert FindByEmail(later, email) == k;
    }
  }

  /** After registering, logging in with the same reply finds the registered user. */
  lemma LoginAfterRegister(users: seq<User>, emailRaw: string, nameRaw: string, phoneRaw: string)
    ensures var r := Register(users, emailRaw, nameRaw, phoneRaw);
      Login(Registered(users, r), emailRaw) == Some(r.user)
  {
    var r := Register(users, emailRaw, nameRaw, phoneRaw);
    StripLower(emailRaw);
    RegisterIdempotent(users, emailRaw, nameRaw, phoneRaw, nameRaw, phoneRaw);
  }
}
