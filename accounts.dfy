/** The user rows the account mutation works on, and the rule a new
    username must meet. The email pattern and the `\w` character class
    are parameters: `isEmail` says whether a search for the address
    pattern finds a match, `isWord` whether a character is a word
    character. */
module Accounts {
  import opened Common

  /** The columns of a user row the model touches. */
  datatype User = User(email: string, username: string)

  const MaxUsernameLength := 150

  /** A character of the class `[\w\.@+-]`. */
  predicate UsernameChar(c: char, isWord: char -> bool)
  {
    isWord(c) || c == '.' || c == '@' || c == '+' || c == '-'
  }

  predicate AllUsernameChars(s: string, isWord: char -> bool)
  {
    forall k :: 0 <= k < |s| ==> UsernameChar(s[k], isWord)
  }

  /** `re.search(r'^[\w\.@+-]+$', s)`: one or more class characters from
      the start, then the end of the string or a single newline that ends
      it (`$` without MULTILINE also matches before a final newline). */
  predicate UsernamePattern(s: string, isWord: char -> bool)
    ensures UsernamePattern(s, isWord) ==> |s| >= 1
    ensures |s| >= 1 && AllUsernameChars(s, isWord) ==> UsernamePattern(s, isWord)
    ensures UsernamePattern(s, isWord) && s[|s| - 1] != '\n' ==> AllUsernameChars(s, isWord)
  {
    (|s| >= 1 && AllUsernameChars(s, isWord))
    || (|s| >= 2 && s[|s| - 1] == '\n' && AllUsernameChars(s[..|s| - 1], isWord))
  }

  /** A username the mutation accepts: it matches the pattern and has at
      most 150 characters, the newline counted. */
  predicate UsernameValid(s: string, isWord: char -> bool)
    ensures UsernameValid(s, isWord) ==> 1 <= |s| <= MaxUsernameLength
    ensures 1 <= |s| <= MaxUsernameLength && AllUsernameChars(s, isWord) ==> UsernameValid(s, isWord)
  {
    UsernamePattern(s, isWord) && |s| <= MaxUsernameLength
  }

  /** An accepted username is non-empty and at most 150 characters long,
      and every character is a class character except perhaps a final
      newline. */
  lemma UsernameValidShape(s: string, isWord: char -> bool)
    requires UsernameValid(s, isWord)
    ensures 1 <= |s| <= MaxUsernameLength
    ensures forall k :: 0 <= k < |s| - 1 ==> UsernameChar(s[k], isWord)
    ensures UsernameChar(s[|s| - 1], isWord) || s[|s| - 1] == '\n'
  {
    if !AllUsernameChars(s, isWord) {
      forall k | 0 <= k < |s| - 1 ensures UsernameChar(s[k], isWord) {
        assert s[..|s| - 1][k] == s[k];
      }
    }
  }

  /** Because of how `$` matches, a valid username of fewer than 150
      characters followed by a newline is accepted too; a second newline
      is not, when the newline is not a word character. */
  lemma TrailingNewlineAccepted(s: string, isWord: char -> bool)
    requires |s| >= 1 && AllUsernameChars(s, isWord) && |s| < MaxUsernameLength
    requires !isWord('\n')
    ensures UsernameValid(s + "\n", isWord)
    ensures !UsernameValid(s + "\n\n", isWord)
  {
    assert (s + "\n")[..|s|] == s;
    var t := s + "\n\n";
    assert t[|t| - 2] == '\n' && !UsernameChar(t[|t| - 2], isWord);
    assert t[..|t| - 1][|t| - 2] == '\n';
  }

  /** The ids of the users whose email is `email`. */
  function EmailHolders(users: map<UserId, User>, email: string): (h: set<UserId>)
    ensures forall u :: u in h <==> u in users && users[u].email == email
  {
    set u | u in users && users[u].email == email
  }

  /** The ids of the users whose username is `username`: the same lookup
      as `EmailHolders`, on the username column, since the mutation makes
      a second, separate query for it. */
  function UsernameHolders(users: map<UserId, User>, username: string): (h: set<UserId>)
    ensures forall u :: u in h <==> u in users && users[u].username == username
  {
    set u | u in users && users[u].username == username
  }

  /** No two users share a username (the username column is unique). */
  ghost predicate UsernamesUnique(users: map<UserId, User>)
  {
    forall a, b :: a in users && b in users && users[a].username == users[b].username ==> a == b
  }

  /** With unique usernames, a username is held by one user at most. */
  lemma AtMostOneHolder(users: map<UserId, User>, username: string)
    requires UsernamesUnique(users)
    ensures |UsernameHolders(users, username)| <= 1
  {
    var h := UsernameHolders(users, username);
    if h != {} {
      var a :| a in h;
      assert h == {a};
    }
  }

  /** An email lookup with `get` finds exactly one row, and that row's
      email differs from the caller's: the address belongs to another
      user. When no row or several rows hold it, `get` raises and the
      address counts as free. */
  predicate EmailTaken(users: map<UserId, User>, me: UserId, email: string)
    requires me in users
    ensures EmailTaken(users, me, email) ==> me !in EmailHolders(users, email)
    ensures !EmailTaken(users, me, email) && |EmailHolders(users, email)| == 1
            ==> me in EmailHolders(users, email)
  {
    |EmailHolders(users, email)| == 1 && users[me].email != email
  }

  /** The same test for usernames. */
  predicate UsernameTaken(users: map<UserId, User>, me: UserId, username: string)
    requires me in users
    ensures UsernameTaken(users, me, username) ==> me !in UsernameHolders(users, username)
    ensures !UsernameTaken(users, me, username) && |UsernameHolders(users, username)| == 1
            ==> me in UsernameHolders(users, username)
  {
    |UsernameHolders(users, username)| == 1 && users[me].username != username
  }

  /** A taken email is held by exactly one user other than the caller. */
  lemma EmailTakenByAnother(users: map<UserId, User>, me: UserId, email: string)
    requires me in users
    ensures EmailTaken(users, me, email) <==>
              exists other :: other != me && EmailHolders(users, email) == {other}
  {
    var h := EmailHolders(users, email);
    if EmailTaken(users, me, email) {
      var other :| other in h;
      assert h == {other} by {
        assert |h - {other}| == 0;
      }
    }
  }

  /** A free username under unique usernames has no holder at all, or
      the caller holds it. */
  lemma FreeUsername(users: map<UserId, User>, me: UserId, username: string)
    requires me in users && UsernamesUnique(users)
    requires !UsernameTaken(users, me, username)
    ensures UsernameHolders(users, username) == {} || users[me].username == username
  {
    AtMostOneHolder(users, username);
  }

  /** The outcome of an account update and the caller's row after it. */
  datatype Update = Update(outcome: Outcome, user: User)

  /** The email part of `UpdateDetails`, for a given email: refused when
      it does not match the pattern; when exactly one row holds it, the
      caller's row is left as it is and the update refused if that row is
      another user's; otherwise the email is written to the caller's row. */
  function EmailStep(users: map<UserId, User>, me: UserId, email: string, isEmail: string -> bool): (d: Update)
    requires me in users
    ensures d.user.username == users[me].username
    ensures d.outcome == Ok ==> d.user.email == email
  {
    if !isEmail(email) then Update(Err(InvalidEmail), users[me])
    else if EmailTaken(users, me, email) then Update(Err(EmailInUse), users[me])
    else if |EmailHolders(users, email)| != 1 then Update(Ok, users[me].(email := email))
    else Update(Ok, users[me])
  }

  /** The username part, for a given username, with `user` the caller's
      row as the email part left it: refused when invalid or held by
      another user; otherwise written when nobody holds it. */
  function UsernameStep(users: map<UserId, User>, me: UserId, user: User, username: string,
                        isWord: char -> bool): (d: Update)
    requires me in users && user.username == users[me].username
    ensures d.user.email == user.email
    ensures d.outcome != Ok ==> d.user == user
  {
    if !UsernameValid(username, isWord) then Update(Err(InvalidUsername), user)
    else if UsernameTaken(users, me, username) then Update(Err(UsernameInUse), user)
    else if |UsernameHolders(users, username)| != 1 then Update(Ok, user.(username := username))
    else Update(Ok, user)
  }

  /** The username part reads only usernames: writing the caller's new
      email first does not change it. */
  lemma UsernameStepIgnoresEmail(users: map<UserId, User>, me: UserId, user: User, username: string,
                                 isWord: char -> bool)
    requires me in users && user.username == users[me].username
    ensures UsernameStep(users[me := user], me, user, username, isWord)
            == UsernameStep(users, me, user, username, isWord)
  {
    assert UsernameHolders(users[me := user], username) == UsernameHolders(users, username);
  }

  /** `UpdateDetails` as a function: the checks in the order the mutation
      makes them; a valid free email is written before the username is
      looked at, so a later refusal keeps it. */
  function DetailsAfter(users: map<UserId, User>, me: UserId, email: string, username: string,
                        isEmail: string -> bool, isWord: char -> bool): (d: Update)
    requires me in users
    ensures d.outcome != Ok ==> d.user.username == users[me].username
  {
    if email == "" && username == "" then Update(Err(NoDetailsGiven), users[me])
    else
      var e := if email != "" then EmailStep(users, me, email, isEmail) else Update(Ok, users[me]);
      if e.outcome != Ok || username == "" then e
      else UsernameStep(users, me, e.user, username, isWord)
  }

  /** When the update succeeds, the caller's row holds exactly the
      details given, and it succeeds exactly when something is given,
      a given email matches the pattern and is not taken, and a given
      username is valid and not taken. */
  lemma DetailsAfterOk(users: map<UserId, User>, me: UserId, email: string, username: string,
                       isEmail: string -> bool, isWord: char -> bool)
    requires me in users && UsernamesUnique(users)
    ensures var d := DetailsAfter(users, me, email, username, isEmail, isWord);
            d.outcome == Ok <==>
              && (email != "" || username != "")
              && (email != "" ==> isEmail(email) && !EmailTaken(users, me, email))
              && (username != "" ==> UsernameValid(username, isWord) && !UsernameTaken(users, me, username))
    ensures var d := DetailsAfter(users, me, email, username, isEmail, isWord);
            d.outcome == Ok ==>
              d.user == User(if email != "" then email else users[me].email,
                             if username != "" then username else users[me].username)
  {
    if email != "" && |EmailHolders(users, email)| == 1 && !EmailTaken(users, me, email) {
      assert users[me].email == email;
    }
    if username != "" && !UsernameTaken(users, me, username) {
      FreeUsername(users, me, username);
    }
  }

  /** An email that belongs to another user refuses the update and
      leaves both the email and the username as they were. */
  lemma EmailInUseChangesNothing(users: map<UserId, User>, me: UserId, email: string, username: string,
                                 isEmail: string -> bool, isWord: char -> bool)
    requires me in users && email != "" && isEmail(email) && EmailTaken(users, me, email)
    ensures DetailsAfter(users, me, email, username, isEmail, isWord) == Update(Err(EmailInUse), users[me])
  {
  }

  /** Resubmitting one's own email, with no username, succeeds and
      changes nothing. */
  lemma OwnEmailChangesNothing(users: map<UserId, User>, me: UserId, isEmail: string -> bool,
                               isWord: char -> bool)
    requires me in users && users[me].email != "" && isEmail(users[me].email)
    ensures DetailsAfter(users, me, users[me].email, "", isEmail, isWord) == Update(Ok, users[me])
  {
    var e := users[me].email;
    assert me in EmailHolders(users, e);
  }

  /** A valid email that is not taken is written to the caller's row
      before the username is looked at, so it is kept whatever happens
      to the username: invalid, taken or accepted. */
  lemma EmailSavedBeforeUsernameCheck(users: map<UserId, User>, me: UserId, email: string, username: string,
                                      isEmail: string -> bool, isWord: char -> bool)
    requires me in users && email != "" && isEmail(email) && !EmailTaken(users, me, email)
    ensures DetailsAfter(users, me, email, username, isEmail, isWord).user.email == email
    ensures username != "" && !UsernameValid(username, isWord) ==>
              DetailsAfter(users, me, email, username, isEmail, isWord) == Update(Err(InvalidUsername), users[me].(email := email))
    ensures username != "" && UsernameValid(username, isWord) && UsernameTaken(users, me, username) ==>
              DetailsAfter(users, me, email, username, isEmail, isWord) == Update(Err(UsernameInUse), users[me].(email := email))
  {
    var e := EmailStep(users, me, email, isEmail);
    assert e.user == users[me].(email := email);
  }

  /** When two or more users already share an address, `get` raises, the
      bare `except` catches it and the caller's new email is saved: the
      address is never refused as taken. */
  lemma SharedEmailNotRefused(users: map<UserId, User>, me: UserId, email: string,
                              isEmail: string -> bool, isWord: char -> bool)
    requires me in users && email != "" && isEmail(email) && |EmailHolders(users, email)| >= 2
    ensures !EmailTaken(users, me, email)
    ensures DetailsAfter(users, me, email, "", isEmail, isWord) == Update(Ok, users[me].(email := email))
  {
  }

  /** An instance of the case above: two users share an address and a
      third takes it too. */
  lemma SharedEmailExample(isEmail: string -> bool, isWord: char -> bool)
    requires isEmail("x@y.z")
    ensures var users := map["a" := User("x@y.z", "a"), "b" := User("x@y.z", "b"), "me" := User("", "me")];
            DetailsAfter(users, "me", "x@y.z", "", isEmail, isWord) == Update(Ok, User("x@y.z", "me"))
  {
    var users := map["a" := User("x@y.z", "a"), "b" := User("x@y.z", "b"), "me" := User("", "me")];
    assert EmailHolders(users, "x@y.z") == {"a", "b"};
    SharedEmailNotRefused(users, "me", "x@y.z", isEmail, isWord);
  }

  /** The caller's new row keeps usernames unique. */
  lemma DetailsAfterKeepsUsernamesUnique(users: map<UserId, User>, me: UserId, email: string, username: string,
                                         isEmail: string -> bool, isWord: char -> bool)
    requires me in users && UsernamesUnique(users)
    ensures UsernamesUnique(users[me := DetailsAfter(users, me, email, username, isEmail, isWord).user])
  {
    var d := DetailsAfter(users, me, email, username, isEmail, isWord);
    if d.user.username != users[me].username {
      FreeUsername(users, me, username);
      assert d.user.username == username;
      forall a | a in users && a != me ensures users[a].username != username {
        assert a !in UsernameHolders(users, username);
      }
    }
  }

  /** The user table. */
  class Directory {
    var users: map<UserId, User>

    ghost predicate Valid()
      reads this
    {
      UsernamesUnique(users)
    }

    constructor ()
      ensures Valid() && users == map[]
    {
      users := map[];
    }
  }
}
