/** The account mutation. The caller is authenticated: `me` is the id of
    the logged-in user. */
module UserMutation {
  import opened Common
  import opened Accounts

  /** `UpdateDetails`: a new email is checked against the address
      pattern and looked up; a free one is saved at once, while a taken
      one is reported only after the lookup. Then the username is
      checked against the pattern and length and looked up the same
      way. */
  method UpdateDetails(dir: Directory, me: UserId, email: string, username: string,
                       isEmail: string -> bool, isWord: char -> bool)
    returns (r: Outcome)
    requires dir.Valid() && me in dir.users
    modifies dir
    ensures dir.Valid()
    ensures r == DetailsAfter(old(dir.users), me, email, username, isEmail, isWord).outcome
    ensures dir.users == old(dir.users)[me := DetailsAfter(old(dir.users), me, email, username, isEmail, isWord).user]
  {
    DetailsAfterKeepsUsernamesUnique(dir.users, me, email, username, isEmail, isWord);
    if email == "" && username == "" {
      return Err(NoDetailsGiven);
    }
    var user := dir.users[me];
    assert dir.users == old(dir.users)[me := user];
    if email != "" {
      user, r := SaveEmail(dir, me, email, isEmail);
      if r != Ok {
        return;
      }
    }
    r := Ok;
    if username != "" {
      UsernameStepIgnoresEmail(old(dir.users), me, user, username, isWord);
      r := SaveUsername(dir, me, user, username, isWord);
      UpdateTwice(old(dir.users), me, user, UsernameStep(old(dir.users), me, user, username, isWord).user);
    }
  }

  /** The email part of `UpdateDetails`. A taken email is recorded as a
      pending error and reported after the lookup. */
  method SaveEmail(dir: Directory, me: UserId, email: string, isEmail: string -> bool)
    returns (user: User, r: Outcome)
    requires me in dir.users
    modifies dir
    ensures user == EmailStep(old(dir.users), me, email, isEmail).user
    ensures r == EmailStep(old(dir.users), me, email, isEmail).outcome
    ensures dir.users == old(dir.users)[me := user]
  {
    user := dir.users[me];
    assert dir.users == dir.users[me := user];
    if !isEmail(email) {
      return user, Err(InvalidEmail);
    }
    var error: Option<Error> := None;
    if |EmailHolders(dir.users, email)| == 1 {
      if user.email != email {
        error := Some(EmailInUse);
      }
    } else {
      user := user.(email := email);
      dir.users := dir.users[me := user];
    }
    if error.Some? {
      return user, Err(error.value);
    }
    r := Ok;
  }

  /** The username part of `UpdateDetails`, with `user` the caller's row
      as the email part left it. */
  method SaveUsername(dir: Directory, me: UserId, user: User, username: string, isWord: char -> bool)
    returns (r: Outcome)
    requires me in dir.users && dir.users[me] == user
    modifies dir
    ensures r == UsernameStep(old(dir.users), me, user, username, isWord).outcome
    ensures dir.users == old(dir.users)[me := UsernameStep(old(dir.users), me, user, username, isWord).user]
  {
    assert dir.users == dir.users[me := user];
    if !UsernamePattern(username, isWord) || |username| > MaxUsernameLength {
      return Err(InvalidUsername);
    }
    var error: Option<Error> := None;
    if |UsernameHolders(dir.users, username)| == 1 {
      if user.username != username {
        error := Some(UsernameInUse);
      }
    } else {
      dir.users := dir.users[me := user.(username := username)];
    }
    if error.Some? {
      return Err(error.value);
    }
    r := Ok;
  }
}
