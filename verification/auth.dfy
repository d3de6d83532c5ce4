/** The credential rules of the server: the e-mail pattern a username must
    match, the password length rule, and the decisions of registration and
    login over the user table (e-mail to password hash). The table is a value
    here, loaded before and saved after; the password hash is a parameter. */
module Auth {
  import opened PyText

  /** The user table: e-mail address to password hash. */
  type Users = map<string, string>

  // ------------------------------------------------------------------
  // The e-mail pattern  ^[A-Za-z0-9._%+-]+@[A-Za-z0-9.-]+\.[A-Za-z]{2,}$

  predicate IsLetter(c: char) {
    'A' <= c <= 'Z' || 'a' <= c <= 'z'
  }

  /** A character of the part before the "@". */
  predicate IsLocalChar(c: char) {
    IsLetter(c) || IsDigit(c) || c == '.' || c == '_' || c == '%' || c == '+' || c == '-'
  }

  /** A character of the part between the "@" and the last ".". */
  predicate IsDomainChar(c: char) {
    IsLetter(c) || IsDigit(c) || c == '.' || c == '-'
  }

  predicate AllLocal(s: string) {
    forall i :: 0 <= i < |s| ==> IsLocalChar(s[i])
  }

  predicate AllDomain(s: string) {
    forall i :: 0 <= i < |s| ==> IsDomainChar(s[i])
  }

  predicate AllLetters(s: string) {
    forall i :: 0 <= i < |s| ==> IsLetter(s[i])
  }

  /** `s` reads as local "@" domain "." tld with the "@" at index `at` and the
      "." at index `dot`: a non-empty local part, a non-empty domain, and a
      top-level domain of at least two letters running to the end. */
  predicate SplitsAt(s: string, at: nat, dot: nat) {
    && 0 < at && at + 1 < dot && dot + 2 < |s|
    && s[at] == '@' && s[dot] == '.'
    && AllLocal(s[..at]) && AllDomain(s[at + 1..dot]) && AllLetters(s[dot + 1..])
  }

  /** The pattern matches the whole of `s`. */
  ghost predicate MatchesWhole(s: string) {
    exists at: nat, dot: nat :: SplitsAt(s, at, dot)
  }

  /** What `re.match` answers for the anchored pattern: `$` also matches just
      before a single "\n" that ends the text, so that newline may follow. */
  ghost predicate MatchesPattern(s: string) {
    || MatchesWhole(s)
    || (|s| > 0 && s[|s| - 1] == '\n' && MatchesWhole(s[..|s| - 1]))
  }

  /** The index of the last `c` in `s`, or -1. */
  function LastIndexOf(s: string, c: char): (i: int)
    ensures -1 <= i < |s|
    ensures i >= 0 ==> s[i] == c
    ensures forall j :: i < j < |s| ==> s[j] != c
  {
    if |s| == 0 then -1
    else if s[|s| - 1] == c then |s| - 1
    else LastIndexOf(s[..|s| - 1], c)
  }

  /** Try the only split the pattern can use: no class before the "." holds
      "@", so the "@" is the first one; the top-level domain holds no ".",
      so the "." is the last one. */
  predicate MatchesAtCandidates(s: string) {
    var dot := LastIndexOf(s, '.');
    dot >= 0 && SplitsAt(s, IndexOf(s, '@'), dot)
  }

  /** `is_valid_email(email)`. */
  function IsValidEmail(email: string): (b: bool)
    ensures b <==> MatchesPattern(email)
  {
    CandidatesDecide(email);
    CandidatesDecide(if |email| > 0 then email[..|email| - 1] else email);
    || MatchesAtCandidates(email)
    || (|email| > 0 && email[|email| - 1] == '\n' && MatchesAtCandidates(email[..|email| - 1]))
  }

  /** Checking the first "@" and the last "." decides the pattern. */
  lemma CandidatesDecide(s: string)
    ensures MatchesAtCandidates(s) <==> MatchesWhole(s)
  {
    if MatchesWhole(s) {
      var at: nat, dot: nat :| SplitsAt(s, at, dot);
      FirstAt(s, at);
      LastDot(s, dot);
    }
  }

  lemma FirstAt(s: string, at: nat)
    requires at < |s| && s[at] == '@' && AllLocal(s[..at])
    ensures IndexOf(s, '@') == at
  {
    forall j | 0 <= j < at ensures s[j] != '@' {
      assert IsLocalChar(s[..at][j]);
    }
    IndexOfFirst(s, '@', at);
  }

  lemma LastDot(s: string, dot: nat)
    requires dot < |s| && s[dot] == '.' && AllLetters(s[dot + 1..])
    ensures LastIndexOf(s, '.') == dot
  {
    forall j | dot < j < |s| ensures s[j] != '.' {
      assert IsLetter(s[dot + 1..][j - dot - 1]);
    }
    LastIndexOfLast(s, '.', dot);
  }

  lemma {:induction false} LastIndexOfLast(s: string, c: char, k: nat)
    requires k < |s| && s[k] == c && forall j :: k < j < |s| ==> s[j] != c
    ensures LastIndexOf(s, c) == k
    decreases |s|
  {
    if k < |s| - 1 {
      var t := s[..|s| - 1];
      assert t[k] == c;
      forall j | k < j < |t| ensures t[j] != c {
        assert t[j] == s[j];
      }
      LastIndexOfLast(t, c, k);
    }
  }

  /** An address that matches stays accepted with one "\n" after it, but
      not with two. */
  lemma TrailingNewline(s: string)
    requires MatchesWhole(s)
    ensures MatchesPattern(s + "\n")
    ensures !MatchesPattern(s + "\n\n")
  {
    assert (s + "\n")[..|s|] == s;
    var t := s + "\n\n";
    NoSplitEndingInNewline(t);
    NoSplitEndingInNewline(t[..|t| - 1]);
  }

  /** No split of the pattern ends in "\n". */
  lemma NoSplitEndingInNewline(s: string)
    requires |s| > 0 && s[|s| - 1] == '\n'
    ensures !MatchesWhole(s)
  {
    if MatchesWhole(s) {
      var at: nat, dot: nat :| SplitsAt(s, at, dot);
      SplitEndsInLetter(s, at, dot);
      assert false;
    }
  }

  lemma SplitEndsInLetter(s: string, at: nat, dot: nat)
    requires SplitsAt(s, at, dot)
    ensures IsLetter(s[|s| - 1])
  {
    assert s[dot + 1..][|s| - dot - 2] == s[|s| - 1];
  }

  /** A plain address matches. */
  lemma PlainEmail()
    ensures MatchesPattern("ada@example.org")
  {
    assert SplitsAt("ada@example.org", 3, 11);
  }

  /** An address with a "+" tag and a sub-domain matches. */
  lemma TaggedEmail()
    ensures MatchesPattern("a+b@m.ex.co")
  {
    assert SplitsAt("a+b@m.ex.co", 3, 8);
  }

  /** A single-letter top-level domain does not match. */
  lemma ShortTldRejected()
    ensures !MatchesPattern("ada@example.o")
  {
    var s := "ada@example.o";
    assert LastIndexOf(s, '.') == 11 by { LastDot(s, 11); }
    assert IndexOf(s, '@') == 3 by { FirstAt(s, 3); }
    CandidatesDecide(s);
    assert s[|s| - 1] != '\n';
  }

  // ------------------------------------------------------------------
  // The password rule

  const MinPasswordLength := 8

  /** `is_valid_password(password)`: long enough, counting characters. */
  function IsValidPassword(password: string): (b: bool)
    ensures b <==> |password| >= MinPasswordLength
  {
    if |password| < MinPasswordLength then false else true
  }

  // ------------------------------------------------------------------
  // Registration and login

  /** The answer of `register_user` and the table it leaves saved. */
  datatype Registration = Registration(ok: bool, message: string, users: Users)

  const InvalidEmail := "Enter a valid email address"
  const ShortPassword := "Password must be at least 8 characters"
  const AlreadyExists := "User already exists"
  const Registered := "Registration successful"

  /** `register_user(username, password)` on the loaded table `users`: the
      e-mail rule first, then the password rule, then the duplicate check;
      only a success adds the user and saves the table. */
  function Register(users: Users, username: string, password: string,
                    hash: string -> string): (r: Registration)
    ensures r.ok <==> MatchesPattern(username) && |password| >= MinPasswordLength && username !in users
    ensures !r.ok ==> r.users == users
    ensures r.ok ==> r.users == users[username := hash(password)] && r.message == Registered
    ensures !MatchesPattern(username) ==> r.message == InvalidEmail
    ensures MatchesPattern(username) && |password| < MinPasswordLength ==> r.message == ShortPassword
    ensures MatchesPattern(username) && |password| >= MinPasswordLength && username in users ==>
              r.message == AlreadyExists
  {
    if !IsValidEmail(username) then Registration(false, InvalidEmail, users)
    else if !IsValidPassword(password) then Registration(false, ShortPassword, users)
    else if username in users then Registration(false, AlreadyExists, users)
    else Registration(true, Registered, users[username := hash(password)])
  }

  /** `validate_user(username, password)` on the loaded table `users`. */
  function Validate(users: Users, username: string, password: string,
                    hash: string -> string): (b: bool)
    ensures b <==> MatchesPattern(username) && username in users && users[username] == hash(password)
  {
    if !IsValidEmail(username) then false
    else if username !in users then false
    else users[username] == hash(password)
  }

  /** Every user in the table has an address the pattern accepts. */
  ghost predicate AllValidEmails(users: Users) {
    forall u :: u in users ==> MatchesPattern(u)
  }

  /** After a successful registration, logging in with the same password
      succeeds. */
  lemma RegisterThenValidate(users: Users, u: string, p: string, hash: string -> string)
    ensures Register(users, u, p, hash).ok ==> Validate(Register(users, u, p, hash).users, u, p, hash)
  {
  }

  /** Registration leaves every other user's login answers as they were. */
  lemma RegisterKeepsOthers(users: Users, u: string, p: string, hash: string -> string,
                            other: string, q: string)
    requires other != u
    ensures Validate(Register(users, u, p, hash).users, other, q, hash)
         == Validate(users, other, q, hash)
  {
  }

  /** A registered address cannot be registered again, whatever the password;
      a short password is reported before the duplicate. */
  lemma RegisterTwice(users: Users, u: string, p: string, q: string, hash: string -> string)
    ensures var r := Register(users, u, p, hash);
      r.ok ==> Register(r.users, u, q, hash)
               == Registration(false, if |q| >= MinPasswordLength then AlreadyExists else ShortPassword, r.users)
  {
  }

  /** Registration keeps the table holding only addresses the pattern accepts. */
  lemma RegisterKeepsEmailsValid(users: Users, u: string, p: string, hash: string -> string)
    requires AllValidEmails(users)
    ensures AllValidEmails(Register(users, u, p, hash).users)
  {
  }
}
