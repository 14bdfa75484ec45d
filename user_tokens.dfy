// The `create_user_with_token` management command: it creates a user, or finds the existing one, and gives it
// an API token, refusing anything that would let two users share an e-mail address the command sets or a token.
// The user table maps usernames to e-mail addresses; the token table maps token keys to usernames.

module UserTokens {
  import opened Wrappers
  import opened Text

  /** What a run leaves: its result (the message it returns or the CommandError it raises) and both tables. */
  datatype Outcome = Outcome(result: Result<string>, emails: map<string, string>, tokens: map<string, string>)

  /** Some other user has the e-mail address. */
  predicate EmailTakenByOther(emails: map<string, string>, username: string, email: string)
  {
    exists u :: u in emails && u != username && emails[u] == email
  }

  /** The user holds some token. */
  predicate HasToken(tokens: map<string, string>, username: string)
  {
    exists k :: k in tokens && tokens[k] == username
  }

  /** The tokens that do not belong to the user. */
  function TokensOfOthers(tokens: map<string, string>, username: string): (r: map<string, string>)
    ensures forall k :: k in r <==> k in tokens && tokens[k] != username
    ensures forall k :: k in r ==> r[k] == tokens[k]
  {
    map k | k in tokens && tokens[k] != username :: tokens[k]
  }

  const EmailTaken := "A different user with that e-mail address already exists"
  const EmailDiffers := "Username exists with different e-mail address and update was not specified"
  const TokenTaken := "That token value already exists for a different user"
  const AlreadySet := "Token already set"
  const UserCreated := "User created"
  const TokenUpdated := "Token updated"

  function TokenExists(username: string): string
  {
    "Token exists for user " + username + " and update was not specified"
  }

  const NoUsername := "The given username must be set"

  /**
   * Django's `normalize_email`, which `create_user` applies: an address with an "@" is stripped of surrounding
   * white space and its domain, after the last "@", is lower-cased; any other address is kept as given.
   */
  function NormalizeEmail(email: string): (r: string)
    ensures |r| <= |email|
  {
    match RSplitOnce(Strip(email, WhiteSpace), '@')
    case None => email
    case Some((name, domain)) => name + "@" + Lower(domain)
  }

  /**
   * The result of a run on the tables `emails` and `tokens`. A new user is made by `create_user`, which refuses
   * an empty username and stores the normalised address; an address changed with --update is stored as given.
   */
  function Provision(emails: map<string, string>, tokens: map<string, string>, username: string, email: string,
                     token: string, update: bool): Outcome
  {
    if EmailTakenByOther(emails, username, email) then Outcome(Err(CommandError(EmailTaken)), emails, tokens)
    else if username in emails then
      if emails[username] != email && !update then Outcome(Err(CommandError(EmailDiffers)), emails, tokens)
      else GiveToken(emails, emails[username := email], tokens, username, token, update)
    else if username == "" then Outcome(Err(ValueError(NoUsername)), emails, tokens)
    else GiveToken(emails, emails[username := NormalizeEmail(email)], tokens, username, token, update)
  }

  /** The address a successful run leaves the user with: as given for an existing user, normalised for a new one. */
  function StoredEmail(emails: map<string, string>, username: string, email: string): string
  {
    if username in emails then email else NormalizeEmail(email)
  }

  /** The token steps, once the user exists in `users`; `emails` is the table before the run. */
  function GiveToken(emails: map<string, string>, users: map<string, string>, tokens: map<string, string>,
                     username: string, token: string, update: bool): Outcome
  {
    var created := username !in emails;
    if token in tokens then
      if tokens[token] == username then Outcome(Ok(AlreadySet), users, tokens)
      else Outcome(Err(CommandError(TokenTaken)), if created then emails else users, tokens)
    else if HasToken(tokens, username) && !update then Outcome(Err(CommandError(TokenExists(username))), users, tokens)
    else Outcome(Ok(if created then UserCreated else TokenUpdated), users,
                 TokensOfOthers(tokens, username)[token := username])
  }

  /** Every token belongs to a user of the table, and no user holds two tokens. */
  predicate Consistent(emails: map<string, string>, tokens: map<string, string>)
  {
    (forall k :: k in tokens ==> tokens[k] in emails) &&
    (forall k1, k2 :: k1 in tokens && k2 in tokens && tokens[k1] == tokens[k2] ==> k1 == k2)
  }

  /** The user and token tables. */
  class Accounts {
    var emails: map<string, string>
    var tokens: map<string, string>

    constructor(emails: map<string, string>, tokens: map<string, string>)
      ensures this.emails == emails && this.tokens == tokens
    {
      this.emails := emails;
      this.tokens := tokens;
    }

    /** `Command.handle`: the checks and updates in the command's order. */
    method Handle(username: string, email: string, token: string, update: bool) returns (r: Result<string>)
      modifies this
      ensures Outcome(r, emails, tokens) == Provision(old(emails), old(tokens), username, email, token, update)
    {
      if exists u :: u in emails && u != username && emails[u] == email {
        return Err(CommandError(EmailTaken));
      }
      ghost var before := emails;
      var created := username !in emails;
      if !created {
        if emails[username] != email {
          if !update {
            return Err(CommandError(EmailDiffers));
          }
          emails := emails[username := email];
        }
      } else {
        if username == "" {
          return Err(ValueError(NoUsername));
        }
        emails := emails[username := NormalizeEmail(email)];
      }
      r := GrantToken(before, created, username, token, update);
    }

    /**
     * The token steps of `Command.handle`, once the user is in the table; `before` is the table before the run
     * and `created` says whether the run added the user.
     */
    method GrantToken(ghost before: map<string, string>, created: bool, username: string, token: string,
                      update: bool) returns (r: Result<string>)
      requires username in emails && emails == before[username := emails[username]] && created == (username !in before)
      modifies this
      ensures Outcome(r, emails, tokens) == GiveToken(before, old(emails), old(tokens), username, token, update)
    {
      if token in tokens {
        if tokens[token] == username {
          return Ok(AlreadySet);
        }
        if created {
          emails := map u | u in emails && u != username :: emails[u];
          assert emails == before;
        }
        return Err(CommandError(TokenTaken));
      }
      if exists k :: k in tokens && tokens[k] == username {
        if !update {
          return Err(CommandError(TokenExists(username)));
        }
        tokens := map k | k in tokens && tokens[k] != username :: tokens[k];
      } else {
        assert tokens == TokensOfOthers(tokens, username);
      }
      tokens := tokens[token := username];
      if created {
        return Ok(UserCreated);
      }
      return Ok(TokenUpdated);
    }
  }

  /** A run keeps the tables consistent, whatever it answers. */
  lemma ProvisionConsistent(emails: map<string, string>, tokens: map<string, string>, username: string,
                            email: string, token: string, update: bool)
    requires Consistent(emails, tokens)
    ensures var o := Provision(emails, tokens, username, email, token, update); Consistent(o.emails, o.tokens)
  {
    if !EmailTakenByOther(emails, username, email) && !(username in emails && emails[username] != email && !update) &&
       token !in tokens && !(HasToken(tokens, username) && !update) {
      NewTokenConsistent(emails, tokens, username, StoredEmail(emails, username, email), token);
    }
  }

  /** Giving the user a new token, in place of any it held, keeps the tables consistent. */
  lemma NewTokenConsistent(emails: map<string, string>, tokens: map<string, string>, username: string,
                           email: string, token: string)
    requires Consistent(emails, tokens) && token !in tokens
    ensures Consistent(emails[username := email], TokensOfOthers(tokens, username)[token := username])
  {
    var after := TokensOfOthers(tokens, username)[token := username];
    forall k1, k2 | k1 in after && k2 in after && after[k1] == after[k2]
      ensures k1 == k2
    {
      if k1 != token && k2 != token {
        assert tokens[k1] == tokens[k2];
      }
    }
  }

  /** An address another user holds stops the command before it changes anything. */
  lemma EmailClashChangesNothing(emails: map<string, string>, tokens: map<string, string>, username: string,
                                 email: string, token: string, update: bool, other: string)
    requires other in emails && other != username && emails[other] == email
    ensures Provision(emails, tokens, username, email, token, update) ==
            Outcome(Err(CommandError(EmailTaken)), emails, tokens)
  {
  }

  /**
   * An existing user with another address: without --update the command fails and changes nothing; with
   * --update the address is changed, whatever happens to the token afterwards.
   */
  lemma ChangedEmailNeedsUpdate(emails: map<string, string>, tokens: map<string, string>, username: string,
                                email: string, token: string, update: bool)
    requires !EmailTakenByOther(emails, username, email)
    requires username in emails && emails[username] != email
    ensures var o := Provision(emails, tokens, username, email, token, update);
      (!update ==> o.result.Err? && o.emails == emails && o.tokens == tokens) &&
      (update ==> o.emails == emails[username := email])
  {
  }

  /** A token the user already holds is reported, and the token table is left as it was. */
  lemma TokenAlreadySet(emails: map<string, string>, tokens: map<string, string>, username: string,
                        email: string, token: string, update: bool)
    requires !EmailTakenByOther(emails, username, email)
    requires username in emails && (emails[username] == email || update)
    requires token in tokens && tokens[token] == username
    ensures var o := Provision(emails, tokens, username, email, token, update);
      o.result == Ok(AlreadySet) && o.tokens == tokens
  {
  }

  /** A token held by another user fails the command, and a user created by this run is removed again. */
  lemma TokenOfAnotherUser(emails: map<string, string>, tokens: map<string, string>, username: string,
                           email: string, token: string, update: bool)
    requires !EmailTakenByOther(emails, username, email)
    requires username !in emails && username != ""
    requires token in tokens && tokens[token] != username
    ensures Provision(emails, tokens, username, email, token, update) ==
            Outcome(Err(CommandError(TokenTaken)), emails, tokens)
  {
  }

  /**
   * On success the token is the user's one token, the other users keep theirs, and the answer says whether the
   * user was created.
   */
  lemma SuccessGivesToken(emails: map<string, string>, tokens: map<string, string>, username: string,
                          email: string, token: string, update: bool)
    requires Provision(emails, tokens, username, email, token, update).result.Ok?
    requires Provision(emails, tokens, username, email, token, update).result.value != AlreadySet
    ensures var o := Provision(emails, tokens, username, email, token, update);
      token in o.tokens && o.tokens[token] == username &&
      (forall k :: k in o.tokens && o.tokens[k] == username ==> k == token) &&
      (forall k :: k in tokens && tokens[k] != username ==> k in o.tokens && o.tokens[k] == tokens[k]) &&
      o.emails == emails[username := StoredEmail(emails, username, email)] &&
      (o.result.value == UserCreated <==> username !in emails)
  {
    var stored := StoredEmail(emails, username, email);
    assert Provision(emails, tokens, username, email, token, update) ==
      GiveToken(emails, emails[username := stored], tokens, username, token, update);
    GiveTokenSuccess(emails, emails[username := stored], tokens, username, token, update);
  }

  /** The token steps, when they succeed with a new token. */
  lemma GiveTokenSuccess(emails: map<string, string>, users: map<string, string>, tokens: map<string, string>,
                         username: string, token: string, update: bool)
    requires GiveToken(emails, users, tokens, username, token, update).result.Ok?
    requires GiveToken(emails, users, tokens, username, token, update).result.value != AlreadySet
    ensures var o := GiveToken(emails, users, tokens, username, token, update);
      token in o.tokens && o.tokens[token] == username &&
      (forall k :: k in o.tokens && o.tokens[k] == username ==> k == token) &&
      (forall k :: k in tokens && tokens[k] != username ==> k in o.tokens && o.tokens[k] == tokens[k]) &&
      o.emails == users && (o.result.value == UserCreated <==> username !in emails)
  {
    assert token !in tokens;
  }

  /** An existing token without --update fails the command, with the token table unchanged. */
  lemma ExistingTokenNeedsUpdate(emails: map<string, string>, tokens: map<string, string>, username: string,
                                 email: string, token: string)
    requires !EmailTakenByOther(emails, username, email)
    requires username in emails && emails[username] == email
    requires token !in tokens && HasToken(tokens, username)
    ensures var o := Provision(emails, tokens, username, email, token, false);
      o.result == Err(CommandError(TokenExists(username))) &&
      o.tokens == tokens && o.emails == emails
  {
    assert emails[username := email] == emails;
  }
  /** A new user needs a name: an empty one is refused by `create_user` before any change. */
  lemma EmptyUsernameRefused(emails: map<string, string>, tokens: map<string, string>, email: string,
                             token: string, update: bool)
    requires !EmailTakenByOther(emails, "", email) && "" !in emails
    ensures Provision(emails, tokens, "", email, token, update) ==
            Outcome(Err(ValueError(NoUsername)), emails, tokens)
  {
  }

  /** A string whose ends are not stripped is its own strip. */
  lemma StripKeeps(x: string, chars: set<char>)
    requires x == [] || (x[0] !in chars && x[|x| - 1] !in chars)
    ensures Strip(x, chars) == x
  {
  }

  /** A stripped string starts and ends with a character that is not stripped. */
  lemma StripEnds(x: string, chars: set<char>)
    ensures var r := Strip(x, chars); r == [] || (r[0] !in chars && r[|r| - 1] !in chars)
  {
    var l := LStrip(x, chars);
    var r := RStrip(l, chars);
    if r != [] {
      assert r[0] == l[0];
    }
  }

  /** Stripping adds no character. */
  lemma StripKeepsFree(x: string, chars: set<char>, c: char)
    requires Free(x, c)
    ensures Free(Strip(x, chars), c)
  {
    var l := LStrip(x, chars);
    FreeSlice(x, |x| - |l|, |x|, c);
    assert l == x[|x| - |l|..|x|];
    var r := RStrip(l, chars);
    FreeSlice(l, 0, |r|, c);
    assert r == l[0..|r|];
  }

  /** A slice of a string without `c` has none either. */
  lemma FreeSlice(x: string, lo: nat, hi: nat, c: char)
    requires lo <= hi <= |x| && Free(x, c)
    ensures Free(x[lo..hi], c)
  {
    forall i | 0 <= i < hi - lo
      ensures x[lo..hi][i] != c
    {
      assert x[lo..hi][i] == x[lo + i];
    }
  }

  /** Lower-casing a character keeps white space and "@" what they are, and changes nothing a second time. */
  lemma LowerCharKeeps(c: char)
    ensures LowerChar(c) == '@' <==> c == '@'
    ensures LowerChar(c) in WhiteSpace <==> c in WhiteSpace
    ensures LowerChar(LowerChar(c)) == LowerChar(c)
  {
    WhiteSpaceIsSpace(c);
    WhiteSpaceIsSpace(LowerChar(c));
  }

  /** Lower-casing keeps white space and "@" where they are, and changes nothing a second time. */
  lemma LowerKeeps(d: string)
    ensures Free(d, '@') ==> Free(Lower(d), '@')
    ensures d != [] ==> (Lower(d)[|d| - 1] in WhiteSpace <==> d[|d| - 1] in WhiteSpace)
    ensures Lower(Lower(d)) == Lower(d)
  {
    var l := Lower(d);
    forall i | 0 <= i < |d|
      ensures (l[i] == '@' <==> d[i] == '@') && (l[i] in WhiteSpace <==> d[i] in WhiteSpace)
      ensures Lower(l)[i] == l[i]
    {
      LowerCharKeeps(d[i]);
    }
  }

  /**
   * An address without surrounding white space whose last "@" is followed by `domain` keeps its local part and
   * has its domain lower-cased.
   */
  lemma NormalizeEmailDomain(local: string, domain: string)
    requires Free(domain, '@')
    requires local == [] || local[0] !in WhiteSpace
    requires domain == [] || domain[|domain| - 1] !in WhiteSpace
    ensures NormalizeEmail(local + "@" + domain) == local + "@" + Lower(domain)
  {
    var e := local + "@" + domain;
    assert e[0] == (if local == [] then '@' else local[0]);
    assert e[|e| - 1] == (if domain == [] then '@' else domain[|domain| - 1]);
    StripKeeps(e, WhiteSpace);
    RSplitOnceAt(local, '@', domain);
  }

  /** An address without "@" is stored as given. */
  lemma NormalizeEmailNoAt(email: string)
    requires Free(email, '@')
    ensures NormalizeEmail(email) == email
  {
    StripKeepsFree(email, WhiteSpace, '@');
  }

  /** The parts of a stripped address, split at its last "@", meet what `NormalizeEmailDomain` needs. */
  lemma StrippedParts(email: string, local: string, domain: string)
    requires RSplitOnce(Strip(email, WhiteSpace), '@') == Some((local, domain))
    ensures local == [] || local[0] !in WhiteSpace
    ensures Lower(domain) == [] || Lower(domain)[|domain| - 1] !in WhiteSpace
    ensures Free(Lower(domain), '@') && Lower(Lower(domain)) == Lower(domain)
  {
    var s := Strip(email, WhiteSpace);
    StripEnds(email, WhiteSpace);
    assert s == local + "@" + domain;
    assert local != [] ==> s[0] == local[0];
    assert domain != [] ==> s[|s| - 1] == domain[|domain| - 1];
    LowerKeeps(domain);
  }

  /** Normalising a normalised address changes nothing. */
  lemma NormalizeEmailIdempotent(email: string)
    ensures NormalizeEmail(NormalizeEmail(email)) == NormalizeEmail(email)
  {
    match RSplitOnce(Strip(email, WhiteSpace), '@')
    case None =>
      NormalizeEmailNoAt(email);
    case Some((local, domain)) =>
      StrippedParts(email, local, domain);
      NormalizeEmailDomain(local, Lower(domain));
  }

  /** "a@EX.com" is stored as "a@ex.com". */
  lemma NormalizeEmailExample(local: string, domain: string)
    requires local == "a" && domain == "EX.com"
    ensures NormalizeEmail(local + "@" + domain) == local + "@ex.com"
  {
    ExampleEnds(local, domain);
    LowerExample(domain);
    NormalizeEmailDomain(local, domain);
  }

  lemma ExampleEnds(local: string, domain: string)
    requires local == "a" && domain == "EX.com"
    ensures Free(domain, '@') && local[0] !in WhiteSpace && domain[|domain| - 1] !in WhiteSpace
  {
    WhiteSpaceIsSpace(local[0]);
    WhiteSpaceIsSpace(domain[5]);
  }

  lemma LowerExample(domain: string)
    requires domain == "EX.com"
    ensures Lower(domain) == "ex.com"
  {
    var l := Lower(domain);
    assert l[0] == 'e' && l[1] == 'x' && l[2] == '.' && l[3] == 'c' && l[4] == 'o' && l[5] == 'm';
  }

  /**
   * A new user is stored with the normalised address, so running the command again with the same arguments
   * and no --update fails when normalising changed the address.
   */
  lemma RerunWithUnnormalisedEmail(emails: map<string, string>, tokens: map<string, string>, username: string,
                                   email: string, token: string)
    requires Consistent(emails, tokens)
    requires !EmailTakenByOther(emails, username, email) && username !in emails && username != ""
    requires token !in tokens && NormalizeEmail(email) != email
    ensures var first := Provision(emails, tokens, username, email, token, false);
      first.result == Ok(UserCreated) && first.emails == emails[username := NormalizeEmail(email)] &&
      Provision(first.emails, first.tokens, username, email, token, false) ==
      Outcome(Err(CommandError(EmailDiffers)), first.emails, first.tokens)
  {
    assert !HasToken(tokens, username);
    var first := Provision(emails, tokens, username, email, token, false);
    assert !EmailTakenByOther(first.emails, username, email);
  }
}
