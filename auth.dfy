/**
  The ledger logic of `AuthenticationController`: `login`, `refreshToken`
  and their helpers `getToken` and `revokeAllUserTokens`.

  The signed-token codec is not part of this model: the strings it mints and
  its verdict on a refresh token are inputs. The collaborators that resolve a
  user (the authentication service on login, the e-mail lookup on refresh)
  are inputs too: `None` stands for the exception they throw, which happens
  before the ledger is touched.
 */
module Authentication {

  import opened Tokens
  import opened TokenStore

  datatype Option<T> = None | Some(value: T)

  /** What the response body carries that the ledger logic decides: the user
      and the two token strings. */
  datatype LoginResponse = LoginResponse(userId: UserId, accessToken: string, refreshToken: string)

  datatype LoginOutcome = LoggedIn(response: LoginResponse) | AuthenticationFailed

  /** `Refreshed` is a body with the tokens; `EmptyBody` is the `null` body sent
      with status 200 when the refresh token does not validate; `UserNotFound`
      is the exception of the failed user lookup, thrown either by decoding
      the e-mail out of the refresh token (`getUsername`, for instance on a
      malformed or expired token) or by `findByEmail(...).orElseThrow()`. */
  datatype RefreshOutcome = Refreshed(response: LoginResponse) | EmptyBody | UserNotFound

  /** The new row `getToken` saves for an access token, once the store has
      given it the next id. */
  function AccessRow(s: seq<Token>, user: UserId, accessToken: string): (t: Token)
    ensures t.id == |s| && t.token == accessToken && IsLiveFor(t, user)
  {
    Token(|s|, user, accessToken, false, false)
  }

  /** The ledger after a login (or a successful refresh) of `user` that is
      issued `accessToken`: every live row of the user revoked, then the new
      access row appended. */
  function AfterLogin(s: seq<Token>, user: UserId, accessToken: string): (r: seq<Token>)
    ensures |r| == |s| + 1
    ensures r[|s|].id == |s| && r[|s|].token == accessToken && IsLiveFor(r[|s|], user)
    ensures IdsArePositions(s) ==> IdsArePositions(r)
  {
    var r := RevokeAll(s, user);
    r + [AccessRow(r, user, accessToken)]
  }

  /** Revoking the batch `findAllValidTokensByUser` returned and writing it
      back with `saveAll` is the same as revoking the user's live rows in
      place. */
  lemma RevokeBatchWriteBack(s: seq<Token>, user: UserId)
    requires IdsArePositions(s)
    ensures forall t :: t in RevokeEach(ValidTokens(s, user)) ==> t.id < |s|
    ensures WriteBack(s, RevokeEach(ValidTokens(s, user))) == RevokeAll(s, user)
  {
    var found := ValidTokens(s, user);
    var batch := RevokeEach(found);
    forall t | t in batch
      ensures t.id < |s| && t == Revoke(s[t.id]) && IsLiveFor(s[t.id], user)
    {
      var k :| 0 <= k < |batch| && batch[k] == t;
      assert found[k] in found;
      var j :| 0 <= j < |s| && s[j] == found[k];
    }
    WriteBackAt(s, batch);
    var w := WriteBack(s, batch);
    forall i | 0 <= i < |s|
      ensures w[i] == RevokeAll(s, user)[i]
    {
      if IsLiveFor(s[i], user) {
        assert s[i] in found;
        var k :| 0 <= k < |found| && found[k] == s[i];
        assert batch[k] in batch;
      }
    }
  }

  /** A login grows the ledger by exactly one row and leaves the user exactly
      one live row: the access token it just issued. */
  lemma LoginLeavesSingleLiveToken(s: seq<Token>, user: UserId, accessToken: string)
    ensures |AfterLogin(s, user, accessToken)| == |s| + 1
    ensures ValidTokens(AfterLogin(s, user, accessToken), user) == [Token(|s|, user, accessToken, false, false)]
  {
    var r := RevokeAll(s, user);
    RevokeAllValidTokens(s, user, user);
    ValidTokensAppend(r, AccessRow(r, user, accessToken), user);
  }

  /** A login of `user` touches no row of another user, and so leaves another
      user's live rows as they were. */
  lemma LoginKeepsOtherUsers(s: seq<Token>, user: UserId, other: UserId, accessToken: string)
    requires other != user
    ensures forall i :: 0 <= i < |s| && s[i].userId != user ==> AfterLogin(s, user, accessToken)[i] == s[i]
    ensures ValidTokens(AfterLogin(s, user, accessToken), other) == ValidTokens(s, other)
  {
    var r := RevokeAll(s, user);
    RevokeAllValidTokens(s, user, other);
    ValidTokensAppend(r, AccessRow(r, user, accessToken), other);
  }

  /** The only token string a login adds to the ledger is the access token:
      a row holding the refresh token either was there before or holds a
      refresh token that equals the access token. */
  lemma LoginStoresNoRefreshToken(s: seq<Token>, user: UserId, accessToken: string, refreshToken: string)
    ensures forall i :: 0 <= i < |AfterLogin(s, user, accessToken)| && AfterLogin(s, user, accessToken)[i].token == refreshToken ==>
              (i < |s| && s[i].token == refreshToken) || refreshToken == accessToken
  {
  }

  /** No user holds more than one live row. */
  ghost predicate AtMostOneLive(s: seq<Token>)
  {
    forall u :: |ValidTokens(s, u)| <= 1
  }

  /** Logins keep every user at no more than one live row. */
  lemma LoginPreservesAtMostOneLive(s: seq<Token>, user: UserId, accessToken: string)
    requires AtMostOneLive(s)
    ensures AtMostOneLive(AfterLogin(s, user, accessToken))
  {
    forall u
      ensures |ValidTokens(AfterLogin(s, user, accessToken), u)| <= 1
    {
      if u == user {
        LoginLeavesSingleLiveToken(s, user, accessToken);
      } else {
        LoginKeepsOtherUsers(s, user, u, accessToken);
      }
    }
  }

  /** Two logins in a row: the first access row is revoked and the second is
      the only live row of the user. */
  lemma SecondLoginRevokesFirst(s: seq<Token>, user: UserId, first: string, second: string)
    ensures var s2 := AfterLogin(AfterLogin(s, user, first), user, second);
            |s2| == |s| + 2 && s2[|s|].token == first && s2[|s|].revoked && s2[|s|].expired &&
            ValidTokens(s2, user) == [Token(|s| + 1, user, second, false, false)]
  {
    var s1 := AfterLogin(s, user, first);
    LoginLeavesSingleLiveToken(s1, user, second);
  }

  class AuthenticationController {
    const tokenService: TokenService

    constructor (tokenService: TokenService)
      ensures this.tokenService == tokenService
    {
      this.tokenService := tokenService;
    }

    /** Returns the token the codec minted; an access token (not a refresh
        token) is also saved as a new live row of the user. */
    method GetToken(user: UserId, minted: string, isRefreshToken: bool) returns (token: string)
      requires tokenService.Valid()
      modifies tokenService
      ensures tokenService.Valid()
      ensures token == minted
      ensures tokenService.entries ==
                if isRefreshToken then old(tokenService.entries)
                else old(tokenService.entries) + [AccessRow(old(tokenService.entries), user, minted)]
    {
      token := minted;
      if !isRefreshToken {
        var modelToken := Token(0, user, token, false, false);
        var _ := tokenService.Save(modelToken);
      }
    }

    /** Revokes (and marks expired) every live row of the user and persists
        them; nothing is written when the user has none. */
    method RevokeAllUserTokens(user: UserId)
      requires tokenService.Valid()
      modifies tokenService
      ensures tokenService.Valid()
      ensures tokenService.entries == RevokeAll(old(tokenService.entries), user)
      ensures ValidTokens(tokenService.entries, user) == []
      ensures ValidTokens(old(tokenService.entries), user) == [] ==> tokenService.entries == old(tokenService.entries)
    {
      var validTokens := tokenService.FindAllValidTokensByUser(user);
      ghost var found := validTokens;
      RevokeBatchWriteBack(tokenService.entries, user);
      if validTokens != [] {
        var k := 0;
        while k < |validTokens|
          invariant 0 <= k <= |validTokens| == |found|
          invariant found == ValidTokens(old(tokenService.entries), user)
          invariant validTokens[..k] == RevokeEach(found)[..k]
          invariant validTokens[k..] == found[k..]
        {
          assert validTokens[k] == found[k];
          validTokens := validTokens[k := Revoke(validTokens[k])];
          k := k + 1;
        }
        assert validTokens == validTokens[..k] == RevokeEach(found);
        tokenService.SaveAll(validTokens);
      } else {
        RevokeAllNoop(tokenService.entries, user);
      }
      RevokeAllValidTokens(old(tokenService.entries), user, user);
      if found == [] {
        RevokeAllNoop(old(tokenService.entries), user);
      }
    }

    /** Login of the user the authentication service resolved (`None`: it
        threw): revoke the user's live rows, issue and store an access token,
        issue a refresh token without storing it. */
    method Login(user: Option<UserId>, mintedAccess: string, mintedRefresh: string) returns (outcome: LoginOutcome)
      requires tokenService.Valid()
      modifies tokenService
      ensures tokenService.Valid()
      ensures user.None? ==> outcome == AuthenticationFailed && tokenService.entries == old(tokenService.entries)
      ensures user.Some? ==>
                outcome == LoggedIn(LoginResponse(user.value, mintedAccess, mintedRefresh)) &&
                tokenService.entries == AfterLogin(old(tokenService.entries), user.value, mintedAccess)
      ensures user.Some? ==>
                ValidTokens(tokenService.entries, user.value) == [AccessRow(old(tokenService.entries), user.value, mintedAccess)]
    {
      if user.None? {
        return AuthenticationFailed;
      }
      LoginLeavesSingleLiveToken(tokenService.entries, user.value, mintedAccess);
      RevokeAllUserTokens(user.value);
      var accessToken := GetToken(user.value, mintedAccess, false);
      var refreshToken := GetToken(user.value, mintedRefresh, true);
      outcome := LoggedIn(LoginResponse(user.value, accessToken, refreshToken));
    }

    /** Refresh for the user the e-mail in the refresh token resolved to
        (`None`: the lookup threw). When the codec accepts the refresh token,
        the user's live rows are revoked, a new access token is stored, and
        the same refresh token is handed back; otherwise the ledger is left
        alone and the body is empty. */
    method RefreshToken(user: Option<UserId>, refreshToken: string, refreshValid: bool, mintedAccess: string)
      returns (outcome: RefreshOutcome)
      requires tokenService.Valid()
      modifies tokenService
      ensures tokenService.Valid()
      ensures user.None? ==> outcome == UserNotFound && tokenService.entries == old(tokenService.entries)
      ensures user.Some? && !refreshValid ==> outcome == EmptyBody && tokenService.entries == old(tokenService.entries)
      ensures user.Some? && refreshValid ==>
                outcome == Refreshed(LoginResponse(user.value, mintedAccess, refreshToken)) &&
                tokenService.entries == AfterLogin(old(tokenService.entries), user.value, mintedAccess)
      ensures user.Some? && refreshValid ==>
                ValidTokens(tokenService.entries, user.value) == [AccessRow(old(tokenService.entries), user.value, mintedAccess)]
    {
      if user.None? {
        return UserNotFound;
      }
      LoginLeavesSingleLiveToken(tokenService.entries, user.value, mintedAccess);
      var responseBody := EmptyBody;
      if refreshValid {
        RevokeAllUserTokens(user.value);
        var accessToken := GetToken(user.value, mintedAccess, false);
        responseBody := Refreshed(LoginResponse(user.value, accessToken, refreshToken));
      }
      outcome := responseBody;
    }
  }
}
