/**
  Rows of the access-token ledger and the pure operations on a snapshot of it.

  A ledger snapshot is the sequence of rows in insertion order; the row at
  position i carries id i (the store assigns ids in that order).
 */
module Tokens {

  type UserId = nat

  /** One row of the token table: its id, the owning user, the signed token
      string and the two independent flags. */
  datatype Token = Token(id: nat, userId: UserId, token: string, revoked: bool, expired: bool)

  /** Row ids as the store assigns them: the row at position i has id i. */
  predicate IdsArePositions(s: seq<Token>)
  {
    forall i :: 0 <= i < |s| ==> s[i].id == i
  }

  /** A row is live when neither flag is set (the store's `Valid()` is a
      different notion: that its ids are its positions). */
  predicate IsLive(t: Token)
  {
    !t.revoked && !t.expired
  }

  predicate IsLiveFor(t: Token, user: UserId)
  {
    t.userId == user && IsLive(t)
  }

  /** The rows `findAllValidTokensByUser(user)` returns: the user's live rows,
      in ledger order. */
  function ValidTokens(s: seq<Token>, user: UserId): (r: seq<Token>)
    ensures |r| <= |s|
    ensures forall t :: t in r <==> t in s && IsLiveFor(t, user)
    decreases |s|
  {
    if s == [] then []
    else
      var init, last := s[..|s| - 1], s[|s| - 1];
      assert s == init + [last];
      ValidTokens(init, user) + (if IsLiveFor(last, user) then [last] else [])
  }

  /** What `setRevoked(true); setExpired(true)` does to one row: the row is
      no longer live and keeps its id, owner and string. */
  function Revoke(t: Token): (r: Token)
    ensures r.revoked && r.expired && !IsLive(r)
    ensures r.id == t.id && r.userId == t.userId && r.token == t.token
  {
    t.(revoked := true, expired := true)
  }

  /** The batch after the `forEach` over it has revoked every element: the
      same rows, in the same order, each with both flags set. */
  function RevokeEach(batch: seq<Token>): (r: seq<Token>)
    ensures |r| == |batch|
    ensures forall i :: 0 <= i < |batch| ==>
              r[i].revoked && r[i].expired &&
              r[i].id == batch[i].id && r[i].userId == batch[i].userId && r[i].token == batch[i].token
  {
    seq(|batch|, i requires 0 <= i < |batch| => Revoke(batch[i]))
  }

  /** The ledger after every live row of `user` has been revoked. It keeps
      every row in place, with its id, owner and string; it sets both flags on
      each row that was live for `user` and leaves every other row, of other
      users or already revoked, exactly as it was. */
  function RevokeAll(s: seq<Token>, user: UserId): (r: seq<Token>)
    ensures |r| == |s|
    ensures forall i :: 0 <= i < |s| ==>
              r[i].id == s[i].id && r[i].userId == s[i].userId && r[i].token == s[i].token
    ensures forall i :: 0 <= i < |s| && IsLiveFor(s[i], user) ==> r[i].revoked && r[i].expired
    ensures forall i :: 0 <= i < |s| && !IsLiveFor(s[i], user) ==> r[i] == s[i]
  {
    seq(|s|, i requires 0 <= i < |s| => if IsLiveFor(s[i], user) then Revoke(s[i]) else s[i])
  }

  lemma ValidTokensAppend(s: seq<Token>, t: Token, user: UserId)
    ensures ValidTokens(s + [t], user) == ValidTokens(s, user) + (if IsLiveFor(t, user) then [t] else [])
  {
    assert (s + [t])[..|s|] == s;
  }

  /** No row is live for `user` exactly when the lookup finds nothing. */
  lemma ValidTokensEmpty(s: seq<Token>, user: UserId)
    ensures ValidTokens(s, user) == [] <==> forall i :: 0 <= i < |s| ==> !IsLiveFor(s[i], user)
  {
    if ValidTokens(s, user) != [] {
      var t := ValidTokens(s, user)[0];
      assert t in ValidTokens(s, user);
    }
  }

  /** After revoking, `user` has no live row, and every other user's live rows
      are what they were. */
  lemma {:induction false} RevokeAllValidTokens(s: seq<Token>, user: UserId, other: UserId)
    ensures ValidTokens(RevokeAll(s, user), other) == if other == user then [] else ValidTokens(s, other)
    decreases |s|
  {
    if s != [] {
      var n := |s| - 1;
      var r := RevokeAll(s, user);
      assert r == RevokeAll(s[..n], user) + [r[n]];
      RevokeAllValidTokens(s[..n], user, other);
      ValidTokensAppend(RevokeAll(s[..n], user), r[n], other);
      ValidTokensAppend(s[..n], s[n], other);
      assert s == s[..n] + [s[n]];
    }
  }

  /** When the user has no live row, revoking changes nothing. */
  lemma RevokeAllNoop(s: seq<Token>, user: UserId)
    requires ValidTokens(s, user) == []
    ensures RevokeAll(s, user) == s
  {
    ValidTokensEmpty(s, user);
  }

  /** Revoking twice gives the ledger revoking once gives. */
  lemma RevokeAllIdempotent(s: seq<Token>, user: UserId)
    ensures RevokeAll(RevokeAll(s, user), user) == RevokeAll(s, user)
  {
    RevokeAllValidTokens(s, user, user);
    RevokeAllNoop(RevokeAll(s, user), user);
  }
}
