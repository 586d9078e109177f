/**
  The token store the controller calls (`TokenService`): a table of token rows
  with `save`, `saveAll` and `findAllValidTokensByUser`.

  The store's implementation is not part of this model. It is modelled as a
  table whose row ids are assigned in insertion order (so the row with id i
  sits at position i), where `save` inserts a new row, `saveAll` writes each
  given row back over the row with the same id, and `findAllValidTokensByUser`
  returns that user's rows with `revoked = false` and `expired = false`.
 */
module TokenStore {

  import opened Tokens

  /** The table after each row of `batch` has been written over the row with
      its id, in batch order. */
  function WriteBack(s: seq<Token>, batch: seq<Token>): (r: seq<Token>)
    requires forall t :: t in batch ==> t.id < |s|
    ensures |r| == |s|
    decreases |batch|
  {
    if batch == [] then s
    else
      var last := batch[|batch| - 1];
      assert forall t :: t in batch[..|batch| - 1] ==> t in batch;
      WriteBack(s, batch[..|batch| - 1])[last.id := last]
  }

  /** When no two rows of the batch disagree about what a row id holds, writing
      the batch back puts each of its rows at its id and leaves every other
      row alone. */
  lemma {:induction false} WriteBackAt(s: seq<Token>, batch: seq<Token>)
    requires forall t :: t in batch ==> t.id < |s|
    requires forall t, u :: t in batch && u in batch && t.id == u.id ==> t == u
    ensures forall t :: t in batch ==> WriteBack(s, batch)[t.id] == t
    ensures forall i :: 0 <= i < |s| && (forall t :: t in batch ==> t.id != i) ==> WriteBack(s, batch)[i] == s[i]
    decreases |batch|
  {
    if batch != [] {
      var init, last := batch[..|batch| - 1], batch[|batch| - 1];
      assert batch == init + [last];
      assert forall t :: t in init ==> t in batch;
      WriteBackAt(s, init);
    }
  }

  class TokenService {
    /** The rows of the token table, in insertion order. */
    var entries: seq<Token>

    /** The store's invariant: every row carries its position as its id
        (unrelated to whether a row is live, `IsLive`). */
    ghost predicate Valid()
      reads this
    {
      IdsArePositions(entries)
    }

    constructor ()
      ensures Valid() && entries == []
    {
      entries := [];
    }

    /** Inserts `t` as a new row; the store assigns the next id. */
    method Save(t: Token) returns (saved: Token)
      requires Valid()
      modifies this
      ensures Valid()
      ensures saved == t.(id := |old(entries)|)
      ensures entries == old(entries) + [saved]
    {
      saved := t.(id := |entries|);
      entries := entries + [saved];
    }

    /** Persists a batch of rows that were read from the table, each over the
        row with its id. */
    method SaveAll(batch: seq<Token>)
      requires Valid()
      requires forall t :: t in batch ==> t.id < |entries|
      modifies this
      ensures Valid()
      ensures entries == WriteBack(old(entries), batch)
    {
      var k := 0;
      while k < |batch|
        invariant 0 <= k <= |batch|
        invariant Valid()
        invariant forall t :: t in batch[..k] ==> t in batch
        invariant entries == WriteBack(old(entries), batch[..k])
      {
        var t := batch[k];
        assert batch[..k + 1] == batch[..k] + [t];
        assert forall u :: u in batch[..k + 1] ==> u in batch;
        assert batch[..k + 1][..k] == batch[..k];
        entries := entries[t.id := t];
        k := k + 1;
      }
      assert batch[..k] == batch;
    }

    /** The live rows of `user`, in table order. */
    method FindAllValidTokensByUser(user: UserId) returns (found: seq<Token>)
      ensures found == ValidTokens(entries, user)
    {
      found := [];
      var i := 0;
      while i < |entries|
        invariant 0 <= i <= |entries|
        invariant found == ValidTokens(entries[..i], user)
      {
        ValidTokensAppend(entries[..i], entries[i], user);
        assert entries[..i + 1] == entries[..i] + [entries[i]];
        if IsLiveFor(entries[i], user) {
          found := found + [entries[i]];
        }
        i := i + 1;
      }
      assert entries[..i] == entries;
    }
  }
}
