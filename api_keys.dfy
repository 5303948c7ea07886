/** The user-scoped API-key handlers: generate, list by owner, delete by key. */
module ApiKeys {
  import opened Records
  import opened Tables
  import opened Secrets
  import opened Database

  /** POST /api-keys/generate: mints `mk_live_<suffix>`, stores the row (key, owner, name)
      and answers that same key. The random suffix is an input; the key column is unique,
      so the minted key must not be in use. */
  method GenerateApiKey(db: Db, clerkUserId: string, name: string, suffix: string) returns (apiKey: string)
    requires db.Valid()
    requires UrlSafeSuffix(suffix)
    requires KeyUnused(db.apiKeys, Token(UserKeyPrefix, suffix))
    modifies db`apiKeys
    ensures db.Valid()
    ensures apiKey == Token(UserKeyPrefix, suffix) && TokenShape(UserKeyPrefix, apiKey)
    ensures db.apiKeys == old(db.apiKeys) + [ApiKey(apiKey, clerkUserId, name)]
    ensures Where(db.apiKeys, KeyOwner(clerkUserId)) ==
            old(Where(db.apiKeys, KeyOwner(clerkUserId))) + [ApiKey(apiKey, clerkUserId, name)]
  {
    apiKey := Token(UserKeyPrefix, suffix);
    TokenHasShape(UserKeyPrefix, suffix);
    var row := ApiKey(apiKey, clerkUserId, name);
    ListedAfterGenerate(db.apiKeys, row, clerkUserId);
    AppendKeepsDistinct(db.apiKeys, row, KeyOf);
    db.apiKeys := db.apiKeys + [row];
  }

  /** GET /api-keys/{clerk_user_id}: the full rows owned by the user (listed in
      insertion order, which is the model's choice). */
  method ListApiKeys(db: Db, clerkUserId: string) returns (keys: seq<ApiKey>)
    ensures forall r :: r in keys <==> r in db.apiKeys && r.userId == clerkUserId
    ensures keys == Where(db.apiKeys, KeyOwner(clerkUserId))
  {
    keys := Where(db.apiKeys, KeyOwner(clerkUserId));
  }

  /** DELETE /api-keys/{key}: removes the row holding `key` and no other, then answers
      "deleted". What the store does for a key that is not stored is not visible in the
      handler; the model treats it as an error that writes nothing. */
  method DeleteApiKey(db: Db, key: string) returns (r: Result<string, StoreError>)
    requires db.Valid()
    modifies db`apiKeys
    ensures db.Valid()
    ensures KeyUnused(old(db.apiKeys), key) ==> r == Err(RowMissing) && db.apiKeys == old(db.apiKeys)
    ensures !KeyUnused(old(db.apiKeys), key) ==>
      && r == Ok("deleted")
      && db.apiKeys == Where(old(db.apiKeys), KeyIsNot(key))
      && |db.apiKeys| == |old(db.apiKeys)| - 1
  {
    if KeyUnused(db.apiKeys, key) {
      return Err(RowMissing);
    }
    var k :| 0 <= k < |db.apiKeys| && db.apiKeys[k].key == key;
    RevokeRemovesOneRow(db.apiKeys, k);
    db.apiKeys := Where(db.apiKeys, KeyIsNot(key));
    r := Ok("deleted");
  }

  /** Listing a user's keys after a generate gives the earlier list and, when the new row
      is theirs, that row at the end; another user's row never shows up. */
  lemma ListedAfterGenerate(rows: seq<ApiKey>, row: ApiKey, clerkUserId: string)
    ensures Where(rows + [row], KeyOwner(clerkUserId)) ==
            Where(rows, KeyOwner(clerkUserId)) + (if row.userId == clerkUserId then [row] else [])
  {
    WhereAppend(rows, row, KeyOwner(clerkUserId));
  }

  /** The freshness `GenerateApiKey` asks of its key follows from the random suffix alone:
      a suffix that differs from the suffix of every stored `mk_live_` key gives an unused
      key. */
  lemma FreshSuffixGivesUnusedKey(rows: seq<ApiKey>, suffix: string)
    requires forall r :: r in rows && |r.key| >= |UserKeyPrefix| && r.key[..|UserKeyPrefix|] == UserKeyPrefix ==>
      r.key[|UserKeyPrefix|..] != suffix
    ensures KeyUnused(rows, Token(UserKeyPrefix, suffix))
  {
    forall r | r in rows ensures r.key != Token(UserKeyPrefix, suffix) {
      if r.key == Token(UserKeyPrefix, suffix) {
        var stored := r.key[|UserKeyPrefix|..];
        assert r.key == Token(UserKeyPrefix, stored);
        TokenInjective(UserKeyPrefix, stored, suffix);
      }
    }
  }

  /** Deleting a freshly generated key restores the table as it was before the generate. */
  lemma GenerateThenRevoke(rows: seq<ApiKey>, key: string, clerkUserId: string, name: string)
    requires KeyUnused(rows, key)
    ensures Where(rows + [ApiKey(key, clerkUserId, name)], KeyIsNot(key)) == rows
  {
    WhereAppend(rows, ApiKey(key, clerkUserId, name), KeyIsNot(key));
    WhereAll(rows, KeyIsNot(key));
  }

  /** With unique keys, deleting the key of row `k` removes that row only, keeps the others
      in order, and keeps the keys unique. */
  lemma RevokeRemovesOneRow(rows: seq<ApiKey>, k: nat)
    requires DistinctKeys(rows)
    requires k < |rows|
    ensures Where(rows, KeyIsNot(rows[k].key)) == rows[..k] + rows[k + 1..]
    ensures |Where(rows, KeyIsNot(rows[k].key))| == |rows| - 1
    ensures DistinctKeys(Where(rows, KeyIsNot(rows[k].key)))
    ensures KeyUnused(Where(rows, KeyIsNot(rows[k].key)), rows[k].key)
  {
    var key := rows[k].key;
    forall i | 0 <= i < |rows| && i != k
      ensures KeyIsNot(key)(rows[i])
    {
      if i < k {
        assert KeyOf(rows[i]) != KeyOf(rows[k]);
      } else {
        assert KeyOf(rows[k]) != KeyOf(rows[i]);
      }
    }
    WhereDropsOne(rows, k, KeyIsNot(key));
    RemoveAtKeepsDistinct(rows, k, KeyOf);
  }
}
