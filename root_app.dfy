/** The older root-level application: its webhook and its two API-key routes do what the
    routed handlers do, on the same store, so each delegates to them and keeps their
    contract. */
module RootApp {
  import opened Records
  import opened Tables
  import opened Secrets
  import opened Database
  import Clerk
  import ApiKeys

  /** POST /webhooks/clerk at the root: acts only on "user.created", creating the user
      with the first e-mail when absent; answers "ok". */
  method ClerkWebhook(db: Db, e: Clerk.WebhookEvent) returns (r: Result<string, HttpError>)
    requires db.Valid()
    modifies db`users
    ensures db.Valid()
    ensures Clerk.Provision(old(db.users), e).Ok? ==> r == Ok("ok") && db.users == Clerk.Provision(old(db.users), e).value
    ensures Clerk.Provision(old(db.users), e).Err? ==> r == Err(Clerk.ServerError) && db.users == old(db.users)
  {
    r := Clerk.ClerkWebhook(db, e);
  }

  /** POST /api-keys/generate at the root: stores (key, owner, name) under a fresh
      `mk_live_` key and answers that key. */
  method GenerateApiKey(db: Db, clerkUserId: string, name: string, suffix: string) returns (apiKey: string)
    requires db.Valid()
    requires UrlSafeSuffix(suffix)
    requires KeyUnused(db.apiKeys, Token(UserKeyPrefix, suffix))
    modifies db`apiKeys
    ensures db.Valid()
    ensures apiKey == Token(UserKeyPrefix, suffix) && TokenShape(UserKeyPrefix, apiKey)
    ensures db.apiKeys == old(db.apiKeys) + [ApiKey(apiKey, clerkUserId, name)]
  {
    apiKey := ApiKeys.GenerateApiKey(db, clerkUserId, name, suffix);
  }

  /** GET /api-keys/{clerk_user_id} at the root: exactly the user's rows. */
  method ListApiKeys(db: Db, clerkUserId: string) returns (keys: seq<ApiKey>)
    ensures forall r :: r in keys <==> r in db.apiKeys && r.userId == clerkUserId
    ensures keys == Where(db.apiKeys, KeyOwner(clerkUserId))
  {
    keys := ApiKeys.ListApiKeys(db, clerkUserId);
  }
}
