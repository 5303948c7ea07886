/** The identity provider's webhook: provisions a user row on "user.created". */
module Clerk {
  import opened Records
  import opened Tables
  import opened Database

  /** The `data` object of an event: the user id and the `email_address` of each entry of
      `email_addresses`, in order. A missing `id`, or an entry without `email_address`, is
      `None`. */
  datatype EventData = EventData(id: Option<string>, emailAddresses: seq<Option<string>>)

  /** A webhook body. A missing `type` or `data` key is `None`. */
  datatype WebhookEvent = WebhookEvent(eventType: Option<string>, data: Option<EventData>)

  predicate IsUserCreated(e: WebhookEvent) {
    e.eventType == Some("user.created")
  }

  /** The lookups `data["data"]`, `["id"]`, `["email_addresses"][0]` and its
      `["email_address"]` all succeed. */
  predicate WellFormed(e: WebhookEvent) {
    && e.data.Some? && e.data.value.id.Some?
    && |e.data.value.emailAddresses| > 0 && e.data.value.emailAddresses[0].Some?
  }

  /** A lookup that raises inside the handler: the framework answers 500. */
  const ServerError := HttpError(500, "Internal Server Error")

  /** The user table after the webhook handles `e`, or the error it raises before writing.
      Only "user.created" acts; it creates the user with the first e-mail if the id is
      unseen and, the upsert's update being empty, leaves an existing user untouched. */
  function Provision(users: map<string, User>, e: WebhookEvent): (r: Result<map<string, User>, HttpError>)
    ensures !IsUserCreated(e) ==> r == Ok(users)
    ensures IsUserCreated(e) ==> (r.Err? <==> !WellFormed(e))
    ensures r.Err? ==> r.error == ServerError
    ensures IsUserCreated(e) && WellFormed(e) ==>
      var id := e.data.value.id.value;
      && r.Ok?
      && r.value.Keys == users.Keys + {id}
      && (id !in users ==> r.value[id] == UnlinkedUser(id, e.data.value.emailAddresses[0].value))
    ensures r.Ok? ==> forall id :: id in users ==> id in r.value && r.value[id] == users[id]
    ensures r.Ok? && UsersValid(users) ==> UsersValid(r.value)
  {
    if !IsUserCreated(e) then Ok(users)
    else if !WellFormed(e) then Err(ServerError)
    else
      var userData := e.data.value;
      Ok(CreateIfAbsent(users, userData.id.value, userData.emailAddresses[0].value))
  }

  /** POST /webhooks/clerk: answers {"status": "ok"} after handling the event; a malformed
      "user.created" body raises before any write. Only the user table may change. */
  method ClerkWebhook(db: Db, e: WebhookEvent) returns (r: Result<string, HttpError>)
    requires db.Valid()
    modifies db`users
    ensures db.Valid()
    ensures Provision(old(db.users), e).Ok? ==> r == Ok("ok") && db.users == Provision(old(db.users), e).value
    ensures Provision(old(db.users), e).Err? ==> r == Err(ServerError) && db.users == old(db.users)
  {
    if e.eventType == Some("user.created") {
      if e.data.None? || e.data.value.id.None? || |e.data.value.emailAddresses| == 0
         || e.data.value.emailAddresses[0].None? {
        return Err(ServerError);
      }
      var userData := e.data.value;
      db.users := CreateIfAbsent(db.users, userData.id.value, userData.emailAddresses[0].value);
    }
    r := Ok("ok");
  }

  /** Replaying an event is harmless: a second delivery leaves the table as the first left it. */
  lemma ProvisionIdempotent(users: map<string, User>, e: WebhookEvent)
    requires Provision(users, e).Ok?
    ensures Provision(Provision(users, e).value, e) == Provision(users, e)
  {
    if IsUserCreated(e) {
      var id := e.data.value.id.value;
      var once := Provision(users, e).value;
      assert id in once;
      assert once.Keys + {id} == once.Keys;
      assert Provision(once, e).value == once;
    }
  }
}
