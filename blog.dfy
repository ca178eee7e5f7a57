/** The blog's in-memory behaviour: one store holding the `Post` and
    `NewsletterSubscriber` tables, the routes that read and change them, and
    the newsletter dispatch loop. */
module Blog {
  import opened Values
  import opened Text
  import opened Records
  import opened Ordering

  // ------------------------------------------------------------ newsletter

  /** One delivery attempt of the newsletter and what the transport said. */
  datatype Attempt = Attempt(to: Subscriber, delivered: bool)

  /** The counts `send_newsletter` answers with. */
  datatype Report = Report(successCount: nat, failedCount: nat, totalSubscribers: nat)

  function Recipients(attempts: seq<Attempt>): (r: seq<Subscriber>)
    ensures |r| == |attempts|
    ensures forall i :: 0 <= i < |r| ==> r[i] == attempts[i].to
  {
    if attempts == [] then []
    else Recipients(attempts[..|attempts| - 1]) + [attempts[|attempts| - 1].to]
  }

  /** The number of attempts the transport reported as delivered. */
  function Delivered(attempts: seq<Attempt>): nat {
    if attempts == [] then 0
    else Delivered(attempts[..|attempts| - 1]) + (if attempts[|attempts| - 1].delivered then 1 else 0)
  }

  /** The number of attempts the transport reported as failed. */
  function Failed(attempts: seq<Attempt>): nat {
    if attempts == [] then 0
    else Failed(attempts[..|attempts| - 1]) + (if attempts[|attempts| - 1].delivered then 0 else 1)
  }

  /** Every attempt is counted exactly once, as a success or as a failure. */
  lemma {:induction false} DeliveredPlusFailed(attempts: seq<Attempt>)
    ensures Delivered(attempts) + Failed(attempts) == |attempts|
  {
    if attempts != [] {
      DeliveredPlusFailed(attempts[..|attempts| - 1]);
    }
  }

  /** All attempts succeeded exactly when the success count is the total,
      and exactly when the failure count is zero. */
  lemma {:induction false} AllDeliveredIff(attempts: seq<Attempt>)
    ensures Delivered(attempts) == |attempts| <==> forall i :: 0 <= i < |attempts| ==> attempts[i].delivered
    ensures Failed(attempts) == 0 <==> forall i :: 0 <= i < |attempts| ==> attempts[i].delivered
  {
    DeliveredPlusFailed(attempts);
    if attempts != [] {
      var init := attempts[..|attempts| - 1];
      AllDeliveredIff(init);
      DeliveredPlusFailed(init);
      assert forall i :: 0 <= i < |init| ==> init[i] == attempts[i];
    }
  }

  /** The loop of `send_newsletter`: one transport call per recipient, in
      order, each counted as a success or a failure, and no call skipped
      after a failure. `deliver(i, email)` is what `send_newsletter_email`
      answers for the i-th call. */
  method SendAll(recipients: seq<Subscriber>, deliver: (nat, string) -> bool)
    returns (attempts: seq<Attempt>, successCount: nat, failedCount: nat)
    ensures |attempts| == |recipients|
    ensures forall i :: 0 <= i < |attempts| ==> attempts[i] == Attempt(recipients[i], deliver(i, recipients[i].email))
    ensures successCount == Delivered(attempts) && failedCount == Failed(attempts)
    ensures successCount + failedCount == |recipients|
  {
    successCount, failedCount := 0, 0;
    attempts := [];
    for i := 0 to |recipients|
      invariant |attempts| == i
      invariant forall k :: 0 <= k < i ==> attempts[k] == Attempt(recipients[k], deliver(k, recipients[k].email))
      invariant successCount == Delivered(attempts)
      invariant failedCount == Failed(attempts)
    {
      var ok := deliver(i, recipients[i].email);
      var prior := attempts;
      attempts := attempts + [Attempt(recipients[i], ok)];
      assert attempts[..|attempts| - 1] == prior;
      if ok {
        successCount := successCount + 1;
      } else {
        failedCount := failedCount + 1;
      }
    }
    DeliveredPlusFailed(attempts);
  }

  /** `query.all()` carries no ORDER BY; SQLite scans a rowid table in
      ascending rowid order, which sorting by the negated id reproduces. */
  function RowOrder(s: Subscriber): int {
    -(s.id as int)
  }

  /** The guard of `send_newsletter`: a non-empty object with a truthy
      subject and a truthy content. */
  predicate NewsletterAccepted(request: Option<Body>) {
    !Missing(request) && Truthy(request.value, "subject") && Truthy(request.value, "content")
  }

  /** The `not data` test adds nothing to the guard: a send is accepted
      exactly when the body is an object whose subject and content are
      non-empty strings. */
  lemma NewsletterAcceptedIff(request: Option<Body>)
    ensures NewsletterAccepted(request) <==>
      request.Some? && Truthy(request.value, "subject") && Truthy(request.value, "content")
  {
    if request.Some? && Truthy(request.value, "subject") {
      TruthyIsNotMissing(request.value, "subject");
    }
  }

  // ------------------------------------------------------------ the store

  class BlogStore {
    var posts: map<nat, Post>
    var subscribers: map<nat, Subscriber>

    /** Rows sit under their own primary keys, and no two subscribers share
        an e-mail address. */
    ghost predicate Valid()
      reads this
    {
      PostsKeyed(posts) && SubscribersKeyed(subscribers) && UniqueEmails(subscribers)
    }

    /** In a valid store, the row that `filter_by(email=email).first()`
        finds for a taken address is the only row with that address. */
    lemma TakenEmailHasOneRow(email: string)
      requires Valid() && EmailTaken(subscribers, email)
      ensures exists id :: id in subscribers && subscribers[id].email == email &&
                (forall k :: k in subscribers && subscribers[k].email == email ==> k == id)
    {
      var id :| id in subscribers && subscribers[id].email == email;
      assert forall k :: k in subscribers && subscribers[k].email == email ==> k == id;
    }

    /** `db.create_all()` on an empty database. */
    constructor ()
      ensures Valid()
      ensures posts == map[] && subscribers == map[]
    {
      posts := map[];
      subscribers := map[];
    }

    /** `get_posts`: every stored post once, newest first. */
    method ListPosts() returns (list: seq<Post>)
      requires Valid()
      ensures multiset(list) == multiset(posts.Values)
      ensures |list| == |posts|
      ensures forall i, j :: 0 <= i < j < |list| ==> list[i].createdAt >= list[j].createdAt
    {
      list := SortByKeyDesc(posts, CreatedAt);
      KeyedValuesCount(posts, (p: Post) => p.id);
      assert |list| == |multiset(posts.Values)|;
    }

    /** `create_post`: rejects a request without a truthy title and content,
        otherwise inserts one post under a fresh id. */
    method CreatePost(request: Option<Body>, now: nat) returns (status: Status, created: Option<Post>)
      requires Valid()
      modifies this
      ensures Valid()
      ensures subscribers == old(subscribers)
      ensures !CreateAccepted(request) ==>
        status == BadRequest && created.None? && posts == old(posts)
      ensures CreateAccepted(request) ==>
        && status == Created && created.Some?
        && created.value.id !in old(posts)
        && created.value == NewPost(created.value.id, request.value, now)
        && posts == old(posts)[created.value.id := created.value]
    {
      if !CreateAccepted(request) {
        return BadRequest, None;
      }
      var id := NextRowId(posts.Keys);
      var post := NewPost(id, request.value, now);
      posts := posts[id := post];
      status, created := Created, Some(post);
    }

    /** `get_post`: the post stored under `id`, or not found. */
    method GetPost(id: nat) returns (status: Status, found: Option<Post>)
      ensures id in posts ==> status == Ok && found == Some(posts[id])
      ensures id !in posts ==> status == NotFound && found.None?
    {
      if id in posts {
        status, found := Ok, Some(posts[id]);
      } else {
        status, found := NotFound, None;
      }
    }

    /** `update_post`: not found before anything else; then a missing or
        empty body is refused; a null title or content fails the commit and
        is rolled back; otherwise only the supplied fields change. */
    method UpdatePost(id: nat, request: Option<Body>) returns (status: Status, updated: Option<Post>)
      requires Valid()
      modifies this
      ensures Valid()
      ensures subscribers == old(subscribers)
      ensures id !in old(posts) ==>
        status == NotFound && updated.None? && posts == old(posts)
      ensures id in old(posts) && Missing(request) ==>
        status == BadRequest && updated.None? && posts == old(posts)
      ensures id in old(posts) && !Missing(request) && ClearsRequiredField(request.value) ==>
        status == ServerError && updated.None? && posts == old(posts)
      ensures id in old(posts) && !Missing(request) && !ClearsRequiredField(request.value) ==>
        && status == Ok
        && updated == Some(UpdatedPost(old(posts)[id], request.value))
        && posts == old(posts)[id := updated.value]
    {
      if id !in posts {
        return NotFound, None;
      }
      if Missing(request) {
        return BadRequest, None;
      }
      if ClearsRequiredField(request.value) {
        return ServerError, None;
      }
      var post := UpdatedPost(posts[id], request.value);
      posts := posts[id := post];
      status, updated := Ok, Some(post);
    }

    /** `delete_post`: removes the post stored under `id`, or not found. */
    method DeletePost(id: nat) returns (status: Status)
      requires Valid()
      modifies this
      ensures Valid()
      ensures subscribers == old(subscribers)
      ensures id in old(posts) ==> status == Ok && posts == old(posts) - {id}
      ensures id !in old(posts) ==> status == NotFound && posts == old(posts)
    {
      if id !in posts {
        return NotFound;
      }
      posts := posts - {id};
      status := Ok;
    }

    /** `newsletter_signup`: stores the normalised address once; a second
        signup with the same normalised address changes nothing. */
    method Signup(request: Option<Body>, now: nat) returns (status: Status)
      requires Valid()
      modifies this
      ensures Valid()
      ensures posts == old(posts)
      ensures !SignupAccepted(request) ==>
        status == BadRequest && subscribers == old(subscribers)
      ensures SignupAccepted(request) && EmailTaken(old(subscribers), SignupEmail(request.value)) ==>
        status == Ok && subscribers == old(subscribers)
      ensures SignupAccepted(request) && !EmailTaken(old(subscribers), SignupEmail(request.value)) ==>
        && status == Created
        && exists id :: id !in old(subscribers)
             && subscribers == old(subscribers)[id := Subscriber(id, SignupEmail(request.value), now)]
      ensures SignupAccepted(request) ==> EmailTaken(subscribers, SignupEmail(request.value))
    {
      if !SignupAccepted(request) {
        return BadRequest;
      }
      var email := SignupEmail(request.value);
      if exists id :: id in subscribers && subscribers[id].email == email {
        return Ok;
      }
      var id := NextRowId(subscribers.Keys);
      var subscriber := Subscriber(id, email, now);
      AddKeepsEmailsUnique(subscribers, subscriber);
      subscribers := subscribers[id := subscriber];
      assert subscribers[id].email == email;
      status := Created;
    }

    /** `get_subscribers`: every subscriber once, newest first. */
    method ListSubscribers() returns (list: seq<Subscriber>)
      requires Valid()
      ensures multiset(list) == multiset(subscribers.Values)
      ensures |list| == |subscribers|
      ensures forall i, j :: 0 <= i < j < |list| ==> list[i].subscribedAt >= list[j].subscribedAt
    {
      list := SortByKeyDesc(subscribers, SubscribedAt);
      KeyedValuesCount(subscribers, (s: Subscriber) => s.id);
      assert |list| == |multiset(subscribers.Values)|;
    }

    /** `unsubscribe`: removes the subscriber stored under `id`, or not found. */
    method Unsubscribe(id: nat) returns (status: Status)
      requires Valid()
      modifies this
      ensures Valid()
      ensures posts == old(posts)
      ensures id in old(subscribers) ==> status == Ok && subscribers == old(subscribers) - {id}
      ensures id !in old(subscribers) ==> status == NotFound && subscribers == old(subscribers)
    {
      if id !in subscribers {
        return NotFound;
      }
      subscribers := subscribers - {id};
      status := Ok;
    }

    /** `send_newsletter`: `deliver(i, email)` is what the mail transport
        reports for the `i`-th attempt. A request without a truthy subject
        and content is refused before any attempt; with no subscribers
        nothing is sent; otherwise every subscriber is attempted exactly
        once, and a failure never stops the attempts after it. */
    method SendNewsletter(request: Option<Body>, deliver: (nat, string) -> bool)
      returns (status: Status, report: Option<Report>, attempts: seq<Attempt>)
      requires Valid()
      ensures !NewsletterAccepted(request) ==>
        status == BadRequest && report.None? && attempts == []
      ensures NewsletterAccepted(request) && subscribers == map[] ==>
        status == Ok && report.None? && attempts == []
      ensures NewsletterAccepted(request) && subscribers != map[] ==>
        && status == Ok
        && |attempts| == |subscribers|
        && multiset(Recipients(attempts)) == multiset(subscribers.Values)
        && SortedDesc(Recipients(attempts), RowOrder)
        && (forall i :: 0 <= i < |attempts| ==> attempts[i].delivered == deliver(i, attempts[i].to.email))
        && report == Some(Report(Delivered(attempts), Failed(attempts), |subscribers|))
        && report.value.successCount + report.value.failedCount == report.value.totalSubscribers
    {
      if !NewsletterAccepted(request) {
        return BadRequest, None, [];
      }
      if subscribers == map[] {
        return Ok, None, [];
      }
      var all := SortByKeyDesc(subscribers, RowOrder);
      KeyedValuesCount(subscribers, (s: Subscriber) => s.id);
      assert |all| == |subscribers| by {
        assert |all| == |multiset(subscribers.Values)|;
      }
      var successCount, failedCount;
      attempts, successCount, failedCount := SendAll(all, deliver);
      assert Recipients(attempts) == all;
      status, report := Ok, Some(Report(successCount, failedCount, |all|));
    }
  }
}
