/** The two persisted records, `Post` and `NewsletterSubscriber`, and the
    field-level rules the routes apply to them: what `create_post` accepts,
    what `update_post` changes, and what `newsletter_signup` stores. */
module Records {
  import opened Values
  import opened Text

  /** A blog post; `createdAt` is the creation time, a clock reading. */
  datatype Post = Post(id: nat, title: string, content: string, imageUrl: Option<string>, createdAt: nat)

  /** A newsletter subscriber; `email` is stored normalised. */
  datatype Subscriber = Subscriber(id: nat, email: string, subscribedAt: nat)

  function CreatedAt(p: Post): int { p.createdAt }

  function SubscribedAt(s: Subscriber): int { s.subscribedAt }

  /** Every row sits under its own primary key. */
  predicate PostsKeyed(posts: map<nat, Post>) {
    forall id :: id in posts ==> posts[id].id == id
  }

  predicate SubscribersKeyed(subscribers: map<nat, Subscriber>) {
    forall id :: id in subscribers ==> subscribers[id].id == id
  }

  /** The `unique=True` constraint on the e-mail column. */
  predicate UniqueEmails(subscribers: map<nat, Subscriber>) {
    forall a, b :: a in subscribers && b in subscribers && subscribers[a].email == subscribers[b].email ==> a == b
  }

  /** `filter_by(email=email).first()` finds a row. */
  predicate EmailTaken(subscribers: map<nat, Subscriber>, email: string) {
    exists id :: id in subscribers && subscribers[id].email == email
  }

  // ---------------------------------------------------------------- create

  /** The guard of `create_post`: a non-empty object with a truthy title and
      a truthy content. */
  predicate CreateAccepted(request: Option<Body>) {
    !Missing(request) && Truthy(request.value, "title") && Truthy(request.value, "content")
  }

  /** The `not data` test adds nothing to the guard: a create is accepted
      exactly when the body is an object whose title and content are
      non-empty strings. */
  lemma CreateAcceptedIff(request: Option<Body>)
    ensures CreateAccepted(request) <==>
      request.Some? && Truthy(request.value, "title") && Truthy(request.value, "content")
  {
    if request.Some? && Truthy(request.value, "title") {
      TruthyIsNotMissing(request.value, "title");
    }
  }

  /** The row `create_post` inserts under `id` at time `now`. */
  function NewPost(id: nat, body: Body, now: nat): (p: Post)
    requires Truthy(body, "title") && Truthy(body, "content")
    ensures p.id == id && p.createdAt == now
    ensures p.title != "" && p.content != ""
  {
    Post(id, body["title"].s, body["content"].s, OptionalText(body, "image_url"), now)
  }

  /** A created post carries exactly the title, content and image URL of the
      request; an image URL that is absent or null is stored as no URL. */
  lemma NewPostFields(id: nat, body: Body, now: nat)
    requires Truthy(body, "title") && Truthy(body, "content")
    ensures Str(NewPost(id, body, now).title) == body["title"]
    ensures Str(NewPost(id, body, now).content) == body["content"]
    ensures NewPost(id, body, now).imageUrl.None? <==> ("image_url" !in body || body["image_url"].Null?)
    ensures NewPost(id, body, now).imageUrl.Some? ==> body["image_url"] == Str(NewPost(id, body, now).imageUrl.value)
  {
  }

  // ---------------------------------------------------------------- update


  /** A `null` for a NOT NULL column: the commit of `update_post` fails. */
  predicate ClearsRequiredField(body: Body) {
    ("title" in body && body["title"].Null?) || ("content" in body && body["content"].Null?)
  }

  /** The commit fails exactly when a NOT NULL column would receive
      something other than a string: a supplied title or content that is
      not a string. */
  lemma ClearsRequiredFieldIff(body: Body)
    ensures !ClearsRequiredField(body) <==>
      ("title" in body ==> body["title"].Str?) && ("content" in body ==> body["content"].Str?)
  {
  }

  /** `data.get(key, current)` for a text column: what `data.get(key)` gives
      when the key is supplied, and the current value otherwise. */
  function TextOr(body: Body, key: string, current: string): (r: string)
    requires key in body ==> body[key].Str?
    ensures key in body ==> OptionalText(body, key) == Some(r)
    ensures key !in body ==> r == current
  {
    if key in body then body[key].s else current
  }

  /** `data.get(key, current)` for a nullable text column: what
      `data.get(key)` gives when the key is supplied, and the current value
      otherwise. */
  function NullableTextOr(body: Body, key: string, current: Option<string>): (r: Option<string>)
    ensures key in body ==> r == OptionalText(body, key)
    ensures key !in body ==> r == current
  {
    if key !in body then current
    else if body[key].Str? then Some(body[key].s)
    else None
  }

  /** The post after `update_post` assigns its three fields from `body`. */
  function UpdatedPost(p: Post, body: Body): (q: Post)
    requires !ClearsRequiredField(body)
    ensures q.id == p.id && q.createdAt == p.createdAt
  {
    p.(title := TextOr(body, "title", p.title),
       content := TextOr(body, "content", p.content),
       imageUrl := NullableTextOr(body, "image_url", p.imageUrl))
  }

  /** Only the supplied keys change: a field whose key is absent keeps its
      value, a supplied one takes the supplied value. */
  lemma UpdateChangesOnlySuppliedKeys(p: Post, body: Body)
    requires !ClearsRequiredField(body)
    ensures "title" !in body ==> UpdatedPost(p, body).title == p.title
    ensures "title" in body ==> Str(UpdatedPost(p, body).title) == body["title"]
    ensures "content" !in body ==> UpdatedPost(p, body).content == p.content
    ensures "content" in body ==> Str(UpdatedPost(p, body).content) == body["content"]
    ensures "image_url" !in body ==> UpdatedPost(p, body).imageUrl == p.imageUrl
    ensures "image_url" in body ==> (UpdatedPost(p, body).imageUrl.None? <==> body["image_url"].Null?)
    ensures "image_url" in body && body["image_url"].Str? ==> UpdatedPost(p, body).imageUrl == Some(body["image_url"].s)
  {
  }

  /** A body naming none of the three columns leaves the post as it was. */
  lemma UpdateWithOtherKeysIsIdentity(p: Post, body: Body)
    requires "title" !in body && "content" !in body && "image_url" !in body
    ensures UpdatedPost(p, body) == p
  {
  }

  /** Updates compose like dictionary merges: applying `first` then `second`
      is applying their union, where `second` wins. */
  lemma UpdateCompose(p: Post, first: Body, second: Body)
    requires !ClearsRequiredField(first) && !ClearsRequiredField(second)
    ensures !ClearsRequiredField(first + second)
    ensures UpdatedPost(UpdatedPost(p, first), second) == UpdatedPost(p, first + second)
  {
  }

  /** Repeating the same update changes nothing more. */
  lemma UpdateIdempotent(p: Post, body: Body)
    requires !ClearsRequiredField(body)
    ensures UpdatedPost(UpdatedPost(p, body), body) == UpdatedPost(p, body)
  {
    UpdateCompose(p, body, body);
    assert body + body == body;
  }

  /** Unlike create, update does not re-validate: a supplied empty title is
      stored as it is. */
  lemma UpdateAcceptsEmptyTitle(p: Post)
    ensures !ClearsRequiredField(map["title" := Str("")])
    ensures UpdatedPost(p, map["title" := Str("")]).title == ""
  {
  }

  // ---------------------------------------------------------------- signup

  /** The guard of `newsletter_signup`: a non-empty object with a truthy email. */
  predicate SignupAccepted(request: Option<Body>) {
    !Missing(request) && Truthy(request.value, "email")
  }

  /** The `not data` test adds nothing to the guard: a signup is accepted
      exactly when the body is an object whose email is a non-empty string. */
  lemma SignupAcceptedIff(request: Option<Body>)
    ensures SignupAccepted(request) <==> request.Some? && Truthy(request.value, "email")
  {
    if request.Some? && Truthy(request.value, "email") {
      TruthyIsNotMissing(request.value, "email");
    }
  }

  /** The address `newsletter_signup` looks up and stores. */
  function SignupEmail(body: Body): (email: string)
    requires Truthy(body, "email")
    ensures Trimmed(email)
    ensures NormalizeEmail(email) == email
  {
    NormalizeIdempotent(body["email"].s);
    NormalizeEmail(body["email"].s)
  }

  /** Adding a subscriber whose address is not taken keeps addresses unique. */
  lemma {:induction false} AddKeepsEmailsUnique(subscribers: map<nat, Subscriber>, s: Subscriber)
    requires UniqueEmails(subscribers) && !EmailTaken(subscribers, s.email) && s.id !in subscribers
    ensures UniqueEmails(subscribers[s.id := s])
  {
    var m := subscribers[s.id := s];
    forall a, b | a in m && b in m && m[a].email == m[b].email
      ensures a == b
    {
      if a != s.id && b != s.id {
        assert subscribers[a].email == subscribers[b].email;
      }
    }
  }

  /** After inserting `s` under an unused id, the taken addresses are the
      earlier ones and the address of `s`. */
  lemma EmailTakenAfterAdd(subscribers: map<nat, Subscriber>, s: Subscriber, email: string)
    requires s.id !in subscribers
    ensures EmailTaken(subscribers[s.id := s], email) <==> EmailTaken(subscribers, email) || email == s.email
  {
    var m := subscribers[s.id := s];
    if EmailTaken(m, email) {
      var k :| k in m && m[k].email == email;
      if k != s.id { assert subscribers[k].email == email; }
    }
    if EmailTaken(subscribers, email) {
      var k :| k in subscribers && subscribers[k].email == email;
      assert m[k].email == email;
    }
    if email == s.email {
      assert m[s.id].email == email;
    }
  }

  /** The addresses of the subscribers. */
  function Emails(subscribers: map<nat, Subscriber>): set<string> {
    set id | id in subscribers :: subscribers[id].email
  }

  /** Removing one row removes its address and keeps the others. */
  lemma EmailsWithout(subscribers: map<nat, Subscriber>, k: nat)
    requires k in subscribers
    ensures Emails(subscribers) == Emails(subscribers - {k}) + {subscribers[k].email}
  {
    var smaller := subscribers - {k};
    forall x | x in Emails(subscribers) ensures x in Emails(smaller) + {subscribers[k].email} {
      var k' :| k' in subscribers && subscribers[k'].email == x;
      if k' != k { assert smaller[k'].email == x; }
    }
    forall x | x in Emails(smaller) ensures x in Emails(subscribers) {
      var k' :| k' in smaller && smaller[k'].email == x;
      assert subscribers[k'].email == x;
    }
  }

  /** Under the unique constraint there are as many distinct addresses as
      subscribers. */
  lemma {:induction false} UniqueEmailsCount(subscribers: map<nat, Subscriber>)
    requires UniqueEmails(subscribers)
    ensures |Emails(subscribers)| == |subscribers|
    decreases |subscribers|
  {
    if subscribers != map[] {
      var k :| k in subscribers;
      var smaller := subscribers - {k};
      assert smaller.Keys == subscribers.Keys - {k};
      assert |smaller| == |subscribers| - 1;
      assert UniqueEmails(smaller) by {
        forall a, b | a in smaller && b in smaller && smaller[a].email == smaller[b].email
          ensures a == b
        {
          assert subscribers[a].email == subscribers[b].email;
        }
      }
      UniqueEmailsCount(smaller);
      var e := subscribers[k].email;
      EmailsWithout(subscribers, k);
      assert e !in Emails(smaller) by {
        forall k' | k' in smaller ensures smaller[k'].email != e {
          assert subscribers[k'] == smaller[k'] && k' != k;
        }
      }
    }
  }
}
