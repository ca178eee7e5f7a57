/** Runs of the store that the repository's tests and documented scenarios
    describe, proved from the contracts of the store's methods alone. */
module Scenarios {
  import opened Values
  import opened Text
  import opened Records
  import opened Blog

  /** Create, read, partially update, delete, read again: the post keeps its
      content through a title-only update and is gone after the delete. */
  method PostLifecycle() returns (statuses: seq<Status>, fetched: Option<Post>, changed: Option<Post>)
    ensures statuses == [Created, Ok, Ok, Ok, NotFound]
    ensures fetched.Some? && fetched.value.title == "T" && fetched.value.content == "C"
    ensures changed.Some? && changed.value.title == "T2" && changed.value.content == "C"
    ensures fetched.value.id == changed.value.id && fetched.value.createdAt == changed.value.createdAt
  {
    var store := new BlogStore();
    var body := map["title" := Str("T"), "content" := Str("C")];
    assert Truthy(body, "title") && Truthy(body, "content");
    var created, post := store.CreatePost(Some(body), 7);
    var id := post.value.id;
    var read;
    read, fetched := store.GetPost(id);
    var update;
    var edit := map["title" := Str("T2")];
    assert "title" in edit;
    update, changed := store.UpdatePost(id, Some(edit));
    var deleted := store.DeletePost(id);
    var gone, _ := store.GetPost(id);
    statuses := [created, read, update, deleted, gone];
  }

  /** A created post reads back with the title, content and image URL of
      the request, under the id the create answered with. */
  method CreateThenGet(store: BlogStore, request: Option<Body>, now: nat)
    returns (created: Option<Post>, fetched: Option<Post>)
    requires store.Valid() && CreateAccepted(request)
    modifies store
    ensures created.Some? && fetched == created
    ensures Str(fetched.value.title) == request.value["title"]
    ensures Str(fetched.value.content) == request.value["content"]
    ensures fetched.value.imageUrl == OptionalText(request.value, "image_url")
    ensures fetched.value.createdAt == now
  {
    var status, read;
    status, created := store.CreatePost(request, now);
    read, fetched := store.GetPost(created.value.id);
  }

  /** A create without content is refused and stores nothing. */
  method CreateWithoutContent() returns (status: Status, count: nat)
    ensures status == BadRequest && count == 0
  {
    var store := new BlogStore();
    var created;
    status, created := store.CreatePost(Some(map["title" := Str("T")]), 0);
    count := |store.posts|;
  }

  /** Posts `{"email": raw}` to the signup route: afterwards exactly the
      addresses taken before and the normalised `raw` are taken. */
  method SignUpRaw(store: BlogStore, raw: string, now: nat) returns (status: Status)
    requires store.Valid() && raw != []
    modifies store
    ensures store.Valid()
    ensures EmailTaken(old(store.subscribers), NormalizeEmail(raw)) ==>
      status == Ok && store.subscribers == old(store.subscribers)
    ensures !EmailTaken(old(store.subscribers), NormalizeEmail(raw)) ==>
      status == Created && |store.subscribers| == |old(store.subscribers)| + 1
    ensures forall e :: EmailTaken(store.subscribers, e) <==> EmailTaken(old(store.subscribers), e) || e == NormalizeEmail(raw)
  {
    var body := map["email" := Str(raw)];
    assert Truthy(body, "email") && SignupEmail(body) == NormalizeEmail(raw);
    status := store.Signup(Some(body), now);
    if status == Created {
      ghost var id: nat :| id !in old(store.subscribers)
        && store.subscribers == old(store.subscribers)[id := Subscriber(id, NormalizeEmail(raw), now)];
      forall e ensures EmailTaken(store.subscribers, e) <==> EmailTaken(old(store.subscribers), e) || e == NormalizeEmail(raw) {
        EmailTakenAfterAdd(old(store.subscribers), Subscriber(id, NormalizeEmail(raw), now), e);
      }
    }
  }

  /** Posts `{"email": email}` to the signup route for an address that is
      already in normal form. */
  method SignUpNormal(store: BlogStore, email: string, now: nat) returns (status: Status)
    requires store.Valid() && email != [] && Trimmed(email)
    requires forall k :: 0 <= k < |email| ==> !IsUpper(email[k])
    modifies store
    ensures store.Valid()
    ensures !EmailTaken(old(store.subscribers), email) ==>
      status == Created && |store.subscribers| == |old(store.subscribers)| + 1
    ensures forall e :: EmailTaken(store.subscribers, e) <==> EmailTaken(old(store.subscribers), e) || e == email
  {
    assert NormalizeEmail(email) == email by {
      NormalizeKeepsNormal(email);
    }
    status := SignUpRaw(store, email, now);
  }

  /** Signing up an address and then the same address in another letter
      case and without the surrounding whitespace (" A@B.com " and then
      "a@b.com") stores one subscriber; the second signup answers 200 and
      changes nothing. */
  method SignupNormalises(front: string, raw: string, back: string, again: string)
    returns (first: Status, second: Status, count: nat)
    requires AllSpace(front) && AllSpace(back) && raw != [] && again != []
    requires Lower(raw) == Lower(again)
    ensures first == Created && second == Ok && count == 1
  {
    var store := new BlogStore();
    assert NormalizeEmail(front + raw + back) == NormalizeEmail(again) by {
      SameAddressUpToCaseAndPadding(front, raw, back, again);
    }
    first := SignUpRaw(store, front + raw + back, 0);
    second := SignUpRaw(store, again, 1);
    count := |store.subscribers|;
  }

  /** An address that unsubscribed can sign up again. */
  method ResubscribeAfterUnsubscribe(email: string) returns (statuses: seq<Status>)
    requires email != [] && Trimmed(email)
    requires forall k :: 0 <= k < |email| ==> !IsUpper(email[k])
    ensures statuses == [Created, Ok, Created]
  {
    var store := new BlogStore();
    var joined := SignUpNormal(store, email, 0);
    var id :| id in store.subscribers;
    ghost var before := store.subscribers;
    var left := store.Unsubscribe(id);
    assert store.subscribers.Keys == before.Keys - {id};
    assert |store.subscribers.Keys| == 0;
    var rejoined := SignUpNormal(store, email, 1);
    statuses := [joined, left, rejoined];
  }

  /** A fresh store after three signups with distinct addresses. */
  method ThreeSubscribers() returns (store: BlogStore)
    ensures fresh(store) && store.Valid() && |store.subscribers| == 3
  {
    store := new BlogStore();
    var s1 := SignUpNormal(store, "a@x", 1);
    var s2 := SignUpNormal(store, "bb@x", 2);
    var s3 := SignUpNormal(store, "ccc@x", 3);
  }

  /** Three subscribers, the second attempt fails: two successes, one
      failure, three subscribers, and the third is still attempted. */
  method NewsletterOneFailure() returns (status: Status, report: Option<Report>, attempted: nat)
    ensures status == Ok && report == Some(Report(2, 1, 3)) && attempted == 3
  {
    var store := ThreeSubscribers();
    var letter := map["subject" := Str("S"), "content" := Str("C")];
    assert letter["subject"] == Str("S") && letter["content"] == Str("C");
    assert NewsletterAccepted(Some(letter));
    var attempts;
    status, report, attempts := store.SendNewsletter(Some(letter), (i: nat, email: string) => i != 1);
    attempted := |attempts|;
    assert Delivered(attempts[..1]) == 1 by {
      assert attempts[..1][..0] == [];
    }
    assert Delivered(attempts[..2]) == 1 by {
      assert attempts[..2][..1] == attempts[..1];
    }
    assert attempts[..3] == attempts;
    DeliveredPlusFailed(attempts);
  }
}
