/** MiniSocial (exp_10.3/app.js): users sign up and sign in, publish posts,
    like and comment on them, delete their own, and search the feed. The
    handlers change one store object in place; the feed is computed from
    it by a pure pipeline. */
module MiniSocial {
  import opened Lists
  import opened Text
  import opened Sorting

  datatype User = User(id: string, username: string, name: string, bio: string, password: string)

  datatype Comment = Comment(id: string, authorId: string, text: string, createdAt: int)

  /** `likes` holds the ids of the users who like the post. */
  datatype Post = Post(id: string, authorId: string, title: string, body: string, image: string,
                       createdAt: int, likes: seq<string>, comments: seq<Comment>)

  /** The messages the handlers show with `alert`. */
  datatype Reason = NameRequired | UsernameTaken | InvalidCredentials | TextRequired | NotYourPost

  /** How a handler ends: it changed the store, returned without a word,
      opened the sign-in dialog, or refused with an alert. */
  datatype Outcome = Done | Silent | SignInPrompt | Alert(reason: Reason)

  /** A post's title keeps at most this many characters of its text. */
  const TitleLength := 120

  function UserId(u: User): string { u.id }
  function LowerUsername(u: User): string { ToLower(u.username) }
  function PostId(p: Post): string { p.id }
  function CommentId(c: Comment): string { c.id }
  function CreatedAt(p: Post): int { p.createdAt }

  /** Usernames are compared after lowering both sides. */
  predicate HasUsername(u: User, username: string)
  {
    ToLower(u.username) == ToLower(username)
  }

  /** The sign-in test: the username matches case-insensitively and the
      password matches exactly. */
  predicate HasCredentials(u: User, username: string, password: string)
  {
    HasUsername(u, username) && u.password == password
  }

  function Named(username: string): User -> bool { (u: User) => HasUsername(u, username) }
  function LogsIn(username: string, password: string): User -> bool { (u: User) => HasCredentials(u, username, password) }
  function WithId(id: string): Post -> bool { (p: Post) => p.id == id }
  function OtherThan(id: string): Post -> bool { (p: Post) => p.id != id }

  // ---------- likes ----------

  /** The likes list after `toggleLike` for `userId`: appended when it is
      absent, otherwise its first occurrence is spliced out. */
  function Toggled(likes: seq<string>, userId: string): (r: seq<string>)
    ensures userId !in likes ==> userId in r
    ensures |r| == if userId in likes then |likes| - 1 else |likes| + 1
  {
    var i := IndexOf(likes, userId);
    if i == -1 then likes + [userId] else RemoveAt(likes, i)
  }

  /** On a list without duplicates a toggle flips exactly the one user's
      like, moves the counter by one and keeps the list duplicate-free. */
  lemma ToggledFlips(likes: seq<string>, userId: string)
    requires NoDuplicates(likes)
    ensures var r := Toggled(likes, userId);
            && NoDuplicates(r)
            && (userId in r <==> userId !in likes)
            && (forall v :: v != userId ==> (v in r <==> v in likes))
            && |r| == if userId in likes then |likes| - 1 else |likes| + 1
  {
    var i := IndexOf(likes, userId);
    if i == -1 {
      AppendNoDuplicates(likes, userId);
    } else {
      RemoveAtNoDuplicates(likes, i);
    }
  }

  /** On any list a toggle adds one like by the user when there is none and
      takes one away otherwise; no other user's likes change. */
  lemma ToggledCounts(likes: seq<string>, userId: string)
    ensures multiset(Toggled(likes, userId)) ==
            if userId in likes then multiset(likes) - multiset{userId} else multiset(likes) + multiset{userId}
  {
    var i := IndexOf(likes, userId);
    if i != -1 {
      assert likes == likes[..i] + [userId] + likes[i + 1..];
    }
  }

  /** Toggling twice from "not liked" gives back the original list. */
  lemma ToggledTwice(likes: seq<string>, userId: string)
    requires userId !in likes
    ensures Toggled(Toggled(likes, userId), userId) == likes
  {
    var once := likes + [userId];
    assert Toggled(likes, userId) == once;
    assert RemoveAt(once, |likes|) == likes;
  }

  // ---------- the feed ----------

  /** `filter.trim().toLowerCase()`. */
  function Query(filter: string): (q: string)
    ensures q == [] <==> AllWhitespace(filter)
    ensures forall i :: 0 <= i < |q| ==> !IsUpper(q[i])
  {
    ToLower(Trim(filter))
  }

  /** The feed's test for one post: an empty query shows everything,
      otherwise the query must occur in the lowered title or body. */
  predicate Shows(q: string, p: Post)
  {
    q == [] || Includes(ToLower(p.title), q) || Includes(ToLower(p.body), q)
  }

  function Matching(q: string): Post -> bool { (p: Post) => Shows(q, p) }

  /** The posts `renderFeed(filter)` displays, in display order. */
  function Feed(posts: seq<Post>, filter: string): (r: seq<Post>)
    ensures |r| <= |posts|
    ensures forall p :: p in r ==> Shows(Query(filter), p)
  {
    var sorted := SortNewestFirst(posts, CreatedAt);
    assert |sorted| == |multiset(sorted)| == |multiset(posts)| == |posts|;
    Filter(sorted, Matching(Query(filter)))
  }

  /** With a blank query the feed is every post, newest first. */
  lemma FeedBlankQuery(posts: seq<Post>, filter: string)
    requires AllWhitespace(filter)
    ensures Feed(posts, filter) == SortNewestFirst(posts, CreatedAt)
  {
    FilterAll(SortNewestFirst(posts, CreatedAt), Matching(Query(filter)));
  }

  /** The feed holds exactly the stored posts that match the query, each as
      often as it is stored, newest first. */
  lemma FeedContents(posts: seq<Post>, filter: string)
    ensures var r, q := Feed(posts, filter), Query(filter);
            && multiset(r) == multiset(Filter(posts, Matching(q)))
            && (forall p :: p in r <==> p in posts && Shows(q, p))
            && NewestFirst(r, CreatedAt)
  {
    var q := Query(filter);
    var sorted := SortNewestFirst(posts, CreatedAt);
    var r := Feed(posts, filter);
    FilterNewestFirst(sorted, Matching(q), CreatedAt);
    FilterSameMultiset(sorted, posts, Matching(q));
    var m := Filter(posts, Matching(q));
    forall p ensures p in r <==> p in posts && Shows(q, p) {
      assert p in r <==> p in multiset(r);
      assert p in m <==> p in multiset(m);
    }
  }

  /** A post whose title or body contains the trimmed query literally is in
      the feed, whatever the case of either. */
  lemma FeedFindsLiteralMatches(posts: seq<Post>, filter: string, p: Post)
    requires p in posts
    requires Includes(p.title, Trim(filter)) || Includes(p.body, Trim(filter))
    ensures p in Feed(posts, filter)
  {
    if Includes(p.title, Trim(filter)) {
      IncludesToLower(p.title, Trim(filter));
    } else {
      IncludesToLower(p.body, Trim(filter));
    }
    FeedContents(posts, filter);
  }

  // ---------- the store ----------

  /** `STATE`: the users, the posts (newest created first) and the id of
      the signed-in user. */
  class Store {
    var users: seq<User>
    var posts: seq<Post>
    var currentUserId: Option<string>

    /** What the handlers keep true: ids and lowered usernames are unique,
        no user likes a post twice, comment ids are unique within a post,
        and the signed-in user exists. */
    ghost predicate Valid()
      reads this
    {
      && DistinctBy(users, UserId)
      && DistinctBy(users, LowerUsername)
      && DistinctBy(posts, PostId)
      && (forall p :: p in posts ==> NoDuplicates(p.likes) && DistinctBy(p.comments, CommentId))
      && (currentUserId.Some? ==> exists u :: u in users && u.id == currentUserId.value)
    }

    /** `STATE.currentUserId` is truthy: set and not the empty string. */
    predicate SignedIn()
      reads this
    {
      currentUserId.Some? && currentUserId.value != ""
    }

    /** The first post with id `postId` exists and the current user wrote it. */
    predicate OwnsPost(postId: string)
      reads this
    {
      var k := FindIndex(posts, WithId(postId));
      k.Some? && currentUserId == Some(posts[k.value].authorId)
    }

    /** `defaultState`, loaded when nothing is saved. `postTime` and
        `commentTime` are the two `now()` readings taken for the welcome post
        and its comment. */
    constructor (postTime: int, commentTime: int)
      ensures Valid()
      ensures users == [User("u1", "alice", "Alice", "Designer", "123"), User("u2", "bob", "Bob", "DevOps", "123")]
      ensures posts == [Post("p1", "u1", "Welcome to MiniSocial",
                             "This is a demo social feed. Post, like, and comment!", "", postTime,
                             [], [Comment("c1", "u2", "Nice!", commentTime)])]
      ensures currentUserId == None
    {
      users := [User("u1", "alice", "Alice", "Designer", "123"), User("u2", "bob", "Bob", "DevOps", "123")];
      posts := [Post("p1", "u1", "Welcome to MiniSocial",
                     "This is a demo social feed. Post, like, and comment!", "", postTime,
                     [], [Comment("c1", "u2", "Nice!", commentTime)])];
      currentUserId := None;
    }

    /** The sign-up branch of the auth form. `freshId` stands for the
        random `uid('u')`. */
    method SignUp(usernameField: string, nameField: string, password: string, freshId: string)
      returns (outcome: Outcome)
      requires forall u :: u in users ==> u.id != freshId
      modifies this
      ensures posts == old(posts)
      ensures outcome == Alert(NameRequired) <==> Trim(usernameField) == [] || Trim(nameField) == []
      ensures outcome == Alert(UsernameTaken) <==>
                Trim(usernameField) != [] && Trim(nameField) != []
                && exists u :: u in old(users) && HasUsername(u, Trim(usernameField))
      ensures outcome == Done || outcome == Alert(NameRequired) || outcome == Alert(UsernameTaken)
      ensures outcome == Done ==>
                && users == old(users) + [User(freshId, Trim(usernameField), Trim(nameField), "", password)]
                && currentUserId == Some(freshId)
      ensures outcome != Done ==> unchanged(this)
      ensures old(Valid()) ==> Valid()
    {
      var username := Trim(usernameField);
      var name := Trim(nameField);
      if username == [] || name == [] {
        return Alert(NameRequired);
      }
      if Any(users, Named(username)) {
        return Alert(UsernameTaken);
      }
      assert forall u :: u in users ==> !HasUsername(u, username) by {
        forall u | u in users ensures !HasUsername(u, username) {
          var i :| 0 <= i < |users| && users[i] == u;
          assert !Named(username)(users[i]);
        }
      }
      Register(User(freshId, username, name, "", password));
      outcome := Done;
    }

    /** The accepting end of sign-up: the new user is appended and signed in. */
    method Register(u: User)
      modifies this
      ensures posts == old(posts) && users == old(users) + [u] && currentUserId == Some(u.id)
      ensures old(Valid()) && (forall v :: v in old(users) ==> v.id != u.id && !HasUsername(v, u.username)) ==> Valid()
    {
      if Valid() && forall v :: v in users ==> v.id != u.id && !HasUsername(v, u.username) {
        DistinctByAppend(users, u, UserId);
        DistinctByAppend(users, u, LowerUsername);
      }
      users := users + [u];
      currentUserId := Some(u.id);
    }

    /** The sign-in branch of the auth form: the first user with these
        credentials becomes the current user. */
    method SignIn(usernameField: string, password: string) returns (outcome: Outcome)
      modifies this
      ensures users == old(users) && posts == old(posts)
      ensures outcome == Done || outcome == Alert(InvalidCredentials)
      ensures outcome == Done <==> exists u :: u in users && HasCredentials(u, Trim(usernameField), password)
      ensures outcome == Done ==>
                exists u :: u in users && HasCredentials(u, Trim(usernameField), password)
                            && currentUserId == Some(u.id)
      ensures outcome == Done && old(Valid()) ==>
                forall u :: u in users && HasUsername(u, Trim(usernameField)) ==> currentUserId == Some(u.id)
      ensures outcome != Done ==> currentUserId == old(currentUserId)
      ensures old(Valid()) ==> Valid()
    {
      var username := Trim(usernameField);
      var k := FindIndex(users, LogsIn(username, password));
      if k.None? {
        return Alert(InvalidCredentials);
      }
      var u := users[k.value];
      if Valid() {
        forall v | v in users && HasUsername(v, username) ensures v == u {
          DistinctByUnique(users, LowerUsername, u, v);
        }
      }
      currentUserId := Some(u.id);
      outcome := Done;
    }

    /** The post form. `freshId` stands for the random `uid('p')` and `now`
        for the creation time. */
    method CreatePost(textField: string, imageField: string, freshId: string, now: int)
      returns (outcome: Outcome)
      requires forall p :: p in posts ==> p.id != freshId
      modifies this
      ensures users == old(users) && currentUserId == old(currentUserId)
      ensures outcome == SignInPrompt <==> !old(SignedIn())
      ensures outcome == Alert(TextRequired) <==> old(SignedIn()) && Trim(textField) == []
      ensures outcome == Done <==> old(SignedIn()) && Trim(textField) != []
      ensures outcome == Done ==>
                && posts == [Post(freshId, currentUserId.value, Prefix(Trim(textField), TitleLength),
                                  Trim(textField), Trim(imageField), now, [], [])] + old(posts)
                && |posts[0].title| <= TitleLength
                && posts[0].title == posts[0].body[..|posts[0].title|]
      ensures outcome != Done ==> unchanged(this)
      ensures old(Valid()) ==> Valid()
    {
      if !SignedIn() {
        return SignInPrompt;
      }
      var title := Trim(textField);
      var image := Trim(imageField);
      if title == [] {
        return Alert(TextRequired);
      }
      Publish(Post(freshId, currentUserId.value, Prefix(title, TitleLength), title, image, now, [], []));
      outcome := Done;
    }

    /** The accepting end of the post form: the new post goes first. */
    method Publish(p: Post)
      modifies this
      ensures users == old(users) && currentUserId == old(currentUserId)
      ensures posts == [p] + old(posts)
      ensures (old(Valid()) && p.likes == [] && p.comments == []
               && forall q :: q in old(posts) ==> q.id != p.id) ==> Valid()
    {
      if Valid() && p.likes == [] && p.comments == [] && forall q :: q in posts ==> q.id != p.id {
        DistinctByAppend(posts, p, PostId);
      }
      posts := [p] + posts;
    }

    /** `toggleLike(postId)` for the current user. */
    method ToggleLike(postId: string) returns (outcome: Outcome)
      modifies this
      ensures users == old(users) && currentUserId == old(currentUserId)
      ensures outcome == SignInPrompt <==> !old(SignedIn())
      ensures outcome == Silent <==> old(SignedIn()) && forall i :: 0 <= i < |old(posts)| ==> old(posts)[i].id != postId
      ensures outcome == Done <==> old(SignedIn()) && exists i :: 0 <= i < |old(posts)| && old(posts)[i].id == postId
      ensures outcome == Done ==>
                var k := FindIndex(old(posts), WithId(postId)).value;
                posts == old(posts)[k := old(posts)[k].(likes := Toggled(old(posts)[k].likes, currentUserId.value))]
      ensures outcome != Done ==> posts == old(posts)
      ensures old(Valid()) ==> Valid()
    {
      if !SignedIn() {
        return SignInPrompt;
      }
      var k := FindIndex(posts, WithId(postId));
      if k.None? {
        return Silent;
      }
      var p := posts[k.value];
      var p' := p.(likes := Toggled(p.likes, currentUserId.value));
      if Valid() {
        ToggledFlips(p.likes, currentUserId.value);
        DistinctByUpdate(posts, k.value, p', PostId);
      }
      posts := posts[k.value := p'];
      outcome := Done;
    }

    /** `addComment(postId)` with the text of that post's comment box. The
        source looks the post up without checking that it was found. */
    method AddComment(postId: string, textField: string, freshId: string, now: int)
      returns (outcome: Outcome)
      requires SignedIn() && Trim(textField) != [] ==> exists i :: 0 <= i < |posts| && posts[i].id == postId
      requires forall p, c :: p in posts && c in p.comments ==> c.id != freshId
      modifies this
      ensures users == old(users) && currentUserId == old(currentUserId)
      ensures outcome == SignInPrompt <==> !old(SignedIn())
      ensures outcome == Silent <==> old(SignedIn()) && Trim(textField) == []
      ensures outcome == Done <==> old(SignedIn()) && Trim(textField) != []
      ensures outcome == Done ==>
                var k := FindIndex(old(posts), WithId(postId)).value;
                var c := Comment(freshId, currentUserId.value, Trim(textField), now);
                posts == old(posts)[k := old(posts)[k].(comments := old(posts)[k].comments + [c])]
      ensures outcome != Done ==> posts == old(posts)
      ensures old(Valid()) ==> Valid()
    {
      if !SignedIn() {
        return SignInPrompt;
      }
      var text := Trim(textField);
      if text == [] {
        return Silent;
      }
      var k := FindIndex(posts, WithId(postId));
      AppendComment(k.value, Comment(freshId, currentUserId.value, text, now));
      outcome := Done;
    }

    /** The accepting end of `addComment`: the comment goes last on post `k`. */
    method AppendComment(k: nat, c: Comment)
      requires k < |posts|
      modifies this
      ensures users == old(users) && currentUserId == old(currentUserId)
      ensures posts == old(posts)[k := old(posts)[k].(comments := old(posts)[k].comments + [c])]
      ensures old(Valid()) && (forall d :: d in old(posts)[k].comments ==> d.id != c.id) ==> Valid()
    {
      var p := posts[k];
      var p' := p.(comments := p.comments + [c]);
      if Valid() && forall d :: d in p.comments ==> d.id != c.id {
        DistinctByAppend(p.comments, c, CommentId);
        DistinctByUpdate(posts, k, p', PostId);
      }
      posts := posts[k := p'];
    }

    /** `deletePost(postId)`; `confirmed` is the answer to the confirmation
        dialog. Every post with that id goes, the rest keep their order. */
    method DeletePost(postId: string, confirmed: bool) returns (outcome: Outcome)
      modifies this
      ensures users == old(users) && currentUserId == old(currentUserId)
      ensures outcome == Done <==> old(OwnsPost(postId)) && confirmed
      ensures outcome == Alert(NotYourPost) <==>
                (exists i :: 0 <= i < |old(posts)| && old(posts)[i].id == postId) && !old(OwnsPost(postId))
      ensures outcome == Silent <==>
                (forall i :: 0 <= i < |old(posts)| ==> old(posts)[i].id != postId)
                || (old(OwnsPost(postId)) && !confirmed)
      ensures outcome == Done ==> posts == Filter(old(posts), OtherThan(postId))
      ensures outcome != Done ==> posts == old(posts)
      ensures old(Valid()) ==> Valid()
    {
      var k := FindIndex(posts, WithId(postId));
      if k.None? {
        return Silent;
      }
      if currentUserId != Some(posts[k.value].authorId) {
        return Alert(NotYourPost);
      }
      if !confirmed {
        return Silent;
      }
      if Valid() {
        FilterKeepsDistinct(posts, OtherThan(postId), PostId);
      }
      posts := Filter(posts, OtherThan(postId));
      outcome := Done;
    }
  }
}
