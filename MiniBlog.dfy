/** MiniBlog (exp_10.2/app.js): an in-memory blog. Users are created and
    switched without passwords, the active user publishes posts and
    comments, and authors delete their own posts. Ids come from a counter
    in the store. */
module MiniBlog {
  import opened Lists
  import opened Text
  import opened Sorting

  datatype User = User(id: string, username: string, name: string, bio: string)

  datatype Comment = Comment(id: string, authorId: string, text: string, createdAt: int)

  /** `comments` may be missing on a post (`p.comments || []`). */
  datatype Post = Post(id: string, authorId: string, title: string, content: string,
                       createdAt: int, comments: Option<seq<Comment>>)

  /** The messages the handlers show with `alert`. */
  datatype Reason = NoActiveUser | NameRequired | UsernameTaken | TitleAndContentRequired | NotYourPost

  /** How a handler ends: it changed the store, returned without a word, or
      refused with an alert. */
  datatype Outcome = Done | Silent | Alert(reason: Reason)

  function UserId(u: User): string { u.id }
  function LowerUsername(u: User): string { ToLower(u.username) }
  function PostId(p: Post): string { p.id }
  function CreatedAt(p: Post): int { p.createdAt }

  /** `p.comments || []`. */
  function CommentsOf(p: Post): seq<Comment>
  {
    match p.comments
    case None => []
    case Some(cs) => cs
  }

  /** Usernames are compared after lowering both sides. */
  predicate HasUsername(u: User, username: string)
  {
    ToLower(u.username) == ToLower(username)
  }

  function Named(username: string): User -> bool { (u: User) => HasUsername(u, username) }
  function WithId(id: string): Post -> bool { (p: Post) => p.id == id }
  function OtherThan(id: string): Post -> bool { (p: Post) => p.id != id }

  // ---------- ids ----------

  function Digit(d: nat): char
    requires d < 10
  {
    ('0' as int + d) as char
  }

  /** How JavaScript writes a natural number in a template string: decimal
      digits without leading zeros. */
  function Decimal(n: nat): (r: string)
    ensures |r| >= 1
    ensures 10 <= n ==> |r| >= 2
    ensures forall i :: 0 <= i < |r| ==> '0' <= r[i] <= '9'
    ensures r[0] == '0' <==> n == 0
  {
    if n < 10 then [Digit(n)] else Decimal(n / 10) + [Digit(n % 10)]
  }

  /** Different numbers are written differently. */
  lemma {:induction false} DecimalInjective(a: nat, b: nat)
    requires Decimal(a) == Decimal(b)
    ensures a == b
  {
    if 10 <= a && 10 <= b {
      var da, db := Decimal(a), Decimal(b);
      assert da[|da| - 1] == Digit(a % 10) && db[|db| - 1] == Digit(b % 10);
      assert da[..|da| - 1] == Decimal(a / 10) && db[..|db| - 1] == Decimal(b / 10);
      DecimalInjective(a / 10, b / 10);
    }
  }

  /** `uid` numbers its ids, so two ids drawn with the same prefix under
      different counter values differ. */
  lemma IdsDiffer(prefix: string, a: nat, b: nat)
    requires a != b
    ensures prefix + Decimal(a) != prefix + Decimal(b)
  {
    if prefix + Decimal(a) == prefix + Decimal(b) {
      assert (prefix + Decimal(a))[|prefix|..] == Decimal(a);
      assert (prefix + Decimal(b))[|prefix|..] == Decimal(b);
      DecimalInjective(a, b);
    }
  }

  /** `id` is a one-character prefix followed by a number no larger than
      `counter`: the shape of every id in the store. */
  ghost predicate Issued(id: string, counter: nat)
  {
    |id| >= 1 && exists n: nat :: n <= counter && id[1..] == Decimal(n)
  }

  lemma IssuedMonotone(id: string, counter: nat, counter': nat)
    requires Issued(id, counter) && counter <= counter'
    ensures Issued(id, counter')
  {
    var n: nat :| n <= counter && id[1..] == Decimal(n);
  }

  /** The next id `uid` draws with a one-character prefix was not issued
      before. */
  lemma NextIdIsNew(prefix: string, counter: nat, id: string)
    requires |prefix| == 1 && Issued(id, counter)
    ensures id != prefix + Decimal(counter + 1)
  {
    var n: nat :| n <= counter && id[1..] == Decimal(n);
    if id == prefix + Decimal(counter + 1) {
      assert id[1..] == Decimal(counter + 1);
      DecimalInjective(n, counter + 1);
    }
  }

  /** Every id in the store was issued at or below `counter`. */
  ghost predicate IdsIssued(users: seq<User>, posts: seq<Post>, counter: nat)
  {
    && (forall u :: u in users ==> Issued(u.id, counter))
    && (forall p :: p in posts ==> Issued(p.id, counter))
    && (forall p, c :: p in posts && c in CommentsOf(p) ==> Issued(c.id, counter))
  }

  /** Some user, post or comment has this id. */
  ghost predicate Taken(users: seq<User>, posts: seq<Post>, id: string)
  {
    || (exists u :: u in users && u.id == id)
    || (exists p :: p in posts && p.id == id)
    || (exists p, c :: p in posts && c in CommentsOf(p) && c.id == id)
  }

  /** The store's invariant: ids are issued by the counter, user and post
      ids are unique, and so are lowered usernames. */
  ghost predicate Consistent(users: seq<User>, posts: seq<Post>, counter: nat)
  {
    && IdsIssued(users, posts, counter)
    && DistinctBy(users, UserId)
    && DistinctBy(users, LowerUsername)
    && DistinctBy(posts, PostId)
  }

  /** Drawing an id keeps every id issued, and the id drawn with a
      one-character prefix is not taken. */
  lemma NextIdKeepsConsistent(users: seq<User>, posts: seq<Post>, counter: nat, prefix: string)
    requires Consistent(users, posts, counter)
    ensures Consistent(users, posts, counter + 1)
    ensures |prefix| == 1 ==> !Taken(users, posts, prefix + Decimal(counter + 1))
                              && Issued(prefix + Decimal(counter + 1), counter + 1)
  {
    forall u | u in users ensures Issued(u.id, counter + 1) {
      IssuedMonotone(u.id, counter, counter + 1);
    }
    forall p | p in posts ensures Issued(p.id, counter + 1) {
      IssuedMonotone(p.id, counter, counter + 1);
    }
    forall p, c | p in posts && c in CommentsOf(p) ensures Issued(c.id, counter + 1) {
      IssuedMonotone(c.id, counter, counter + 1);
    }
    if |prefix| == 1 {
      var id := prefix + Decimal(counter + 1);
      forall u | u in users ensures u.id != id {
        NextIdIsNew(prefix, counter, u.id);
      }
      forall p | p in posts ensures p.id != id {
        NextIdIsNew(prefix, counter, p.id);
      }
      forall p, c | p in posts && c in CommentsOf(p) ensures c.id != id {
        NextIdIsNew(prefix, counter, c.id);
      }
      assert id[1..] == Decimal(counter + 1);
    }
  }

  /** A user with a fresh issued id and a new lowered username keeps the
      store consistent. */
  lemma AddUserKeepsConsistent(users: seq<User>, posts: seq<Post>, counter: nat, u: User)
    requires Consistent(users, posts, counter)
    requires Issued(u.id, counter) && !Taken(users, posts, u.id)
    requires forall y :: y in users ==> LowerUsername(y) != LowerUsername(u)
    ensures Consistent(users + [u], posts, counter)
  {
    DistinctByAppend(users, u, UserId);
    DistinctByAppend(users, u, LowerUsername);
  }

  /** So does a post with a fresh issued id and no comments. */
  lemma AddPostKeepsConsistent(users: seq<User>, posts: seq<Post>, counter: nat, p: Post)
    requires Consistent(users, posts, counter)
    requires Issued(p.id, counter) && !Taken(users, posts, p.id) && CommentsOf(p) == []
    ensures Consistent(users, posts + [p], counter)
  {
    DistinctByAppend(posts, p, PostId);
  }

  /** And a comment with an issued id added to one post. */
  lemma AddCommentKeepsConsistent(users: seq<User>, posts: seq<Post>, counter: nat, k: nat, c: Comment)
    requires Consistent(users, posts, counter)
    requires k < |posts| && Issued(c.id, counter)
    ensures Consistent(users, posts[k := posts[k].(comments := Some(CommentsOf(posts[k]) + [c]))], counter)
  {
    var p' := posts[k].(comments := Some(CommentsOf(posts[k]) + [c]));
    var s := posts[k := p'];
    DistinctByUpdate(posts, k, p', PostId);
    forall q, d | q in s && d in CommentsOf(q) ensures Issued(d.id, counter) {
      var m :| 0 <= m < |s| && s[m] == q;
      if m != k {
        assert q == posts[m];
      }
    }
  }

  /** Removing posts keeps the store consistent. */
  lemma FilterPostsKeepsConsistent(users: seq<User>, posts: seq<Post>, counter: nat, f: Post -> bool)
    requires Consistent(users, posts, counter)
    ensures Consistent(users, Filter(posts, f), counter)
  {
    FilterKeepsDistinct(posts, f, PostId);
  }

  // ---------- the store ----------

  /** `state`: users, posts in creation order, the active user and the id
      counter. */
  class Store {
    var users: seq<User>
    var posts: seq<Post>
    var activeUserId: Option<string>
    var idCounter: nat

    ghost predicate Valid()
      reads this
    {
      Consistent(users, posts, idCounter)
    }

    /** `state.activeUserId` is truthy: set and not the empty string. */
    predicate Active()
      reads this
    {
      activeUserId.Some? && activeUserId.value != ""
    }

    /** The first post with id `postId` exists and the active user wrote it. */
    predicate OwnsPost(postId: string)
      reads this
    {
      var k := FindIndex(posts, WithId(postId));
      k.Some? && activeUserId == Some(posts[k.value].authorId)
    }

    /** The initial `state` followed by `init()`, whose `renderUsers` makes
        the first user active. `postTime` and `commentTime` are the two
        `new Date()` readings taken for the welcome post and its comment. */
    constructor (postTime: int, commentTime: int)
      ensures Valid()
      ensures users == [User("u1", "alice", "Alice", "Designer"), User("u2", "bob", "Bob", "DevOps")]
      ensures posts == [Post("p1", "u1", "Welcome to MiniBlog",
                             "This is a demo post. Create your own posts and comments.", postTime,
                             Some([Comment("c1", "u2", "Nice start!", commentTime)]))]
      ensures activeUserId == Some("u1") && idCounter == 100
    {
      users := [User("u1", "alice", "Alice", "Designer"), User("u2", "bob", "Bob", "DevOps")];
      posts := [Post("p1", "u1", "Welcome to MiniBlog",
                     "This is a demo post. Create your own posts and comments.", postTime,
                     Some([Comment("c1", "u2", "Nice start!", commentTime)]))];
      activeUserId := None;
      idCounter := 100;
      new;
      assert Decimal(1) == "1";
      assert "u1"[1..] == "1" && "u2"[1..] == "2" && "p1"[1..] == "1" && "c1"[1..] == "1";
      assert Decimal(2) == "2";
      DefaultActiveUser();
    }

    /** `uid(prefix)`: the counter goes up by one and the id is the prefix
        followed by its new value. With a one-character prefix the id is
        not in use yet. */
    method NextId(prefix: string) returns (id: string)
      modifies this`idCounter
      ensures idCounter == old(idCounter) + 1
      ensures id == prefix + Decimal(idCounter)
      ensures |prefix| == 1 && old(Valid()) ==> !Taken(users, posts, id) && Issued(id, idCounter)
      ensures old(Valid()) ==> Valid()
    {
      if Valid() {
        NextIdKeepsConsistent(users, posts, idCounter, prefix);
      }
      idCounter := idCounter + 1;
      id := prefix + Decimal(idCounter);
    }

    /** The side effect of `renderUsers`: with no active user and at least
        one user, the first user becomes active. */
    method DefaultActiveUser()
      modifies this`activeUserId
      ensures !old(Active()) && |users| > 0 ==> activeUserId == Some(users[0].id)
      ensures old(Active()) || |users| == 0 ==> activeUserId == old(activeUserId)
    {
      if !Active() && |users| > 0 {
        activeUserId := Some(users[0].id);
      }
    }

    /** The user form: a new user from the trimmed fields, made active. */
    method CreateUser(usernameField: string, fullnameField: string, bioField: string)
      returns (outcome: Outcome)
      modifies this
      ensures posts == old(posts)
      ensures outcome == Alert(NameRequired) <==> Trim(usernameField) == [] || Trim(fullnameField) == []
      ensures outcome == Alert(UsernameTaken) <==>
                Trim(usernameField) != [] && Trim(fullnameField) != []
                && exists u :: u in old(users) && HasUsername(u, Trim(usernameField))
      ensures outcome == Done || outcome == Alert(NameRequired) || outcome == Alert(UsernameTaken)
      ensures outcome == Done ==>
                && idCounter == old(idCounter) + 1
                && users == old(users) + [User("u" + Decimal(idCounter), Trim(usernameField),
                                               Trim(fullnameField), Trim(bioField))]
                && activeUserId == Some("u" + Decimal(idCounter))
      ensures outcome != Done ==> unchanged(this)
      ensures old(Valid()) ==> Valid()
    {
      var username := Trim(usernameField);
      var name := Trim(fullnameField);
      var bio := Trim(bioField);
      if username == [] || name == [] {
        return Alert(NameRequired);
      }
      if Any(users, Named(username)) {
        var i :| 0 <= i < |users| && Named(username)(users[i]);
        assert users[i] in users && HasUsername(users[i], username);
        return Alert(UsernameTaken);
      }
      assert forall u :: u in users ==> !HasUsername(u, username) by {
        forall u | u in users ensures !HasUsername(u, username) {
          var i :| 0 <= i < |users| && users[i] == u;
          assert !Named(username)(users[i]);
        }
      }
      AddUser(username, name, bio);
      outcome := Done;
    }

    /** The accepting end of the user form: the user gets the next `u` id,
        is appended and becomes active, and `renderUsers` runs. */
    method AddUser(username: string, name: string, bio: string)
      modifies this
      ensures posts == old(posts) && idCounter == old(idCounter) + 1
      ensures users == old(users) + [User("u" + Decimal(idCounter), username, name, bio)]
      ensures activeUserId == Some("u" + Decimal(idCounter))
      ensures old(Valid()) && (forall u :: u in old(users) ==> !HasUsername(u, username)) ==> Valid()
    {
      ghost var wasValid := Valid();
      var id := NextId("u");
      var u := User(id, username, name, bio);
      if wasValid && forall y :: y in users ==> !HasUsername(y, username) {
        assert forall y :: y in users ==> LowerUsername(y) != LowerUsername(u);
        AddUserKeepsConsistent(users, posts, idCounter, u);
      }
      users := users + [u];
      activeUserId := Some(id);
      assert Active();
      DefaultActiveUser();
    }

    /** The user select: whatever option was chosen becomes active. */
    method SelectUser(value: string)
      modifies this`activeUserId
      ensures activeUserId == Some(value)
    {
      activeUserId := Some(value);
    }

    /** The post form: a post from the trimmed title and content, appended
        with an empty comment list. */
    method CreatePost(titleField: string, contentField: string, now: int) returns (outcome: Outcome)
      modifies this
      ensures users == old(users) && activeUserId == old(activeUserId)
      ensures outcome == Alert(NoActiveUser) <==> !old(Active())
      ensures outcome == Alert(TitleAndContentRequired) <==>
                old(Active()) && (Trim(titleField) == [] || Trim(contentField) == [])
      ensures outcome == Done <==> old(Active()) && Trim(titleField) != [] && Trim(contentField) != []
      ensures outcome == Done ==>
                && idCounter == old(idCounter) + 1
                && posts == old(posts) + [Post("p" + Decimal(idCounter), activeUserId.value,
                                               Trim(titleField), Trim(contentField), now, Some([]))]
      ensures outcome != Done ==> unchanged(this)
      ensures old(Valid()) ==> Valid()
    {
      if !Active() {
        return Alert(NoActiveUser);
      }
      var title := Trim(titleField);
      var content := Trim(contentField);
      if title == [] || content == [] {
        return Alert(TitleAndContentRequired);
      }
      AddPost(title, content, now);
      outcome := Done;
    }

    /** The accepting end of the post form: the post gets the next `p` id
        and is appended with an empty comment list. */
    method AddPost(title: string, content: string, now: int)
      requires activeUserId.Some?
      modifies this
      ensures users == old(users) && activeUserId == old(activeUserId) && idCounter == old(idCounter) + 1
      ensures posts == old(posts) + [Post("p" + Decimal(idCounter), activeUserId.value, title, content, now, Some([]))]
      ensures old(Valid()) ==> Valid()
    {
      ghost var wasValid := Valid();
      var id := NextId("p");
      var p := Post(id, activeUserId.value, title, content, now, Some([]));
      if wasValid {
        AddPostKeepsConsistent(users, posts, idCounter, p);
      }
      posts := posts + [p];
    }

    /** `addComment(postId)` with the text of that post's comment box. A
        missing comment list is started empty. The source looks the post up
        without checking that it was found. */
    method AddComment(postId: string, textField: string, now: int) returns (outcome: Outcome)
      requires Active() && Trim(textField) != [] ==> exists i :: 0 <= i < |posts| && posts[i].id == postId
      modifies this
      ensures users == old(users) && activeUserId == old(activeUserId)
      ensures outcome == Alert(NoActiveUser) <==> !old(Active())
      ensures outcome == Silent <==> old(Active()) && Trim(textField) == []
      ensures outcome == Done <==> old(Active()) && Trim(textField) != []
      ensures outcome == Done ==>
                && idCounter == old(idCounter) + 1
                && var k := FindIndex(old(posts), WithId(postId)).value;
                   var c := Comment("c" + Decimal(idCounter), activeUserId.value, Trim(textField), now);
                   posts == old(posts)[k := old(posts)[k].(comments := Some(CommentsOf(old(posts)[k]) + [c]))]
      ensures outcome != Done ==> unchanged(this)
      ensures old(Valid()) ==> Valid()
    {
      if !Active() {
        return Alert(NoActiveUser);
      }
      var text := Trim(textField);
      if text == [] {
        return Silent;
      }
      var k := FindIndex(posts, WithId(postId));
      AppendComment(k.value, text, now);
      outcome := Done;
    }

    /** The accepting end of `addComment`: the comment gets the next `c` id
        and goes last on post `k`. */
    method AppendComment(k: nat, text: string, now: int)
      requires k < |posts| && activeUserId.Some?
      modifies this
      ensures users == old(users) && activeUserId == old(activeUserId) && idCounter == old(idCounter) + 1
      ensures var c := Comment("c" + Decimal(idCounter), activeUserId.value, text, now);
              posts == old(posts)[k := old(posts)[k].(comments := Some(CommentsOf(old(posts)[k]) + [c]))]
      ensures old(Valid()) ==> Valid()
    {
      var p := posts[k];
      ghost var wasValid := Valid();
      var id := NextId("c");
      var c := Comment(id, activeUserId.value, text, now);
      if wasValid {
        AddCommentKeepsConsistent(users, posts, idCounter, k, c);
      }
      posts := posts[k := p.(comments := Some(CommentsOf(p) + [c]))];
    }

    /** `deletePost(postId)`; `confirmed` is the answer to the confirmation
        dialog. Every post with that id goes, the rest keep their order. */
    method DeletePost(postId: string, confirmed: bool) returns (outcome: Outcome)
      modifies this
      ensures users == old(users) && activeUserId == old(activeUserId) && idCounter == old(idCounter)
      ensures outcome == Done <==> old(OwnsPost(postId)) && confirmed
      ensures outcome == Alert(NotYourPost) <==>
                (exists i :: 0 <= i < |old(posts)| && old(posts)[i].id == postId) && !old(OwnsPost(postId))
      ensures outcome == Silent <==>
                (forall i :: 0 <= i < |old(posts)| ==> old(posts)[i].id != postId)
                || (old(OwnsPost(postId)) && !confirmed)
      ensures outcome == Done ==> posts == Filter(old(posts), OtherThan(postId))
      ensures outcome != Done ==> posts == old(posts)
      ensures old(Valid()) ==> Valid()
    {
      var k := FindIndex(posts, WithId(postId));
      if k.None? {
        return Silent;
      }
      if activeUserId != Some(posts[k.value].authorId) {
        return Alert(NotYourPost);
      }
      if !confirmed {
        return Silent;
      }
      if Valid() {
        FilterPostsKeepsConsistent(users, posts, idCounter, OtherThan(postId));
      }
      posts := Filter(posts, OtherThan(postId));
      outcome := Done;
    }

    /** The list `renderPosts` shows: a sorted copy, newest first, of the
        stored posts, which stay in creation order. */
    function ShownPosts(): (r: seq<Post>)
      reads this
      ensures multiset(r) == multiset(posts)
      ensures NewestFirst(r, CreatedAt)
    {
      SortNewestFirst(posts, CreatedAt)
    }
  }
}
