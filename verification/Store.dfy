/** What every run of transactions keeps, with any of them failing at any statement: the like counts, the
    references, and the meaning of the tables as a history of committed changes. */
module Store {
  import opened Text
  import opened DBclient

  // ----- deleting rows -----

  lemma {:induction false} DeletedRows(s: seq<Like>, keep: Like -> bool, l: Like)
    ensures l in DeleteLikes(s, keep) <==> l in s && keep(l)
  {
    if s != [] {
      DeletedRows(s[1..], keep, l);
      assert s == [s[0]] + s[1..];
    }
  }

  lemma {:induction false} DeletingKeepsDistinct(s: seq<Like>, keep: Like -> bool)
    requires NoDuplicates(s)
    ensures NoDuplicates(DeleteLikes(s, keep))
  {
    if s != [] {
      var rest := DeleteLikes(s[1..], keep);
      assert NoDuplicates(s[1..]);
      DeletingKeepsDistinct(s[1..], keep);
      DeletedRows(s[1..], keep, s[0]);
      assert s[0] !in s[1..];
    }
  }

  lemma {:induction false} NoRows(s: seq<Like>, p: PostId)
    requires forall l :: l in s ==> l.post != p
    ensures RowsFor(s, p) == 0
  {
    if s != [] {
      assert s[0] in s;
      NoRows(s[1..], p);
    }
  }

  lemma {:induction false} RowsAppended(s: seq<Like>, row: Like, p: PostId)
    ensures RowsFor(s + [row], p) == RowsFor(s, p) + if row.post == p then 1 else 0
  {
    if s != [] {
      RowsAppended(s[1..], row, p);
      assert (s + [row])[1..] == s[1..] + [row];
    }
  }

  lemma {:induction false} RowsWithoutOne(s: seq<Like>, row: Like, p: PostId)
    requires NoDuplicates(s)
    ensures RowsFor(DeleteLikes(s, l => l != row), p) == RowsFor(s, p) - if row in s && row.post == p then 1 else 0
  {
    if s != [] {
      assert NoDuplicates(s[1..]);
      RowsWithoutOne(s[1..], row, p);
      assert s == [s[0]] + s[1..];
      assert s[0] !in s[1..];
      var rest := DeleteLikes(s[1..], l => l != row);
      assert ([s[0]] + rest)[1..] == rest;
    }
  }

  lemma {:induction false} RowsWithoutPost(s: seq<Like>, post: PostId, p: PostId)
    ensures RowsFor(DeleteLikes(s, (l: Like) => l.post != post), p) == if p == post then 0 else RowsFor(s, p)
  {
    if s != [] {
      RowsWithoutPost(s[1..], post, p);
      var rest := DeleteLikes(s[1..], (l: Like) => l.post != post);
      assert ([s[0]] + rest)[1..] == rest;
    }
  }

  // ----- one transaction -----

  lemma RowIsCounted(s: seq<Like>, row: Like)
    requires row in s
    ensures RowsFor(s, row.post) >= 1
  {
    if s[0] != row {
      RowIsCounted(s[1..], row);
    }
  }

  lemma ToggleKeepsSound(db: Db, row: Like)
    requires Sound(db) && (row in db.tables.likes || row.post in db.tables.posts)
    ensures Sound(db.(tables := Toggled(db.tables, row)))
  {
    var t, t' := db.tables, Toggled(db.tables, row);
    if row in t.likes {
      DeletingKeepsDistinct(t.likes, l => l != row);
      forall l ensures l in t'.likes ==> l in t.likes {
        DeletedRows(t.likes, l => l != row, l);
      }
      RowIsCounted(t.likes, row);
      forall p | p in t'.posts ensures Coalesce(t'.posts[p].likeCount) == RowsFor(t'.likes, p) {
        RowsWithoutOne(t.likes, row, p);
      }
    } else {
      forall p | p in t'.posts ensures Coalesce(t'.posts[p].likeCount) == RowsFor(t'.likes, p) {
        RowsAppended(t.likes, row, p);
      }
    }
  }

  lemma DeleteKeepsSound(db: Db, post: PostId)
    requires Sound(db)
    ensures Sound(db.(tables := Without(db.tables, post)))
  {
    var t, t' := db.tables, Without(db.tables, post);
    DeletingKeepsDistinct(t.likes, (l: Like) => l.post != post);
    forall l ensures l in t'.likes ==> l in t.likes && l.post != post {
      DeletedRows(t.likes, (l: Like) => l.post != post, l);
    }
    forall p | p in t'.posts ensures Coalesce(t'.posts[p].likeCount) == RowsFor(t'.likes, p) {
      RowsWithoutPost(t.likes, post, p);
    }
  }

  lemma AddKeepsSound(db: Db, user: Option<UserId>, properties: map<string, string>, now: int, fault: Fault)
    requires Sound(db)
    ensures Sound(AddOutcome(db, user, properties, now, fault).db)
  {
    hide RowsFor;
    assert forall l :: l in db.tables.likes ==> l.post in db.tables.posts && l.post != db.nextPost;
    NoRows(db.tables.likes, db.nextPost);
  }

  /** Any transaction, failing at any statement, keeps the tables sound, if likes must refer to posts. */
  lemma ExecKeepsSound(db: Db, op: Op, fault: Fault)
    requires Sound(db)
    ensures Sound(Exec(db, op, fault, Schema(true)).db)
  {
    hide Sound;
    match op
    case Add(user, properties, now) => AddKeepsSound(db, user, properties, now, fault);
    case Delete(post, user) =>
      if post.Some? {
        DeleteKeepsSound(db, post.value);
      }
    case Click(post, user) =>
      if post.Some? && user.Some? {
        var row := Like(post.value, user.value);
        if row in db.tables.likes || row.post in db.tables.posts {
          ToggleKeepsSound(db, row);
        }
      }
  }

  // ----- all runs -----

  type Steps = seq<(Op, Fault)>

  function Run(steps: Steps, schema: Schema): Db {
    if steps == [] then EMPTY
    else
      var (op, fault) := steps[|steps| - 1];
      Exec(Run(steps[..|steps| - 1], schema), op, fault, schema).db
  }

  lemma {:induction false} RunsAreSound(steps: Steps)
    ensures Sound(Run(steps, Schema(true)))
  {
    if steps != [] {
      RunsAreSound(steps[..|steps| - 1]);
      ExecKeepsSound(Run(steps[..|steps| - 1], Schema(true)), steps[|steps| - 1].0, steps[|steps| - 1].1);
    }
  }

  lemma RunOne(steps: Steps, op: Op, fault: Fault, schema: Schema)
    ensures Run(steps + [(op, fault)], schema) == Exec(Run(steps, schema), op, fault, schema).db
  {
    assert (steps + [(op, fault)])[..|steps|] == steps;
  }

  /** A like for an id that is not handed out yet. */
  const EARLY_LIKE: Steps := [] + [(Click(Some(0), Some(7)), NoFault)] + [(Add(Some(7), map[], 0), NoFault)]

  lemma EarlyLikeIsNotCounted()
    ensures !CountsAgree(Run(EARLY_LIKE, Schema(false)).tables)
  {
    var schema := Schema(false);
    RunOne([], Click(Some(0), Some(7)), NoFault, schema);
    RunOne([] + [(Click(Some(0), Some(7)), NoFault)], Add(Some(7), map[], 0), NoFault, schema);
    var first := LikeOutcome(EMPTY, Some(0), Some(7), NoFault, schema).db;
    assert first.tables.likes == [Like(0, 7)];
    var t := AddOutcome(first, Some(7), map[], 0, NoFault).db.tables;
    assert Run(EARLY_LIKE, schema).tables == t;
    assert 0 in t.posts && Coalesce(t.posts[0].likeCount) == 0 && RowsFor(t.likes, 0) == 1;
  }

  /** The counts need the foreign key: without it, a like for an id not yet handed out is accepted, and the
      post that later gets the id starts with a row its count does not know of. */
  lemma CountsAgreeIffForeignKey(schema: Schema)
    ensures (forall steps :: CountsAgree(Run(steps, schema).tables)) <==> schema.likesReferencePosts
  {
    if schema.likesReferencePosts {
      assert schema == Schema(true);
      forall steps ensures CountsAgree(Run(steps, schema).tables) {
        RunsAreSound(steps);
      }
    } else {
      assert schema == Schema(false);
      EarlyLikeIsNotCounted();
    }
  }

  // ----- the committed history -----

  /** What a post says, from its creation on. */
  datatype Creation = Creation(author: UserId, posted: int, description: string, photo: PhotoId)

  datatype Change = Posted(post: PostId, creation: Creation) | Clicked(like: Like) | Removed(post: PostId, remover: UserId)

  type History = seq<Change>

  /** The database has committed the transaction: its client hears so, unless the connection was lost. */
  predicate Committed(db: Db, op: Op, fault: Fault, schema: Schema) {
    Exec(db, op, if fault == CommitInDoubt then NoFault else fault, schema).answer == Ok
  }

  /** What a step adds to the history: nothing, unless it commits. */
  function ChangesOf(db: Db, op: Op, fault: Fault, schema: Schema): History {
    if !Committed(db, op, fault, schema) then []
    else match op
         case Add(user, properties, now) =>
           [Posted(db.nextPost, Creation(user.value, now, Property(properties, "description"), db.nextPhoto))]
         case Delete(post, user) => [Removed(post.value, user.value)]
         case Click(post, user) => [Clicked(Like(post.value, user.value))]
  }

  function HistoryOf(steps: Steps, schema: Schema): History {
    if steps == [] then []
    else
      var (op, fault) := steps[|steps| - 1];
      HistoryOf(steps[..|steps| - 1], schema) + ChangesOf(Run(steps[..|steps| - 1], schema), op, fault, schema)
  }

  /** The clicks of a user on a post since the post was created. */
  function Clicks(h: History, l: Like): nat {
    if h == [] then 0
    else
      var before := h[..|h| - 1];
      match h[|h| - 1]
      case Posted(p, _) => if p == l.post then 0 else Clicks(before, l)
      case Clicked(k) => Clicks(before, l) + if k == l then 1 else 0
      case Removed(_, _) => Clicks(before, l)
  }

  /** A post that was created and not removed since. */
  function CreatedIn(h: History, p: PostId): Option<Creation> {
    if h == [] then None
    else
      var before := h[..|h| - 1];
      match h[|h| - 1]
      case Posted(q, creation) => if q == p then Some(creation) else CreatedIn(before, p)
      case Clicked(_) => CreatedIn(before, p)
      case Removed(q, _) => if q == p then None else CreatedIn(before, p)
  }

  function CreationOf(post: Post): Creation {
    Creation(post.author, post.posted, post.description, post.photo)
  }

  /** The tables mean the history: a post is there, as it was created, if it was created and not removed since, and
      a like of it is there if its user has clicked an odd number of times since. */
  ghost predicate Means(t: Tables, h: History) {
    && (forall p :: CreatedIn(h, p) == if p in t.posts then Some(CreationOf(t.posts[p])) else None)
    && (forall l: Like :: l.post in t.posts ==> ((l in t.likes) <==> Clicks(h, l) % 2 == 1))
  }

  lemma ClicksGrow(h: History, c: Change, l: Like)
    ensures Clicks(h + [c], l) == match c
                                  case Posted(p, _) => if p == l.post then 0 else Clicks(h, l)
                                  case Clicked(k) => Clicks(h, l) + (if k == l then 1 else 0)
                                  case Removed(_, _) => Clicks(h, l)
  {
    assert (h + [c])[..|h|] == h;
  }

  lemma CreatedGrows(h: History, c: Change, p: PostId)
    ensures CreatedIn(h + [c], p) == match c
                                     case Posted(q, creation) => if q == p then Some(creation) else CreatedIn(h, p)
                                     case Clicked(_) => CreatedIn(h, p)
                                     case Removed(q, _) => if q == p then None else CreatedIn(h, p)
  {
    assert (h + [c])[..|h|] == h;
  }

  lemma AddMeans(db: Db, h: History, user: UserId, properties: map<string, string>, now: int)
    requires Sound(db) && Means(db.tables, h)
    ensures Means(AddOutcome(db, Some(user), properties, now, NoFault).db.tables,
                  h + [Posted(db.nextPost, Creation(user, now, Property(properties, "description"), db.nextPhoto))])
  {
    var c := Posted(db.nextPost, Creation(user, now, Property(properties, "description"), db.nextPhoto));
    forall p ensures CreatedIn(h + [c], p) == if p == db.nextPost then Some(c.creation) else CreatedIn(h, p) {
      CreatedGrows(h, c, p);
    }
    forall l: Like ensures Clicks(h + [c], l) == if l.post == db.nextPost then 0 else Clicks(h, l) {
      ClicksGrow(h, c, l);
    }
  }

  lemma DeleteMeans(db: Db, h: History, post: PostId, user: UserId)
    requires Means(db.tables, h) && Owns(db.tables, post, user)
    ensures Means(Without(db.tables, post), h + [Removed(post, user)])
  {
    var c := Removed(post, user);
    forall p ensures CreatedIn(h + [c], p) == if p == post then None else CreatedIn(h, p) {
      CreatedGrows(h, c, p);
    }
    forall l: Like ensures Clicks(h + [c], l) == Clicks(h, l)
                        && (l in Without(db.tables, post).likes <==> l in db.tables.likes && l.post != post) {
      ClicksGrow(h, c, l);
      DeletedRows(db.tables.likes, (l: Like) => l.post != post, l);
    }
  }

  lemma ToggleMeans(db: Db, h: History, row: Like)
    requires Means(db.tables, h)
    ensures Means(Toggled(db.tables, row), h + [Clicked(row)])
  {
    hide CreatedIn, Clicks;
    var c := Clicked(row);
    var t, t' := db.tables, Toggled(db.tables, row);
    forall p ensures CreatedIn(h + [c], p) == CreatedIn(h, p) {
      CreatedGrows(h, c, p);
    }
    forall l: Like ensures Clicks(h + [c], l) == Clicks(h, l) + (if l == row then 1 else 0)
                        && (l in t'.likes <==> ((l in t.likes) != (l == row))) {
      ClicksGrow(h, c, l);
      DeletedRows(t.likes, k => k != row, l);
    }
    assert forall p :: p in t'.posts <==> p in t.posts;
    assert forall p :: p in t.posts ==> t'.posts[p].author == t.posts[p].author;
  }

  lemma ExecMeans(db: Db, h: History, op: Op, fault: Fault)
    requires Sound(db) && Means(db.tables, h)
    ensures Means(Exec(db, op, fault, Schema(true)).db.tables, h + ChangesOf(db, op, fault, Schema(true)))
  {
    hide Sound, Means;
    OkIsCommitted(db, op, fault, Schema(true));
    if !Committed(db, op, fault, Schema(true)) {
      assert h + [] == h;
    } else {
      CommittedAnyway(db, op, fault, Schema(true));
      match op
      case Add(user, properties, now) => AddMeans(db, h, user.value, properties, now);
      case Delete(post, user) => DeleteMeans(db, h, post.value, user.value);
      case Click(post, user) => ToggleMeans(db, h, Like(post.value, user.value));
    }
  }

  /** A committed transaction leaves the same database, whatever its client hears. */
  lemma CommittedAnyway(db: Db, op: Op, fault: Fault, schema: Schema)
    requires Committed(db, op, fault, schema)
    ensures Exec(db, op, fault, schema).db == Exec(db, op, NoFault, schema).db && Exec(db, op, NoFault, schema).answer == Ok
  {
  }

  /** A transaction answered Ok has committed; one that has not leaves the committed tables as they were; and one that has
      is answered Ok unless its commit was in doubt. */
  lemma OkIsCommitted(db: Db, op: Op, fault: Fault, schema: Schema)
    ensures Exec(db, op, fault, schema).answer == Ok <==> Committed(db, op, fault, schema) && fault != CommitInDoubt
    ensures !Committed(db, op, fault, schema) ==> Exec(db, op, fault, schema).db.tables == db.tables
  {
  }

  /** In every run, with any transaction failing at any statement, the committed tables mean the committed history. */
  lemma {:induction false} RunsMeanTheirHistory(steps: Steps)
    ensures Means(Run(steps, Schema(true)).tables, HistoryOf(steps, Schema(true)))
  {
    if steps != [] {
      var before := steps[..|steps| - 1];
      RunsMeanTheirHistory(before);
      RunsAreSound(before);
      ExecMeans(Run(before, Schema(true)), HistoryOf(before, Schema(true)), steps[|steps| - 1].0, steps[|steps| - 1].1);
    }
  }

  // ----- the count as a number of users -----

  function Clickers(h: History): set<UserId> {
    if h == [] then {}
    else Clickers(h[..|h| - 1]) + match h[|h| - 1] case Clicked(l) => {l.user} case _ => {}
  }

  /** The users who have clicked an odd number of times on a post since it was created. */
  function Fans(h: History, p: PostId): set<UserId> {
    set u | u in Clickers(h) && Clicks(h, Like(p, u)) % 2 == 1
  }

  lemma {:induction false} ClickersClick(h: History, l: Like)
    requires Clicks(h, l) > 0
    ensures l.user in Clickers(h)
  {
    if h[|h| - 1] != Clicked(l) {
      ClickersClick(h[..|h| - 1], l);
    }
  }

  function UsersOf(likes: seq<Like>, p: PostId): set<UserId> {
    set l | l in likes && l.post == p :: l.user
  }

  lemma {:induction false} RowsAreUsers(likes: seq<Like>, p: PostId)
    requires NoDuplicates(likes)
    ensures RowsFor(likes, p) == |UsersOf(likes, p)|
  {
    if likes == [] {
      assert UsersOf(likes, p) == {};
    } else {
      var l, rest := likes[0], likes[1..];
      assert NoDuplicates(rest);
      RowsAreUsers(rest, p);
      assert likes == [l] + rest && l !in rest;
      if l.post == p {
        assert UsersOf(likes, p) == UsersOf(rest, p) + {l.user};
        assert l.user !in UsersOf(rest, p);
      } else {
        assert UsersOf(likes, p) == UsersOf(rest, p);
      }
    }
  }

  /** In every reachable state the stored count of a post is the number of its fans. */
  lemma CountIsNumberOfFans(steps: Steps, p: PostId)
    requires p in Run(steps, Schema(true)).tables.posts
    ensures Coalesce(Run(steps, Schema(true)).tables.posts[p].likeCount) == |Fans(HistoryOf(steps, Schema(true)), p)|
  {
    var t, h := Run(steps, Schema(true)).tables, HistoryOf(steps, Schema(true));
    RunsAreSound(steps);
    RunsMeanTheirHistory(steps);
    hide Run, HistoryOf, Clicks, Clickers;
    RowsAreUsers(t.likes, p);
    forall u ensures u in UsersOf(t.likes, p) <==> u in Fans(h, p) {
      assert u in UsersOf(t.likes, p) <==> Like(p, u) in t.likes;
      if Clicks(h, Like(p, u)) > 0 {
        ClickersClick(h, Like(p, u));
      }
    }
    assert UsersOf(t.likes, p) == Fans(h, p);
  }

  // ----- when a transaction commits -----

  /** A click commits exactly when both ids are numbers, the post is there if likes must refer to posts, and no statement
      fails, up to the commit, which is the fifth. */
  lemma ClickCommitsIff(db: Db, post: Option<PostId>, user: Option<UserId>, fault: Fault, schema: Schema)
    requires schema.likesReferencePosts ==> RowsRefer(db.tables)
    ensures Committed(db, Click(post, user), fault, schema)
            <==> post.Some? && user.Some? && (schema.likesReferencePosts ==> post.value in db.tables.posts)
                 && !(fault.FailsAt? && fault.statement <= 4)
  {
  }

  /** A deletion commits exactly when the user is the author of the post and no statement fails; to anyone else it answers
      400, unless a statement fails before that is known. */
  lemma DeleteCommitsIff(db: Db, post: Option<PostId>, user: Option<UserId>, fault: Fault, schema: Schema)
    ensures var owns := post.Some? && user.Some? && post.value in db.tables.posts && db.tables.posts[post.value].author == user.value;
            && (Committed(db, Delete(post, user), fault, schema) <==> owns && !(fault.FailsAt? && fault.statement <= 4))
            && (Exec(db, Delete(post, user), fault, schema).answer == Error400
                <==> post.Some? && user.Some? && !owns && !(fault.FailsAt? && fault.statement <= 1))
  {
  }

  /** A post is added exactly when the user's id is a number and no statement fails. */
  lemma AddCommitsIff(db: Db, user: Option<UserId>, properties: map<string, string>, now: int, fault: Fault, schema: Schema)
    ensures Committed(db, Add(user, properties, now), fault, schema)
            <==> user.Some? && !(fault.FailsAt? && fault.statement <= 3)
  {
  }

  /** An id is drawn by the insert that needs it, and not given back when the transaction fails later. */
  lemma AddDrawsIds(db: Db, user: Option<UserId>, properties: map<string, string>, now: int, fault: Fault, schema: Schema)
    ensures var db' := Exec(db, Add(user, properties, now), fault, schema).db;
            var photo := !(fault.FailsAt? && fault.statement <= 1);
            var post := !(fault.FailsAt? && fault.statement <= 2) && user.Some?;
            db'.nextPhoto == db.nextPhoto + (if photo then 1 else 0) && db'.nextPost == db.nextPost + (if post then 1 else 0)
  {
  }

  /** In every run: a click commits exactly when its post was created and not removed since, a deletion exactly when that
      is so and its user is the author, an addition always; unless a statement fails. */
  lemma CommitsIff(steps: Steps, op: Op, fault: Fault)
    ensures var h := HistoryOf(steps, Schema(true));
            Committed(Run(steps, Schema(true)), op, fault, Schema(true))
            <==> && op.user.Some?
                 && match op
                    case Add(_, _, _) => !(fault.FailsAt? && fault.statement <= 3)
                    case Delete(post, user) =>
                      && post.Some? && CreatedIn(h, post.value).Some? && CreatedIn(h, post.value).value.author == user.value
                      && !(fault.FailsAt? && fault.statement <= 4)
                    case Click(post, _) =>
                      post.Some? && CreatedIn(h, post.value).Some? && !(fault.FailsAt? && fault.statement <= 4)
  {
    hide Run, HistoryOf, CreatedIn, Committed;
    var db := Run(steps, Schema(true));
    RunsAreSound(steps);
    RunsMeanTheirHistory(steps);
    match op
    case Add(user, properties, now) => AddCommitsIff(db, user, properties, now, fault, Schema(true));
    case Delete(post, user) => DeleteCommitsIff(db, post, user, fault, Schema(true));
    case Click(post, user) => ClickCommitsIff(db, post, user, fault, Schema(true));
  }

  /** An author's deletion that nothing disturbs takes away that post with its likes, and nothing else; anyone else's is
      answered 400 and changes nothing. */
  lemma DeleteRemoves(db: Db, post: PostId, user: UserId, schema: Schema)
    ensures var out := Exec(db, Delete(Some(post), Some(user)), NoFault, schema);
            var t, t' := db.tables, out.db.tables;
            if post in t.posts && t.posts[post].author == user
            then && out.answer == Ok && t'.posts == t.posts - {post} && t'.photos == t.photos
                 && forall l :: l in t'.likes <==> l in t.likes && l.post != post
            else out.answer == Error400 && t' == t
  {
    forall l ensures l in DeleteLikes(db.tables.likes, (k: Like) => k.post != post) <==> l in db.tables.likes && l.post != post {
      DeletedRows(db.tables.likes, (k: Like) => k.post != post, l);
    }
  }

  /** The posts are the same but for the counts, which differ by `delta` at the post. */
  ghost predicate SameButCount(t: Tables, t': Tables, post: PostId, delta: int) {
    && t'.posts.Keys == t.posts.Keys && t'.photos == t.photos
    && forall p :: p in t.posts ==>
         && CreationOf(t'.posts[p]) == CreationOf(t.posts[p])
         && Coalesce(t'.posts[p].likeCount) == Coalesce(t.posts[p].likeCount) + if p == post then delta else 0
  }

  /** A click that nothing disturbs adds the row that is not there, and takes away the one that is; the count follows. */
  lemma ClickToggles(db: Db, post: PostId, user: UserId, schema: Schema)
    requires Sound(db) && post in db.tables.posts
    ensures var out := Exec(db, Click(Some(post), Some(user)), NoFault, schema);
            var row := Like(post, user);
            && out.answer == Ok && out.db.nextPost == db.nextPost && out.db.nextPhoto == db.nextPhoto
            && (forall l :: l in out.db.tables.likes <==> ((l in db.tables.likes) != (l == row)))
            && SameButCount(db.tables, out.db.tables, post, if row in db.tables.likes then -1 else 1)
  {
    var row := Like(post, user);
    forall l ensures l in DeleteLikes(db.tables.likes, k => k != row) <==> l in db.tables.likes && l != row {
      DeletedRows(db.tables.likes, k => k != row, l);
    }
    if row in db.tables.likes {
      RowIsCounted(db.tables.likes, row);
    }
  }

  /** Two clicks of one user in a row, undisturbed, restore the likes and the counts. */
  lemma TwoClicksRestore(steps: Steps, post: PostId, user: UserId)
    requires post in Run(steps, Schema(true)).tables.posts
    ensures var click := (Click(Some(post), Some(user)), NoFault);
            var t, t' := Run(steps, Schema(true)).tables, Run(steps + [click] + [click], Schema(true)).tables;
            && (forall l :: l in t'.likes <==> l in t.likes) && |t'.likes| == |t.likes|
            && SameButCount(t, t', post, 0)
  {
    hide Run, Exec, Sound;
    var op, schema := Click(Some(post), Some(user)), Schema(true);
    var db := Run(steps, schema);
    RunsAreSound(steps);
    RunOne(steps, op, NoFault, schema);
    ClickToggles(db, post, user, schema);
    var once := Run(steps + [(op, NoFault)], schema);
    RunsAreSound(steps + [(op, NoFault)]);
    RunOne(steps + [(op, NoFault)], op, NoFault, schema);
    ClickToggles(once, post, user, schema);
    RunsAreSound(steps + [(op, NoFault)] + [(op, NoFault)]);
    SameRows(db, Run(steps + [(op, NoFault)] + [(op, NoFault)], schema));
  }

  lemma {:induction false} RowsAreElements(likes: seq<Like>)
    requires NoDuplicates(likes)
    ensures |likes| == |set l | l in likes|
  {
    if likes == [] {
      assert (set l | l in likes) == {};
    } else {
      var l, rest := likes[0], likes[1..];
      assert NoDuplicates(rest);
      RowsAreElements(rest);
      assert likes == [l] + rest && l !in rest;
      assert (set k | k in likes) == (set k | k in rest) + {l};
    }
  }

  lemma SameRows(db: Db, db': Db)
    requires Sound(db) && Sound(db') && forall l :: l in db'.tables.likes <==> l in db.tables.likes
    ensures |db'.tables.likes| == |db.tables.likes|
  {
    RowsAreElements(db.tables.likes);
    RowsAreElements(db'.tables.likes);
    assert (set l | l in db'.tables.likes) == (set l | l in db.tables.likes);
  }

  // ----- posts -----

  /** A post that is there after a transaction, and had its id before, says what it said. */
  lemma PostsStay(db: Db, op: Op, fault: Fault, schema: Schema, p: PostId)
    requires IdsAreFresh(db) && p < db.nextPost
    ensures var db' := Exec(db, op, fault, schema).db;
            && p < db'.nextPost
            && (p in db'.tables.posts ==> p in db.tables.posts && CreationOf(db'.tables.posts[p]) == CreationOf(db.tables.posts[p]))
  {
  }

  /** No post that is still there ever says anything else, and no id is used again. */
  lemma {:induction false} PostsStayInRuns(steps: Steps, more: Steps, p: PostId)
    requires p < Run(steps, Schema(true)).nextPost
    ensures var db, db' := Run(steps, Schema(true)), Run(steps + more, Schema(true));
            && p < db'.nextPost
            && (p in db'.tables.posts ==> p in db.tables.posts && CreationOf(db'.tables.posts[p]) == CreationOf(db.tables.posts[p]))
    decreases |more|
  {
    hide Run, Exec, CreationOf;
    if more == [] {
      assert steps + more == steps;
    } else {
      var shorter, last := more[..|more| - 1], more[|more| - 1];
      PostsStayInRuns(steps, shorter, p);
      RunsAreSound(steps + shorter);
      assert steps + more == steps + shorter + [(last.0, last.1)];
      RunOne(steps + shorter, last.0, last.1, Schema(true));
      PostsStay(Run(steps + shorter, Schema(true)), last.0, last.1, Schema(true), p);
    }
  }

  // ----- photos -----

  /** No transaction changes or removes a photo that is there. */
  lemma PhotosStay(db: Db, op: Op, fault: Fault, schema: Schema, photo: PhotoId)
    requires IdsAreFresh(db) && photo in db.tables.photos
    ensures photo in Exec(db, op, fault, schema).db.tables.photos
    ensures Exec(db, op, fault, schema).db.tables.photos[photo] == db.tables.photos[photo]
  {
  }

  /** Once committed, a photo is there for good, even when its post is deleted. */
  lemma {:induction false} PhotosStayInRuns(steps: Steps, more: Steps, photo: PhotoId)
    requires photo in Run(steps, Schema(true)).tables.photos
    ensures photo in Run(steps + more, Schema(true)).tables.photos
    ensures Run(steps + more, Schema(true)).tables.photos[photo] == Run(steps, Schema(true)).tables.photos[photo]
    decreases |more|
  {
    hide Run, Exec;
    if more == [] {
      assert steps + more == steps;
    } else {
      var shorter, last := more[..|more| - 1], more[|more| - 1];
      PhotosStayInRuns(steps, shorter, photo);
      RunsAreSound(steps + shorter);
      assert steps + more == steps + shorter + [(last.0, last.1)];
      RunOne(steps + shorter, last.0, last.1, Schema(true));
      PhotosStay(Run(steps + shorter, Schema(true)), last.0, last.1, Schema(true), photo);
    }
  }

  // ----- ownership -----

  /** A post disappears only when its own author deletes it, together with all its likes and nobody else's. */
  lemma OnlyAuthorsDelete(db: Db, op: Op, fault: Fault, schema: Schema, p: PostId)
    requires p in db.tables.posts && p !in Exec(db, op, fault, schema).db.tables.posts
    ensures op.Delete? && op.post == Some(p) && op.user == Some(db.tables.posts[p].author)
    ensures var t, t' := db.tables, Exec(db, op, fault, schema).db.tables;
            && t'.posts == t.posts - {p} && t'.photos == t.photos
            && (forall l :: l in t'.likes <==> l in t.likes && l.post != p)
            && (forall q :: q != p ==> RowsFor(t'.likes, q) == RowsFor(t.likes, q))
  {
    var t := db.tables;
    forall l ensures l in DeleteLikes(t.likes, (l: Like) => l.post != p) <==> l in t.likes && l.post != p {
      DeletedRows(t.likes, (l: Like) => l.post != p, l);
    }
    forall q ensures q != p ==> RowsFor(DeleteLikes(t.likes, (l: Like) => l.post != p), q) == RowsFor(t.likes, q) {
      RowsWithoutPost(t.likes, p, q);
    }
  }
}
