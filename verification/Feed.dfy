/** The feed of a user, page by page (`getPostsList` of content_server_src/DBclient/DBclient.cpp). */
module Feed {
  import opened Text
  import opened DBclient
  import Store

  /** The `users` and `friends` tables, which belong to the auth server. */
  datatype User = User(nickname: string, profilePicture: Option<PhotoId>)
  datatype World = World(users: map<UserId, User>, friends: set<(UserId, UserId)>)

  datatype Row = Row(post: PostId, nickname: string, posted: int, description: string, likeCount: Option<int>, photo: PhotoId,
                     profilePicture: Option<PhotoId>, isLiked: bool)

  /** A request for a page: of the viewer's own and friends' posts, or of the posts of one author. */
  datatype Listing = Listing(viewer: UserId, author: Option<UserId>, limit: nat, offset: nat)

  /** The JOIN with `users`. */
  predicate Joined(t: Tables, w: World, p: PostId) {
    p in t.posts && t.posts[p].author in w.users
  }

  /** The WHERE clause of the feed. */
  predicate Visible(t: Tables, w: World, viewer: UserId, p: PostId) {
    Joined(t, w, p) && ((viewer, t.posts[p].author) in w.friends || t.posts[p].author == viewer)
  }

  /** The posts that the query selects. */
  function Selected(t: Tables, w: World, viewer: UserId, author: Option<UserId>): (posts: set<PostId>)
    ensures forall p :: p in posts ==> Joined(t, w, p)
  {
    match author
    case None => set p | p in t.posts && Visible(t, w, viewer, p)
    case Some(a) => set p | p in t.posts && Joined(t, w, p) && t.posts[p].author == a
  }

  function RowOf(t: Tables, w: World, viewer: UserId, p: PostId): Row
    requires Joined(t, w, p)
  {
    var post, user := t.posts[p], w.users[t.posts[p].author];
    Row(p, user.nickname, post.posted, post.description, post.likeCount, post.photo, user.profilePicture, Like(p, viewer) in t.likes)
  }

  /** ORDER BY date_posted DESC: any order that sorts the rows, since SQL does not say how ties are broken. */
  ghost predicate Ordered(t: Tables, posts: set<PostId>, order: seq<PostId>) {
    && posts <= t.posts.Keys
    && (forall p :: p in order <==> p in posts)
    && (forall i, j :: 0 <= i < j < |order| ==> order[i] != order[j])
    && (forall i, j :: 0 <= i < j < |order| ==> Later(t, order[i], order[j]))
  }

  predicate Later(t: Tables, p: PostId, q: PostId) {
    p in t.posts && q in t.posts && t.posts[p].posted >= t.posts[q].posted
  }

  /** LIMIT and OFFSET. */
  function Page<T>(order: seq<T>, limit: nat, offset: nat): seq<T> {
    if offset >= |order| then []
    else if offset + limit >= |order| then order[offset..]
    else order[offset..offset + limit]
  }

  lemma PageOfOrder<T>(order: seq<T>, limit: nat, offset: nat)
    ensures forall i :: 0 <= i < |Page(order, limit, offset)| ==> Page(order, limit, offset)[i] in order
  {
  }

  /** The rows of a page, for the order that the database happens to choose. */
  function RowsOf(t: Tables, w: World, l: Listing, order: seq<PostId>): (rows: seq<Row>)
    requires Ordered(t, Selected(t, w, l.viewer, l.author), order)
    ensures |rows| == |Page(order, l.limit, l.offset)|
  {
    var page := Page(order, l.limit, l.offset);
    PageOfOrder(order, l.limit, l.offset);
    assert forall i :: 0 <= i < |page| ==> page[i] in Selected(t, w, l.viewer, l.author);
    seq(|page|, i requires 0 <= i < |page| => RowOf(t, w, l.viewer, page[i]))
  }

  /** An empty page is returned before the commit. */
  function ListOutcome(t: Tables, w: World, l: Listing, order: seq<PostId>, fault: Fault): (Answer, seq<Row>)
    requires Ordered(t, Selected(t, w, l.viewer, l.author), order)
  {
    if FailsBy(fault, 1) || ((fault == FailsAt(2) || fault == CommitInDoubt) && Page(order, l.limit, l.offset) != [])
    then (Error500, [])
    else (Ok, RowsOf(t, w, l, order))
  }

  /** The query of either list, pushing one row after the other. */
  method GetPostsList(t: Tables, w: World, l: Listing, order: seq<PostId>, fault: Fault) returns (answer: Answer, rows: seq<Row>)
    requires Ordered(t, Selected(t, w, l.viewer, l.author), order)
    ensures (answer, rows) == ListOutcome(t, w, l, order, fault)
  {
    rows := [];
    if fault == FailsAt(0) || fault == FailsAt(1) {
      return Error500, rows;
    }
    var result := Page(order, l.limit, l.offset);
    PageOfOrder(order, l.limit, l.offset);
    if result == [] {
      assert rows == RowsOf(t, w, l, order);
      return Ok, rows;
    }
    if fault == FailsAt(2) || fault == CommitInDoubt {
      return Error500, rows;
    }
    for n := 0 to |result|
      invariant rows == RowsOf(t, w, l, order)[..n]
    {
      assert result[n] in Selected(t, w, l.viewer, l.author);
      rows := rows + [RowOf(t, w, l.viewer, result[n])];
    }
    assert rows == RowsOf(t, w, l, order);
    return Ok, rows;
  }

  // ----- what the history says -----

  /** Whose posts a list shows: the viewer's own and those of the users the viewer has as friends, or those of the one
      author; as far as the post was created and not removed since, and its author is known. */
  ghost predicate ShownTo(h: Store.History, w: World, viewer: UserId, author: Option<UserId>, p: PostId) {
    match Store.CreatedIn(h, p)
    case None => false
    case Some(c) =>
      && c.author in w.users
      && match author
         case None => c.author == viewer || (viewer, c.author) in w.friends
         case Some(a) => c.author == a
  }

  /** The query selects just these posts. */
  lemma SelectedByHistory(steps: Store.Steps, w: World, viewer: UserId, author: Option<UserId>, p: PostId)
    ensures p in Selected(Store.Run(steps, Schema(true)).tables, w, viewer, author)
            <==> ShownTo(Store.HistoryOf(steps, Schema(true)), w, viewer, author, p)
  {
    hide Store.Run, Store.HistoryOf, Store.Clicks, Store.CreatedIn;
    Store.RunsMeanTheirHistory(steps);
  }

  /** The row shows the history: the post says what it said when it was created, under the name and picture of its author;
      `is_liked` is whether the viewer has clicked an odd number of times since, and the count is the number of users
      who have. */
  ghost predicate ShowsHistory(row: Row, h: Store.History, w: World, viewer: UserId) {
    && (row.isLiked <==> Store.Clicks(h, Like(row.post, viewer)) % 2 == 1)
    && Coalesce(row.likeCount) == |Store.Fans(h, row.post)|
    && match Store.CreatedIn(h, row.post)
       case None => false
       case Some(c) =>
         && row.posted == c.posted && row.description == c.description && row.photo == c.photo
         && c.author in w.users && w.users[c.author] == User(row.nickname, row.profilePicture)
  }

  lemma RowShowsHistory(steps: Store.Steps, w: World, viewer: UserId, p: PostId)
    requires Joined(Store.Run(steps, Schema(true)).tables, w, p)
    ensures ShowsHistory(RowOf(Store.Run(steps, Schema(true)).tables, w, viewer, p), Store.HistoryOf(steps, Schema(true)), w, viewer)
  {
    hide Store.Run, Store.HistoryOf, Store.Clicks, Store.CreatedIn, Store.Fans;
    Store.RunsMeanTheirHistory(steps);
    Store.CountIsNumberOfFans(steps, p);
  }

  /** The number of rows that a page has. */
  function Least(a: int, b: int): int {
    if a <= b then a else b
  }

  /** The rows are those of the posts from `offset` on, up to `limit` of them, in this order. */
  ghost predicate IsPage(rows: seq<Row>, l: Listing, order: seq<PostId>) {
    && |rows| == (if l.offset >= |order| then 0 else Least(l.limit, |order| - l.offset))
    && forall i :: 0 <= i < |rows| ==> rows[i].post == order[l.offset + i]
  }

  /** In this order every post that the list shows stands once, and no other, the latest first. */
  ghost predicate ListsHistory(posts: seq<PostId>, h: Store.History, w: World, viewer: UserId, author: Option<UserId>) {
    && (forall p :: p in posts <==> ShownTo(h, w, viewer, author, p))
    && (forall i, j :: 0 <= i < j < |posts| ==> posts[i] != posts[j])
    && forall i, j :: 0 <= i < j < |posts| ==>
         match (Store.CreatedIn(h, posts[i]), Store.CreatedIn(h, posts[j]))
         case (Some(c), Some(d)) => c.posted >= d.posted
         case _ => false
  }

  /** In every reachable state the order that the query allows is that of the history. */
  lemma OrderListsHistory(steps: Store.Steps, w: World, viewer: UserId, author: Option<UserId>, order: seq<PostId>)
    requires Ordered(Store.Run(steps, Schema(true)).tables, Selected(Store.Run(steps, Schema(true)).tables, w, viewer, author), order)
    ensures ListsHistory(order, Store.HistoryOf(steps, Schema(true)), w, viewer, author)
  {
    hide Store.Run, Store.HistoryOf, Store.Clicks, Store.CreatedIn, Selected, ShownTo;
    var t, h := Store.Run(steps, Schema(true)).tables, Store.HistoryOf(steps, Schema(true));
    Store.RunsMeanTheirHistory(steps);
    forall p ensures p in order <==> ShownTo(h, w, viewer, author, p) {
      SelectedByHistory(steps, w, viewer, author, p);
    }
    forall i, j | 0 <= i < j < |order|
      ensures t.posts[order[i]].posted >= t.posts[order[j]].posted
      ensures order[i] in t.posts && order[j] in t.posts
    {
      assert Later(t, order[i], order[j]);
    }
  }

  /** In every reachable state the rows of a list are the page asked for, of the posts that the history shows to the viewer,
      and each row shows the history. */
  lemma RowsShowHistory(steps: Store.Steps, w: World, l: Listing, order: seq<PostId>)
    requires Ordered(Store.Run(steps, Schema(true)).tables, Selected(Store.Run(steps, Schema(true)).tables, w, l.viewer, l.author), order)
    ensures var rows, h := RowsOf(Store.Run(steps, Schema(true)).tables, w, l, order), Store.HistoryOf(steps, Schema(true));
            && ListsHistory(order, h, w, l.viewer, l.author)
            && IsPage(rows, l, order)
            && forall i :: 0 <= i < |rows| ==> ShowsHistory(rows[i], h, w, l.viewer)
  {
    hide Store.Run, Store.HistoryOf, ShowsHistory, Selected, ListsHistory;
    var t, h, page := Store.Run(steps, Schema(true)).tables, Store.HistoryOf(steps, Schema(true)), Page(order, l.limit, l.offset);
    OrderListsHistory(steps, w, l.viewer, l.author, order);
    forall i | 0 <= i < |page| ensures ShowsHistory(RowsOf(t, w, l, order)[i], h, w, l.viewer) {
      PageOfOrder(order, l.limit, l.offset);
      assert page[i] in Selected(t, w, l.viewer, l.author);
      RowShowsHistory(steps, w, l.viewer, page[i]);
    }
  }

  // ----- pages put together -----

  /** The pages at `offset`, `offset` + L, `offset` + 2L, ..., each from the order chosen for its own query. */
  function Pages(orders: seq<seq<PostId>>, limit: nat, offset: nat): seq<PostId> {
    if orders == [] then []
    else Page(orders[0], limit, offset) + Pages(orders[1..], limit, offset + limit)
  }

  ghost predicate DistinctDates(t: Tables, posts: set<PostId>) {
    forall p, q :: p in posts && q in posts && p in t.posts && q in t.posts && p != q ==> t.posts[p].posted != t.posts[q].posted
  }

  lemma TailIsOrdered(t: Tables, posts: set<PostId>, order: seq<PostId>)
    requires Ordered(t, posts, order) && order != []
    ensures Ordered(t, posts - {order[0]}, order[1..])
  {
    var rest := order[1..];
    assert order == [order[0]] + rest;
    assert forall i :: 0 <= i < |rest| ==> rest[i] == order[i + 1];
  }

  /** With distinct dates only one order is sorted. */
  lemma {:induction false} OrderIsUnique(t: Tables, posts: set<PostId>, f: seq<PostId>, g: seq<PostId>)
    requires Ordered(t, posts, f) && Ordered(t, posts, g) && DistinctDates(t, posts)
    ensures f == g
    decreases |f|
  {
    assert f != [] ==> f[0] in posts;
    assert g != [] ==> g[0] in posts;
    if f != [] && g != [] {
      FirstIsLatest(t, posts, f, g);
      TailIsOrdered(t, posts, f);
      TailIsOrdered(t, posts, g);
      OrderIsUnique(t, posts - {f[0]}, f[1..], g[1..]);
      assert f == [f[0]] + f[1..] && g == [g[0]] + g[1..];
    }
  }

  lemma FirstIsLatest(t: Tables, posts: set<PostId>, f: seq<PostId>, g: seq<PostId>)
    requires Ordered(t, posts, f) && Ordered(t, posts, g) && DistinctDates(t, posts) && f != [] && g != []
    ensures f[0] == g[0]
  {
    assert f[0] in posts && g[0] in posts;
    var i :| 0 <= i < |g| && g[i] == f[0];
    var j :| 0 <= j < |f| && f[j] == g[0];
  }

  /** Pages of one order, one after the other, are one long page. */
  lemma {:induction false} PagesAreOne(orders: seq<seq<PostId>>, order: seq<PostId>, limit: nat, offset: nat)
    requires forall i :: 0 <= i < |orders| ==> orders[i] == order
    ensures Pages(orders, limit, offset) == Page(order, limit * |orders|, offset)
  {
    hide Page;
    if orders == [] {
      NoPage(order, offset);
    } else {
      var rest := orders[1..];
      PagesAreOne(rest, order, limit, offset + limit);
      OneMore(limit, |rest|);
      PageThenPage(order, limit, limit * |rest|, offset);
    }
  }

  lemma OneMore(limit: nat, n: nat)
    ensures limit * (n + 1) == limit + limit * n
  {
  }

  lemma NoPage(order: seq<PostId>, offset: nat)
    ensures Page(order, 0, offset) == []
  {
  }

  lemma PageThenPage(order: seq<PostId>, m: nat, n: nat, offset: nat)
    ensures Page(order, m, offset) + Page(order, n, offset + m) == Page(order, m + n, offset)
  {
  }

  /** On unchanged tables with distinct dates, the pages put together are the feed, or the author's posts: every post
      that is selected exactly once, latest first, and no other, however each query breaks ties. */
  lemma FeedPagination(t: Tables, w: World, viewer: UserId, author: Option<UserId>, limit: nat, orders: seq<seq<PostId>>)
    requires DistinctDates(t, Selected(t, w, viewer, author)) && limit > 0 && orders != []
    requires forall i :: 0 <= i < |orders| ==> Ordered(t, Selected(t, w, viewer, author), orders[i])
    requires limit * |orders| >= |orders[0]|
    ensures Ordered(t, Selected(t, w, viewer, author), Pages(orders, limit, 0))
  {
    var posts := Selected(t, w, viewer, author);
    hide Selected;
    forall i | 0 <= i < |orders| ensures orders[i] == orders[0] {
      OrderIsUnique(t, posts, orders[i], orders[0]);
    }
    PagesAreOne(orders, orders[0], limit, 0);
    assert Page(orders[0], limit * |orders|, 0) == orders[0];
  }

  /** So it is with the history of any run: the pages put together show every post that the list shows once, the latest
      first, and no other. */
  lemma FeedOfHistory(steps: Store.Steps, w: World, viewer: UserId, author: Option<UserId>, limit: nat, orders: seq<seq<PostId>>)
    requires var t := Store.Run(steps, Schema(true)).tables;
             && DistinctDates(t, Selected(t, w, viewer, author)) && limit > 0 && orders != []
             && (forall i :: 0 <= i < |orders| ==> Ordered(t, Selected(t, w, viewer, author), orders[i]))
             && limit * |orders| >= |orders[0]|
    ensures ListsHistory(Pages(orders, limit, 0), Store.HistoryOf(steps, Schema(true)), w, viewer, author)
  {
    hide Store.Run, Store.HistoryOf, Selected, ListsHistory, Ordered;
    FeedPagination(Store.Run(steps, Schema(true)).tables, w, viewer, author, limit, orders);
    OrderListsHistory(steps, w, viewer, author, Pages(orders, limit, 0));
  }

  // ----- ties -----

  lemma {:induction false} InsertIsOrdered(t: Tables, posts: set<PostId>, order: seq<PostId>, p: PostId) returns (longer: seq<PostId>)
    requires Ordered(t, posts, order) && p in t.posts && p !in posts
    ensures Ordered(t, posts + {p}, longer)
    decreases |order|
  {
    if order == [] || t.posts[p].posted >= t.posts[order[0]].posted {
      longer := [p] + order;
    } else {
      var first := order[0];
      assert first in posts;
      TailIsOrdered(t, posts, order);
      var rest := InsertIsOrdered(t, posts - {first}, order[1..], p);
      longer := [first] + rest;
      FirstBounds(t, posts, order);
      assert posts - {first} + {p} + {first} == posts + {p};
    }
  }

  lemma FirstBounds(t: Tables, posts: set<PostId>, order: seq<PostId>)
    requires Ordered(t, posts, order) && order != []
    ensures forall q :: q in posts ==> q in t.posts && t.posts[q].posted <= t.posts[order[0]].posted
  {
  }

  lemma {:induction false} SomeOrder(t: Tables, posts: set<PostId>) returns (order: seq<PostId>)
    requires posts <= t.posts.Keys
    ensures Ordered(t, posts, order)
    decreases posts
  {
    if posts == {} {
      order := [];
    } else {
      var p :| p in posts;
      var rest := SomeOrder(t, posts - {p});
      order := InsertIsOrdered(t, posts - {p}, rest, p);
      assert posts - {p} + {p} == posts;
    }
  }

  /** Swapping neighbours of the same date gives another order the database may choose. */
  lemma SwapTie(t: Tables, posts: set<PostId>, f: seq<PostId>, i: nat) returns (g: seq<PostId>)
    requires Ordered(t, posts, f) && i + 1 < |f|
    requires f[i] in t.posts && f[i + 1] in t.posts && t.posts[f[i]].posted == t.posts[f[i + 1]].posted
    ensures Ordered(t, posts, g) && |g| == |f| && g[i] == f[i + 1] && g[i + 1] == f[i]
  {
    g := f[i := f[i + 1]][i + 1 := f[i]];
    forall p ensures p in g <==> p in f {
      if p in f {
        var k :| 0 <= k < |f| && f[k] == p;
        assert g[if k == i then i + 1 else if k == i + 1 then i else k] == p;
      }
    }
  }

  /** The page of a query is determined by the tables. */
  ghost predicate PagesAgree(t: Tables, posts: set<PostId>) {
    forall f: seq<PostId>, g: seq<PostId>, limit: nat, offset: nat ::
      Ordered(t, posts, f) && Ordered(t, posts, g) ==> Page(f, limit, offset) == Page(g, limit, offset)
  }

  /** That is so exactly when no two of the selected posts share a date. With a tie, two queries may order it
      differently, and one page then shows again the post another has shown. */
  lemma PagesAgreeIffDistinctDates(t: Tables, w: World, viewer: UserId, author: Option<UserId>)
    ensures PagesAgree(t, Selected(t, w, viewer, author)) <==> DistinctDates(t, Selected(t, w, viewer, author))
  {
    var posts := Selected(t, w, viewer, author);
    hide Selected;
    if DistinctDates(t, posts) {
      forall f: seq<PostId>, g: seq<PostId> | Ordered(t, posts, f) && Ordered(t, posts, g) ensures f == g {
        OrderIsUnique(t, posts, f, g);
      }
    } else {
      var p, q :| p in posts && q in posts && p in t.posts && q in t.posts && p != q && t.posts[p].posted == t.posts[q].posted;
      var f, g, i := TiedOrders(t, posts, p, q);
      hide Ordered;
      var one, two := Page(f, 1, i), Page(g, 1, i);
      assert one[0] == f[i] && two[0] == g[i];
    }
  }

  lemma TiedOrders(t: Tables, posts: set<PostId>, p: PostId, q: PostId) returns (f: seq<PostId>, g: seq<PostId>, i: nat)
    requires posts <= t.posts.Keys && p in posts && q in posts && p != q && t.posts[p].posted == t.posts[q].posted
    ensures Ordered(t, posts, f) && Ordered(t, posts, g) && i + 1 < |f| == |g| && f[i] != g[i] && f[i] == g[i + 1]
  {
    f := SomeOrder(t, posts);
    var a :| 0 <= a < |f| && f[a] == p;
    var b :| 0 <= b < |f| && f[b] == q;
    i := if a < b then a else b;
    var j := if a < b then b else a;
    assert i < i + 1 <= j;
    assert t.posts[f[i]].posted == t.posts[f[j]].posted;
    g := SwapTie(t, posts, f, i);
  }
}
