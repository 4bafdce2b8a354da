/** The transactions of the content server over `posts`, `likes` and `post_photos`
    (content_server_src/DBclient/DBclient.cpp).  A transaction works on its own copy of the tables, which a
    commit installs and a failing statement drops. */
module DBclient {
  import opened Text

  type PostId = nat
  type UserId = nat
  type PhotoId = nat

  datatype Post = Post(author: UserId, posted: int, description: string, likeCount: Option<int>, photo: PhotoId)
  datatype Photo = Photo(kind: string, bytes: string)
  datatype Like = Like(post: PostId, user: UserId)

  /** `likes` is a list of rows: nothing in the table itself rules out a row standing twice. */
  datatype Tables = Tables(posts: map<PostId, Post>, likes: seq<Like>, photos: map<PhotoId, Photo>)

  /** The committed tables, and the sequences that hand out ids.  A rollback does not give an id back. */
  datatype Db = Db(tables: Tables, nextPost: PostId, nextPhoto: PhotoId)

  const EMPTY := Db(Tables(map[], [], map[]), 0, 0)

  /** The schema is not part of the repository; what matters of it is whether `likes.post_id`
      is a foreign key into `posts`. */
  datatype Schema = Schema(likesReferencePosts: bool)

  datatype Answer = Ok | Error400 | Error500
  datatype Outcome = Outcome(db: Db, answer: Answer)

  /** The statement at which the database fails, counting preparation as 0 and ending with the commit; or a connection
      lost after the database has committed and before its client has heard so. */
  datatype Fault = NoFault | FailsAt(statement: nat) | CommitInDoubt

  predicate FailsBy(fault: Fault, last: nat) {
    fault.FailsAt? && fault.statement <= last
  }

  /** What the client makes of a commit. */
  function CommitAnswer(fault: Fault): Answer {
    if fault == CommitInDoubt then Error500 else Ok
  }

  /** `COALESCE(like_count, 0)`. */
  function Coalesce(c: Option<int>): int {
    c.GetOr(0)
  }

  // ----- what the statements do to the tables -----

  function DeleteLikes(likes: seq<Like>, keep: Like -> bool): (r: seq<Like>)
  {
    if likes == [] then []
    else if keep(likes[0]) then [likes[0]] + DeleteLikes(likes[1..], keep)
    else DeleteLikes(likes[1..], keep)
  }

  function Increment(posts: map<PostId, Post>, post: PostId): map<PostId, Post> {
    if post in posts then posts[post := posts[post].(likeCount := Some(Coalesce(posts[post].likeCount) + 1))] else posts
  }

  /** NULL - 1 is NULL. */
  function Decrement(posts: map<PostId, Post>, post: PostId): map<PostId, Post> {
    if post in posts
    then posts[post := posts[post].(likeCount := match posts[post].likeCount case None => None case Some(c) => Some(c - 1))]
    else posts
  }

  // ----- what the transactions do as a whole -----

  /** The row is there exactly if it was not, and the count of its post follows. */
  function Toggled(t: Tables, row: Like): Tables {
    if row in t.likes
    then t.(likes := DeleteLikes(t.likes, l => l != row), posts := Decrement(t.posts, row.post))
    else t.(likes := t.likes + [row], posts := Increment(t.posts, row.post))
  }

  function Without(t: Tables, post: PostId): Tables {
    t.(posts := t.posts - {post}, likes := DeleteLikes(t.likes, (l: Like) => l.post != post))
  }

  function LikeOutcome(db: Db, post: Option<PostId>, user: Option<UserId>, fault: Fault, schema: Schema): Outcome {
    if FailsBy(fault, 4) || post.None? || user.None? then Outcome(db, Error500)
    else
      var row := Like(post.value, user.value);
      if schema.likesReferencePosts && row !in db.tables.likes && post.value !in db.tables.posts then Outcome(db, Error500)
      else Outcome(db.(tables := Toggled(db.tables, row)), CommitAnswer(fault))
  }

  predicate Owns(t: Tables, post: PostId, user: UserId) {
    post in t.posts && t.posts[post].author == user
  }

  function DeleteOutcome(db: Db, post: Option<PostId>, user: Option<UserId>, fault: Fault): Outcome {
    if FailsBy(fault, 1) || post.None? || user.None? then Outcome(db, Error500)
    else if !Owns(db.tables, post.value, user.value) then Outcome(db, Error400)
    else if FailsBy(fault, 4) then Outcome(db, Error500)
    else Outcome(db.(tables := Without(db.tables, post.value)), CommitAnswer(fault))
  }

  function Property(properties: map<string, string>, key: string): string {
    if key in properties then properties[key] else ""
  }

  /** The photo's id is taken from its sequence by the first insert, committed or not; likewise the post's. */
  function AddOutcome(db: Db, user: Option<UserId>, properties: map<string, string>, now: int, fault: Fault): Outcome {
    if FailsBy(fault, 1) then Outcome(db, Error500)
    else if FailsBy(fault, 2) || user.None? then Outcome(db.(nextPhoto := db.nextPhoto + 1), Error500)
    else if FailsBy(fault, 3) then Outcome(db.(nextPhoto := db.nextPhoto + 1, nextPost := db.nextPost + 1), Error500)
    else
      var photo := Photo(Property(properties, "Content-Type"), Property(properties, "photo"));
      var post := Post(user.value, now, Property(properties, "description"), None, db.nextPhoto);
      Outcome(Db(db.tables.(photos := db.tables.photos[db.nextPhoto := photo],
                            posts := db.tables.posts[db.nextPost := post]),
                 db.nextPost + 1, db.nextPhoto + 1), CommitAnswer(fault))
  }

  /** The one row of `getPostPhotoById`; any other number of rows is an error. */
  function PhotoOutcome(t: Tables, photo: Option<PhotoId>, fault: Fault): (Answer, Photo) {
    if FailsBy(fault, 2) || fault == CommitInDoubt || photo.None? || photo.value !in t.photos then (Error500, Photo("", ""))
    else (Ok, t.photos[photo.value])
  }

  // ----- the client -----

  /** The database behind every connection. */
  class Database {
    var db: Db
    const schema: Schema

    constructor (schema: Schema)
      ensures db == EMPTY && this.schema == schema
    {
      db := EMPTY;
      this.schema := schema;
    }
  }

  class Client {
    const connection: Database

    constructor (connection: Database)
      ensures this.connection == connection
    {
      this.connection := connection;
    }

    method LikeClicked(post: Option<PostId>, user: Option<UserId>, fault: Fault) returns (answer: Answer)
      modifies connection
      ensures Outcome(connection.db, answer) == LikeOutcome(old(connection.db), post, user, fault, connection.schema)
    {
      if fault == FailsAt(0) {
        return Error500;
      }
      var work := connection.db.tables;
      if fault == FailsAt(1) || post.None? || user.None? {
        return Error500;
      }
      var row := Like(post.value, user.value);
      var isExist := row in work.likes;
      if !isExist {
        if fault == FailsAt(2) || (connection.schema.likesReferencePosts && row.post !in work.posts) {
          return Error500;
        }
        work := work.(likes := work.likes + [row]);
        if fault == FailsAt(3) {
          return Error500;
        }
        work := work.(posts := Increment(work.posts, row.post));
      } else {
        if fault == FailsAt(2) {
          return Error500;
        }
        work := work.(likes := DeleteLikes(work.likes, l => l != row));
        if fault == FailsAt(3) {
          return Error500;
        }
        work := work.(posts := Decrement(work.posts, row.post));
      }
      if fault == FailsAt(4) {
        return Error500;
      }
      connection.db := connection.db.(tables := work);
      if fault == CommitInDoubt {
        return Error500;
      }
      return Ok;
    }

    method DelPostById(post: Option<PostId>, user: Option<UserId>, fault: Fault) returns (answer: Answer)
      modifies connection
      ensures Outcome(connection.db, answer) == DeleteOutcome(old(connection.db), post, user, fault)
    {
      if fault == FailsAt(0) {
        return Error500;
      }
      var work := connection.db.tables;
      if fault == FailsAt(1) || post.None? || user.None? {
        return Error500;
      }
      if post.value in work.posts && work.posts[post.value].author == user.value {
        if fault == FailsAt(2) {
          return Error500;
        }
        work := work.(likes := DeleteLikes(work.likes, (l: Like) => l.post != post.value));
        if fault == FailsAt(3) {
          return Error500;
        }
        work := work.(posts := work.posts - {post.value});
      } else {
        return Error400;
      }
      if fault == FailsAt(4) {
        return Error500;
      }
      connection.db := connection.db.(tables := work);
      if fault == CommitInDoubt {
        return Error500;
      }
      return Ok;
    }

    /** The compensation of `addNewPost` runs no statement the database would accept, and always throws;
        by then the transaction that inserted the photo has ended anyway. */
    method DelPostPhotoById() returns (answer: Answer)
      ensures answer == Error500
    {
      return Error500;
    }

    method GetPostPhotoById(photo: Option<PhotoId>, fault: Fault) returns (answer: Answer, row: Photo)
      ensures (answer, row) == PhotoOutcome(connection.db.tables, photo, fault)
    {
      row := Photo("", "");
      if fault == FailsAt(0) || fault == FailsAt(1) || photo.None? || photo.value !in connection.db.tables.photos {
        return Error500, row;
      }
      if fault == FailsAt(2) || fault == CommitInDoubt {
        return Error500, row;
      }
      return Ok, connection.db.tables.photos[photo.value];
    }

    method AddNewPost(user: Option<UserId>, properties: map<string, string>, now: int, fault: Fault) returns (answer: Answer)
      modifies connection
      ensures Outcome(connection.db, answer) == AddOutcome(old(connection.db), user, properties, now, fault)
    {
      if fault == FailsAt(0) || fault == FailsAt(1) {
        return Error500;
      }
      var work := connection.db.tables;
      var photoId := connection.db.nextPhoto;
      connection.db := connection.db.(nextPhoto := photoId + 1);
      work := work.(photos := work.photos[photoId := Photo(Property(properties, "Content-Type"), Property(properties, "photo"))]);
      if fault == FailsAt(2) || user.None? {
        answer := DelPostPhotoById();
        return;
      }
      var postId := connection.db.nextPost;
      connection.db := connection.db.(nextPost := postId + 1);
      work := work.(posts := work.posts[postId := Post(user.value, now, Property(properties, "description"), None, photoId)]);
      if fault == FailsAt(3) {
        answer := DelPostPhotoById();
        return;
      }
      connection.db := connection.db.(tables := work);
      if fault == CommitInDoubt {
        answer := DelPostPhotoById();
        return;
      }
      return Ok;
    }
  }

  // ----- what every run keeps -----

  datatype Op =
    | Add(user: Option<UserId>, properties: map<string, string>, now: int)
    | Delete(post: Option<PostId>, user: Option<UserId>)
    | Click(post: Option<PostId>, user: Option<UserId>)

  function Exec(db: Db, op: Op, fault: Fault, schema: Schema): Outcome {
    match op
    case Add(user, properties, now) => AddOutcome(db, user, properties, now, fault)
    case Delete(post, user) => DeleteOutcome(db, post, user, fault)
    case Click(post, user) => LikeOutcome(db, post, user, fault, schema)
  }

  /** The number of rows for a post. */
  function RowsFor(likes: seq<Like>, post: PostId): nat {
    if likes == [] then 0 else (if likes[0].post == post then 1 else 0) + RowsFor(likes[1..], post)
  }

  ghost predicate NoDuplicates(likes: seq<Like>) {
    forall i, j :: 0 <= i < j < |likes| ==> likes[i] != likes[j]
  }

  ghost predicate CountsAgree(t: Tables) {
    forall p :: p in t.posts ==> Coalesce(t.posts[p].likeCount) == RowsFor(t.likes, p)
  }

  ghost predicate RowsRefer(t: Tables) {
    && (forall l :: l in t.likes ==> l.post in t.posts)
    && (forall p :: p in t.posts ==> t.posts[p].photo in t.photos)
  }

  ghost predicate IdsAreFresh(db: Db) {
    && (forall p :: p in db.tables.posts ==> p < db.nextPost)
    && (forall p :: p in db.tables.photos ==> p < db.nextPhoto)
  }

  /** One row a like, counted by its post, and every reference resolves. */
  ghost predicate Sound(db: Db) {
    && NoDuplicates(db.tables.likes) && CountsAgree(db.tables) && RowsRefer(db.tables) && IdsAreFresh(db)
  }
}
