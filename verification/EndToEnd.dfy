/** From the bytes a browser sends to the committed tables: the parsers, the routes, the transactions and the two
    servers put together. */
module EndToEnd {
  import opened Text
  import opened Properties
  import opened Multipart
  import opened TcpConnection
  import DBclient
  import Feed
  import Store
  import FormDataParser
  import FormRequest
  import Question = ForwardedRequest
  import WorkWithClient
  import Reassembly
  import Server

  // ----- reading a form field by name -----

  /** Part `i` is the last with its name. */
  ghost predicate LastNamed(ps: seq<Part>, i: nat) {
    i < |ps| && ps[i].name != "Content-Type" && forall j :: i < j < |ps| ==> ps[j].name != ps[i].name
  }

  lemma NotAssigned(m: map<string, string>, p: Part, k: string)
    requires p.name != k && k != "Content-Type"
    ensures k in Assign(m, Assigned(p)) <==> k in m
    ensures k in m ==> Assign(m, Assigned(p))[k] == m[k]
  {
    hide Disposition, Clip, Assign, Assigned;
    AssignedIs(p, m);
  }

  lemma {:induction false} NeverAssigned(m: map<string, string>, ps: seq<Part>, k: string)
    requires k != "Content-Type" && forall j :: 0 <= j < |ps| ==> ps[j].name != k
    ensures k in Assign(m, AssignedAll(ps)) <==> k in m
    ensures k in m ==> Assign(m, AssignedAll(ps))[k] == m[k]
    decreases |ps|
  {
    hide Assign, Assigned;
    if ps == [] {
      AssignNothing(m);
    } else {
      AssignConcat(m, Assigned(ps[0]), AssignedAll(ps[1..]));
      NotAssigned(m, ps[0], k);
      NeverAssigned(Assign(m, Assigned(ps[0])), ps[1..], k);
    }
  }

  /** The value read for a name is the data of the last part with that name. */
  lemma {:induction false} FieldIsLastPart(m: map<string, string>, ps: seq<Part>, i: nat)
    requires LastNamed(ps, i)
    ensures ps[i].name in Assign(m, AssignedAll(ps)) && Assign(m, AssignedAll(ps))[ps[i].name] == ps[i].data
    decreases |ps|
  {
    hide Assign, Assigned;
    var m' := Assign(m, Assigned(ps[0]));
    AssignConcat(m, Assigned(ps[0]), AssignedAll(ps[1..]));
    if i == 0 {
      AssignedIs(ps[0], m);
      NeverAssigned(m', ps[1..], ps[0].name);
    } else {
      FieldIsLastPart(m', ps[1..], i - 1);
    }
  }

  // ----- the one type of a form -----

  /** Part `i` is the last that says a type. */
  ghost predicate LastTyped(ps: seq<Part>, i: nat) {
    i < |ps| && ps[i].contentType.Some? && forall j :: i < j < |ps| ==> ps[j].contentType.None?
  }

  ghost predicate Untyped(ps: seq<Part>) {
    forall j :: 0 <= j < |ps| ==> ps[j].contentType.None?
  }

  /** A part's type, cut to the length of its first line. */
  function CutType(p: Part): string {
    Clip(p.contentType.GetOr(""), |Disposition(p)|)
  }

  /** `kind` is the cut type of the last typed part, or nothing if there is none. */
  ghost predicate IsTypeOf(kind: string, ps: seq<Part>) {
    (Untyped(ps) ==> kind == "") && forall i: nat :: LastTyped(ps, i) ==> i < |ps| && kind == CutType(ps[i])
  }

  lemma UntypedKeepsType(m: map<string, string>, p: Part)
    requires p.name != "Content-Type" && p.contentType.None?
    ensures "Content-Type" in Assign(m, Assigned(p)) <==> "Content-Type" in m
    ensures "Content-Type" in m ==> Assign(m, Assigned(p))["Content-Type"] == m["Content-Type"]
  {
    hide Disposition, Clip, Assign, Assigned;
    AssignedIs(p, m);
  }

  lemma TypedSetsType(m: map<string, string>, p: Part)
    requires p.name != "Content-Type" && p.contentType.Some?
    ensures "Content-Type" in Assign(m, Assigned(p)) && Assign(m, Assigned(p))["Content-Type"] == CutType(p)
  {
    hide Disposition, Clip, Assign, Assigned;
    AssignedIs(p, m);
  }

  lemma {:induction false} UntypedKeepTypes(m: map<string, string>, ps: seq<Part>)
    requires Untyped(ps) && forall j :: 0 <= j < |ps| ==> ps[j].name != "Content-Type"
    ensures "Content-Type" in Assign(m, AssignedAll(ps)) <==> "Content-Type" in m
    ensures "Content-Type" in m ==> Assign(m, AssignedAll(ps))["Content-Type"] == m["Content-Type"]
    decreases |ps|
  {
    hide Assign, Assigned;
    if ps == [] {
      AssignNothing(m);
    } else {
      AssignConcat(m, Assigned(ps[0]), AssignedAll(ps[1..]));
      UntypedKeepsType(m, ps[0]);
      UntypedKeepTypes(Assign(m, Assigned(ps[0])), ps[1..]);
    }
  }

  /** The whole form has one type: that of its last typed part, cut to the length of that part's first line. */
  lemma {:induction false} TypeIsLastTyped(m: map<string, string>, ps: seq<Part>, i: nat)
    requires LastTyped(ps, i) && forall j :: 0 <= j < |ps| ==> ps[j].name != "Content-Type"
    ensures "Content-Type" in Assign(m, AssignedAll(ps)) && Assign(m, AssignedAll(ps))["Content-Type"] == CutType(ps[i])
    decreases |ps|
  {
    hide Assign, Assigned, CutType;
    var m' := Assign(m, Assigned(ps[0]));
    AssignConcat(m, Assigned(ps[0]), AssignedAll(ps[1..]));
    if i == 0 {
      TypedSetsType(m, ps[0]);
      UntypedKeepTypes(m', ps[1..]);
    } else {
      TypeIsLastTyped(m', ps[1..], i - 1);
    }
  }

  // ----- publishing a form -----

  /** POST /addNewPost with an encoded form. */
  function FormPost(authorization: string, boundary: string, preamble: Option<string>, ps: seq<Part>, epilogue: string): Request {
    Request(Post, "/addNewPost", authorization, ContentTypeOf(boundary), Encode(boundary, preamble, ps, epilogue))
  }

  lemma FormIsRouted(r: Request, boundary: string, preamble: Option<string>, ps: seq<Part>, epilogue: string,
                     id: string, now: int, cfg: Config)
    requires r == FormPost(r.authorization, boundary, preamble, ps, epilogue) && Bounded(r)
    requires WellFormedForm(boundary, preamble, ps, epilogue) && ps != []
    ensures ActionOf(r, id, now, cfg) == Transaction(DBclient.Add(cfg.toId(id), Assign(map[], AssignedAll(ps)), now))
  {
    hide WellFormedForm, Encode, Assign, AssignedAll, ContentTypeOf, FormDataParser.GetBoundary, FormDataParser.Content,
         Contains, OneLine;
    FormRoundTrip(boundary, preamble, ps, epilogue, map[]);
  }

  /** What the user typed and the file the user chose are what is committed, byte for byte: the parser, the route and the
      transaction together store a new post of that user whose description and photo are the data of the form's
      last parts of those names, with no likes, and change nothing else. The type stored with the photo is that of the
      form's last typed part, whichever that is. */
  lemma PublishedAsWritten(k: Conn, db: DBclient.Db, id: string, author: DBclient.UserId, luck: Luck, cfg: Config,
                           boundary: string, preamble: Option<string>, ps: seq<Part>, epilogue: string, d: nat, f: nat)
    requires k.request == FormPost(k.request.authorization, boundary, preamble, ps, epilogue) && Bounded(k.request)
    requires WellFormedForm(boundary, preamble, ps, epilogue)
    requires LastNamed(ps, d) && ps[d].name == "description" && LastNamed(ps, f) && ps[f].name == "photo"
    requires luck.dbUp && luck.fault == DBclient.NoFault && !Reserved(id) && cfg.toId(id) == Some(author)
    ensures var out := PostCallbackOf(k, db, id, luck, cfg);
            && out.conn.response.status == OK && out.ran.Some?
            && out.db.tables.likes == db.tables.likes
            && out.db.tables.posts == db.tables.posts[db.nextPost := DBclient.Post(author, luck.now, ps[d].data, None, db.nextPhoto)]
            && db.nextPhoto in out.db.tables.photos
            && out.db.tables.photos == db.tables.photos[db.nextPhoto := DBclient.Photo(out.db.tables.photos[db.nextPhoto].kind, ps[f].data)]
            && IsTypeOf(out.db.tables.photos[db.nextPhoto].kind, ps)
  {
    FormIsRouted(k.request, boundary, preamble, ps, epilogue, id, luck.now, cfg);
    FieldIsLastPart(map[], ps, d);
    FieldIsLastPart(map[], ps, f);
    FormType(boundary, preamble, ps, epilogue);
    hide ActionOf, FormPost, WellFormedForm, Assign, AssignedAll, Bounded, LastNamed, IsTypeOf, PostCallbackOf,
         DBclient.AddOutcome, DBclient.Property;
    AddCommits(k, db, id, author, Assign(map[], AssignedAll(ps)), luck, cfg);
    AddStores(db, author, Assign(map[], AssignedAll(ps)), luck.now, ps[d].data, ps[f].data);
  }

  lemma FormType(boundary: string, preamble: Option<string>, ps: seq<Part>, epilogue: string)
    requires WellFormedForm(boundary, preamble, ps, epilogue)
    ensures IsTypeOf(DBclient.Property(Assign(map[], AssignedAll(ps)), "Content-Type"), ps)
  {
    hide Assign, AssignedAll, CutType, WellFormedPart, Readable, Untyped, Contains, OneLine;
    var kind := DBclient.Property(Assign(map[], AssignedAll(ps)), "Content-Type");
    forall j | 0 <= j < |ps| ensures ps[j].name != "Content-Type" {
      WellFormedIsReadable(ps[j], "--" + boundary);
      NameIsNoType(ps[j]);
    }
    if Untyped(ps) {
      UntypedKeepTypes(map[], ps);
    }
    forall i: nat | LastTyped(ps, i) ensures i < |ps| && kind == CutType(ps[i]) {
      TypeIsLastTyped(map[], ps, i);
    }
  }

  /** The photo's own type is stored exactly if its part is the form's last typed one and the type is no longer than the
      part's first line, or the last typed part's type happens to be cut to the same text. */
  lemma PhotoTypeIsStoredIff(k: Conn, db: DBclient.Db, id: string, author: DBclient.UserId, luck: Luck, cfg: Config,
                             boundary: string, preamble: Option<string>, ps: seq<Part>, epilogue: string, d: nat, f: nat,
                             i: nat, t: string)
    requires k.request == FormPost(k.request.authorization, boundary, preamble, ps, epilogue) && Bounded(k.request)
    requires WellFormedForm(boundary, preamble, ps, epilogue)
    requires LastNamed(ps, d) && ps[d].name == "description" && LastNamed(ps, f) && ps[f].name == "photo"
    requires luck.dbUp && luck.fault == DBclient.NoFault && !Reserved(id) && cfg.toId(id) == Some(author)
    requires LastTyped(ps, i) && ps[f].contentType == Some(t)
    ensures var out := PostCallbackOf(k, db, id, luck, cfg);
            && db.nextPhoto in out.db.tables.photos
            && (out.db.tables.photos[db.nextPhoto].kind == t
                <==> if i == f then |t| <= |Disposition(ps[f])| else CutType(ps[i]) == t)
  {
    hide PostCallbackOf, FormPost, WellFormedForm, Bounded, Disposition;
    PublishedAsWritten(k, db, id, author, luck, cfg, boundary, preamble, ps, epilogue, d, f);
  }

  /** A photo with its type, and a description that says a type as well. */
  const TYPED_PHOTO := Part("photo", Some("a.png"), Some("image/png"), "p")
  const TYPED_TEXT := Part("description", None, Some("text/plain"), "d")
  const TYPED_DESCRIPTION := [TYPED_PHOTO, TYPED_TEXT]

  lemma FreeOf(p: Part, c: char)
    requires c !in PREFIX && c !in "name=\"" && c !in "\"" && c !in "; filename=\"" && c !in p.name
    requires p.filename.Some? ==> c !in p.filename.value
    ensures c !in Disposition(p)
    ensures c !in CRLF && c !in "Content-Type" && c !in ": " && p.contentType.Some? && c !in p.contentType.value ==> c !in Headers(p)
  {
    hide PREFIX;
    assert c !in FileParameter(p);
    hide FileParameter;
    assert c !in p.name + "\"" + FileParameter(p);
  }

  lemma PrefixIsFree()
    ensures 'T' !in PREFIX && 'X' !in PREFIX
  {
  }

  lemma FixedTextIsFree()
    ensures 'T' !in "name=\"" && 'X' !in "name=\"" && 'T' !in "; filename=\"" && 'X' !in "; filename=\""
  {
  }

  /** A text of one line without quotes and these two letters. */
  predicate Simple(s: string) {
    OneLine(s) && '"' !in s && 'T' !in s && 'X' !in s
  }

  lemma NamesAreSimple()
    ensures Simple("photo") && Simple("description") && Simple("p") && Simple("d")
  {
  }

  lemma TypesAreSimple()
    ensures Simple("a.png") && Simple("image/png") && Simple("text/plain")
  {
  }

  lemma NoCapitals(p: Part)
    requires Simple(p.name) && Simple(p.filename.GetOr("")) && Simple(p.contentType.GetOr("")) && p.contentType.Some?
    ensures 'T' !in Disposition(p) && 'X' !in Headers(p)
  {
    hide Disposition, Headers, PREFIX;
    PrefixIsFree();
    FixedTextIsFree();
    FreeOf(p, 'T');
    assert 'X' !in "Content-Type";
    FreeOf(p, 'X');
  }

  lemma TypedPartsAreSimple(p: Part)
    requires p in TYPED_DESCRIPTION
    ensures Simple(p.name) && Simple(p.filename.GetOr("")) && Simple(p.contentType.GetOr("")) && Simple(p.data)
    ensures p.contentType.Some?
  {
    hide Simple;
    NamesAreSimple();
    TypesAreSimple();
    assert Simple("") by { NothingIsSimple(); }
  }

  lemma NothingIsSimple()
    ensures Simple("")
  {
  }

  lemma TypedDescriptionIsForm()
    ensures WellFormedForm("X", None, TYPED_DESCRIPTION, "")
  {
    hide Contains, Headers, Disposition;
    assert "Content-Type"[8] == 'T';
    forall i | 0 <= i < |TYPED_DESCRIPTION|
      ensures !Contains(Disposition(TYPED_DESCRIPTION[i]), "Content-Type")
    {
      TypedPartsAreSimple(TYPED_DESCRIPTION[i]);
      NoCapitals(TYPED_DESCRIPTION[i]);
      FreeByByte(Disposition(TYPED_DESCRIPTION[i]), "Content-Type", 'T');
    }
    forall i | 0 <= i < |TYPED_DESCRIPTION|
      ensures var p := TYPED_DESCRIPTION[i];
              && 'X' !in Headers(p) && 'X' !in p.data && OneLine(p.name) && '"' !in p.name
              && (p.filename.Some? ==> OneLine(p.filename.value)) && OneLine(p.contentType.GetOr(""))
    {
      TypedPartsAreSimple(TYPED_DESCRIPTION[i]);
      NoCapitals(TYPED_DESCRIPTION[i]);
    }
    hide TYPED_DESCRIPTION;
    assert OneLine("X");
    BoundaryWithOwnByte("X", None, TYPED_DESCRIPTION, "", 'X');
  }

  /** Its photo is stored as text. */
  lemma LaterTypeWins(k: Conn, db: DBclient.Db, id: string, author: DBclient.UserId, luck: Luck, cfg: Config)
    requires k.request == FormPost(k.request.authorization, "X", None, TYPED_DESCRIPTION, "") && Bounded(k.request)
    requires luck.dbUp && luck.fault == DBclient.NoFault && !Reserved(id) && cfg.toId(id) == Some(author)
    ensures var out := PostCallbackOf(k, db, id, luck, cfg);
            db.nextPhoto in out.db.tables.photos && out.db.tables.photos[db.nextPhoto] == DBclient.Photo("text/plain", "p")
  {
    TypedDescriptionIsForm();
    assert LastTyped(TYPED_DESCRIPTION, 1) && LastNamed(TYPED_DESCRIPTION, 0) && LastNamed(TYPED_DESCRIPTION, 1);
    assert CutType(TYPED_DESCRIPTION[1]) == "text/plain";
    hide PostCallbackOf, FormPost, WellFormedForm, Bounded, LastNamed, LastTyped, CutType;
    PublishedAsWritten(k, db, id, author, luck, cfg, "X", None, TYPED_DESCRIPTION, "", 1, 0);
  }

  lemma AddCommits(k: Conn, db: DBclient.Db, id: string, author: DBclient.UserId, m: map<string, string>, luck: Luck, cfg: Config)
    requires Bounded(k.request) && !Reserved(id) && luck.dbUp && luck.fault == DBclient.NoFault
    requires ActionOf(k.request, id, luck.now, cfg) == Transaction(DBclient.Add(Some(author), m, luck.now))
    ensures var out := PostCallbackOf(k, db, id, luck, cfg);
            && out.conn.response.status == OK && out.ran.Some?
            && out.db == DBclient.AddOutcome(db, Some(author), m, luck.now, DBclient.NoFault).db
  {
    hide ActionOf, Bounded;
  }

  lemma AddStores(db: DBclient.Db, author: DBclient.UserId, m: map<string, string>, now: int, text: string, bytes: string)
    requires "description" in m && m["description"] == text && "photo" in m && m["photo"] == bytes
    ensures var t, kind := DBclient.AddOutcome(db, Some(author), m, now, DBclient.NoFault).db.tables, DBclient.Property(m, "Content-Type");
            && t.likes == db.tables.likes
            && t.posts == db.tables.posts[db.nextPost := DBclient.Post(author, now, text, None, db.nextPhoto)]
            && t.photos == db.tables.photos[db.nextPhoto := DBclient.Photo(kind, bytes)]
  {
  }

  // ----- reading the photo back -----

  /** A printed target `/getPostPhoto?photo_id=...` looks up that photo. */
  lemma PhotoIsLookedUp(target: string, path: string, photo: string, suffix: string, id: string, cfg: Config)
    requires |target| < MAX_SIZE && target == FormRequest.PrintTarget(path, [("photo_id", photo)]) + suffix
    requires FormRequest.Plain(path) && FormRequest.Plain(photo) && '=' !in photo && (suffix == "" || suffix[0] == ' ')
    requires Contains(target, "/getPostPhoto") && !Contains(target, "/getPostsList") && !Contains(target, "/getByIdPostsList")
    requires target != "/getId"
    ensures LookupOf(target, id, cfg) == GetPhoto(cfg.toId(photo))
  {
    PhotoIdIsPlain();
    var ps := [("photo_id", photo)];
    hide Contains, FormRequest.PrintTarget, FormRequest.Entries, FormRequest.BadHttp, FormRequest.Plain;
    FormRequest.QueryRoundTrip(path, ps, suffix);
    AssignOne(map[], "photo_id", photo);
    assert QueryArgs(target) == Some(map["photo_id" := photo]);
  }

  lemma PhotoIdIsPlain()
    ensures FormRequest.Plain("photo_id")
  {
  }

  /** A photo that was published is served byte for byte, under the type of the form, to any user and at any later time,
      whatever transactions have run and failed in between; even the deletion of its post. */
  lemma PublishedPhotoIsServed(steps: Store.Steps, more: Store.Steps, k: Conn, id: string, author: DBclient.UserId, luck: Luck,
                               cfg: Config, boundary: string, preamble: Option<string>, ps: seq<Part>, epilogue: string,
                               d: nat, f: nat, viewer: string, later: Luck)
    requires k.request == FormPost(k.request.authorization, boundary, preamble, ps, epilogue) && Bounded(k.request)
    requires WellFormedForm(boundary, preamble, ps, epilogue)
    requires LastNamed(ps, d) && ps[d].name == "description" && LastNamed(ps, f) && ps[f].name == "photo"
    requires luck.dbUp && luck.fault == DBclient.NoFault && !Reserved(id) && cfg.toId(id) == Some(author)
    requires cfg.schema == DBclient.Schema(true) && later.fault == DBclient.NoFault
    ensures var db := Store.Run(steps, cfg.schema);
            var out := PostCallbackOf(k, db, id, luck, cfg);
            && out.ran.Some?
            && exists kind :: IsTypeOf(kind, ps)
                 && GetResponseOf(Store.Run(steps + [out.ran.value] + more, cfg.schema).tables, GetPhoto(Some(db.nextPhoto)), viewer, later)
                    == Response(OK, Binary(DBclient.Photo(kind, ps[f].data)))
  {
    hide FormPost, WellFormedForm, Bounded, LastNamed, IsTypeOf, PostCallbackOf, Store.Run, DBclient.Exec, Server.Rans;
    var db := Store.Run(steps, cfg.schema);
    PublishedAsWritten(k, db, id, author, luck, cfg, boundary, preamble, ps, epilogue, d, f);
    var out := PostCallbackOf(k, db, id, luck, cfg);
    Server.PostEffect(k, id, db, luck, cfg);
    var (op, fault) := out.ran.value;
    Store.RunOne(steps, op, fault, cfg.schema);
    Store.PhotosStayInRuns(steps + [(op, fault)], more, db.nextPhoto);
    assert out.ran.value == (op, fault);
    assert IsTypeOf(out.db.tables.photos[db.nextPhoto].kind, ps);
  }

  /** A published post is listed, as long as it is not deleted, with its own text and date, and the id under which its photo
      is served. */
  lemma PublishedPostIsShown(steps: Store.Steps, more: Store.Steps, k: Conn, id: string, author: DBclient.UserId, luck: Luck,
                             cfg: Config, boundary: string, preamble: Option<string>, ps: seq<Part>, epilogue: string,
                             d: nat, f: nat, w: Feed.World, viewer: DBclient.UserId)
    requires k.request == FormPost(k.request.authorization, boundary, preamble, ps, epilogue) && Bounded(k.request)
    requires WellFormedForm(boundary, preamble, ps, epilogue)
    requires LastNamed(ps, d) && ps[d].name == "description" && LastNamed(ps, f) && ps[f].name == "photo"
    requires luck.dbUp && luck.fault == DBclient.NoFault && !Reserved(id) && cfg.toId(id) == Some(author)
    requires cfg.schema == DBclient.Schema(true)
    ensures var db := Store.Run(steps, cfg.schema);
            var out := PostCallbackOf(k, db, id, luck, cfg);
            && out.ran.Some?
            && var t := Store.Run(steps + [out.ran.value] + more, cfg.schema).tables;
               (db.nextPost in t.posts && author in w.users ==>
                  && Feed.Joined(t, w, db.nextPost)
                  && var row := Feed.RowOf(t, w, viewer, db.nextPost);
                     && row.description == ps[d].data && row.posted == luck.now && row.photo == db.nextPhoto
                     && row.nickname == w.users[author].nickname)
  {
    hide FormPost, WellFormedForm, Bounded, LastNamed, IsTypeOf, PostCallbackOf, Store.Run, DBclient.Exec, Server.Rans;
    var db := Store.Run(steps, cfg.schema);
    PublishedAsWritten(k, db, id, author, luck, cfg, boundary, preamble, ps, epilogue, d, f);
    var out := PostCallbackOf(k, db, id, luck, cfg);
    Server.PostEffect(k, id, db, luck, cfg);
    var (op, fault) := out.ran.value;
    Store.RunOne(steps, op, fault, cfg.schema);
    assert out.ran.value == (op, fault);
    Store.RunsAreSound(steps + [(op, fault)]);
    assert db.nextPost in out.db.tables.posts;
    Store.PostsStayInRuns(steps + [(op, fault)], more, db.nextPost);
  }

  // ----- lists -----

  /** The last value printed for a key is the one that is read. */
  lemma PrintedArgument(ps: Pairs, k: string, i: nat)
    requires LastAt(ps, k, i)
    ensures DBclient.Property(Assign(map[], ps), k) == ps[i].1
  {
    hide Assign;
    AssignIsLastWins(map[], ps, k);
  }

  /** A printed target's arguments are its pairs. */
  lemma PrintedQuery(target: string, path: string, ps: Pairs, suffix: string)
    requires |target| < MAX_SIZE && ps != [] && target == FormRequest.PrintTarget(path, ps) + suffix
    requires FormRequest.Plain(path) && FormRequest.PrintablePairs(ps) && (suffix == "" || suffix[0] == ' ')
    ensures QueryArgs(target) == Some(Assign(map[], ps))
  {
    hide FormRequest.PrintTarget, FormRequest.Entries, FormRequest.BadHttp, FormRequest.Plain, FormRequest.PrintablePairs, Assign;
    FormRequest.QueryRoundTrip(path, ps, suffix);
  }

  /** A target printed for either list, with `l`, `o` and `a` the last places of its LIMIT, OFFSET and author. */
  ghost predicate PrintsList(target: string, path: string, ps: Pairs, suffix: string, l: nat, o: nat, a: Option<nat>) {
    && |target| < MAX_SIZE && ps != [] && target == FormRequest.PrintTarget(path, ps) + suffix
    && FormRequest.Plain(path) && FormRequest.PrintablePairs(ps) && (suffix == "" || suffix[0] == ' ')
    && LastAt(ps, "LIMIT", l) && LastAt(ps, "OFFSET", o) && target != "/getId"
    && match a
       case None => Contains(target, "/getPostsList")
       case Some(i) => !Contains(target, "/getPostsList") && Contains(target, "/getByIdPostsList") && LastAt(ps, "id", i)
  }

  /** It asks for the page that its LIMIT and OFFSET say, for the verified user, of the feed or of that author's posts; each
      number being the conversion of the text printed. */
  lemma ListIsLookedUp(target: string, path: string, ps: Pairs, suffix: string, l: nat, o: nat, a: Option<nat>, id: string, cfg: Config)
    requires PrintsList(target, path, ps, suffix, l, o, a)
    ensures l < |ps| && o < |ps| && (a.Some? ==> a.value < |ps|)
    ensures LookupOf(target, id, cfg)
         == List(match (cfg.toId(id), cfg.toId(ps[l].1), cfg.toId(ps[o].1))
                 case (Some(viewer), Some(limit), Some(offset)) =>
                   (match a
                    case None => Some(Feed.Listing(viewer, None, limit, offset))
                    case Some(i) =>
                      match cfg.toId(ps[i].1)
                      case None => None
                      case Some(author) => Some(Feed.Listing(viewer, Some(author), limit, offset)))
                 case _ => None)
  {
    hide Contains, FormRequest.PrintTarget, FormRequest.Plain, FormRequest.PrintablePairs, Assign, DBclient.Property, QueryArgs;
    PrintedQuery(target, path, ps, suffix);
    PrintedArgument(ps, "LIMIT", l);
    PrintedArgument(ps, "OFFSET", o);
    if a.Some? {
      PrintedArgument(ps, "id", a.value);
    }
    hide LastAt;
  }

  // ----- clicking, and deleting -----

  /** A printed target `/likeClicked?post_id=...` is routed to a click on that post, for the verified user. */
  lemma ClickIsRouted(r: Request, path: string, post: string, suffix: string, id: string, now: int, cfg: Config)
    requires Bounded(r) && r.target == FormRequest.PrintTarget(path, [("post_id", post)]) + suffix
    requires FormRequest.Plain(path) && FormRequest.Plain(post) && '=' !in post && (suffix == "" || suffix[0] == ' ')
    requires Contains(r.target, "/likeClicked") && !Contains(r.target, "/deletePost") && r.target != "/addNewPost"
    ensures ActionOf(r, id, now, cfg) == Transaction(DBclient.Click(cfg.toId(post), cfg.toId(id)))
  {
    PostIdIsPlain();
    var ps := [("post_id", post)];
    hide Contains, OneLine, FormRequest.PrintTarget, FormRequest.Entries, FormRequest.BadHttp, FormRequest.Plain;
    FormRequest.QueryRoundTrip(path, ps, suffix);
    AssignOne(map[], "post_id", post);
    assert QueryArgs(r.target) == Some(map["post_id" := post]);
  }

  /** A printed target `/deletePost?post_id=...` is routed to the deletion of that post, for the verified user. */
  lemma DeleteIsRouted(r: Request, path: string, post: string, suffix: string, id: string, now: int, cfg: Config)
    requires Bounded(r) && r.target == FormRequest.PrintTarget(path, [("post_id", post)]) + suffix
    requires FormRequest.Plain(path) && FormRequest.Plain(post) && '=' !in post && (suffix == "" || suffix[0] == ' ')
    requires Contains(r.target, "/deletePost") && r.target != "/addNewPost"
    ensures ActionOf(r, id, now, cfg) == Transaction(DBclient.Delete(cfg.toId(post), cfg.toId(id)))
  {
    PostIdIsPlain();
    var ps := [("post_id", post)];
    hide Contains, OneLine, FormRequest.PrintTarget, FormRequest.Entries, FormRequest.BadHttp, FormRequest.Plain;
    FormRequest.QueryRoundTrip(path, ps, suffix);
    AssignOne(map[], "post_id", post);
    assert QueryArgs(r.target) == Some(map["post_id" := post]);
  }

  /** A target whose query the scanner refuses runs nothing on these routes. */
  lemma RefusedQueryThrows(r: Request, id: string, now: int, cfg: Config)
    requires Bounded(r) && r.target != "" && r.target != "/addNewPost" && FormRequest.BadHttp(r.target, 0)
    requires Contains(r.target, "/deletePost") || Contains(r.target, "/likeClicked")
    ensures ActionOf(r, id, now, cfg) == Throws
  {
    hide Contains, OneLine, FormRequest.BadHttp;
  }

  lemma PostIdIsPlain()
    ensures FormRequest.Plain("post_id")
  {
  }
}
