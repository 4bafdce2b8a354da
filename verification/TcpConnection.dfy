/** One connection of the content server (content_server_src/TcpConnection/TcpConnection.cpp) with its exchange with
    the auth server (content_server_src/AnotherServerConnection/AnotherServerConnection.cpp): the handlers of the
    event loop, each as one step. */
module TcpConnection {
  import opened Text
  import opened Properties
  import DBclient
  import Feed
  import FormDataParser
  import FormRequest
  import Question = ForwardedRequest

  datatype HttpMethod = Options | Get | Post | Other

  datatype Request = Request(verb: HttpMethod, target: string, authorization: string, contentType: string, body: string)

  const NO_REQUEST := Request(Other, "", "", "", "")

  /** A request as the HTTP library hands it over: of bounded size, and with header values of one line. */
  predicate Bounded(r: Request) {
    && |r.target| < MAX_SIZE && |r.body| < MAX_SIZE && |r.contentType| + 2 < MAX_SIZE
    && |r.authorization| + 1100 < MAX_SIZE && OneLine(r.authorization)
  }

  type HttpStatus = nat
  const OK: HttpStatus := 200
  const NO_CONTENT: HttpStatus := 204
  const BAD_REQUEST: HttpStatus := 400
  const UNAUTHORIZED: HttpStatus := 401
  const INTERNAL_SERVER_ERROR: HttpStatus := 500

  /** What a response carries: a text, the rows of a list as JSON, or a photo under its type. */
  datatype Body = NoBody | Message(text: string) | Json(rows: seq<Feed.Row>) | Binary(photo: DBclient.Photo)

  datatype Response = Response(status: HttpStatus, body: Body)

  const NEW_RESPONSE := Response(OK, NoBody)

  /** What is outstanding on the client's socket, and on the socket to the auth server. */
  datatype ClientIo = Idle | ReadingRequest | WritingResponse
  datatype AuthIo = Off | Resolving | Connecting | WritingQuestion | ReadingReply

  /** The auth server's response: 200 with an id, with a body that is no JSON, with JSON that holds no id string;
      or another status. */
  datatype Reply = Id(user: string) | BadJson | NoId | Unauthorized | BadRequest | OtherStatus

  /** What has been done on behalf of a connection, on either server: its token checked, or its question taken for some
      other message, with the reply to that; the callback called; a transaction run; a response started. */
  datatype Event =
    | Verified(token: string, verifiedUser: string)
    | Refuted(refutedToken: string)
    | Strayed(sent: Reply)
    | Called(id: string)
    | Ran(user: string, op: DBclient.Op, answer: DBclient.Answer)
    | Responded(status: HttpStatus, body: Body)

  /** `question` is the request for the auth server. */
  datatype Conn = Conn(io: ClientIo, auth: AuthIo, request: Request, question: string, response: Response, trace: seq<Event>)

  const NEW_CONN := Conn(ReadingRequest, Off, NO_REQUEST, "", NEW_RESPONSE, [])

  /** Ids arrive as text; how the database converts them is not part of this model. `agent` is the HTTP library's name. */
  datatype Config = Config(schema: DBclient.Schema, toId: string -> Option<nat>, agent: Question.Agent)

  /** What a handler leaves: the connection, the database, and the transaction it ran, if any; `escaped` is an
      exception that leaves the handler and with it the event loop. */
  datatype Result = Result(conn: Conn, db: DBclient.Db, ran: Option<(DBclient.Op, DBclient.Fault)>, escaped: bool)

  function Plain(conn: Conn, db: DBclient.Db): Result {
    Result(conn, db, None, false)
  }

  // ----- the handlers, as functions -----

  function Respond(c: Conn, status: HttpStatus, body: Body): Conn {
    c.(io := WritingResponse, response := Response(status, body), trace := c.trace + [Responded(status, body)])
  }

  function HandleReadOf(c: Conn, db: DBclient.Db, error: bool, request: Request, dbUp: bool, cfg: Config): Result {
    if error then Plain(c.(io := Idle), db)
    else
      var d := c.(io := Idle, request := request, response := NEW_RESPONSE);
      var asking := d.(auth := Resolving, question := Question.Forwarded(request.authorization, cfg.agent));
      match request.verb
      case Options => Plain(Respond(d, NO_CONTENT, NoBody), db)
      case Get => if dbUp then Plain(asking, db) else Result(d, db, None, true)
      case Post => Plain(asking, db)
      case Other => Plain(d, db)
  }

  /** The handlers of the exchange up to its reply all do the same: go on, or give up. */
  function Advance(c: Conn, error: bool, next: AuthIo): Conn {
    c.(auth := if error then Off else next)
  }

  /** What the callback is told. */
  function IdOf(reply: Reply): string
    requires reply != NoId
  {
    match reply
    case Id(user) => user
    case Unauthorized => "unauthorized"
    case BadRequest => "bad_request"
    case _ => "internal_server_error"
  }

  predicate Reserved(id: string) {
    id == "unauthorized" || id == "bad_request" || id == "internal_server_error"
  }

  function ReservedStatus(id: string): HttpStatus
    requires Reserved(id)
  {
    if id == "unauthorized" then UNAUTHORIZED else if id == "bad_request" then BAD_REQUEST else INTERNAL_SERVER_ERROR
  }

  function QueryArgs(target: string): Option<map<string, string>> {
    if target == "" then Some(map[])
    else if FormRequest.BadHttp(target, 0) then None
    else Some(Assign(map[], FormRequest.Entries(target, 0)))
  }

  /** What a GET route does: greet, run a query, or fail before it; a query with an argument that the database cannot
      convert is asked for nothing. */
  datatype Lookup =
    | Greet
    | List(listing: Option<Feed.Listing>)
    | GetPhoto(photo: Option<DBclient.PhotoId>)
    | Refuse
    | NoRoute

  function ListingOf(args: map<string, string>, id: string, author: Option<Option<DBclient.UserId>>, cfg: Config): Option<Feed.Listing> {
    var viewer, limit, offset := cfg.toId(id), cfg.toId(DBclient.Property(args, "LIMIT")), cfg.toId(DBclient.Property(args, "OFFSET"));
    if viewer.None? || limit.None? || offset.None? || author == Some(None) then None
    else Some(Feed.Listing(viewer.value, match author case None => None case Some(a) => a, limit.value, offset.value))
  }

  function LookupOf(target: string, id: string, cfg: Config): Lookup {
    var args := QueryArgs(target);
    if target == "/getId" then Greet
    else if Contains(target, "/getPostsList") then
      if args.None? then Refuse else List(ListingOf(args.value, id, None, cfg))
    else if Contains(target, "/getByIdPostsList") then
      if args.None? then Refuse else List(ListingOf(args.value, id, Some(cfg.toId(DBclient.Property(args.value, "id"))), cfg))
    else if Contains(target, "/getPostPhoto") then
      if args.None? then Refuse else GetPhoto(cfg.toId(DBclient.Property(args.value, "photo_id")))
    else NoRoute
  }

  /** The order in which the database lists the selected posts is one that the query allows. */
  ghost predicate OrderFits(t: DBclient.Tables, lookup: Lookup, luck: Luck) {
    match lookup
    case List(Some(l)) => Feed.Ordered(t, Feed.Selected(t, luck.world, l.viewer, l.author), luck.order)
    case _ => true
  }

  /** There is always such an order. */
  lemma SomeOrderFits(t: DBclient.Tables, lookup: Lookup, luck: Luck) returns (order: seq<DBclient.PostId>)
    ensures OrderFits(t, lookup, luck.(order := order))
  {
    order := [];
    if lookup.List? && lookup.listing.Some? {
      var l := lookup.listing.value;
      order := Feed.SomeOrder(t, Feed.Selected(t, luck.world, l.viewer, l.author));
    }
  }

  const FAILED := Response(INTERNAL_SERVER_ERROR, NoBody)

  function GetResponseOf(t: DBclient.Tables, lookup: Lookup, id: string, luck: Luck): Response
    requires OrderFits(t, lookup, luck)
  {
    match lookup
    case Greet => Response(OK, Message("Hello World! Your id = " + id))
    case List(None) => FAILED
    case List(Some(l)) =>
      var (answer, rows) := Feed.ListOutcome(t, luck.world, l, luck.order, luck.fault);
      if answer == DBclient.Ok then Response(OK, Json(rows)) else FAILED
    case GetPhoto(photo) =>
      var (answer, row) := DBclient.PhotoOutcome(t, photo, luck.fault);
      if answer == DBclient.Ok then Response(OK, Binary(row)) else FAILED
    case Refuse => FAILED
    case NoRoute => Response(BAD_REQUEST, NoBody)
  }

  datatype Routed = NoTransaction | Throws | Transaction(op: DBclient.Op)

  function ActionOf(r: Request, id: string, now: int, cfg: Config): Routed
    requires Bounded(r)
  {
    if r.target == "/addNewPost" then
      var boundary := FormDataParser.GetBoundary(r.contentType);
      BoundarySize(r.contentType);
      match FormDataParser.Content(r.body, boundary, map[])
      case OutOfRange(_) => Throws
      case Done(properties) => Transaction(DBclient.Add(cfg.toId(id), properties, now))
    else if Contains(r.target, "/deletePost") then
      match QueryArgs(r.target)
      case None => Throws
      case Some(args) => Transaction(DBclient.Delete(cfg.toId(DBclient.Property(args, "post_id")), cfg.toId(id)))
    else if Contains(r.target, "/likeClicked") then
      match QueryArgs(r.target)
      case None => Throws
      case Some(args) => Transaction(DBclient.Click(cfg.toId(DBclient.Property(args, "post_id")), cfg.toId(id)))
    else NoTransaction
  }

  lemma BoundarySize(contentType: string)
    ensures |FormDataParser.GetBoundary(contentType)| <= |contentType| + 2
  {
    hide First;
  }

  /** The three routes that change the tables. */
  predicate Mutating(r: Request) {
    r.verb == Post
    && (r.target == "/addNewPost" || Contains(r.target, "/deletePost") || Contains(r.target, "/likeClicked"))
  }

  /** What the environment decides while the reply is handled: whether the database can be reached, the time, the fault of
      the transaction; and for a list the tables of the auth server and the order of the rows. */
  datatype Luck = Luck(dbUp: bool, now: int, fault: DBclient.Fault, world: Feed.World, order: seq<DBclient.PostId>)

  function PostCallbackOf(c: Conn, db: DBclient.Db, id: string, luck: Luck, cfg: Config): Result
    requires Bounded(c.request)
  {
    if Reserved(id) then Plain(Respond(c, ReservedStatus(id), NoBody), db)
    else if !luck.dbUp then Plain(Respond(c, INTERNAL_SERVER_ERROR, NoBody), db)
    else match ActionOf(c.request, id, luck.now, cfg)
         case NoTransaction => Plain(Respond(c, OK, NoBody), db)
         case Throws => Plain(Respond(c, INTERNAL_SERVER_ERROR, NoBody), db)
         case Transaction(op) =>
           var out := DBclient.Exec(db, op, luck.fault, cfg.schema);
           var d := c.(trace := c.trace + [Ran(id, op, out.answer)]);
           Result(Respond(d, if out.answer == DBclient.Ok then OK else INTERNAL_SERVER_ERROR, NoBody), out.db,
                  Some((op, luck.fault)), false)
  }

  function GetCallbackOf(c: Conn, db: DBclient.Db, id: string, luck: Luck, cfg: Config): Result
    requires OrderFits(db.tables, LookupOf(c.request.target, id, cfg), luck)
  {
    if Reserved(id) then Plain(Respond(c, ReservedStatus(id), NoBody), db)
    else if !luck.dbUp then Result(c, db, None, true)
    else
      var r := GetResponseOf(db.tables, LookupOf(c.request.target, id, cfg), id, luck);
      Plain(Respond(c, r.status, r.body), db)
  }

  /** The reply can be handled like this. */
  ghost predicate Fits(c: Conn, db: DBclient.Db, reply: Reply, luck: Luck, cfg: Config) {
    && Bounded(c.request)
    && (c.request.verb == Get && reply != NoId ==> OrderFits(db.tables, LookupOf(c.request.target, IdOf(reply), cfg), luck))
  }

  function OnReadOf(c: Conn, db: DBclient.Db, error: bool, reply: Reply, luck: Luck, cfg: Config): Result
    requires Fits(c, db, reply, luck, cfg)
  {
    var d := c.(auth := Off);
    if error then Plain(d, db)
    else if reply == NoId then Result(d, db, None, true)
    else
      var id := IdOf(reply);
      var e := d.(trace := c.trace + [Called(id)]);
      if c.request.verb == Get then GetCallbackOf(e, db, id, luck, cfg) else PostCallbackOf(e, db, id, luck, cfg)
  }

  // ----- the event loop's view of a connection -----

  /** The completion of an asynchronous operation, with what the environment made of it. */
  datatype Completion =
    | RequestRead(error: bool, request: Request, dbUp: bool)
    | Resolved(error: bool)
    | Connected(error: bool)
    | QuestionWritten(error: bool)
    | ReplyRead(error: bool, reply: Reply, luck: Luck)
    | ResponseWritten(error: bool)

  /** The operation is outstanding, and this is what it can deliver: a bounded request, and the rows of a list in an order
      that the query allows. */
  ghost predicate Possible(c: Conn, db: DBclient.Db, e: Completion, cfg: Config) {
    match e
    case RequestRead(_, request, _) => c.io == ReadingRequest && Bounded(request)
    case Resolved(_) => c.auth == Resolving
    case Connected(_) => c.auth == Connecting
    case QuestionWritten(_) => c.auth == WritingQuestion
    case ReplyRead(_, reply, luck) => c.auth == ReadingReply && Fits(c, db, reply, luck, cfg)
    case ResponseWritten(_) => c.io == WritingResponse
  }

  /** What the handler of a completion does. */
  function HandlerOf(c: Conn, db: DBclient.Db, e: Completion, cfg: Config): Result
    requires Possible(c, db, e, cfg)
  {
    match e
    case RequestRead(error, request, dbUp) => HandleReadOf(c, db, error, request, dbUp, cfg)
    case Resolved(error) => Plain(Advance(c, error, Connecting), db)
    case Connected(error) => Plain(Advance(c, error, WritingQuestion), db)
    case QuestionWritten(error) => Plain(Advance(c, error, ReadingReply), db)
    case ReplyRead(error, reply, luck) => OnReadOf(c, db, error, reply, luck, cfg)
    case ResponseWritten(_) => Plain(c.(io := Idle), db)
  }

  // ----- the objects -----

  class AnotherServerConnection {
    var question: string
    var auth: AuthIo

    constructor ()
      ensures auth == Off && question == ""
    {
      auth := Off;
      question := "";
    }

    /** Forms the question for the token as the client sent it, and starts resolving. */
    method CheckAccesstoken(token: string, agent: Question.Agent)
      modifies this
      ensures question == Question.Forwarded(token, agent) && auth == Resolving
    {
      question := Question.FormRequestGetIdByAccess(token, agent);
      auth := Resolving;
    }

    method OnResolve(error: bool)
      modifies this
      ensures question == old(question) && auth == if error then Off else Connecting
    {
      auth := if error then Off else Connecting;
    }

    method OnConnect(error: bool)
      modifies this
      ensures question == old(question) && auth == if error then Off else WritingQuestion
    {
      auth := if error then Off else WritingQuestion;
    }

    method OnWrite(error: bool)
      modifies this
      ensures question == old(question) && auth == if error then Off else ReadingReply
    {
      auth := if error then Off else ReadingReply;
    }

    /** Up to the call of the callback: Some(id) is what it is called with, `escaped` the exception of a missing id. */
    method OnRead(error: bool, reply: Reply) returns (id: Option<string>, escaped: bool)
      modifies this
      ensures question == old(question) && auth == Off
      ensures escaped == (!error && reply == NoId)
      ensures id == if error || reply == NoId then None else Some(IdOf(reply))
      ensures !error ==> match reply
                         case Id(user) => id == Some(user)
                         case NoId => id == None
                         case Unauthorized => id == Some("unauthorized")
                         case BadRequest => id == Some("bad_request")
                         case _ => id == Some("internal_server_error")
    {
      auth := Off;
      if error {
        return None, false;
      }
      match reply {
        case Id(user) => return Some(user), false;
        case BadJson => return Some("internal_server_error"), false;
        case NoId => return None, true;
        case Unauthorized => return Some("unauthorized"), false;
        case BadRequest => return Some("bad_request"), false;
        case OtherStatus => return Some("internal_server_error"), false;
      }
    }
  }

  class Connection {
    const another: AnotherServerConnection
    const client: DBclient.Client
    const cfg: Config
    var io: ClientIo
    var request: Request
    var response: Response
    var trace: seq<Event>

    constructor (client: DBclient.Client, cfg: Config)
      ensures fresh(another) && this.client == client && this.cfg == cfg
      ensures State() == NEW_CONN
    {
      this.client := client;
      this.cfg := cfg;
      another := new AnotherServerConnection();
      io, request, response, trace := ReadingRequest, NO_REQUEST, NEW_RESPONSE, [];
    }

    function State(): Conn
      reads this, another
    {
      Conn(io, another.auth, request, another.question, response, trace)
    }

    /** `async_write` of the response. */
    method Write(status: HttpStatus, body: Body)
      modifies this
      ensures State() == Respond(old(State()), status, body)
    {
      response := Response(status, body);
      io := WritingResponse;
      trace := trace + [Responded(status, body)];
    }

    method HandleRead(error: bool, r: Request, dbUp: bool) returns (escaped: bool)
      modifies this, another
      ensures var out := HandleReadOf(old(State()), client.connection.db, error, r, dbUp, cfg);
              State() == out.conn && client.connection.db == out.db && escaped == out.escaped
    {
      io := Idle;
      if error {
        return false;
      }
      request := r;
      response := NEW_RESPONSE;
      match request.verb {
        case Options =>
          Write(NO_CONTENT, NoBody);
        case Get =>
          if !dbUp {
            return true;
          }
          another.CheckAccesstoken(request.authorization, cfg.agent);
        case Post =>
          another.CheckAccesstoken(request.authorization, cfg.agent);
        case Other =>
      }
      return false;
    }

    method GetCallback(id: string, luck: Luck) returns (escaped: bool)
      requires Bounded(request) && OrderFits(client.connection.db.tables, LookupOf(request.target, id, cfg), luck)
      modifies this
      ensures var out := GetCallbackOf(old(State()), client.connection.db, id, luck, cfg);
              State() == out.conn && escaped == out.escaped && client.connection.db == out.db
    {
      hide LookupOf, GetResponseOf, Bounded, OrderFits;
      if Reserved(id) {
        Write(ReservedStatus(id), NoBody);
      } else {
        if !luck.dbUp {
          return true;
        }
        var r := LookUp(id, luck);
        Write(r.status, r.body);
      }
      return false;
    }

    /** The branch of the callback for each GET route; an exception is the response FAILED. */
    method LookUp(id: string, luck: Luck) returns (r: Response)
      requires Bounded(request) && OrderFits(client.connection.db.tables, LookupOf(request.target, id, cfg), luck)
      ensures r == GetResponseOf(client.connection.db.tables, LookupOf(request.target, id, cfg), id, luck)
    {
      hide Bounded, Contains, Feed.ListOutcome, DBclient.PhotoOutcome, Feed.Ordered, Feed.Selected, QueryArgs;
      if request.target == "/getId" {
        return Response(OK, Message("Hello World! Your id = " + id));
      }
      var list, byAuthor := Contains(request.target, "/getPostsList"), Contains(request.target, "/getByIdPostsList");
      if !list && !byAuthor && !Contains(request.target, "/getPostPhoto") {
        return Response(BAD_REQUEST, NoBody);
      }
      var threw, arguments := ReadArguments();
      if threw {
        return FAILED;
      }
      var args := arguments.entries;
      if list || byAuthor {
        var l := ListingOf(args, id, if list then None else Some(cfg.toId(DBclient.Property(args, "id"))), cfg);
        if l.None? {
          return FAILED;
        }
        var answer, rows := Feed.GetPostsList(client.connection.db.tables, luck.world, l.value, luck.order, luck.fault);
        return if answer == DBclient.Ok then Response(OK, Json(rows)) else FAILED;
      }
      var answer, row := client.GetPostPhotoById(cfg.toId(DBclient.Property(args, "photo_id")), luck.fault);
      return if answer == DBclient.Ok then Response(OK, Binary(row)) else FAILED;
    }

    /** The arguments in the target of the request. */
    method ReadArguments() returns (threw: bool, arguments: Collection)
      requires Bounded(request)
      ensures fresh(arguments)
      ensures threw == QueryArgs(request.target).None?
      ensures !threw ==> Some(arguments.entries) == QueryArgs(request.target)
    {
      arguments := new Collection();
      threw := FormRequest.URLParser(request.target, arguments, 0);
      if request.target == "" {
        assert !FormRequest.BadHttp(request.target, 0);
      }
    }

    /** The branch of the callback for one of the mutating routes; an answer other than Ok is its exception. */
    method RunRoute(id: string, luck: Luck) returns (answer: DBclient.Answer)
      requires Bounded(request) && cfg.schema == client.connection.schema
      modifies this, client.connection
      ensures var r := ActionOf(old(request), id, luck.now, cfg);
              match r
              case NoTransaction => answer == DBclient.Ok && State() == old(State()) && client.connection.db == old(client.connection.db)
              case Throws => answer != DBclient.Ok && State() == old(State()) && client.connection.db == old(client.connection.db)
              case Transaction(op) =>
                var out := DBclient.Exec(old(client.connection.db), op, luck.fault, cfg.schema);
                && answer == out.answer && client.connection.db == out.db
                && State() == old(State()).(trace := old(State()).trace + [Ran(id, op, answer)])
    {
      hide Contains, QueryArgs, FormDataParser.Content, FormDataParser.GetBoundary, DBclient.AddOutcome, DBclient.DeleteOutcome,
           DBclient.LikeOutcome, DBclient.Property;
      if request.target == "/addNewPost" {
        var data := new Collection();
        var threw := FormDataParser.GetContent(request.contentType, request.body, data);
        if threw {
          return DBclient.Error500;
        }
        answer := client.AddNewPost(cfg.toId(id), data.entries, luck.now, luck.fault);
        trace := trace + [Ran(id, DBclient.Add(cfg.toId(id), data.entries, luck.now), answer)];
      } else if Contains(request.target, "/deletePost") {
        var threw, arguments := ReadArguments();
        if threw {
          return DBclient.Error500;
        }
        var post := cfg.toId(DBclient.Property(arguments.entries, "post_id"));
        answer := client.DelPostById(post, cfg.toId(id), luck.fault);
        trace := trace + [Ran(id, DBclient.Delete(post, cfg.toId(id)), answer)];
      } else if Contains(request.target, "/likeClicked") {
        var threw, arguments := ReadArguments();
        if threw {
          return DBclient.Error500;
        }
        var post := cfg.toId(DBclient.Property(arguments.entries, "post_id"));
        answer := client.LikeClicked(post, cfg.toId(id), luck.fault);
        trace := trace + [Ran(id, DBclient.Click(post, cfg.toId(id)), answer)];
      } else {
        answer := DBclient.Ok;
      }
    }

    method PostCallback(id: string, luck: Luck)
      requires Bounded(request) && cfg.schema == client.connection.schema
      modifies this, client.connection
      ensures var out := PostCallbackOf(old(State()), old(client.connection.db), id, luck, cfg);
              State() == out.conn && client.connection.db == out.db && !out.escaped
    {
      if Reserved(id) {
        Write(ReservedStatus(id), NoBody);
      } else if !luck.dbUp {
        Write(INTERNAL_SERVER_ERROR, NoBody);
      } else {
        var answer := RunRoute(id, luck);
        if answer == DBclient.Ok {
          Write(OK, NoBody);
        } else {
          // a 400 is set first and overwritten at once
          Write(INTERNAL_SERVER_ERROR, NoBody);
        }
      }
    }

    method OnRead(error: bool, reply: Reply, luck: Luck) returns (escaped: bool)
      requires Fits(State(), client.connection.db, reply, luck, cfg) && cfg.schema == client.connection.schema
      modifies this, another, client.connection
      ensures var out := OnReadOf(old(State()), old(client.connection.db), error, reply, luck, cfg);
              State() == out.conn && client.connection.db == out.db && escaped == out.escaped
    {
      hide Bounded, ActionOf, GetCallbackOf, PostCallbackOf, OrderFits, LookupOf;
      var id, threw := another.OnRead(error, reply);
      if id.None? {
        return threw;
      }
      trace := trace + [Called(id.value)];
      if request.verb == Get {
        escaped := GetCallback(id.value, luck);
      } else {
        PostCallback(id.value, luck);
        escaped := false;
      }
    }

    method HandleWrite(error: bool)
      modifies this
      ensures State() == old(State()).(io := Idle)
    {
      io := Idle;
    }

    /** The event loop hands a completion to its handler. */
    method Complete(e: Completion) returns (escaped: bool)
      requires Possible(State(), client.connection.db, e, cfg) && cfg.schema == client.connection.schema
      modifies this, another, client.connection
      ensures var out := HandlerOf(old(State()), old(client.connection.db), e, cfg);
              State() == out.conn && client.connection.db == out.db && escaped == out.escaped
    {
      hide Bounded, HandleReadOf, OnReadOf, Fits;
      escaped := false;
      match e {
        case RequestRead(error, r, dbUp) => escaped := HandleRead(error, r, dbUp);
        case Resolved(error) => another.OnResolve(error);
        case Connected(error) => another.OnConnect(error);
        case QuestionWritten(error) => another.OnWrite(error);
        case ReplyRead(error, reply, luck) => escaped := OnRead(error, reply, luck);
        case ResponseWritten(error) => HandleWrite(error);
      }
    }
  }
}
