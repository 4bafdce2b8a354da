/** The content server as one event loop over many connections, beside the threads of the auth server: every
    interleaving of their steps, with every callback's transaction run on the shared database. */
module Server {
  import opened Text
  import opened TcpConnection
  import Question = ForwardedRequest
  import DBclient
  import Feed
  import Store
  import WorkWithClient
  import Reassembly

  type ConnId = nat

  /** A transaction that was run, for which connection, and the statement at which the database failed, if any. */
  datatype Work = Work(conn: ConnId, op: DBclient.Op, fault: DBclient.Fault)

  /** `inbox` holds the auth server's reply on its way to a connection; `done` lists the transactions run so far;
      a handler that lets an exception escape ends the event loop. */
  datatype Sys = Sys(conns: map<ConnId, Conn>, inbox: map<ConnId, Reply>, db: DBclient.Db, done: seq<Work>, halted: bool)

  const INIT := Sys(map[], map[], DBclient.EMPTY, [], false)

  function StepsOf(done: seq<Work>): Store.Steps {
    if done == [] then []
    else StepsOf(done[..|done| - 1]) + [(done[|done| - 1].op, done[|done| - 1].fault)]
  }

  /** A new client; a completion in the event loop; or an auth-server thread that has received the question in these
      pieces. If it takes the question for another message, `other` is what it sends. */
  datatype Label =
    | Accept(c: ConnId)
    | Handler(c: ConnId, e: Completion)
    | AuthServed(c: ConnId, chunks: seq<string>, env: WorkWithClient.Env, other: Reply)

  /** What the auth server sends for what its loop did, and what it has checked. */
  function AnswerOf(e: WorkWithClient.Event, other: Reply): (Reply, Event) {
    match e
    case Served(_, info, user) =>
      if info.GetInfo? && info.getMsg.GetIdFsByAccess? then (Id(user), Verified(info.accessToken, user)) else (other, Strayed(other))
    case Refused(_, info) =>
      (Unauthorized, Refuted(if WorkWithClient.NeedsToken(info) then WorkWithClient.TokenOf(info) else ""))
  }

  /** An auth-server thread answers what its loop does first. */
  function ServeQuestion(s: Sys, c: ConnId, chunks: seq<string>, env: WorkWithClient.Env, other: Reply): Option<Sys>
    requires c in s.conns
  {
    var end := WorkWithClient.RunOn(WorkWithClient.State("", [], true), chunks, env);
    if end.events == [] then None
    else
      var (reply, event) := AnswerOf(end.events[0], other);
      Some(s.(inbox := s.inbox[c := reply], conns := s.conns[c := s.conns[c].(trace := s.conns[c].trace + [event])]))
  }

  function Install(s: Sys, c: ConnId, r: Result): Sys {
    Sys(s.conns[c := r.conn], s.inbox, r.db,
        match r.ran case None => s.done case Some((op, fault)) => s.done + [Work(c, op, fault)], r.escaped)
  }

  /** The reply a connection reads is the one that was sent to it. */
  predicate Arrives(e: Completion, reply: Option<Reply>) {
    e.ReplyRead? && !e.error ==> reply == Some(e.reply)
  }

  function ReplyTo(s: Sys, c: ConnId): Option<Reply> {
    if c in s.inbox then Some(s.inbox[c]) else None
  }

  /** One step of the system, where it is enabled. */
  ghost function Step(s: Sys, l: Label, cfg: Config): Option<Sys> {
    if s.halted then None
    else if l.Accept? then
      if l.c in s.conns then None else Some(s.(conns := s.conns[l.c := NEW_CONN]))
    else if l.c !in s.conns then None
    else StepOf(s, s.conns[l.c], l, cfg)
  }

  ghost function StepOf(s: Sys, k: Conn, l: Label, cfg: Config): Option<Sys>
    requires l.c in s.conns && s.conns[l.c] == k
  {
    match l
    case Accept(_) => None
    case Handler(c, e) =>
      if Possible(k, s.db, e, cfg) && Arrives(e, ReplyTo(s, c)) then Some(Install(s, c, HandlerOf(k, s.db, e, cfg))) else None
    case AuthServed(c, chunks, env, other) =>
      if (k.auth == WritingQuestion || k.auth == ReadingReply) && c !in s.inbox && Reassembly.Chunking(chunks, k.question)
      then ServeQuestion(s, c, chunks, env, other) else None
  }

  ghost function RunOf(labels: seq<Label>, cfg: Config): Option<Sys> {
    if labels == [] then Some(INIT)
    else match RunOf(labels[..|labels| - 1], cfg)
         case None => None
         case Some(s) => Step(s, labels[|labels| - 1], cfg)
  }

  // ----- the protocol of one connection -----

  predicate Asks(r: Request) {
    r.verb == Get || r.verb == Post
  }

  /** The auth server has answered. */
  predicate Checked(e: Event) {
    e.Verified? || e.Refuted? || e.Strayed?
  }

  /** What the callback is told is what the check returned, or what the reply to another message says. */
  predicate Told(e: Event, id: string) {
    match e
    case Verified(_, user) => id == user
    case Refuted(_) => id == "unauthorized"
    case Strayed(sent) => sent != NoId && id == IdOf(sent)
    case _ => false
  }

  /** What the callback leaves: one response, without a transaction or with the one transaction that the route names, run
      for the id it was called with; or, for a GET, an exception. */
  ghost predicate Replied(r: Request, id: string, rest: seq<Event>, cfg: Config) {
    || (rest == [] && r.verb == Get)
    || (|rest| == 1 && rest[0].Responded? && (Mutating(r) ==> rest[0].status != OK)
        && (Reserved(id) ==> rest[0].status == ReservedStatus(id)))
    || (|rest| == 2 && rest[0].Ran? && rest[1].Responded?
        && rest[0].user == id && !Reserved(id) && Mutating(r)
        && (rest[1].status == OK <==> rest[0].answer == DBclient.Ok)
        && Names(r, id, rest[0].op, cfg))
  }

  ghost predicate Names(r: Request, user: string, op: DBclient.Op, cfg: Config) {
    Bounded(r) && exists now :: ActionOf(r, user, now, cfg) == Transaction(op)
  }

  /** What may have happened for a connection that is not in its exchange with the auth server any more. */
  ghost predicate Ended(r: Request, trace: seq<Event>, cfg: Config) {
    || trace == []
    || (r.verb == Options && trace == [Responded(NO_CONTENT, NoBody)])
    || (Asks(r) && Checked(trace[0])
        && (|trace| == 1 || (trace[1].Called? && Told(trace[0], trace[1].id) && Replied(r, trace[1].id, trace[2..], cfg))))
  }

  /** What may have happened, given what is outstanding. */
  ghost predicate Protocol(k: Conn, reply: Option<Reply>, cfg: Config) {
    && Bounded(k.request)
    && match k.auth
       case Off =>
         if k.io == ReadingRequest then k.trace == [] && reply == None
         else Ended(k.request, k.trace, cfg)
       case Resolving => Asking(k, cfg) && k.trace == [] && reply == None
       case Connecting => Asking(k, cfg) && k.trace == [] && reply == None
       case WritingQuestion => Asking(k, cfg) && Delivered(k, reply)
       case ReadingReply => Asking(k, cfg) && Delivered(k, reply)
  }

  ghost predicate Asking(k: Conn, cfg: Config) {
    k.io == Idle && Asks(k.request) && k.question == Question.Forwarded(k.request.authorization, cfg.agent)
  }

  predicate Delivered(k: Conn, reply: Option<Reply>) {
    match reply
    case None => k.trace == []
    case Some(r) =>
      && |k.trace| == 1
      && match k.trace[0]
         case Verified(_, user) => r == Id(user)
         case Refuted(_) => r == Unauthorized
         case Strayed(sent) => r == sent
         case _ => false
  }

  // ----- the transactions of one connection -----

  function AnswerTo(before: seq<Work>, w: Work, schema: DBclient.Schema): DBclient.Answer {
    DBclient.Exec(Store.Run(StepsOf(before), schema), w.op, w.fault, schema).answer
  }

  /** The transactions run for a connection, with the answers that the database gave. */
  function TxnsOf(done: seq<Work>, c: ConnId, schema: DBclient.Schema): seq<(DBclient.Op, DBclient.Answer)> {
    if done == [] then []
    else
      var before, w := done[..|done| - 1], done[|done| - 1];
      TxnsOf(before, c, schema) + if w.conn == c then [(w.op, AnswerTo(before, w, schema))] else []
  }

  /** The transactions in its trace. */
  function Rans(trace: seq<Event>): seq<(DBclient.Op, DBclient.Answer)> {
    if trace == [] then []
    else
      Rans(trace[..|trace| - 1])
      + match trace[|trace| - 1]
        case Ran(_, op, answer) => [(op, answer)]
        case _ => []
  }

  function TraceOf(s: Sys, c: ConnId): seq<Event> {
    if c in s.conns then s.conns[c].trace else []
  }

  /** Every connection keeps to the protocol; the database holds what the transactions run so far have left, and each
      trace shows just the transactions run for its connection. */
  ghost predicate Inv(s: Sys, cfg: Config) {
    && (forall c :: c in s.conns ==> Protocol(s.conns[c], ReplyTo(s, c), cfg))
    && (forall c :: c in s.inbox ==> c in s.conns)
    && s.db == Store.Run(StepsOf(s.done), cfg.schema)
    && (forall c :: TxnsOf(s.done, c, cfg.schema) == Rans(TraceOf(s, c)))
  }

  lemma StepsOfOne(done: seq<Work>, w: Work)
    ensures StepsOf(done + [w]) == StepsOf(done) + [(w.op, w.fault)]
  {
    assert (done + [w])[..|done|] == done;
  }

  lemma TxnsOfOne(done: seq<Work>, w: Work, c: ConnId, schema: DBclient.Schema)
    ensures TxnsOf(done + [w], c, schema)
         == TxnsOf(done, c, schema) + if w.conn == c then [(w.op, AnswerTo(done, w, schema))] else []
  {
    assert (done + [w])[..|done|] == done;
  }

  lemma RansOne(trace: seq<Event>, e: Event)
    ensures Rans(trace + [e]) == Rans(trace) + match e case Ran(_, op, answer) => [(op, answer)] case _ => []
  {
    assert (trace + [e])[..|trace|] == trace;
  }

  // ----- what a handler does -----

  /** What a handler adds to the trace, and how that goes with what it does to the database. */
  ghost predicate Effect(k: Conn, db: DBclient.Db, r: Result, schema: DBclient.Schema) {
    match r.ran
    case None => r.db == db && Rans(r.conn.trace) == Rans(k.trace)
    case Some((op, fault)) =>
      && r.db == DBclient.Exec(db, op, fault, schema).db
      && Rans(r.conn.trace) == Rans(k.trace) + [(op, DBclient.Exec(db, op, fault, schema).answer)]
  }

  /** What came first in the trace stays, for the same request; a handler itself adds no check. */
  predicate Continues(k: Conn, k': Conn) {
    && (k.trace != [] ==> k'.trace != [] && k'.trace[0] == k.trace[0] && k'.request == k.request)
    && (k.trace == [] && k'.trace != [] ==> k'.trace[0].Responded? || k'.trace[0].Called?)
  }

  lemma RespondAdds(k: Conn, r: Response)
    ensures Rans(Respond(k, r.status, r.body).trace) == Rans(k.trace)
  {
    RansOne(k.trace, Responded(r.status, r.body));
  }

  lemma ReadKeepsProtocol(k: Conn, db: DBclient.Db, error: bool, request: Request, dbUp: bool, cfg: Config)
    requires Protocol(k, None, cfg) && k.io == ReadingRequest && Bounded(request)
    ensures var r := HandleReadOf(k, db, error, request, dbUp, cfg);
            Protocol(r.conn, None, cfg) && Effect(k, db, r, cfg.schema) && Continues(k, r.conn)
  {
    hide Bounded, Rans, Question.Forwarded;
    RespondAdds(k.(io := Idle, request := request, response := NEW_RESPONSE), Response(NO_CONTENT, NoBody));
  }

  lemma PostEffect(k: Conn, user: string, db: DBclient.Db, luck: Luck, cfg: Config)
    requires Bounded(k.request)
    ensures Effect(k, db, PostCallbackOf(k, db, user, luck, cfg), cfg.schema)
  {
    hide Bounded, ActionOf, Rans, DBclient.Exec;
    var out := PostCallbackOf(k, db, user, luck, cfg);
    RespondAdds(k, out.conn.response);
    if out.ran.Some? {
      var (op, fault) := out.ran.value;
      var ran := Ran(user, op, DBclient.Exec(db, op, fault, cfg.schema).answer);
      RansOne(k.trace, ran);
      RespondAdds(k.(trace := k.trace + [ran]), out.conn.response);
    }
  }

  lemma PostReplies(k: Conn, user: string, db: DBclient.Db, luck: Luck, cfg: Config)
    requires Bounded(k.request) && k.request.verb == Post
    ensures var r := PostCallbackOf(k, db, user, luck, cfg).conn;
            && r.request == k.request && k.trace <= r.trace && r.auth == k.auth && r.io != ReadingRequest
            && Replied(k.request, user, r.trace[|k.trace|..], cfg)
  {
    hide Bounded, ActionOf, Contains, DBclient.Exec;
    var out := PostCallbackOf(k, db, user, luck, cfg);
    RouteIsMutating(k.request, user, luck.now, cfg);
    if out.ran.Some? {
      var (op, fault) := out.ran.value;
      var ran := Ran(user, op, DBclient.Exec(db, op, fault, cfg.schema).answer);
      assert out.conn.trace == k.trace + [ran] + [Responded(out.conn.response.status, out.conn.response.body)];
      assert out.conn.trace[|k.trace|..] == [ran, Responded(out.conn.response.status, out.conn.response.body)];
      assert ActionOf(k.request, user, luck.now, cfg) == Transaction(op);
      assert Names(k.request, user, op, cfg);
    } else {
      assert out.conn.trace[|k.trace|..] == [Responded(out.conn.response.status, out.conn.response.body)];
    }
  }

  lemma RouteIsMutating(r: Request, user: string, now: int, cfg: Config)
    requires Bounded(r) && r.verb == Post
    ensures ActionOf(r, user, now, cfg).NoTransaction? <==> !Mutating(r)
  {
    hide First, Contains;
  }

  lemma GetReplies(k: Conn, user: string, db: DBclient.Db, luck: Luck, cfg: Config)
    requires k.request.verb == Get && k.io == Idle && OrderFits(db.tables, LookupOf(k.request.target, user, cfg), luck)
    ensures var r := GetCallbackOf(k, db, user, luck, cfg);
            && Effect(k, db, r, cfg.schema)
            && r.conn.request == k.request && k.trace <= r.conn.trace && r.conn.auth == k.auth && r.conn.io != ReadingRequest
            && Replied(k.request, user, r.conn.trace[|k.trace|..], cfg)
  {
    hide GetResponseOf, LookupOf, OrderFits, Rans;
    var out := GetCallbackOf(k, db, user, luck, cfg);
    if out.escaped {
      assert out.conn.trace[|k.trace|..] == [];
    } else {
      RespondAdds(k, out.conn.response);
      assert out.conn.trace[|k.trace|..] == [Responded(out.conn.response.status, out.conn.response.body)];
    }
  }

  /** After the check and the call, the callback's reply ends the exchange. */
  lemma CallEnds(r: Request, trace: seq<Event>, id: string, all: seq<Event>, cfg: Config)
    requires Asks(r) && |trace| == 1 && Checked(trace[0]) && Told(trace[0], id)
    requires trace + [Called(id)] <= all && Replied(r, id, all[2..], cfg)
    ensures Ended(r, all, cfg) && all[0] == trace[0]
  {
    hide Replied;
    assert all[0] == (trace + [Called(id)])[0] && all[1] == (trace + [Called(id)])[1];
  }

  lemma ReplyKeepsProtocol(k: Conn, reply: Option<Reply>, db: DBclient.Db, e: Completion, cfg: Config)
    requires Protocol(k, reply, cfg) && Possible(k, db, e, cfg) && e.ReplyRead? && Arrives(e, reply)
    ensures var r := OnReadOf(k, db, e.error, e.reply, e.luck, cfg);
            Protocol(r.conn, reply, cfg) && Effect(k, db, r, cfg.schema) && Continues(k, r.conn)
  {
    hide Bounded, PostCallbackOf, GetCallbackOf, Replied, Question.Forwarded, Rans, DBclient.Exec, OrderFits, LookupOf;
    if !e.error && e.reply != NoId {
      var id := IdOf(e.reply);
      var d := k.(auth := Off, trace := k.trace + [Called(id)]);
      RansOne(k.trace, Called(id));
      ToldByReply(k, e.reply);
      var out := OnReadOf(k, db, e.error, e.reply, e.luck, cfg);
      if k.request.verb == Get {
        GetReplies(d, id, db, e.luck, cfg);
      } else {
        PostReplies(d, id, db, e.luck, cfg);
        PostEffect(d, id, db, e.luck, cfg);
      }
      CallEnds(k.request, k.trace, id, out.conn.trace, cfg);
    }
  }

  lemma ToldByReply(k: Conn, reply: Reply)
    requires Delivered(k, Some(reply)) && reply != NoId
    ensures Checked(k.trace[0]) && Told(k.trace[0], IdOf(reply))
  {
  }

  lemma AdvanceKeepsProtocol(k: Conn, reply: Option<Reply>, error: bool, next: AuthIo, cfg: Config)
    requires Protocol(k, reply, cfg) && k.auth != Off
    requires (k.auth == Resolving && next == Connecting) || (k.auth == Connecting && next == WritingQuestion)
             || (k.auth == WritingQuestion && next == ReadingReply)
    ensures Protocol(Advance(k, error, next), reply, cfg)
  {
    hide Bounded, Question.Forwarded;
  }

  lemma WrittenKeepsProtocol(k: Conn, reply: Option<Reply>, cfg: Config)
    requires Protocol(k, reply, cfg) && k.io == WritingResponse
    ensures Protocol(k.(io := Idle), reply, cfg)
  {
    hide Bounded, Ended;
  }

  lemma HandlerKeepsProtocol(k: Conn, reply: Option<Reply>, db: DBclient.Db, e: Completion, cfg: Config)
    requires Protocol(k, reply, cfg) && Possible(k, db, e, cfg) && Arrives(e, reply)
    ensures var r := HandlerOf(k, db, e, cfg);
            Protocol(r.conn, reply, cfg) && Effect(k, db, r, cfg.schema) && Continues(k, r.conn)
  {
    hide Protocol, OnReadOf, HandleReadOf, Rans, Bounded, OrderFits, LookupOf;
    match e
    case RequestRead(error, request, dbUp) =>
      NothingYet(k, reply, cfg);
      ReadKeepsProtocol(k, db, error, request, dbUp, cfg);
    case Resolved(error) => AdvanceKeepsProtocol(k, reply, error, Connecting, cfg);
    case Connected(error) => AdvanceKeepsProtocol(k, reply, error, WritingQuestion, cfg);
    case QuestionWritten(error) => AdvanceKeepsProtocol(k, reply, error, ReadingReply, cfg);
    case ReplyRead(error, r, luck) => ReplyKeepsProtocol(k, reply, db, e, cfg);
    case ResponseWritten(error) => WrittenKeepsProtocol(k, reply, cfg);
  }

  lemma NothingYet(k: Conn, reply: Option<Reply>, cfg: Config)
    requires Protocol(k, reply, cfg) && k.io == ReadingRequest
    ensures reply == None
  {
    hide Bounded, Ended, Question.Forwarded;
  }

  // ----- what the auth server does -----

  /** The step has put `e` first in the trace of connection `c`: the question for its request was received, and the check
      that `e` tells of was made. The token it speaks of is the request's own exactly if the first `Bearer ` reached
      the piece that shows the method; and if the first piece shows it, that is so. */
  ghost predicate Vouches(l: Label, c: ConnId, r: Request, e: Event, cfg: Config) {
    && l.AuthServed? && l.c == c
    && Reassembly.Chunking(l.chunks, Question.Forwarded(r.authorization, cfg.agent))
    && (match e
        case Verified(token, user) =>
          && l.env.verify(token) == Some(user)
          && (Question.BearerToken(r.authorization) == Some(token) <==> Question.BearerKept(r.authorization, l.chunks))
        case Refuted(token) => l.env.verify(token) == None
        case Strayed(sent) => l.other == sent
        case _ => false)
    && (|l.chunks[0]| >= 7 ==>
          match e
          case Verified(token, _) => Question.BearerToken(r.authorization) == Some(token)
          case Refuted(token) => Question.BearerToken(r.authorization) == Some(token)
          case _ => false)
  }

  lemma EventIsVouched(r: Request, l: Label, cfg: Config)
    requires Bounded(r) && l.AuthServed? && Reassembly.Chunking(l.chunks, Question.Forwarded(r.authorization, cfg.agent))
    requires WorkWithClient.RunOn(WorkWithClient.State("", [], true), l.chunks, l.env).events != []
    ensures var e := WorkWithClient.RunOn(WorkWithClient.State("", [], true), l.chunks, l.env).events[0];
            Vouches(l, l.c, r, AnswerOf(e, l.other).1, cfg)
  {
    hide OneLine, Bounded, WorkWithClient.RunOn, Question.BearerToken, Question.Forwarded, Question.BearerKept;
    var end := WorkWithClient.RunOn(WorkWithClient.State("", [], true), l.chunks, l.env);
    AuthorizationIsShort(r);
    Question.CheckOfQuestion(r.authorization, cfg.agent, l.chunks, l.env);
    if end.events[0].info.GetInfo? && WorkWithClient.NeedsToken(end.events[0].info) {
      Question.CheckedTokenIffBearerKept(r.authorization, cfg.agent, l.chunks, l.env);
    }
    if |l.chunks[0]| >= 7 {
      Question.QuestionIsAnswered(r.authorization, cfg.agent, l.chunks, l.env);
    }
  }

  lemma AuthorizationIsShort(r: Request)
    requires Bounded(r)
    ensures OneLine(r.authorization) && |r.authorization| + 1100 < MAX_SIZE
  {
  }

  lemma AnswerIsDelivered(k: Conn, e: WorkWithClient.Event, other: Reply)
    requires k.trace == []
    ensures var (reply, event) := AnswerOf(e, other);
            Delivered(k.(trace := k.trace + [event]), Some(reply)) && Checked(event) && Rans(k.trace + [event]) == []
  {
    RansOne(k.trace, AnswerOf(e, other).1);
  }

  lemma AnswerKeepsProtocol(s: Sys, l: Label, cfg: Config)
    requires l.AuthServed? && l.c in s.conns && l.c !in s.inbox && Protocol(s.conns[l.c], None, cfg)
    requires s.conns[l.c].auth == WritingQuestion || s.conns[l.c].auth == ReadingReply
    requires Reassembly.Chunking(l.chunks, s.conns[l.c].question)
    ensures var t := ServeQuestion(s, l.c, l.chunks, l.env, l.other);
            t.Some? ==>
              && t.value.inbox.Keys == s.inbox.Keys + {l.c} && t.value.conns.Keys == s.conns.Keys
              && t.value == s.(inbox := s.inbox[l.c := t.value.inbox[l.c]], conns := s.conns[l.c := t.value.conns[l.c]])
              && Protocol(t.value.conns[l.c], Some(t.value.inbox[l.c]), cfg)
              && Rans(t.value.conns[l.c].trace) == Rans(s.conns[l.c].trace) == []
              && |t.value.conns[l.c].trace| == 1
              && Vouches(l, l.c, t.value.conns[l.c].request, t.value.conns[l.c].trace[0], cfg)
  {
    hide OneLine, Bounded, WorkWithClient.RunOn, Question.Forwarded, Vouches, Reassembly.Chunking, Rans, Delivered;
    var k := s.conns[l.c];
    var end := WorkWithClient.RunOn(WorkWithClient.State("", [], true), l.chunks, l.env);
    if end.events != [] {
      NothingDelivered(k);
      AnswerIsDelivered(k, end.events[0], l.other);
      EventIsVouched(k.request, l, cfg);
      hide AnswerOf;
    }
  }

  lemma NothingDelivered(k: Conn)
    requires Delivered(k, None)
    ensures k.trace == [] && Rans(k.trace) == []
  {
  }

  // ----- every step keeps the invariant -----

  lemma InstallKeepsTxns(s: Sys, c: ConnId, r: Result, d: ConnId, schema: DBclient.Schema)
    requires c in s.conns && s.db == Store.Run(StepsOf(s.done), schema) && Effect(s.conns[c], s.db, r, schema)
    requires TxnsOf(s.done, d, schema) == Rans(TraceOf(s, d))
    ensures TxnsOf(Install(s, c, r).done, d, schema) == Rans(TraceOf(Install(s, c, r), d))
  {
    hide Rans, DBclient.Exec, TxnsOf, StepsOf, Store.Run;
    if r.ran.Some? {
      TxnsOfOne(s.done, Work(c, r.ran.value.0, r.ran.value.1), d, schema);
    }
  }

  lemma InstallKeepsDb(s: Sys, c: ConnId, r: Result, schema: DBclient.Schema)
    requires c in s.conns && s.db == Store.Run(StepsOf(s.done), schema) && Effect(s.conns[c], s.db, r, schema)
    ensures Install(s, c, r).db == Store.Run(StepsOf(Install(s, c, r).done), schema)
  {
    hide Rans, DBclient.Exec, StepsOf, Store.Run;
    if r.ran.Some? {
      StepsOfOne(s.done, Work(c, r.ran.value.0, r.ran.value.1));
      Store.RunOne(StepsOf(s.done), r.ran.value.0, r.ran.value.1, schema);
    }
  }

  /** A step of one connection that leaves the others, and the inbox, as they are. */
  lemma InstallKeepsInv(s: Sys, c: ConnId, r: Result, cfg: Config)
    requires Inv(s, cfg) && c in s.conns
    requires Protocol(r.conn, ReplyTo(s, c), cfg) && Effect(s.conns[c], s.db, r, cfg.schema)
    ensures Inv(Install(s, c, r), cfg)
  {
    hide Protocol, Rans, Effect, TxnsOf, StepsOf, Store.Run;
    var t := Install(s, c, r);
    forall d | d in t.conns ensures Protocol(t.conns[d], ReplyTo(t, d), cfg) {
      assert ReplyTo(t, d) == ReplyTo(s, d);
    }
    forall d ensures TxnsOf(t.done, d, cfg.schema) == Rans(TraceOf(t, d)) {
      InstallKeepsTxns(s, c, r, d, cfg.schema);
    }
    InstallKeepsDb(s, c, r, cfg.schema);
  }

  lemma AcceptKeepsInv(s: Sys, c: ConnId, cfg: Config)
    requires Inv(s, cfg) && c !in s.conns
    ensures Inv(s.(conns := s.conns[c := NEW_CONN]), cfg)
  {
    assert Protocol(NEW_CONN, None, cfg);
    hide Protocol, Rans, TxnsOf;
    assert c !in s.inbox;
    var t := s.(conns := s.conns[c := NEW_CONN]);
    forall d | d in t.conns ensures Protocol(t.conns[d], ReplyTo(t, d), cfg) {
      assert ReplyTo(t, d) == ReplyTo(s, d);
    }
    forall d ensures TxnsOf(t.done, d, cfg.schema) == Rans(TraceOf(t, d)) {
      assert TraceOf(t, d) == TraceOf(s, d);
    }
  }

  lemma AuthKeepsInv(s: Sys, c: ConnId, t: Sys, cfg: Config)
    requires Inv(s, cfg) && c in s.conns && c in t.inbox && c in t.conns
    requires t == s.(inbox := s.inbox[c := t.inbox[c]], conns := s.conns[c := t.conns[c]])
    requires Protocol(t.conns[c], Some(t.inbox[c]), cfg) && Rans(t.conns[c].trace) == Rans(s.conns[c].trace)
    ensures Inv(t, cfg)
  {
    hide Protocol, Rans, TxnsOf;
    forall d | d in t.conns ensures Protocol(t.conns[d], ReplyTo(t, d), cfg) {
      if d != c {
        assert ReplyTo(t, d) == ReplyTo(s, d) && t.conns[d] == s.conns[d];
      }
    }
    forall d ensures TxnsOf(t.done, d, cfg.schema) == Rans(TraceOf(t, d)) {
      assert Rans(TraceOf(t, d)) == Rans(TraceOf(s, d));
    }
  }

  lemma InvParts(s: Sys, c: ConnId, cfg: Config)
    requires Inv(s, cfg)
    ensures c in s.conns ==> Protocol(s.conns[c], ReplyTo(s, c), cfg)
    ensures TxnsOf(s.done, c, cfg.schema) == Rans(TraceOf(s, c))
  {
    hide Protocol;
  }

  lemma StepKeepsInv(s: Sys, l: Label, cfg: Config)
    requires Inv(s, cfg) && Step(s, l, cfg).Some?
    ensures Inv(Step(s, l, cfg).value, cfg)
  {
    hide Protocol, Inv, Install, HandlerOf, Possible, ServeQuestion, Reassembly.Chunking, Effect, Continues, Rans, Vouches;
    InvParts(s, l.c, cfg);
    match l
    case Accept(c) => AcceptKeepsInv(s, c, cfg);
    case Handler(c, e) =>
      HandlerKeepsProtocol(s.conns[c], ReplyTo(s, c), s.db, e, cfg);
      InstallKeepsInv(s, c, HandlerOf(s.conns[c], s.db, e, cfg), cfg);
    case AuthServed(c, chunks, env, other) =>
      AnswerKeepsProtocol(s, l, cfg);
      AuthKeepsInv(s, c, ServeQuestion(s, c, chunks, env, other).value, cfg);
  }

  /** In every run, under every interleaving, every connection keeps to the protocol, the database holds what the
      transactions run so far have left, and each trace shows just those of its connection. */
  lemma {:induction false} RunsKeepInv(labels: seq<Label>, cfg: Config)
    requires RunOf(labels, cfg).Some?
    ensures Inv(RunOf(labels, cfg).value, cfg)
  {
    hide Inv, Step;
    if labels == [] {
      InitInv(cfg);
    } else {
      var before := labels[..|labels| - 1];
      RunsKeepInv(before, cfg);
      StepKeepsInv(RunOf(before, cfg).value, labels[|labels| - 1], cfg);
    }
  }

  lemma InitInv(cfg: Config)
    ensures Inv(INIT, cfg)
  {
  }

  // ----- where a check in a trace comes from -----

  lemma InstallOrigin(s: Sys, c: ConnId, r: Result, d: ConnId)
    requires c in s.conns && Continues(s.conns[c], r.conn) && d in Install(s, c, r).conns
    ensures d in s.conns && Continues(s.conns[d], Install(s, c, r).conns[d])
  {
  }

  /** A check at the head of a trace was there before the step, for the same request, or the step has vouched for it. */
  lemma StepOrigin(s: Sys, l: Label, cfg: Config, c: ConnId)
    requires Inv(s, cfg) && Step(s, l, cfg).Some? && c in Step(s, l, cfg).value.conns
    requires TraceOf(Step(s, l, cfg).value, c) != [] && Checked(TraceOf(Step(s, l, cfg).value, c)[0])
    ensures var k := Step(s, l, cfg).value.conns[c];
            || Vouches(l, c, k.request, k.trace[0], cfg)
            || (c in s.conns && s.conns[c].trace != [] && s.conns[c].trace[0] == k.trace[0] && s.conns[c].request == k.request)
  {
    hide Protocol, Inv, Install, HandlerOf, Possible, ServeQuestion, Reassembly.Chunking, Effect, Rans, Vouches;
    InvParts(s, l.c, cfg);
    match l
    case Accept(_) =>
    case Handler(_, e) =>
      HandlerKeepsProtocol(s.conns[l.c], ReplyTo(s, l.c), s.db, e, cfg);
      InstallOrigin(s, l.c, HandlerOf(s.conns[l.c], s.db, e, cfg), c);
    case AuthServed(_, _, _, _) =>
      AnswerKeepsProtocol(s, l, cfg);
  }

  lemma {:induction false} ChecksAreVouched(labels: seq<Label>, cfg: Config, c: ConnId)
    requires RunOf(labels, cfg).Some? && c in RunOf(labels, cfg).value.conns
    requires TraceOf(RunOf(labels, cfg).value, c) != [] && Checked(TraceOf(RunOf(labels, cfg).value, c)[0])
    ensures var k := RunOf(labels, cfg).value.conns[c];
            exists j :: 0 <= j < |labels| && Vouches(labels[j], c, k.request, k.trace[0], cfg)
  {
    hide Inv, Step, Vouches, Checked;
    if labels != [] {
      var before, l := labels[..|labels| - 1], labels[|labels| - 1];
      var s, k := RunOf(before, cfg).value, RunOf(labels, cfg).value.conns[c];
      RunsKeepInv(before, cfg);
      StepOrigin(s, l, cfg, c);
      if !Vouches(l, c, k.request, k.trace[0], cfg) {
        ChecksAreVouched(before, cfg, c);
        var j :| 0 <= j < |before| && Vouches(before[j], c, k.request, k.trace[0], cfg);
        assert labels[j] == before[j];
      }
    }
  }

  // ----- what the protocol means -----

  /** The trace of a connection at any point of any run is that of an exchange that has ended, or a part of it. */
  lemma TraceIsEnded(k: Conn, reply: Option<Reply>, cfg: Config)
    requires Protocol(k, reply, cfg)
    ensures Ended(k.request, k.trace, cfg)
  {
    hide Bounded, Question.Forwarded;
  }

  lemma EndedShape(r: Request, trace: seq<Event>, cfg: Config)
    requires Ended(r, trace, cfg)
    ensures |trace| <= 4
    ensures forall i :: 0 <= i < |trace| ==>
              && (trace[i].Responded? ==> i == |trace| - 1) && (trace[i].Called? ==> i == 1) && (trace[i].Ran? ==> i == 2)
    ensures |trace| == 4 ==>
              && Checked(trace[0]) && !trace[0].Refuted? && trace[2].Ran? && trace[3].Responded?
              && trace[1] == Called(trace[2].user) && Told(trace[0], trace[2].user) && !Reserved(trace[2].user)
              && Mutating(r) && Names(r, trace[2].user, trace[2].op, cfg)
              && (trace[3].status == OK <==> trace[2].answer == DBclient.Ok)
    ensures |trace| > 1 && trace[1].Called? && Reserved(trace[1].id) ==>
              |trace| < 4 && forall i :: 0 <= i < |trace| && trace[i].Responded? ==> trace[i].status == ReservedStatus(trace[1].id)
    ensures |trace| < 4 ==> forall i :: 0 <= i < |trace| ==> !trace[i].Ran? && (trace[i].Responded? && Mutating(r) ==> trace[i].status != OK)
    ensures trace != [] && trace[0].Refuted? ==> forall i :: 0 <= i < |trace| && trace[i].Responded? ==> trace[i].status == UNAUTHORIZED
  {
    hide Contains, Names;
    if |trace| > 2 {
      assert trace[2..][0] == trace[2];
      assert |trace| > 3 ==> trace[2..][1] == trace[3];
    }
  }

  lemma {:induction false} NoRans(trace: seq<Event>)
    requires forall i :: 0 <= i < |trace| ==> !trace[i].Ran?
    ensures Rans(trace) == []
  {
    if trace != [] {
      NoRans(trace[..|trace| - 1]);
    }
  }

  lemma RansOfFour(trace: seq<Event>)
    requires |trace| == 4 && !trace[0].Ran? && !trace[1].Ran? && trace[2].Ran? && !trace[3].Ran?
    ensures Rans(trace) == [(trace[2].op, trace[2].answer)]
  {
    hide Rans;
    NoRans(trace[..2]);
    RansOne(trace[..2], trace[2]);
    RansOne(trace[..3], trace[3]);
    assert trace[..3] == trace[..2] + [trace[2]] && trace == trace[..3] + [trace[3]];
  }

  lemma EndedRans(r: Request, trace: seq<Event>, cfg: Config)
    requires Ended(r, trace, cfg)
    ensures |trace| <= 4 && (|trace| == 4 ==> trace[2].Ran?)
    ensures Rans(trace) == if |trace| == 4 then [(trace[2].op, trace[2].answer)] else []
  {
    hide Ended, Rans, Mutating, Names, Told;
    EndedShape(r, trace, cfg);
    if |trace| == 4 {
      RansOfFour(trace);
    } else {
      NoRans(trace);
    }
  }

  predicate TxnAt(done: seq<Work>, n: int, c: ConnId) {
    0 <= n < |done| && done[n].conn == c
  }

  /** When a connection shows at most one transaction, at most one was run for it, with the answer it shows. */
  lemma {:induction false} OneTxn(done: seq<Work>, c: ConnId, schema: DBclient.Schema)
    requires |TxnsOf(done, c, schema)| <= 1
    ensures forall n :: TxnAt(done, n, c) ==> TxnsOf(done, c, schema) == [(done[n].op, AnswerTo(done[..n], done[n], schema))]
    ensures forall m, n :: TxnAt(done, m, c) && TxnAt(done, n, c) ==> m == n
    ensures TxnsOf(done, c, schema) != [] ==> exists n :: TxnAt(done, n, c)
  {
    hide AnswerTo;
    if done != [] {
      var before, w := done[..|done| - 1], done[|done| - 1];
      OneTxn(before, c, schema);
      forall n | TxnAt(done, n, c) ensures n < |before| ==> TxnAt(before, n, c) && before[..n] == done[..n] {
      }
      if w.conn == c {
        assert before == done[..|done| - 1] && TxnAt(done, |done| - 1, c);
      } else {
        forall n | TxnAt(before, n, c) ensures TxnAt(done, n, c) {
        }
      }
    }
  }

  /** All that the invariant says of one connection. */
  lemma ConnOfRun(labels: seq<Label>, cfg: Config, c: ConnId)
    requires RunOf(labels, cfg).Some?
    ensures var s := RunOf(labels, cfg).value;
            && (c !in s.conns ==> forall n :: !TxnAt(s.done, n, c))
            && (c in s.conns ==>
                  var k := s.conns[c];
                  && Ended(k.request, k.trace, cfg)
                  && (forall m, n :: TxnAt(s.done, m, c) && TxnAt(s.done, n, c) ==> m == n)
                  && (forall n :: TxnAt(s.done, n, c) ==>
                        |k.trace| == 4 && k.trace[2].Ran? && k.trace[2].op == s.done[n].op
                        && k.trace[2].answer == AnswerTo(s.done[..n], s.done[n], cfg.schema))
                  && (|k.trace| == 4 ==> exists n :: TxnAt(s.done, n, c)))
  {
    hide Inv, RunOf, Protocol, Ended, Rans, TxnsOf, AnswerTo;
    RunsKeepInv(labels, cfg);
    var s := RunOf(labels, cfg).value;
    InvParts(s, c, cfg);
    if c in s.conns {
      TraceIsEnded(s.conns[c], ReplyTo(s, c), cfg);
      EndedRans(s.conns[c].request, s.conns[c].trace, cfg);
    } else {
      NoRans([]);
    }
    OneTxn(s.done, c, cfg.schema);
  }

  /** Over every interleaving: a connection starts at most one response, calls its callback at most once and runs at most
      one transaction, and that only for a POST; when the callback is told of a refused token, a bad request or an internal
      error, it runs none, and responds with that status if at all. */
  lemma SingleResponse(labels: seq<Label>, cfg: Config, c: ConnId)
    requires RunOf(labels, cfg).Some? && c in RunOf(labels, cfg).value.conns
    ensures var s, k := RunOf(labels, cfg).value, RunOf(labels, cfg).value.conns[c];
            && (forall i, j :: 0 <= i < |k.trace| && 0 <= j < |k.trace| && k.trace[i].Responded? && k.trace[j].Responded? ==> i == j)
            && (forall i, j :: 0 <= i < |k.trace| && 0 <= j < |k.trace| && k.trace[i].Called? && k.trace[j].Called? ==> i == j)
            && (forall m, n :: TxnAt(s.done, m, c) && TxnAt(s.done, n, c) ==> m == n)
            && (forall n :: TxnAt(s.done, n, c) ==> k.request.verb == Post && k.trace != [] && !k.trace[0].Refuted?)
            && (k.trace != [] && k.trace[0].Refuted? ==>
                  forall i :: 0 <= i < |k.trace| && k.trace[i].Responded? ==> k.trace[i].status == UNAUTHORIZED)
            && (forall i :: 0 <= i < |k.trace| && k.trace[i].Called?
                            && k.trace[i].id in {"unauthorized", "bad_request", "internal_server_error"} ==>
                  && (forall n :: !TxnAt(s.done, n, c))
                  && forall j :: 0 <= j < |k.trace| && k.trace[j].Responded? ==>
                       k.trace[j].status
                       == if k.trace[i].id == "unauthorized" then 401 else if k.trace[i].id == "bad_request" then 400 else 500)
  {
    hide RunOf, Ended, Mutating, AnswerTo;
    ConnOfRun(labels, cfg, c);
    var k := RunOf(labels, cfg).value.conns[c];
    EndedShape(k.request, k.trace, cfg);
    if |k.trace| == 4 {
      MutatingIsPost(k.request);
    }
  }

  lemma MutatingIsPost(r: Request)
    requires Mutating(r)
    ensures r.verb == Post
  {
    hide Contains;
  }

  /** The transaction is the one that the route names, run for the user that check `e` has told the callback of. */
  ghost predicate RunFor(r: Request, user: string, op: DBclient.Op, e: Event, cfg: Config) {
    Told(e, user) && !Reserved(user) && Names(r, user, op, cfg) && op.user == cfg.toId(user)
  }

  lemma NamesHisOwn(r: Request, user: string, op: DBclient.Op, cfg: Config)
    requires Names(r, user, op, cfg)
    ensures op.user == cfg.toId(user)
  {
    hide Bounded, Contains;
  }

  /** Every question of the connection reaches the auth server with its method in the first piece. */
  ghost predicate Unbroken(labels: seq<Label>, c: ConnId) {
    forall j :: 0 <= j < |labels| && labels[j].AuthServed? && labels[j].c == c ==> labels[j].chunks != [] && |labels[j].chunks[0]| >= 7
  }

  /** Over every interleaving of client connections and auth-server threads: a transaction is the one its route names, and
      changes rows as the user that the auth server's check returned to that connection, of the token that its question was
      read for; which is the request's own token exactly if its `Bearer ` was not thrown away. */
  lemma Provenance(labels: seq<Label>, cfg: Config, n: nat)
    requires RunOf(labels, cfg).Some? && n < |RunOf(labels, cfg).value.done|
    ensures var s, w := RunOf(labels, cfg).value, RunOf(labels, cfg).value.done[n];
            && w.conn in s.conns && s.conns[w.conn].trace != []
            && exists user, j :: 0 <= j < |labels| && RunFor(s.conns[w.conn].request, user, w.op, s.conns[w.conn].trace[0], cfg)
                                 && Vouches(labels[j], w.conn, s.conns[w.conn].request, s.conns[w.conn].trace[0], cfg)
  {
    hide RunOf, Ended, Mutating, AnswerTo, Vouches, Names;
    var s, w := RunOf(labels, cfg).value, RunOf(labels, cfg).value.done[n];
    ConnOfRun(labels, cfg, w.conn);
    assert TxnAt(s.done, n, w.conn);
    var k := s.conns[w.conn];
    EndedShape(k.request, k.trace, cfg);
    ChecksAreVouched(labels, cfg, w.conn);
    var j :| 0 <= j < |labels| && Vouches(labels[j], w.conn, k.request, k.trace[0], cfg);
    NamesHisOwn(k.request, k.trace[2].user, w.op, cfg);
    assert RunFor(k.request, k.trace[2].user, w.op, k.trace[0], cfg);
  }

  /** The auth server has checked, for this connection, the very token in the request, which returned this user. */
  ghost predicate OwnToken(labels: seq<Label>, c: ConnId, r: Request, user: string) {
    exists token, j ::
      && 0 <= j < |labels| && labels[j].AuthServed? && labels[j].c == c
      && Question.BearerToken(r.authorization) == Some(token) && labels[j].env.verify(token) == Some(user)
  }

  lemma VouchesOwnToken(labels: seq<Label>, c: ConnId, r: Request, user: string, e: Event, j: nat, cfg: Config)
    requires j < |labels| && Vouches(labels[j], c, r, e, cfg) && Told(e, user) && !Reserved(user) && Unbroken(labels, c)
    ensures OwnToken(labels, c, r, user)
  {
    hide Reassembly.Chunking, Question.BearerToken, Question.BearerKept, Question.Forwarded;
    assert labels[j].env.verify(e.token) == Some(user);
  }

  /** If its question's method came in one piece, a transaction is run for the user that the check of the very token in
      its request returned. */
  lemma ProvenanceOfUnbroken(labels: seq<Label>, cfg: Config, n: nat)
    requires RunOf(labels, cfg).Some? && n < |RunOf(labels, cfg).value.done|
    requires Unbroken(labels, RunOf(labels, cfg).value.done[n].conn)
    ensures var s, w := RunOf(labels, cfg).value, RunOf(labels, cfg).value.done[n];
            && w.conn in s.conns
            && exists user :: OwnToken(labels, w.conn, s.conns[w.conn].request, user)
                              && !Reserved(user) && Names(s.conns[w.conn].request, user, w.op, cfg)
                              && w.op.user == cfg.toId(user)
  {
    hide RunOf, Names, Vouches, OwnToken, Unbroken;
    Provenance(labels, cfg, n);
    var s, w := RunOf(labels, cfg).value, RunOf(labels, cfg).value.done[n];
    var k := s.conns[w.conn];
    var user, j :| 0 <= j < |labels| && RunFor(k.request, user, w.op, k.trace[0], cfg)
                   && Vouches(labels[j], w.conn, k.request, k.trace[0], cfg);
    VouchesOwnToken(labels, w.conn, k.request, user, k.trace[0], j, cfg);
  }

  /** The database committed the transaction. */
  predicate CommittedAt(before: seq<Work>, w: Work, schema: DBclient.Schema) {
    Store.Committed(Store.Run(StepsOf(before), schema), w.op, w.fault, schema)
  }

  lemma TxnOutcome(done: seq<Work>, n: nat, schema: DBclient.Schema)
    requires n < |done|
    ensures AnswerTo(done[..n], done[n], schema) == DBclient.Ok
            <==> CommittedAt(done[..n], done[n], schema) && done[n].fault != DBclient.CommitInDoubt
    ensures !CommittedAt(done[..n], done[n], schema) ==>
              Store.Run(StepsOf(done[..n + 1]), schema).tables == Store.Run(StepsOf(done[..n]), schema).tables
  {
    hide Store.Run, StepsOf, DBclient.Exec, Store.Committed;
    var w := done[n];
    assert done[..n + 1] == done[..n] + [w];
    StepsOfOne(done[..n], w);
    Store.RunOne(StepsOf(done[..n]), w.op, w.fault, schema);
    Store.OkIsCommitted(Store.Run(StepsOf(done[..n]), schema), w.op, w.fault, schema);
  }

  /** A POST to a mutating route is answered 200 exactly when a transaction was run for it on the database, at its place
      among all transactions of the run, and committed, and its commit was not in doubt; and one that is not answered 200
      has left the committed tables as they were, unless its commit was in doubt. */
  lemma Acknowledgement(labels: seq<Label>, cfg: Config, c: ConnId, i: nat)
    requires RunOf(labels, cfg).Some? && c in RunOf(labels, cfg).value.conns
    requires i < |RunOf(labels, cfg).value.conns[c].trace| && RunOf(labels, cfg).value.conns[c].trace[i].Responded?
    requires Mutating(RunOf(labels, cfg).value.conns[c].request)
    ensures var s := RunOf(labels, cfg).value;
            && s.db == Store.Run(StepsOf(s.done), cfg.schema)
            && (s.conns[c].trace[i].status == OK
                <==> exists n :: TxnAt(s.done, n, c) && CommittedAt(s.done[..n], s.done[n], cfg.schema)
                                 && s.done[n].fault != DBclient.CommitInDoubt)
            && (s.conns[c].trace[i].status != OK ==>
                  forall n :: TxnAt(s.done, n, c) && s.done[n].fault != DBclient.CommitInDoubt ==>
                    Store.Run(StepsOf(s.done[..n + 1]), cfg.schema).tables == Store.Run(StepsOf(s.done[..n]), cfg.schema).tables)
  {
    hide RunOf, Ended, Mutating, AnswerTo, Protocol, CommittedAt, Store.Run, StepsOf, Told;
    ConnOfRun(labels, cfg, c);
    RunsKeepInv(labels, cfg);
    var s := RunOf(labels, cfg).value;
    EndedShape(s.conns[c].request, s.conns[c].trace, cfg);
    forall n | TxnAt(s.done, n, c)
      ensures AnswerTo(s.done[..n], s.done[n], cfg.schema) == DBclient.Ok
              <==> CommittedAt(s.done[..n], s.done[n], cfg.schema) && s.done[n].fault != DBclient.CommitInDoubt
      ensures !CommittedAt(s.done[..n], s.done[n], cfg.schema) ==>
                Store.Run(StepsOf(s.done[..n + 1]), cfg.schema).tables == Store.Run(StepsOf(s.done[..n]), cfg.schema).tables
    {
      TxnOutcome(s.done, n, cfg.schema);
    }
  }

  // ----- what changes the tables -----

  lemma CallbackEffect(k: Conn, db: DBclient.Db, e: Completion, cfg: Config)
    requires Possible(k, db, e, cfg) && HandlerOf(k, db, e, cfg).ran.Some?
    ensures e.ReplyRead? && e.reply != NoId
    ensures var r := HandlerOf(k, db, e, cfg);
            var (op, fault) := r.ran.value;
            var answer := DBclient.Exec(db, op, fault, cfg.schema).answer;
            && r.db == DBclient.Exec(db, op, fault, cfg.schema).db
            && r.conn.request == k.request
            && r.conn.trace == k.trace + [Called(IdOf(e.reply)), Ran(IdOf(e.reply), op, answer),
                                          Responded(if answer == DBclient.Ok then OK else INTERNAL_SERVER_ERROR, NoBody)]
  {
    hide Bounded, ActionOf, Contains, DBclient.Exec, Question.Forwarded;
    var t := HandlerOf(k, db, e, cfg).conn.trace;
    assert t == k.trace + [t[|k.trace|], t[|k.trace| + 1], t[|k.trace| + 2]];
  }

  lemma NoCallbackNoChange(k: Conn, db: DBclient.Db, e: Completion, cfg: Config)
    requires Possible(k, db, e, cfg) && HandlerOf(k, db, e, cfg).ran.None?
    ensures HandlerOf(k, db, e, cfg).db == db
  {
    hide Bounded, ActionOf, Contains, DBclient.Exec, Question.Forwarded;
  }

  /** The step runs transaction `op` for `user` and commits it, and starts the answer 200; or 500, if the commit was in
      doubt. */
  ghost predicate Commits(s: Sys, l: Label, t: Sys, user: string, op: DBclient.Op, cfg: Config) {
    && l.Handler? && l.e.ReplyRead? && l.c in s.conns && l.c in t.conns
    && exists fault ::
         && t.db == DBclient.Exec(s.db, op, fault, cfg.schema).db
         && Store.Committed(s.db, op, fault, cfg.schema)
         && t.done == s.done + [Work(l.c, op, fault)]
         && t.conns[l.c].request == s.conns[l.c].request
         && t.conns[l.c].trace
            == s.conns[l.c].trace + [Called(user), Ran(user, op, DBclient.CommitAnswer(fault)),
                                     Responded(if fault == DBclient.CommitInDoubt then INTERNAL_SERVER_ERROR else OK, NoBody)]
  }

  /** The committed tables change only in a step that commits a transaction and starts its 200 answer, or a 500 answer if
      the commit was in doubt; the step adds just that transaction. */
  lemma TablesChangeOnlyByCommits(s: Sys, l: Label, cfg: Config)
    requires Step(s, l, cfg).Some? && Step(s, l, cfg).value.db.tables != s.db.tables
    ensures exists user, op :: Commits(s, l, Step(s, l, cfg).value, user, op, cfg)
  {
    hide HandlerOf, Possible, DBclient.Exec, Reassembly.Chunking, WorkWithClient.RunOn, Store.Committed;
    var t := Step(s, l, cfg).value;
    assert l.Handler? && l.c in s.conns;
    var r := HandlerOf(s.conns[l.c], s.db, l.e, cfg);
    assert t == Install(s, l.c, r);
    assert r.ran.Some? by {
      if r.ran.None? {
        NoCallbackNoChange(s.conns[l.c], s.db, l.e, cfg);
      }
    }
    CallbackEffect(s.conns[l.c], s.db, l.e, cfg);
    var (op, fault) := r.ran.value;
    Store.OkIsCommitted(s.db, op, fault, cfg.schema);
    CommittedAnswer(s.db, op, fault, cfg.schema);
    assert Commits(s, l, t, IdOf(l.e.reply), op, cfg);
  }

  lemma CommittedAnswer(db: DBclient.Db, op: DBclient.Op, fault: DBclient.Fault, schema: DBclient.Schema)
    requires Store.Committed(db, op, fault, schema)
    ensures DBclient.Exec(db, op, fault, schema).answer == DBclient.CommitAnswer(fault)
  {
  }

  /** A post disappears only when an auth-server reply is read by a connection whose request names its deletion, for the user
      that a check returned to that connection, who is its author. If the question's
      method came in one piece, the check was that of the request's own token. */
  lemma PostsGoByTheirAuthors(labels: seq<Label>, l: Label, cfg: Config, p: DBclient.PostId)
    requires RunOf(labels, cfg).Some? && Step(RunOf(labels, cfg).value, l, cfg).Some?
    requires p in RunOf(labels, cfg).value.db.tables.posts
    requires p !in Step(RunOf(labels, cfg).value, l, cfg).value.db.tables.posts
    ensures var s, t := RunOf(labels, cfg).value, Step(RunOf(labels, cfg).value, l, cfg).value;
            var op := DBclient.Delete(Some(p), Some(s.db.tables.posts[p].author));
            && l.c in s.conns && s.conns[l.c].trace != []
            && exists user, j ::
                 && Commits(s, l, t, user, op, cfg) && cfg.toId(user) == Some(s.db.tables.posts[p].author)
                 && RunFor(s.conns[l.c].request, user, op, s.conns[l.c].trace[0], cfg)
                 && 0 <= j < |labels| && Vouches(labels[j], l.c, s.conns[l.c].request, s.conns[l.c].trace[0], cfg)
                 && (Unbroken(labels, l.c) ==> OwnToken(labels, l.c, s.conns[l.c].request, user))
  {
    hide RunOf, Step, Names, Vouches, DBclient.Exec, RunFor, Ended, Protocol, Unbroken, OwnToken;
    var s, t := RunOf(labels, cfg).value, Step(RunOf(labels, cfg).value, l, cfg).value;
    TablesChangeOnlyByCommits(s, l, cfg);
    var user, op :| Commits(s, l, t, user, op, cfg);
    CommitDeletes(s, l, t, user, op, cfg, p);
    RunsKeepInv(labels, cfg);
    CommitIsVouched(s, l, t, user, op, cfg);
    ChecksAreVouched(labels, cfg, l.c);
    var k := s.conns[l.c];
    RunForHisOwn(k.request, user, op, k.trace[0], cfg);
    var j :| 0 <= j < |labels| && Vouches(labels[j], l.c, k.request, k.trace[0], cfg);
    if Unbroken(labels, l.c) {
      VouchesOwnToken(labels, l.c, k.request, user, k.trace[0], j, cfg);
    }
  }

  lemma CommitDeletes(s: Sys, l: Label, t: Sys, user: string, op: DBclient.Op, cfg: Config, p: DBclient.PostId)
    requires Commits(s, l, t, user, op, cfg) && p in s.db.tables.posts && p !in t.db.tables.posts
    ensures op == DBclient.Delete(Some(p), Some(s.db.tables.posts[p].author))
  {
    hide DBclient.Exec;
    var fault :| t.db == DBclient.Exec(s.db, op, fault, cfg.schema).db;
    Store.OnlyAuthorsDelete(s.db, op, fault, cfg.schema, p);
  }

  lemma CommitIsVouched(s: Sys, l: Label, t: Sys, user: string, op: DBclient.Op, cfg: Config)
    requires Inv(s, cfg) && Step(s, l, cfg) == Some(t) && Commits(s, l, t, user, op, cfg)
    ensures s.conns[l.c].trace != [] && Checked(s.conns[l.c].trace[0])
    ensures RunFor(s.conns[l.c].request, user, op, s.conns[l.c].trace[0], cfg)
  {
    hide Step, Inv, Names, DBclient.Exec, Ended, Protocol, Mutating;
    StepKeepsInv(s, l, cfg);
    InvParts(t, l.c, cfg);
    var k, k' := s.conns[l.c], t.conns[l.c];
    TraceIsEnded(k', ReplyTo(t, l.c), cfg);
    EndedShape(k'.request, k'.trace, cfg);
    assert k'.trace[|k.trace| + 1].Ran? && k'.trace[|k.trace| + 1].user == user && k'.trace[|k.trace| + 1].op == op;
    assert |k.trace| == 1 && k'.trace[0] == k.trace[0];
    NamesHisOwn(k.request, user, op, cfg);
  }

  lemma RunForHisOwn(r: Request, user: string, op: DBclient.Op, e: Event, cfg: Config)
    requires RunFor(r, user, op, e, cfg)
    ensures op.user == cfg.toId(user) && Told(e, user) && !Reserved(user)
  {
    hide Names;
  }

  // ----- what a list shows -----

  /** The handler has answered with the rows of the list that the route names. */
  lemma ListCallback(k: Conn, db: DBclient.Db, e: Completion, cfg: Config, rows: seq<Feed.Row>)
    requires Possible(k, db, e, cfg) && HandlerOf(k, db, e, cfg).conn.trace != k.trace
    requires var t := HandlerOf(k, db, e, cfg).conn.trace; t != [] && t[|t| - 1] == Responded(OK, Json(rows))
    ensures e.ReplyRead? && !e.error && e.reply != NoId && !Reserved(IdOf(e.reply))
    ensures exists l ::
              && LookupOf(k.request.target, IdOf(e.reply), cfg) == List(Some(l)) && cfg.toId(IdOf(e.reply)) == Some(l.viewer)
              && Feed.Ordered(db.tables, Feed.Selected(db.tables, e.luck.world, l.viewer, l.author), e.luck.order)
              && rows == Feed.RowsOf(db.tables, e.luck.world, l, e.luck.order)
  {
    hide Bounded, ActionOf, LookupOf, Feed.Ordered, Feed.Selected, DBclient.Exec, Question.Forwarded;
    if e.ReplyRead? && !e.error && e.reply != NoId {
      var id := IdOf(e.reply);
      ViewerIsUser(k.request.target, id, cfg);
      hide IdOf;
    }
  }

  lemma ViewerIsUser(target: string, id: string, cfg: Config)
    ensures match LookupOf(target, id, cfg)
            case List(Some(l)) => cfg.toId(id) == Some(l.viewer)
            case _ => true
  {
    hide Contains, QueryArgs;
  }

  /** The rows are the page that the route names, for the user that check `e` has told the callback of: of just the posts
      that the history shows to that user, the latest first; and each row shows the history. */
  ghost predicate Shows(rows: seq<Feed.Row>, r: Request, user: string, e: Event, h: Store.History, luck: Luck, cfg: Config) {
    && Told(e, user) && !Reserved(user)
    && exists l ::
         && LookupOf(r.target, user, cfg) == List(Some(l)) && cfg.toId(user) == Some(l.viewer)
         && Feed.ListsHistory(luck.order, h, luck.world, l.viewer, l.author)
         && Feed.IsPage(rows, l, luck.order)
         && forall i :: 0 <= i < |rows| ==> Feed.ShowsHistory(rows[i], h, luck.world, l.viewer)
  }

  /** A list that a client is sent is the page its route asks for, of just the posts that the history of all transactions
      committed so far in the run shows to the user that a check returned to the connection; and every row shows that
      history. */
  lemma ListsShowHistory(labels: seq<Label>, step: Label, cfg: Config, c: ConnId, rows: seq<Feed.Row>)
    requires RunOf(labels, cfg).Some? && Step(RunOf(labels, cfg).value, step, cfg).Some? && cfg.schema == DBclient.Schema(true)
    requires var s, t := RunOf(labels, cfg).value, Step(RunOf(labels, cfg).value, step, cfg).value;
             && TraceOf(t, c) != TraceOf(s, c) && TraceOf(t, c) != []
             && TraceOf(t, c)[|TraceOf(t, c)| - 1] == Responded(OK, Json(rows))
    ensures step.Handler? && step.e.ReplyRead? && step.c == c
    ensures var s := RunOf(labels, cfg).value;
            && c in s.conns && s.conns[c].trace != []
            && exists user, j ::
                 && Shows(rows, s.conns[c].request, user, s.conns[c].trace[0], Store.HistoryOf(StepsOf(s.done), cfg.schema),
                          step.e.luck, cfg)
                 && 0 <= j < |labels| && Vouches(labels[j], c, s.conns[c].request, s.conns[c].trace[0], cfg)
                 && (Unbroken(labels, c) ==> OwnToken(labels, c, s.conns[c].request, user))
  {
    hide RunOf, Step, Vouches, Unbroken, OwnToken, Shows, Inv;
    var s := RunOf(labels, cfg).value;
    RunsKeepInv(labels, cfg);
    ListStep(s, step, cfg, c, rows);
    var user := IdOf(step.e.reply);
    ChecksAreVouched(labels, cfg, c);
    var k := s.conns[c];
    var j :| 0 <= j < |labels| && Vouches(labels[j], c, k.request, k.trace[0], cfg);
    ShowsTo(rows, k.request, user, k.trace[0], Store.HistoryOf(StepsOf(s.done), cfg.schema), step.e.luck, cfg);
    if Unbroken(labels, c) {
      VouchesOwnToken(labels, c, k.request, user, k.trace[0], j, cfg);
    }
  }

  lemma ShowsTo(rows: seq<Feed.Row>, r: Request, user: string, e: Event, h: Store.History, luck: Luck, cfg: Config)
    requires Shows(rows, r, user, e, h, luck, cfg)
    ensures Told(e, user) && !Reserved(user)
  {
    hide Feed.ListsHistory, Feed.IsPage, LookupOf;
  }

  lemma ListStep(s: Sys, step: Label, cfg: Config, c: ConnId, rows: seq<Feed.Row>)
    requires Inv(s, cfg) && Step(s, step, cfg).Some? && cfg.schema == DBclient.Schema(true)
    requires var t := Step(s, step, cfg).value;
             TraceOf(t, c) != TraceOf(s, c) && TraceOf(t, c) != [] && TraceOf(t, c)[|TraceOf(t, c)| - 1] == Responded(OK, Json(rows))
    ensures step.Handler? && step.e.ReplyRead? && step.c == c && step.e.reply != NoId
    ensures c in s.conns && s.conns[c].trace != [] && Checked(s.conns[c].trace[0])
    ensures Shows(rows, s.conns[c].request, IdOf(step.e.reply), s.conns[c].trace[0], Store.HistoryOf(StepsOf(s.done), cfg.schema),
                  step.e.luck, cfg)
  {
    hide Protocol, HandlerOf, Possible, Reassembly.Chunking, WorkWithClient.RunOn, LookupOf, Feed.Ordered, Feed.Selected, TxnsOf, Rans,
         Feed.ListsHistory, Feed.IsPage, Feed.ShowsHistory, Feed.RowsOf;
    var k := s.conns[c];
    ListCallback(k, s.db, step.e, cfg, rows);
    InvParts(s, c, cfg);
    TellsReply(k, ReplyTo(s, c), s.db, step.e, cfg);
    var l :| && LookupOf(k.request.target, IdOf(step.e.reply), cfg) == List(Some(l)) && cfg.toId(IdOf(step.e.reply)) == Some(l.viewer)
             && Feed.Ordered(s.db.tables, Feed.Selected(s.db.tables, step.e.luck.world, l.viewer, l.author), step.e.luck.order)
             && rows == Feed.RowsOf(s.db.tables, step.e.luck.world, l, step.e.luck.order);
    Feed.RowsShowHistory(StepsOf(s.done), step.e.luck.world, l, step.e.luck.order);
  }

  lemma TellsReply(k: Conn, reply: Option<Reply>, db: DBclient.Db, e: Completion, cfg: Config)
    requires Protocol(k, reply, cfg) && Possible(k, db, e, cfg) && e.ReplyRead? && !e.error && Arrives(e, reply) && e.reply != NoId
    ensures k.trace != [] && Checked(k.trace[0]) && Told(k.trace[0], IdOf(e.reply))
  {
    hide Bounded, Question.Forwarded, LookupOf;
    ToldByReply(k, e.reply);
  }

  /** In every run of the two servers, where likes must refer to posts: the tables are sound, they mean the history of
      the committed transactions, and every stored count is the number of users with an odd number of clicks. */
  lemma ServerTables(labels: seq<Label>, cfg: Config)
    requires RunOf(labels, cfg).Some? && cfg.schema == DBclient.Schema(true)
    ensures var s := RunOf(labels, cfg).value;
            var h := Store.HistoryOf(StepsOf(s.done), cfg.schema);
            && DBclient.Sound(s.db)
            && Store.Means(s.db.tables, h)
            && forall p :: p in s.db.tables.posts ==>
                 DBclient.Coalesce(s.db.tables.posts[p].likeCount) == |Store.Fans(h, p)|
  {
    hide RunOf, Store.Run, Store.HistoryOf, Store.Means, DBclient.Sound, Store.Fans, Protocol;
    RunsKeepInv(labels, cfg);
    var s := RunOf(labels, cfg).value;
    Store.RunsAreSound(StepsOf(s.done));
    Store.RunsMeanTheirHistory(StepsOf(s.done));
    forall p | p in s.db.tables.posts
      ensures DBclient.Coalesce(s.db.tables.posts[p].likeCount) == |Store.Fans(Store.HistoryOf(StepsOf(s.done), cfg.schema), p)|
    {
      Store.CountIsNumberOfFans(StepsOf(s.done), p);
    }
  }
}
