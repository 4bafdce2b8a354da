/** Whole runs of both servers in which nothing fails, from a request to its answer: what each route does, end to end. */
module Runs {
  import opened Text
  import opened TcpConnection
  import DBclient
  import Store
  import Feed
  import FormRequest
  import EndToEnd
  import Question = ForwardedRequest
  import WorkWithClient
  import Reassembly
  import Server

  // ----- a run in which nothing fails -----

  /** The steps of one request, from the connection to the answer. */
  function Smoothly(c: Server.ConnId, r: Request, chunks: seq<string>, env: WorkWithClient.Env, user: string, luck: Luck): seq<Server.Label> {
    Opening(c, r) + [Server.AuthServed(c, chunks, env, OtherStatus), Server.Handler(c, ReplyRead(false, Id(user), luck))]
  }

  /** Up to the question on its way. */
  function Opening(c: Server.ConnId, r: Request): seq<Server.Label> {
    [Server.Accept(c), Server.Handler(c, RequestRead(false, r, true)), Server.Handler(c, Resolved(false)),
     Server.Handler(c, Connected(false)), Server.Handler(c, QuestionWritten(false))]
  }

  ghost function Steps(s: Server.Sys, labels: seq<Server.Label>, cfg: Config): Option<Server.Sys>
    decreases |labels|
  {
    if labels == [] then Some(s)
    else match Server.Step(s, labels[0], cfg)
         case None => None
         case Some(t) => Steps(t, labels[1..], cfg)
  }

  lemma NoSteps(s: Server.Sys, cfg: Config)
    ensures Steps(s, [], cfg) == Some(s)
  {
  }

  lemma StepsCons(s: Server.Sys, l: Server.Label, rest: seq<Server.Label>, cfg: Config, t: Server.Sys)
    requires Server.Step(s, l, cfg) == Some(t)
    ensures Steps(s, [l] + rest, cfg) == Steps(t, rest, cfg)
  {
    hide Server.Step;
    assert ([l] + rest)[1..] == rest;
  }

  /** Such steps continue a run. */
  lemma {:induction false} StepsExtendRuns(before: seq<Server.Label>, labels: seq<Server.Label>, cfg: Config)
    requires Server.RunOf(before, cfg).Some?
    ensures Server.RunOf(before + labels, cfg) == Steps(Server.RunOf(before, cfg).value, labels, cfg)
    decreases |labels|
  {
    hide Server.Step;
    if labels == [] {
      assert before + labels == before;
    } else {
      var next := before + [labels[0]];
      assert next[..|before|] == before && before + labels == next + labels[1..];
      if Server.RunOf(next, cfg).Some? {
        StepsExtendRuns(next, labels[1..], cfg);
      } else {
        NoRunContinues(next, labels[1..], cfg);
      }
    }
  }

  lemma {:induction false} NoRunContinues(before: seq<Server.Label>, labels: seq<Server.Label>, cfg: Config)
    requires Server.RunOf(before, cfg).None?
    ensures Server.RunOf(before + labels, cfg).None?
    decreases |labels|
  {
    hide Server.Step;
    if labels == [] {
      assert before + labels == before;
    } else {
      var shorter := labels[..|labels| - 1];
      NoRunContinues(before, shorter, cfg);
      assert (before + labels)[..|before + labels| - 1] == before + shorter;
    }
  }

  /** The system with one connection replaced. */
  function With(s: Server.Sys, c: Server.ConnId, k: Conn): Server.Sys {
    s.(conns := s.conns[c := k])
  }

  lemma Replaced(s: Server.Sys, c: Server.ConnId, k: Conn, k': Conn)
    requires !s.halted
    ensures Server.Install(With(s, c, k), c, Plain(k', s.db)) == With(s, c, k')
  {
    assert s.conns[c := k][c := k'] == s.conns[c := k'];
  }

  /** A handler that changes only its connection. */
  lemma HandlerStep(s: Server.Sys, c: Server.ConnId, k: Conn, e: Completion, k': Conn, rest: seq<Server.Label>, cfg: Config)
    requires !s.halted && Possible(k, s.db, e, cfg) && !e.ReplyRead? && HandlerOf(k, s.db, e, cfg) == Plain(k', s.db)
    ensures Steps(With(s, c, k), [Server.Handler(c, e)] + rest, cfg) == Steps(With(s, c, k'), rest, cfg)
  {
    hide Steps, Possible, HandlerOf;
    Replaced(s, c, k, k');
    StepsCons(With(s, c, k), Server.Handler(c, e), rest, cfg, With(s, c, k'));
  }

  /** The connection while its question is being asked. */
  function Asker(r: Request, auth: AuthIo, cfg: Config): Conn {
    Conn(Idle, auth, r, Question.Forwarded(r.authorization, cfg.agent), NEW_RESPONSE, [])
  }

  lemma Opens(s: Server.Sys, c: Server.ConnId, r: Request, rest: seq<Server.Label>, cfg: Config)
    requires !s.halted && c !in s.conns && Bounded(r) && (r.verb == Get || r.verb == Post)
    ensures Steps(s, [Server.Accept(c)] + ([Server.Handler(c, RequestRead(false, r, true))] + rest), cfg)
         == Steps(With(s, c, Asker(r, Resolving, cfg)), rest, cfg)
  {
    hide Bounded, Steps, Question.Forwarded;
    var read := RequestRead(false, r, true);
    StepsCons(s, Server.Accept(c), [Server.Handler(c, read)] + rest, cfg, With(s, c, NEW_CONN));
    HandlerStep(s, c, NEW_CONN, read, Asker(r, Resolving, cfg), rest, cfg);
  }

  /** From the accepted connection to the question on its way. */
  lemma ReachesAuthServer(s: Server.Sys, c: Server.ConnId, r: Request, rest: seq<Server.Label>, cfg: Config)
    requires !s.halted && c !in s.conns && Bounded(r) && (r.verb == Get || r.verb == Post)
    ensures Steps(s, Opening(c, r) + rest, cfg) == Steps(With(s, c, Asker(r, ReadingReply, cfg)), rest, cfg)
  {
    hide Bounded, Steps, Question.Forwarded;
    var l0, l1, l2 := Server.Accept(c), Server.Handler(c, RequestRead(false, r, true)), Server.Handler(c, Resolved(false));
    var l3, l4 := Server.Handler(c, Connected(false)), Server.Handler(c, QuestionWritten(false));
    assert Opening(c, r) + rest == [l0] + ([l1] + ([l2] + ([l3] + ([l4] + rest))));
    Opens(s, c, r, [l2] + ([l3] + ([l4] + rest)), cfg);
    HandlerStep(s, c, Asker(r, Resolving, cfg), Resolved(false), Asker(r, Connecting, cfg), [l3] + ([l4] + rest), cfg);
    HandlerStep(s, c, Asker(r, Connecting, cfg), Connected(false), Asker(r, WritingQuestion, cfg), [l4] + rest, cfg);
    HandlerStep(s, c, Asker(r, WritingQuestion, cfg), QuestionWritten(false), Asker(r, ReadingReply, cfg), rest, cfg);
  }

  /** The question is answered for this token. */
  ghost predicate Asked(chunks: seq<string>, question: string, token: string, user: string, env: WorkWithClient.Env) {
    && Reassembly.Chunking(chunks, question) && env.verify(token) == Some(user)
    && Question.AnswersFor(WorkWithClient.RunOn(WorkWithClient.State("", [], true), chunks, env), Some(token), env)
  }

  lemma AuthServerAnswers(s: Server.Sys, c: Server.ConnId, k: Conn, chunks: seq<string>, env: WorkWithClient.Env,
                          token: string, user: string, rest: seq<Server.Label>, cfg: Config)
    requires !s.halted && c !in s.inbox && k.auth == ReadingReply && k.trace == [] && Asked(chunks, k.question, token, user, env)
    ensures Steps(With(s, c, k), [Server.AuthServed(c, chunks, env, OtherStatus)] + rest, cfg)
         == Steps(With(s, c, k.(trace := [Verified(token, user)])).(inbox := s.inbox[c := Id(user)]), rest, cfg)
  {
    hide WorkWithClient.RunOn, Reassembly.Chunking, Steps;
    var s', k' := With(s, c, k), k.(trace := [Verified(token, user)]);
    assert [] + [Verified(token, user)] == [Verified(token, user)];
    assert s'.conns[c := k'] == s.conns[c := k'];
    StepsCons(s', Server.AuthServed(c, chunks, env, OtherStatus), rest, cfg, With(s, c, k').(inbox := s.inbox[c := Id(user)]));
  }

  lemma ReplyIsRead(s: Server.Sys, c: Server.ConnId, user: string, luck: Luck, cfg: Config)
    requires !s.halted && c in s.conns && s.conns[c].auth == ReadingReply && Fits(s.conns[c], s.db, Id(user), luck, cfg)
    requires c in s.inbox && s.inbox[c] == Id(user)
    ensures Steps(s, [Server.Handler(c, ReplyRead(false, Id(user), luck))], cfg)
         == Some(Server.Install(s, c, OnReadOf(s.conns[c], s.db, false, Id(user), luck, cfg)))
  {
    hide Fits, Steps, OnReadOf, Server.Install;
    var l := Server.Handler(c, ReplyRead(false, Id(user), luck));
    var t := Server.Install(s, c, OnReadOf(s.conns[c], s.db, false, Id(user), luck, cfg));
    StepsCons(s, l, [], cfg, t);
    NoSteps(t, cfg);
    assert [l] + [] == [l];
  }

  lemma PostFits(k: Conn, db: DBclient.Db, reply: Reply, luck: Luck, cfg: Config)
    requires Bounded(k.request) && k.request.verb == Post
    ensures Fits(k, db, reply, luck, cfg)
  {
    hide Bounded, LookupOf;
  }

  lemma RunsTransaction(k: Conn, db: DBclient.Db, user: string, op: DBclient.Op, luck: Luck, cfg: Config)
    requires Bounded(k.request) && k.request.verb == Post
    requires luck.dbUp && !Reserved(user) && ActionOf(k.request, user, luck.now, cfg) == Transaction(op)
    ensures var r, out := OnReadOf(k, db, false, Id(user), luck, cfg), DBclient.Exec(db, op, luck.fault, cfg.schema);
            && r.db == out.db && r.ran == Some((op, luck.fault)) && !r.escaped
            && r.conn.trace == k.trace + [Called(user), Ran(user, op, out.answer),
                                          Responded(if out.answer == DBclient.Ok then OK else INTERNAL_SERVER_ERROR, NoBody)]
  {
    hide Bounded, ActionOf, DBclient.Exec;
    var t := OnReadOf(k, db, false, Id(user), luck, cfg).conn.trace;
    assert t == k.trace + [t[|k.trace|], t[|k.trace| + 1], t[|k.trace| + 2]];
  }

  /** What the system looks like after such a run. */
  ghost predicate AnsweredRun(s: Server.Sys, t: Option<Server.Sys>, c: Server.ConnId, token: string, user: string,
                              op: DBclient.Op, fault: DBclient.Fault, cfg: Config) {
    var out := DBclient.Exec(s.db, op, fault, cfg.schema);
    && t.Some? && c in t.value.conns && t.value.db == out.db && t.value.done == s.done + [Server.Work(c, op, fault)]
    && t.value.conns[c].trace == [Verified(token, user), Called(user), Ran(user, op, out.answer),
                                  Responded(if out.answer == DBclient.Ok then OK else INTERNAL_SERVER_ERROR, NoBody)]
  }

  /** The connection behind the check of its token. */
  function Verifier(r: Request, token: string, user: string, cfg: Config): Conn {
    Asker(r, ReadingReply, cfg).(trace := [Verified(token, user)])
  }

  /** A new connection `c` for request `r`, whose question is answered for this token. */
  ghost predicate Ready(s: Server.Sys, c: Server.ConnId, r: Request, chunks: seq<string>, token: string, user: string,
                        env: WorkWithClient.Env, cfg: Config) {
    && !s.halted && c !in s.conns && c !in s.inbox && Bounded(r)
    && Asked(chunks, Question.Forwarded(r.authorization, cfg.agent), token, user, env)
  }

  lemma AskedRun(s: Server.Sys, c: Server.ConnId, r: Request, chunks: seq<string>, token: string, user: string,
                 env: WorkWithClient.Env, luck: Luck, cfg: Config)
    requires Ready(s, c, r, chunks, token, user, env, cfg) && (r.verb == Get || r.verb == Post)
    requires Fits(Verifier(r, token, user, cfg), s.db, Id(user), luck, cfg)
    ensures Steps(s, Smoothly(c, r, chunks, env, user, luck), cfg)
         == Some(Server.Install(With(s, c, Verifier(r, token, user, cfg)).(inbox := s.inbox[c := Id(user)]), c,
                                OnReadOf(Verifier(r, token, user, cfg), s.db, false, Id(user), luck, cfg)))
  {
    hide Bounded, Fits, Question.Forwarded, Asked, Steps, OnReadOf, Opening, Server.Install;
    var ask, read := Server.AuthServed(c, chunks, env, OtherStatus), Server.Handler(c, ReplyRead(false, Id(user), luck));
    assert Smoothly(c, r, chunks, env, user, luck) == Opening(c, r) + ([ask] + [read]);
    ReachesAuthServer(s, c, r, [ask] + [read], cfg);
    AuthServerAnswers(s, c, Asker(r, ReadingReply, cfg), chunks, env, token, user, [read], cfg);
    ReplyIsRead(With(s, c, Verifier(r, token, user, cfg)).(inbox := s.inbox[c := Id(user)]), c, user, luck, cfg);
  }

  lemma AskedRunIsAnswered(s: Server.Sys, c: Server.ConnId, r: Request, chunks: seq<string>, token: string, user: string,
                           op: DBclient.Op, env: WorkWithClient.Env, luck: Luck, cfg: Config)
    requires Ready(s, c, r, chunks, token, user, env, cfg) && r.verb == Post
    requires luck.dbUp && !Reserved(user) && ActionOf(r, user, luck.now, cfg) == Transaction(op)
    ensures AnsweredRun(s, Steps(s, Smoothly(c, r, chunks, env, user, luck), cfg), c, token, user, op, luck.fault, cfg)
  {
    hide Bounded, ActionOf, DBclient.Exec, Question.Forwarded, Asked, Steps, OnReadOf, Smoothly;
    PostFits(Verifier(r, token, user, cfg), s.db, Id(user), luck, cfg);
    AskedRun(s, c, r, chunks, token, user, env, luck, cfg);
    RunsTransaction(Verifier(r, token, user, cfg), s.db, user, op, luck, cfg);
  }

  /** The request carries this token, which verifies as this user; its question's method comes in one piece. */
  ghost predicate Verifies(s: Server.Sys, c: Server.ConnId, r: Request, chunks: seq<string>, token: string, user: string,
                           env: WorkWithClient.Env, cfg: Config) {
    && !s.halted && c !in s.conns && c !in s.inbox && Bounded(r)
    && Reassembly.Chunking(chunks, Question.Forwarded(r.authorization, cfg.agent)) && |chunks[0]| >= 7
    && Question.BearerToken(r.authorization) == Some(token) && env.verify(token) == Some(user)
  }

  lemma VerifiesIsReady(s: Server.Sys, c: Server.ConnId, r: Request, chunks: seq<string>, token: string, user: string,
                        env: WorkWithClient.Env, cfg: Config)
    requires Verifies(s, c, r, chunks, token, user, env, cfg)
    ensures Ready(s, c, r, chunks, token, user, env, cfg) && Bounded(r)
  {
    hide Bounded, Question.Forwarded, Question.BearerToken, Question.AnswersFor, Reassembly.Chunking, WorkWithClient.RunOn;
    Server.AuthorizationIsShort(r);
    hide OneLine;
    Question.QuestionIsAnswered(r.authorization, cfg.agent, chunks, env);
  }

  /** When nothing fails before it: a POST to a mutating route whose token verifies is answered after its transaction has run
      for the verified user, 200 if that is answered Ok and 500 if not. */
  lemma SmoothRunIsAnswered(s: Server.Sys, c: Server.ConnId, r: Request, chunks: seq<string>, token: string, user: string,
                            op: DBclient.Op, env: WorkWithClient.Env, luck: Luck, cfg: Config)
    requires Verifies(s, c, r, chunks, token, user, env, cfg) && r.verb == Post
    requires luck.dbUp && !Reserved(user) && ActionOf(r, user, luck.now, cfg) == Transaction(op)
    ensures AnsweredRun(s, Steps(s, Smoothly(c, r, chunks, env, user, luck), cfg), c, token, user, op, luck.fault, cfg)
  {
    hide Bounded, ActionOf, Steps, Smoothly, AnsweredRun, Ready, Verifies;
    VerifiesIsReady(s, c, r, chunks, token, user, env, cfg);
    AskedRunIsAnswered(s, c, r, chunks, token, user, op, env, luck, cfg);
  }

  /** The condition on the pieces is needed: cut inside a value that holds a question of its own, the question is answered for
      another token, and the transaction is run for that token's user. */
  lemma StrayTokenRuns(s: Server.Sys, c: Server.ConnId, r: Request, user: string, op: DBclient.Op,
                       env: WorkWithClient.Env, luck: Luck, cfg: Config)
    requires !s.halted && c !in s.conns && c !in s.inbox && Bounded(r) && r.verb == Post
    requires r.authorization == Question.STRAY && env.verify("y") == Some(user)
    requires luck.dbUp && !Reserved(user) && ActionOf(r, user, luck.now, cfg) == Transaction(op)
    ensures Question.BearerToken(r.authorization).Some? && Question.BearerToken(r.authorization) != Some("y")
    ensures exists chunks ::
              && Reassembly.Chunking(chunks, Question.Forwarded(r.authorization, cfg.agent))
              && AnsweredRun(s, Steps(s, Smoothly(c, r, chunks, env, user, luck), cfg), c, "y", user, op, luck.fault, cfg)
  {
    hide Bounded, ActionOf, Question.Forwarded, Question.BearerToken, Question.AnswersFor, Reassembly.Chunking, Steps, Smoothly,
         AnsweredRun, WorkWithClient.RunOn, Question.STRAY;
    Question.CutInsideValue(cfg.agent, env);
    var chunks :| Reassembly.Chunking(chunks, Question.Forwarded(Question.STRAY, cfg.agent))
                  && Question.AnswersFor(WorkWithClient.RunOn(WorkWithClient.State("", [], true), chunks, env), Some("y"), env);
    AskedRunIsAnswered(s, c, r, chunks, "y", user, op, env, luck, cfg);
  }

  // ----- deleting and clicking, from the bytes of the target to the tables -----

  /** A target printed with a post's id. */
  ghost predicate NamesPost(r: Request, path: string, post: string, suffix: string) {
    && r.target == FormRequest.PrintTarget(path, [("post_id", post)]) + suffix
    && FormRequest.Plain(path) && FormRequest.Plain(post) && '=' !in post && (suffix == "" || suffix[0] == ' ')
    && r.target != "/addNewPost"
  }

  /** A POST to `/deletePost` removes the post that its target names, with its likes and nothing else, if the verified user
      is its author, and is answered 200; otherwise it removes nothing, and is answered 500. */
  lemma DeletesThePostNamed(s: Server.Sys, c: Server.ConnId, r: Request, chunks: seq<string>, token: string, user: string,
                            path: string, text: string, suffix: string, post: DBclient.PostId, id: DBclient.UserId,
                            env: WorkWithClient.Env, luck: Luck, cfg: Config)
    requires Verifies(s, c, r, chunks, token, user, env, cfg) && r.verb == Post
    requires NamesPost(r, path, text, suffix) && Contains(r.target, "/deletePost")
    requires luck.dbUp && luck.fault == DBclient.NoFault && !Reserved(user)
    requires cfg.toId(text) == Some(post) && cfg.toId(user) == Some(id)
    ensures var t := Steps(s, Smoothly(c, r, chunks, env, user, luck), cfg);
            && t.Some? && c in t.value.conns && |t.value.conns[c].trace| == 4
            && var before, after := s.db.tables, t.value.db.tables;
               var owns := post in before.posts && before.posts[post].author == id;
               && t.value.conns[c].trace[3] == Responded(if owns then 200 else 500, NoBody)
               && after.posts == (if owns then before.posts - {post} else before.posts) && after.photos == before.photos
               && forall l :: l in after.likes <==> l in before.likes && !(owns && l.post == post)
  {
    hide Bounded, ActionOf, Steps, Smoothly, DBclient.Exec, Contains, Verifies, FormRequest.PrintTarget, FormRequest.Plain;
    VerifiesIsReady(s, c, r, chunks, token, user, env, cfg);
    EndToEnd.DeleteIsRouted(r, path, text, suffix, user, luck.now, cfg);
    SmoothRunIsAnswered(s, c, r, chunks, token, user, DBclient.Delete(Some(post), Some(id)), env, luck, cfg);
    Store.DeleteRemoves(s.db, post, id, cfg.schema);
  }

  /** A POST to `/likeClicked` toggles the verified user's like of the post that its target names, and its count with it, and
      nothing else, and is answered 200. */
  lemma ClicksThePostNamed(s: Server.Sys, c: Server.ConnId, r: Request, chunks: seq<string>, token: string, user: string,
                           path: string, text: string, suffix: string, post: DBclient.PostId, id: DBclient.UserId,
                           env: WorkWithClient.Env, luck: Luck, cfg: Config)
    requires Verifies(s, c, r, chunks, token, user, env, cfg) && r.verb == Post
    requires NamesPost(r, path, text, suffix) && Contains(r.target, "/likeClicked") && !Contains(r.target, "/deletePost")
    requires luck.dbUp && luck.fault == DBclient.NoFault && !Reserved(user)
    requires cfg.toId(text) == Some(post) && cfg.toId(user) == Some(id)
    requires DBclient.Sound(s.db) && post in s.db.tables.posts
    ensures var t := Steps(s, Smoothly(c, r, chunks, env, user, luck), cfg);
            && t.Some? && c in t.value.conns && |t.value.conns[c].trace| == 4
            && t.value.conns[c].trace[3] == Responded(200, NoBody)
            && var before, after, row := s.db.tables, t.value.db.tables, DBclient.Like(post, id);
               && (forall l :: l in after.likes <==> ((l in before.likes) != (l == row)))
               && Store.SameButCount(before, after, post, if row in before.likes then -1 else 1)
  {
    hide Bounded, ActionOf, Steps, Smoothly, DBclient.Exec, Contains, Verifies, FormRequest.PrintTarget, FormRequest.Plain,
         DBclient.Sound, Store.SameButCount;
    VerifiesIsReady(s, c, r, chunks, token, user, env, cfg);
    EndToEnd.ClickIsRouted(r, path, text, suffix, user, luck.now, cfg);
    SmoothRunIsAnswered(s, c, r, chunks, token, user, DBclient.Click(Some(post), Some(id)), env, luck, cfg);
    Store.ClickToggles(s.db, post, id, cfg.schema);
  }

  /** The request is answered, and the database is as it was. */
  ghost predicate LookedUp(s: Server.Sys, t: Option<Server.Sys>, c: Server.ConnId, token: string, user: string, response: Response) {
    && t.Some? && c in t.value.conns && t.value.db == s.db && t.value.done == s.done
    && t.value.conns[c].trace == [Verified(token, user), Called(user), Responded(response.status, response.body)]
  }

  lemma RepliesWithoutTransaction(k: Conn, db: DBclient.Db, user: string, luck: Luck, cfg: Config)
    requires Bounded(k.request) && k.request.verb == Post && !Reserved(user)
    requires !luck.dbUp || !ActionOf(k.request, user, luck.now, cfg).Transaction?
    ensures Fits(k, db, Id(user), luck, cfg)
    ensures var r := OnReadOf(k, db, false, Id(user), luck, cfg);
            && r.db == db && r.ran == None && !r.escaped
            && r.conn.trace == k.trace + [Called(user), Responded(if luck.dbUp && !Mutating(k.request) then 200 else 500, NoBody)]
  {
    Server.RouteIsMutating(k.request, user, luck.now, cfg);
    hide Bounded, ActionOf, Contains, LookupOf;
    var t := OnReadOf(k, db, false, Id(user), luck, cfg).conn.trace;
    assert t == k.trace + [t[|k.trace|], t[|k.trace| + 1]];
  }

  /** A POST to no route is answered 200; one whose form or query the parsers refuse, or whose database is out of reach, is
      answered 500. None of them runs anything. */
  lemma OtherPostsAreAnswered(s: Server.Sys, c: Server.ConnId, r: Request, chunks: seq<string>, token: string, user: string,
                              env: WorkWithClient.Env, luck: Luck, cfg: Config)
    requires Verifies(s, c, r, chunks, token, user, env, cfg) && r.verb == Post && !Reserved(user) && Bounded(r)
    requires !luck.dbUp || !ActionOf(r, user, luck.now, cfg).Transaction?
    ensures LookedUp(s, Steps(s, Smoothly(c, r, chunks, env, user, luck), cfg), c, token, user,
                     Response(if luck.dbUp && !Mutating(r) then 200 else 500, NoBody))
  {
    hide Bounded, ActionOf, Mutating, Steps, Smoothly, Verifies, OnReadOf, Fits, Ready, Question.Forwarded;
    VerifiesIsReady(s, c, r, chunks, token, user, env, cfg);
    var k := Verifier(r, token, user, cfg);
    RepliesWithoutTransaction(k, s.db, user, luck, cfg);
    AskedRun(s, c, r, chunks, token, user, env, luck, cfg);
  }

  // ----- GET and OPTIONS -----

  lemma AnswersLookup(k: Conn, db: DBclient.Db, user: string, luck: Luck, cfg: Config)
    requires k.request.verb == Get && Fits(k, db, Id(user), luck, cfg) && luck.dbUp && !Reserved(user)
    ensures var r, response := OnReadOf(k, db, false, Id(user), luck, cfg),
                               GetResponseOf(db.tables, LookupOf(k.request.target, user, cfg), user, luck);
            && r.db == db && r.ran == None && !r.escaped
            && r.conn.trace == k.trace + [Called(user), Responded(response.status, response.body)]
  {
    hide Bounded, LookupOf, GetResponseOf, OrderFits;
    var t := OnReadOf(k, db, false, Id(user), luck, cfg).conn.trace;
    assert t == k.trace + [t[|k.trace|], t[|k.trace| + 1]];
  }

  lemma GetFits(k: Conn, db: DBclient.Db, user: string, luck: Luck, cfg: Config)
    requires Bounded(k.request) && OrderFits(db.tables, LookupOf(k.request.target, user, cfg), luck)
    ensures Fits(k, db, Id(user), luck, cfg)
  {
    hide Bounded, LookupOf, OrderFits;
  }

  /** When nothing fails before it, a GET whose token verifies is answered with what its route looks up for the user. */
  lemma GetIsAnswered(s: Server.Sys, c: Server.ConnId, r: Request, chunks: seq<string>, token: string, user: string,
                      env: WorkWithClient.Env, luck: Luck, cfg: Config)
    requires Verifies(s, c, r, chunks, token, user, env, cfg) && r.verb == Get && luck.dbUp && !Reserved(user)
    requires OrderFits(s.db.tables, LookupOf(r.target, user, cfg), luck)
    ensures LookedUp(s, Steps(s, Smoothly(c, r, chunks, env, user, luck), cfg), c, token, user,
                     GetResponseOf(s.db.tables, LookupOf(r.target, user, cfg), user, luck))
  {
    hide Bounded, LookupOf, GetResponseOf, OrderFits, Steps, Smoothly, Verifies, OnReadOf, Fits, Ready, Question.Forwarded;
    VerifiesIsReady(s, c, r, chunks, token, user, env, cfg);
    var k := Verifier(r, token, user, cfg);
    GetFits(k, s.db, user, luck, cfg);
    AskedRun(s, c, r, chunks, token, user, env, luck, cfg);
    AnswersLookup(k, s.db, user, luck, cfg);
  }

  /** Either list, from the bytes of its target to its rows: the client is sent the rows from the offset on, up to the limit, of
      just the posts that the history shows to the verified user, the latest first. */
  lemma ListIsSent(s: Server.Sys, c: Server.ConnId, r: Request, chunks: seq<string>, token: string, user: string,
                   l: Feed.Listing, env: WorkWithClient.Env, luck: Luck, cfg: Config)
    requires Verifies(s, c, r, chunks, token, user, env, cfg) && r.verb == Get && luck.dbUp && !Reserved(user)
    requires LookupOf(r.target, user, cfg) == List(Some(l)) && OrderFits(s.db.tables, List(Some(l)), luck)
    requires luck.fault == DBclient.NoFault && cfg.schema == DBclient.Schema(true) && s.db == Store.Run(Server.StepsOf(s.done), cfg.schema)
    ensures var h := Store.HistoryOf(Server.StepsOf(s.done), cfg.schema);
            exists rows ::
              && LookedUp(s, Steps(s, Smoothly(c, r, chunks, env, user, luck), cfg), c, token, user, Response(200, Json(rows)))
              && Feed.ListsHistory(luck.order, h, luck.world, l.viewer, l.author)
              && Feed.IsPage(rows, l, luck.order)
              && forall i :: 0 <= i < |rows| ==> Feed.ShowsHistory(rows[i], h, luck.world, l.viewer)
  {
    hide Bounded, LookupOf, Steps, Smoothly, Verifies, LookedUp, Feed.Ordered, Feed.Selected, Feed.RowsOf, Feed.ListsHistory,
         Feed.IsPage, Feed.ShowsHistory, Store.Run, Store.HistoryOf, Server.StepsOf;
    GetIsAnswered(s, c, r, chunks, token, user, env, luck, cfg);
    Feed.RowsShowHistory(Server.StepsOf(s.done), luck.world, l, luck.order);
    var rows := Feed.RowsOf(s.db.tables, luck.world, l, luck.order);
    assert GetResponseOf(s.db.tables, List(Some(l)), user, luck) == Response(200, Json(rows));
  }

  /** So it is for a printed target: with its last LIMIT and OFFSET, for the verified user's feed or for the posts of the author
      it names. */
  lemma PrintedListIsSent(s: Server.Sys, c: Server.ConnId, r: Request, chunks: seq<string>, token: string, user: string,
                          path: string, ps: seq<(string, string)>, suffix: string, l: nat, o: nat, a: Option<nat>,
                          viewer: DBclient.UserId, author: Option<DBclient.UserId>, limit: nat, offset: nat,
                          env: WorkWithClient.Env, luck: Luck, cfg: Config)
    requires Verifies(s, c, r, chunks, token, user, env, cfg) && r.verb == Get && luck.dbUp && !Reserved(user)
    requires EndToEnd.PrintsList(r.target, path, ps, suffix, l, o, a) && l < |ps| && o < |ps| && (a.Some? ==> a.value < |ps|)
    requires cfg.toId(user) == Some(viewer) && cfg.toId(ps[l].1) == Some(limit) && cfg.toId(ps[o].1) == Some(offset)
    requires match a case None => author == None case Some(i) => author.Some? && cfg.toId(ps[i].1) == author
    requires OrderFits(s.db.tables, List(Some(Feed.Listing(viewer, author, limit, offset))), luck)
    requires luck.fault == DBclient.NoFault && cfg.schema == DBclient.Schema(true) && s.db == Store.Run(Server.StepsOf(s.done), cfg.schema)
    ensures var h, order := Store.HistoryOf(Server.StepsOf(s.done), cfg.schema), luck.order;
            exists rows: seq<Feed.Row> ::
              && LookedUp(s, Steps(s, Smoothly(c, r, chunks, env, user, luck), cfg), c, token, user, Response(200, Json(rows)))
              && Feed.ListsHistory(order, h, luck.world, viewer, author)
              && |rows| == (if offset >= |order| then 0 else Feed.Least(limit, |order| - offset))
              && forall i :: 0 <= i < |rows| ==> rows[i].post == order[offset + i] && Feed.ShowsHistory(rows[i], h, luck.world, viewer)
  {
    hide Bounded, LookupOf, Steps, Smoothly, Verifies, LookedUp, Feed.Ordered, Feed.Selected, Feed.ListsHistory, Feed.ShowsHistory,
         Store.Run, Store.HistoryOf, Server.StepsOf, EndToEnd.PrintsList;
    EndToEnd.ListIsLookedUp(r.target, path, ps, suffix, l, o, a, user, cfg);
    ListIsSent(s, c, r, chunks, token, user, Feed.Listing(viewer, author, limit, offset), env, luck, cfg);
  }

  /** A greeting is sent with the id, and a photo that is there with its type; one that is not there, or an argument that says
      nothing, is answered 500, and a target of no route 400. */
  lemma OtherGetsAreAnswered(s: Server.Sys, c: Server.ConnId, r: Request, chunks: seq<string>, token: string, user: string,
                    env: WorkWithClient.Env, luck: Luck, cfg: Config)
    requires Verifies(s, c, r, chunks, token, user, env, cfg) && r.verb == Get && luck.dbUp && !Reserved(user)
    requires luck.fault == DBclient.NoFault
    ensures var t, photos := Steps(s, Smoothly(c, r, chunks, env, user, luck), cfg), s.db.tables.photos;
            match LookupOf(r.target, user, cfg)
            case Greet => LookedUp(s, t, c, token, user, Response(200, Message("Hello World! Your id = " + user)))
            case GetPhoto(Some(p)) =>
              LookedUp(s, t, c, token, user, if p in photos then Response(200, Binary(photos[p])) else Response(500, NoBody))
            case GetPhoto(None) => LookedUp(s, t, c, token, user, Response(500, NoBody))
            case List(None) => LookedUp(s, t, c, token, user, Response(500, NoBody))
            case Refuse => LookedUp(s, t, c, token, user, Response(500, NoBody))
            case NoRoute => LookedUp(s, t, c, token, user, Response(400, NoBody))
            case List(Some(_)) => true
  {
    hide Bounded, LookupOf, Steps, Smoothly, Verifies, LookedUp, Feed.Ordered, Feed.Selected;
    if !(LookupOf(r.target, user, cfg).List? && LookupOf(r.target, user, cfg).listing.Some?) {
      GetIsAnswered(s, c, r, chunks, token, user, env, luck, cfg);
    }
  }

  /** OPTIONS is answered at once, without a question to the auth server. */
  lemma OptionsIsAnswered(s: Server.Sys, c: Server.ConnId, r: Request, dbUp: bool, cfg: Config)
    requires !s.halted && c !in s.conns && Bounded(r) && r.verb == Options
    ensures var t := Steps(s, [Server.Accept(c)] + ([Server.Handler(c, RequestRead(false, r, dbUp))] + []), cfg);
            && t.Some? && c in t.value.conns && t.value.db == s.db && t.value.inbox == s.inbox
            && t.value.conns[c].trace == [Responded(204, NoBody)] && t.value.conns[c].auth == Off
  {
    hide Bounded, Steps, Question.Forwarded;
    var read := RequestRead(false, r, dbUp);
    var k := NEW_CONN.(io := WritingResponse, request := r, response := Response(NO_CONTENT, NoBody), trace := [Responded(NO_CONTENT, NoBody)]);
    StepsCons(s, Server.Accept(c), [Server.Handler(c, read)] + [], cfg, With(s, c, NEW_CONN));
    assert [] + [Responded(NO_CONTENT, NoBody)] == [Responded(NO_CONTENT, NoBody)];
    HandlerStep(s, c, NEW_CONN, read, k, [], cfg);
    NoSteps(With(s, c, k), cfg);
  }

  // ----- what fails -----

  /** A GET whose database is out of reach ends the event loop, unanswered. */
  lemma GetWithoutDatabase(s: Server.Sys, c: Server.ConnId, r: Request, cfg: Config)
    requires !s.halted && c in s.conns && s.conns[c].io == ReadingRequest && Bounded(r) && r.verb == Get
    ensures var t := Server.Step(s, Server.Handler(c, RequestRead(false, r, false)), cfg);
            t.Some? && t.value.halted && t.value.db == s.db && c in t.value.conns && t.value.conns[c].trace == s.conns[c].trace
  {
    hide Bounded, Question.Forwarded;
  }

  /** So does a reply that is JSON without an id. */
  lemma ReplyWithoutId(s: Server.Sys, c: Server.ConnId, luck: Luck, cfg: Config)
    requires !s.halted && c in s.conns && s.conns[c].auth == ReadingReply && Bounded(s.conns[c].request)
    requires c in s.inbox && s.inbox[c] == NoId
    ensures var t := Server.Step(s, Server.Handler(c, ReplyRead(false, NoId, luck)), cfg);
            t.Some? && t.value.halted && t.value.db == s.db && c in t.value.conns && t.value.conns[c].trace == s.conns[c].trace
  {
    hide Bounded;
  }

  /** An error in the exchange ends it; the client is not answered, and the database is as it was. */
  lemma ErrorsGiveUp(s: Server.Sys, l: Server.Label, t: Server.Sys, cfg: Config)
    requires l.Handler? && Server.Step(s, l, cfg) == Some(t) && l.e.error
    requires l.e.Resolved? || l.e.Connected? || l.e.QuestionWritten? || l.e.ReplyRead?
    ensures l.c in s.conns && l.c in t.conns && t.conns[l.c] == s.conns[l.c].(auth := Off)
    ensures t.db == s.db && t.done == s.done && !t.halted
  {
    hide Bounded, LookupOf;
  }
}
