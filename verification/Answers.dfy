/** What the auth server does with a whole request, by its message: which routes check the access token, which bytes are
    that token, and what becomes of a request that is refused before it has a message. */
module Answers {
  import opened Text
  import opened Properties
  import opened Request
  import opened HttpParser
  import opened HttpFraming
  import opened WorkWithClient
  import opened Reassembly
  import FormRequest

  // ----- the token gate -----

  /** The message changes a profile, or is a GET for anything but a new token. */
  predicate Gated(info: Info) {
    || (info.PostInfo? && info.postMsg in {UpdateProfilePhoto, UpdateProfileData, UpdateProfilePassword})
    || (info.GetInfo? && info.getMsg in {GetProfileByNickname, GetProfilePhoto, GetUsersList, GetPhotoById, MakeFriend, DeleteFriend,
                                         GetStatus, GetIdFsByAccess})
  }

  lemma GatedNeedToken(info: Info)
    ensures Gated(info) <==> NeedsToken(info)
    ensures Gated(info) ==> info.accessToken == TokenOf(info)
  {
  }

  /** What the loop is left with by a request that checks this token, or none. */
  function Outcome(events: seq<Event>, raw: string, info: Info, token: Option<string>, env: Env): State {
    match token
    case None => State("", events + [Served(raw, info, "")], true)
    case Some(t) =>
      match env.verify(t)
      case None => State(raw, events + [Refused(raw, info)], true)
      case Some(user) => State("", events + [Served(raw, info, user)], true)
  }

  function CheckedToken(info: Info): Option<string> {
    if Gated(info) then Some(info.accessToken) else None
  }

  /** One turn on a buffer that parses: a gated message is carried out for the user whom the check of its access token
      returns; if it returns none, the request is refused and stays in the buffer. Any other message is carried out. */
  lemma TurnIsGated(st: State, chunk: string, env: Env)
    requires Parse(st.buffer + chunk, env.decodes).status == Success
    ensures var raw := st.buffer + chunk;
            var info := Parse(raw, env.decodes).info;
            Receive(st, chunk, env) == Outcome(st.events, raw, info, CheckedToken(info), env)
  {
    hide Parse, NeedsToken, TokenOf, Gated;
    GatedNeedToken(Parse(st.buffer + chunk, env.decodes).info);
  }

  lemma TurnAddsOne(st: State, chunk: string, env: Env)
    ensures var next := Receive(st, chunk, env);
            next.events == st.events || (|next.events| == |st.events| + 1 && Parse(st.buffer + chunk, env.decodes).status == Success)
  {
    hide Parse;
  }

  /** What is done says what was checked. */
  ghost predicate DoneByCheck(e: Event, env: Env) {
    && Parse(e.raw, env.decodes) == Parsed(Success, e.info)
    && match e
       case Served(_, info, user) => if Gated(info) then env.verify(info.accessToken) == Some(user) else user == ""
       case Refused(_, info) => Gated(info) && env.verify(info.accessToken) == None
  }

  lemma TurnIsDoneByCheck(st: State, chunk: string, env: Env)
    ensures var next := Receive(st, chunk, env);
            next.events == st.events || (exists e :: next.events == st.events + [e] && DoneByCheck(e, env))
  {
    hide Parse, Gated, Receive;
    TurnAddsOne(st, chunk, env);
    var raw := st.buffer + chunk;
    if Parse(raw, env.decodes).status == Success {
      TurnIsGated(st, chunk, env);
      var next := Receive(st, chunk, env);
      assert Parse(raw, env.decodes) == Parsed(Success, Parse(raw, env.decodes).info);
      assert DoneByCheck(next.events[|st.events|], env);
    }
  }

  /** In every run of the receive loop, whatever the chunks: a profile is changed, and a GET answered, for the user whom the
      check of the token in that very request returned, and refused only if it returned none; nothing else is checked. */
  lemma {:induction false} RunsAreGated(st: State, chunks: seq<string>, env: Env, i: nat)
    requires |st.events| <= i < |RunOn(st, chunks, env).events|
    ensures DoneByCheck(RunOn(st, chunks, env).events[i], env)
    decreases |chunks|
  {
    hide Parse, Receive, DoneByCheck;
    if chunks != [] && chunks[0] != "" && st.running {
      var next := Receive(st, chunks[0], env);
      TurnIsDoneByCheck(st, chunks[0], env);
      EventsAreKept(next, chunks[1..], env);
      if i >= |next.events| {
        RunsAreGated(next, chunks[1..], env, i);
      } else {
        var e :| next.events == st.events + [e] && DoneByCheck(e, env);
        assert RunOn(st, chunks, env).events[i] == next.events[i] == e;
      }
    }
  }

  // ----- which bytes are the token -----

  /** The token is the text between the first `Bearer ` and the end of its line, or of the request. */
  ghost predicate IsToken(req: string, token: string) {
    exists p: nat, e: nat :: TokenAt(req, token, p, e)
  }

  ghost predicate TokenAt(req: string, token: string, p: nat, e: nat) {
    && First(req, "Bearer ", 0) == Some(p) && p + 7 <= e <= |req| && token == req[p + 7..e]
    && First(req, CRLF, p) == if e < |req| then Some(e) else None
  }

  lemma BreakBehindBearer(req: string, p: nat)
    requires First(req, "Bearer ", 0) == Some(p)
    ensures p + 7 <= |req|
    ensures match First(req, CRLF, p) case None => true case Some(e) => p + 7 <= e < |req|
  {
    FirstMeaning(req, "Bearer ", 0);
    FirstMeaning(req, CRLF, p);
    HeadersAreLines();
    hide First, OneLine;
    if First(req, CRLF, p).Some? {
      BreakIsAfterLine(req, "Bearer ", p, First(req, CRLF, p).value);
    }
  }

  lemma TokenIsText(req: string, token: string)
    requires |req| < MAX_SIZE && GetValueWithSpace(req, "Bearer ") == Some(token)
    ensures IsToken(req, token)
  {
    hide First;
    assert First(req, "Bearer ", 0).Some?;
    var p := First(req, "Bearer ", 0).value;
    BreakBehindBearer(req, p);
    var e := match First(req, CRLF, p) case None => |req| case Some(e) => e;
    RestOfText(req, p + 7);
    assert TokenAt(req, token, p, e);
  }

  lemma RestOfText(req: string, start: nat)
    requires |req| < MAX_SIZE && start <= |req|
    ensures Substr(req, start, Minus(NPOS, start)) == Some(req[start..]) && req[start..] == req[start..|req|]
  {
  }

  // ----- whole requests -----

  /** A POST parses with the token in its text, if its message checks one. */
  lemma PostVerdict(req: string, decodes: Decoder)
    requires ParsePostT(req, decodes).status == Success
    ensures var info := ParsePostT(req, decodes).info;
            && info.PostInfo? && info.text == req && Some(info.origin) == GetValueSomeHeader(req, "Origin: ")
            && (Gated(info) ==> GetValueWithSpace(req, "Bearer ") == Some(info.accessToken))
  {
    hide First, RouteOf, POST_MSG_NAMES, GetValueWithSpace, GetValueSomeHeader;
  }

  /** What becomes of a whole request with this parse, in any pieces whose first shows the method. */
  lemma WholeIsGated(r: string, chunks: seq<string>, events: seq<Event>, env: Env)
    requires Whole(r, env) && Chunking(chunks, r) && |chunks[0]| >= Threshold(r)
    ensures var info := Parse(r, env.decodes).info;
            RunOn(State("", events, true), chunks, env) == Outcome(events, r, info, CheckedToken(info), env)
  {
    hide Complete, Parse, CheckedToken, Outcome, Receive, Threshold;
    PiecesAddUp(State("", events, true), chunks, [], r, env);
    assert chunks + [] == chunks && "" + r == r;
    RunOnEnds(Receive(State("", events, true), r, env), [], env);
    TurnIsGated(State("", events, true), r, env);
  }

  /** What follows the method of a request for the route, up to what follows the route's name. */
  function Rest(name: string, w: string): string {
    " /" + (name + w)
  }

  /** No byte comes before the letters, as blanks, `?` and `&` do. */
  predicate Letters(s: string) {
    |s| >= 2 && forall i :: 0 <= i < |s| ==> s[i] >= 'A'
  }

  lemma LettersArePlain(s: string)
    requires Letters(s)
    ensures ' ' !in s && '?' !in s && '&' !in s
  {
  }

  lemma PostNamesArePlain(msg: PostMsg)
    ensures ' ' !in PostName(msg) && '?' !in PostName(msg)
  {
    assert Letters(PostName(msg));
    hide PostName;
    LettersArePlain(PostName(msg));
  }

  lemma PostIsParsed(msg: PostMsg, w: string, decodes: Decoder)
    requires w != "" && (w[0] == ' ' || w[0] == '?')
    requires var r, req := "POST" + Rest(PostName(msg), w), Rest(PostName(msg), w);
             Complete(r) && First(req, "Origin: ", 0).Some? && PostReadable(req, msg, decodes)
    ensures var r, req := Parse("POST" + Rest(PostName(msg), w), decodes), Rest(PostName(msg), w);
            && r.status == Success && r.info.PostInfo? && r.info.postMsg == msg && r.info.text == req
            && Some(r.info.origin) == GetValueSomeHeader(req, "Origin: ")
            && (Gated(r.info) ==> IsToken(req, r.info.accessToken))
  {
    var r, req := "POST" + Rest(PostName(msg), w), Rest(PostName(msg), w);
    PostNamesArePlain(msg);
    PostIsRouted(PostName(msg), w, decodes);
    PostParses(r, req, decodes);
    hide First, Complete, PostReadable, Parse, PostName, IsToken, ParsePostT, GetValueWithSpace, GetValueSomeHeader, Rest, Gated;
    PostVerdict(req, decodes);
    var info := Parse(r, decodes).info;
    PostNamesDiffer(info.postMsg, msg);
    if Gated(info) {
      TokenIsText(req, info.accessToken);
    }
  }

  /** A whole POST to a route that changes a profile is carried out exactly for the user whom the check of the token in its
      text returns, and refused if it returns none; the logins are carried out unchecked. In any pieces whose first shows
      the method. */
  lemma PostIsAnswered(msg: PostMsg, w: string, chunks: seq<string>, events: seq<Event>, env: Env)
    requires w != "" && (w[0] == ' ' || w[0] == '?')
    requires var r, req := "POST" + Rest(PostName(msg), w), Rest(PostName(msg), w);
             && Complete(r) && First(req, "Origin: ", 0).Some? && PostReadable(req, msg, env.decodes)
             && Chunking(chunks, r) && |chunks[0]| >= Threshold(r)
    ensures var r, req := "POST" + Rest(PostName(msg), w), Rest(PostName(msg), w);
            var end := RunOn(State("", events, true), chunks, env);
            exists info: Info ::
              && info.PostInfo? && info.postMsg == msg && info.text == req && Some(info.origin) == GetValueSomeHeader(req, "Origin: ")
              && if msg == Login || msg == Registration then end == Outcome(events, r, info, None, env)
                 else IsToken(req, info.accessToken) && end == Outcome(events, r, info, Some(info.accessToken), env)
  {
    hide First, Complete, PostReadable, Parse, PostName, Chunking, Threshold, IsToken, RunOn, Rest, Outcome, GetValueSomeHeader, GetValueWithSpace;
    PostIsParsed(msg, w, env.decodes);
    var r := "POST" + Rest(PostName(msg), w);
    WholeIsGated(r, chunks, events, env);
    GatedPosts(Parse(r, env.decodes).info);
    hide Gated;
  }

  lemma GatedPosts(info: Info)
    requires info.PostInfo?
    ensures Gated(info) <==> info.postMsg != Login && info.postMsg != Registration
  {
  }

  lemma PostNamesDiffer(a: PostMsg, b: PostMsg)
    ensures PostName(a) == PostName(b) ==> a == b
  {
    PostNamesAre(PostName(a), a);
    PostNamesAre(PostName(a), b);
  }

  lemma PostParses(r: string, req: string, decodes: Decoder)
    requires r == "POST" + req && |req| >= 8 && req[0] == ' ' && Complete(r)
    ensures Parse(r, decodes) == ParsePostT(req, decodes) && |req| < MAX_SIZE
  {
    hide First, ParsePostT, GetReqT, Parse;
    RequestMethod("POST", req[1..]);
    assert req == " " + req[1..];
    ParseOfComplete(r, decodes);
    hide Complete;
    assert r[4..] == req;
  }

  // ----- whole GETs and OPTIONS -----

  lemma GetNamesArePlain(msg: GetMsg)
    ensures |GetName(msg)| >= 2 && ' ' !in GetName(msg) && '?' !in GetName(msg) && '&' !in GetName(msg)
  {
    assert Letters(GetName(msg));
    hide GetName;
    LettersArePlain(GetName(msg));
  }

  lemma GetNamesDiffer(a: GetMsg, b: GetMsg)
    ensures GetName(a) == GetName(b) ==> a == b
  {
    GetNamesAre(GetName(a), a);
    GetNamesAre(GetName(a), b);
  }

  lemma GetParses(r: string, req: string, decodes: Decoder)
    requires r == "GET" + req && |req| >= 8 && req[0] == ' ' && Complete(r)
    ensures Parse(r, decodes) == ParseGetT(req) && |req| < MAX_SIZE
  {
    hide First, ParseGetT, GetReqT, Parse;
    RequestMethod("GET", req[1..]);
    assert req == " " + req[1..];
    ParseOfComplete(r, decodes);
    hide Complete;
    assert r[3..] == req;
  }

  lemma GatedGets(info: Info)
    requires info.GetInfo?
    ensures Gated(info) <==> info.getMsg != GetNewToken
  {
  }

  lemma GetIsParsed(msg: GetMsg, w: string, decodes: Decoder)
    requires w != "" && (w[0] == ' ' || w[0] == '?')
    requires var r, req := "GET" + Rest(GetName(msg), w), Rest(GetName(msg), w);
             Complete(r) && First(req, "Origin: ", 0).Some? && GetReadable(req, msg)
    ensures var r, req := Parse("GET" + Rest(GetName(msg), w), decodes), Rest(GetName(msg), w);
            && r.status == Success && r.info.GetInfo? && r.info.getMsg == msg
            && Some(r.info.origin) == GetValueSomeHeader(req, "Origin: ")
            && (msg == GetNewToken ==> GetValueWithSpace(req, "refreshToken=") == Some(r.info.refreshToken))
            && (msg != GetNewToken ==> IsToken(req, r.info.accessToken) && Arguments(req) == Some(r.info.properties))
  {
    var r, req := "GET" + Rest(GetName(msg), w), Rest(GetName(msg), w);
    GetNamesArePlain(msg);
    GetIsRouted(GetName(msg), w, decodes);
    GetParses(r, req, decodes);
    hide First, Complete, GetReadable, Parse, GetName, IsToken, ParseGetT, GetValueWithSpace, GetValueSomeHeader, Rest, RouteOf,
         Arguments, GET_MSG_NAMES;
    GetVerdict(req);
    var info := Parse(r, decodes).info;
    GetNamesDiffer(info.getMsg, msg);
    if msg != GetNewToken {
      TokenIsText(req, info.accessToken);
    }
  }

  /** A whole GET is answered for the user whom the check of the token in its text returns, and refused if it returns none;
      one for a new token is not checked here. In any pieces whose first shows the method. */
  lemma GetIsAnswered(msg: GetMsg, w: string, chunks: seq<string>, events: seq<Event>, env: Env)
    requires w != "" && (w[0] == ' ' || w[0] == '?')
    requires var r, req := "GET" + Rest(GetName(msg), w), Rest(GetName(msg), w);
             && Complete(r) && First(req, "Origin: ", 0).Some? && GetReadable(req, msg)
             && Chunking(chunks, r) && |chunks[0]| >= Threshold(r)
    ensures var r, req := "GET" + Rest(GetName(msg), w), Rest(GetName(msg), w);
            var end := RunOn(State("", events, true), chunks, env);
            exists info: Info ::
              && info.GetInfo? && info.getMsg == msg && Some(info.origin) == GetValueSomeHeader(req, "Origin: ")
              && if msg == GetNewToken
                 then && GetValueWithSpace(req, "refreshToken=") == Some(info.refreshToken)
                      && end == Outcome(events, r, info, None, env)
                 else IsToken(req, info.accessToken) && end == Outcome(events, r, info, Some(info.accessToken), env)
  {
    hide First, Complete, GetReadable, Parse, GetName, Chunking, Threshold, IsToken, RunOn, Rest, Outcome, Arguments, GetValueSomeHeader, GetValueWithSpace;
    GetIsParsed(msg, w, env.decodes);
    var r := "GET" + Rest(GetName(msg), w);
    WholeIsGated(r, chunks, events, env);
    GatedGets(Parse(r, env.decodes).info);
    hide Gated;
  }

  lemma NameTails(msg: GetMsg)
    ensures |GetName(msg)| >= 2 && FormRequest.Plain(GetName(msg)[2..])
  {
    hide GetName;
    GetNamesArePlain(msg);
  }

  lemma TargetStart(name: string, ps: Pairs, suffix: string)
    requires |name| >= 2 && ps != []
    ensures FormRequest.PrintTarget(" /" + name, ps) + suffix
         == " /" + name[..2] + (FormRequest.PrintTarget(name[2..], ps) + suffix)
  {
    hide FormRequest.PrintTarget;
    assert " /" + name == " /" + name[..2] + name[2..];
    FormRequest.PrintPrefix(" /" + name[..2], name[2..], ps);
  }

  /** The arguments of a GET are the pairs of its printed query, though the scan starts in the middle of the route. */
  lemma QueryIsRead(msg: GetMsg, ps: Pairs, suffix: string)
    requires ps != [] && FormRequest.PrintablePairs(ps) && (suffix == "" || suffix[0] == ' ')
    requires |FormRequest.PrintTarget(" /" + GetName(msg), ps) + suffix| < MAX_SIZE
    ensures var req := FormRequest.PrintTarget(" /" + GetName(msg), ps) + suffix;
            && Arguments(req) == Some(Assign(map[], ps))
            && exists w :: w != "" && w[0] == '?' && req == Rest(GetName(msg), w)
  {
    hide FormRequest.PrintTarget, FormRequest.Entries, FormRequest.BadHttp, GetName, FormRequest.Plain, FormRequest.PrintablePairs;
    var name := GetName(msg);
    var req := FormRequest.PrintTarget(" /" + name, ps) + suffix;
    NameTails(msg);
    TargetStart(name, ps, suffix);
    FormRequest.QueryRoundTripFrom(" /" + name[..2], name[2..], ps, suffix);
    FormRequest.PrintPrefix(" /" + name, "", ps);
    assert " /" + name + "" == " /" + name;
    FormRequest.PrintStarts("", ps);
    var w := FormRequest.PrintTarget("", ps) + suffix;
    assert "" + "?" <= FormRequest.PrintTarget("", ps);
    assert w[0] == '?';
    assert req == Rest(name, w);
  }

  /** A whole OPTIONS request with an Origin is answered, unchecked. */
  lemma OptionsIsAnswered(r: string, chunks: seq<string>, events: seq<Event>, env: Env)
    requires Complete(r) && GetReqT(r) == Some(ReqType(Options, 7)) && |r| >= 7 && First(r[7..], "Origin: ", 0).Some?
    requires Chunking(chunks, r) && |chunks[0]| >= Threshold(r)
    ensures exists origin :: Some(origin) == GetValueSomeHeader(r[7..], "Origin: ")
                             && RunOn(State("", events, true), chunks, env) == Outcome(events, r, OptionsInfo(origin), None, env)
  {
    hide First, Complete, GetReqT, Chunking, Threshold, RunOn, Outcome, GetValueWithSpace, Parse;
    ParseOfComplete(r, env.decodes);
    WholeIsGated(r, chunks, events, env);
  }

  // ----- requests that are refused before they have a message -----

  /** A whole request of another method, without an Origin, or for an unknown name is thrown away, in any pieces whose first
      shows the method; and what follows it is received as if it had not been. */
  lemma RefusedIsDropped(r: string, chunks: seq<string>, more: seq<string>, events: seq<Event>, env: Env)
    requires Complete(r) && Chunking(chunks, r) && |chunks[0]| >= Threshold(r)
    requires GetReqT(r).value.verb == NotSupport || Parse(r, env.decodes).status == BadHttp
    ensures RunOn(State("", events, true), chunks + more, env) == RunOn(State("", events, true), more, env)
  {
    hide Complete, Threshold, GetReqT, Parse, Dispatch;
    PiecesAddUp(State("", events, true), chunks, more, r, env);
    assert "" + r == r;
    MethodOfComplete(r);
    MethodFits(r);
    ParseOfComplete(r, env.decodes);
    NotSupported(r[GetReqT(r).value.size..], env.decodes);
  }

  lemma MethodFits(r: string)
    requires GetReqT(r).Some?
    ensures GetReqT(r).value.size <= |r|
  {
    hide First;
  }

  lemma NotSupported(req: string, decodes: Decoder)
    ensures Dispatch(req, NotSupport, decodes).status == NotSupportType
  {
  }
}
