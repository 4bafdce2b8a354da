/** The question a content server puts to the auth server for a client's token
    (`formRequestGetIdByAccess`, content_server_src/FormRequest/FormRequest.cpp), and what the auth server reads in it. */
module ForwardedRequest {
  import opened Text
  import opened Request
  import opened HttpParser
  import opened HttpFraming
  import opened WorkWithClient
  import FormRequest
  import Reassembly

  const NAME := "getIdForServerByAccess"
  const TARGET := " /" + NAME + " "
  const BEFORE := TARGET + "HTTP/1.1" + CRLF + "Host: 127.0.0.1" + CRLF + "Authorization: "
  const ORIGIN := "Origin: localhost:8081"
  const USER_AGENT := "User-Agent: "

  predicate GoodAgent(a: string) {
    OneLine(a) && !Contains(a, "Bearer ") && |a| < 800
  }

  /** How the HTTP library names itself: its name and version. */
  type Agent = a: string | GoodAgent(a) witness ""

  function After(agent: string): string {
    ORIGIN + CRLF + (USER_AGENT + agent + BLANK_LINE)
  }

  /** A header value `value` behind `b`, with the question's last lines behind it. */
  function Tail(b: string, value: string, agent: string): string {
    b + (value + CRLF + After(agent))
  }

  /** The bytes the HTTP library writes for a GET with these headers, in the order they were set. */
  function Forwarded(authorization: string, agent: Agent): string {
    "GET" + Tail(BEFORE, authorization, agent)
  }

  /** The request is formed field by field. */
  method FormRequestGetIdByAccess(accesstoken: string, agent: Agent) returns (request: string)
    ensures request == Forwarded(accesstoken, agent)
  {
    hide BEFORE, ORIGIN, USER_AGENT, BLANK_LINE;
    request := "GET" + BEFORE;
    request := request + accesstoken + CRLF;
    request := request + ORIGIN + CRLF;
    request := request + USER_AGENT + agent;
    request := request + BLANK_LINE;
    LinesOfQuestion(BEFORE, accesstoken, agent);
  }

  /** The token of an Authorization value: what follows the first `Bearer `. */
  function BearerToken(authorization: string): Option<string> {
    match First(authorization, "Bearer ", 0)
    case None => None
    case Some(i) => Some(authorization[i + 7..])
  }

  // ----- the fixed text around the value -----

  /** Every carriage return is followed by another line, of a byte at least. */
  ghost predicate Spaced(s: string) {
    forall j :: 0 <= j < |s| && s[j] == '\r' ==> j + 2 < |s| && s[j + 2] != '\r'
  }

  /** Text that a request for the name may have before a value: it holds no `Be`, and no blank line. */
  ghost predicate Head(b: string) {
    && |TARGET| <= |b| < 120 && b[..|TARGET|] == TARGET && Spaced(b)
    && forall j :: 0 <= j < |b| && b[j] == 'B' ==> j + 1 < |b| && b[j + 1] != 'e'
  }

  lemma TargetIs()
    ensures |TARGET| == 25 && OneLine(TARGET) && TARGET[0] == ' ' && TARGET[24] == ' '
    ensures forall j :: 1 <= j < 24 ==> TARGET[j] != ' '
    ensures forall j :: 0 <= j < 25 ==> TARGET[j] != '&' && (TARGET[j] == 'B' ==> j + 1 < 25 && TARGET[j + 1] != 'e')
  {
  }

  lemma BeforeIsHead()
    ensures Head(BEFORE)
  {
    TargetIs();
    hide TARGET;
    assert BEFORE[..|TARGET|] == TARGET;
  }

  lemma TargetIsHead()
    ensures Head(TARGET)
  {
    TargetIs();
    hide TARGET;
    assert TARGET[..|TARGET|] == TARGET;
  }

  lemma SpacedLine(s: string, line: string)
    requires Spaced(s) && OneLine(line) && line != ""
    ensures Spaced(s + CRLF + line)
  {
  }

  lemma SpacedConcat(s: string, v: string)
    requires Spaced(s) && OneLine(v)
    ensures Spaced(s + v) && Spaced(v + s)
  {
    assert forall j :: 0 <= j < |v + s| ==> (v + s)[j] == if j < |v| then v[j] else s[j - |v|];
  }

  /** The blank line behind such text is its first. */
  lemma OnlyBlankLine(s: string)
    requires Spaced(s)
    ensures Reassembly.EndsBlank(s + BLANK_LINE)
  {
    var r := s + BLANK_LINE;
    assert r[|s|..|s| + 4] == BLANK_LINE;
    hide First;
    forall j | 0 <= j < |s| ensures !At(r, BLANK_LINE, j) {
      assert r[j] == s[j];
      assert j + 2 < |s| ==> r[j + 2] == s[j + 2];
      if At(r, BLANK_LINE, j) {
        AtChars(r, BLANK_LINE, j);
      }
    }
    FirstIs(r, BLANK_LINE, 0, |s|);
  }

  lemma LinesOfQuestion(b: string, value: string, agent: string)
    ensures Tail(b, value, agent) == b + value + CRLF + ORIGIN + CRLF + (USER_AGENT + agent) + BLANK_LINE
  {
    hide ORIGIN, USER_AGENT, BLANK_LINE;
  }

  lemma FixedLines()
    ensures OneLine(ORIGIN) && ORIGIN != "" && OneLine(USER_AGENT) && USER_AGENT != ""
    ensures 'B' !in ORIGIN && 'B' !in USER_AGENT && |ORIGIN| + |USER_AGENT| < 50
  {
  }

  /** The only blank line is the last. */
  lemma QuestionEndsBlank(b: string, value: string, agent: Agent)
    requires Spaced(b) && OneLine(value)
    ensures Reassembly.EndsBlank("GET" + Tail(b, value, agent))
  {
    FixedLines();
    var line := USER_AGENT + agent;
    var s := b + value + CRLF + ORIGIN + CRLF + line;
    assert OneLine(line) && line != "";
    hide ORIGIN, USER_AGENT, Tail, OneLine, Spaced, Reassembly.EndsBlank;
    LinesOfQuestion(b, value, agent);
    SpacedConcat(b, value);
    SpacedLine(b + value, ORIGIN);
    SpacedLine(b + value + CRLF + ORIGIN, line);
    assert OneLine("GET") by { WordIsOneLine(); }
    SpacedConcat(s, "GET");
    OnlyBlankLine("GET" + s);
    assert "GET" + (s + BLANK_LINE) == "GET" + s + BLANK_LINE;
  }

  lemma WordIsOneLine()
    ensures OneLine("GET")
  {
  }

  lemma BearerIsPattern()
    ensures OneLine("Bearer ") && |"Bearer "| == 7 && "Bearer "[0] == 'B' && "Bearer "[1] == 'e'
  {
  }

  lemma NoBearerAfter(agent: Agent)
    ensures !Contains(After(agent), "Bearer ")
  {
    FixedLines();
    BearerIsPattern();
    hide ORIGIN, USER_AGENT, OneLine, First;
    NotInNothing();
    var line := USER_AGENT + agent;
    FreeAfterPrefix(USER_AGENT, agent, "Bearer ");
    FreeAcrossLine(line, "", "Bearer ");
    FreeAcrossLine(line + CRLF + "", "", "Bearer ");
    FreeAfterPrefix(ORIGIN, "", "Bearer ");
    assert ORIGIN + "" == ORIGIN && line + CRLF + "" + CRLF + "" == line + BLANK_LINE;
    FreeAcrossLine(ORIGIN, line + BLANK_LINE, "Bearer ");
    assert ORIGIN + CRLF + (line + BLANK_LINE) == After(agent);
  }

  lemma NotInNothing()
    ensures !Contains("", "Bearer ")
  {
  }

  lemma NoBearerInHead(b: string, y: string, j: nat)
    requires Head(b) && j < |b|
    ensures !At(b + y, "Bearer ", j)
  {
    BearerIsPattern();
    hide At;
    assert (b + y)[j] == b[j];
    assert j + 1 < |b| ==> (b + y)[j + 1] == b[j + 1];
    if At(b + y, "Bearer ", j) {
      AtChars(b + y, "Bearer ", j);
    }
  }

  /** A `Bearer ` in the question is one in the value it forwards. */
  lemma BearersOfTail(b: string, value: string, agent: Agent, j: nat)
    requires Head(b)
    ensures At(Tail(b, value, agent), "Bearer ", j) <==> |b| <= j && At(value, "Bearer ", j - |b|)
  {
    BearerIsPattern();
    NoBearerAfter(agent);
    var w := After(agent);
    hide After, First, At, Head, OneLine;
    if j < |b| {
      NoBearerInHead(b, value + CRLF + w, j);
    } else {
      AtSkip(b, value + CRLF + w, "Bearer ", j - |b|);
      BearersOfLines(value, w, j - |b|);
    }
  }

  lemma BearersOfLines(value: string, w: string, i: nat)
    requires !Contains(w, "Bearer ")
    ensures At(value + CRLF + w, "Bearer ", i) <==> At(value, "Bearer ", i)
  {
    BearerIsPattern();
    FirstMeaning(w, "Bearer ", 0);
    hide First, At, OneLine;
    assert value + CRLF + w == value + (CRLF + w);
    if i + 7 <= |value| {
      AtPrefix(value, CRLF + w, "Bearer ", i);
    } else {
      NotBeyond(value, i);
      NotBehind(value + CRLF, w, i);
      if At(value + CRLF + w, "Bearer ", i) {
        NoStraddle(value, w, "Bearer ", i);
      }
    }
  }

  lemma NotBeyond(value: string, i: nat)
    requires i + 7 > |value|
    ensures !At(value, "Bearer ", i)
  {
  }

  lemma NotBehind(u: string, w: string, i: nat)
    requires NoneBefore(w, "Bearer ", 0, |w| + 1)
    ensures |u| <= i ==> !At(u + w, "Bearer ", i)
  {
    if |u| <= i {
      AtSkip(u, w, "Bearer ", i - |u|);
      NoBearers(w, 0);
    }
  }

  /** Where position `d` of the text is in the value behind `b`. */
  function Within(b: string, d: nat): nat {
    if d < |b| then 0 else d - |b|
  }

  /** The first `Bearer ` of the question from `d` on is the first of the value from there on. */
  lemma BearerFrom(b: string, value: string, agent: Agent, d: nat)
    requires Head(b)
    ensures First(Tail(b, value, agent), "Bearer ", d)
         == match First(value, "Bearer ", Within(b, d)) case None => None case Some(i) => Some(|b| + i)
  {
    var r, from := Tail(b, value, agent), Within(b, d);
    FirstMeaning(value, "Bearer ", from);
    hide First, At, Tail, Head;
    var found := First(value, "Bearer ", from);
    forall j: nat ensures At(r, "Bearer ", j) <==> |b| <= j && At(value, "Bearer ", j - |b|) {
      BearersOfTail(b, value, agent, j);
    }
    match found
    case None =>
      NoBearers(value, from);
      FirstIsNone(r, "Bearer ", d);
    case Some(i) =>
      FirstIs(r, "Bearer ", d, |b| + i);
  }

  lemma NoBearers(value: string, from: nat)
    requires NoneBefore(value, "Bearer ", from, |value| + 1)
    ensures forall j :: from <= j ==> !At(value, "Bearer ", j)
  {
  }

  // ----- what the auth server reads -----

  lemma StartsWithName(b: string, value: string, agent: string)
    requires Head(b)
    ensures exists w :: w != "" && w[0] == ' ' && Tail(b, value, agent) == " /" + (NAME + w)
  {
    hide NAME, After;
    var x := value + CRLF + After(agent);
    var w := " " + (b[|TARGET|..] + x);
    assert b == TARGET + b[|TARGET|..];
    assert Tail(b, value, agent) == " /" + (NAME + w);
    assert w[0] == ' ';
  }

  lemma TailSize(b: string, value: string, agent: Agent)
    requires Head(b)
    ensures |TARGET| <= |b| && |Tail(b, value, agent)| < |value| + 900 + 100
  {
    FixedLines();
    hide ORIGIN, USER_AGENT;
  }

  lemma MethodOfQuestion(b: string, value: string, agent: string)
    requires Head(b)
    ensures GetReqT("GET" + Tail(b, value, agent)) == Some(ReqType(Get, 3))
  {
    StartsWithName(b, value, agent);
    hide First, GetReqT, Tail, NAME, Head;
    var w :| w != "" && w[0] == ' ' && Tail(b, value, agent) == " /" + (NAME + w);
    var x := "/" + (NAME + w);
    assert " /" + (NAME + w) == " " + x;
    NameIsKnown();
    RequestMethod("GET", x);
  }

  lemma QuestionIsComplete(b: string, value: string, agent: Agent)
    requires Head(b) && OneLine(value) && |value| + 1100 < MAX_SIZE
    ensures Complete("GET" + Tail(b, value, agent)) && GetReqT("GET" + Tail(b, value, agent)) == Some(ReqType(Get, 3))
  {
    TailSize(b, value, agent);
    QuestionEndsBlank(b, value, agent);
    MethodOfQuestion(b, value, agent);
    hide First, GetReqT, Tail, OneLine, Head;
  }

  lemma OriginInTail(b: string, value: string, agent: string)
    ensures First(Tail(b, value, agent), "Origin: ", 0).Some?
  {
    hide First, USER_AGENT;
    var u, w := b + value + CRLF, "localhost:8081" + CRLF + (USER_AGENT + agent + BLANK_LINE);
    assert Tail(b, value, agent) == u + "Origin: " + w;
    assert At("Origin: ", "Origin: ", 0);
    ContainsAt("Origin: ", "Origin: ", 0);
    ContainsPart(u, "Origin: ", w, "Origin: ");
  }

  lemma ValueEnds(b: string, value: string, agent: string, i: nat)
    requires OneLine(value) && i <= |value|
    ensures First(Tail(b, value, agent), CRLF, |b| + i) == Some(|b| + |value|)
  {
    hide First, After;
    var u, line, w := b + value[..i], value[i..], CRLF + After(agent);
    LineThenBreak(line, w);
    assert value == value[..i] + line;
    assert Tail(b, value, agent) == u + (line + w);
    FirstSkip(u, line + w, CRLF, 0);
  }

  lemma QueryIsGood(b: string, value: string, agent: string)
    requires Head(b)
    ensures !FormRequest.BadHttp(Tail(b, value, agent), 4)
  {
    TargetIs();
    var t := Tail(b, value, agent);
    assert forall j :: 0 <= j < 25 ==> t[j] == b[..25][j];
    hide Tail, TARGET, Spaced;
    Reassembly.StopSurvives(t, "", 4, 24);
    assert t + "" == t;
  }

  lemma NameIsKnown()
    ensures NAME in GET_MSG_NAMES && GET_MSG_NAMES[NAME] == GetIdFsByAccess
    ensures ' ' !in NAME && '?' !in NAME && |NAME| == 22
  {
  }

  lemma TokenText(b: string, value: string, agent: string, i: nat)
    requires i + 7 <= |value|
    ensures |b| + |value| <= |Tail(b, value, agent)|
    ensures Tail(b, value, agent)[|b| + i + 7..|b| + |value|] == value[i + 7..]
  {
    hide After;
  }

  /** The token read from `d` on is the rest of the value behind the first `Bearer ` from there on. */
  lemma TokenFrom(b: string, value: string, agent: Agent, d: nat)
    requires Head(b) && OneLine(value) && |value| + 1100 < MAX_SIZE && d <= |Tail(b, value, agent)|
    ensures var found := First(value, "Bearer ", Within(b, d));
            GetValueWithSpace(Tail(b, value, agent)[d..], "Bearer ")
            == match found case None => None case Some(i) => Some(value[i + 7..])
  {
    hide First, Tail, OneLine, GetValueWithSpace, Head, At, GoodAgent;
    BearerFrom(b, value, agent, d);
    TailSize(b, value, agent);
    BearerStands(value, Within(b, d));
    var found := First(value, "Bearer ", Within(b, d));
    FirstInRest(Tail(b, value, agent), "Bearer ", d);
    if found.None? {
      NoHeader(Tail(b, value, agent)[d..], "Bearer ");
    } else {
      TokenAt(b, value, agent, d, found.value);
    }
  }

  lemma TokenAt(b: string, value: string, agent: Agent, d: nat, i: nat)
    requires OneLine(value) && d <= |b| + i && |Tail(b, value, agent)| < MAX_SIZE && At(value, "Bearer ", i)
    requires d <= |Tail(b, value, agent)| && First(Tail(b, value, agent)[d..], "Bearer ", 0) == Some(|b| + i - d)
    ensures i + 7 <= |value| && GetValueWithSpace(Tail(b, value, agent)[d..], "Bearer ") == Some(value[i + 7..])
  {
    hide First, Tail, OneLine, GetValueWithSpace;
    BearerFits(value, i);
    ValueEnds(b, value, agent, i);
    TokenText(b, value, agent, i);
    ValueInRest(Tail(b, value, agent), d, |b| + i, |b| + |value|);
  }

  lemma BearerStands(value: string, from: nat)
    ensures First(value, "Bearer ", from).Some? ==> At(value, "Bearer ", First(value, "Bearer ", from).value)
  {
    FirstMeaning(value, "Bearer ", from);
  }

  lemma BearerFits(value: string, i: nat)
    requires At(value, "Bearer ", i)
    ensures i + 7 <= |value|
  {
    BearerIsPattern();
  }

  lemma FirstInRest(r: string, pat: string, d: nat)
    requires d <= |r|
    ensures First(r[d..], pat, 0) == match First(r, pat, d) case None => None case Some(i) => if d <= i then Some(i - d) else None
  {
    hide First;
    assert r == r[..d] + r[d..];
    FirstSkip(r[..d], r[d..], pat, 0);
  }

  lemma ValueInRest(r: string, d: nat, p: nat, e: nat)
    requires d <= p <= p + 7 <= e <= |r| < MAX_SIZE
    requires First(r[d..], "Bearer ", 0) == Some(p - d) && First(r, CRLF, p) == Some(e)
    ensures GetValueWithSpace(r[d..], "Bearer ") == Some(r[p + 7..e])
  {
    hide First, GetValueWithSpace;
    BearerIsPattern();
    assert r == r[..d] + r[d..];
    FirstSkip(r[..d], r[d..], CRLF, p - d);
    HeaderValueIs(r[d..], "Bearer ", p - d, e - d);
    assert r[d..][p - d + 7..e - d] == r[p + 7..e];
  }

  lemma TokenInTail(b: string, value: string, agent: Agent)
    requires Head(b) && OneLine(value) && |value| + 1100 < MAX_SIZE
    ensures GetValueWithSpace(Tail(b, value, agent), "Bearer ") == BearerToken(value)
  {
    hide First, Tail, OneLine, GetValueWithSpace, Head;
    TokenFrom(b, value, agent, 0);
    assert Tail(b, value, agent)[0..] == Tail(b, value, agent);
    HeadIsSome(b);
  }

  lemma HeadIsSome(b: string)
    requires Head(b)
    ensures |b| > 0
  {
    TargetIs();
    hide TARGET;
  }

  lemma TailParses(req: string)
    requires First(req, "Origin: ", 0).Some? && !FormRequest.BadHttp(req, 4)
    requires RouteOf(req) == Name(NAME)
    ensures var r := ParseGetT(req);
            match GetValueWithSpace(req, "Bearer ")
            case None => r.status == Raised
            case Some(token) => r.status == Success && r.info.GetInfo? && r.info.getMsg == GetIdFsByAccess && r.info.accessToken == token
  {
    NameIsKnown();
    NothingToThrow(req);
    hide First, RouteOf, FormRequest.BadHttp, GET_MSG_NAMES, Arguments;
  }

  /** A parse of the question asks for the id behind this token; without one, the auth server's thread throws. */
  ghost predicate AsksFor(r: Parsed, token: Option<string>) {
    match token
    case None => r.status == Raised
    case Some(t) => r.status == Success && r.info.GetInfo? && r.info.getMsg == GetIdFsByAccess && r.info.accessToken == t
  }

  lemma TextIsRead(b: string, value: string, agent: Agent, decodes: Decoder)
    requires Head(b) && OneLine(value) && |value| + 1100 < MAX_SIZE
    ensures AsksFor(Parse("GET" + Tail(b, value, agent), decodes), BearerToken(value))
  {
    var req := Tail(b, value, agent);
    QuestionIsComplete(b, value, agent);
    StartsWithName(b, value, agent);
    TailSize(b, value, agent);
    hide First, Tail, OneLine, GetReqT, Parse, RouteOf, ParseGetT, BearerToken, FormRequest.BadHttp, Head, Complete;
    ParseOfComplete("GET" + req, decodes);
    assert ("GET" + req)[3..] == req;
    OriginInTail(b, value, agent);
    QueryIsGood(b, value, agent);
    NameIsKnown();
    var w :| w != "" && w[0] == ' ' && req == " /" + (NAME + w);
    RouteIsName(NAME, w);
    TokenInTail(b, value, agent);
    TailParses(req);
  }

  /** The question parses as a request for the id behind exactly the token that the forwarded value holds;
      a value without one makes the auth server's thread throw. */
  lemma QuestionIsRead(authorization: string, agent: Agent, decodes: Decoder)
    requires OneLine(authorization) && |authorization| + 1100 < MAX_SIZE
    ensures AsksFor(Parse(Forwarded(authorization, agent), decodes), BearerToken(authorization))
  {
    hide First, Tail, OneLine, Parse, BearerToken, Head, AsksFor;
    BeforeIsHead();
    TextIsRead(BEFORE, authorization, agent, decodes);
  }

  lemma ForwardedIsQuestion(authorization: string, agent: Agent)
    requires OneLine(authorization) && |authorization| + 1100 < MAX_SIZE
    ensures var q := Forwarded(authorization, agent);
            && Complete(q) && GetReqT(q) == Some(ReqType(Get, 3)) && Reassembly.EndsBlank(q)
  {
    hide First, Tail, OneLine, Head, Complete, GetReqT, Reassembly.EndsBlank;
    BeforeIsHead();
    HeadIsSpaced(BEFORE);
    QuestionIsComplete(BEFORE, authorization, agent);
    QuestionEndsBlank(BEFORE, authorization, agent);
  }

  lemma HeadIsSpaced(b: string)
    requires Head(b)
    ensures Spaced(b)
  {
  }

  // ----- the question in pieces -----

  /** How much of the question is thrown away before a piece shows a method. */
  function Dropped(chunks: seq<string>): nat {
    |Reassembly.Concat(chunks[..Reassembly.Shown(chunks)])|
  }

  /** However the question is cut, it has the effect of one turn on what is left of it when a piece shows a method;
      all of it is left exactly if the first piece has 7 bytes. */
  lemma QuestionInPieces(authorization: string, agent: Agent, chunks: seq<string>, env: Env)
    requires OneLine(authorization) && |authorization| + 1100 < MAX_SIZE
    requires Reassembly.Chunking(chunks, Forwarded(authorization, agent))
    ensures var q := Forwarded(authorization, agent);
            && Dropped(chunks) <= |q|
            && RunOn(State("", [], true), chunks, env)
               == (if Reassembly.Shown(chunks) == |chunks| then State("", [], true)
                   else Receive(State("", [], true), q[Dropped(chunks)..], env))
    ensures |chunks[0]| >= 7 <==> Reassembly.Shown(chunks) == 0
  {
    var q := Forwarded(authorization, agent);
    hide First, Forwarded, OneLine, GetReqT, Receive, RunOn, Complete;
    ForwardedIsQuestion(authorization, agent);
    Reassembly.AnyPieces(chunks, q, env);
    assert q == chunks[0] + Reassembly.Concat(chunks[1..]);
    assert q[..|chunks[0]|] == chunks[0];
    MethodOfPrefix(q, |chunks[0]|);
  }

  /** The auth server answers for this token: once, with the user its check names or by refusing it; or it crashes. */
  ghost predicate AnswersFor(end: State, token: Option<string>, env: Env) {
    match token
    case None => end.events == [] && !end.running
    case Some(t) =>
      |end.events| == 1
      && end.events[0].info.GetInfo? && end.events[0].info.getMsg == GetIdFsByAccess
      && end.events[0].info.accessToken == t
      && match env.verify(t)
         case None => end.events[0].Refused?
         case Some(user) => end.events[0].Served? && end.events[0].user == user
  }

  lemma WholeTurn(r: string, token: Option<string>, env: Env)
    requires AsksFor(Parse(r, env.decodes), token)
    ensures AnswersFor(Receive(State("", [], true), r, env), token, env)
  {
    hide Parse;
    assert "" + r == r;
  }

  /** However the question is cut into pieces, if the first shows the method: the auth server answers once, for the
      very token that was forwarded; with the user its check names, or by refusing it; or it crashes, if there is none. */
  lemma QuestionIsAnswered(authorization: string, agent: Agent, chunks: seq<string>, env: Env)
    requires OneLine(authorization) && |authorization| + 1100 < MAX_SIZE
    requires Reassembly.Chunking(chunks, Forwarded(authorization, agent)) && |chunks[0]| >= 7
    ensures AnswersFor(RunOn(State("", [], true), chunks, env), BearerToken(authorization), env)
  {
    var q := Forwarded(authorization, agent);
    hide Forwarded, OneLine, BearerToken, RunOn, Receive, AnswersFor, AsksFor, Parse, Reassembly.Shown, Reassembly.Concat;
    QuestionInPieces(authorization, agent, chunks, env);
    NothingDropped(chunks);
    assert q[0..] == q;
    QuestionIsRead(authorization, agent, env.decodes);
    WholeTurn(q, BearerToken(authorization), env);
  }

  lemma NothingDropped(chunks: seq<string>)
    requires Reassembly.Shown(chunks) == 0
    ensures Dropped(chunks) == 0
  {
    hide Reassembly.Shown;
  }

  /** The first `Bearer ` of the value is behind what is thrown away. */
  predicate BearerKept(authorization: string, chunks: seq<string>) {
    First(authorization, "Bearer ", 0).Some? && Dropped(chunks) <= |BEFORE| + First(authorization, "Bearer ", 0).value
  }

  /** What an event of one turn on `t` says about the check of its token. */
  lemma TurnChecks(t: string, env: Env)
    ensures var end := Receive(State("", [], true), t, env);
            && |end.events| <= 1
            && (end.events != [] ==>
                  && end.events[0].info == Parse(t, env.decodes).info && Parse(t, env.decodes).status == Success
                  && (end.events[0].Refused? ==> NeedsToken(end.events[0].info))
                  && (NeedsToken(end.events[0].info) ==>
                        match end.events[0]
                        case Refused(_, info) => env.verify(TokenOf(info)) == None
                        case Served(_, info, user) => env.verify(TokenOf(info)) == Some(user)))
  {
    hide Parse, NeedsToken, TokenOf;
    assert "" + t == t;
  }

  /** A parsed GET has read its token behind the method. */
  lemma GetReadsToken(t: string, decodes: Decoder)
    requires Parse(t, decodes).status == Success && Parse(t, decodes).info.GetInfo? && NeedsToken(Parse(t, decodes).info)
    ensures |t| >= 3 && GetValueWithSpace(t[3..], "Bearer ") == Some(Parse(t, decodes).info.accessToken)
  {
    hide First, ParseGetT, ParsePostT, CheckIsFullRequest;
    OnlyGetGivesGet(t, decodes);
    Reassembly.GetVerdict(t[3..]);
    hide GetValueWithSpace, GetValueSomeHeader, RouteOf, GET_MSG_NAMES;
  }

  lemma OnlyGetGivesGet(t: string, decodes: Decoder)
    requires Parse(t, decodes).status == Success && Parse(t, decodes).info.GetInfo?
    ensures GetReqT(t) == Some(ReqType(Get, 3)) && |t| >= 3 && Parse(t, decodes) == ParseGetT(t[3..])
  {
    hide First, ParseGetT, CheckIsFullRequest, RouteOf, POST_MSG_NAMES, GetValueWithSpace, GetValueSomeHeader;
  }

  lemma LaterBearer(value: string, from: nat)
    requires First(value, "Bearer ", from).Some?
    ensures First(value, "Bearer ", 0).Some?
    ensures First(value, "Bearer ", from) == First(value, "Bearer ", 0) <==> from <= First(value, "Bearer ", 0).value
    ensures from > First(value, "Bearer ", 0).value ==> First(value, "Bearer ", from).value > First(value, "Bearer ", 0).value
    ensures First(value, "Bearer ", from).value + 7 <= |value| && First(value, "Bearer ", 0).value + 7 <= |value|
  {
    BearerIsPattern();
    FirstMeaning(value, "Bearer ", 0);
    FirstMeaning(value, "Bearer ", from);
    hide First;
    if First(value, "Bearer ", 0).Some? && from <= First(value, "Bearer ", 0).value {
      FirstIs(value, "Bearer ", from, First(value, "Bearer ", 0).value);
    }
  }

  lemma TokensOfBearers(value: string, from: nat)
    requires First(value, "Bearer ", from).Some?
    ensures First(value, "Bearer ", from).value + 7 <= |value|
    ensures BearerToken(value) == Some(value[First(value, "Bearer ", from).value + 7..])
            <==> First(value, "Bearer ", 0).Some? && from <= First(value, "Bearer ", 0).value
  {
    hide First;
    LaterBearer(value, from);
    var i, k := First(value, "Bearer ", 0).value, First(value, "Bearer ", from).value;
    assert |value[i + 7..]| == |value| - i - 7 && |value[k + 7..]| == |value| - k - 7;
  }

  /** In any pieces, the token that the auth server checks is the forwarded one if and only if the first `Bearer ` of
      the value is not thrown away with the pieces before the one that shows a method. */
  lemma CheckedTokenIffBearerKept(authorization: string, agent: Agent, chunks: seq<string>, env: Env)
    requires OneLine(authorization) && |authorization| + 1100 < MAX_SIZE
    requires Reassembly.Chunking(chunks, Forwarded(authorization, agent))
    requires var end := RunOn(State("", [], true), chunks, env);
             end.events != [] && end.events[0].info.GetInfo? && NeedsToken(end.events[0].info)
    ensures BearerToken(authorization) == Some(RunOn(State("", [], true), chunks, env).events[0].info.accessToken)
            <==> BearerKept(authorization, chunks)
  {
    var q, d := Forwarded(authorization, agent), Dropped(chunks);
    hide First, Tail, OneLine, Receive, RunOn, Parse, GetValueWithSpace, Dropped, Reassembly.Shown, BearerToken, Head;
    QuestionInPieces(authorization, agent, chunks, env);
    var t := q[d..];
    TurnChecks(t, env);
    GetReadsToken(t, env.decodes);
    BehindMethod(authorization, agent, d);
    BeforeIsHead();
    TokenFrom(BEFORE, authorization, agent, d);
    TokensOfBearers(authorization, Within(BEFORE, d));
  }

  lemma BehindMethod(authorization: string, agent: Agent, d: nat)
    requires d + 3 <= |Forwarded(authorization, agent)|
    ensures d <= |Tail(BEFORE, authorization, agent)|
    ensures Forwarded(authorization, agent)[d..][3..] == Tail(BEFORE, authorization, agent)[d..]
  {
    hide Tail;
  }

  /** Whatever is left of the question: what the auth server does with it follows the check of the token it reads. */
  lemma CheckOfQuestion(authorization: string, agent: Agent, chunks: seq<string>, env: Env)
    requires OneLine(authorization) && |authorization| + 1100 < MAX_SIZE
    requires Reassembly.Chunking(chunks, Forwarded(authorization, agent))
    ensures var end := RunOn(State("", [], true), chunks, env);
            && |end.events| <= 1
            && (end.events != [] ==>
                  && (end.events[0].Refused? ==> NeedsToken(end.events[0].info))
                  && (NeedsToken(end.events[0].info) ==>
                        match end.events[0]
                        case Refused(_, info) => env.verify(TokenOf(info)) == None
                        case Served(_, info, user) => env.verify(TokenOf(info)) == Some(user)))
  {
    hide Forwarded, OneLine, RunOn, Receive, Parse, NeedsToken, TokenOf, Dropped, Reassembly.Shown;
    QuestionInPieces(authorization, agent, chunks, env);
    TurnChecks(Forwarded(authorization, agent)[Dropped(chunks)..], env);
  }

  // ----- two ways to cut it badly -----

  lemma NoMethodIn(u: string)
    requires |u| >= 8 && forall j :: 0 <= j < 8 ==> u[j] != ' '
    ensures GetReqT(u) == None
  {
    FirstMeaning(u, " ", 0);
    hide First;
    if First(u, " ", 0).Some? {
      AtChars(u, " ", First(u, " ", 0).value);
      assert u[First(u, " ", 0).value] == ' ';
    }
  }

  lemma FourBytesAreNone()
    ensures GetReqT("GET ") == None
  {
  }

  lemma PathIs(x: string)
    ensures GetReqT(BEFORE[1..] + x) == None && BEFORE == " " + BEFORE[1..]
  {
    TargetIs();
    hide TARGET;
    assert forall j :: 1 <= j < 9 ==> BEFORE[j] == TARGET[j];
    hide BEFORE;
    assert forall j :: 0 <= j < 8 ==> (BEFORE[1..] + x)[j] == BEFORE[j + 1];
    NoMethodIn(BEFORE[1..] + x);
  }

  lemma TwoPieces(u: string, w: string)
    requires u != "" && w != ""
    ensures Reassembly.Chunking([u, w], u + w)
  {
    assert [u, w][1..] == [w] && [w][1..] == [];
    assert Reassembly.Concat([w]) == w;
  }

  lemma NoneShown(u: string, w: string)
    requires GetReqT(u) == None && GetReqT(w) == None
    ensures Reassembly.Shown([u, w]) == 2
  {
    hide GetReqT;
    assert [u, w][1..] == [w];
    assert Reassembly.Shown([w]) == 1;
  }

  /** Cut after its method's blank, the question is lost whole: neither piece shows a method. */
  lemma CutAfterMethod(authorization: string, agent: Agent, env: Env)
    ensures exists rest :: Reassembly.Chunking(["GET ", rest], Forwarded(authorization, agent))
                           && RunOn(State("", [], true), ["GET ", rest], env) == State("", [], true)
  {
    var x := authorization + CRLF + After(agent);
    PathIs(x);
    hide BEFORE, GetReqT, After, RunOn;
    var rest := BEFORE[1..] + x;
    assert Forwarded(authorization, agent) == "GET " + rest;
    TwoPieces("GET ", rest);
    FourBytesAreNone();
    NoneShown("GET ", rest);
    Reassembly.EarlyPiecesAreDropped([], ["GET ", rest], env);
    assert ["GET ", rest][2..] == [];
    NoChunks(env);
  }

  lemma NoChunks(env: Env)
    ensures RunOn(State("", [], true), [], env) == State("", [], true)
  {
  }

  /** A value that holds a question of its own. */
  const STRAY := "Bearer x " + ("GET" + (TARGET + "Bearer y"))

  lemma StrayToken()
    ensures BearerToken(STRAY).Some? && BearerToken(STRAY) != Some("y") && BearerToken("Bearer y") == Some("y")
    ensures OneLine("Bearer y")
  {
    var w := "x " + ("GET" + (TARGET + "Bearer y"));
    assert STRAY == "Bearer " + w && "Bearer y" == "Bearer " + "y";
    StartsWithBearer(w);
    StartsWithBearer("y");
  }

  lemma StartsWithBearer(w: string)
    ensures BearerToken("Bearer " + w) == Some(w)
  {
    var s := "Bearer " + w;
    assert s[0..7] == "Bearer ";
    assert At(s, "Bearer ", 0);
    hide First;
    FirstIs(s, "Bearer ", 0, 0);
    assert s[7..] == w;
  }

  lemma Regroup(path: string, u: string, last: string)
    ensures "GET" + (" " + path + (u + last)) == "GET " + (path + u) + last
  {
  }

  lemma StrayTail(agent: string)
    ensures Tail(BEFORE, STRAY, agent) == BEFORE + ("Bearer x " + ("GET" + Tail(TARGET, "Bearer y", agent)))
  {
    hide BEFORE, TARGET, After;
    var y := "Bearer y" + CRLF + After(agent);
    assert Tail(TARGET, "Bearer y", agent) == TARGET + y;
    assert STRAY + CRLF + After(agent) == "Bearer x " + ("GET" + (TARGET + y));
  }

  lemma StrayPieces(agent: Agent)
    ensures Forwarded(STRAY, agent) == "GET " + (BEFORE[1..] + "Bearer x ") + ("GET" + Tail(TARGET, "Bearer y", agent))
  {
    PathIs("");
    hide BEFORE, TARGET, STRAY, Tail;
    StrayTail(agent);
    Regroup(BEFORE[1..], "Bearer x ", "GET" + Tail(TARGET, "Bearer y", agent));
  }

  lemma ThreePieces(u: string, v: string, w: string, env: Env)
    requires u != "" && v != "" && w != "" && GetReqT(u) == None && GetReqT(v) == None
    ensures Reassembly.Chunking([u, v, w], u + v + w)
    ensures RunOn(State("", [], true), [u, v, w], env) == Receive(State("", [], true), w, env)
  {
    hide GetReqT, Receive;
    assert [u, v, w][1..] == [v, w];
    TwoPieces(v, w);
    assert u + (v + w) == u + v + w;
    Reassembly.UnknownIsDropped([], u, env);
    Reassembly.UnknownIsDropped([], v, env);
    assert [v, w][1..] == [w] && [w][1..] == [];
    var start := State("", [], true);
    assert RunOn(start, [u, v, w], env) == RunOn(start, [v, w], env) == RunOn(start, [w], env);
    assert RunOn(start, [w], env) == RunOn(Receive(start, w, env), [], env);
  }

  /** Cut so that the only piece to show a method starts inside the value, the question is answered for a token that is
      not the forwarded one. */
  lemma CutInsideValue(agent: Agent, env: Env)
    ensures BearerToken(STRAY).Some? && BearerToken(STRAY) != Some("y")
    ensures exists chunks :: Reassembly.Chunking(chunks, Forwarded(STRAY, agent))
                             && AnswersFor(RunOn(State("", [], true), chunks, env), Some("y"), env)
  {
    StrayToken();
    TargetIsHead();
    PathIs("Bearer x ");
    FourBytesAreNone();
    hide STRAY, BEFORE, TARGET, RunOn, Receive, AsksFor, AnswersFor, BearerToken, GetReqT, Parse, Tail, Head, OneLine, Forwarded;
    var mid, last := BEFORE[1..] + "Bearer x ", "GET" + Tail(TARGET, "Bearer y", agent);
    StrayPieces(agent);
    ThreePieces("GET ", mid, last, env);
    TextIsRead(TARGET, "Bearer y", agent, env.decodes);
    WholeTurn(last, Some("y"), env);
  }

  /** The question is a request of the kinds that `Reassembly` speaks of: accepted when its token verifies, and
      when it does not, one that would stay in the buffer. */
  lemma QuestionIsAcceptedOrRefused(authorization: string, agent: Agent, token: string, env: Env)
    requires OneLine(authorization) && |authorization| + 1100 < MAX_SIZE && BearerToken(authorization) == Some(token)
    ensures env.verify(token).Some? <==> Reassembly.Accepted(Forwarded(authorization, agent), env)
    ensures env.verify(token).None? <==> Reassembly.RefusedGet(Forwarded(authorization, agent), env)
  {
    hide Forwarded, First, OneLine, Complete, Parse, BearerToken, GetReqT, Reassembly.EndsBlank;
    ForwardedIsQuestion(authorization, agent);
    QuestionIsRead(authorization, agent, env.decodes);
  }
}
