/** What the framing of `HttpParser` guarantees: when a buffer is a whole request, what its prefixes
    parse to, and what its request line is routed to (sections 3 and 6 of RFC 9112). */
module HttpFraming {
  import opened Text
  import opened Request
  import opened HttpParser
  import Decimal
  import FormRequest

  const LENGTH_HEADER := "Content-Length: "

  /** A whole request of a recognisable method: the first blank line ends it, or, for POST, is followed
      by as many bytes as a Content-Length header before that line says. */
  ghost predicate Complete(r: string) {
    && |r| < MAX_SIZE
    && GetReqT(r).Some?
    && match First(r, BLANK_LINE, 0)
       case None => false
       case Some(h) =>
         if GetReqT(r).value.verb != Post then |r| == h + 4
         else
           match First(r, LENGTH_HEADER, 0)
           case None => false
           case Some(c) =>
             c < h && Decimal.Stoi(GetValueSomeHeader(r, LENGTH_HEADER).value) == Some(|r| - h - 4)
  }

  /** The bytes it takes to recognise the method. */
  function Threshold(r: string): nat
    requires GetReqT(r).Some?
  {
    if GetReqT(r).value.size + 1 > MAX_HDR_SIZE then GetReqT(r).value.size + 1 else MAX_HDR_SIZE
  }

  /** A request is recognised from exactly its first `Threshold` bytes on, always as the same method. */
  lemma MethodOfPrefix(r: string, n: nat)
    requires GetReqT(r).Some? && n <= |r|
    ensures GetReqT(r[..n]) == if n < Threshold(r) then None else GetReqT(r)
  {
    var shift := GetReqT(r).value.size;
    FirstInPrefix(r, " ", 0, n);
    hide First;
    if n >= Threshold(r) {
      assert r[..n][..shift] == r[..shift];
    }
  }

  lemma MethodOfLonger(r: string, x: string)
    requires GetReqT(r).Some?
    ensures GetReqT(r + x) == GetReqT(r)
  {
    FirstStable(r, x, " ", 0);
    hide First;
    var shift := GetReqT(r).value.size;
    assert (r + x)[..shift] == r[..shift];
  }

  lemma CompleteIsFull(r: string)
    requires Complete(r)
    ensures CheckIsFullRequest(r, GetReqT(r).value.verb) == Success
  {
    hide First, GetReqT;
    if GetReqT(r).value.verb == Post {
      assert GetValueSomeHeader(r, LENGTH_HEADER).Some?;
    }
  }

  lemma BreakIsAfterLine(r: string, header: string, c: int, e: int)
    requires OneLine(header) && At(r, header, c) && At(r, CRLF, e) && c <= e
    ensures c + |header| <= e
  {
    AtChars(r, header, c);
    AtChars(r, CRLF, e);
    assert r[e] == CRLF[0];
    assert forall k :: c <= k < c + |header| ==> r[k] != '\r';
  }

  lemma BlankLineIsBreak(r: string, h: int)
    requires At(r, BLANK_LINE, h)
    ensures At(r, CRLF, h)
  {
    AtChars(r, BLANK_LINE, h);
  }

  /** A one-line header that starts before the blank line has its line end by then. */
  lemma LineEndsByBlankLine(r: string, header: string, c: nat, h: nat)
    requires OneLine(header) && header != "" && First(r, header, 0) == Some(c) && First(r, BLANK_LINE, 0) == Some(h) && c < h
    ensures First(r, CRLF, c).Some? && c + |header| <= First(r, CRLF, c).value <= h
  {
    FirstMeaning(r, header, 0);
    FirstMeaning(r, BLANK_LINE, 0);
    FirstMeaning(r, CRLF, c);
    hide First, At;
    BlankLineIsBreak(r, h);
    BreakIsAfterLine(r, header, c, First(r, CRLF, c).value);
  }

  lemma LengthHeaderIsOneLine()
    ensures OneLine(LENGTH_HEADER) && LENGTH_HEADER != ""
  {
  }

  /** A prefix that holds the whole header section holds the same length header. */
  lemma LengthOfPrefix(r: string, n: nat, h: nat, c: nat)
    requires n <= |r| < MAX_SIZE && h + 4 <= n
    requires First(r, BLANK_LINE, 0) == Some(h) && First(r, LENGTH_HEADER, 0) == Some(c) && c < h
    ensures First(r[..n], BLANK_LINE, 0) == Some(h)
    ensures GetValueSomeHeader(r, LENGTH_HEADER).Some?
    ensures GetValueSomeHeader(r[..n], LENGTH_HEADER) == GetValueSomeHeader(r, LENGTH_HEADER)
  {
    hide First;
    LengthHeaderIsOneLine();
    hide OneLine, GetValueSomeHeader;
    LineEndsByBlankLine(r, LENGTH_HEADER, c, h);
    var e := First(r, CRLF, c).value;
    FirstInPrefix(r, BLANK_LINE, 0, n);
    FirstInPrefix(r, LENGTH_HEADER, 0, n);
    FirstInPrefix(r, CRLF, c, n);
    assert r == r[..n] + r[n..];
    HeaderValueIs(r, LENGTH_HEADER, c, e);
    HeaderValueStable(r[..n], r[n..], LENGTH_HEADER, c, e);
  }

  lemma BodyIsShort(r: string, n: nat)
    requires Complete(r) && GetReqT(r).value.verb == Post && n < |r|
    requires First(r, BLANK_LINE, 0).value + 4 <= n
    ensures CheckIsFullRequest(r[..n], Post) == NotFullReq
  {
    hide First, GetReqT, GetValueSomeHeader;
    LengthOfPrefix(r, n, First(r, BLANK_LINE, 0).value, First(r, LENGTH_HEADER, 0).value);
    assert |r[..n]| == n;
  }

  /** Whatever prefix of a whole request arrives, the parser waits for the rest, as soon as the method can
      be recognised; a shorter prefix is refused. */
  lemma PrefixVerdict(r: string, n: nat, decodes: Decoder)
    requires Complete(r) && n < |r|
    ensures Parse(r[..n], decodes) == Parsed(if n < Threshold(r) then BadHttp else NotFullReq, NoInfo)
  {
    MethodOfPrefix(r, n);
    if n >= Threshold(r) {
      var h := First(r, BLANK_LINE, 0).value;
      FirstInPrefix(r, BLANK_LINE, 0, n);
      if h + 4 <= n {
        assert GetReqT(r).value.verb == Post;
        BodyIsShort(r, n);
      }
    }
  }

  lemma ParseOfComplete(r: string, decodes: Decoder)
    requires Complete(r)
    ensures Parse(r, decodes) == Dispatch(r[GetReqT(r).value.size..], GetReqT(r).value.verb, decodes)
  {
    hide First, GetReqT, Dispatch;
    CompleteIsFull(r);
    hide CheckIsFullRequest;
  }

  /** A POST whose headers have ended is beyond repair if no length can be read: without the header an empty optional is
      dereferenced, and a value that is no 32-bit number throws; a negative one is waited for in vain. */
  lemma PostWithoutLength(r: string, h: nat, decodes: Decoder)
    requires |r| < MAX_SIZE && GetReqT(r) == Some(ReqType(Post, 4)) && First(r, BLANK_LINE, 0) == Some(h)
    ensures First(r, LENGTH_HEADER, 0) == None ==> Parse(r, decodes) == Parsed(Undefined, NoInfo)
    ensures First(r, LENGTH_HEADER, 0).Some? ==>
              && GetValueSomeHeader(r, LENGTH_HEADER).Some?
              && var length := Decimal.Stoi(GetValueSomeHeader(r, LENGTH_HEADER).value);
                 && (length == None ==> Parse(r, decodes) == Parsed(Raised, NoInfo))
                 && (length.Some? && length.value < 0 ==> Parse(r, decodes) == Parsed(NotFullReq, NoInfo))
  {
    hide First, GetReqT, Decimal.Stoi, Dispatch;
  }

  // ----- routing -----

  lemma {:induction false} FirstOfIs(s: string, from: nat, i: nat)
    requires from <= i < |s| && (s[i] == ' ' || s[i] == '?')
    requires forall j :: from <= j < i ==> s[j] != ' ' && s[j] != '?'
    ensures FirstOfSpaceOrQuestion(s, from) == Some(i)
    decreases i - from
  {
    if from < i {
      FirstOfIs(s, from + 1, i);
    }
  }

  /** `name` follows position `slash` of `req`, and a space or a question mark follows `name`. */
  ghost predicate Names(req: string, slash: nat, name: string) {
    && ' ' !in name && '?' !in name
    && slash + 1 + |name| < |req| && req[slash + 1..slash + 1 + |name|] == name
    && (req[slash + 1 + |name|] == ' ' || req[slash + 1 + |name|] == '?')
  }

  lemma NameEnds(req: string, slash: nat, name: string)
    requires Names(req, slash, name) && req[slash] == '/'
    ensures FirstOfSpaceOrQuestion(req[slash..], 0) == Some(|name| + 1)
  {
    var s := req[slash..];
    forall j | 0 <= j < |name| + 1 ensures s[j] != ' ' && s[j] != '?' {
      assert j > 0 ==> s[j] == req[slash + 1..slash + 1 + |name|][j - 1];
    }
    FirstOfIs(s, 0, |name| + 1);
  }

  /** The index arithmetic cuts the name `slash - 1` bytes short, or lets it run too far: what it recovers
      is the name exactly when the first slash is at index 1. */
  lemma RouteIsExactIff(req: string, slash: nat, name: string)
    requires |req| < MAX_SIZE && First(req, "/", 0) == Some(slash) && Names(req, slash, name)
    ensures RouteOf(req) == Name(name) <==> slash == 1
  {
    hide First, FirstOfSpaceOrQuestion;
    FirstMeaning(req, "/", 0);
    AtChars(req, "/", slash);
    NameEnds(req, slash, name);
    CutIsExactIff(req, slash, name);
    hide Names, Substr, Minus;
  }

  lemma CutIsExactIff(req: string, slash: nat, name: string)
    requires |req| < MAX_SIZE && slash + 1 + |name| < |req| && req[slash + 1..slash + 1 + |name|] == name
    ensures Substr(req, slash + 1, Minus(|name| + 1, slash)) == Some(name) <==> slash == 1
  {
    var n := Minus(|name| + 1, slash);
    var cut := Substr(req, slash + 1, n).value;
    assert |cut| == if n < |req| - slash - 1 then n else |req| - slash - 1;
    assert |cut| == |name| <==> slash == 1;
  }

  const ABSOLUTE := " http://h/login HTTP/1.1"

  lemma AbsoluteText()
    ensures |ABSOLUTE| == 24 && ABSOLUTE[6] == '/' && ABSOLUTE[15] == ' '
    ensures ABSOLUTE[7] == '/' && ABSOLUTE[8] == 'h' && ABSOLUTE[9] == '/'
    ensures forall i :: 0 <= i < 6 ==> ABSOLUTE[i] != '/'
    ensures forall i :: 6 <= i < 15 ==> ABSOLUTE[i] != ' ' && ABSOLUTE[i] != '?'
  {
  }

  lemma FirstSlash(req: string, slash: nat)
    requires slash < |req| && req[slash] == '/' && forall i :: 0 <= i < slash ==> req[i] != '/'
    ensures First(req, "/", 0) == Some(slash)
  {
    assert req[slash..slash + 1] == "/";
    hide First;
    forall j | 0 <= j < slash ensures !At(req, "/", j) {
      if At(req, "/", j) {
        AtChars(req, "/", j);
      }
    }
    FirstIs(req, "/", 0, slash);
  }

  lemma RouteIsCut(req: string, slash: nat, end: nat)
    requires First(req, "/", 0) == Some(slash) && FirstOfSpaceOrQuestion(req[slash..], 0) == Some(end - slash)
    requires 2 * slash <= end && end <= |req| < MAX_SIZE
    ensures RouteOf(req) == Name(req[slash + 1..end + 1 - slash])
  {
    hide First, FirstOfSpaceOrQuestion;
  }

  /** A target in absolute form, as a proxy is sent it (section 3.2.2 of RFC 9112): its first slash is at index 6, and the
      route read from it is `/h/`, which no table knows. */
  lemma AbsoluteFormIsMisread()
    ensures RouteOf(ABSOLUTE) == Name("/h/")
    ensures "/h/" !in GET_MSG_NAMES && "/h/" !in POST_MSG_NAMES
  {
    AbsoluteText();
    NoSuchName();
    hide ABSOLUTE, First, FirstOfSpaceOrQuestion, RouteOf, GET_MSG_NAMES, POST_MSG_NAMES;
    FirstSlash(ABSOLUTE, 6);
    assert forall j :: 0 <= j < 18 ==> ABSOLUTE[6..][j] == ABSOLUTE[j + 6];
    FirstOfIs(ABSOLUTE[6..], 0, 9);
    RouteIsCut(ABSOLUTE, 6, 15);
    assert ABSOLUTE[7..10] == "/h/";
  }

  lemma NoSuchName()
    ensures "/h/" !in GET_MSG_NAMES && "/h/" !in POST_MSG_NAMES
  {
  }

  /** A request line ` /name`, with the space or question mark that ends the name, is routed by that name. */
  lemma RouteIsName(name: string, w: string)
    requires ' ' !in name && '?' !in name && w != "" && (w[0] == ' ' || w[0] == '?')
    requires |" /" + (name + w)| < MAX_SIZE
    ensures RouteOf(" /" + (name + w)) == Name(name)
  {
    var req := " /" + (name + w);
    assert req[1..2] == "/";
    assert !At(req, "/", 0) by { assert req[0..1][0] == ' '; }
    FirstIs(req, "/", 0, 1);
    hide First;
    assert req[2..2 + |name|] == name;
    assert req[2 + |name|] == w[0];
    RouteIsExactIff(req, 1, name);
  }

  /** The name of each route. */
  function GetName(msg: GetMsg): string {
    match msg
    case GetNewToken => "getNewToken"
    case GetProfileByNickname => "getProfileByNickname"
    case GetProfilePhoto => "getProfilePhoto"
    case GetUsersList => "getUsersList"
    case GetPhotoById => "getPhotoById"
    case MakeFriend => "makeFriend"
    case DeleteFriend => "deleteFriend"
    case GetStatus => "getStatus"
    case GetIdFsByAccess => "getIdForServerByAccess"
  }

  function PostName(msg: PostMsg): string {
    match msg
    case Login => "login"
    case Registration => "registration"
    case UpdateProfilePhoto => "updateProfilePhoto"
    case UpdateProfileData => "updateProfileData"
    case UpdateProfilePassword => "updateProfilePassword"
  }

  /** The tables hold just these. */
  lemma GetNamesAre(name: string, msg: GetMsg)
    ensures name in GET_MSG_NAMES && GET_MSG_NAMES[name] == msg <==> name == GetName(msg)
  {
  }

  lemma PostNamesAre(name: string, msg: PostMsg)
    ensures name in POST_MSG_NAMES && POST_MSG_NAMES[name] == msg <==> name == PostName(msg)
  {
  }

  /** The token a GET's message reads is there, and its query does not throw. */
  predicate GetReadable(req: string, msg: GetMsg) {
    if msg == GetNewToken then Contains(req, "refreshToken=")
    else Contains(req, "Bearer ") && !FormRequest.BadHttp(req, 4)
  }

  /** The token a POST's message reads, if it reads one, is there, and its body decodes. */
  predicate PostReadable(req: string, msg: PostMsg, decodes: Decoder) {
    (msg == Login || msg == Registration || Contains(req, "Bearer ")) && decodes(msg, req)
  }

  lemma GetDispatch(req: string, name: string)
    requires RouteOf(req) == Name(name) && First(req, "Origin: ", 0).Some?
    ensures var r := ParseGetT(req);
            && ((forall msg :: name != GetName(msg)) ==> r.status == BadHttp)
            && (forall msg :: name == GetName(msg) ==> r.status == if GetReadable(req, msg) then Success else Raised)
            && (r.status == Success ==> r.info.GetInfo? && name == GetName(r.info.getMsg))
  {
    NothingToThrow(req);
    hide First, RouteOf, GET_MSG_NAMES, FormRequest.BadHttp, Arguments, GetName;
    forall msg ensures name in GET_MSG_NAMES && GET_MSG_NAMES[name] == msg <==> name == GetName(msg) {
      GetNamesAre(name, msg);
    }
    assert name in GET_MSG_NAMES ==> name == GetName(GET_MSG_NAMES[name]);
  }

  lemma PostDispatch(req: string, name: string, decodes: Decoder)
    requires RouteOf(req) == Name(name) && First(req, "Origin: ", 0).Some?
    ensures var r := ParsePostT(req, decodes);
            && ((forall msg :: name != PostName(msg)) ==> r.status == BadHttp)
            && (forall msg :: name == PostName(msg) ==> r.status == if PostReadable(req, msg, decodes) then Success else Raised)
            && (r.status == Success ==> r.info.PostInfo? && name == PostName(r.info.postMsg))
  {
    hide First, RouteOf, POST_MSG_NAMES, PostName;
    forall msg ensures name in POST_MSG_NAMES && POST_MSG_NAMES[name] == msg <==> name == PostName(msg) {
      PostNamesAre(name, msg);
    }
    assert name in POST_MSG_NAMES ==> name == PostName(POST_MSG_NAMES[name]);
  }

  /** The verdict on a whole GET for `/name` with an Origin header: refused unless the table knows the name, and then
      that name's message, unless reading its token or its query throws; whatever else the request holds. */
  lemma GetIsRouted(name: string, w: string, decodes: Decoder)
    requires ' ' !in name && '?' !in name && w != "" && (w[0] == ' ' || w[0] == '?')
    requires Complete("GET" + (" /" + (name + w))) && First(" /" + (name + w), "Origin: ", 0).Some?
    ensures var r := Parse("GET" + (" /" + (name + w)), decodes);
            && ((forall msg :: name != GetName(msg)) ==> r.status == BadHttp)
            && (forall msg :: name == GetName(msg) ==>
                  r.status == if GetReadable(" /" + (name + w), msg) then Success else Raised)
            && (r.status == Success ==> r.info.GetInfo? && name == GetName(r.info.getMsg))
  {
    var req := " /" + (name + w);
    hide First, Parse, RouteOf, GetName, GetReqT, ParseGetT, GetReadable;
    assert ("GET" + req)[3..] == req && req == " " + ("/" + (name + w));
    RequestMethod("GET", "/" + (name + w));
    ParseOfComplete("GET" + req, decodes);
    hide Complete;
    RouteIsName(name, w);
    GetDispatch(req, name);
  }

  lemma PostIsRouted(name: string, w: string, decodes: Decoder)
    requires ' ' !in name && '?' !in name && w != "" && (w[0] == ' ' || w[0] == '?')
    requires Complete("POST" + (" /" + (name + w))) && First(" /" + (name + w), "Origin: ", 0).Some?
    ensures var r := Parse("POST" + (" /" + (name + w)), decodes);
            && ((forall msg :: name != PostName(msg)) ==> r.status == BadHttp)
            && (forall msg :: name == PostName(msg) ==>
                  r.status == if PostReadable(" /" + (name + w), msg, decodes) then Success else Raised)
            && (r.status == Success ==> r.info.PostInfo? && name == PostName(r.info.postMsg))
  {
    var req := " /" + (name + w);
    hide First, Parse, RouteOf, PostName, GetReqT, ParsePostT, PostReadable;
    assert ("POST" + req)[4..] == req && req == " " + ("/" + (name + w));
    RequestMethod("POST", "/" + (name + w));
    ParseOfComplete("POST" + req, decodes);
    hide Complete;
    RouteIsName(name, w);
    PostDispatch(req, name, decodes);
  }

  lemma RequestMethod(verb: string, w: string)
    requires verb == "GET" || verb == "POST" || verb == "OPTIONS"
    requires |verb| + 1 + |w| >= MAX_HDR_SIZE
    ensures GetReqT(verb + (" " + w))
         == Some(ReqType(if verb == "GET" then Get else if verb == "POST" then Post else Options, |verb|))
  {
    var r := verb + (" " + w);
    assert r[|verb|..|verb| + 1] == " ";
    assert r[..|verb|] == verb;
    forall j | 0 <= j < |verb| ensures !At(r, " ", j) {
      assert r[j..j + 1][0] == verb[j];
      assert verb[j] != ' ';
    }
    FirstIs(r, " ", 0, |verb|);
    hide First;
  }

  // ----- rendering a POST -----

  /** A POST whose Content-Length line, after the lines `before` and ahead of `after`, says the size of `body`. */
  function RenderPost(before: string, after: string, body: string): string {
    PostHeaders(before, after, body) + (BLANK_LINE + body)
  }

  function PostHeaders(before: string, after: string, body: string): string {
    before + CRLF + (LENGTH_HEADER + (Decimal.Print(|body|) + after))
  }

  predicate StartsWithBreak(w: string) {
    |w| >= 2 && w[0] == '\r' && w[1] == '\n'
  }

  lemma LineThenBreak(line: string, w: string)
    requires OneLine(line) && StartsWithBreak(w)
    ensures First(line + w, CRLF, 0) == Some(|line|)
  {
    var s := line + w;
    assert s[|line|..|line| + 2] == CRLF;
    forall j | 0 <= j < |line| ensures !At(s, CRLF, j) {
      assert s[j] == line[j];
      if At(s, CRLF, j) {
        AtChars(s, CRLF, j);
      }
    }
    hide First;
    FirstIs(s, CRLF, 0, |line|);
  }

  lemma PrintIsOneLine(n: nat)
    ensures OneLine(LENGTH_HEADER + Decimal.Print(n))
  {
    hide Decimal.Print;
    assert forall i :: 0 <= i < |Decimal.Print(n)| ==> Decimal.IsDigit(Decimal.Print(n)[i]);
  }

  lemma ValueText(u: string, digits: string, w: string)
    ensures (u + ((LENGTH_HEADER + digits) + w))[|u| + |LENGTH_HEADER| - 1..|u| + |LENGTH_HEADER + digits|] == " " + digits
  {
  }

  lemma LineEndsAt(u: string, line: string, w: string)
    requires OneLine(line) && StartsWithBreak(w)
    ensures First(u + (line + w), CRLF, |u|) == Some(|u| + |line|)
  {
    hide First, OneLine, StartsWithBreak;
    LineThenBreak(line, w);
    FirstSkip(u, line + w, CRLF, 0);
  }

  /** The length line of `r`, between the lines `before` and the line break that starts `w`. */
  lemma LengthLine(r: string, before: string, n: nat, w: string)
    requires r == before + CRLF + (LENGTH_HEADER + (Decimal.Print(n) + w)) && |r| < MAX_SIZE
    requires !Contains(before, LENGTH_HEADER) && StartsWithBreak(w) && n < Decimal.INT_LIMIT
    ensures First(r, LENGTH_HEADER, 0) == Some(|before| + 2)
    ensures GetValueSomeHeader(r, LENGTH_HEADER).Some?
    ensures Decimal.Stoi(GetValueSomeHeader(r, LENGTH_HEADER).value) == Some(n)
  {
    LengthHeaderIsOneLine();
    hide First, Contains, GetValueSomeHeader, Decimal.Stoi, Decimal.Print, OneLine, StartsWithBreak, LENGTH_HEADER;
    var digits, line, u := Decimal.Print(n), LENGTH_HEADER + Decimal.Print(n), before + CRLF;
    FirstAfterLine(before, LENGTH_HEADER, digits + w);
    Assoc(LENGTH_HEADER, digits, w);
    PrintIsOneLine(n);
    LineEndsAt(u, line, w);
    HeaderValueIs(r, LENGTH_HEADER, |u|, |u| + |line|);
    ValueText(u, digits, w);
    Decimal.StoiOfPlainPrint(n);
  }

  /** Rendered lines make a whole request: the parser takes the length it was given, through the
      leading blank that `getValueSomeHeader` keeps and `stoi` skips. */
  lemma RenderedPostIsComplete(before: string, after: string, body: string)
    requires !Contains(before, LENGTH_HEADER) && (after == "" || StartsWithBreak(after))
    requires GetReqT(before) == Some(ReqType(Post, 4))
    requires First(RenderPost(before, after, body), BLANK_LINE, 0) == Some(|PostHeaders(before, after, body)|)
    requires |body| < Decimal.INT_LIMIT && |RenderPost(before, after, body)| < MAX_SIZE
    ensures Complete(RenderPost(before, after, body))
  {
    hide First, GetReqT, Contains, GetValueSomeHeader, Decimal.Stoi, Decimal.Print;
    var r, w := RenderPost(before, after, body), after + BLANK_LINE + body;
    assert r == before + CRLF + (LENGTH_HEADER + (Decimal.Print(|body|) + w));
    assert StartsWithBreak(w);
    LengthLine(r, before, |body|, w);
    var x := CRLF + (LENGTH_HEADER + (Decimal.Print(|body|) + w));
    assert r == before + x;
    MethodOfLonger(before, x);
  }
}
