/** Reading header values out of a raw request (auth_server_src/Request.cpp). */
module Request {
  import opened Text

  /** From the last byte of the header string, not from just after it, up to the end of the line. */
  function GetValueSomeHeader(request: string, header: string): (r: Option<string>)
    requires header != ""
  {
    match First(request, header, 0)
    case None => None
    case Some(p) =>
      var start := p + |header| - 1;
      Some(Substr(request, start, Minus(Find(request, CRLF, p), start)).value)
  }

  /** None: the source throws. */
  function GetValueWithSpace(request: string, header: string): (r: Option<string>)
  {
    match First(request, header, 0)
    case None => None
    case Some(p) =>
      var start := p + |header|;
      Some(Substr(request, start, Minus(Find(request, CRLF, p), start)).value)
  }

  lemma LineEnd(request: string, start: nat, e: nat, p: nat)
    requires |request| < MAX_SIZE && First(request, CRLF, p) == Some(e) && start <= e
    ensures Substr(request, start, Minus(Find(request, CRLF, p), start)) == Some(request[start..e])
  {
    hide First;
  }

  /** The value of a header that stands on a terminated line. */
  lemma HeaderValueIs(request: string, header: string, p: nat, e: nat)
    requires header != "" && |request| < MAX_SIZE
    requires First(request, header, 0) == Some(p) && First(request, CRLF, p) == Some(e) && p + |header| <= e
    ensures GetValueSomeHeader(request, header) == Some(request[p + |header| - 1..e])
    ensures GetValueWithSpace(request, header) == Some(request[p + |header|..e])
  {
    hide First;
    LineEnd(request, p + |header| - 1, e, p);
    LineEnd(request, p + |header|, e, p);
    hide Find, Minus, Substr;
  }

  lemma NoHeader(request: string, header: string)
    requires First(request, header, 0) == None
    ensures GetValueWithSpace(request, header) == None
  {
  }

  /** A header found on a terminated line reads the same when the request grows. */
  lemma HeaderValueStable(request: string, x: string, header: string, p: nat, e: nat)
    requires header != "" && |request + x| < MAX_SIZE
    requires First(request, header, 0) == Some(p) && First(request, CRLF, p) == Some(e) && p + |header| <= e
    ensures First(request + x, header, 0) == Some(p) && First(request + x, CRLF, p) == Some(e)
    ensures GetValueSomeHeader(request + x, header) == GetValueSomeHeader(request, header)
    ensures GetValueWithSpace(request + x, header) == GetValueWithSpace(request, header)
  {
    FirstStable(request, x, header, 0);
    FirstStable(request, x, CRLF, p);
    HeaderValueIs(request, header, p, e);
    HeaderValueIs(request + x, header, p, e);
    hide GetValueSomeHeader, GetValueWithSpace, First;
    assert (request + x)[p + |header| - 1..e] == request[p + |header| - 1..e];
    assert (request + x)[p + |header|..e] == request[p + |header|..e];
  }
}

/** `std::stoi` on a 32-bit int, and its inverse. */
module Decimal {
  import opened Text

  predicate IsSpace(c: char) {
    c == ' ' || c == '\t' || c == '\n' || c == '\U{0B}' || c == '\U{0C}' || c == '\r'
  }

  predicate IsDigit(c: char) {
    '0' <= c <= '9'
  }

  function Digit(c: char): nat
    requires IsDigit(c)
  {
    c as int - '0' as int
  }

  function SkipSpaces(s: string): string {
    if s != "" && IsSpace(s[0]) then SkipSpaces(s[1..]) else s
  }

  /** The value of the leading digits, on top of `acc`. */
  function Digits(s: string, acc: nat): nat {
    if s != "" && IsDigit(s[0]) then Digits(s[1..], 10 * acc + Digit(s[0])) else acc
  }

  const INT_LIMIT := 0x8000_0000

  /** None: `std::invalid_argument` or `std::out_of_range`. */
  function Stoi(s: string): (r: Option<int>)
    ensures r.Some? ==> -INT_LIMIT <= r.value < INT_LIMIT
  {
    var t := SkipSpaces(s);
    var negative := t != "" && t[0] == '-';
    var u := if t != "" && (t[0] == '-' || t[0] == '+') then t[1..] else t;
    if u == "" || !IsDigit(u[0]) then None
    else
      var digits: int := Digits(u, 0);
      var v := if negative then -digits else digits;
      if -INT_LIMIT <= v < INT_LIMIT then Some(v) else None
  }

  function Print(n: nat): (s: string)
    ensures s != "" && IsDigit(s[0])
    ensures forall i :: 0 <= i < |s| ==> IsDigit(s[i])
  {
    var last := [('0' as nat + n % 10) as char];
    if n < 10 then last else Print(n / 10) + last
  }

  lemma {:induction false} DigitsConcat(s: string, t: string, acc: nat)
    requires forall i :: 0 <= i < |s| ==> IsDigit(s[i])
    ensures Digits(s + t, acc) == Digits(t, Digits(s, acc))
  {
    if s == "" {
      assert s + t == t;
    } else {
      assert (s + t)[1..] == s[1..] + t;
      DigitsConcat(s[1..], t, 10 * acc + Digit(s[0]));
    }
  }

  lemma {:induction false} DigitsOfPrint(n: nat)
    ensures Digits(Print(n), 0) == n
  {
    var last := [('0' as nat + n % 10) as char];
    assert last[1..] == "";
    if n >= 10 {
      DigitsOfPrint(n / 10);
      DigitsConcat(Print(n / 10), last, 0);
    }
  }

  lemma {:induction false} DigitsStop(s: string, rest: string, acc: nat)
    requires (forall i :: 0 <= i < |s| ==> IsDigit(s[i])) && (rest == "" || !IsDigit(rest[0]))
    ensures Digits(s + rest, acc) == Digits(s, acc)
  {
    if s == "" {
      assert s + rest == rest;
    } else {
      assert (s + rest)[1..] == s[1..] + rest;
      DigitsStop(s[1..], rest, 10 * acc + Digit(s[0]));
    }
  }

  lemma SkipsOne(s: string)
    requires s != "" && !IsSpace(s[0])
    ensures SkipSpaces(" " + s) == s
  {
    assert (" " + s)[1..] == s;
    assert SkipSpaces(s) == s;
  }

  /** `stoi` inverts printing, with a sign or without, behind the blank that a header value starts with and ahead of anything
      but a digit, for all numbers of 32 bits; others it refuses. */
  lemma StoiOfPrint(n: nat, rest: string)
    requires rest == "" || !IsDigit(rest[0])
    ensures Stoi(" " + (Print(n) + rest)) == if n < INT_LIMIT then Some(n) else None
    ensures var m: int := n; Stoi(" " + ("-" + (Print(n) + rest))) == if n <= INT_LIMIT then Some(-m) else None
    ensures Stoi(" " + ("+" + (Print(n) + rest))) == if n < INT_LIMIT then Some(n) else None
  {
    var u := Print(n) + rest;
    assert IsDigit(u[0]);
    DigitsOfPrint(n);
    DigitsStop(Print(n), rest, 0);
    hide Print, Digits;
    SkipsOne(u);
    SkipsOne("-" + u);
    SkipsOne("+" + u);
    assert ("-" + u)[1..] == u && ("+" + u)[1..] == u;
    hide SkipSpaces;
  }

  lemma StoiOfPlainPrint(n: nat)
    requires n < INT_LIMIT
    ensures Stoi(" " + Print(n)) == Some(n)
  {
    hide Stoi, Print;
    StoiOfPrint(n, "");
    assert Print(n) + "" == Print(n);
  }
}

/** Framing and routing of raw requests (auth_server_src/HttpParser.cpp). */
module HttpParser {
  import opened Text
  import opened Properties
  import opened Request
  import FormRequest
  import Decimal

  datatype Status =
    | Success | BadHttp | NotSupportType | NotFullReq
    | Raised     // an exception leaves `parse`
    | Undefined  // an empty optional is dereferenced

  datatype Verb = Get | Post | Options | NotSupport
  datatype ReqType = ReqType(verb: Verb, size: nat)

  datatype PostMsg = Login | Registration | UpdateProfilePhoto | UpdateProfileData | UpdateProfilePassword
  datatype GetMsg =
    | GetNewToken | GetProfileByNickname | GetProfilePhoto | GetUsersList | GetPhotoById
    | MakeFriend | DeleteFriend | GetStatus | GetIdFsByAccess

  const POST_MSG_NAMES: map<string, PostMsg> :=
    map["login" := Login, "registration" := Registration, "updateProfilePhoto" := UpdateProfilePhoto,
        "updateProfileData" := UpdateProfileData, "updateProfilePassword" := UpdateProfilePassword]

  const GET_MSG_NAMES: map<string, GetMsg> :=
    map["getNewToken" := GetNewToken, "getProfileByNickname" := GetProfileByNickname,
        "getProfilePhoto" := GetProfilePhoto, "getUsersList" := GetUsersList, "getPhotoById" := GetPhotoById,
        "makeFriend" := MakeFriend, "deleteFriend" := DeleteFriend, "getStatus" := GetStatus,
        "getIdForServerByAccess" := GetIdFsByAccess]

  datatype Info =
    | NoInfo
    | OptionsInfo(origin: string)
    | PostInfo(origin: string, postMsg: PostMsg, accessToken: string, text: string)
    | GetInfo(origin: string, getMsg: GetMsg, refreshToken: string, accessToken: string, properties: map<string, string>)

  datatype Parsed = Parsed(status: Status, info: Info)

  const MAX_HDR_SIZE := 7

  function GetReqT(req: string): Option<ReqType> {
    if |req| < MAX_HDR_SIZE then None
    else match First(req, " ", 0)
         case None => None
         case Some(shift) =>
           if shift > MAX_HDR_SIZE then None
           else
             var typeStr := req[..shift];
             Some(ReqType(if typeStr == "OPTIONS" then Options else if typeStr == "POST" then Post
                          else if typeStr == "GET" then Get else NotSupport, shift))
  }

  function CheckIsFullRequest(requ: string, verb: Verb): Status {
    match First(requ, BLANK_LINE, 0)
    case None => NotFullReq
    case Some(headersEnd) =>
      if verb != Post then Success
      else match GetValueSomeHeader(requ, "Content-Length: ")
           case None => Undefined
           case Some(value) =>
             match Decimal.Stoi(value)
             case None => Raised
             case Some(v) => Compare(|requ| - headersEnd - 4, if v < 0 then v + SIZES else v)
  }

  function Compare(bodySize: int, headerValue: int): Status {
    if bodySize == headerValue then Success else if bodySize < headerValue then NotFullReq else BadHttp
  }

  /** `find_first_of(" ?")`. */
  function FirstOfSpaceOrQuestion(s: string, from: nat): (r: Option<nat>)
    ensures r.Some? ==> from <= r.value < |s| && (s[r.value] == ' ' || s[r.value] == '?')
    decreases |s| - from
  {
    if from >= |s| then None
    else if s[from] == ' ' || s[from] == '?' then Some(from)
    else FirstOfSpaceOrQuestion(s, from + 1)
  }

  datatype Route = OutOfRange | Missing | Name(name: string)

  /** The index arithmetic of `get_post_msg` and `get_get_msg`: the end is relative to the slash,
      and the slash position is subtracted from it once more. */
  function RouteOf(req: string): Route {
    match First(req, "/", 0)
    case None => OutOfRange
    case Some(slash) =>
      match FirstOfSpaceOrQuestion(req[slash..], 0)
      case None => Missing
      case Some(end) => Name(Substr(req, slash + 1, Minus(end, slash)).value)
  }

  function ParseGetT(req: string): Parsed {
    match GetValueSomeHeader(req, "Origin: ")
    case None => Parsed(BadHttp, NoInfo)
    case Some(origin) =>
      match RouteOf(req)
      case OutOfRange => Parsed(Raised, NoInfo)
      case Missing => Parsed(BadHttp, NoInfo)
      case Name(name) =>
        if name !in GET_MSG_NAMES then Parsed(BadHttp, NoInfo)
        else GetFields(req, origin, GET_MSG_NAMES[name])
  }

  function GetFields(req: string, origin: string, msg: GetMsg): Parsed {
    if msg == GetNewToken then
      match GetValueWithSpace(req, "refreshToken=")
      case None => Parsed(Raised, NoInfo)
      case Some(token) => Parsed(Success, GetInfo(origin, msg, token, "", map[]))
    else
      match GetValueWithSpace(req, "Bearer ")
      case None => Parsed(Raised, NoInfo)
      case Some(token) =>
        match Arguments(req)
        case None => Parsed(Raised, NoInfo)
        case Some(properties) => Parsed(Success, GetInfo(origin, msg, "", token, properties))
  }

  /** What `URLParser` finds from the fifth byte of the target on; None: it throws. */
  function Arguments(req: string): Option<map<string, string>> {
    if req == "" then Some(map[])
    else if FormRequest.BadHttp(req, 4) then None
    else Some(Assign(map[], FormRequest.Entries(req, 4)))
  }

  /** Whether the body of a POST decodes into what its route reads: JSON, or form data with a file.
      Neither format is part of this model. */
  type Decoder = (PostMsg, string) -> bool

  function ParsePostT(req: string, decodes: Decoder): Parsed {
    match GetValueSomeHeader(req, "Origin: ")
    case None => Parsed(BadHttp, NoInfo)
    case Some(origin) =>
      match RouteOf(req)
      case OutOfRange => Parsed(Raised, NoInfo)
      case Missing => Parsed(BadHttp, NoInfo)
      case Name(name) =>
        if name !in POST_MSG_NAMES then Parsed(BadHttp, NoInfo)
        else PostFields(req, origin, POST_MSG_NAMES[name], decodes)
  }

  function PostFields(req: string, origin: string, msg: PostMsg, decodes: Decoder): Parsed {
    if msg == Login || msg == Registration then
      if decodes(msg, req) then Parsed(Success, PostInfo(origin, msg, "", req)) else Parsed(Raised, NoInfo)
    else
      match GetValueWithSpace(req, "Bearer ")
      case None => Parsed(Raised, NoInfo)
      case Some(token) =>
        if decodes(msg, req) then Parsed(Success, PostInfo(origin, msg, token, req)) else Parsed(Raised, NoInfo)
  }

  function ParseOptionsT(req: string): Parsed {
    match GetValueSomeHeader(req, "Origin: ")
    case None => Parsed(BadHttp, NoInfo)
    case Some(origin) => Parsed(Success, OptionsInfo(origin))
  }

  function Parse(request: string, decodes: Decoder): Parsed {
    match GetReqT(request)
    case None => Parsed(BadHttp, NoInfo)
    case Some(t) =>
      var checkStatus := CheckIsFullRequest(request, t.verb);
      if checkStatus != Success then Parsed(checkStatus, NoInfo)
      else Dispatch(request[t.size..], t.verb, decodes)
  }

  function Dispatch(req: string, verb: Verb, decodes: Decoder): Parsed {
    match verb
    case Get => ParseGetT(req)
    case Post => ParsePostT(req, decodes)
    case Options => ParseOptionsT(req)
    case NotSupport => Parsed(NotSupportType, NoInfo)
  }

  // ----- the parser as it fills its output -----

  /** The `info_block` a caller hands in; the parser fills it field by field, and leaves it half filled on failure. */
  class InfoBlock {
    var info: Info

    constructor ()
      ensures info == NoInfo
    {
      info := NoInfo;
    }
  }

  method FillGetT(req: string, block: InfoBlock) returns (status: Status)
    requires |req| < MAX_SIZE
    modifies block
    ensures status == ParseGetT(req).status && (status == Success ==> block.info == ParseGetT(req).info)
  {
    hide First, RouteOf, GET_MSG_NAMES, FormRequest.BadHttp, FormRequest.Entries, GetValueSomeHeader, GetValueWithSpace;
    block.info := GetInfo("", GetNewToken, "", "", map[]);
    var origin := GetValueSomeHeader(req, "Origin: ");
    if origin.None? {
      return BadHttp;
    }
    block.info := GetInfo(origin.value, GetNewToken, "", "", map[]);
    var route := RouteOf(req);
    if route == OutOfRange {
      return Raised;
    }
    if route == Missing || route.name !in GET_MSG_NAMES {
      return BadHttp;
    }
    var msg := GET_MSG_NAMES[route.name];
    block.info := GetInfo(origin.value, msg, "", "", map[]);
    if msg == GetNewToken {
      var token := GetValueWithSpace(req, "refreshToken=");
      if token.None? {
        return Raised;
      }
      block.info := GetInfo(origin.value, msg, token.value, "", map[]);
    } else {
      var token := GetValueWithSpace(req, "Bearer ");
      if token.None? {
        return Raised;
      }
      block.info := GetInfo(origin.value, msg, "", token.value, map[]);
      var properties := new Collection();
      var threw := FormRequest.URLParser(req, properties, 4);
      NothingToThrow(req);
      if threw {
        return Raised;
      }
      block.info := GetInfo(origin.value, msg, "", token.value, properties.entries);
    }
    return Success;
  }

  lemma NothingToThrow(req: string)
    ensures Arguments(req).None? <==> FormRequest.BadHttp(req, 4)
  {
  }

  method FillPostT(req: string, block: InfoBlock, decodes: Decoder) returns (status: Status)
    modifies block
    ensures status == ParsePostT(req, decodes).status && (status == Success ==> block.info == ParsePostT(req, decodes).info)
  {
    hide First, RouteOf, POST_MSG_NAMES, GetValueSomeHeader, GetValueWithSpace;
    block.info := PostInfo("", Login, "", req);
    var origin := GetValueSomeHeader(req, "Origin: ");
    if origin.None? {
      return BadHttp;
    }
    block.info := PostInfo(origin.value, Login, "", req);
    var route := RouteOf(req);
    if route == OutOfRange {
      return Raised;
    }
    if route == Missing || route.name !in POST_MSG_NAMES {
      return BadHttp;
    }
    var msg := POST_MSG_NAMES[route.name];
    block.info := PostInfo(origin.value, msg, "", req);
    if msg != Login && msg != Registration {
      var token := GetValueWithSpace(req, "Bearer ");
      if token.None? {
        return Raised;
      }
      block.info := PostInfo(origin.value, msg, token.value, req);
    }
    if !decodes(msg, req) {
      return Raised;
    }
    return Success;
  }

  method FillOptionsT(req: string, block: InfoBlock) returns (status: Status)
    modifies block
    ensures status == ParseOptionsT(req).status && (status == Success ==> block.info == ParseOptionsT(req).info)
  {
    block.info := OptionsInfo("");
    var origin := GetValueSomeHeader(req, "Origin: ");
    if origin.None? {
      return BadHttp;
    }
    block.info := OptionsInfo(origin.value);
    return Success;
  }

  method ParseInto(request: string, block: InfoBlock, decodes: Decoder) returns (status: Status)
    requires |request| < MAX_SIZE
    modifies block
    ensures status == Parse(request, decodes).status
    ensures status == Success ==> block.info == Parse(request, decodes).info
  {
    hide First, ParseGetT, ParsePostT, ParseOptionsT, CheckIsFullRequest;
    var t := GetReqT(request);
    if t.None? {
      return BadHttp;
    }
    var checkStatus := CheckIsFullRequest(request, t.value.verb);
    if checkStatus != Success {
      return checkStatus;
    }
    var req := request[t.value.size..];
    match t.value.verb {
      case Get => status := FillGetT(req, block);
      case Post => status := FillPostT(req, block, decodes);
      case Options => status := FillOptionsT(req, block);
      case NotSupport => status := NotSupportType;
    }
  }
}
