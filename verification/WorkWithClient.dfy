/** The receive loop of an auth-server thread (auth_server_src/WorkWithClient.cpp): append, parse the whole
    buffer again, dispatch, clear. */
module WorkWithClient {
  import opened Text
  import opened HttpParser

  /** Token checking and body decoding are not part of this model: any functions will do. */
  datatype Env = Env(verify: string -> Option<string>, decodes: Decoder)

  /** What the loop did with a buffer it parsed: carried the request out for a user ("" when the route checks
      no access token), or answered that the token does not verify. */
  datatype Event =
    | Served(raw: string, info: Info, user: string)
    | Refused(raw: string, info: Info)

  datatype State = State(buffer: string, events: seq<Event>, running: bool)

  predicate NeedsToken(info: Info) {
    match info
    case PostInfo(_, msg, _, _) => msg != Login && msg != Registration
    case GetInfo(_, msg, _, _, _) => msg != GetNewToken
    case _ => false
  }

  function TokenOf(info: Info): string
    requires NeedsToken(info)
  {
    info.accessToken
  }

  /** A parsed request: on a token that does not verify, `continue` leaves the buffer as it is. */
  function Serve(st: State, raw: string, info: Info, env: Env): State {
    if !NeedsToken(info) then State("", st.events + [Served(raw, info, "")], true)
    else match env.verify(TokenOf(info))
         case None => State(raw, st.events + [Refused(raw, info)], true)
         case Some(user) => State("", st.events + [Served(raw, info, user)], true)
  }

  /** One turn of the loop. */
  function Receive(st: State, chunk: string, env: Env): State {
    var request := st.buffer + chunk;
    var parsed := Parse(request, env.decodes);
    match parsed.status
    case NotFullReq => State(request, st.events, true)
    case BadHttp => State("", st.events, true)
    case NotSupportType => State("", st.events, true)
    case Success => Serve(st, request, parsed.info, env)
    case Raised => State(request, st.events, false)
    case Undefined => State(request, st.events, false)
  }

  /** The loop over what `recv` returns; an empty chunk is the end of the stream. */
  function RunOn(st: State, chunks: seq<string>, env: Env): State
    decreases |chunks|
  {
    if chunks == [] || chunks[0] == "" || !st.running then st
    else RunOn(Receive(st, chunks[0], env), chunks[1..], env)
  }

  lemma RunOnTurn(st: State, chunks: seq<string>, env: Env)
    requires st.running && chunks != [] && chunks[0] != ""
    ensures RunOn(st, chunks, env) == RunOn(Receive(st, chunks[0], env), chunks[1..], env)
  {
  }

  lemma RunOnEnds(st: State, chunks: seq<string>, env: Env)
    requires !st.running || chunks == [] || chunks[0] == ""
    ensures RunOn(st, chunks, env) == st
  {
  }

  lemma SizeOfRest(chunks: seq<string>)
    requires chunks != []
    ensures Size(chunks) == |chunks[0]| + Size(chunks[1..])
  {
  }

  /** The bytes received in all. */
  function Size(chunks: seq<string>): nat {
    if chunks == [] then 0 else |chunks[0]| + Size(chunks[1..])
  }

  class Client {
    var events: seq<Event>

    constructor ()
      ensures events == []
    {
      events := [];
    }

    method Run(chunks: seq<string>, env: Env) returns (crashed: bool)
      requires Size(chunks) < MAX_SIZE
      modifies this
      ensures var end := RunOn(State("", old(events), true), chunks, env);
              events == end.events && crashed == !end.running
    {
      hide Parse, RunOn, NeedsToken, TokenOf;
      var request := "";
      ghost var end := RunOn(State("", events, true), chunks, env);
      var n := 0;
      assert chunks[n..] == chunks;
      while n < |chunks| && chunks[n] != ""
        invariant 0 <= n <= |chunks| && |request| + Size(chunks[n..]) < MAX_SIZE
        invariant RunOn(State(request, events, true), chunks[n..], env) == end
      {
        ghost var st := State(request, events, true);
        assert chunks[n..][1..] == chunks[n + 1..];
        SizeOfRest(chunks[n..]);
        RunOnTurn(st, chunks[n..], env);
        RunOnEnds(State(request + chunks[n], events, false), chunks[n + 1..], env);
        request := request + chunks[n];
        n := n + 1;
        var infoBlock := new InfoBlock();
        var status := ParseInto(request, infoBlock, env.decodes);
        if status == NotFullReq {
          continue;
        }
        if status == BadHttp || status == NotSupportType {
          request := "";
          continue;
        }
        if status != Success {
          return true;
        }
        var refused := Answer(request, infoBlock.info, env);
        if refused {
          continue;
        }
        request := "";
      }
      RunOnEnds(State(request, events, true), chunks[n..], env);
      return false;
    }

    /** The dispatch on the message, gated by `checkAccesstoken`; true is the `continue` of a refused token. */
    method Answer(request: string, info: Info, env: Env) returns (refused: bool)
      modifies this
      ensures var end := Serve(State("", old(events), true), request, info, env);
              events == end.events && end.buffer == (if refused then request else "")
    {
      var user := "";
      if NeedsToken(info) {
        var checked := env.verify(TokenOf(info));
        if checked.None? {
          events := events + [Refused(request, info)];
          return true;
        }
        user := checked.value;
      }
      events := events + [Served(request, info, user)];
      return false;
    }
  }
}
