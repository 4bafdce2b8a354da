/** Request reassembly over whole runs of the receive loop: how the byte stream is cut into chunks does not
    matter, exactly when it does, and what a refused token does to the rest of the stream. */
module Reassembly {
  import opened Text
  import opened Request
  import opened HttpParser
  import opened HttpFraming
  import opened WorkWithClient
  import FormRequest

  function Concat(chunks: seq<string>): string {
    if chunks == [] then "" else chunks[0] + Concat(chunks[1..])
  }

  /** `recv` hands over `r` in these non-empty pieces. */
  ghost predicate Chunking(chunks: seq<string>, r: string) {
    chunks != [] && (forall i :: 0 <= i < |chunks| ==> chunks[i] != "") && Concat(chunks) == r
  }

  function Flatten(css: seq<seq<string>>): seq<string> {
    if css == [] then [] else css[0] + Flatten(css[1..])
  }

  /** A whole request that parses, and whose access token, if its route checks one, verifies. */
  ghost predicate Accepted(r: string, env: Env) {
    && Complete(r)
    && Parse(r, env.decodes).status == Success
    && (NeedsToken(Parse(r, env.decodes).info) ==> env.verify(TokenOf(Parse(r, env.decodes).info)).Some?)
  }

  function EventOf(r: string, env: Env): Event {
    var info := Parse(r, env.decodes).info;
    Served(r, info, if NeedsToken(info) then env.verify(TokenOf(info)).GetOr("") else "")
  }

  function EventsOf(rs: seq<string>, env: Env): seq<Event> {
    seq(|rs|, i requires 0 <= i < |rs| => EventOf(rs[i], env))
  }

  // ----- one request -----

  lemma PrefixIsKept(st: State, chunk: string, r: string, env: Env)
    requires st.running && Complete(r) && st.buffer + chunk <= r && |st.buffer + chunk| < |r|
    requires |st.buffer + chunk| >= Threshold(r)
    ensures Receive(st, chunk, env) == State(st.buffer + chunk, st.events, true)
  {
    hide Complete, Parse, Serve;
    PrefixVerdict(r, |st.buffer + chunk|, env.decodes);
    assert r[..|st.buffer + chunk|] == st.buffer + chunk;
  }

  /** Once the method can be recognised, the pieces of a whole request add up to one turn on the whole of it. */
  lemma {:induction false} PiecesAddUp(st: State, chunks: seq<string>, more: seq<string>, r: string, env: Env)
    requires st.running && Complete(r) && chunks != [] && (forall i :: 0 <= i < |chunks| ==> chunks[i] != "")
    requires r == st.buffer + Concat(chunks) && |st.buffer + chunks[0]| >= Threshold(r)
    ensures RunOn(st, chunks + more, env) == RunOn(Receive(State("", st.events, true), r, env), more, env)
    decreases |chunks|
  {
    hide Complete, Receive, Threshold;
    var rest := chunks[1..];
    assert (chunks + more)[1..] == rest + more;
    assert r == (st.buffer + chunks[0]) + Concat(rest);
    if rest == [] {
      assert rest + more == more;
      SameBuffer(st, chunks[0], r, env);
    } else {
      assert rest[0] != "";
      PrefixIsKept(st, chunks[0], r, env);
      PiecesAddUp(State(st.buffer + chunks[0], st.events, true), rest, more, r, env);
    }
  }

  lemma SameBuffer(st: State, chunk: string, r: string, env: Env)
    requires st.buffer + chunk == r
    ensures Receive(st, chunk, env) == Receive(State("", st.events, true), r, env)
  {
    hide Parse;
    assert "" + r == r;
  }

  lemma AcceptedIsServed(events: seq<Event>, r: string, env: Env)
    requires Accepted(r, env)
    ensures Receive(State("", events, true), r, env) == State("", events + [EventOf(r, env)], true)
  {
    hide Complete, Parse;
    assert "" + r == r;
  }

  // ----- whole runs -----

  /** For any sequence of accepted requests, cut any way that keeps requests apart and lets each method be
      recognised in its first piece, the loop serves exactly that sequence, each request once, in order. */
  lemma {:induction false} StreamIsReassembled(events: seq<Event>, rs: seq<string>, css: seq<seq<string>>, env: Env)
    requires |rs| == |css|
    requires forall i :: 0 <= i < |rs| ==>
               Accepted(rs[i], env) && Chunking(css[i], rs[i]) && |css[i][0]| >= Threshold(rs[i])
    ensures RunOn(State("", events, true), Flatten(css), env) == State("", events + EventsOf(rs, env), true)
    decreases |rs|
  {
    hide Complete, Parse, Receive, Threshold, EventOf, NeedsToken;
    if rs == [] {
      assert events + EventsOf(rs, env) == events;
    } else {
      var e := EventOf(rs[0], env);
      PiecesAddUp(State("", events, true), css[0], Flatten(css[1..]), rs[0], env);
      AcceptedIsServed(events, rs[0], env);
      StreamIsReassembled(events + [e], rs[1..], css[1..], env);
      assert EventsOf(rs, env) == [e] + EventsOf(rs[1..], env);
      assert events + [e] + EventsOf(rs[1..], env) == events + EventsOf(rs, env);
    }
  }

  // ----- a text that no blank line ends early, in any pieces -----

  /** The one blank line of `t` is at its end. */
  ghost predicate EndsBlank(t: string) {
    |t| >= 4 && First(t, BLANK_LINE, 0) == Some(|t| - 4)
  }

  lemma {:induction false} ConcatSplit(chunks: seq<string>, p: nat)
    requires p <= |chunks|
    ensures Concat(chunks) == Concat(chunks[..p]) + Concat(chunks[p..])
  {
    if p > 0 {
      ConcatSplit(chunks[1..], p - 1);
      assert chunks[..p][1..] == chunks[1..][..p - 1] && chunks[1..][p - 1..] == chunks[p..];
    } else {
      assert chunks[p..] == chunks;
    }
  }

  /** The first piece that shows a method. */
  function Shown(chunks: seq<string>): (p: nat)
    ensures p <= |chunks|
  {
    if chunks == [] || GetReqT(chunks[0]).Some? then 0 else 1 + Shown(chunks[1..])
  }

  lemma {:induction false} ShownShows(chunks: seq<string>)
    requires Shown(chunks) < |chunks|
    ensures GetReqT(chunks[Shown(chunks)]).Some?
  {
    hide GetReqT;
    if GetReqT(chunks[0]).None? {
      ShownShows(chunks[1..]);
    }
  }

  /** The pieces before it are thrown away, one by one. */
  lemma {:induction false} EarlyPiecesAreDropped(events: seq<Event>, chunks: seq<string>, env: Env)
    requires forall i :: 0 <= i < |chunks| ==> chunks[i] != ""
    ensures RunOn(State("", events, true), chunks, env) == RunOn(State("", events, true), chunks[Shown(chunks)..], env)
  {
    hide GetReqT, Receive;
    if chunks == [] || GetReqT(chunks[0]).Some? {
      assert chunks[0..] == chunks;
    } else {
      UnknownIsDropped(events, chunks[0], env);
      EarlyPiecesAreDropped(events, chunks[1..], env);
      assert chunks[1..][Shown(chunks[1..])..] == chunks[Shown(chunks)..];
    }
  }

  lemma UnknownIsDropped(events: seq<Event>, chunk: string, env: Env)
    requires GetReqT(chunk).None?
    ensures Receive(State("", events, true), chunk, env) == State("", events, true)
  {
    hide GetReqT, Serve;
    assert "" + chunk == chunk;
  }

  /** The rest of the text from there on has the effect of one turn on all of it. */
  lemma {:induction false} RestAddsUp(st: State, chunks: seq<string>, t: string, env: Env)
    requires st.running && chunks != [] && (forall i :: 0 <= i < |chunks| ==> chunks[i] != "")
    requires EndsBlank(t) && t == st.buffer + Concat(chunks) && GetReqT(st.buffer + chunks[0]).Some?
    ensures RunOn(st, chunks, env) == Receive(State("", st.events, true), t, env)
    decreases |chunks|
  {
    hide Receive, GetReqT, EndsBlank;
    var b, rest := st.buffer + chunks[0], chunks[1..];
    assert t == b + Concat(rest);
    if rest == [] {
      SameBuffer(st, chunks[0], t, env);
      assert RunOn(st, chunks, env) == RunOn(Receive(st, chunks[0], env), rest, env);
    } else {
      assert rest[0] != "";
      UnendedIsKept(st, chunks[0], t, env);
      MethodOfLonger(b, rest[0]);
      RestAddsUp(State(b, st.events, true), rest, t, env);
    }
  }

  lemma UnendedIsKept(st: State, chunk: string, t: string, env: Env)
    requires st.running && EndsBlank(t) && st.buffer + chunk <= t && |st.buffer + chunk| < |t|
    requires GetReqT(st.buffer + chunk).Some?
    ensures Receive(st, chunk, env) == State(st.buffer + chunk, st.events, true)
  {
    hide First, GetReqT, Dispatch, Serve;
    var n := |st.buffer + chunk|;
    FirstInPrefix(t, BLANK_LINE, 0, n);
    assert t[..n] == st.buffer + chunk;
  }

  lemma SuffixEndsBlank(u: string, t: string)
    requires EndsBlank(u + t) && |t| >= 4
    ensures EndsBlank(t)
  {
    hide First;
    FirstFrom(u + t, BLANK_LINE, |u|);
    FirstSkip(u, t, BLANK_LINE, 0);
  }

  /** A text with its only blank line at its end, in any pieces: what comes before the first piece that shows a method is
      lost, and the rest is one turn. */
  lemma AnyPieces(chunks: seq<string>, t: string, env: Env)
    requires Chunking(chunks, t) && EndsBlank(t)
    ensures var p := Shown(chunks);
            && |Concat(chunks[..p])| <= |t| && Concat(chunks[p..]) == t[|Concat(chunks[..p])|..]
            && RunOn(State("", [], true), chunks, env)
               == if p == |chunks| then State("", [], true) else Receive(State("", [], true), Concat(chunks[p..]), env)
  {
    hide Receive, GetReqT, EndsBlank;
    var p := Shown(chunks);
    var rest := chunks[p..];
    ConcatSplit(chunks, p);
    EarlyPiecesAreDropped([], chunks, env);
    if rest != [] {
      ShownShows(chunks);
      assert rest[0] == chunks[p] && "" + rest[0] == rest[0];
      MethodIsLong(rest[0]);
      SuffixEndsBlank(Concat(chunks[..p]), Concat(rest));
      assert Concat(rest) == "" + Concat(rest);
      RestAddsUp(State("", [], true), rest, Concat(rest), env);
    }
  }

  lemma MethodIsLong(r: string)
    requires GetReqT(r).Some?
    ensures |r| >= MAX_HDR_SIZE
  {
  }

  // ----- exactly when a stream is served -----

  /** A whole request that parses. */
  ghost predicate Whole(r: string, env: Env) {
    Complete(r) && Parse(r, env.decodes).status == Success
  }

  /** The access token of a request verifies, if its route checks one. */
  predicate TokenVerifies(r: string, env: Env) {
    NeedsToken(Parse(r, env.decodes).info) ==> env.verify(TokenOf(Parse(r, env.decodes).info)).Some?
  }

  /** `css` cuts the chunks at the ends of the requests, and each request's first piece shows its method. */
  ghost predicate Splits(css: seq<seq<string>>, chunks: seq<string>, rs: seq<string>) {
    && Flatten(css) == chunks && |css| == |rs|
    && forall i :: 0 <= i < |rs| ==> Chunking(css[i], rs[i]) && GetReqT(rs[i]).Some? && |css[i][0]| >= Threshold(rs[i])
  }

  /** Likewise, except that `b`, the start of the first request, has been received already. */
  ghost predicate SplitsAfter(b: string, css: seq<seq<string>>, chunks: seq<string>, rs: seq<string>) {
    && Flatten(css) == chunks && |css| == |rs|
    && (forall i :: 1 <= i < |rs| ==> Chunking(css[i], rs[i]) && GetReqT(rs[i]).Some? && |css[i][0]| >= Threshold(rs[i]))
    && (rs != [] ==>
          && css[0] != [] && (forall j :: 0 <= j < |css[0]| ==> css[0][j] != "") && b + Concat(css[0]) == rs[0]
          && GetReqT(rs[0]).Some? && (b == "" ==> |css[0][0]| >= Threshold(rs[0])))
  }

  /** What is served has been received: no byte is served twice. */
  lemma {:induction false} ServedBytes(st: State, chunks: seq<string>, rs: seq<string>, env: Env)
    requires RunOn(st, chunks, env).events == st.events + EventsOf(rs, env)
    ensures |Concat(rs)| <= |st.buffer| + |Concat(chunks)|
    decreases |chunks|
  {
    hide Parse, NeedsToken, TokenOf;
    assert |RunOn(st, chunks, env).events| == |st.events| + |rs|;
    if rs != [] && chunks != [] && chunks[0] != "" && st.running {
      var next := Receive(st, chunks[0], env);
      EventsAreKept(next, chunks[1..], env);
      if next.events == st.events {
        ServedBytes(next, chunks[1..], rs, env);
      } else {
        FirstServed(st, next, chunks, rs, env);
        ServedBytes(next, chunks[1..], rs[1..], env);
      }
    }
  }

  /** A turn that adds an event to a run of served requests has served the first of them, and cleared the buffer. */
  lemma FirstServed(st: State, next: State, chunks: seq<string>, rs: seq<string>, env: Env)
    requires chunks != [] && chunks[0] != "" && st.running && next == Receive(st, chunks[0], env) && next.events != st.events
    requires RunOn(next, chunks[1..], env).events == st.events + EventsOf(rs, env)
    ensures rs != [] && next.events == st.events + [EventOf(rs[0], env)] && st.buffer + chunks[0] == rs[0]
    ensures next == State("", next.events, true) && TokenVerifies(rs[0], env)
    ensures st.events + EventsOf(rs, env) == next.events + EventsOf(rs[1..], env)
    ensures Concat(rs) == rs[0] + Concat(rs[1..])
  {
    hide Parse, NeedsToken, TokenOf;
    EventsAreKept(next, chunks[1..], env);
    var i := |st.events|;
    assert |next.events| == i + 1;
    assert next.events[i] == (st.events + EventsOf(rs, env))[i];
    assert EventsOf(rs, env) == [EventOf(rs[0], env)] + EventsOf(rs[1..], env);
    assert next.events[i] == EventOf(rs[0], env);
  }

  lemma FlattenCons(group: seq<string>, css: seq<seq<string>>)
    ensures Flatten([group] + css) == group + Flatten(css)
  {
    assert ([group] + css)[1..] == css;
  }

  lemma SplitsStart(group: seq<string>, css: seq<seq<string>>, chunks: seq<string>, b: string, rs: seq<string>)
    requires rs != [] && SplitsAfter("", css, chunks, rs[1..])
    requires group != [] && (forall j :: 0 <= j < |group| ==> group[j] != "") && b + Concat(group) == rs[0]
    requires GetReqT(rs[0]).Some? && (b == "" ==> |group[0]| >= Threshold(rs[0]))
    ensures SplitsAfter(b, [group] + css, group + chunks, rs)
  {
    hide GetReqT, Threshold;
    FlattenCons(group, css);
    var all := [group] + css;
    forall i | 1 <= i < |rs| ensures Chunking(all[i], rs[i]) && GetReqT(rs[i]).Some? && |all[i][0]| >= Threshold(rs[i]) {
      assert all[i] == css[i - 1] && rs[i] == rs[1..][i - 1];
    }
  }

  lemma SplitsGrow(chunk: string, css: seq<seq<string>>, chunks: seq<string>, b: string, rs: seq<string>)
    requires rs != [] && chunk != "" && SplitsAfter(b + chunk, css, chunks, rs)
    requires b == "" ==> |chunk| >= Threshold(rs[0])
    ensures SplitsAfter(b, [[chunk] + css[0]] + css[1..], [chunk] + chunks, rs)
  {
    hide GetReqT, Threshold;
    var group, rest := [chunk] + css[0], css[1..];
    assert css == [css[0]] + rest;
    FlattenCons(css[0], rest);
    FlattenCons(group, rest);
    assert group[1..] == css[0];
    assert [chunk] + (css[0] + Flatten(rest)) == group + Flatten(rest);
    assert b + Concat(group) == (b + chunk) + Concat(css[0]);
  }

  /** From a run that serves exactly `rs` and wastes no byte, the pieces of each request can be read off. */
  lemma {:induction false} ServedSplits(st: State, chunks: seq<string>, rs: seq<string>, env: Env) returns (css: seq<seq<string>>)
    requires st.running && (forall i :: 0 <= i < |chunks| ==> chunks[i] != "")
    requires forall i :: 0 <= i < |rs| ==> Whole(rs[i], env)
    requires RunOn(st, chunks, env) == State("", st.events + EventsOf(rs, env), true)
    requires |Concat(rs)| == |st.buffer| + |Concat(chunks)|
    ensures SplitsAfter(st.buffer, css, chunks, rs)
    ensures forall i :: 0 <= i < |rs| ==> TokenVerifies(rs[i], env)
    decreases |chunks|
  {
    hide Parse, NeedsToken, TokenOf, Complete, Threshold, GetReqT, TokenVerifies;
    css := [];
    if chunks == [] {
      assert |EventsOf(rs, env)| == 0;
    } else {
      var next, rest := Receive(st, chunks[0], env), chunks[1..];
      assert chunks == [chunks[0]] + rest;
      EventsAreKept(next, rest, env);
      if next.events != st.events {
        FirstServed(st, next, chunks, rs, env);
        var css' := ServedSplits(next, rest, rs[1..], env);
        WholeShowsMethod(rs[0], env);
        assert Concat([chunks[0]]) == chunks[0];
        SplitsStart([chunks[0]], css', rest, st.buffer, rs);
        css := [[chunks[0]]] + css';
      } else {
        NothingDropped(st, next, chunks, rs, env);
        assert |Concat(rs)| > 0 && rs != [];
        var css' := ServedSplits(next, rest, rs, env);
        WholeShowsMethod(rs[0], env);
        KeptIsShown(st, chunks[0], rs[0], css'[0], env);
        SplitsGrow(chunks[0], css', rest, st.buffer, rs);
        css := [[chunks[0]] + css'[0]] + css'[1..];
      }
    }
  }

  lemma WholeShowsMethod(r: string, env: Env)
    requires Whole(r, env)
    ensures GetReqT(r).Some? && Threshold(r) <= |r|
  {
    hide Parse, First;
    ThresholdInside(r);
  }

  /** A turn without an event, in a run that wastes no byte, has kept the buffer. */
  lemma NothingDropped(st: State, next: State, chunks: seq<string>, rs: seq<string>, env: Env)
    requires chunks != [] && chunks[0] != "" && st.running && next == Receive(st, chunks[0], env) && next.events == st.events
    requires RunOn(next, chunks[1..], env) == State("", st.events + EventsOf(rs, env), true)
    requires |Concat(rs)| == |st.buffer| + |Concat(chunks)|
    ensures next == State(st.buffer + chunks[0], st.events, true)
    ensures Parse(st.buffer + chunks[0], env.decodes).status == NotFullReq
  {
    hide Parse, NeedsToken, TokenOf;
    ServedBytes(next, chunks[1..], rs, env);
  }

  /** A first piece that is kept as the start of a whole request shows its method. */
  lemma KeptIsShown(st: State, chunk: string, r: string, group: seq<string>, env: Env)
    requires Whole(r, env) && GetReqT(r).Some? && Parse(st.buffer + chunk, env.decodes).status == NotFullReq
    requires group != [] && group[0] != "" && (st.buffer + chunk) + Concat(group) == r
    ensures |st.buffer + chunk| >= Threshold(r)
  {
    hide Parse, Complete, Threshold;
    var n := |st.buffer + chunk|;
    assert r[..n] == st.buffer + chunk;
    PrefixVerdict(r, n, env.decodes);
  }

  /** The exact condition for a stream: cut into any non-empty chunks, a sequence of whole requests that parse is served
      as such, each once, in order, with nothing left over, if and only if every access token that a route checks
      verifies, no chunk holds bytes of two requests, and the first piece of each request shows its method. */
  lemma StreamServedIff(rs: seq<string>, chunks: seq<string>, env: Env)
    requires forall i :: 0 <= i < |rs| ==> Whole(rs[i], env)
    requires (forall i :: 0 <= i < |chunks| ==> chunks[i] != "") && Concat(chunks) == Concat(rs)
    ensures RunOn(State("", [], true), chunks, env) == State("", EventsOf(rs, env), true)
            <==> (forall i :: 0 <= i < |rs| ==> TokenVerifies(rs[i], env)) && exists css :: Splits(css, chunks, rs)
  {
    hide Parse, NeedsToken, TokenOf, Complete, Threshold, GetReqT, Receive;
    var start := State("", [], true);
    assert [] + EventsOf(rs, env) == EventsOf(rs, env);
    if RunOn(start, chunks, env) == State("", EventsOf(rs, env), true) {
      var css := ServedSplits(start, chunks, rs, env);
      SplitsFromStart(css, chunks, rs);
      assert Splits(css, chunks, rs);
    }
    if (forall i :: 0 <= i < |rs| ==> TokenVerifies(rs[i], env)) && exists css :: Splits(css, chunks, rs) {
      var css :| Splits(css, chunks, rs);
      StreamIsReassembled([], rs, css, env);
    }
  }

  lemma SplitsFromStart(css: seq<seq<string>>, chunks: seq<string>, rs: seq<string>)
    requires SplitsAfter("", css, chunks, rs)
    ensures Splits(css, chunks, rs)
  {
    hide GetReqT, Threshold;
    if rs != [] {
      assert "" + Concat(css[0]) == Concat(css[0]);
    }
  }

  // ----- the bound on the first piece is exact -----

  lemma {:induction false} EventsAreShort(st: State, chunks: seq<string>, env: Env, i: nat)
    requires |st.events| <= i < |RunOn(st, chunks, env).events|
    ensures |RunOn(st, chunks, env).events[i].raw| <= |st.buffer| + |Concat(chunks)|
    decreases |chunks|
  {
    hide Parse;
    if chunks != [] && chunks[0] != "" && st.running {
      var next := Receive(st, chunks[0], env);
      if i < |next.events| {
        EventsAreKept(next, chunks[1..], env);
      } else {
        EventsAreShort(next, chunks[1..], env, i);
      }
    }
  }

  lemma {:induction false} EventsAreKept(st: State, chunks: seq<string>, env: Env)
    ensures st.events <= RunOn(st, chunks, env).events
    decreases |chunks|
  {
    hide Parse;
    if chunks != [] && chunks[0] != "" && st.running {
      EventsAreKept(Receive(st, chunks[0], env), chunks[1..], env);
    }
  }

  /** A first piece too short to show the method is thrown away, and the request is never served:
      the loop serves a request cut into pieces exactly when the first piece reaches the threshold. */
  lemma ServedIffFirstPieceLongEnough(r: string, chunks: seq<string>, env: Env)
    requires Accepted(r, env) && Chunking(chunks, r)
    ensures RunOn(State("", [], true), chunks, env) == State("", [EventOf(r, env)], true)
            <==> |chunks[0]| >= Threshold(r)
  {
    var start := State("", [], true);
    if |chunks[0]| >= Threshold(r) {
      PiecesAddUp(start, chunks, [], r, env);
      assert chunks + [] == chunks;
      AcceptedIsServed([], r, env);
    } else {
      ShortPieceIsDropped(chunks, r, env);
      hide Accepted, Receive, Complete, Threshold, Parse;
      var end := RunOn(start, chunks, env);
      assert end == RunOn(start, chunks[1..], env);
      if |end.events| > 0 {
        EventsAreShort(start, chunks[1..], env, 0);
      }
    }
  }

  lemma ShortPieceIsDropped(chunks: seq<string>, r: string, env: Env)
    requires Complete(r) && Chunking(chunks, r) && |chunks[0]| < Threshold(r)
    ensures Receive(State("", [], true), chunks[0], env) == State("", [], true)
  {
    hide Parse, First, Receive;
    ThresholdInside(r);
    hide Complete;
    var n := |chunks[0]|;
    assert chunks[0] == r[..n];
    assert "" + chunks[0] == chunks[0];
    PrefixVerdict(r, n, env.decodes);
    RefusedPiece(chunks[0], env);
  }

  lemma RefusedPiece(chunk: string, env: Env)
    requires Parse(chunk, env.decodes) == Parsed(BadHttp, NoInfo)
    ensures Receive(State("", [], true), chunk, env) == State("", [], true)
  {
    hide Parse;
    assert "" + chunk == chunk;
  }

  lemma ThresholdInside(r: string)
    requires GetReqT(r).Some?
    ensures Threshold(r) <= |r|
  {
    hide First;
  }

  // ----- after a refused token -----

  lemma ShortNamesAreOneLine()
    ensures OneLine("getNewToken") && OneLine("getUsersList") && OneLine("getPhotoById") && OneLine("getStatus") && OneLine("makeFriend")
  {
  }

  lemma LongNamesAreOneLine()
    ensures OneLine("getProfileByNickname") && OneLine("getProfilePhoto") && OneLine("deleteFriend") && OneLine("getIdForServerByAccess")
  {
  }

  /** No message name holds a line break. */
  lemma NamesAreOneLine(name: string)
    requires name in GET_MSG_NAMES
    ensures OneLine(name) && name != ""
  {
    hide OneLine;
    ShortNamesAreOneLine();
    LongNamesAreOneLine();
  }

  lemma HeaderSurvives(req: string, x: string, header: string)
    requires EndsBlank(req) && |req + x| < MAX_SIZE && OneLine(header) && |header| > 4
    requires First(req, header, 0).Some?
    ensures GetValueSomeHeader(req + x, header) == GetValueSomeHeader(req, header)
    ensures GetValueWithSpace(req + x, header) == GetValueWithSpace(req, header)
  {
    hide First, OneLine, GetValueSomeHeader, GetValueWithSpace;
    var c, h := First(req, header, 0).value, |req| - 4;
    LineEndsByBlankLine(req, header, c, h);
    HeaderValueStable(req, x, header, c, First(req, CRLF, c).value);
  }

  lemma {:induction false} FirstOfStable(s: string, x: string, from: nat)
    requires FirstOfSpaceOrQuestion(s, from).Some?
    ensures FirstOfSpaceOrQuestion(s + x, from) == FirstOfSpaceOrQuestion(s, from)
    decreases |s| - from
  {
    if from < |s| && s[from] != ' ' && s[from] != '?' {
      FirstOfStable(s, x, from + 1);
    }
  }

  function RouteName(req: string, slash: nat, end: nat): string
    requires slash < |req|
  {
    Substr(req, slash + 1, Minus(end, slash)).value
  }

  lemma RouteNameWraps(req: string, slash: nat, end: nat)
    requires slash + end < |req| < MAX_SIZE
    ensures RouteName(req, slash, end) == if end < slash then req[slash + 1..] else req[slash + 1..end + 1]
  {
  }

  /** A name cut with a wrapped length would end with the blank line. */
  lemma RouteDoesNotWrap(req: string, name: string, slash: nat, end: nat)
    requires slash + end < |req| < MAX_SIZE && req[|req| - 1] == '\n'
    requires OneLine(name) && name != "" && name == RouteName(req, slash, end)
    ensures slash <= end
  {
    RouteNameWraps(req, slash, end);
    hide RouteName;
    assert slash + 1 < |req| ==> req[slash + 1..][|req| - slash - 2] == req[|req| - 1];
  }

  lemma EndsWithFeed(req: string)
    requires EndsBlank(req)
    ensures req[|req| - 1] == '\n'
  {
    FirstMeaning(req, BLANK_LINE, 0);
    AtChars(req, BLANK_LINE, |req| - 4);
  }

  /** A recognised route stays recognised when the buffer grows. */
  lemma RouteSurvives(req: string, x: string, name: string)
    requires EndsBlank(req) && |req + x| < MAX_SIZE && RouteOf(req) == Name(name) && OneLine(name) && name != ""
    ensures RouteOf(req + x) == Name(name)
  {
    hide First, FirstOfSpaceOrQuestion, EndsBlank, OneLine, Substr, Minus;
    EndsWithFeed(req);
    var slash := First(req, "/", 0).value;
    var end := FirstOfSpaceOrQuestion(req[slash..], 0).value;
    FirstStable(req, x, "/", 0);
    assert (req + x)[slash..] == req[slash..] + x;
    FirstOfStable(req[slash..], x, 0);
    RouteDoesNotWrap(req, name, slash, end);
    RouteNameWraps(req, slash, end);
    RouteNameWraps(req + x, slash, end);
    assert (req + x)[slash + 1..end + 1] == req[slash + 1..end + 1];
  }

  // ----- the query of a grown buffer -----

  lemma QuerySurvives(req: string, x: string, p: nat)
    requires 4 <= p < |req| && req[p] == ' ' && !FormRequest.BadHttp(req, 4)
    ensures !FormRequest.BadHttp(req + x, 4)
  {
    StopSurvives(req, x, 4, p);
    var t := req + x;
    forall a | 4 <= a < FormRequest.Stop(t, 4) && a < |t| && t[a] == '&'
      ensures !FormRequest.FirstAmpersandBad(t, 4, a)
    {
      assert req[a] == '&' && !FormRequest.FirstAmpersandBad(req, 4, a);
      assert forall i :: 0 <= i < a ==> t[i] == req[i];
    }
  }

  lemma {:induction false} StopSurvives(s: string, x: string, from: nat, p: nat)
    requires from <= p < |s| && s[p] == ' '
    ensures FormRequest.Stop(s + x, from) == FormRequest.Stop(s, from) <= p
    decreases p - from
  {
    if s[from] != ' ' {
      StopSurvives(s, x, from + 1, p);
    }
  }

  /** When a GET parses, and what its parse has found. */
  lemma GetVerdict(req: string)
    ensures var route, r := RouteOf(req), ParseGetT(req);
            && (r.status == Success <==>
                  && First(req, "Origin: ", 0).Some? && route.Name? && route.name in GET_MSG_NAMES
                  && GetReadable(req, GET_MSG_NAMES[route.name]))
            && (r.status == Success ==>
                  && r.info.GetInfo? && r.info.getMsg == GET_MSG_NAMES[route.name]
                  && Some(r.info.origin) == GetValueSomeHeader(req, "Origin: ")
                  && (r.info.getMsg != GetNewToken ==> Some(r.info.properties) == Arguments(req))
                  && (if r.info.getMsg == GetNewToken
                      then Some(r.info.refreshToken) == GetValueWithSpace(req, "refreshToken=") && r.info.accessToken == ""
                      else Some(r.info.accessToken) == GetValueWithSpace(req, "Bearer ") && r.info.refreshToken == ""))
  {
    NothingToThrow(req);
    hide First, GET_MSG_NAMES, FormRequest.BadHttp, RouteOf, Arguments;
  }

  lemma BearerHoldsSpace(req: string)
    requires First(req, "Bearer ", 0).Some?
    ensures exists p :: 4 <= p < |req| && req[p] == ' '
  {
    FirstMeaning(req, "Bearer ", 0);
    hide First;
    var c := First(req, "Bearer ", 0).value;
    AtChars(req, "Bearer ", c);
    assert req[c + 6] == ' ';
  }

  lemma HeadersAreLines()
    ensures OneLine("Origin: ") && OneLine("Bearer ") && OneLine("refreshToken=")
  {
  }

  /** The same message with the same tokens; the arguments of a query are left open. */
  ghost predicate SameMessage(a: Info, b: Info) {
    match a
    case OptionsInfo(_) => a == b
    case GetInfo(origin, msg, refresh, access, _) =>
      b.GetInfo? && b.origin == origin && b.getMsg == msg && b.refreshToken == refresh && b.accessToken == access
    case _ => false
  }

  lemma TokenSurvives(req: string, x: string, msg: GetMsg)
    requires EndsBlank(req) && |req + x| < MAX_SIZE && GetReadable(req, msg)
    ensures GetReadable(req + x, msg)
    ensures msg == GetNewToken ==> GetValueWithSpace(req + x, "refreshToken=") == GetValueWithSpace(req, "refreshToken=")
    ensures msg != GetNewToken ==> GetValueWithSpace(req + x, "Bearer ") == GetValueWithSpace(req, "Bearer ")
  {
    hide First, GetValueSomeHeader, GetValueWithSpace, EndsBlank, OneLine, FormRequest.BadHttp;
    HeadersAreLines();
    if msg == GetNewToken {
      HeaderSurvives(req, x, "refreshToken=");
      FirstStable(req, x, "refreshToken=", 0);
    } else {
      HeaderSurvives(req, x, "Bearer ");
      FirstStable(req, x, "Bearer ", 0);
      BearerHoldsSpace(req);
      var p :| 4 <= p < |req| && req[p] == ' ';
      QuerySurvives(req, x, p);
    }
  }

  /** A whole GET: its verdict, message and tokens outlive whatever is appended to the buffer. */
  lemma GetSurvives(req: string, x: string)
    requires EndsBlank(req) && |req + x| < MAX_SIZE && ParseGetT(req).status == Success
    ensures ParseGetT(req + x).status == Success && SameMessage(ParseGetT(req).info, ParseGetT(req + x).info)
  {
    hide First, GetValueSomeHeader, GetValueWithSpace, RouteOf, GET_MSG_NAMES, EndsBlank, OneLine, ParseGetT, GetReadable;
    GetVerdict(req);
    HeadersAreLines();
    HeaderSurvives(req, x, "Origin: ");
    FirstStable(req, x, "Origin: ", 0);
    var name := RouteOf(req).name;
    NamesAreOneLine(name);
    RouteSurvives(req, x, name);
    TokenSurvives(req, x, GET_MSG_NAMES[name]);
    GetVerdict(req + x);
  }

  lemma OptionsSurvives(req: string, x: string)
    requires EndsBlank(req) && |req + x| < MAX_SIZE && ParseOptionsT(req).status == Success
    ensures ParseOptionsT(req + x) == ParseOptionsT(req)
  {
    hide First, GetValueSomeHeader, GetValueWithSpace, EndsBlank, OneLine;
    HeadersAreLines();
    assert First(req, "Origin: ", 0).Some? by { OriginFound(req); }
    HeaderSurvives(req, x, "Origin: ");
  }

  lemma OriginFound(req: string)
    requires GetValueSomeHeader(req, "Origin: ").Some?
    ensures First(req, "Origin: ", 0).Some?
  {
    hide First;
  }

  /** A whole request that the first blank line ends. */
  ghost predicate Bodyless(r: string) {
    Complete(r) && (GetReqT(r).value.verb == Get || GetReqT(r).value.verb == Options)
  }

  lemma BlankAfterWord(word: string, rest: string)
    requires '\r' !in word && |word + rest| >= 4 && First(word + rest, BLANK_LINE, 0) == Some(|word + rest| - 4)
    ensures EndsBlank(rest)
  {
    hide First;
    BreakIsBehind(word, rest, |word + rest| - 4);
    FirstFrom(word + rest, BLANK_LINE, |word|);
    FirstSkip(word, rest, BLANK_LINE, 0);
  }

  lemma BreakIsBehind(word: string, rest: string, h: nat)
    requires '\r' !in word && First(word + rest, BLANK_LINE, 0) == Some(h)
    ensures |word| <= h
  {
    FirstMeaning(word + rest, BLANK_LINE, 0);
    hide First;
    AtChars(word + rest, BLANK_LINE, h);
    assert (word + rest)[h] == '\r';
    assert forall i :: 0 <= i < |word| ==> (word + rest)[i] == word[i] && word[i] in word;
  }

  lemma BodylessEndsBlank(r: string)
    requires Bodyless(r)
    ensures GetReqT(r).value.size <= |r| && EndsBlank(r[GetReqT(r).value.size..])
  {
    var n := GetReqT(r).value.size;
    VerbIsWord(r);
    hide First, GetReqT, EndsBlank;
    assert r == r[..n] + r[n..];
    BlankAfterWord(r[..n], r[n..]);
  }

  lemma VerbIsWord(r: string)
    requires GetReqT(r).Some? && (GetReqT(r).value.verb == Get || GetReqT(r).value.verb == Options)
    ensures GetReqT(r).value.size < |r| && '\r' !in r[..GetReqT(r).value.size]
  {
    hide First;
  }

  lemma LongerParses(r: string, x: string, decodes: Decoder)
    requires Bodyless(r) && |r + x| < MAX_SIZE && GetReqT(r).value.size <= |r|
    ensures var t := GetReqT(r).value;
            && Parse(r, decodes) == Dispatch(r[t.size..], t.verb, decodes)
            && Parse(r + x, decodes) == Dispatch(r[t.size..] + x, t.verb, decodes)
  {
    hide First, Dispatch;
    FirstStable(r, x, BLANK_LINE, 0);
    MethodOfLonger(r, x);
    var n := GetReqT(r).value.size;
    hide GetReqT;
    assert (r + x)[n..] == r[n..] + x;
  }

  /** Whatever follows a whole GET or OPTIONS request in the buffer, it is parsed as the same message. */
  lemma BodylessSurvives(r: string, x: string, decodes: Decoder)
    requires Bodyless(r) && |r + x| < MAX_SIZE && Parse(r, decodes).status == Success
    ensures Parse(r + x, decodes).status == Success && SameMessage(Parse(r, decodes).info, Parse(r + x, decodes).info)
  {
    hide Parse, ParseGetT, ParseOptionsT, EndsBlank, GetReqT;
    BodylessEndsBlank(r);
    LongerParses(r, x, decodes);
    var t := GetReqT(r).value;
    if t.verb == Get {
      GetSurvives(r[t.size..], x);
    } else {
      OptionsSurvives(r[t.size..], x);
      OptionsIsInfo(r[t.size..]);
    }
  }

  lemma OptionsIsInfo(req: string)
    requires ParseOptionsT(req).status == Success
    ensures ParseOptionsT(req).info.OptionsInfo?
  {
    hide GetValueSomeHeader;
  }

  /** A whole GET whose route checks its access token, with that token refused. */
  ghost predicate RefusedGet(r: string, env: Env) {
    Whole(r, env) && GetReqT(r).value.verb == Get && !TokenVerifies(r, env)
  }

  lemma RefusedAgain(r: string, st: State, chunk: string, env: Env)
    requires RefusedGet(r, env) && st.running && r <= st.buffer + chunk && |st.buffer + chunk| < MAX_SIZE
    ensures var end := Receive(st, chunk, env);
            && end.running && end.buffer == st.buffer + chunk
            && exists info :: end.events == st.events + [Refused(st.buffer + chunk, info)]
                              && SameMessage(Parse(r, env.decodes).info, info)
  {
    hide Parse, Complete, GetReqT;
    var b := st.buffer + chunk;
    var x := b[|r|..];
    assert b == r + x;
    BodylessSurvives(r, x, env.decodes);
    assert Receive(st, chunk, env).events == st.events + [Refused(b, Parse(b, env.decodes).info)];
  }

  /** A GET whose token is refused is never cleared from the buffer: however many chunks follow, each of them
      only brings the same refusal again, and nothing is ever served on this connection. */
  lemma {:induction false} RefusedGetSticks(r: string, st: State, chunks: seq<string>, env: Env)
    requires RefusedGet(r, env) && st.running && (forall i :: 0 <= i < |chunks| ==> chunks[i] != "")
    requires r <= st.buffer && |st.buffer| + |Concat(chunks)| < MAX_SIZE
    ensures var end := RunOn(st, chunks, env);
            && end.running && r <= end.buffer
            && |end.events| == |st.events| + |chunks| && st.events <= end.events
            && forall i :: |st.events| <= i < |end.events| ==>
                 end.events[i].Refused? && SameMessage(Parse(r, env.decodes).info, end.events[i].info)
    decreases |chunks|
  {
    hide RefusedGet, Receive, Parse, SameMessage;
    if chunks != [] {
      RefusedAgain(r, st, chunks[0], env);
      RefusedGetSticks(r, Receive(st, chunks[0], env), chunks[1..], env);
    }
  }

  lemma LongerPostOverflows(r: string, x: string)
    requires Complete(r) && GetReqT(r).value.verb == Post && x != "" && |r + x| < MAX_SIZE
    ensures CheckIsFullRequest(r + x, Post) == BadHttp
  {
    hide First, GetReqT, GetValueSomeHeader;
    var h, c := First(r, BLANK_LINE, 0).value, First(r, LENGTH_HEADER, 0).value;
    LengthHeaderIsOneLine();
    LineEndsByBlankLine(r, LENGTH_HEADER, c, h);
    var e := First(r, CRLF, c).value;
    HeaderValueIs(r, LENGTH_HEADER, c, e);
    HeaderValueStable(r, x, LENGTH_HEADER, c, e);
    FirstStable(r, x, BLANK_LINE, 0);
  }

  /** Anything behind a whole POST makes its body longer than its declared length: both are thrown away unread. */
  lemma LongerPostIsDropped(st: State, chunk: string, r: string, x: string, env: Env)
    requires Complete(r) && GetReqT(r).value.verb == Post && x != "" && |r + x| < MAX_SIZE && st.buffer + chunk == r + x
    ensures Receive(st, chunk, env) == State("", st.events, true)
  {
    hide Complete, First, GetReqT, CheckIsFullRequest, Dispatch;
    LongerPostOverflows(r, x);
    MethodOfComplete(r);
    MethodOfLonger(r, x);
  }

  lemma MethodOfComplete(r: string)
    requires Complete(r)
    ensures GetReqT(r).Some?
  {
  }

  /** A POST whose token is refused stays in the buffer too, and takes the next chunk, whatever it holds, down with it:
      however the POST is cut, and with its refusal as the only event. */
  lemma RefusedPostSwallowsNext(r: string, events: seq<Event>, chunks: seq<string>, next: string, env: Env)
    requires Whole(r, env) && GetReqT(r).value.verb == Post && !TokenVerifies(r, env)
    requires Chunking(chunks, r) && |chunks[0]| >= Threshold(r) && next != "" && |r + next| < MAX_SIZE
    ensures RunOn(State("", events, true), chunks + [next], env)
         == State("", events + [Refused(r, Parse(r, env.decodes).info)], true)
  {
    hide Complete, Parse, GetReqT, Threshold, NeedsToken, TokenOf;
    assert "" + r == r;
    var held := State(r, events + [Refused(r, Parse(r, env.decodes).info)], true);
    assert Receive(State("", events, true), r, env) == held;
    PiecesAddUp(State("", events, true), chunks, [next], r, env);
    LongerPostIsDropped(held, next, r, next, env);
    hide Receive;
    assert [next][1..] == [];
    assert RunOn(held, [next], env) == RunOn(Receive(held, next, env), [], env);
  }

  /** Bytes that arrive in the same chunk as the end of a request are lost. Behind a GET or OPTIONS they vanish when the
      buffer is cleared, or stay behind a refused token; behind a POST they take the POST with them, unserved. */
  lemma TrailingBytesAreLost(r: string, x: string, events: seq<Event>, env: Env)
    requires Whole(r, env) && x != "" && |r + x| < MAX_SIZE
    ensures var end := Receive(State("", events, true), r + x, env);
            if GetReqT(r).value.verb == Post then end == State("", events, true)
            else exists info :: SameMessage(Parse(r, env.decodes).info, info)
                   && end == if TokenVerifies(r, env) then State("", events + [Served(r + x, info, EventOf(r, env).user)], true)
                             else State(r + x, events + [Refused(r + x, info)], true)
  {
    hide Parse, Complete, GetReqT;
    var start := State("", events, true);
    assert "" + (r + x) == r + x;
    SupportedVerb(r, env.decodes);
    if GetReqT(r).value.verb == Post {
      LongerPostIsDropped(start, r + x, r, x, env);
    } else {
      BodylessSurvives(r, x, env.decodes);
      var info := Parse(r + x, env.decodes).info;
      assert SameMessage(Parse(r, env.decodes).info, info);
      assert Receive(start, r + x, env) == Serve(start, r + x, info, env);
    }
  }

  lemma SupportedVerb(r: string, decodes: Decoder)
    requires Complete(r) && Parse(r, decodes).status == Success
    ensures GetReqT(r).Some? && GetReqT(r).value.verb != NotSupport
  {
    hide First, ParseGetT, ParsePostT, ParseOptionsT;
  }
}
