/** The multipart/form-data format, written from section 5.1.1 of RFC 2046 (delimiters, preamble,
    epilogue) and section 4.2 of RFC 7578 (Content-Disposition), and the proof that the scanner of
    `FormDataParser` inverts it. */
module Multipart {
  import opened Text
  import opened Properties
  import opened FormDataParser

  datatype Part = Part(name: string, filename: Option<string>, contentType: Option<string>, data: string)

  /** The Content-Disposition line. */
  function Disposition(p: Part): string {
    PREFIX + "name=\"" + (p.name + "\"" + FileParameter(p))
  }

  const PREFIX := "Content-Disposition: form-data; "

  function FileParameter(p: Part): string {
    match p.filename
    case None => ""
    case Some(f) => "; filename=\"" + f + "\""
  }

  function TypeLine(p: Part): string {
    match p.contentType
    case None => ""
    case Some(t) => CRLF + ("Content-Type" + (": " + t))
  }

  function Headers(p: Part): string {
    Disposition(p) + TypeLine(p)
  }

  /** What stands between a delimiter line and the next delimiter. */
  function Block(p: Part): string {
    Headers(p) + BLANK_LINE + p.data + CRLF
  }

  /** The parts, each after its delimiter line, then the closing delimiter and the epilogue. */
  function Encapsulated(delimiter: string, ps: seq<Part>, epilogue: string): string {
    if ps == [] then delimiter + ("--" + epilogue)
    else delimiter + (CRLF + Block(ps[0]) + Encapsulated(delimiter, ps[1..], epilogue))
  }

  function Encode(boundary: string, preamble: Option<string>, ps: seq<Part>, epilogue: string): string {
    (match preamble case None => "" case Some(s) => s + CRLF) + Encapsulated("--" + boundary, ps, epilogue)
  }

  function ContentTypeOf(boundary: string): string {
    "multipart/form-data; boundary=" + boundary
  }

  /** The form can be told from its delimiters, and the quoted parameters from their quotes. */
  ghost predicate WellFormedPart(p: Part, delimiter: string) {
    && OneLine(p.name) && '"' !in p.name
    && (p.filename.Some? ==> OneLine(p.filename.value))
    && (p.contentType.Some? ==> OneLine(p.contentType.value))
    && !Contains(Disposition(p), "Content-Type")
    && !Contains(Headers(p), delimiter) && !Contains(p.data, delimiter)
  }

  ghost predicate WellFormedForm(boundary: string, preamble: Option<string>, ps: seq<Part>, epilogue: string) {
    var delimiter := "--" + boundary;
    && OneLine(boundary)
    && (preamble.Some? ==> !Contains(preamble.value, delimiter))
    && !Contains(epilogue, delimiter)
    && forall i :: 0 <= i < |ps| ==> WellFormedPart(ps[i], delimiter)
  }

  function Clip(s: string, n: nat): string {
    if n < |s| then s[..n] else s
  }

  /** What a part assigns: its type, cut to the length of the Content-Disposition line, then its data. */
  function Assigned(p: Part): Pairs {
    (match p.contentType
     case None => []
     case Some(t) => [("Content-Type", Clip(t, |Disposition(p)|))])
    + [(p.name, p.data)]
  }

  function AssignedAll(ps: seq<Part>): Pairs {
    if ps == [] then [] else Assigned(ps[0]) + AssignedAll(ps[1..])
  }

  // ----- one part -----

  lemma FirstChar(s: string, c: char, from: nat, i: nat)
    requires from <= i < |s| && s[i] == c && forall j :: from <= j < i ==> s[j] != c
    ensures First(s, [c], from) == Some(i)
  {
    assert s[i..i + 1] == [c];
    forall j | from <= j < i ensures !At(s, [c], j) {
      assert s[j..j + 1] == [s[j]];
    }
    FirstIs(s, [c], from, i);
  }

  lemma DispositionIsOneLine(p: Part)
    requires OneLine(p.name) && (p.filename.Some? ==> OneLine(p.filename.value))
    ensures OneLine(Disposition(p))
  {
    assert OneLine(PREFIX);
    OneLineConcat(p.name, "\"");
    if p.filename.Some? {
      OneLineConcat("; filename=\"", p.filename.value);
      OneLineConcat("; filename=\"" + p.filename.value, "\"");
    }
    OneLineConcat(p.name + "\"", FileParameter(p));
    OneLineConcat(PREFIX, "name=\"");
    OneLineConcat(PREFIX + "name=\"", p.name + "\"" + FileParameter(p));
  }

  lemma OneLineConcat(a: string, b: string)
    requires OneLine(a) && OneLine(b)
    ensures OneLine(a + b)
  {
  }

  lemma ReturnsInTwoLines(d: string, l: string, j: nat)
    requires OneLine(d) && OneLine(l) && l != "" && j < |d + CRLF + l| && (d + CRLF + l)[j] == '\r'
    ensures j == |d| && (d + CRLF + l)[j + 2] == l[0]
  {
  }

  /** Of the two non-empty lines, only the break between them holds a carriage return. */
  lemma ReturnsInHeaders(p: Part, j: nat)
    requires OneLine(Disposition(p)) && (p.contentType.Some? ==> OneLine(p.contentType.value))
    requires j < |Headers(p)| && Headers(p)[j] == '\r'
    ensures j + 2 < |Headers(p)| && Headers(p)[j + 2] != '\r'
  {
    hide Disposition;
    var d := Disposition(p);
    assert p.contentType.None? ==> Headers(p) == d;
    if p.contentType.Some? {
      var l := "Content-Type" + (": " + p.contentType.value);
      OneLineConcat(": ", p.contentType.value);
      OneLineConcat("Content-Type", ": " + p.contentType.value);
      Assoc(d, CRLF, l);
      ReturnsInTwoLines(d, l, j);
    }
  }

  /** The blank line after the headers is the first one seen from anywhere inside them. */
  lemma BlankLineAfterHeaders(p: Part, y: string, from: nat)
    requires OneLine(Disposition(p)) && (p.contentType.Some? ==> OneLine(p.contentType.value))
    requires from <= |Headers(p)|
    ensures First(Headers(p) + BLANK_LINE + y, BLANK_LINE, from) == Some(|Headers(p)|)
  {
    var h := Headers(p);
    var s := h + BLANK_LINE + y;
    hide Headers, Disposition;
    assert s[|h|..|h| + 4] == BLANK_LINE;
    forall j | from <= j < |h| ensures !At(s, BLANK_LINE, j) {
      if At(s, BLANK_LINE, j) {
        AtChars(s, BLANK_LINE, j);
        ReturnsInHeaders(p, j);
      }
    }
    FirstIs(s, BLANK_LINE, from, |h|);
  }

  lemma NoNameInPrefix(j: nat)
    requires j < |PREFIX| && PREFIX[j] == 'n'
    ensures j + 1 < |PREFIX| && PREFIX[j + 1] != 'a'
  {
  }

  lemma NameAfterPrefix(w: string)
    ensures First(PREFIX + ("name" + w), "name", 0) == Some(|PREFIX|)
  {
    var h := PREFIX + ("name" + w);
    assert h[|PREFIX|..|PREFIX| + 4] == "name";
    forall j | 0 <= j < |PREFIX| ensures !At(h, "name", j) {
      assert h[j] == PREFIX[j] && (j + 1 < |PREFIX| ==> h[j + 1] == PREFIX[j + 1]);
      if At(h, "name", j) {
        AtChars(h, "name", j);
        NoNameInPrefix(j);
      }
    }
    hide First;
    FirstIs(h, "name", 0, |PREFIX|);
  }

  lemma QuoteAfter(u: string, name: string, w: string)
    requires '"' !in name
    ensures First(u + name + ("\"" + w), "\"", |u|) == Some(|u| + |name|)
    ensures Substr(u + name + ("\"" + w), |u|, |name|) == Some(name)
  {
    var s := u + name + ("\"" + w);
    assert s[|u|..|u| + |name|] == name;
    forall j | |u| <= j < |u| + |name| ensures s[j] != '"' {
      assert s[j] == name[j - |u|];
    }
    hide First;
    FirstChar(s, '"', |u|, |u| + |name|);
  }

  /** The first `name` is the parameter's, and the quote after its value is the first from there on. */
  lemma NameInHeaders(p: Part)
    requires '"' !in p.name
    ensures First(Headers(p), "name", 0) == Some(|PREFIX|)
    ensures First(Headers(p), "\"", |PREFIX| + 6) == Some(|PREFIX| + 6 + |p.name|)
    ensures Substr(Headers(p), |PREFIX| + 6, |p.name|) == Some(p.name)
  {
    hide First, TypeLine, FileParameter;
    var w := FileParameter(p) + TypeLine(p);
    assert Headers(p) == PREFIX + ("name" + ("=\"" + p.name + ("\"" + w)));
    NameAfterPrefix("=\"" + p.name + ("\"" + w));
    assert Headers(p) == PREFIX + "name=\"" + p.name + ("\"" + w);
    QuoteAfter(PREFIX + "name=\"", p.name, w);
  }

  lemma ReturnAfterLine(d: string, w: string)
    requires OneLine(d)
    ensures First(d + CRLF + w, "\r", 0) == Some(|d|)
  {
    hide First;
    FirstChar(d + CRLF + w, '\r', 0, |d|);
  }

  lemma CutAfterLine(d: string, t: string)
    ensures Substr(d + CRLF + ("Content-Type" + (": " + t)), |d| + 16, |d|) == Some(Clip(t, |d|))
  {
    var h := d + CRLF + ("Content-Type" + (": " + t));
    assert h[|d| + 16..] == t;
    if |d| < |t| {
      assert h[|d| + 16..|d| + 16 + |d|] == t[..|d|];
    }
  }

  /** Where the type line is found, and what its value is cut to. */
  lemma TypeInHeaders(p: Part)
    requires OneLine(Disposition(p)) && !Contains(Disposition(p), "Content-Type")
    ensures p.contentType.None? ==> First(Headers(p), "Content-Type", 0) == None
    ensures p.contentType.Some? ==>
              var i := |Disposition(p)| + 2;
              && First(Headers(p), "Content-Type", 0) == Some(i)
              && First(Headers(p), "\r", 0) == Some(|Disposition(p)|)
              && Substr(Headers(p), i + 14, |Disposition(p)|) == Some(Clip(p.contentType.value, |Disposition(p)|))
  {
    var d, h := Disposition(p), Headers(p);
    hide First, Disposition, Substr, Clip;
    match p.contentType
    case None =>
      assert h == d;
    case Some(t) =>
      assert h == d + CRLF + ("Content-Type" + (": " + t));
      FirstAfterLine(d, "Content-Type", ": " + t);
      ReturnAfterLine(d, "Content-Type" + (": " + t));
      CutAfterLine(d, t);
  }

  // ----- one window -----

  /** The window of a part: from the end of `u`, up to and including the line feed before the delimiter. */
  function WindowOf(u: string, p: Part): Window {
    Window(|u|, |u| + |Block(p)| - 1)
  }

  lemma DescriptionOf(u: string, p: Part, y: string, from: nat)
    requires OneLine(Disposition(p)) && (p.contentType.Some? ==> OneLine(p.contentType.value))
    requires from <= |Headers(p)|
    ensures First(u + Block(p) + y, BLANK_LINE, |u| + from) == Some(|u| + |Headers(p)|)
    ensures Substr(u + Block(p) + y, |u|, |Headers(p)|) == Some(Headers(p))
  {
    hide First, Headers, Disposition;
    var h := Headers(p);
    var rest := p.data + CRLF + y;
    var s := u + Block(p) + y;
    assert s == u + (h + BLANK_LINE + rest);
    BlankLineAfterHeaders(p, rest, from);
    FirstSkip(u, h + BLANK_LINE + rest, BLANK_LINE, from);
    assert s[|u|..|u| + |h|] == h;
  }

  lemma ValueOf(u: string, p: Part, y: string)
    ensures Substr(u + Block(p) + y, |u| + |Headers(p)| + 4, |p.data|) == Some(p.data)
  {
    hide Headers;
    var s := u + Block(p) + y;
    var i := |u| + |Headers(p)| + 4;
    assert s[i..i + |p.data|] == p.data;
  }

  /** `finish_p - value_start_p + 1 - 2`, when nothing wraps. */
  lemma NamedPositions(w: Window, i: nat, q: nat, v: nat, n: nat)
    requires i + 6 <= q < MAX_SIZE && v < MAX_SIZE && w.start < MAX_SIZE && n < MAX_SIZE
    requires w.finish + 1 == v + 4 + n + 2
    ensures Plus(i + 6, w.start) == w.start + (i + 6) && Minus(q, i + 6) == q - i - 6
    ensures Plus(v, 4) == v + 4 && Minus(Plus(Minus(w.finish, v + 4), 1), 2) == n
  {
  }

  lemma NamedPropertyIs(body: string, w: Window, description: string, m: map<string, string>,
                        i: nat, q: nat, name: string, v: nat, data: string)
    requires Find(description, "name", 0) == i != NPOS && Find(description, "\"", i + 6) == q
    requires Substr(description, i + 6, Minus(q, i + 6)) == Some(name)
    requires Find(body, BLANK_LINE, Plus(i + 6, w.start)) == v
    requires Substr(body, Plus(v, 4), Minus(Plus(Minus(w.finish, Plus(v, 4)), 1), 2)) == Some(data)
    ensures NamedProperty(body, w, description, m) == Done(m[name := data])
  {
    hide Find, Substr, Minus, Plus;
  }

  lemma PropertyIs(body: string, w: Window, m: map<string, string>, h: nat, description: string, typed: Option<(nat, nat, string)>)
    requires Find(body, BLANK_LINE, w.start) == h
    requires Substr(body, w.start, Minus(h, w.start)) == Some(description)
    requires match typed
             case None => Find(description, "Content-Type", 0) == NPOS
             case Some((i, c, t)) =>
               && Find(description, "Content-Type", 0) == i != NPOS && Find(description, "\r", 0) == c
               && Substr(description, i + 14, c) == Some(t)
    ensures PropertyOf(body, w, m)
         == NamedProperty(body, w, description, if typed.None? then m else m["Content-Type" := typed.value.2])
  {
    hide Find, Substr, Minus, NamedProperty;
  }

  lemma FindIs(s: string, pat: string, from: nat, i: nat)
    requires First(s, pat, from) == Some(i) && |s| < MAX_SIZE
    ensures Find(s, pat, from) == i != NPOS
  {
  }

  lemma FindIsNot(s: string, pat: string, from: nat)
    requires First(s, pat, from) == None
    ensures Find(s, pat, from) == NPOS
  {
  }

  lemma BlockSize(p: Part)
    ensures |Block(p)| == |Headers(p)| + 4 + |p.data| + 2
  {
  }

  /** The part's headers are lines, and its name ends at the quote. */
  ghost predicate Readable(p: Part) {
    && OneLine(Disposition(p)) && '"' !in p.name
    && (p.contentType.Some? ==> OneLine(p.contentType.value))
    && !Contains(Disposition(p), "Content-Type")
  }

  lemma WellFormedIsReadable(p: Part, delimiter: string)
    requires WellFormedPart(p, delimiter)
    ensures Readable(p)
  {
    hide Contains;
    DispositionIsOneLine(p);
  }

  lemma PartIsNamed(u: string, p: Part, y: string, body: string, m: map<string, string>)
    requires Readable(p) && body == u + Block(p) + y && |body| < MAX_SIZE
    ensures NamedProperty(body, WindowOf(u, p), Headers(p), m) == Done(m[p.name := p.data])
  {
    hide Block, First, Find, Headers, Disposition, Substr, NamedProperty, Contains, OneLine;
    var w, h, q := WindowOf(u, p), |u| + |Headers(p)|, |PREFIX| + 6 + |p.name|;
    BlockSize(p);
    NameInHeaders(p);
    DescriptionOf(u, p, y, |PREFIX| + 6);
    ValueOf(u, p, y);
    NamedPositions(w, |PREFIX|, q, h, |p.data|);
    hide Minus, Plus;
    FindIs(Headers(p), "name", 0, |PREFIX|);
    FindIs(Headers(p), "\"", |PREFIX| + 6, q);
    FindIs(body, BLANK_LINE, |u| + (|PREFIX| + 6), h);
    NamedPropertyIs(body, w, Headers(p), m, |PREFIX|, q, p.name, h, p.data);
  }

  /** The window arithmetic: from one delimiter to the next, exactly the part's pairs are assigned. */
  lemma PartIsAssigned(u: string, p: Part, y: string, body: string, m: map<string, string>)
    requires Readable(p) && body == u + Block(p) + y && |body| < MAX_SIZE
    ensures PropertyOf(body, WindowOf(u, p), m) == Done(Assign(m, Assigned(p)))
  {
    hide Block, First, Find, Substr, PropertyOf, NamedProperty, Disposition, Headers, Clip, Assigned, Assign, Contains, OneLine;
    var w, h, d := WindowOf(u, p), |u| + |Headers(p)|, |Disposition(p)|;
    BlockSize(p);
    AssignedIs(p, m);
    TypeInHeaders(p);
    DescriptionOf(u, p, y, 0);
    FindIs(body, BLANK_LINE, |u|, h);
    assert Minus(h, |u|) == |Headers(p)|;
    hide Minus;
    match p.contentType
    case None =>
      FindIsNot(Headers(p), "Content-Type", 0);
      PropertyIs(body, w, m, h, Headers(p), None);
      PartIsNamed(u, p, y, body, m);
    case Some(t) =>
      FindIs(Headers(p), "Content-Type", 0, d + 2);
      FindIs(Headers(p), "\r", 0, d);
      PropertyIs(body, w, m, h, Headers(p), Some((d + 2, d, Clip(t, d))));
      PartIsNamed(u, p, y, body, m["Content-Type" := Clip(t, d)]);
  }

  lemma AssignedIs(p: Part, m: map<string, string>)
    ensures Assign(m, Assigned(p))
         == (match p.contentType case None => m case Some(t) => m["Content-Type" := Clip(t, |Disposition(p)|)])[p.name := p.data]
  {
    hide Disposition;
    match p.contentType
    case None => AssignOne(m, p.name, p.data);
    case Some(t) =>
      var first := [("Content-Type", Clip(t, |Disposition(p)|))];
      AssignConcat(m, first, [(p.name, p.data)]);
      AssignOne(m, first[0].0, first[0].1);
      AssignOne(Assign(m, first), p.name, p.data);
  }

  // ----- the whole body -----

  lemma NextAfterLine(u: string, b: string, x: string, delimiter: string, y: string)
    requires OneLine(delimiter) && delimiter != "" && !Contains(x, delimiter) && b == x + CRLF
    ensures First(u + (b + (delimiter + y)), delimiter, |u|) == Some(|u| + |b|)
  {
    hide First, Contains, OneLine;
    FirstAfterLine(x, delimiter, y);
    FirstSkip(u, b + (delimiter + y), delimiter, 0);
  }

  /** A block is a text free of the delimiter, and a line break. */
  lemma BlockEndsLine(p: Part, delimiter: string) returns (x: string)
    requires WellFormedPart(p, delimiter) && OneLine(delimiter) && delimiter != ""
    ensures Block(p) == x + CRLF && !Contains(x, delimiter)
  {
    hide First, Headers, WellFormedPart, Contains, OneLine;
    x := Headers(p) + BLANK_LINE + p.data;
    BlockIsFree(p, delimiter);
  }

  /** In a part, no delimiter stands before the next one. */
  lemma NextDelimiter(u: string, p: Part, delimiter: string, y: string)
    requires WellFormedPart(p, delimiter) && OneLine(delimiter) && delimiter != ""
    ensures First(u + (Block(p) + (delimiter + y)), delimiter, |u|) == Some(|u| + |Block(p)|)
  {
    hide First, WellFormedPart, Contains, OneLine, Block;
    var x := BlockEndsLine(p, delimiter);
    NextAfterLine(u, Block(p), x, delimiter, y);
  }

  lemma BlockIsFree(p: Part, delimiter: string)
    requires WellFormedPart(p, delimiter) && OneLine(delimiter) && delimiter != ""
    ensures !Contains(Headers(p) + BLANK_LINE + p.data, delimiter)
  {
    hide First, Headers, Disposition;
    var h := Headers(p);
    FreeAcrossLine(h, "", delimiter);
    assert h + CRLF + "" == h + CRLF;
    FreeAcrossLine(h + CRLF, p.data, delimiter);
    assert h + CRLF + CRLF + p.data == h + BLANK_LINE + p.data;
  }

  lemma BlockThenNext(delimiter: string, ps: seq<Part>, epilogue: string)
    requires ps != []
    ensures Encapsulated(delimiter, ps, epilogue)
         == delimiter + (CRLF + Block(ps[0]) + Encapsulated(delimiter, ps[1..], epilogue))
    ensures delimiter <= Encapsulated(delimiter, ps[1..], epilogue)
  {
    hide Block;
  }

  lemma CloseRegrouped(u: string, delimiter: string, epilogue: string)
    ensures u + (delimiter + ("--" + epilogue)) == (u + delimiter + "--") + epilogue
  {
  }

  lemma NoFirst(s: string, pat: string)
    requires !Contains(s, pat)
    ensures First(s, pat, 0) == None
  {
  }

  lemma NothingAfterClose(u: string, delimiter: string, epilogue: string)
    requires !Contains(epilogue, delimiter)
    ensures First(u + (delimiter + ("--" + epilogue)), delimiter, |u| + |delimiter| + 2) == None
  {
    hide First, Contains;
    CloseRegrouped(u, delimiter, epilogue);
    FirstSkip(u + delimiter + "--", epilogue, delimiter, 0);
    NoFirst(epilogue, delimiter);
  }

  lemma ProcessCons(body: string, w: Window, ws: seq<Window>, m: map<string, string>, e: map<string, string>)
    requires PropertyOf(body, w, m) == Done(e)
    ensures Process(body, [w] + ws, m) == Process(body, ws, e)
  {
    hide PropertyOf;
    assert ([w] + ws)[1..] == ws;
  }

  lemma WindowsFromCons(body: string, delimiter: string, start: nat, f: nat)
    requires start >= 1 && First(body, delimiter, start) == Some(f)
    ensures WindowsFrom(body, delimiter, start)
         == [Window(start, f - 1)] + WindowsFrom(body, delimiter, f + |delimiter| + 2)
  {
    hide First;
  }

  /** The first window of the scan is the part's, and the rest are those behind the next delimiter. */
  lemma OnePart(u: string, p: Part, delimiter: string, y: string, body: string, m: map<string, string>)
    requires OneLine(delimiter) && delimiter != "" && WellFormedPart(p, delimiter) && |u| >= 1
    requires body == u + Block(p) + (delimiter + y) && |body| < MAX_SIZE
    ensures First(body, delimiter, |u|).Some?
    ensures Process(body, WindowsFrom(body, delimiter, |u|), m)
         == Process(body, WindowsFrom(body, delimiter, |u + Block(p)| + |delimiter| + 2), Assign(m, Assigned(p)))
  {
    hide First, Contains, Block, WellFormedPart, Readable, PropertyOf, OneLine, Assigned, Assign, Process, WindowsFrom;
    Assoc(u, Block(p), delimiter + y);
    NextDelimiter(u, p, delimiter, y);
    WindowsFromCons(body, delimiter, |u|, |u| + |Block(p)|);
    WellFormedIsReadable(p, delimiter);
    PartIsAssigned(u, p, delimiter + y, body, m);
    ProcessCons(body, WindowOf(u, p), WindowsFrom(body, delimiter, |u| + |Block(p)| + |delimiter| + 2), m, Assign(m, Assigned(p)));
  }

  /** From any delimiter line on, the scan assigns exactly what the remaining parts say. */
  lemma {:induction false} PartsRoundTrip(u: string, delimiter: string, ps: seq<Part>, epilogue: string,
                                          body: string, m: map<string, string>)
    requires OneLine(delimiter) && delimiter != "" && !Contains(epilogue, delimiter)
    requires forall i :: 0 <= i < |ps| ==> WellFormedPart(ps[i], delimiter)
    requires body == u + Encapsulated(delimiter, ps, epilogue) && |body| < MAX_SIZE
    ensures Process(body, WindowsFrom(body, delimiter, |u| + |delimiter| + 2), m) == Done(Assign(m, AssignedAll(ps)))
    ensures ps != [] ==> First(body, delimiter, |u| + |delimiter| + 2).Some?
    decreases |ps|
  {
    hide First, Contains, Block, WellFormedPart, Readable, PropertyOf, OneLine, Assigned, Assign;
    if ps == [] {
      NothingAfterClose(u, delimiter, epilogue);
      AssignNothing(m);
    } else {
      var p, rest := ps[0], ps[1..];
      BlockThenNext(delimiter, ps, epilogue);
      var next, u' := Encapsulated(delimiter, rest, epilogue), u + delimiter + CRLF;
      hide Encapsulated, Process, WindowsFrom;
      assert next == delimiter + next[|delimiter|..];
      assert body == u' + Block(p) + next;
      OnePart(u', p, delimiter, next[|delimiter|..], body, m);
      PartsRoundTrip(u' + Block(p), delimiter, rest, epilogue, body, Assign(m, Assigned(p)));
      AssignConcat(m, Assigned(p), AssignedAll(rest));
    }
  }

  lemma BoundaryIsRead(boundary: string)
    requires |boundary| < MAX_SIZE
    ensures GetBoundary(ContentTypeOf(boundary)) == "--" + boundary
  {
    hide First;
    var t := ContentTypeOf(boundary);
    assert '=' !in "multipart/form-data; boundary";
    FirstChar(t, '=', 0, 29);
    assert t[30..] == boundary;
  }

  /** Where the first delimiter of an encoded form stands. */
  lemma FirstDelimiter(preamble: Option<string>, delimiter: string, y: string)
    requires OneLine(delimiter) && delimiter != "" && (preamble.Some? ==> !Contains(preamble.value, delimiter))
    ensures var u := match preamble case None => "" case Some(s) => s + CRLF;
            First(u + (delimiter + y), delimiter, 0) == Some(|u|)
  {
    match preamble
    case None =>
      assert At(delimiter + y, delimiter, 0);
      assert "" + (delimiter + y) == delimiter + y;
      hide First;
      FirstIs(delimiter + y, delimiter, 0, 0);
    case Some(s) =>
      hide First;
      FirstAfterLine(s, delimiter, y);
  }

  lemma EncodedRoundTrip(u: string, delimiter: string, preamble: Option<string>, ps: seq<Part>, epilogue: string,
                         body: string, m: map<string, string>)
    requires OneLine(delimiter) && delimiter != "" && !Contains(epilogue, delimiter) && ps != []
    requires preamble.Some? ==> !Contains(preamble.value, delimiter)
    requires forall i :: 0 <= i < |ps| ==> WellFormedPart(ps[i], delimiter)
    requires u == match preamble case None => "" case Some(s) => s + CRLF
    requires body == u + Encapsulated(delimiter, ps, epilogue) && |body| < MAX_SIZE
    ensures |delimiter| < MAX_SIZE && Content(body, delimiter, m) == Done(Assign(m, AssignedAll(ps)))
  {
    hide First, Contains, OneLine, WellFormedPart, Block, Windows, WindowsFrom, Process, Assign, AssignedAll, Encapsulated;
    var y := CRLF + Block(ps[0]) + Encapsulated(delimiter, ps[1..], epilogue);
    BlockThenNext(delimiter, ps, epilogue);
    FirstDelimiter(preamble, delimiter, y);
    PartsRoundTrip(u, delimiter, ps, epilogue, body, m);
    WindowsWithTwo(body, delimiter, |u|);
  }

  lemma DelimiterIsOneLine(boundary: string)
    requires OneLine(boundary)
    ensures OneLine("--" + boundary)
  {
    OneLineConcat("--", boundary);
  }

  /** Round trip: the scanner reads back exactly the pairs of an encoded form, in order, whatever bytes
      the data holds; `Properties.AssignIsLastWins` says what map that is. */
  lemma FormRoundTrip(boundary: string, preamble: Option<string>, ps: seq<Part>, epilogue: string, m: map<string, string>)
    requires WellFormedForm(boundary, preamble, ps, epilogue) && ps != []
    requires |Encode(boundary, preamble, ps, epilogue)| < MAX_SIZE
    ensures |boundary| + 2 < MAX_SIZE
    ensures GetBoundary(ContentTypeOf(boundary)) == "--" + boundary
    ensures Content(Encode(boundary, preamble, ps, epilogue), "--" + boundary, m) == Done(Assign(m, AssignedAll(ps)))
  {
    hide First, Contains, OneLine, WellFormedPart, Content, GetBoundary, Assign, AssignedAll, Encapsulated, ContentTypeOf;
    var u := match preamble case None => "" case Some(s) => s + CRLF;
    DelimiterIsOneLine(boundary);
    EncodedRoundTrip(u, "--" + boundary, preamble, ps, epilogue, Encode(boundary, preamble, ps, epilogue), m);
    BoundaryIsRead(boundary);
  }

  lemma ContainsItself(s: string)
    ensures Contains(s, s)
  {
    assert At(s, s, 0);
    hide First;
    ContainsAt(s, s, 0);
  }

  lemma NameIsNoType(p: Part)
    requires Readable(p)
    ensures p.name != "Content-Type"
  {
    hide First, OneLine;
    assert Disposition(p) == PREFIX + "name=\"" + p.name + ("\"" + FileParameter(p));
    if p.name == "Content-Type" {
      ContainsItself("Content-Type");
      ContainsPart(PREFIX + "name=\"", p.name, "\"" + FileParameter(p), "Content-Type");
    }
  }

  /** The type is cut with the length of the Content-Disposition line, so the scanner reads it exactly when it is no
      longer than that line; every type of up to 39 bytes is. */
  lemma TypeIsExactIff(u: string, p: Part, y: string, body: string, m: map<string, string>, t: string)
    requires Readable(p) && p.contentType == Some(t) && body == u + Block(p) + y && |body| < MAX_SIZE
    ensures var r := PropertyOf(body, WindowOf(u, p), m);
            r.Done? && "Content-Type" in r.entries && (r.entries["Content-Type"] == t <==> |t| <= |Disposition(p)|)
    ensures |Disposition(p)| >= 39
  {
    hide First, Contains, OneLine, PropertyOf, Block, Assign, Assigned;
    NameIsNoType(p);
    PartIsAssigned(u, p, y, body, m);
    AssignedIs(p, m);
  }

  const LONG_TYPE := "application/vnd.oasis.opendocument." + "spreadsheet"

  lemma LongTypePart()
    ensures var p := Part("f", None, Some(LONG_TYPE), "");
            Readable(p) && |Disposition(p)| == 40 && Clip(LONG_TYPE, 40) == "application/vnd.oasis.opendocument." + "sprea"
  {
    var p := Part("f", None, Some(LONG_TYPE), "");
    DispositionIsOneLine(p);
    LongTypeIsLine();
    FixedTextHasNoCapitalT();
    assert "Content-Type"[8] == 'T';
    assert 'T' !in Disposition(p);
    hide Disposition, OneLine, Contains;
    FreeByByte(Disposition(p), "Content-Type", 'T');
  }

  lemma LongTypeIsLine()
    ensures OneLine(LONG_TYPE) && |LONG_TYPE| == 46 && LONG_TYPE[..40] == "application/vnd.oasis.opendocument." + "sprea"
  {
  }

  lemma FixedTextHasNoCapitalT()
    ensures 'T' !in PREFIX && |PREFIX| == 32
  {
  }

  /** A spreadsheet in a form's field `f` loses the end of its type. */
  lemma LongTypeIsCut(u: string, y: string, body: string, m: map<string, string>)
    requires body == u + Block(Part("f", None, Some(LONG_TYPE), "")) + y && |body| < MAX_SIZE
    ensures var r := PropertyOf(body, WindowOf(u, Part("f", None, Some(LONG_TYPE), "")), m);
            r.Done? && "Content-Type" in r.entries && r.entries["Content-Type"] == "application/vnd.oasis.opendocument." + "sprea"
  {
    LongTypePart();
    var p := Part("f", None, Some(LONG_TYPE), "");
    hide PropertyOf, Block, Assign, Assigned, Readable, Clip, LONG_TYPE, Disposition;
    PartIsAssigned(u, p, y, body, m);
    AssignedIs(p, m);
  }

  /** A part whose headers hold neither a name nor a type assigns nothing. */
  lemma UnnamedAssignsNothing(u: string, headers: string, y: string, body: string, finish: nat, m: map<string, string>)
    requires body == u + (headers + BLANK_LINE + y) && |body| < MAX_SIZE
    requires First(headers + BLANK_LINE + y, BLANK_LINE, 0) == Some(|headers|)
    requires !Contains(headers, "name") && !Contains(headers, "Content-Type")
    ensures PropertyOf(body, Window(|u|, finish), m) == Done(m)
  {
    hide First, PropertyOf;
    FirstSkip(u, headers + BLANK_LINE + y, BLANK_LINE, 0);
    assert body[|u|..|u| + |headers|] == headers;
    NoFirst(headers, "name");
    NoFirst(headers, "Content-Type");
    hide Contains;
    FindIs(body, BLANK_LINE, |u|, |u| + |headers|);
    FindIsNot(headers, "name", 0);
    FindIsNot(headers, "Content-Type", 0);
    hide Find;
    PropertyIs(body, Window(|u|, finish), m, |u| + |headers|, headers, None);
  }

  // ----- forms the theorem speaks of -----

  lemma OccurrenceHolds(s: string, pat: string, c: char, i: int)
    requires At(s, pat, i) && c in pat
    ensures c in s
  {
    AtChars(s, pat, i);
    var k :| 0 <= k < |pat| && pat[k] == c;
    assert s[i + k] == c;
  }

  lemma FreeByByte(s: string, pat: string, c: char)
    requires c in pat && c !in s
    ensures !Contains(s, pat)
  {
    hide First, At;
    forall j | 0 <= j <= |s| ensures !At(s, pat, j) {
      if At(s, pat, j) {
        OccurrenceHolds(s, pat, c, j);
      }
    }
    FirstIsNone(s, pat, 0);
  }

  /** A boundary with a byte that occurs nowhere else delimits any parts with readable headers. */
  lemma BoundaryWithOwnByte(boundary: string, preamble: Option<string>, ps: seq<Part>, epilogue: string, c: char)
    requires OneLine(boundary) && c in boundary && c !in epilogue && (preamble.Some? ==> c !in preamble.value)
    requires forall i :: 0 <= i < |ps| ==> c !in Headers(ps[i]) && c !in ps[i].data
    requires forall i :: 0 <= i < |ps| ==>
               && OneLine(ps[i].name) && '"' !in ps[i].name && !Contains(Disposition(ps[i]), "Content-Type")
               && (ps[i].filename.Some? ==> OneLine(ps[i].filename.value))
               && (ps[i].contentType.Some? ==> OneLine(ps[i].contentType.value))
    ensures WellFormedForm(boundary, preamble, ps, epilogue)
  {
    hide First, Contains, Headers, Disposition, OneLine;
    var delimiter := "--" + boundary;
    FreeByByte(epilogue, delimiter, c);
    if preamble.Some? {
      FreeByByte(preamble.value, delimiter, c);
    }
    forall i | 0 <= i < |ps| ensures WellFormedPart(ps[i], delimiter) {
      FreeByByte(Headers(ps[i]), delimiter, c);
      FreeByByte(ps[i].data, delimiter, c);
    }
  }
}
