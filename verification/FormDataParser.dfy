/** The multipart/form-data scanner: `getContent` walks from delimiter to delimiter with wrapping
    `size_t` positions, and `addProperty` splits the window between two of them. */
module FormDataParser {
  import opened Text
  import opened Properties

  datatype Outcome = Done(entries: map<string, string>) | OutOfRange(entries: map<string, string>)

  /** A window handed to `addProperty`: from `start` up to and including `finish`. */
  datatype Window = Window(start: nat, finish: nat)

  function GetBoundary(contentType: string): string {
    "--" + Substr(contentType, Plus(Find(contentType, "=", 0), 1), NPOS).GetOr("")
  }

  /** What one window assigns, or the `substr` that throws, with what was assigned before it. */
  function PropertyOf(body: string, w: Window, m: map<string, string>): (r: Outcome)
  {
    var blank := Find(body, BLANK_LINE, w.start);
    match Substr(body, w.start, Minus(blank, w.start))
    case None => OutOfRange(m)
    case Some(description) =>
      var typeAt := Find(description, "Content-Type", 0);
      var typed :=
        if typeAt == NPOS then Some(m)
        else match Substr(description, typeAt + 14, Find(description, "\r", 0))
             case None => None
             case Some(v) => Some(m["Content-Type" := v]);
      if typed.None? then OutOfRange(m)
      else NamedProperty(body, w, description, typed.value)
  }

  function NamedProperty(body: string, w: Window, description: string, m: map<string, string>): (r: Outcome)
  {
    var nameAt := Find(description, "name", 0);
    if nameAt == NPOS then Done(m)
    else
      var nameStart := nameAt + 6;
      match Substr(description, nameStart, Minus(Find(description, "\"", nameStart), nameStart))
      case None => OutOfRange(m)
      case Some(name) =>
        var valueStart := Plus(Find(body, BLANK_LINE, Plus(nameStart, w.start)), 4);
        match Substr(body, valueStart, Minus(Plus(Minus(w.finish, valueStart), 1), 2))
        case None => OutOfRange(m)
        case Some(v) => Done(m[name := v])
  }

  function Process(body: string, ws: seq<Window>, m: map<string, string>): (r: Outcome)
  {
    if ws == [] then Done(m)
    else match PropertyOf(body, ws[0], m)
         case OutOfRange(e) => OutOfRange(e)
         case Done(e) => Process(body, ws[1..], e)
  }

  /** The windows ending at each delimiter found from `start` on. */
  function WindowsFrom(body: string, boundary: string, start: nat): (ws: seq<Window>)
    requires start >= 1
    decreases if start > |body| then 0 else |body| + 1 - start
  {
    match First(body, boundary, start)
    case None => []
    case Some(f) => [Window(start, f - 1)] + WindowsFrom(body, boundary, f + |boundary| + 2)
  }

  /** All the windows of a scan.  With fewer than two delimiters the first window ends at
      `npos - 1`, and the scan resumes at the wrapped position `|boundary| + 1`. */
  function Windows(body: string, boundary: string): (ws: seq<Window>)
    requires |body| < MAX_SIZE && |boundary| < MAX_SIZE
  {
    var start := Plus(Plus(Find(body, boundary, 0), |boundary|), 2);
    if First(body, boundary, start).Some? then WindowsFrom(body, boundary, start)
    else [Window(start, NPOS - 1)] + WindowsFrom(body, boundary, |boundary| + 1)
  }

  function Content(body: string, boundary: string, m: map<string, string>): Outcome
    requires |body| < MAX_SIZE && |boundary| < MAX_SIZE
  {
    Process(body, Windows(body, boundary), m)
  }

  // ----- the methods -----

  method AddProperty(body: string, start_p: nat, finish_p: nat, output: Collection) returns (threw: bool)
    modifies output
    ensures var r := PropertyOf(body, Window(start_p, finish_p), old(output.entries));
            threw == r.OutOfRange? && output.entries == r.entries
  {
    hide First, Find, Minus, Plus, Substr;
    var description := Substr(body, start_p, Minus(Find(body, BLANK_LINE, start_p), start_p));
    if description.None? {
      return true;
    }
    var description_part := description.value;
    var type_start_p := Find(description_part, "Content-Type", 0);
    if type_start_p != NPOS {
      var contentType := Substr(description_part, type_start_p + 14, Find(description_part, "\r", 0));
      if contentType.None? {
        return true;
      }
      output.entries := output.entries["Content-Type" := contentType.value];
    }
    type_start_p := Find(description_part, "name", 0);
    if type_start_p == NPOS {
      return false;
    }
    type_start_p := type_start_p + 6;
    var name := Substr(description_part, type_start_p, Minus(Find(description_part, "\"", type_start_p), type_start_p));
    if name.None? {
      return true;
    }
    var value_start_p := Plus(Find(body, BLANK_LINE, Plus(type_start_p, start_p)), 4);
    var value := Substr(body, value_start_p, Minus(Plus(Minus(finish_p, value_start_p), 1), 2));
    if value.None? {
      return true;
    }
    output.entries := output.entries[name.value := value.value];
    return false;
  }

  /** The do/while loop.  It ends, its decrement never underflows from 0, and it leaves early
      only when `AddProperty` takes a substring out of range. */
  method GetContent(contentType: string, body: string, output: Collection) returns (threw: bool)
    requires |body| < MAX_SIZE && |contentType| + 2 < MAX_SIZE
    modifies output
    ensures |GetBoundary(contentType)| < MAX_SIZE
    ensures var r := Content(body, GetBoundary(contentType), old(output.entries));
            threw == r.OutOfRange? && output.entries == r.entries
  {
    hide PropertyOf, First, Process, WindowsFrom, Content, Pending;
    var boundary := GetBoundary(contentType);
    ghost var result := Content(body, boundary, output.entries);
    var start_p := Plus(Plus(Find(body, boundary, 0), |boundary|), 2);
    var finish_p := Find(body, boundary, start_p);
    ScanIsPending(body, boundary, output.entries);
    while true
      invariant 1 <= start_p <= finish_p && (finish_p == NPOS || finish_p + |boundary| <= |body|)
      invariant result == Process(body, Pending(body, boundary, start_p, finish_p), output.entries)
      decreases if finish_p == NPOS then |body| + 1 else |body| - finish_p
    {
      PendingStep(body, boundary, start_p, finish_p, output.entries);
      finish_p := Minus(finish_p, 1);
      threw := AddProperty(body, start_p, finish_p, output);
      if threw {
        return;
      }
      start_p := Plus(Plus(Plus(finish_p, 1), |boundary|), 2);
      finish_p := Find(body, boundary, start_p);
      if finish_p == NPOS {
        return;
      }
    }
  }

  /** What remains to be done at the head of the loop. */
  ghost function Pending(body: string, boundary: string, start: nat, finish: nat): (ws: seq<Window>)
    requires 1 <= finish <= NPOS && 2 <= |boundary| < MAX_SIZE && (finish == NPOS || finish < MAX_SIZE)
  {
    [Window(start, finish - 1)] + WindowsFrom(body, boundary, Plus(Plus(finish, |boundary|), 2))
  }

  /** All of the scan is pending when the loop begins. */
  lemma ScanIsPending(body: string, boundary: string, m: map<string, string>)
    requires |body| < MAX_SIZE && 2 <= |boundary| < MAX_SIZE
    ensures var start := Plus(Plus(Find(body, boundary, 0), |boundary|), 2);
            var finish := Find(body, boundary, start);
            && 1 <= start <= finish && (finish == NPOS || finish + |boundary| <= |body|)
            && Content(body, boundary, m) == Process(body, Pending(body, boundary, start, finish), m)
  {
    hide First, Process;
    var start := Plus(Plus(Find(body, boundary, 0), |boundary|), 2);
    assert Windows(body, boundary) == Pending(body, boundary, start, Find(body, boundary, start));
  }

  /** What is left after a window, if a delimiter is found from `next` on. */
  ghost function ProcessRest(body: string, boundary: string, next: nat, m: map<string, string>): Outcome
    requires |body| < MAX_SIZE && 2 <= |boundary| < MAX_SIZE && next >= 1
  {
    match First(body, boundary, next)
    case None => Done(m)
    case Some(f) => Process(body, Pending(body, boundary, next, f), m)
  }

  /** One turn of the loop does the first pending window, and leaves the rest pending. */
  lemma PendingStep(body: string, boundary: string, start: nat, finish: nat, m: map<string, string>)
    requires 1 <= finish <= NPOS && 2 <= |boundary| < MAX_SIZE && (finish == NPOS || finish < MAX_SIZE)
    requires |body| < MAX_SIZE
    ensures Process(body, Pending(body, boundary, start, finish), m)
         == match PropertyOf(body, Window(start, finish - 1), m)
            case OutOfRange(e) => OutOfRange(e)
            case Done(e) => ProcessRest(body, boundary, Plus(Plus(finish, |boundary|), 2), e)
  {
    hide PropertyOf, First;
    var ws := Pending(body, boundary, start, finish);
    assert ws[1..] == WindowsFrom(body, boundary, Plus(Plus(finish, |boundary|), 2));
  }

  // ----- termination and tiling -----

  lemma {:induction false} WindowsFromBound(body: string, boundary: string, start: nat)
    requires start >= 1
    ensures var n := |WindowsFrom(body, boundary, start)|;
            n > 0 ==> n * (|boundary| + 2) <= |body| - start + 2
    decreases if start > |body| then 0 else |body| + 1 - start
  {
    match First(body, boundary, start)
    case None =>
    case Some(f) =>
      var step := |boundary| + 2;
      var rest := WindowsFrom(body, boundary, f + step);
      WindowsFromBound(body, boundary, f + step);
      assert (|rest| + 1) * step == |rest| * step + step;
  }

  /** The loop runs at most once more than the number of delimiters the body can hold,
      whether or not the positions wrapped. */
  lemma ScanIsLinear(body: string, boundary: string)
    requires |body| < MAX_SIZE && 2 <= |boundary| < MAX_SIZE
    ensures |Windows(body, boundary)| >= 1
    ensures (|Windows(body, boundary)| - 1) * (|boundary| + 2) <= |body|
  {
    hide First, WindowsFrom;
    var start := Plus(Plus(Find(body, boundary, 0), |boundary|), 2);
    if First(body, boundary, start).Some? {
      WindowsFromBound(body, boundary, start);
      OneStepLess(|WindowsFrom(body, boundary, start)|, |boundary| + 2);
      SomeWindow(body, boundary, start);
    } else {
      WindowsFromBound(body, boundary, |boundary| + 1);
    }
  }

  lemma OneStepLess(n: nat, step: nat)
    ensures (n - 1) * step == n * step - step
  {
  }

  lemma SomeWindow(body: string, boundary: string, start: nat)
    requires start >= 1 && First(body, boundary, start).Some?
    ensures |WindowsFrom(body, boundary, start)| >= 1
  {
    hide First;
  }

  /** The window lies in the body, after a delimiter and two bytes, and ends just before the very next delimiter. */
  ghost predicate Delimited(body: string, boundary: string, w: Window) {
    && |boundary| + 2 <= w.start <= w.finish + 1
    && At(body, boundary, w.start - |boundary| - 2)
    && At(body, boundary, w.finish + 1)
    && NoneBefore(body, boundary, w.start, w.finish + 1)
  }

  /** The windows begin at `start`, each is delimited, each begins two bytes after the delimiter that
      ended the one before, and no delimiter follows the last. */
  ghost predicate Tiled(body: string, boundary: string, ws: seq<Window>, start: nat) {
    if ws == [] then First(body, boundary, start) == None
    else
      && ws[0].start == start && Delimited(body, boundary, ws[0])
      && Tiled(body, boundary, ws[1..], ws[0].finish + 1 + |boundary| + 2)
  }

  /** Delimiter, the two bytes after it, and window. */
  ghost function Tile(body: string, boundary: string, w: Window): string
    requires Delimited(body, boundary, w)
  {
    boundary + body[w.start - 2..w.start] + body[w.start..w.finish + 1]
  }

  ghost function Tiles(body: string, boundary: string, ws: seq<Window>, start: nat): string
    requires Tiled(body, boundary, ws, start)
  {
    if ws == [] then ""
    else
      var w := ws[0];
      Tile(body, boundary, w)
      + Tiles(body, boundary, ws[1..], w.finish + 1 + |boundary| + 2)
  }

  /** Where the delimiter after the last window stands. */
  ghost function End(ws: seq<Window>, d: nat): nat {
    if ws == [] then d else ws[|ws| - 1].finish + 1
  }

  lemma TileStep(body: string, boundary: string, w: Window, e: nat)
    requires Delimited(body, boundary, w) && w.finish + 1 <= e <= |body|
    ensures body[w.start - |boundary| - 2..e] == Tile(body, boundary, w) + body[w.finish + 1..e]
  {
  }

  lemma TiledCons(body: string, boundary: string, w: Window, rest: seq<Window>)
    requires Delimited(body, boundary, w) && Tiled(body, boundary, rest, w.finish + 1 + |boundary| + 2)
    ensures Tiled(body, boundary, [w] + rest, w.start)
  {
    hide Delimited, First;
    assert ([w] + rest)[1..] == rest;
  }

  lemma {:induction false} WindowsFromTiled(body: string, boundary: string, start: nat)
    requires start >= |boundary| + 2 && At(body, boundary, start - |boundary| - 2)
    ensures Tiled(body, boundary, WindowsFrom(body, boundary, start), start)
    decreases if start > |body| then 0 else |body| + 1 - start
  {
    FirstMeaning(body, boundary, start);
    hide First, At, Tiled;
    if First(body, boundary, start).Some? {
      var f := First(body, boundary, start).value;
      WindowsFromTiled(body, boundary, f + |boundary| + 2);
      TiledCons(body, boundary, Window(start, f - 1), WindowsFrom(body, boundary, f + |boundary| + 2));
    } else {
      NothingTiled(body, boundary, start);
    }
  }

  lemma NothingTiled(body: string, boundary: string, start: nat)
    requires First(body, boundary, start) == None
    ensures Tiled(body, boundary, [], start)
  {
  }

  /** Tiled windows lose nothing: the tiles spell the body from the first delimiter to the last. */
  lemma DelimitedInBounds(body: string, boundary: string, w: Window)
    requires Delimited(body, boundary, w)
    ensures |boundary| + 2 <= w.start <= w.finish + 1 <= |body|
  {
  }

  lemma EndOfRest(ws: seq<Window>, d: nat)
    requires ws != []
    ensures End(ws, d) == End(ws[1..], ws[0].finish + 1)
  {
  }

  lemma {:induction false} TiledSpells(body: string, boundary: string, ws: seq<Window>, start: nat)
    requires Tiled(body, boundary, ws, start) && 0 <= start - |boundary| - 2 <= |body|
    ensures var d := start - |boundary| - 2;
            d <= End(ws, d) <= |body| && body[d..End(ws, d)] == Tiles(body, boundary, ws, start)
  {
    hide First, At, Delimited, Tile;
    if ws != [] {
      var w, rest := ws[0], ws[1..];
      DelimitedInBounds(body, boundary, w);
      TiledSpells(body, boundary, rest, w.finish + 1 + |boundary| + 2);
      TileStep(body, boundary, w, End(rest, w.finish + 1));
      EndOfRest(ws, start - |boundary| - 2);
    }
  }

  /** With a delimiter at `d`, and a second one after it, the windows tile the body from the first delimiter
      to the last: nothing is lost, nothing is taken twice, and no window holds a delimiter. */
  lemma WindowsTile(body: string, boundary: string, d: nat)
    requires |body| < MAX_SIZE && |boundary| < MAX_SIZE
    requires First(body, boundary, 0) == Some(d) && First(body, boundary, d + |boundary| + 2).Some?
    ensures var ws := Windows(body, boundary);
            && ws != [] && Tiled(body, boundary, ws, d + |boundary| + 2)
            && d <= End(ws, d) <= |body|
            && body[d..End(ws, d)] == Tiles(body, boundary, ws, d + |boundary| + 2)
  {
    hide First, At, Tiled, Tiles, Windows, WindowsFrom, NoneBefore, End;
    FirstMeaning(body, boundary, 0);
    WindowsWithTwo(body, boundary, d);
    var start := d + |boundary| + 2;
    WindowsFromTiled(body, boundary, start);
    TiledSpells(body, boundary, Windows(body, boundary), start);
  }

  lemma ScanStart(body: string, boundary: string, d: nat)
    requires |body| < MAX_SIZE && |boundary| < MAX_SIZE && First(body, boundary, 0) == Some(d)
    ensures Plus(Plus(Find(body, boundary, 0), |boundary|), 2) == d + |boundary| + 2
  {
    hide First;
  }

  /** Without a delimiter, a single window begins where the positions wrap to and runs to the end; with one, what is behind it
      comes first, and the scan begins again at the wrapped position. */
  lemma FewDelimiters(body: string, boundary: string)
    requires |body| < MAX_SIZE && |boundary| < MAX_SIZE && boundary != ""
    ensures First(body, boundary, 0) == None ==> Windows(body, boundary) == [Window(|boundary| + 1, NPOS - 1)]
    ensures First(body, boundary, 0).Some? ==>
              var start := First(body, boundary, 0).value + |boundary| + 2;
              First(body, boundary, start) == None ==>
                Windows(body, boundary) == [Window(start, NPOS - 1)] + WindowsFrom(body, boundary, |boundary| + 1)
  {
    hide First, WindowsFrom;
    if First(body, boundary, 0) == None {
      NoneFromThere(body, boundary, |boundary| + 1);
      NoWindows(body, boundary, |boundary| + 1);
      assert Find(body, boundary, 0) == NPOS;
      WrapsTo(|boundary|);
    } else {
      ScanStart(body, boundary, First(body, boundary, 0).value);
    }
    hide Find, Plus;
  }

  lemma WrapsTo(n: nat)
    requires n < MAX_SIZE
    ensures Plus(Plus(NPOS, n), 2) == n + 1
  {
  }

  lemma NoneFromThere(s: string, pat: string, from: nat)
    requires First(s, pat, 0) == None
    ensures First(s, pat, from) == None
  {
    FirstMeaning(s, pat, 0);
    FirstMeaning(s, pat, from);
  }

  lemma NoWindows(body: string, boundary: string, start: nat)
    requires start >= 1 && First(body, boundary, start) == None
    ensures WindowsFrom(body, boundary, start) == []
  {
  }

  /** A body that ends with its only delimiter throws before anything is assigned. */
  lemma TruncatedThrows(body: string, boundary: string, d: nat, m: map<string, string>)
    requires |body| < MAX_SIZE && |boundary| < MAX_SIZE
    requires First(body, boundary, 0) == Some(d) && d + |boundary| + 2 > |body|
    ensures Content(body, boundary, m) == OutOfRange(m)
  {
    hide First;
    ScanStart(body, boundary, d);
    var start := d + |boundary| + 2;
    assert First(body, boundary, start) == None by { Beyond(body, boundary, start); }
    assert PropertyOf(body, Window(start, NPOS - 1), m) == OutOfRange(m);
    hide PropertyOf;
  }

  lemma Beyond(s: string, pat: string, start: nat)
    requires start > |s|
    ensures First(s, pat, start) == None
  {
  }

  lemma WindowsWithTwo(body: string, boundary: string, d: nat)
    requires |body| < MAX_SIZE && |boundary| < MAX_SIZE
    requires First(body, boundary, 0) == Some(d) && First(body, boundary, d + |boundary| + 2).Some?
    ensures Windows(body, boundary) == WindowsFrom(body, boundary, d + |boundary| + 2) != []
  {
    hide First, Find, Plus, WindowsFrom;
    ScanStart(body, boundary, d);
    SomeWindow(body, boundary, d + |boundary| + 2);
  }
}
