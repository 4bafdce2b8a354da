/** The query-string scanner.  The content server's `FormRequest::URLParser` and the auth
    server's `Request::URLParser` are the same loop; the latter starts at an offset `lo`. */
module FormRequest {
  import opened Text
  import opened Properties

  /** Where the scan ends: the first space at or after `p`, or the end of the target. */
  function Stop(t: string, p: nat): (e: nat)
    ensures p <= e && (p <= |t| ==> e <= |t|) && (p > |t| ==> e == p)
    ensures forall i :: p <= i < e && i < |t| ==> t[i] != ' '
    ensures e < |t| ==> t[e] == ' '
    decreases |t| - p
  {
    if p < |t| && t[p] != ' ' then Stop(t, p + 1) else p
  }

  /** The scanner's `properStart` on reaching `p`: just after the last `?` or `&`, or 0. */
  function KeyStart(t: string, lo: nat, p: nat): (k: nat)
    requires p <= |t| || p <= lo
    ensures k <= p
  {
    if p <= lo then 0
    else if t[p - 1] == '?' || t[p - 1] == '&' then p
    else KeyStart(t, lo, p - 1)
  }

  /** The scanner's `separator` on reaching `p`: the last `=`, or 0. */
  function Separator(t: string, lo: nat, p: nat): (k: nat)
    requires p <= |t| || p <= lo
    ensures k < p || k == 0
  {
    if p <= lo then 0
    else if t[p - 1] == '=' then p - 1
    else Separator(t, lo, p - 1)
  }

  /** The two `substr` calls of an assignment, with their `size_t` subtractions; both positions are in range. */
  function CutPair(t: string, properStart: nat, separator: nat, p: nat): (kv: (string, string))
    requires properStart <= |t| && separator < |t|
  {
    (Substr(t, properStart, Minus(separator, properStart)).value, Substr(t, separator + 1, Minus(p, separator + 1)).value)
  }

  /** The key and value the scanner assigns on stopping at `p`. */
  function Entry(t: string, lo: nat, p: nat): (kv: (string, string))
    requires t != "" && (p <= |t| || p <= lo)
  {
    KeyStartInRange(t, lo, p);
    CutPair(t, KeyStart(t, lo, p), Separator(t, lo, p), p)
  }

  lemma KeyStartInRange(t: string, lo: nat, p: nat)
    requires t != "" && (p <= |t| || p <= lo)
    ensures KeyStart(t, lo, p) <= |t| && Separator(t, lo, p) < |t|
  {
  }

  lemma {:induction false} KeyStartZero(t: string, lo: nat, p: nat)
    requires p <= |t| || p <= lo
    ensures KeyStart(t, lo, p) == 0 <==> forall i :: lo <= i < p ==> t[i] != '?' && t[i] != '&'
  {
    if p > lo {
      KeyStartZero(t, lo, p - 1);
    }
  }

  lemma {:induction false} SeparatorZero(t: string, lo: nat, p: nat)
    requires p <= |t| || p <= lo
    ensures Separator(t, lo, p) == 0 <==> forall i :: lo <= i < p && 1 <= i ==> t[i] != '='
  {
    if p > lo {
      SeparatorZero(t, lo, p - 1);
    }
  }

  /** The entries cut at the `&`s in [lo, p). */
  function Cuts(t: string, lo: nat, p: nat): (r: Pairs)
    requires t != "" && (p <= |t| || p <= lo)
  {
    if p <= lo then []
    else if t[p - 1] == '&' then Cuts(t, lo, p - 1) + [Entry(t, lo, p - 1)]
    else Cuts(t, lo, p - 1)
  }

  function Entries(t: string, lo: nat): (r: Pairs)
    requires t != ""
  {
    Cuts(t, lo, Stop(t, lo)) + [Entry(t, lo, Stop(t, lo))]
  }

  /** There is an `&` before the first space, and the first of them has no `?` before it,
      or no `=` before it other than at position 0. */
  predicate BadHttp(t: string, lo: nat) {
    exists a :: lo <= a < Stop(t, lo) && a < |t| && t[a] == '&' && FirstAmpersandBad(t, lo, a)
  }

  predicate FirstAmpersandBad(t: string, lo: nat, a: nat)
    requires a < |t|
  {
    && (forall i :: lo <= i < a ==> t[i] != '&')
    && ((forall i :: lo <= i < a ==> t[i] != '?') || (forall i :: lo <= i < a && 1 <= i ==> t[i] != '='))
  }

  /** The scanner itself.  Every `substr` position is in range (the `.value`s below are checked);
      it throws exactly on `BadHttp`, always before its first write. */
  method URLParser(target: string, output: Collection, lo: nat) returns (threw: bool)
    requires |target| < MAX_SIZE && lo < MAX_SIZE
    modifies output
    ensures threw <==> BadHttp(target, lo)
    ensures output.entries ==
            if target == "" || threw then old(output.entries)
            else Assign(old(output.entries), Entries(target, lo))
  {
    hide Minus, Substr, Assign, FirstAmpersandBad;
    if target == "" {
      return false;
    }
    AssignNothing(old(output.entries));
    var p, properStart, separator := lo, 0, 0;
    while p < |target| && target[p] != ' '
      invariant lo <= p && (p <= |target| || p == lo) && Stop(target, p) == Stop(target, lo)
      invariant properStart == KeyStart(target, lo, p) && separator == Separator(target, lo, p)
      invariant forall a :: lo <= a < p && target[a] == '&' ==> separator != 0 && !FirstAmpersandBad(target, lo, a)
      invariant output.entries == Assign(old(output.entries), Cuts(target, lo, p))
      decreases |target| - p
    {
      var currChar := target[p];
      KeyStartInRange(target, lo, p);
      if currChar == '?' {
        properStart := p + 1;
      } else if currChar == '=' {
        separator := p;
      } else if currChar == '&' {
        AmpersandVerdict(target, lo, p);
        if properStart == 0 || separator == 0 {
          NoCuts(target, lo, p);
          return true;
        }
        var (key, value) := CutPair(target, properStart, separator, p);
        output.entries := output.entries[key := value];
        AssignConcat(old(output.entries), Cuts(target, lo, p), [(key, value)]);
        AssignOne(Assign(old(output.entries), Cuts(target, lo, p)), key, value);
        properStart := p + 1;
      }
      p := p + 1;
    }
    KeyStartInRange(target, lo, p);
    var (key, value) := CutPair(target, properStart, separator, p);
    AssignConcat(old(output.entries), Cuts(target, lo, p), [(key, value)]);
    AssignOne(output.entries, key, value);
    output.entries := output.entries[key := value];
    return false;
  }

  /** At an `&`, the scanner's two positions tell whether it is a first one that throws; and they are not 0 behind one
      that does not. */
  lemma AmpersandVerdict(t: string, lo: nat, p: nat)
    requires p < |t| && t[p] == '&' && lo <= p
    ensures KeyStart(t, lo, p) != 0 && Separator(t, lo, p) != 0 ==> !FirstAmpersandBad(t, lo, p)
    ensures KeyStart(t, lo, p) == 0 || Separator(t, lo, p) == 0 ==>
              FirstAmpersandBad(t, lo, p) || exists i :: lo <= i < p && t[i] == '&'
    ensures KeyStart(t, lo, p) == 0 ==> forall i :: lo <= i < p ==> t[i] != '&'
  {
    KeyStartZero(t, lo, p);
    SeparatorZero(t, lo, p);
    hide KeyStart, Separator;
  }

  lemma NoCuts(t: string, lo: nat, p: nat)
    requires t != "" && (p <= |t| || p <= lo)
    requires forall i :: lo <= i < p ==> t[i] != '&'
    ensures Cuts(t, lo, p) == []
  {
  }

  /** What the subtractions mean: a key whose `=` stands before its start wraps around and
      runs to the very end of the target. */
  lemma EntryMeaning(t: string, lo: nat, p: nat)
    requires t != "" && |t| < MAX_SIZE && 1 <= p <= |t|
    ensures var ks, sep := KeyStart(t, lo, p), Separator(t, lo, p);
            && ks <= |t| && sep < |t|
            && Entry(t, lo, p).0 == (if ks <= sep then t[ks..sep] else t[ks..])
            && Entry(t, lo, p).1 == t[sep + 1..p]
  {
    hide KeyStart, Separator;
    KeyStartInRange(t, lo, p);
    var ks, sep := KeyStart(t, lo, p), Separator(t, lo, p);
    CutKey(t, ks, sep);
    CutValue(t, sep, p);
    hide Substr, Minus;
  }

  lemma CutKey(t: string, ks: nat, sep: nat)
    requires |t| < MAX_SIZE && ks <= |t| && sep < |t|
    ensures Substr(t, ks, Minus(sep, ks)) == Some(if ks <= sep then t[ks..sep] else t[ks..])
  {
    assert ks > sep ==> Minus(sep, ks) > |t| - ks;
  }

  lemma CutValue(t: string, sep: nat, p: nat)
    requires sep < p <= |t| < MAX_SIZE
    ensures Substr(t, sep + 1, Minus(p, sep + 1)) == Some(t[sep + 1..p])
  {
    assert t[sep + 1..] == t[sep + 1..|t|];
  }

  // ----- the reference: split on `&`, then on the last `?` and the last `=` -----

  /** `Split` one character at a time: the pieces of `s[..n]`. */
  function SplitTo(s: string, c: char, n: nat): (r: seq<string>)
    requires n <= |s|
    ensures |r| >= 1
  {
    if n == 0 then [""]
    else if s[n - 1] == c then SplitTo(s, c, n - 1) + [""]
    else Grow(SplitTo(s, c, n - 1), s[n - 1])
  }

  function Grow(r: seq<string>, ch: char): seq<string>
    requires |r| >= 1
  {
    r[|r| - 1 := r[|r| - 1] + [ch]]
  }

  function Split(s: string, c: char): (r: seq<string>)
    ensures |r| >= 1
  {
    SplitTo(s, c, |s|)
  }

  function Join(segments: seq<string>, c: char): string
    requires |segments| >= 1
  {
    if |segments| == 1 then segments[0]
    else Join(segments[..|segments| - 1], c) + [c] + segments[|segments| - 1]
  }

  /** The last index of `c` in `s[..n]`, or -1. */
  function LastIndexTo(s: string, c: char, n: nat): (i: int)
    requires n <= |s|
    ensures -1 <= i < n
    ensures i >= 0 ==> s[i] == c
    ensures forall j :: i < j < n ==> s[j] != c
  {
    if n == 0 then -1
    else if s[n - 1] == c then n - 1
    else LastIndexTo(s, c, n - 1)
  }

  function LastIndex(s: string, c: char): (i: int)
  {
    LastIndexTo(s, c, |s|)
  }

  /** A segment with an `=` after its last `?`. */
  predicate Assigns(segment: string) {
    LastIndex(segment, '?') < LastIndex(segment, '=')
  }

  function SegmentEntry(segment: string): (string, string)
    requires Assigns(segment)
  {
    var e := LastIndex(segment, '=');
    (segment[LastIndex(segment, '?') + 1..e], segment[e + 1..])
  }

  function SegmentEntries(segments: seq<string>): (r: Pairs)
    requires AllAssign(segments)
    ensures |r| == |segments| && forall i :: 0 <= i < |r| ==> r[i] == SegmentEntry(segments[i])
  {
    seq(|segments|, i requires 0 <= i < |segments| => SegmentEntry(segments[i]))
  }

  /** The part of the target before the first space. */
  function UpToSpace(t: string): string {
    t[..Stop(t, 0)]
  }

  ghost predicate WellFormed(t: string) {
    var segments := Split(UpToSpace(t), '&');
    '?' in segments[0] && AllAssign(segments)
  }

  lemma {:induction false} JoinGrow(r: seq<string>, c: char, ch: char)
    requires |r| >= 1
    ensures Join(Grow(r, ch), c) == Join(r, c) + [ch]
    ensures Join(r + [""], c) == Join(r, c) + [c]
  {
    var n := |r| - 1;
    assert Grow(r, ch)[..n] == r[..n];
    assert (r + [""])[..|r|] == r;
    assert Join(r + [""], c) == Join(r, c) + [c] + "";
  }

  lemma JoinOne(s: string, c: char)
    ensures Join([s], c) == s
  {
  }

  /** `Split` is a split: it loses nothing, and no segment holds the separator. */
  lemma {:induction false} SplitIsInverseOfJoin(s: string, c: char, n: nat)
    requires n <= |s|
    ensures Join(SplitTo(s, c, n), c) == s[..n]
  {
    hide Join, Grow;
    if n == 0 {
      JoinOne("", c);
    } else {
      SplitIsInverseOfJoin(s, c, n - 1);
      JoinGrow(SplitTo(s, c, n - 1), c, s[n - 1]);
      assert s[..n] == s[..n - 1] + [s[n - 1]];
    }
  }

  lemma {:induction false} SegmentsHoldNoSeparator(s: string, c: char, n: nat)
    requires n <= |s|
    ensures forall i :: 0 <= i < |SplitTo(s, c, n)| ==> c !in SplitTo(s, c, n)[i]
  {
    if n > 0 {
      SegmentsHoldNoSeparator(s, c, n - 1);
    }
  }

  lemma LastIndexGrow(s: string, ch: char, c: char)
    ensures LastIndex(s + [ch], c) == if ch == c then |s| else LastIndex(s, c)
  {
    var t := s + [ch];
    assert forall j :: 0 <= j < |s| ==> t[j] == s[j];
    var i, k := LastIndex(t, c), LastIndex(s, c);
    assert t[|s|] == ch;
    if ch != c && i >= 0 {
      assert s[i] == c;
    }
  }

  function Last(segments: seq<string>): string
    requires |segments| >= 1
  {
    segments[|segments| - 1]
  }

  function Front(segments: seq<string>): seq<string>
    requires |segments| >= 1
  {
    segments[..|segments| - 1]
  }

  /** `s` is the segment ending at `p`, and it alone decides what the scanner holds there. */
  ghost predicate Holds(t: string, p: nat, s: string)
    requires p <= |t|
  {
    && |s| <= p
    && t[p - |s|..p] == s
    && KeyStart(t, 0, p) == p - |s| + LastIndex(s, '?') + 1
    && (LastIndex(s, '=') >= 0 ==> Separator(t, 0, p) == p - |s| + LastIndex(s, '='))
  }

  lemma HoldsGrow(t: string, p: nat, s: string)
    requires p < |t| && t[p] != '&' && Holds(t, p, s)
    ensures Holds(t, p + 1, s + [t[p]])
  {
    hide LastIndex;
    LastIndexGrow(s, t[p], '?');
    LastIndexGrow(s, t[p], '=');
    SliceGrow(t, p - |s|, p);
  }

  lemma SliceGrow(t: string, a: nat, p: nat)
    requires a <= p < |t|
    ensures t[a..p + 1] == t[a..p] + [t[p]]
  {
  }

  lemma HoldsAfterCut(t: string, p: nat)
    requires p <= |t| && (p > 0 ==> t[p - 1] == '&')
    ensures Holds(t, p, "")
  {
    assert t[p..p] == "";
  }

  /** One step of the split: a cut begins a new segment, and any other byte grows the last. */
  lemma SplitStep(t: string, p: nat)
    requires 0 < p <= |t|
    ensures var r, r' := SplitTo(t, '&', p - 1), SplitTo(t, '&', p);
            if t[p - 1] == '&' then Last(r') == "" && Front(r') == r
            else Last(r') == Last(r) + [t[p - 1]] && Front(r') == Front(r)
  {
    var r := SplitTo(t, '&', p - 1);
    assert (r + [""])[..|r|] == r;
    assert Front(Grow(r, t[p - 1])) == Front(r);
  }

  lemma {:induction false} LastSegment(t: string, p: nat)
    requires p <= |t|
    ensures Holds(t, p, Last(SplitTo(t, '&', p)))
  {
    if p == 0 {
      HoldsAfterCut(t, 0);
    } else {
      LastSegment(t, p - 1);
      SplitStep(t, p);
      hide Holds, SplitTo, Last, Front;
      if t[p - 1] == '&' {
        HoldsAfterCut(t, p);
      } else {
        HoldsGrow(t, p - 1, Last(SplitTo(t, '&', p - 1)));
      }
    }
  }

  lemma LastIndexInRange(s: string, c: char)
    ensures -1 <= LastIndex(s, c) < |s|
  {
  }

  lemma SliceOfSlice(t: string, b: nat, p: nat, i: nat, j: nat)
    requires b <= p <= |t| && i <= j <= p - b
    ensures t[b..p][i..j] == t[b + i..b + j]
  {
    forall k | 0 <= k < j - i ensures t[b..p][i..j][k] == t[b + i..b + j][k] {
    }
  }

  lemma HoldsCut(t: string, p: nat, s: string)
    requires t != "" && |t| < MAX_SIZE && p <= |t| && Holds(t, p, s) && Assigns(s)
    ensures Entry(t, 0, p) == SegmentEntry(s)
  {
    hide Entry, KeyStart, Separator, LastIndex;
    LastIndexInRange(s, '?');
    LastIndexInRange(s, '=');
    EntryMeaning(t, 0, p);
    var b, q, e := p - |s|, LastIndex(s, '?'), LastIndex(s, '=');
    SliceOfSlice(t, b, p, q + 1, e);
    SliceOfSlice(t, b, p, e + 1, |s|);
    assert s[e + 1..] == s[e + 1..|s|];
  }

  predicate AllAssign(segments: seq<string>) {
    forall i :: 0 <= i < |segments| ==> Assigns(segments[i])
  }

  lemma SegmentEntriesGrow(r: seq<string>, s: string)
    requires AllAssign(r) && Assigns(s)
    ensures AllAssign(r + [s]) && SegmentEntries(r + [s]) == SegmentEntries(r) + [SegmentEntry(s)]
  {
    hide Assigns, SegmentEntry;
  }

  lemma AllAssignParts(r: seq<string>)
    requires |r| >= 1 && AllAssign(r)
    ensures AllAssign(Front(r)) && Assigns(Last(r)) && r == Front(r) + [Last(r)]
  {
    hide Assigns;
  }

  lemma CutsStep(t: string, p: nat)
    requires t != "" && 0 < p <= |t|
    ensures Cuts(t, 0, p) == Cuts(t, 0, p - 1) + if t[p - 1] == '&' then [Entry(t, 0, p - 1)] else []
  {
    hide Entry;
  }

  lemma NothingCut(t: string)
    requires t != ""
    ensures Cuts(t, 0, 0) == [] && Front(SplitTo(t, '&', 0)) == []
  {
  }

  /** The segments before the last are what the `&`s have cut. */
  lemma {:induction false} CutsAreSegments(t: string, p: nat)
    requires t != "" && |t| < MAX_SIZE && p <= |t| && AllAssign(Front(SplitTo(t, '&', p)))
    ensures Cuts(t, 0, p) == SegmentEntries(Front(SplitTo(t, '&', p)))
  {
    hide Entry, SegmentEntry, Assigns, AllAssign, SegmentEntries, Holds, SplitTo, Cuts, Front, Last;
    if p == 0 {
      NothingCut(t);
      NoSegments();
    } else {
      SplitStep(t, p);
      CutsStep(t, p);
      if t[p - 1] == '&' {
        var r := SplitTo(t, '&', p - 1);
        AllAssignParts(r);
        CutsAreSegments(t, p - 1);
        LastSegment(t, p - 1);
        HoldsCut(t, p - 1, Last(r));
        SegmentEntriesGrow(Front(r), Last(r));
      } else {
        CutsAreSegments(t, p - 1);
      }
    }
  }

  lemma NoSegments()
    ensures AllAssign([]) && SegmentEntries([]) == []
  {
  }

  lemma {:induction false} SplitPrefix(s: string, x: string, c: char, n: nat)
    requires n <= |s|
    ensures SplitTo(s + x, c, n) == SplitTo(s, c, n)
  {
    if n > 0 {
      SplitPrefix(s, x, c, n - 1);
    }
  }

  /** On a well-formed target the single pass yields the entries of the split, in order. */
  lemma ScannerRefinesSplit(t: string)
    requires |t| < MAX_SIZE && WellFormed(t)
    ensures t != "" && !BadHttp(t, 0)
    ensures Entries(t, 0) == SegmentEntries(Split(UpToSpace(t), '&'))
  {
    var e := Stop(t, 0);
    var segments := Split(UpToSpace(t), '&');
    assert t == UpToSpace(t) + t[e..];
    SplitPrefix(UpToSpace(t), t[e..], '&', e);
    assert segments == Front(segments) + [Last(segments)];
    assert forall i :: 0 <= i < |segments| - 1 ==> Front(segments)[i] == segments[i];
    CutsAreSegments(t, e);
    LastSegment(t, e);
    HoldsCut(t, e, Last(segments));
    SegmentEntriesGrow(Front(segments), Last(segments));
    forall a | 0 <= a < e && t[a] == '&' ensures !FirstAmpersandBad(t, 0, a) {
      FirstAmpersandIsGood(t, a);
    }
  }

  lemma FirstAmpersandIsGood(t: string, a: nat)
    requires WellFormed(t) && a < Stop(t, 0) && t[a] == '&'
    ensures !FirstAmpersandBad(t, 0, a)
  {
    if forall i :: 0 <= i < a ==> t[i] != '&' {
      var h, u := UpToSpace(t), t[..a];
      NoSeparatorOneSegment(u, '&');
      assert h == u + ['&'] + h[a + 1..];
      SplitAppend(u, h[a + 1..], '&', |h| - a - 1);
      assert Split(h, '&')[0] == u;
      var i, j := LastIndex(u, '?'), LastIndex(u, '=');
      assert t[i] == '?' && t[j] == '=' && 0 <= i < j;
    }
  }

  lemma {:induction false} NoSeparatorOneSegmentTo(s: string, c: char, n: nat)
    requires c !in s && n <= |s|
    ensures SplitTo(s, c, n) == [s[..n]]
  {
    if n > 0 {
      NoSeparatorOneSegmentTo(s, c, n - 1);
      assert s[..n] == s[..n - 1] + [s[n - 1]];
      assert s[n - 1] in s;
    }
  }

  lemma NoSeparatorOneSegment(s: string, c: char)
    requires c !in s
    ensures Split(s, c) == [s]
  {
    NoSeparatorOneSegmentTo(s, c, |s|);
    assert s[..|s|] == s;
  }

  lemma {:induction false} SplitAppend(a: string, b: string, c: char, n: nat)
    requires n <= |b|
    ensures SplitTo(a + [c] + b, c, |a| + 1 + n) == Split(a, c) + SplitTo(b, c, n)
  {
    var s := a + [c] + b;
    if n == 0 {
      assert s == a + ([c] + b);
      SplitPrefix(a, [c] + b, c, |a|);
    } else {
      SplitAppend(a, b, c, n - 1);
      assert s[|a| + n] == b[n - 1];
      var x, w := Split(a, c), SplitTo(b, c, n - 1);
      assert Grow(x + w, b[n - 1]) == x + Grow(w, b[n - 1]);
      assert (x + w) + [""] == x + (w + [""]);
    }
  }

  // ----- exactly when the scan throws -----

  lemma FirstOfSegments(h: string, a: nat)
    requires a < |h| && h[a] == '&' && '&' !in h[..a]
    ensures |Split(h, '&')| >= 2 && Split(h, '&')[0] == h[..a]
  {
    hide SplitTo;
    NoSeparatorOneSegment(h[..a], '&');
    assert h == h[..a] + ['&'] + h[a + 1..];
    SplitAppend(h[..a], h[a + 1..], '&', |h| - a - 1);
  }

  lemma FirstAmpersand(h: string) returns (a: nat)
    requires '&' in h
    ensures a < |h| && h[a] == '&' && '&' !in h[..a]
  {
    a := 0;
    while h[a] != '&'
      invariant a < |h| && '&' !in h[..a] && '&' in h[a..]
      decreases |h| - a
    {
      assert h[a..] == [h[a]] + h[a + 1..];
      assert h[..a + 1] == h[..a] + [h[a]];
      a := a + 1;
    }
  }

  /** The scan throws exactly when the part before the first space has several segments, and the first of them has no
      `?`, or no `=` past its first byte. */
  lemma BadHttpIff(t: string)
    ensures var segments := Split(UpToSpace(t), '&');
            BadHttp(t, 0) <==> |segments| >= 2
                               && ('?' !in segments[0] || forall i :: 1 <= i < |segments[0]| ==> segments[0][i] != '=')
  {
    hide SplitTo;
    var h := UpToSpace(t);
    if '&' in h {
      var a := FirstAmpersand(h);
      FirstOfSegments(h, a);
      assert forall i :: 0 <= i < a ==> h[..a][i] == t[i];
      assert t[a] == '&';
      assert FirstAmpersandBad(t, 0, a) <==> '?' !in h[..a] || forall i :: 1 <= i < a ==> h[..a][i] != '=';
      assert forall b :: 0 <= b < |h| && t[b] == '&' && FirstAmpersandBad(t, 0, b) ==> b == a;
    } else {
      NoSeparatorOneSegment(h, '&');
      assert forall b :: 0 <= b < |h| ==> h[b] == t[b];
    }
  }

  // ----- the scan from an offset -----

  /** From `j` on, the scanner has seen a `?` and behind it a `=`, before any `&`. */
  ghost predicate SettledAt(t: string, i: nat, j: nat) {
    i < j < Stop(t, 0) && j < |t| && t[i] == '?' && t[j] == '=' && forall k :: 0 <= k <= j ==> t[k] != '&'
  }

  lemma WellFormedSettles(t: string) returns (i: nat, j: nat)
    requires WellFormed(t)
    ensures SettledAt(t, i, j)
  {
    var h := UpToSpace(t);
    var first := Split(h, '&')[0];
    if '&' in h {
      var a := FirstAmpersand(h);
      FirstOfSegments(h, a);
    } else {
      NoSeparatorOneSegment(h, '&');
    }
    hide SplitTo, Split;
    assert first <= h && '&' !in first;
    i, j := LastIndex(first, '?'), LastIndex(first, '=');
    assert forall k :: 0 <= k < |first| ==> first[k] == t[k] && first[k] in first;
  }

  lemma {:induction false} StopShift(u: string, t: string, p: nat)
    requires p <= |t|
    ensures Stop(u + t, |u| + p) == |u| + Stop(t, p)
    decreases |t| - p
  {
    if p < |t| && t[p] != ' ' {
      StopShift(u, t, p + 1);
    }
  }

  lemma {:induction false} KeyStartShift(u: string, t: string, p: nat)
    requires p <= |t| && KeyStart(t, 0, p) > 0
    ensures KeyStart(u + t, |u|, |u| + p) == |u| + KeyStart(t, 0, p)
  {
    if t[p - 1] != '?' && t[p - 1] != '&' {
      KeyStartShift(u, t, p - 1);
    }
  }

  lemma {:induction false} SeparatorShift(u: string, t: string, p: nat)
    requires p <= |t| && Separator(t, 0, p) > 0
    ensures Separator(u + t, |u|, |u| + p) == |u| + Separator(t, 0, p)
  {
    if t[p - 1] != '=' {
      SeparatorShift(u, t, p - 1);
    }
  }

  lemma SettledIsPositive(t: string, i: nat, j: nat, p: nat)
    requires SettledAt(t, i, j) && j < p <= |t|
    ensures KeyStart(t, 0, p) > 0 && Separator(t, 0, p) > 0
  {
    KeyStartZero(t, 0, p);
    SeparatorZero(t, 0, p);
    hide KeyStart, Separator, Stop;
  }

  lemma SliceShift(u: string, t: string, a: nat, b: nat)
    requires a <= b <= |t|
    ensures (u + t)[|u| + a..|u| + b] == t[a..b] && (u + t)[|u| + a..] == t[a..]
  {
  }

  lemma EntryShift(u: string, t: string, i: nat, j: nat, p: nat)
    requires |u + t| < MAX_SIZE && SettledAt(t, i, j) && j < p <= |t|
    ensures Entry(u + t, |u|, |u| + p) == Entry(t, 0, p)
  {
    hide KeyStart, Separator, Entry, Stop;
    SettledIsPositive(t, i, j, p);
    hide SettledAt;
    KeyStartShift(u, t, p);
    SeparatorShift(u, t, p);
    EntryMeaning(t, 0, p);
    EntryMeaning(u + t, |u|, |u| + p);
    var ks, sep := KeyStart(t, 0, p), Separator(t, 0, p);
    SliceShift(u, t, ks, |t|);
    if ks <= sep {
      SliceShift(u, t, ks, sep);
    }
    SliceShift(u, t, sep + 1, p);
  }

  lemma {:induction false} CutsShift(u: string, t: string, i: nat, j: nat, p: nat)
    requires |u + t| < MAX_SIZE && SettledAt(t, i, j) && p <= |t|
    ensures Cuts(u + t, |u|, |u| + p) == Cuts(t, 0, p)
  {
    hide Entry, Stop;
    if p > 0 {
      CutsShift(u, t, i, j, p - 1);
      if t[p - 1] == '&' {
        EntryShift(u, t, i, j, p - 1);
      }
    }
  }

  /** On a well-formed target the scan from an offset, with anything before it, is the scan of the target. */
  lemma ScanFromOffset(u: string, t: string)
    requires |u + t| < MAX_SIZE && WellFormed(t)
    ensures t != "" && !BadHttp(u + t, |u|) && Entries(u + t, |u|) == Entries(t, 0)
  {
    hide WellFormed, Entry, Cuts;
    var i, j := WellFormedSettles(t);
    StopShift(u, t, 0);
    var e := Stop(t, 0);
    CutsShift(u, t, i, j, e);
    EntryShift(u, t, i, j, e);
    forall a | |u| <= a < |u| + e && (u + t)[a] == '&' ensures !FirstAmpersandBad(u + t, |u|, a) {
      assert t[a - |u|] == '&';
      assert (u + t)[|u| + i] == '?' && (u + t)[|u| + j] == '=';
    }
  }

  // ----- printing a target, and reading it back -----

  /** `path?k0=v0&k1=v1...` */
  function PrintTarget(path: string, ps: Pairs): string
    requires ps != []
  {
    var (k, v) := ps[|ps| - 1];
    if |ps| == 1 then path + "?" + k + "=" + v
    else PrintTarget(path, ps[..|ps| - 1]) + "&" + (k + "=" + v)
  }

  lemma {:induction false} PrintPrefix(u: string, path: string, ps: Pairs)
    requires ps != []
    ensures PrintTarget(u + path, ps) == u + PrintTarget(path, ps)
  {
    var (k, v) := ps[|ps| - 1];
    if |ps| == 1 {
      assert (u + path) + "?" + k + "=" + v == u + (path + "?" + k + "=" + v);
    } else {
      PrintPrefix(u, path, ps[..|ps| - 1]);
      var before := PrintTarget(path, ps[..|ps| - 1]);
      assert (u + before) + "&" + (k + "=" + v) == u + (before + "&" + (k + "=" + v));
    }
  }

  lemma {:induction false} PrintStarts(path: string, ps: Pairs)
    requires ps != []
    ensures path + "?" <= PrintTarget(path, ps)
  {
    if |ps| > 1 {
      PrintStarts(path, ps[..|ps| - 1]);
    }
  }

  predicate Plain(s: string) {
    '?' !in s && '&' !in s && ' ' !in s
  }

  predicate PrintablePairs(ps: Pairs) {
    forall i :: 0 <= i < |ps| ==> Plain(ps[i].0) && Plain(ps[i].1) && '=' !in ps[i].1
  }

  lemma LastIndexIs(s: string, c: char, i: int)
    requires -1 <= i < |s| && (i >= 0 ==> s[i] == c)
    requires forall j :: i < j < |s| ==> s[j] != c
    ensures LastIndex(s, c) == i
  {
  }

  lemma PairSegment(u: string, k: string, v: string)
    requires u == "" || u[|u| - 1] == '?'
    requires '?' !in k && '?' !in v && '=' !in v
    ensures Assigns(u + k + "=" + v) && SegmentEntry(u + k + "=" + v) == (k, v)
  {
    var s := u + k + "=" + v;
    forall j | |u| <= j < |s| ensures s[j] != '?' && (|u| + |k| < j ==> s[j] != '=') {
      if j < |u| + |k| {
        assert s[j] == k[j - |u|];
      } else if j > |u| + |k| {
        assert s[j] == v[j - |u| - |k| - 1];
      }
    }
    assert s[|u|..|u| + |k|] == k && s[|u| + |k| + 1..] == v;
    LastIndexIs(s, '=', |u| + |k|);
    LastIndexIs(s, '?', |u| - 1);
  }

  lemma PairSegmentFree(u: string, k: string, v: string, c: char)
    requires c !in u && c !in k && c !in v && c != '='
    ensures c !in u + k + "=" + v
  {
  }

  ghost predicate Prints(segments: seq<string>, ps: Pairs) {
    && |segments| == |ps| >= 1
    && '?' in segments[0]
    && forall i :: 0 <= i < |ps| ==> Assigns(segments[i]) && SegmentEntry(segments[i]) == ps[i]
  }

  lemma FirstPairSegment(path: string, k: string, v: string)
    requires Plain(path) && Plain(k) && Plain(v) && '=' !in v
    ensures Prints(Split(path + "?" + k + "=" + v, '&'), [(k, v)])
    ensures ' ' !in path + "?" + k + "=" + v
  {
    var u := path + "?";
    var s := u + k + "=" + v;
    assert s[|path|] == '?';
    PairSegment(u, k, v);
    PairSegmentFree(u, k, v, '&');
    PairSegmentFree(u, k, v, ' ');
    NoSeparatorOneSegment(s, '&');
  }

  lemma NextPairSegment(t: string, ps: Pairs, k: string, v: string)
    requires Prints(Split(t, '&'), ps) && ' ' !in t
    requires Plain(k) && Plain(v) && '=' !in v
    ensures Prints(Split(t + "&" + (k + "=" + v), '&'), ps + [(k, v)])
    ensures ' ' !in t + "&" + (k + "=" + v)
  {
    var s := "" + k + "=" + v;
    assert s == k + "=" + v;
    PairSegment("", k, v);
    PairSegmentFree("", k, v, '&');
    PairSegmentFree("", k, v, ' ');
    NoSeparatorOneSegment(s, '&');
    SplitAppend(t, s, '&', |s|);
    var r := Split(t, '&');
    assert Split(t + "&" + s, '&') == r + [s];
    assert (r + [s])[0] == r[0];
  }

  /** The head of a printed target splits into one segment a pair, and each gives its pair back. */
  lemma {:induction false} PrintedSegments(path: string, ps: Pairs)
    requires Plain(path) && ps != [] && PrintablePairs(ps)
    ensures Prints(Split(PrintTarget(path, ps), '&'), ps)
    ensures ' ' !in PrintTarget(path, ps)
  {
    var last := ps[|ps| - 1];
    if |ps| == 1 {
      FirstPairSegment(path, last.0, last.1);
      assert ps == [last];
    } else {
      var init := ps[..|ps| - 1];
      PrintedSegments(path, init);
      NextPairSegment(PrintTarget(path, init), init, last.0, last.1);
      assert ps == init + [last];
    }
  }

  lemma StopAtSpace(t: string, p: nat, e: nat)
    requires p <= e <= |t| && (forall i :: p <= i < e ==> t[i] != ' ') && (e < |t| ==> t[e] == ' ')
    ensures Stop(t, p) == e
  {
  }

  /** Reading a printed target, whatever follows it after a space, gives the pairs back in order;
      `Properties.AssignIsLastWins` says what map that is. */
  lemma QueryRoundTrip(path: string, ps: Pairs, suffix: string)
    requires Plain(path) && ps != [] && PrintablePairs(ps)
    requires suffix == "" || suffix[0] == ' '
    requires |PrintTarget(path, ps) + suffix| < MAX_SIZE
    ensures var t := PrintTarget(path, ps) + suffix;
            t != "" && !BadHttp(t, 0) && Entries(t, 0) == ps
  {
    var printed := PrintTarget(path, ps);
    var t := printed + suffix;
    PrintedSegments(path, ps);
    StopAtSpace(t, 0, |printed|);
    assert UpToSpace(t) == printed;
    ScannerRefinesSplit(t);
  }

  lemma PrintedIsWellFormed(path: string, ps: Pairs, suffix: string)
    requires Plain(path) && ps != [] && PrintablePairs(ps)
    requires suffix == "" || suffix[0] == ' '
    ensures WellFormed(PrintTarget(path, ps) + suffix)
  {
    hide Split;
    var printed := PrintTarget(path, ps);
    PrintedSegments(path, ps);
    StopAtSpace(printed + suffix, 0, |printed|);
    assert UpToSpace(printed + suffix) == printed;
  }

  /** So it is from an offset, whatever stands before it. */
  lemma QueryRoundTripFrom(u: string, path: string, ps: Pairs, suffix: string)
    requires Plain(path) && ps != [] && PrintablePairs(ps)
    requires suffix == "" || suffix[0] == ' '
    requires |u + (PrintTarget(path, ps) + suffix)| < MAX_SIZE
    ensures var t := u + (PrintTarget(path, ps) + suffix);
            t != "" && !BadHttp(t, |u|) && Entries(t, |u|) == ps
  {
    hide PrintTarget, Entries, BadHttp, WellFormed;
    PrintedIsWellFormed(path, ps, suffix);
    QueryRoundTrip(path, ps, suffix);
    ScanFromOffset(u, PrintTarget(path, ps) + suffix);
  }

  const LOOSE_TARGET := "/likeClicked/post_id=1&x=2"

  lemma LooseTarget()
    ensures |LOOSE_TARGET| == 26 && LOOSE_TARGET[22] == '&'
    ensures forall i :: 0 <= i < 26 ==> LOOSE_TARGET[i] != ' '
    ensures forall i :: 0 <= i < 22 ==> LOOSE_TARGET[i] != '&' && LOOSE_TARGET[i] != '?'
  {
  }

  /** The failure set is not empty: a first segment without `?` is refused, even when well assigned. */
  lemma BadHttpExample()
    ensures BadHttp(LOOSE_TARGET, 0)
  {
    LooseTarget();
    hide LOOSE_TARGET, Stop;
    StopAtSpace(LOOSE_TARGET, 0, 26);
    assert FirstAmpersandBad(LOOSE_TARGET, 0, 22);
  }
}
