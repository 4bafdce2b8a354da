/** Byte strings as the C++ standard library sees them: `find`, `substr`, and the
    64-bit `size_t` arithmetic both servers do on positions.  One `char` stands
    for one byte. */
module Text {

  datatype Option<+T> = None | Some(value: T) {
    function GetOr(default: T): T {
      match this
      case None => default
      case Some(v) => v
    }
  }

  const SIZES := 0x1_0000_0000_0000_0000
  const NPOS: nat := SIZES - 1
  /** `std::string` and `std::string_view` never hold this many bytes. */
  const MAX_SIZE: nat := 0x4000_0000_0000_0000

  const CRLF := "\r\n"
  const BLANK_LINE := "\r\n\r\n"

  /** Unsigned 64-bit subtraction and addition. */
  function Minus(a: nat, b: nat): (r: nat)
    ensures b <= a < b + SIZES ==> r == a - b
    ensures a < b <= a + SIZES ==> r == a - b + SIZES
    ensures r < SIZES
  {
    (a - b) % SIZES
  }

  function Plus(a: nat, b: nat): (r: nat)
    ensures a + b < SIZES ==> r == a + b
    ensures SIZES <= a + b < 2 * SIZES ==> r == a + b - SIZES
    ensures r < SIZES
  {
    (a + b) % SIZES
  }

  /** `pat` stands in `s` at position `i`. */
  predicate At(s: string, pat: string, i: int) {
    0 <= i <= |s| - |pat| && s[i..i + |pat|] == pat
  }

  /** The first position at or after `from` where `pat` stands. */
  function First(s: string, pat: string, from: nat): (r: Option<nat>)
    ensures r.Some? ==> from <= r.value <= |s| - |pat|
    decreases |s| - from
  {
    if from + |pat| > |s| then None
    else if At(s, pat, from) then Some(from)
    else First(s, pat, from + 1)
  }

  /** `find` as its callers see it: a `size_t`, with `npos` for "absent". */
  function Find(s: string, pat: string, from: nat): (r: nat)
  {
    match First(s, pat, from)
    case Some(i) => i
    case None => NPOS
  }

  predicate Contains(s: string, pat: string) {
    First(s, pat, 0).Some?
  }

  /** `substr`: None is `std::out_of_range`, and the length is clamped. */
  function Substr(s: string, pos: nat, len: nat): (r: Option<string>)
  {
    if pos > |s| then None
    else if len < |s| - pos then Some(s[pos..pos + len])
    else Some(s[pos..])
  }

  /** No byte of `s` is a carriage return or a line feed. */
  predicate OneLine(s: string) {
    forall i :: 0 <= i < |s| ==> s[i] != '\r' && s[i] != '\n'
  }

  lemma Assoc(a: string, b: string, c: string)
    ensures (a + b) + c == a + (b + c)
  {
  }

  // ----- first occurrences -----

  ghost predicate NoneBefore(s: string, pat: string, from: nat, end: int) {
    forall j :: from <= j < end ==> !At(s, pat, j)
  }

  /** `First` finds the first occurrence, and fails only when there is none. */
  lemma {:induction false} FirstMeaning(s: string, pat: string, from: nat)
    ensures match First(s, pat, from)
            case Some(i) => from <= i && At(s, pat, i) && NoneBefore(s, pat, from, i)
            case None => NoneBefore(s, pat, from, |s| + 1)
    decreases |s| - from
  {
    if from + |pat| <= |s| && !At(s, pat, from) {
      FirstMeaning(s, pat, from + 1);
    }
  }

  lemma FirstIs(s: string, pat: string, from: nat, i: nat)
    requires from <= i && At(s, pat, i) && NoneBefore(s, pat, from, i)
    ensures First(s, pat, from) == Some(i)
  {
    FirstMeaning(s, pat, from);
  }

  lemma FirstIsNone(s: string, pat: string, from: nat)
    requires NoneBefore(s, pat, from, |s| + 1)
    ensures First(s, pat, from) == None
  {
    FirstMeaning(s, pat, from);
  }

  /** The first occurrence of all is the first from any point up to it. */
  lemma FirstFrom(s: string, pat: string, from: nat)
    requires First(s, pat, 0).Some? && from <= First(s, pat, 0).value
    ensures First(s, pat, from) == First(s, pat, 0)
  {
    FirstMeaning(s, pat, 0);
    FirstIs(s, pat, from, First(s, pat, 0).value);
  }

  lemma ContainsAt(s: string, pat: string, i: int)
    requires At(s, pat, i)
    ensures Contains(s, pat)
  {
    FirstMeaning(s, pat, 0);
  }

  /** Occurrences in a middle piece are occurrences in the whole, shifted. */
  lemma AtShift(u: string, s: string, w: string, pat: string, i: int)
    requires 0 <= i <= |s| - |pat|
    ensures At(u + s + w, pat, |u| + i) == At(s, pat, i)
  {
    assert (u + s + w)[|u| + i..|u| + i + |pat|] == s[i..i + |pat|];
  }

  /** An occurrence that fits inside a prefix does not depend on what follows. */
  lemma AtPrefix(s: string, x: string, pat: string, i: int)
    requires 0 <= i <= |s| - |pat|
    ensures At(s + x, pat, i) == At(s, pat, i)
  {
    assert (s + x)[i..i + |pat|] == s[i..i + |pat|];
  }

  /** A first occurrence stays the first occurrence when the text grows. */
  lemma FirstStable(s: string, x: string, pat: string, from: nat)
    requires First(s, pat, from).Some?
    ensures First(s + x, pat, from) == First(s, pat, from)
  {
    FirstMeaning(s, pat, from);
    var i := First(s, pat, from).value;
    AtPrefix(s, x, pat, i);
    forall j | from <= j < i ensures !At(s + x, pat, j) {
      AtPrefix(s, x, pat, j);
    }
    FirstIs(s + x, pat, from, i);
  }

  /** A first occurrence that ends inside a prefix is found in that prefix. */
  lemma FirstInPrefix(s: string, pat: string, from: nat, n: nat)
    requires n <= |s|
    ensures First(s, pat, from).Some? && First(s, pat, from).value + |pat| <= n
            ==> First(s[..n], pat, from) == First(s, pat, from)
    ensures (First(s, pat, from).None? || First(s, pat, from).value + |pat| > n)
            ==> First(s[..n], pat, from) == None
  {
    assert s == s[..n] + s[n..];
    var p, x := s[..n], s[n..];
    FirstMeaning(s, pat, from);
    FirstMeaning(p, pat, from);
    if First(p, pat, from).Some? {
      FirstStable(p, x, pat, from);
    } else if First(s, pat, from).Some? && First(s, pat, from).value + |pat| <= n {
      AtPrefix(p, x, pat, First(s, pat, from).value);
    }
  }

  lemma AtChars(s: string, pat: string, i: int)
    requires At(s, pat, i)
    ensures 0 <= i <= |s| - |pat|
    ensures forall k :: i <= k < i + |pat| ==> s[k] == pat[k - i]
  {
    forall k | i <= k < i + |pat| ensures s[k] == pat[k - i] {
      assert s[k] == s[i..i + |pat|][k - i];
    }
  }

  /** A text without line breaks cannot straddle a CRLF: it stands wholly before it or wholly after. */
  lemma NoStraddle(a: string, b: string, pat: string, i: int)
    requires OneLine(pat) && pat != "" && At(a + CRLF + b, pat, i)
    ensures i + |pat| <= |a| || |a| + 2 <= i
  {
    var s := a + CRLF + b;
    assert s[|a|] == '\r' && s[|a| + 1] == '\n';
    AtChars(s, pat, i);
  }

  /** In `x CRLF pat y` with `x` free of the one-line `pat`, the first `pat` is the one after the CRLF. */
  lemma FirstAfterLine(x: string, pat: string, y: string)
    requires OneLine(pat) && pat != "" && !Contains(x, pat)
    ensures First(x + CRLF + (pat + y), pat, 0) == Some(|x| + 2)
  {
    var t := x + CRLF + (pat + y);
    FirstMeaning(x, pat, 0);
    forall j | 0 <= j < |x| + 2 ensures !At(t, pat, j) {
      if At(t, pat, j) {
        NoStraddle(x, pat + y, pat, j);
        assert t == x + (CRLF + (pat + y));
        AtPrefix(x, CRLF + (pat + y), pat, j);
      }
    }
    FirstIs(t, pat, 0, |x| + 2);
  }

  lemma AtSkip(u: string, s: string, pat: string, i: nat)
    ensures At(u + s, pat, |u| + i) == At(s, pat, i)
  {
    if i + |pat| <= |s| {
      assert (u + s)[|u| + i..|u| + i + |pat|] == s[i..i + |pat|];
    }
  }

  /** Searching from the end of `u` sees only what follows `u`. */
  lemma FirstSkip(u: string, s: string, pat: string, from: nat)
    ensures First(u + s, pat, |u| + from)
         == match First(s, pat, from) case None => None case Some(i) => Some(|u| + i)
  {
    hide First, At;
    FirstMeaning(s, pat, from);
    var end := match First(s, pat, from) case None => |s| + 1 case Some(i) => i;
    forall j | |u| + from <= j < |u| + end ensures !At(u + s, pat, j) {
      AtSkip(u, s, pat, j - |u|);
    }
    match First(s, pat, from)
    case None => FirstIsNone(u + s, pat, |u| + from);
    case Some(i) =>
      AtSkip(u, s, pat, i);
      FirstIs(u + s, pat, |u| + from, |u| + i);
  }

  /** A line break between two texts free of a one-line pattern makes no new occurrence. */
  lemma FreeAcrossLine(a: string, b: string, pat: string)
    requires OneLine(pat) && pat != "" && !Contains(a, pat) && (b == "" || !Contains(b, pat))
    ensures !Contains(a + CRLF + b, pat)
  {
    FirstMeaning(a + CRLF + b, pat, 0);
    FirstMeaning(a, pat, 0);
    FirstMeaning(b, pat, 0);
    hide First;
    if Contains(a + CRLF + b, pat) {
      var i := First(a + CRLF + b, pat, 0).value;
      NoStraddle(a, b, pat, i);
      if i + |pat| <= |a| {
        assert a + CRLF + b == a + (CRLF + b);
        AtPrefix(a, CRLF + b, pat, i);
      } else {
        AtSkip(a + CRLF, b, pat, i - |a| - 2);
      }
    }
  }

  /** Text without the pattern's first byte, put in front, makes no new occurrence either. */
  lemma FreeAfterPrefix(a: string, b: string, pat: string)
    requires pat != "" && pat[0] !in a && !Contains(b, pat)
    ensures !Contains(a + b, pat)
  {
    FirstMeaning(b, pat, 0);
    hide First;
    forall j | 0 <= j <= |a + b| ensures !At(a + b, pat, j) {
      if j < |a| {
        assert (a + b)[j] == a[j] != pat[0];
        if At(a + b, pat, j) {
          AtChars(a + b, pat, j);
        }
      } else {
        AtSkip(a, b, pat, j - |a|);
      }
    }
    FirstIsNone(a + b, pat, 0);
  }

  lemma ContainsPart(u: string, s: string, w: string, pat: string)
    requires Contains(s, pat)
    ensures Contains(u + s + w, pat)
  {
    FirstMeaning(s, pat, 0);
    var i := First(s, pat, 0).value;
    AtShift(u, s, w, pat, i);
    ContainsAt(u + s + w, pat, |u| + i);
  }
}

/** Maps filled by assigning keys one after the other, as `std::unordered_map::operator[]` does. */
module Properties {
  type Pairs = seq<(string, string)>

  class Collection {
    var entries: map<string, string>

    constructor ()
      ensures entries == map[]
    {
      entries := map[];
    }
  }

  function Assign(m: map<string, string>, ps: Pairs): (r: map<string, string>)
  {
    if ps == [] then m
    else Assign(m, ps[..|ps| - 1])[ps[|ps| - 1].0 := ps[|ps| - 1].1]
  }

  /** The last index at which key `k` is assigned. */
  ghost predicate LastAt(ps: Pairs, k: string, i: int) {
    0 <= i < |ps| && ps[i].0 == k && forall j :: i < j < |ps| ==> ps[j].0 != k
  }

  /** The last assignment of a key wins; a key never assigned keeps what it had. */
  lemma {:induction false} AssignIsLastWins(m: map<string, string>, ps: Pairs, k: string)
    ensures (forall i :: 0 <= i < |ps| ==> ps[i].0 != k)
            ==> (k in Assign(m, ps) <==> k in m) && (k in m ==> Assign(m, ps)[k] == m[k])
    ensures forall i :: LastAt(ps, k, i) ==> k in Assign(m, ps) && Assign(m, ps)[k] == ps[i].1
  {
    if ps != [] {
      var qs := ps[..|ps| - 1];
      AssignIsLastWins(m, qs, k);
      assert forall i :: 0 <= i < |qs| ==> qs[i] == ps[i];
      forall i | LastAt(ps, k, i) ensures k in Assign(m, ps) && Assign(m, ps)[k] == ps[i].1 {
        if i < |qs| {
          assert LastAt(qs, k, i);
        }
      }
    }
  }

  lemma AssignNothing(m: map<string, string>)
    ensures Assign(m, []) == m
  {
  }

  lemma AssignOne(m: map<string, string>, k: string, v: string)
    ensures Assign(m, [(k, v)]) == m[k := v]
  {
    assert [(k, v)][..0] == [];
  }

  lemma {:induction false} AssignConcat(m: map<string, string>, ps: Pairs, qs: Pairs)
    ensures Assign(m, ps + qs) == Assign(Assign(m, ps), qs)
  {
    if qs == [] {
      assert ps + qs == ps;
    } else {
      AssignConcat(m, ps, qs[..|qs| - 1]);
      assert (ps + qs)[..|ps + qs| - 1] == ps + qs[..|qs| - 1];
    }
  }
}
