/**
  The .NET string operations the locale generator relies on: `String.Split`
  (with and without RemoveEmptyEntries), `String.Trim`, the case folding of
  `StringComparer.OrdinalIgnoreCase`, and the ordering used by sorted
  collections of strings.
 */
module Text {

  /** No character of `s` is in `chars`. */
  predicate Avoids(s: string, chars: set<char>) {
    forall k :: 0 <= k < |s| ==> s[k] !in chars
  }

  /** `s` with every character of `chars` removed. */
  function Without(s: string, chars: set<char>): (r: string)
    ensures |r| <= |s| && Avoids(r, chars)
  {
    if s == [] then []
    else (if s[0] in chars then [] else [s[0]]) + Without(s[1..], chars)
  }

  /** All pieces laid end to end. */
  function Concat(pieces: seq<string>): string {
    if pieces == [] then [] else pieces[0] + Concat(pieces[1..])
  }

  /** The longest prefix of `s` free of separators. */
  function Word(s: string, seps: set<char>): (w: string)
    ensures w <= s && Avoids(w, seps)
    ensures |w| < |s| ==> s[|w|] in seps
  {
    if s == [] || s[0] in seps then []
    else
      var w := [s[0]] + Word(s[1..], seps);
      assert w <= s;
      w
  }

  /** `s.Split(seps, StringSplitOptions.RemoveEmptyEntries)`: the maximal
      separator-free runs of `s`, in order. */
  function SplitOn(s: string, seps: set<char>): (r: seq<string>)
    ensures forall i :: 0 <= i < |r| ==> |r[i]| > 0 && Avoids(r[i], seps)
    ensures Concat(r) == Without(s, seps)
    decreases |s|
  {
    if s == [] then []
    else if s[0] in seps then SplitOn(s[1..], seps)
    else
      var w := Word(s, seps);
      WithoutWord(s, seps);
      [w] + SplitOn(s[|w|..], seps)
  }

  lemma {:induction false} WithoutWord(s: string, seps: set<char>)
    requires s != [] && s[0] !in seps
    ensures Without(s, seps) == Word(s, seps) + Without(s[|Word(s, seps)|..], seps)
    decreases |s|
  {
    if |s| > 1 && s[1] !in seps {
      WithoutWord(s[1..], seps);
      assert s[1..][|Word(s[1..], seps)|..] == s[|Word(s, seps)|..];
    }
  }

  /** Pieces joined with one separator between neighbours. */
  function Join(pieces: seq<string>, sep: char): string {
    if pieces == [] then []
    else if |pieces| == 1 then pieces[0]
    else pieces[0] + [sep] + Join(pieces[1..], sep)
  }

  /** Splitting undoes joining non-empty, separator-free pieces. */
  lemma {:induction false} SplitOnJoin(pieces: seq<string>, sep: char, seps: set<char>)
    requires sep in seps
    requires forall i :: 0 <= i < |pieces| ==> |pieces[i]| > 0 && Avoids(pieces[i], seps)
    ensures SplitOn(Join(pieces, sep), seps) == pieces
    decreases |pieces|
  {
    if pieces != [] {
      var p := pieces[0];
      var s := Join(pieces, sep);
      var rest := if |pieces| == 1 then [] else [sep] + Join(pieces[1..], sep);
      assert s == p + rest;
      WordOfJoin(p, rest, seps);
      assert s[|p|..] == rest;
      if |pieces| > 1 {
        SplitOnJoin(pieces[1..], sep, seps);
        assert rest[1..] == Join(pieces[1..], sep);
      }
    }
  }

  /** Every character of `s` is one of `chars`. */
  predicate OnlyOf(s: string, chars: set<char>) {
    forall k :: 0 <= k < |s| ==> s[k] in chars
  }

  /** Pieces laid out with a run of separators before, between and after
      them; `gaps` holds the runs. */
  function Interleave(gaps: seq<string>, pieces: seq<string>): string
    requires |gaps| == |pieces| + 1
    decreases |pieces|
  {
    if pieces == [] then gaps[0] else gaps[0] + pieces[0] + Interleave(gaps[1..], pieces[1..])
  }

  /** Leading separators produce no piece. */
  lemma {:induction false} SplitOnSkips(g: string, s: string, seps: set<char>)
    requires OnlyOf(g, seps)
    ensures SplitOn(g + s, seps) == SplitOn(s, seps)
    decreases |g|
  {
    if g != [] {
      assert (g + s)[0] == g[0] && g[0] in seps;
      assert (g + s)[1..] == g[1..] + s;
      assert SplitOn(g + s, seps) == SplitOn(g[1..] + s, seps);
      SplitOnSkips(g[1..], s, seps);
    } else {
      assert g + s == s;
    }
  }

  /** A non-empty separator-free piece followed by a separator, or by
      nothing, is split off whole. */
  lemma SplitOnPiece(p: string, rest: string, seps: set<char>)
    requires |p| > 0 && Avoids(p, seps)
    requires rest == [] || rest[0] in seps
    ensures SplitOn(p + rest, seps) == [p] + SplitOn(rest, seps)
  {
    WordOfJoin(p, rest, seps);
    assert (p + rest)[0] == p[0];
    assert (p + rest)[|p|..] == rest;
  }

  /** Splitting gives back the pieces, whatever runs of separators surround
      them, as long as two pieces are never adjacent. */
  lemma {:induction false} SplitOnInterleave(gaps: seq<string>, pieces: seq<string>, seps: set<char>)
    requires |gaps| == |pieces| + 1
    requires forall i :: 0 <= i < |gaps| ==> OnlyOf(gaps[i], seps)
    requires forall i :: 0 < i < |pieces| ==> |gaps[i]| > 0
    requires forall i :: 0 <= i < |pieces| ==> |pieces[i]| > 0 && Avoids(pieces[i], seps)
    ensures SplitOn(Interleave(gaps, pieces), seps) == pieces
    decreases |pieces|
  {
    if pieces == [] {
      SplitOnSkips(gaps[0], [], seps);
      assert gaps[0] + [] == gaps[0];
    } else {
      var p, tail := pieces[0], Interleave(gaps[1..], pieces[1..]);
      assert Interleave(gaps, pieces) == gaps[0] + (p + tail);
      SplitOnSkips(gaps[0], p + tail, seps);
      assert tail == [] || tail[0] in seps by {
        if |pieces| > 1 {
          assert tail[0] == gaps[1][0];
        } else {
          assert tail == gaps[1];
        }
      }
      WordOfJoin(p, tail, seps);
      assert (p + tail)[|p|..] == tail;
      SplitOnInterleave(gaps[1..], pieces[1..], seps);
    }
  }

  lemma {:induction false} WordOfJoin(p: string, rest: string, seps: set<char>)
    requires |p| > 0 && Avoids(p, seps)
    requires rest == [] || rest[0] in seps
    ensures Word(p + rest, seps) == p
    decreases |p|
  {
    if |p| > 1 {
      WordOfJoin(p[1..], rest, seps);
      assert (p + rest)[1..] == p[1..] + rest;
    } else {
      assert (p + rest)[1..] == rest;
    }
  }

  /** `s.Split(sep)` without RemoveEmptyEntries: always at least one piece,
      empty pieces kept. */
  function SplitKeepEmpty(s: string, sep: char): (r: seq<string>)
    ensures |r| >= 1
    ensures forall i :: 0 <= i < |r| ==> Avoids(r[i], {sep})
    ensures Join(r, sep) == s
    decreases |s|
  {
    var w := Word(s, {sep});
    if |w| == |s| then
      assert w == s;
      [s]
    else
      var rest := SplitKeepEmpty(s[|w| + 1..], sep);
      assert s == w + [sep] + s[|w| + 1..];
      [w] + rest
  }

  // ---------------------------------------------------------------------
  // Trim
  // ---------------------------------------------------------------------

  /** `Char.IsWhiteSpace`: the Unicode space separators, the line and
      paragraph separators, and the control characters U+0009-U+000D, U+0085. */
  predicate IsWhiteSpace(c: char) {
    var n := c as int;
    n == 0x20 || 0x09 <= n <= 0x0D || n == 0x85 || n == 0xA0 || n == 0x1680 ||
    0x2000 <= n <= 0x200A || n == 0x2028 || n == 0x2029 || n == 0x202F ||
    n == 0x205F || n == 0x3000
  }

  function TrimEnd(s: string): (r: string)
    ensures |r| <= |s| && r == s[..|r|]
    ensures r == [] || !IsWhiteSpace(r[|r| - 1])
    ensures forall k :: |r| <= k < |s| ==> IsWhiteSpace(s[k])
  {
    if s != [] && IsWhiteSpace(s[|s| - 1]) then TrimEnd(s[..|s| - 1]) else s
  }

  /** `String.Trim()`: drops the leading white space, then the trailing. */
  function Trim(s: string): (r: string)
    ensures |r| <= |s|
  {
    if s != [] && IsWhiteSpace(s[0]) then Trim(s[1..]) else TrimEnd(s)
  }

  /** The number of white-space characters `s` starts with. */
  function LeadingSpace(s: string): (n: nat)
    ensures n <= |s|
    ensures forall k :: 0 <= k < n ==> IsWhiteSpace(s[k])
    ensures n < |s| ==> !IsWhiteSpace(s[n])
  {
    if s != [] && IsWhiteSpace(s[0]) then 1 + LeadingSpace(s[1..]) else 0
  }

  /** `Trim` gives the part of `s` between its leading and its trailing
      white space. */
  lemma {:induction false} TrimmedPart(s: string)
    ensures LeadingSpace(s) + |Trim(s)| <= |s|
    ensures Trim(s) == s[LeadingSpace(s)..LeadingSpace(s) + |Trim(s)|]
    ensures forall k :: LeadingSpace(s) + |Trim(s)| <= k < |s| ==> IsWhiteSpace(s[k])
    ensures Trim(s) == [] || (!IsWhiteSpace(Trim(s)[0]) && !IsWhiteSpace(Trim(s)[|Trim(s)| - 1]))
  {
    if s != [] && IsWhiteSpace(s[0]) {
      TrimmedPart(s[1..]);
      assert s[1..][LeadingSpace(s[1..])..LeadingSpace(s[1..]) + |Trim(s)|] == s[LeadingSpace(s)..LeadingSpace(s) + |Trim(s)|];
    } else {
      var r := TrimEnd(s);
      if r != [] {
        assert r[0] == s[0];
      }
    }
  }

  /** Trimming twice trims nothing more. */
  lemma TrimIdempotent(s: string)
    ensures Trim(Trim(s)) == Trim(s)
  {
    TrimmedPart(s);
    var t := Trim(s);
    if t != [] {
      assert !IsWhiteSpace(t[0]);
      assert TrimEnd(t) == t;
    }
  }

  // ---------------------------------------------------------------------
  // Ordinal case folding
  // ---------------------------------------------------------------------

  /** The upper-case form OrdinalIgnoreCase compares, for ASCII letters. */
  function UpperChar(c: char): char {
    if 'a' <= c <= 'z' then (c as int - 32) as char else c
  }

  function Fold(s: string): (r: string)
    ensures |r| == |s|
    ensures forall k :: 0 <= k < |s| ==> r[k] == UpperChar(s[k])
  {
    seq(|s|, k requires 0 <= k < |s| => UpperChar(s[k]))
  }

  /** Two strings are equal under OrdinalIgnoreCase. */
  predicate SameIgnoringCase(a: string, b: string) {
    Fold(a) == Fold(b)
  }

  lemma FoldIdempotent(s: string)
    ensures Fold(Fold(s)) == Fold(s)
  {
  }

  // ---------------------------------------------------------------------
  // Ordering and sorting
  // ---------------------------------------------------------------------

  /** Ordinal (code unit by code unit) order; a proper prefix comes first. */
  predicate Below(a: string, b: string): (r: bool)
    ensures r ==> a != b
    ensures a < b ==> r
  {
    if a == [] then b != []
    else if b == [] then false
    else a[0] < b[0] || (a[0] == b[0] && Below(a[1..], b[1..]))
  }

  lemma {:induction false} BelowIrreflexive(a: string)
    ensures !Below(a, a)
  {
    if a != [] { BelowIrreflexive(a[1..]); }
  }

  lemma {:induction false} BelowTransitive(a: string, b: string, c: string)
    requires Below(a, b) && Below(b, c)
    ensures Below(a, c)
  {
    if a != [] && b != [] && c != [] && a[0] == b[0] == c[0] {
      BelowTransitive(a[1..], b[1..], c[1..]);
    }
  }

  lemma {:induction false} BelowTotal(a: string, b: string)
    requires a != b
    ensures Below(a, b) || Below(b, a)
  {
    if a != [] && b != [] && a[0] == b[0] {
      assert a == [a[0]] + a[1..] && b == [b[0]] + b[1..];
      BelowTotal(a[1..], b[1..]);
    }
  }

  /** Non-decreasing in the ordinal order. */
  ghost predicate SortedStrings(s: seq<string>) {
    forall i, j :: 0 <= i < j < |s| ==> !Below(s[j], s[i])
  }

  /** Inserts `x` into a sorted list after the entries not above it. */
  function InsertSorted(s: seq<string>, x: string): (r: seq<string>)
    requires SortedStrings(s)
    ensures SortedStrings(r)
    ensures multiset(r) == multiset(s) + multiset{x}
  {
    if s == [] then [x]
    else if Below(x, s[0]) then
      assert forall j :: 0 <= j < |s| ==> !Below(s[j], x) by {
        forall j | 0 <= j < |s| ensures !Below(s[j], x) {
          if Below(s[j], x) { BelowTransitive(s[j], x, s[0]); BelowIrreflexive(s[0]); if j > 0 {} }
        }
      }
      [x] + s
    else
      var t := InsertSorted(s[1..], x);
      assert s == [s[0]] + s[1..];
      assert forall j :: 0 <= j < |t| ==> !Below(t[j], s[0]) by {
        forall j | 0 <= j < |t| ensures !Below(t[j], s[0]) {
          assert t[j] in multiset(t);
          if t[j] != x {
            var k :| 0 <= k < |s[1..]| && s[1..][k] == t[j];
          }
        }
      }
      [s[0]] + t
  }

  /** The sort of `List<string>.Sort()` and of the sorted collections: the
      same strings, in ordinal order. */
  function SortStrings(s: seq<string>): (r: seq<string>)
    ensures SortedStrings(r)
    ensures multiset(r) == multiset(s)
  {
    if s == [] then []
    else
      assert s == s[..|s| - 1] + [s[|s| - 1]];
      InsertSorted(SortStrings(s[..|s| - 1]), s[|s| - 1])
  }

  /** Two sorted lists holding the same strings, each as often, are equal. */
  lemma {:induction false} SortedUnique(a: seq<string>, b: seq<string>)
    requires SortedStrings(a) && SortedStrings(b)
    requires multiset(a) == multiset(b)
    ensures a == b
    decreases |a|
  {
    if a != [] {
      assert a[0] in multiset(b);
      assert b != [];
      assert b[0] in multiset(a);
      assert a[0] == b[0] by {
        if a[0] != b[0] {
          var i :| 0 <= i < |a| && a[i] == b[0];
          var j :| 0 <= j < |b| && b[j] == a[0];
          BelowTotal(a[0], b[0]);
        }
      }
      assert a == [a[0]] + a[1..] && b == [b[0]] + b[1..];
      assert multiset(a) == multiset{a[0]} + multiset(a[1..]);
      assert multiset(b) == multiset{b[0]} + multiset(b[1..]);
      assert multiset(a[1..]) == multiset(a) - multiset{a[0]};
      assert multiset(b[1..]) == multiset(b) - multiset{b[0]};
      SortedUnique(a[1..], b[1..]);
    }
  }

  /** Strictly increasing in the ordinal order: sorted, with no repeats. This
      is how a `SortedSet<string>` or the keys of a `SortedDictionary` are
      enumerated. */
  ghost predicate StrictlySorted(s: seq<string>) {
    forall i, j :: 0 <= i < j < |s| ==> Below(s[i], s[j])
  }

  /** `SortedSet<string>.Add`: inserts `x` in its place unless it is there. */
  function AddSorted(s: seq<string>, x: string): (r: seq<string>)
    requires StrictlySorted(s)
    ensures StrictlySorted(r)
    ensures forall y :: y in r <==> y in s || y == x
  {
    if s == [] then [x]
    else if x == s[0] then s
    else if Below(x, s[0]) then
      assert forall j :: 0 <= j < |s| ==> Below(x, s[j]) by {
        forall j | 0 <= j < |s| ensures Below(x, s[j]) {
          if j > 0 { BelowTransitive(x, s[0], s[j]); }
        }
      }
      [x] + s
    else
      BelowTotal(x, s[0]);
      var t := AddSorted(s[1..], x);
      assert forall y :: y in s[1..] ==> Below(s[0], y) by {
        forall y | y in s[1..] ensures Below(s[0], y) {
          var k :| 0 <= k < |s[1..]| && s[1..][k] == y;
          assert s[k + 1] == y;
        }
      }
      assert forall j :: 0 <= j < |t| ==> Below(s[0], t[j]) by {
        forall j | 0 <= j < |t| ensures Below(s[0], t[j]) {
          assert t[j] in t;
        }
      }
      assert forall y :: y in s <==> y == s[0] || y in s[1..] by {
        assert s == [s[0]] + s[1..];
      }
      [s[0]] + t
  }

  /** A strictly sorted list is determined by its elements. */
  lemma {:induction false} StrictlySortedUnique(a: seq<string>, b: seq<string>)
    requires StrictlySorted(a) && StrictlySorted(b)
    requires forall y :: y in a <==> y in b
    ensures a == b
    decreases |a|
  {
    assert |b| == 0 || b[0] in a;
    if a != [] {
      assert a[0] in b;
      var j :| 0 <= j < |b| && b[j] == a[0];
      var i :| 0 <= i < |a| && a[i] == b[0];
      assert a[0] == b[0] by {
        if a[0] != b[0] {
          assert i > 0 && j > 0;
          BelowTransitive(a[0], a[i], b[j]);
        }
      }
      assert a == [a[0]] + a[1..] && b == [b[0]] + b[1..];
      forall y ensures y in a[1..] <==> y in b[1..] {
        if y in a[1..] {
          var k :| 0 <= k < |a[1..]| && a[1..][k] == y;
          assert Below(a[0], a[k + 1]);
          if y == b[0] { BelowIrreflexive(y); }
          assert y in b;
        }
        if y in b[1..] {
          var k :| 0 <= k < |b[1..]| && b[1..][k] == y;
          assert Below(b[0], b[k + 1]);
          if y == a[0] { BelowIrreflexive(y); }
          assert y in a;
        }
      }
      StrictlySortedUnique(a[1..], b[1..]);
    }
  }
}
