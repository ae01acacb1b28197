/**
  The internal array operations of HigherLogics.Locale/Money.cs
  (`Insert`, `Missing`, `Add`, `Subtract`, `Multiply`, `Divide`).

  Each array method is proved against a function on the array's contents;
  the lemmas further down state what those functions do, defects included:
  the binary search window that is only valid from index 0, merge cursors
  that run past the end of an input, and so on.
 */
module MoneyOps {
  import opened Outcomes
  import opened FixedPoint

  /** Strictly increasing in the order `Fixed.CompareTo` implements. */
  ghost predicate Ascending(s: seq<Fixed>) {
    forall i, j :: 0 <= i < j < |s| ==> Precedes(s[i], s[j])
  }

  /** The invariant the source's comment asks of a money value: at most one
      entry per currency, in increasing currency order. */
  ghost predicate SortedByCurrency(s: seq<Fixed>) {
    forall i, j :: 0 <= i < j < |s| ==> s[i].units < s[j].units
  }

  lemma SortedIsAscending(s: seq<Fixed>)
    requires SortedByCurrency(s)
    ensures Ascending(s)
  {
  }

  // ---------------------------------------------------------------------
  // Array.BinarySearch(array, index, length, value), as the .NET library
  // implements it for an element type that is IComparable: the window is
  // [index, index + length), elements are compared with Fixed.CompareTo, a
  // hit returns its index and a miss returns the complement (~) of the
  // insertion point.
  // ---------------------------------------------------------------------

  /** The search loop over the inclusive window [lo, hi]; the probe
      `lo + ((hi - lo) >> 1)` is `lo + (hi - lo) / 2` on a non-empty window. */
  function SearchRange(a: seq<Fixed>, lo: int, hi: int, x: Fixed): (r: int)
    requires 0 <= lo <= hi + 1 <= |a|
    ensures r >= 0 ==> lo <= r <= hi && a[r] == x
    ensures r < 0 ==> lo <= -r - 1 <= hi + 1
    ensures r < 0 && Ascending(a) ==>
              (forall k :: lo <= k < -r - 1 ==> Precedes(a[k], x)) &&
              (forall k :: -r - 1 <= k <= hi ==> Precedes(x, a[k]))
    decreases |a| + hi - lo
  {
    if lo > hi then -lo - 1
    else
      var mid := lo + (hi - lo) / 2;
      assert lo <= mid <= hi;
      var c := CompareTo(a[mid], x);
      if c == 0 then mid
      else if c < 0 then SearchRange(a, mid + 1, hi, x)
      else SearchRange(a, lo, mid - 1, x)
  }

  /** The argument checks come first: a negative index or length, or a window
      that does not fit in the array, throws. */
  function BinarySearch(a: seq<Fixed>, index: int, length: int, x: Fixed): (r: Result<int>)
    ensures r.Failure? <==> index < 0 || length < 0 || |a| - index < length
    ensures r.Failure? ==> r.error == if index < 0 || length < 0 then ArgumentOutOfRange else Argument
  {
    if index < 0 || length < 0 then Failure(ArgumentOutOfRange)
    else if |a| - index < length then Failure(Argument)
    else Success(SearchRange(a, index, index + length - 1, x))
  }

  /** On an ascending array, a search over the whole array finds exactly the
      elements present. */
  lemma SearchFindsMembers(a: seq<Fixed>, x: Fixed)
    requires Ascending(a)
    ensures BinarySearch(a, 0, |a|, x).Success?
    ensures BinarySearch(a, 0, |a|, x).value >= 0 <==> x in a
  {
    var r := SearchRange(a, 0, |a| - 1, x);
  }

  // ---------------------------------------------------------------------
  // Missing
  // ---------------------------------------------------------------------

  /** The array `Missing` walks: `lhs` if strictly shorter, else `rhs`. */
  function Shorter(lhs: seq<Fixed>, rhs: seq<Fixed>): (r: seq<Fixed>)
    ensures |r| <= |lhs| && |r| <= |rhs|
  {
    if |lhs| < |rhs| then lhs else rhs
  }

  /** The array `Missing` searches in. When the lengths are equal, the source
      picks `lhs` unless both are the same array, in which case the contents
      are the same anyway. */
  function Longer(lhs: seq<Fixed>, rhs: seq<Fixed>): (r: seq<Fixed>)
    ensures |r| >= |lhs| && |r| >= |rhs|
  {
    if |lhs| < |rhs| then rhs else lhs
  }

  /** `Missing` walks one operand and searches the other. */
  lemma ShorterLongerOperands(lhs: seq<Fixed>, rhs: seq<Fixed>)
    ensures (Shorter(lhs, rhs) == lhs && Longer(lhs, rhs) == rhs) || (Shorter(lhs, rhs) == rhs && Longer(lhs, rhs) == lhs)
  {
  }

  /** The loop of `Missing` from iteration `i` on, with search start `j`. */
  function MissingFrom(shorter: seq<Fixed>, longer: seq<Fixed>, i: nat, j: int, missing: nat): (r: Result<nat>)
    requires i <= |shorter| && 0 <= j
    ensures r.Success? ==> missing <= r.value <= missing + |shorter| - i
    decreases |shorter| - i
  {
    if i == |shorter| then Success(missing)
    else
      match BinarySearch(longer, j, |longer|, shorter[i])
      case Failure(e) => Failure(e)
      case Success(k) =>
        if k < 0 then MissingFrom(shorter, longer, i + 1, -k - 1, missing + 1)
        else MissingFrom(shorter, longer, i + 1, k, missing)
  }

  /** `Missing(lhs, rhs)`. */
  function MissingCount(lhs: seq<Fixed>, rhs: seq<Fixed>): (r: Result<nat>)
    ensures r.Success? ==> r.value <= |lhs| && r.value <= |rhs|
  {
    MissingFrom(Shorter(lhs, rhs), Longer(lhs, rhs), 0, 0, 0)
  }

  /** How many entries of `s` do not occur in `t`. */
  function CountAbsent(s: seq<Fixed>, t: seq<Fixed>): nat {
    if s == [] then 0 else (if s[0] in t then 0 else 1) + CountAbsent(s[1..], t)
  }

  /** Every search before the last one leaves the search start at 0: the
      entry searched for does not come after the first entry of `longer`. */
  ghost predicate StaysAtStart(shorter: seq<Fixed>, longer: seq<Fixed>, i: nat)
    requires |shorter| <= |longer|
  {
    forall k :: i <= k < |shorter| - 1 ==> !Precedes(longer[0], shorter[k])
  }

  lemma {:induction false} MissingFromCharacterized(shorter: seq<Fixed>, longer: seq<Fixed>, i: nat, j: int, missing: nat)
    requires Ascending(longer) && |shorter| <= |longer|
    requires i <= |shorter| && 0 <= j
    ensures MissingFrom(shorter, longer, i, j, missing).Success? <==>
              i == |shorter| || (j == 0 && StaysAtStart(shorter, longer, i))
    ensures MissingFrom(shorter, longer, i, j, missing).Success? ==>
              MissingFrom(shorter, longer, i, j, missing).value == missing + CountAbsent(shorter[i..], longer)
    decreases |shorter| - i
  {
    if i == |shorter| {
      assert shorter[i..] == [];
    } else if j == 0 {
      var x := shorter[i];
      SearchFindsMembers(longer, x);
      var k := SearchRange(longer, 0, |longer| - 1, x);
      var next := if k < 0 then -k - 1 else k;
      assert next == 0 <==> !Precedes(longer[0], x) by {
        if k >= 0 {
          assert longer[k] == x;
          if k > 0 { assert Precedes(longer[0], longer[k]); }
        }
      }
      MissingFromCharacterized(shorter, longer, i + 1, next, if k < 0 then missing + 1 else missing);
      assert shorter[i..][0] == x && shorter[i..][1..] == shorter[i + 1..];
    }
  }

  /** `Missing` succeeds exactly when no search starts past index 0, and then
      it counts the entries of the shorter array that the longer one lacks. */
  lemma MissingCharacterized(lhs: seq<Fixed>, rhs: seq<Fixed>)
    requires Ascending(Longer(lhs, rhs))
    ensures MissingCount(lhs, rhs).Success? <==> StaysAtStart(Shorter(lhs, rhs), Longer(lhs, rhs), 0)
    ensures MissingCount(lhs, rhs).Success? ==>
              MissingCount(lhs, rhs).value == CountAbsent(Shorter(lhs, rhs), Longer(lhs, rhs))
  {
    MissingFromCharacterized(Shorter(lhs, rhs), Longer(lhs, rhs), 0, 0, 0);
    assert Shorter(lhs, rhs)[0..] == Shorter(lhs, rhs);
  }

  /** The window defect: once an entry after the first is found (or belongs
      after the first), the next search throws, so adding a three-currency
      value to itself fails. */
  lemma MissingFailsOnThreeEntries(a: seq<Fixed>)
    requires SortedByCurrency(a) && |a| >= 3
    ensures MissingCount(a, a) == Failure(Argument)
  {
    SortedIsAscending(a);
    MissingCharacterized(a, a);
    assert Precedes(a[0], a[1]);
    var r0 := SearchRange(a, 0, |a| - 1, a[0]);
    SearchFindsMembers(a, a[0]);
    assert a[r0].units == a[0].units;
    assert r0 == 0;
    var r1 := SearchRange(a, 0, |a| - 1, a[1]);
    SearchFindsMembers(a, a[1]);
    assert a[r1].units == a[1].units;
    assert r1 == 1;
    assert MissingFrom(a, a, 2, 1, 0) == Failure(Argument);
    assert MissingFrom(a, a, 1, 0, 0) == MissingFrom(a, a, 2, 1, 0);
  }

  // ---------------------------------------------------------------------
  // The three-cursor merge behind Add and Subtract
  // ---------------------------------------------------------------------

  datatype MergeOp = Sum | Difference

  /** What an equal pair of heads turns into. */
  function Combine(op: MergeOp, l: Fixed, r: Fixed): Fixed {
    match op
    case Sum => Plus(l, r)
    case Difference => Minus(l, r)
  }

  /** `n` default entries. */
  function Defaults(n: nat): (r: seq<Fixed>)
    ensures |r| == n
  {
    if n == 0 then [] else [Default] + Defaults(n - 1)
  }

  /** The merge loop from cursors `s` (into `lhs`) and `l` (into `rhs`),
      with `acc` already written and `n` slots in all. Both heads are read
      first, and reading past the end of either input throws. The `switch`
      on their comparison has cases -1, 0 and 1 only: -1 copies the left
      head and 0 combines both heads, each moving the cursors it reads; 1
      copies the right head. Any other comparison matches no case, so the
      slot keeps its default and no cursor moves. */
  function MergeFrom(lhs: seq<Fixed>, rhs: seq<Fixed>, s: nat, l: nat, acc: seq<Fixed>, n: nat, op: MergeOp): (r: Result<seq<Fixed>>)
    requires s <= |lhs| && l <= |rhs| && |acc| <= n
    ensures r.Success? ==> |r.value| == n && r.value[..|acc|] == acc
    ensures r.Failure? ==> r.error == IndexOutOfRange
    decreases n - |acc|
  {
    if |acc| == n then Success(acc)
    else if s == |lhs| || l == |rhs| then Failure(IndexOutOfRange)
    else
      var w := Step(lhs, rhs, s, l, op);
      MergeFrom(lhs, rhs, w.s, w.l, acc + [w.entry], n, op)
  }

  /** What one iteration of the merge writes, and where it leaves the cursors. */
  datatype Written = Written(entry: Fixed, s: nat, l: nat)

  /** One iteration of the merge loop: the `switch` on the heads' comparison. */
  function Step(lhs: seq<Fixed>, rhs: seq<Fixed>, s: nat, l: nat, op: MergeOp): (w: Written)
    requires s < |lhs| && l < |rhs|
    ensures s <= w.s <= s + 1 && l <= w.l <= l + 1
  {
    var c := CompareTo(lhs[s], rhs[l]);
    if c == -1 then Written(lhs[s], s + 1, l)
    else if c == 0 then Written(Combine(op, lhs[s], rhs[l]), s + 1, l + 1)
    else if c == 1 then Written(rhs[l], s, l + 1)
    else Written(Default, s, l)
  }

  /** The whole merge into `n` slots. */
  function Merge(lhs: seq<Fixed>, rhs: seq<Fixed>, n: nat, op: MergeOp): (r: Result<seq<Fixed>>)
    ensures r.Success? ==> |r.value| == n
    ensures r.Failure? ==> r.error == IndexOutOfRange
  {
    MergeFrom(lhs, rhs, 0, 0, [], n, op)
  }

  /** `Add(lhs, rhs)` and `Subtract(lhs, rhs)`: size the result with
      `Missing(lhs, rhs) + lhs.Length`, then merge. */
  function MergeValues(lhs: seq<Fixed>, rhs: seq<Fixed>, op: MergeOp): (r: Result<seq<Fixed>>)
    ensures MissingCount(lhs, rhs).Failure? ==> r == Failure(MissingCount(lhs, rhs).error)
    ensures MissingCount(lhs, rhs).Success? && r.Failure? ==> r.error == IndexOutOfRange
    ensures r.Success? ==> |r.value| == MissingCount(lhs, rhs).value + |lhs|
  {
    match MissingCount(lhs, rhs)
    case Failure(e) => Failure(e)
    case Success(m) => Merge(lhs, rhs, m + |lhs|, op)
  }

  lemma DefaultsAppended(acc: seq<Fixed>, m: nat)
    requires m >= 1
    ensures acc + [Default] + Defaults(m - 1) == acc + Defaults(m)
  {
    assert [Default] + Defaults(m - 1) == Defaults(m);
  }

  /** Two heads whose comparison is outside -1..1 stay where they are, so
      the merge fills every remaining slot with the default and completes. */
  lemma {:induction false} UnmatchedComparisonFillsDefaults(lhs: seq<Fixed>, rhs: seq<Fixed>, s: nat, l: nat, acc: seq<Fixed>, n: nat, op: MergeOp)
    requires s < |lhs| && l < |rhs| && |acc| <= n
    requires CompareTo(lhs[s], rhs[l]) < -1 || CompareTo(lhs[s], rhs[l]) > 1
    ensures MergeFrom(lhs, rhs, s, l, acc, n, op) == Success(acc + Defaults(n - |acc|))
    decreases n - |acc|
  {
    if |acc| < n {
      UnmatchedComparisonFillsDefaults(lhs, rhs, s, l, acc + [Default], n, op);
      DefaultsAppended(acc, n - |acc|);
    } else {
      assert acc + Defaults(0) == acc;
    }
  }

  /** When more slots remain than the two inputs can fill, a merge that
      completes has filled the slots past what the inputs could supply with
      defaults, left by a comparison that matched no case. */
  lemma {:induction false} MergeLeavesDefaultsPastInput(lhs: seq<Fixed>, rhs: seq<Fixed>, s: nat, l: nat, acc: seq<Fixed>, n: nat, op: MergeOp)
    requires s <= |lhs| && l <= |rhs| && |acc| <= n
    requires n - |acc| > (|lhs| - s) + (|rhs| - l)
    ensures MergeFrom(lhs, rhs, s, l, acc, n, op).Success? ==>
      forall k :: |acc| + (|lhs| - s) + (|rhs| - l) <= k < n ==> MergeFrom(lhs, rhs, s, l, acc, n, op).value[k] == Default
    decreases n - |acc|
  {
    if s < |lhs| && l < |rhs| {
      var c := CompareTo(lhs[s], rhs[l]);
      if c == -1 { MergeLeavesDefaultsPastInput(lhs, rhs, s + 1, l, acc + [lhs[s]], n, op); }
      else if c == 0 { MergeLeavesDefaultsPastInput(lhs, rhs, s + 1, l + 1, acc + [Combine(op, lhs[s], rhs[l])], n, op); }
      else if c == 1 { MergeLeavesDefaultsPastInput(lhs, rhs, s, l + 1, acc + [rhs[l]], n, op); }
      else {
        UnmatchedComparisonFillsDefaults(lhs, rhs, s, l, acc, n, op);
        DefaultsAreDefault(n - |acc|);
        var r := acc + Defaults(n - |acc|);
        forall k | |acc| <= k < n ensures r[k] == Default {
          assert r[k] == Defaults(n - |acc|)[k - |acc|];
        }
      }
    }
  }

  /** When more slots remain than the two inputs can fill and every
      comparison the merge can meet is -1, 0 or 1, the merge reads past the
      end of an input. */
  lemma {:induction false} MergeRunsOutOfInput(lhs: seq<Fixed>, rhs: seq<Fixed>, s: nat, l: nat, acc: seq<Fixed>, n: nat, op: MergeOp)
    requires s <= |lhs| && l <= |rhs| && |acc| <= n
    requires n - |acc| > (|lhs| - s) + (|rhs| - l)
    requires forall i, j :: s <= i < |lhs| && l <= j < |rhs| ==> -1 <= CompareTo(lhs[i], rhs[j]) <= 1
    ensures MergeFrom(lhs, rhs, s, l, acc, n, op) == Failure(IndexOutOfRange)
    decreases n - |acc|
  {
    if s < |lhs| && l < |rhs| {
      var c := CompareTo(lhs[s], rhs[l]);
      if c == -1 { MergeRunsOutOfInput(lhs, rhs, s + 1, l, acc + [lhs[s]], n, op); }
      else if c == 0 { MergeRunsOutOfInput(lhs, rhs, s + 1, l + 1, acc + [Combine(op, lhs[s], rhs[l])], n, op); }
      else {
        assert c == 1;
        MergeRunsOutOfInput(lhs, rhs, s, l + 1, acc + [rhs[l]], n, op);
      }
    }
  }

  /** On two one-entry values, `Add` and `Subtract` give one combined entry
      when the entries are identical. Otherwise the result is sized 2: when
      the currencies' ordinals are at most one apart the comparison is -1
      or 1 and the merge reads past the end of an input; when they are two
      or more apart no case matches and both slots keep their defaults. */
  lemma SingleEntryMerge(x: Fixed, y: Fixed, op: MergeOp)
    ensures MergeValues([x], [y], op) ==
              if x == y then Success([Combine(op, x, y)])
              else if x.units + 1 < y.units || y.units + 1 < x.units then Success([Default, Default])
              else Failure(IndexOutOfRange)
  {
    assert Shorter([x], [y]) == [y] && Longer([x], [y]) == [x];
    var k := SearchRange([x], 0, 0, y);
    if x == y {
      assert k == 0;
      assert BinarySearch([x], 0, 1, y) == Success(0);
      assert MissingCount([x], [y]) == MissingFrom([y], [x], 1, 0, 0) == Success(0);
      assert CompareTo(x, y) == 0;
      assert MergeFrom([x], [y], 0, 0, [], 1, op) == MergeFrom([x], [y], 1, 1, [Combine(op, x, y)], 1, op);
    } else {
      assert k < 0;
      assert MissingCount([x], [y]) == MissingFrom([y], [x], 1, -k - 1, 1) == Success(1);
      var c := CompareTo(x, y);
      if c == -1 {
        assert MergeFrom([x], [y], 0, 0, [], 2, op) == MergeFrom([x], [y], 1, 0, [x], 2, op);
      } else if c == 1 {
        assert MergeFrom([x], [y], 0, 0, [], 2, op) == MergeFrom([x], [y], 0, 1, [y], 2, op);
      } else {
        UnmatchedComparisonFillsDefaults([x], [y], 0, 0, [], 2, op);
        assert Defaults(2) == [Default] + Defaults(1) == [Default, Default];
      }
    }
  }

  /** Every entry from index `from` on is `d`. */
  ghost predicate RepeatsFrom(s: seq<Fixed>, from: nat, d: Fixed) {
    forall k :: from <= k < |s| ==> s[k] == d
  }

  /** Every entry from index `from` on is the default. */
  ghost predicate DefaultsFrom(s: seq<Fixed>, from: nat) {
    RepeatsFrom(s, from, Default)
  }

  /** The values the public operations can build: one entry, or two or more
      default entries (what a merge leaves behind when no case matches). */
  ghost predicate OneEntryOrDefaults(s: seq<Fixed>) {
    |s| == 1 || (|s| >= 2 && DefaultsFrom(s, 0))
  }

  lemma {:induction false} DefaultsAreDefault(n: nat)
    ensures DefaultsFrom(Defaults(n), 0)
  {
    if n > 0 {
      DefaultsAreDefault(n - 1);
      assert forall k :: 1 <= k < n ==> Defaults(n)[k] == Defaults(n - 1)[k - 1];
    }
  }

  /** A default plus or minus a default is the default. */
  lemma CombineDefaults(op: MergeOp)
    ensures Combine(op, Default, Default) == Default
  {
    assert Plus(Default, Default) == Default;
  }

  /** A merge that completes writes `acc` first; when the entry it writes
      at `|acc|` and every later one is `d`, so is every entry from `|acc|` on. */
  lemma RepeatsAfterPrefix(q: seq<Fixed>, acc: seq<Fixed>, d: Fixed)
    requires |acc| < |q| && q[..|acc| + 1] == acc + [d]
    requires RepeatsFrom(q, |acc| + 1, d)
    ensures RepeatsFrom(q, |acc|, d)
  {
    assert q[|acc|] == d;
  }

  /** Two heads equal to `d`, where `d` combined with itself is `d`: one
      step writes `d` and moves both cursors. */
  lemma RepeatedHeadsCombine(lhs: seq<Fixed>, rhs: seq<Fixed>, s: nat, l: nat, acc: seq<Fixed>, n: nat, op: MergeOp, d: Fixed)
    requires s < |lhs| && l < |rhs| && |acc| < n
    requires lhs[s] == d && rhs[l] == d && Combine(op, d, d) == d
    ensures MergeFrom(lhs, rhs, s, l, acc, n, op) == MergeFrom(lhs, rhs, s + 1, l + 1, acc + [d], n, op)
  {
  }

  /** Merging two inputs that repeat `d` gives nothing but `d`: every
      comparison is 0 and `d` combined with itself is `d`. */
  lemma {:induction false} MergeOfRepeats(lhs: seq<Fixed>, rhs: seq<Fixed>, s: nat, l: nat, acc: seq<Fixed>, n: nat, op: MergeOp, d: Fixed)
    requires s <= |lhs| && l <= |rhs| && |acc| <= n
    requires RepeatsFrom(lhs, s, d) && RepeatsFrom(rhs, l, d) && Combine(op, d, d) == d
    ensures MergeFrom(lhs, rhs, s, l, acc, n, op).Success? ==>
      RepeatsFrom(MergeFrom(lhs, rhs, s, l, acc, n, op).value, |acc|, d)
    decreases n - |acc|
  {
    if |acc| < n && s < |lhs| && l < |rhs| {
      var acc' := acc + [d];
      MergeOfRepeats(lhs, rhs, s + 1, l + 1, acc', n, op, d);
      RepeatedHeadsCombine(lhs, rhs, s, l, acc, n, op, d);
      var next := MergeFrom(lhs, rhs, s + 1, l + 1, acc', n, op);
      if next.Success? {
        RepeatsAfterPrefix(next.value, acc, d);
      }
    }
  }

  /** A left head that `d` precedes, with only `d` left on the right: each
      step copies a right-hand `d`. */
  lemma {:induction false} CopiesRightRepeats(lhs: seq<Fixed>, rhs: seq<Fixed>, s: nat, l: nat, acc: seq<Fixed>, n: nat, op: MergeOp, d: Fixed)
    requires s < |lhs| && l <= |rhs| && |acc| <= n
    requires CompareTo(lhs[s], d) == 1 && RepeatsFrom(rhs, l, d)
    ensures MergeFrom(lhs, rhs, s, l, acc, n, op).Success? ==>
      RepeatsFrom(MergeFrom(lhs, rhs, s, l, acc, n, op).value, |acc|, d)
    decreases n - |acc|
  {
    if |acc| < n && l < |rhs| {
      var acc' := acc + [d];
      CopiesRightRepeats(lhs, rhs, s, l + 1, acc', n, op, d);
      assert MergeFrom(lhs, rhs, s, l, acc, n, op) == MergeFrom(lhs, rhs, s, l + 1, acc', n, op);
      var next := MergeFrom(lhs, rhs, s, l + 1, acc', n, op);
      if next.Success? {
        RepeatsAfterPrefix(next.value, acc, d);
      }
    }
  }

  /** A right head that `d` precedes, with only `d` left on the left: each
      step copies a left-hand `d`. */
  lemma {:induction false} CopiesLeftRepeats(lhs: seq<Fixed>, rhs: seq<Fixed>, s: nat, l: nat, acc: seq<Fixed>, n: nat, op: MergeOp, d: Fixed)
    requires s <= |lhs| && l < |rhs| && |acc| <= n
    requires CompareTo(d, rhs[l]) == -1 && RepeatsFrom(lhs, s, d)
    ensures MergeFrom(lhs, rhs, s, l, acc, n, op).Success? ==>
      RepeatsFrom(MergeFrom(lhs, rhs, s, l, acc, n, op).value, |acc|, d)
    decreases n - |acc|
  {
    if |acc| < n && s < |lhs| {
      var acc' := acc + [d];
      CopiesLeftRepeats(lhs, rhs, s + 1, l, acc', n, op, d);
      assert MergeFrom(lhs, rhs, s, l, acc, n, op) == MergeFrom(lhs, rhs, s + 1, l, acc', n, op);
      var next := MergeFrom(lhs, rhs, s + 1, l, acc', n, op);
      if next.Success? {
        RepeatsAfterPrefix(next.value, acc, d);
      }
    }
  }

  /** A one-entry left operand whose entry precedes the right head: the
      entry is copied, and the merge completes only if that fills it. */
  lemma EntryBeforeRight(y: Fixed, rhs: seq<Fixed>, n: nat, op: MergeOp)
    requires n >= 1 && |rhs| >= 1 && CompareTo(y, rhs[0]) == -1
    ensures Merge([y], rhs, n, op) == if n == 1 then Success([y]) else Failure(IndexOutOfRange)
  {
    assert MergeFrom([y], rhs, 0, 0, [], n, op) == MergeFrom([y], rhs, 1, 0, [y], n, op);
  }

  /** A one-entry right operand whose entry precedes the left head: the
      entry is copied, and the merge completes only if that fills it. */
  lemma EntryBeforeLeft(lhs: seq<Fixed>, y: Fixed, n: nat, op: MergeOp)
    requires n >= 1 && |lhs| >= 1 && CompareTo(lhs[0], y) == 1
    ensures Merge(lhs, [y], n, op) == if n == 1 then Success([y]) else Failure(IndexOutOfRange)
  {
    assert MergeFrom(lhs, [y], 0, 0, [], n, op) == MergeFrom(lhs, [y], 0, 1, [y], n, op);
  }

  /** Heads whose comparison matches no case: the merge completes with
      defaults only. */
  lemma UnmatchedHeadsGiveDefaults(lhs: seq<Fixed>, rhs: seq<Fixed>, n: nat, op: MergeOp)
    requires |lhs| >= 1 && |rhs| >= 1
    requires CompareTo(lhs[0], rhs[0]) < -1 || CompareTo(lhs[0], rhs[0]) > 1
    ensures Merge(lhs, rhs, n, op).Success? && DefaultsFrom(Merge(lhs, rhs, n, op).value, 0)
  {
    UnmatchedComparisonFillsDefaults(lhs, rhs, 0, 0, [], n, op);
    assert [] + Defaults(n) == Defaults(n);
    DefaultsAreDefault(n);
  }

  /** A one-entry left operand against a right operand that repeats `d`,
      where `d` combined with itself is `d`: the result, if any, is the
      entry alone, `d` repeated, or defaults only. */
  lemma EntryAgainstRepeats(y: Fixed, rhs: seq<Fixed>, n: nat, op: MergeOp, d: Fixed)
    requires n >= 1 && RepeatsFrom(rhs, 0, d) && Combine(op, d, d) == d
    ensures Merge([y], rhs, n, op).Success? ==>
      var v := Merge([y], rhs, n, op).value;
      v == [y] || RepeatsFrom(v, 0, d) || DefaultsFrom(v, 0)
  {
    if |rhs| == 0 {
      assert Merge([y], rhs, n, op).Failure?;
    } else {
      var c := CompareTo(y, d);
      if c == 0 {
        MergeOfRepeats([y], rhs, 0, 0, [], n, op, d);
      } else if c == -1 {
        EntryBeforeRight(y, rhs, n, op);
      } else if c == 1 {
        CopiesRightRepeats([y], rhs, 0, 0, [], n, op, d);
      } else {
        UnmatchedHeadsGiveDefaults([y], rhs, n, op);
      }
    }
  }

  /** A left operand that repeats `d` against a one-entry right operand,
      where `d` combined with itself is `d`: the result, if any, is the
      entry alone, `d` repeated, or defaults only. */
  lemma RepeatsAgainstEntry(lhs: seq<Fixed>, y: Fixed, n: nat, op: MergeOp, d: Fixed)
    requires n >= 1 && RepeatsFrom(lhs, 0, d) && Combine(op, d, d) == d
    ensures Merge(lhs, [y], n, op).Success? ==>
      var v := Merge(lhs, [y], n, op).value;
      v == [y] || RepeatsFrom(v, 0, d) || DefaultsFrom(v, 0)
  {
    if |lhs| == 0 {
      assert Merge(lhs, [y], n, op).Failure?;
    } else {
      var c := CompareTo(d, y);
      if c == 0 {
        MergeOfRepeats(lhs, [y], 0, 0, [], n, op, d);
      } else if c == 1 {
        EntryBeforeLeft(lhs, y, n, op);
      } else if c == -1 {
        CopiesLeftRepeats(lhs, [y], 0, 0, [], n, op, d);
      } else {
        UnmatchedHeadsGiveDefaults(lhs, [y], n, op);
      }
    }
  }

  /** Two one-entry operands merge into one entry or two defaults. */
  lemma SingleEntriesKeepShape(lhs: seq<Fixed>, rhs: seq<Fixed>, op: MergeOp)
    requires |lhs| == 1 && |rhs| == 1 && MergeValues(lhs, rhs, op).Success?
    ensures OneEntryOrDefaults(MergeValues(lhs, rhs, op).value)
  {
    var x, y := lhs[0], rhs[0];
    assert lhs == [x] && rhs == [y];
    SingleEntryMerge(x, y, op);
    var v := MergeValues(lhs, rhs, op).value;
    if x != y {
      assert v[0] == Default && v[1] == Default;
    }
  }

  /** Operands each of which is one entry or repeats `d`, not both one
      entry, where `d` combined with itself is `d`: the merge into any number
      of slots gives, if anything, one entry, `d` repeated, or defaults only. */
  lemma RepeatsKeepShape(lhs: seq<Fixed>, rhs: seq<Fixed>, n: nat, op: MergeOp, d: Fixed)
    requires |lhs| == 1 || RepeatsFrom(lhs, 0, d)
    requires |rhs| == 1 || RepeatsFrom(rhs, 0, d)
    requires !(|lhs| == 1 && |rhs| == 1)
    requires n >= 1 && Combine(op, d, d) == d
    ensures Merge(lhs, rhs, n, op).Success? ==>
      var v := Merge(lhs, rhs, n, op).value;
      |v| == 1 || RepeatsFrom(v, 0, d) || DefaultsFrom(v, 0)
  {
    if |lhs| == 1 {
      assert lhs == [lhs[0]];
      EntryAgainstRepeats(lhs[0], rhs, n, op, d);
    } else if |rhs| == 1 {
      assert rhs == [rhs[0]];
      RepeatsAgainstEntry(lhs, rhs[0], n, op, d);
    } else {
      MergeOfRepeats(lhs, rhs, 0, 0, [], n, op, d);
    }
  }

  /** `Add` and `Subtract` keep the shape of the values the public
      operations build. */
  lemma MergeKeepsShape(lhs: seq<Fixed>, rhs: seq<Fixed>, op: MergeOp)
    requires OneEntryOrDefaults(lhs) && OneEntryOrDefaults(rhs)
    requires MergeValues(lhs, rhs, op).Success?
    ensures OneEntryOrDefaults(MergeValues(lhs, rhs, op).value)
  {
    if |lhs| == 1 && |rhs| == 1 {
      SingleEntriesKeepShape(lhs, rhs, op);
    } else {
      var n := MissingCount(lhs, rhs).value + |lhs|;
      assert n >= 1 && MergeValues(lhs, rhs, op) == Merge(lhs, rhs, n, op);
      CombineDefaults(op);
      RepeatsKeepShape(lhs, rhs, n, op, Default);
    }
  }

  /** Scaling keeps the shape: a default scaled is still the default. */
  lemma ScaleKeepsShape(s: seq<Fixed>, constant: real)
    requires OneEntryOrDefaults(s)
    ensures OneEntryOrDefaults(ScaleAll(s, constant))
  {
  }

  /** Dividing keeps the shape too: a default divided is still the default. */
  lemma DivideKeepsShape(s: seq<Fixed>, constant: real)
    requires constant != 0.0
    requires OneEntryOrDefaults(s)
    ensures OneEntryOrDefaults(DivideAll(s, constant))
  {
    var r := DivideAll(s, constant);
    assert |r| == |s|;
    if |s| >= 2 {
      forall k | 0 <= k < |r| ensures r[k] == Default {
        assert ScaleAll(r, constant)[k] == s[k];
        assert r[k].value * constant == 0.0;
      }
    }
  }

  /** Sum of the amounts held in `units`. */
  function Total(s: seq<Fixed>, units: nat): real {
    if s == [] then 0.0 else (if s[0].units == units then s[0].value else 0.0) + Total(s[1..], units)
  }

  /** A right-hand entry whose currency the left lacks is copied without its
      sign changed, and the right-hand entry of the shared currency is lost:
      for adjacent currencies A < B, [b of B] - [a of A, b of B] gives
      [+a of A], where the difference holds -a of A. */
  lemma SubtractKeepsRightOnlySign(a: Fixed, b: Fixed)
    requires b.units == a.units + 1 && a.value != 0.0
    ensures MergeValues([b], [a, b], Difference) == Success([a])
    ensures Total([a], a.units) != Total([b], a.units) - Total([a, b], a.units)
  {
    var l, r := [b], [a, b];
    assert Shorter(l, r) == l && Longer(l, r) == r;
    assert CompareTo(r[0], b) == -1 && CompareTo(r[1], b) == 0;
    assert SearchRange(r, 1, 1, b) == 1;
    assert SearchRange(r, 0, 1, b) == 1;
    assert MissingFrom(l, r, 1, 1, 0) == Success(0);
    assert MissingCount(l, r) == Success(0);
    assert CompareTo(b, a) == 1;
    assert MergeFrom(l, r, 0, 1, [a], 1, Difference) == Success([a]);
    assert MergeFrom(l, r, 0, 0, [], 1, Difference) == MergeFrom(l, r, 0, 1, [a], 1, Difference);
    assert Total([a, b], a.units) == a.value + Total([b], a.units);
  }

  // ---------------------------------------------------------------------
  // Scaling
  // ---------------------------------------------------------------------

  /** Every entry scaled by `constant`, in place. */
  function ScaleAll(s: seq<Fixed>, constant: real): (r: seq<Fixed>)
    ensures |r| == |s|
    ensures forall i :: 0 <= i < |s| ==> r[i].units == s[i].units && r[i].value == s[i].value * constant
  {
    seq(|s|, i requires 0 <= i < |s| => FixedPoint.Multiply(s[i], constant))
  }

  /** Every entry divided by a non-zero `constant`. */
  function DivideAll(s: seq<Fixed>, constant: real): (r: seq<Fixed>)
    requires constant != 0.0
    ensures |r| == |s|
    ensures ScaleAll(r, constant) == s
  {
    var r := seq(|s|, i requires 0 <= i < |s| => FixedPoint.Divide(s[i], constant));
    assert forall i :: 0 <= i < |s| ==> FixedPoint.Multiply(r[i], constant) == s[i];
    r
  }

  /** Scaling keeps the currencies, hence the sorted-by-currency invariant. */
  lemma ScaleAllKeepsOrder(s: seq<Fixed>, constant: real)
    requires SortedByCurrency(s)
    ensures SortedByCurrency(ScaleAll(s, constant))
  {
  }

  // ---------------------------------------------------------------------
  // Insert
  // ---------------------------------------------------------------------

  /** What `Insert(source, i, item)` builds: the head of `source`, the item,
      then `source` copied again FROM INDEX 0, not from `i`. */
  function InsertedAsWritten<T>(source: seq<T>, i: nat, item: T): (r: seq<T>)
    requires i <= |source|
    ensures |r| == |source| + 1 && r[i] == item
    ensures r[..i] == source[..i]
  {
    source[..i] + [item] + source[..|source| - i]
  }

  /** The result is the true insertion only when the copied tail happens to
      be the right one, which always holds at index 0. */
  lemma InsertedAsWrittenIsInsertionIff<T>(source: seq<T>, i: nat, item: T)
    requires i <= |source|
    ensures (InsertedAsWritten(source, i, item) == source[..i] + [item] + source[i..])
              <==> (source[..|source| - i] == source[i..])
    ensures InsertedAsWritten(source, 0, item) == [item] + source
  {
    var w := InsertedAsWritten(source, i, item);
    if w == source[..i] + [item] + source[i..] {
      assert w[i + 1..] == source[..|source| - i];
      assert (source[..i] + [item] + source[i..])[i + 1..] == source[i..];
    }
    assert source[..|source| - 0] == source;
  }

  /** A concrete case: inserting x at index 1 of [a, b] gives [a, x, a]. */
  lemma InsertCopiesTailFromStart()
    ensures InsertedAsWritten([10, 20], 1, 99) == [10, 99, 10]
  {
  }

  // ---------------------------------------------------------------------
  // The array methods
  // ---------------------------------------------------------------------

  /** `Insert`: a fresh array one longer than `source`. The first
      `Array.Copy` throws on a negative count, and on a count past the end
      of `source`. */
  method Insert<T(0)>(source: array<T>, i: int, item: T) returns (r: Result<array<T>>)
    ensures i < 0 ==> r == Failure(ArgumentOutOfRange)
    ensures i > source.Length ==> r == Failure(Argument)
    ensures 0 <= i <= source.Length ==>
      r.Success? && fresh(r.value) && r.value[..] == InsertedAsWritten(source[..], i, item)
  {
    if i < 0 {
      return Failure(ArgumentOutOfRange);
    }
    if i > source.Length {
      return Failure(Argument);
    }
    var arr := new T[source.Length + 1];
    forall k | 0 <= k < i {
      arr[k] := source[k];
    }
    arr[i] := item;
    forall k | i + 1 <= k < arr.Length {
      arr[k] := source[k - (i + 1)];
    }
    assert arr[..] == source[..i] + [item] + source[..source.Length - i];
    return Success(arr);
  }

  /** `Missing`: walks the shorter array, binary-searching each entry in the
      longer one from the last position found. */
  method Missing(lhs: array<Fixed>, rhs: array<Fixed>) returns (r: Result<nat>)
    ensures r == MissingCount(lhs[..], rhs[..])
  {
    var shorter := if lhs.Length < rhs.Length then lhs else rhs;
    var longer := if shorter == lhs then rhs else lhs;
    assert shorter[..] == Shorter(lhs[..], rhs[..]) && longer[..] == Longer(lhs[..], rhs[..]);
    r := CountMissing(shorter, longer);
  }

  /** The loop of `Missing` over the array it walks and the one it searches. */
  method CountMissing(shorter: array<Fixed>, longer: array<Fixed>) returns (r: Result<nat>)
    ensures r == MissingFrom(shorter[..], longer[..], 0, 0, 0)
  {
    ghost var walked, searched := shorter[..], longer[..];
    ghost var goal := MissingFrom(walked, searched, 0, 0, 0);
    var missing := 0;
    var i, j := 0, 0;
    while i < shorter.Length
      invariant 0 <= i <= shorter.Length && 0 <= j
      invariant MissingFrom(walked, searched, i, j, missing) == goal
    {
      var x := shorter[i];
      var found := BinarySearch(longer[..], j, longer.Length, x);
      assert x == walked[i];
      if found.Failure? {
        return Failure(found.error);
      }
      j := found.value;
      if j < 0 {
        missing := missing + 1;
        j := -j - 1;
      }
      i := i + 1;
    }
    return Success(missing);
  }

  /** The merge loop of `Add` and `Subtract`, which differ only in what two
      equal heads turn into: fills the zeroed slots of `arr` from the two
      cursors, and throws on reading past the end of an input. */
  method MergeInto(lhs: array<Fixed>, rhs: array<Fixed>, arr: array<Fixed>, op: MergeOp) returns (ok: bool)
    requires arr != lhs && arr != rhs
    requires forall k :: 0 <= k < arr.Length ==> arr[k] == Default
    modifies arr
    ensures ok ==> Merge(lhs[..], rhs[..], arr.Length, op) == Success(arr[..])
    ensures !ok ==> Merge(lhs[..], rhs[..], arr.Length, op) == Failure(IndexOutOfRange)
  {
    ghost var left, right := lhs[..], rhs[..];
    ghost var goal := Merge(left, right, arr.Length, op);
    ghost var written: seq<Fixed> := [];
    var i, s, l := 0, 0, 0;
    while i < arr.Length
      invariant 0 <= i <= arr.Length && 0 <= s <= lhs.Length && 0 <= l <= rhs.Length
      invariant forall k :: i <= k < arr.Length ==> arr[k] == Default
      invariant |written| == i && forall k :: 0 <= k < i ==> arr[k] == written[k]
      invariant goal == MergeFrom(left, right, s, l, written, arr.Length, op)
    {
      if s == lhs.Length || l == rhs.Length {
        return false;
      }
      var c := CompareTo(lhs[s], rhs[l]);
      if c == -1 {
        arr[i] := lhs[s];
        s := s + 1;
      } else if c == 0 {
        arr[i] := Combine(op, lhs[s], rhs[l]);
        s, l := s + 1, l + 1;
      } else if c == 1 {
        arr[i] := rhs[l];
        l := l + 1;
      }
      written := written + [arr[i]];
      i := i + 1;
    }
    assert arr[..] == written;
    return true;
  }

  /** `Add`: allocates `Missing(lhs, rhs) + lhs.Length` zeroed slots and
      fills them with the merge, equal heads giving `lhs + rhs`. */
  method Add(lhs: array<Fixed>, rhs: array<Fixed>) returns (r: Result<array<Fixed>>)
    ensures r.Failure? ==> MergeValues(lhs[..], rhs[..], Sum) == Failure(r.error)
    ensures r.Success? ==> fresh(r.value) && MergeValues(lhs[..], rhs[..], Sum) == Success(r.value[..])
  {
    var missing := Missing(lhs, rhs);
    if missing.Failure? {
      return Failure(missing.error);
    }
    var arr := new Fixed[missing.value + lhs.Length](_ => Default);
    var ok := MergeInto(lhs, rhs, arr, Sum);
    if !ok {
      return Failure(IndexOutOfRange);
    }
    return Success(arr);
  }

  /** `Subtract`: the same merge, but equal heads give `lhs - rhs`. */
  method Subtract(lhs: array<Fixed>, rhs: array<Fixed>) returns (r: Result<array<Fixed>>)
    ensures r.Failure? ==> MergeValues(lhs[..], rhs[..], Difference) == Failure(r.error)
    ensures r.Success? ==> fresh(r.value) && MergeValues(lhs[..], rhs[..], Difference) == Success(r.value[..])
  {
    var missing := Missing(lhs, rhs);
    if missing.Failure? {
      return Failure(missing.error);
    }
    var arr := new Fixed[missing.value + lhs.Length](_ => Default);
    var ok := MergeInto(lhs, rhs, arr, Difference);
    if !ok {
      return Failure(IndexOutOfRange);
    }
    return Success(arr);
  }

  /** `Multiply`: a fresh array with every entry scaled, units unchanged. */
  method Multiply(values: array<Fixed>, constant: real) returns (arr: array<Fixed>)
    ensures fresh(arr) && arr[..] == ScaleAll(values[..], constant)
  {
    arr := new Fixed[values.Length];
    var i := 0;
    while i < arr.Length
      invariant 0 <= i <= arr.Length
      invariant forall k :: 0 <= k < i ==> arr[k] == FixedPoint.Multiply(values[k], constant)
    {
      arr[i] := FixedPoint.Multiply(values[i], constant);
      i := i + 1;
    }
  }

  /** `Divide`: a fresh array with every entry divided; the constant must
      not be zero. */
  method Divide(values: array<Fixed>, constant: real) returns (arr: array<Fixed>)
    requires constant != 0.0
    ensures fresh(arr) && arr[..] == DivideAll(values[..], constant)
  {
    arr := new Fixed[values.Length];
    var i := 0;
    while i < arr.Length
      invariant 0 <= i <= arr.Length
      invariant forall k :: 0 <= k < i ==> arr[k] == FixedPoint.Divide(values[k], constant)
    {
      arr[i] := FixedPoint.Divide(values[i], constant);
      i := i + 1;
    }
  }
}
