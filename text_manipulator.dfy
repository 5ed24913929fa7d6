/** The text manipulator: pulls the digits out of free text, finds the
    fragments of a text that look like numbers, and marks every occurrence of
    a fragment inside a text. All three operations are pure functions of
    their arguments. */
module TextManipulator {
  import opened Common

  // ---------------------------------------------------------------------
  // extractNumberFromText
  // ---------------------------------------------------------------------

  /** The digits of `s`, in their original order. */
  function Digits(s: string): (d: string)
    ensures AllDigits(d) && |d| <= |s|
    decreases |s|
  {
    if s == [] then []
    else (if IsDigit(s[0]) then [s[0]] else []) + Digits(s[1..])
  }

  /** Taking digits distributes over concatenation; with `Digits([c])` being
      `[c]` for a digit and `[]` otherwise, this pins `Digits` down: the
      result is the input's digits, in order, and nothing else. */
  lemma {:induction false} DigitsConcat(a: string, b: string)
    ensures Digits(a + b) == Digits(a) + Digits(b)
    decreases |a|
  {
    if a == [] {
      assert a + b == b;
    } else {
      var head := if IsDigit(a[0]) then [a[0]] else [];
      assert (a + b)[0] == a[0] && (a + b)[1..] == a[1..] + b;
      DigitsConcat(a[1..], b);
      assert Digits(a + b) == head + (Digits(a[1..]) + Digits(b));
      assert Digits(a) == head + Digits(a[1..]);
    }
  }

  /** A digit string is its own digits, and a string without digits has none. */
  lemma {:induction false} DigitsExact(s: string)
    ensures AllDigits(s) ==> Digits(s) == s
    ensures Digits(s) == [] <==> NoDigit(s)
    decreases |s|
  {
    if s != [] {
      DigitsExact(s[1..]);
      assert s == [s[0]] + s[1..];
      if !IsDigit(s[0]) && NoDigit(s[1..]) {
        forall k | 0 <= k < |s| ensures !IsDigit(s[k]) {
          if k > 0 { assert s[k] == s[1..][k - 1]; }
        }
      }
    }
  }

  /** The digits of `text`, or None when it holds no digit at all. */
  function ExtractNumberFromText(text: string): (r: Option<string>)
    ensures r.None? <==> NoDigit(text)
    ensures r.Some? ==> |r.value| > 0 && AllDigits(r.value) && r.value == Digits(text)
  {
    DigitsExact(text);
    var d := Digits(text);
    if d == [] then None else Some(d)
  }

  // ---------------------------------------------------------------------
  // getSuspectedFragments
  // ---------------------------------------------------------------------

  /** Strict scanning (check level 1, the default) keeps digits only;
      permissive scanning (check level 2) also lets a space, a dash or a
      period stand between two digits of one fragment. */
  datatype Strictness = Strict | Permissive

  /** Level 2 is permissive; the default level, level 1 and every other
      level are strict. */
  function ModeOf(level: Option<int>): (mode: Strictness)
    ensures level == None || level == Some(1) ==> mode == Strict
    ensures level == Some(2) ==> mode == Permissive
    ensures level.Some? && level.value != 2 ==> mode == Strict
  {
    if level == Some(2) then Permissive else Strict
  }

  predicate IsSeparator(c: char, mode: Strictness) {
    mode == Permissive && (c == ' ' || c == '-' || c == '.')
  }

  predicate InFragment(c: char, mode: Strictness) {
    IsDigit(c) || IsSeparator(c, mode)
  }

  /** A fragment starts and ends with a digit and holds nothing but digits
      and the mode's separators. */
  predicate IsFragment(f: string, mode: Strictness) {
    && |f| > 0 && IsDigit(f[0]) && IsDigit(f[|f| - 1])
    && forall k :: 0 <= k < |f| ==> InFragment(f[k], mode)
  }

  /** The position of the first digit of `s` at or after `i`, or |s| when
      there is none. */
  function NextDigit(s: string, i: nat): (j: nat)
    requires i <= |s|
    ensures i <= j <= |s|
    ensures forall k :: i <= k < j ==> !IsDigit(s[k])
    ensures j < |s| ==> IsDigit(s[j])
    decreases |s| - i
  {
    if i == |s| || IsDigit(s[i]) then i else NextDigit(s, i + 1)
  }

  /** The end of the run of separators that starts at position `i`. */
  function SeparatorsEnd(s: string, i: nat, mode: Strictness): (j: nat)
    requires i <= |s|
    ensures i <= j <= |s|
    ensures forall k :: i <= k < j ==> IsSeparator(s[k], mode)
    ensures j < |s| ==> !IsSeparator(s[j], mode)
    decreases |s| - i
  {
    if i < |s| && IsSeparator(s[i], mode) then SeparatorsEnd(s, i + 1, mode) else i
  }

  /** No digit can be reached from position `i` through separators alone,
      so a fragment that ends at `i` cannot grow past it. */
  predicate BlockedAt(s: string, i: nat, mode: Strictness)
    requires i <= |s|
  {
    var j := SeparatorsEnd(s, i, mode);
    j == |s| || !IsDigit(s[j])
  }

  /** `s[i..e]` is a fragment. */
  predicate FragmentAt(s: string, i: nat, e: nat, mode: Strictness) {
    && i < e <= |s| && IsDigit(s[i]) && IsDigit(s[e - 1])
    && forall k :: i <= k < e ==> InFragment(s[k], mode)
  }

  lemma FragmentAtSlice(s: string, i: nat, e: nat, mode: Strictness)
    requires i <= e <= |s|
    ensures FragmentAt(s, i, e, mode) <==> IsFragment(s[i..e], mode)
  {
    assert forall k :: 0 <= k < e - i ==> s[i..e][k] == s[i + k];
    if IsFragment(s[i..e], mode) {
      forall k | i <= k < e ensures InFragment(s[k], mode) {
        assert s[k] == s[i..e][k - i];
      }
    }
  }

  /** The end of the longest fragment that starts at the digit at `i`:
      digit groups joined by separators, ending on a digit. */
  function FragmentEnd(s: string, i: nat, mode: Strictness): (e: nat)
    requires i < |s| && IsDigit(s[i])
    ensures FragmentAt(s, i, e, mode) && BlockedAt(s, e, mode)
    decreases |s| - i
  {
    var j := SeparatorsEnd(s, i + 1, mode);
    if j < |s| && IsDigit(s[j]) then FragmentEnd(s, j, mode) else i + 1
  }

  /** The fragments of `s` from position `i` on, left to right. */
  function FragmentsFrom(s: string, i: nat, mode: Strictness): seq<string>
    requires i <= |s|
    decreases |s| - i
  {
    var g := NextDigit(s, i);
    if g == |s| then []
    else
      var e := FragmentEnd(s, g, mode);
      [s[g..e]] + FragmentsFrom(s, e, mode)
  }

  /** The text around and between the fragments of `s` from position `i` on. */
  ghost function GapsFrom(s: string, i: nat, mode: Strictness): seq<string>
    requires i <= |s|
    decreases |s| - i
  {
    var g := NextDigit(s, i);
    if g == |s| then [s[i..]]
    else
      var e := FragmentEnd(s, g, mode);
      [s[i..g]] + GapsFrom(s, e, mode)
  }

  /** gaps[0] + frags[0] + gaps[1] + ... + frags[k-1] + gaps[k]. */
  function Interleave(gaps: seq<string>, frags: seq<string>): string
    requires |gaps| == |frags| + 1
    decreases |frags|
  {
    if frags == [] then gaps[0]
    else gaps[0] + frags[0] + Interleave(gaps[1..], frags[1..])
  }

  /** Some character of `g` can belong to no fragment. */
  predicate HasOutsider(g: string, mode: Strictness) {
    exists k :: 0 <= k < |g| && !InFragment(g[k], mode)
  }

  /** `frags` are the maximal fragments of `s` and `gaps` the text around
      them: `s` is the two interleaved, every fragment is a fragment, no gap
      holds a digit, and every gap between two fragments holds a character
      that no fragment may contain (so the two cannot be merged). */
  ghost predicate IsFragmentation(s: string, gaps: seq<string>, frags: seq<string>, mode: Strictness) {
    && |gaps| == |frags| + 1
    && Interleave(gaps, frags) == s
    && (forall i :: 0 <= i < |frags| ==> IsFragment(frags[i], mode))
    && (forall j :: 0 <= j < |gaps| ==> NoDigit(gaps[j]))
    && (forall j :: 0 < j < |frags| ==> HasOutsider(gaps[j], mode))
  }

  /** A gap and a fragment put in front of a fragmentation extend it, when
      the old first gap can separate the new fragment from the next one. */
  lemma FragmentationCons(t: string, a: string, f: string, r: string, gs: seq<string>, fs: seq<string>, mode: Strictness)
    requires IsFragmentation(r, gs, fs, mode) && t == a + f + r
    requires NoDigit(a) && IsFragment(f, mode)
    requires fs != [] ==> HasOutsider(gs[0], mode)
    ensures IsFragmentation(t, [a] + gs, [f] + fs, mode)
  {
    var gaps, frags := [a] + gs, [f] + fs;
    assert gaps[1..] == gs && frags[1..] == fs;
    assert forall i :: 0 < i < |frags| ==> frags[i] == fs[i - 1];
    assert forall j :: 0 < j < |gaps| ==> gaps[j] == gs[j - 1];
  }

  /** Dropping the first gap and fragment of a fragmentation leaves a
      fragmentation of the rest of the text. */
  lemma FragmentationTail(s: string, gaps: seq<string>, frags: seq<string>, mode: Strictness)
    requires IsFragmentation(s, gaps, frags, mode) && frags != []
    ensures IsFragmentation(Interleave(gaps[1..], frags[1..]), gaps[1..], frags[1..], mode)
  {
    assert forall i :: 0 <= i < |frags| - 1 ==> frags[1..][i] == frags[i + 1];
    assert forall j :: 0 <= j < |gaps| - 1 ==> gaps[1..][j] == gaps[j + 1];
  }

  lemma NoDigitSlice(s: string, i: nat, j: nat)
    requires i <= j <= |s| && forall k :: i <= k < j ==> !IsDigit(s[k])
    ensures NoDigit(s[i..j])
  {
    assert forall k :: 0 <= k < j - i ==> s[i..j][k] == s[i + k];
  }

  /** When the scan is blocked at `e` and another digit follows, the gap up
      to that digit holds a character no fragment may contain. */
  lemma BlockedGapAt(s: string, e: nat, mode: Strictness)
    requires e <= |s| && BlockedAt(s, e, mode) && NextDigit(s, e) < |s|
    ensures HasOutsider(s[e..NextDigit(s, e)], mode)
  {
    var j := SeparatorsEnd(s, e, mode);
    var h := NextDigit(s, e);
    assert !IsSeparator(s[h], mode);
    assert j <= h;
    assert j < h;
    assert s[e..h][j - e] == s[j];
  }

  lemma SliceThree(s: string, i: nat, g: nat, e: nat)
    requires i <= g <= e <= |s|
    ensures s[i..] == s[i..g] + s[g..e] + s[e..]
  {
  }

  /** The scan from `i` when a digit remains: the gap up to it, then the
      fragment that starts there, then the scan from the fragment's end. */
  lemma ScanUnfold(s: string, i: nat, mode: Strictness)
    requires i <= |s| && NextDigit(s, i) < |s|
    ensures var g := NextDigit(s, i);
            var e := FragmentEnd(s, g, mode);
            && FragmentsFrom(s, i, mode) == [s[g..e]] + FragmentsFrom(s, e, mode)
            && GapsFrom(s, i, mode) == [s[i..g]] + GapsFrom(s, e, mode)
  {
  }

  /** The scan from position `i` produces a fragmentation of `s[i..]`. */
  lemma {:induction false} FragmentationExistsFrom(s: string, i: nat, mode: Strictness)
    requires i <= |s|
    ensures IsFragmentation(s[i..], GapsFrom(s, i, mode), FragmentsFrom(s, i, mode), mode)
    decreases |s| - i
  {
    var g := NextDigit(s, i);
    if g < |s| {
      var e := FragmentEnd(s, g, mode);
      FragmentationExistsFrom(s, e, mode);
      NoDigitSlice(s, i, g);
      FragmentAtSlice(s, g, e, mode);
      if NextDigit(s, e) < |s| {
        BlockedGapAt(s, e, mode);
      }
      SliceThree(s, i, g, e);
      ScanUnfold(s, i, mode);
      FragmentationCons(s[i..], s[i..g], s[g..e], s[e..], GapsFrom(s, e, mode), FragmentsFrom(s, e, mode), mode);
    } else {
      NoDigitSlice(s, i, |s|);
    }
  }

  /** A fragment followed by a blocked position is read back whole. */
  lemma {:induction false} FragmentEndOf(s: string, i: nat, e: nat, mode: Strictness)
    requires FragmentAt(s, i, e, mode) && BlockedAt(s, e, mode)
    ensures FragmentEnd(s, i, mode) == e
    decreases e - i
  {
    var j := SeparatorsEnd(s, i + 1, mode);
    if e > i + 1 {
      assert !IsSeparator(s[e - 1], mode);
      assert j <= e - 1;
      assert InFragment(s[j], mode);
      FragmentEndOf(s, j, e, mode);
    }
  }

  /** The scan from `i` finds the first digit where a digit-free stretch ends. */
  lemma NextDigitAt(s: string, i: nat, g: nat)
    requires i <= g < |s| && IsDigit(s[g])
    requires forall k :: i <= k < g ==> !IsDigit(s[k])
    ensures NextDigit(s, i) == g
  {
  }

  /** A digit-free gap at `e` blocks the scan there when it holds an
      outsider or runs to the end of the text. */
  lemma GapBlocksAt(s: string, e: nat, gap: string, mode: Strictness)
    requires e + |gap| <= |s| && s[e..e + |gap|] == gap && NoDigit(gap)
    requires e + |gap| == |s| || HasOutsider(gap, mode)
    ensures BlockedAt(s, e, mode)
  {
    var j := SeparatorsEnd(s, e, mode);
    assert forall k :: e <= k < e + |gap| ==> s[k] == gap[k - e];
    if e + |gap| < |s| {
      var k :| 0 <= k < |gap| && !InFragment(gap[k], mode);
      assert !IsSeparator(s[e + k], mode);
    }
  }

  /** Where `s[i..]` is three strings in a row, each sits at its own offset. */
  lemma SliceParts(s: string, i: nat, a: string, f: string, r: string)
    requires i <= |s| && s[i..] == a + f + r
    ensures i + |a| + |f| <= |s|
    ensures s[i..i + |a|] == a && s[i + |a|..i + |a| + |f|] == f && s[i + |a| + |f|..] == r
  {
    var g, e := i + |a|, i + |a| + |f|;
    assert forall k :: 0 <= k < |a| ==> s[i..i + |a|][k] == (a + f + r)[k];
    assert forall k :: 0 <= k < |f| ==> s[g..e][k] == (a + f + r)[|a| + k];
    assert forall k :: 0 <= k < |r| ==> s[e..][k] == (a + f + r)[|a| + |f| + k];
  }

  /** A fragmentation of `s[e..]` whose first gap holds an outsider, or
      which has no fragment, leaves the scan blocked at `e`. */
  lemma FirstGapBlocks(s: string, e: nat, gaps: seq<string>, frags: seq<string>, mode: Strictness)
    requires e <= |s| && IsFragmentation(s[e..], gaps, frags, mode)
    requires frags != [] ==> HasOutsider(gaps[0], mode)
    ensures BlockedAt(s, e, mode)
  {
    if frags == [] {
      assert s[e..] == gaps[0];
      SliceParts(s, e, gaps[0], [], []);
    } else {
      var rest := frags[0] + Interleave(gaps[1..], frags[1..]);
      assert s[e..] == gaps[0] + rest + [];
      SliceParts(s, e, gaps[0], rest, []);
    }
    GapBlocksAt(s, e, gaps[0], mode);
  }

  /** One step of the scan from `i`: a fragmentation whose first gap ends
      at the next digit `g`, whose first fragment ends where the scan's does,
      and whose rest is the scan from `e`, is the scan from `i`. */
  lemma ScanStepAt(s: string, i: nat, g: nat, e: nat, gaps: seq<string>, frags: seq<string>, mode: Strictness)
    requires i <= g < |s| && NextDigit(s, i) == g && FragmentEnd(s, g, mode) == e
    requires |frags| > 0 && |gaps| > 0 && frags[0] == s[g..e] && gaps[0] == s[i..g]
    requires frags[1..] == FragmentsFrom(s, e, mode) && gaps[1..] == GapsFrom(s, e, mode)
    ensures frags == FragmentsFrom(s, i, mode) && gaps == GapsFrom(s, i, mode)
  {
    ScanUnfold(s, i, mode);
    HeadTail(frags);
    HeadTail(gaps);
  }

  lemma HeadTail<T>(x: seq<T>)
    requires |x| > 0
    ensures x == [x[0]] + x[1..]
  {
  }

  /** The fragmentation of `s[i..]` is unique: any split of it into maximal
      fragments and digit-free gaps is the one the scan produces. */
  lemma {:induction false} FragmentationUniqueFrom(s: string, i: nat, gaps: seq<string>, frags: seq<string>, mode: Strictness)
    requires i <= |s| && IsFragmentation(s[i..], gaps, frags, mode)
    ensures frags == FragmentsFrom(s, i, mode) && gaps == GapsFrom(s, i, mode)
    decreases |frags|
  {
    if frags == [] {
      assert s[i..] == gaps[0];
      assert forall k :: i <= k < |s| ==> s[k] == gaps[0][k - i];
      assert NextDigit(s, i) == |s|;
    } else {
      var a, f := gaps[0], frags[0];
      var r := Interleave(gaps[1..], frags[1..]);
      var g, e := i + |a|, i + |a| + |f|;
      SliceParts(s, i, a, f, r);
      assert s[i..g] == a && s[g..e] == f && s[e..] == r;
      NextDigitAt(s, i, g) by {
        assert forall k :: i <= k < g ==> s[k] == a[k - i];
        assert s[g] == f[0];
      }
      FragmentAtSlice(s, g, e, mode);
      FragmentationTail(s[i..], gaps, frags, mode);
      FirstGapBlocks(s, e, gaps[1..], frags[1..], mode);
      FragmentEndOf(s, g, e, mode);
      FragmentationUniqueFrom(s, e, gaps[1..], frags[1..], mode);
      ScanStepAt(s, i, g, e, gaps, frags, mode);
    }
  }

  /** The fragments of `s`, left to right. */
  function Fragments(s: string, mode: Strictness): seq<string> {
    FragmentsFrom(s, 0, mode)
  }

  /** The text around and between the fragments of `s`. */
  ghost function Gaps(s: string, mode: Strictness): seq<string> {
    GapsFrom(s, 0, mode)
  }

  /** The scan produces a fragmentation of its input. */
  lemma FragmentationExists(s: string, mode: Strictness)
    ensures IsFragmentation(s, Gaps(s, mode), Fragments(s, mode), mode)
  {
    FragmentationExistsFrom(s, 0, mode);
    assert s[0..] == s;
  }

  /** The fragmentation of a text is unique: any split of `s` into maximal
      fragments and digit-free gaps is the one the scan produces. */
  lemma FragmentationUnique(s: string, gaps: seq<string>, frags: seq<string>, mode: Strictness)
    requires IsFragmentation(s, gaps, frags, mode)
    ensures frags == Fragments(s, mode) && gaps == Gaps(s, mode)
  {
    assert s[0..] == s;
    FragmentationUniqueFrom(s, 0, gaps, frags, mode);
  }

  /** The fragments of `text` suspected of being numbers at check level
      `level` (None for the default level): its maximal digit runs at the
      default level and level 1; at level 2 its maximal spans that start and
      end on a digit with only digits, spaces, dashes and periods between.
      There are none exactly when the text has no digit. */
  function GetSuspectedFragments(text: string, level: Option<int>): (frags: seq<string>)
    ensures IsFragmentation(text, Gaps(text, ModeOf(level)), frags, ModeOf(level))
    ensures frags == [] <==> NoDigit(text)
  {
    FragmentationExists(text, ModeOf(level));
    Fragments(text, ModeOf(level))
  }

  /** A fragmentation found by hand is the scanner's answer. */
  lemma SuspectedFragmentsAre(text: string, level: Option<int>, gaps: seq<string>, frags: seq<string>)
    requires IsFragmentation(text, gaps, frags, ModeOf(level))
    ensures GetSuspectedFragments(text, level) == frags
  {
    FragmentationUnique(text, gaps, frags, ModeOf(level));
  }

  /** The rows without digits: 'foo bar' has no fragment at any level. */
  lemma SuspectedFragmentsNoDigitRows()
    ensures GetSuspectedFragments("foo bar", None) == []
    ensures GetSuspectedFragments("foo bar", Some(1)) == []
    ensures GetSuspectedFragments("foo bar", Some(2)) == []
  {
    var t := "foo bar";
    assert NoDigit(t) by {
      forall k | 0 <= k < |t| ensures !IsDigit(t[k]) {
      }
    }
  }

  lemma ContinuousWitness(mode: Strictness)
    ensures IsFragmentation("foo 12345 bar", ["foo ", " bar"], ["12345"], mode)
  {
    var gaps, frags := ["foo ", " bar"], ["12345"];
    assert Interleave(gaps[1..], frags[1..]) == " bar";
  }

  /** The rows with one digit run: 'foo 12345 bar' gives '12345' at every
      level; at level 2 the spaces around the run are not part of it. */
  lemma SuspectedFragmentsContinuousRows()
    ensures GetSuspectedFragments("foo 12345 bar", None) == ["12345"]
    ensures GetSuspectedFragments("foo 12345 bar", Some(1)) == ["12345"]
    ensures GetSuspectedFragments("foo 12345 bar", Some(2)) == ["12345"]
  {
    ContinuousWitness(Strict);
    ContinuousWitness(Permissive);
    SuspectedFragmentsAre("foo 12345 bar", None, ["foo ", " bar"], ["12345"]);
    SuspectedFragmentsAre("foo 12345 bar", Some(1), ["foo ", " bar"], ["12345"]);
    SuspectedFragmentsAre("foo 12345 bar", Some(2), ["foo ", " bar"], ["12345"]);
  }

  lemma SpaceWitnessStrict()
    ensures IsFragmentation("foo 213 567 bar", ["foo ", " ", " bar"], ["213", "567"], Strict)
  {
    var gaps, frags := ["foo ", " ", " bar"], ["213", "567"];
    assert Interleave(gaps[2..], frags[2..]) == " bar";
    assert Interleave(gaps[1..], frags[1..]) == " 567 bar";
    assert !InFragment(" "[0], Strict);
  }

  lemma SpaceWitnessPermissive()
    ensures IsFragmentation("foo 213 567 bar", ["foo ", " bar"], ["213 567"], Permissive)
  {
    var gaps, frags := ["foo ", " bar"], ["213 567"];
    assert Interleave(gaps[1..], frags[1..]) == " bar";
  }

  /** The rows with two runs split by a space: separate fragments at the
      default level and level 1, one verbatim fragment at level 2. */
  lemma SuspectedFragmentsSpaceRows()
    ensures GetSuspectedFragments("foo 213 567 bar", None) == ["213", "567"]
    ensures GetSuspectedFragments("foo 213 567 bar", Some(1)) == ["213", "567"]
    ensures GetSuspectedFragments("foo 213 567 bar", Some(2)) == ["213 567"]
  {
    SpaceWitnessStrict();
    SpaceWitnessPermissive();
    SuspectedFragmentsAre("foo 213 567 bar", None, ["foo ", " ", " bar"], ["213", "567"]);
    SuspectedFragmentsAre("foo 213 567 bar", Some(1), ["foo ", " ", " bar"], ["213", "567"]);
    SuspectedFragmentsAre("foo 213 567 bar", Some(2), ["foo ", " bar"], ["213 567"]);
  }

  lemma PeriodWitness()
    ensures IsFragmentation("foo 2.1.3 bar", ["foo ", ".", ".", " bar"], ["2", "1", "3"], Strict)
  {
    var gaps, frags := ["foo ", ".", ".", " bar"], ["2", "1", "3"];
    assert Interleave(gaps[3..], frags[3..]) == " bar";
    assert Interleave(gaps[2..], frags[2..]) == ".3 bar";
    assert Interleave(gaps[1..], frags[1..]) == ".1.3 bar";
    assert !InFragment("."[0], Strict);
  }

  /** The rows with runs split by periods: at the default level and level 1
      'foo 2.1.3 bar' gives three one-digit fragments. */
  lemma SuspectedFragmentsPeriodRows()
    ensures GetSuspectedFragments("foo 2.1.3 bar", None) == ["2", "1", "3"]
    ensures GetSuspectedFragments("foo 2.1.3 bar", Some(1)) == ["2", "1", "3"]
  {
    PeriodWitness();
    SuspectedFragmentsAre("foo 2.1.3 bar", None, ["foo ", ".", ".", " bar"], ["2", "1", "3"]);
    SuspectedFragmentsAre("foo 2.1.3 bar", Some(1), ["foo ", ".", ".", " bar"], ["2", "1", "3"]);
  }

  /** A permissive fragment between 'foo ' and ' bar' is the only one. */
  lemma BetweenWitness(f: string)
    requires IsFragment(f, Permissive)
    ensures IsFragmentation("foo " + f + " bar", ["foo ", " bar"], [f], Permissive)
  {
    var gaps := ["foo ", " bar"];
    assert Interleave(gaps[1..], []) == " bar";
    assert [f][1..] == [];
  }

  lemma PermissiveFragments()
    ensures IsFragment("21-3-56-7", Permissive)
    ensures IsFragment("21.3.56.7", Permissive)
    ensures IsFragment("21.3-56 7", Permissive)
  {
    var dashes, periods, mixed := "21-3-56-7", "21.3.56.7", "21.3-56 7";
    forall k | 0 <= k < |dashes| ensures InFragment(dashes[k], Permissive) {}
    forall k | 0 <= k < |periods| ensures InFragment(periods[k], Permissive) {}
    forall k | 0 <= k < |mixed| ensures InFragment(mixed[k], Permissive) {}
  }

  /** Level 2, digit groups joined by dashes: one verbatim fragment. */
  lemma SuspectedFragmentsDashRow()
    ensures GetSuspectedFragments("foo 21-3-56-7 bar", Some(2)) == ["21-3-56-7"]
  {
    PermissiveFragments();
    BetweenWitness("21-3-56-7");
    SuspectedFragmentsAre("foo 21-3-56-7 bar", Some(2), ["foo ", " bar"], ["21-3-56-7"]);
  }

  /** Level 2, digit groups joined by periods: one verbatim fragment. */
  lemma SuspectedFragmentsPeriodJoinedRow()
    ensures GetSuspectedFragments("foo 21.3.56.7 bar", Some(2)) == ["21.3.56.7"]
  {
    PermissiveFragments();
    BetweenWitness("21.3.56.7");
    SuspectedFragmentsAre("foo 21.3.56.7 bar", Some(2), ["foo ", " bar"], ["21.3.56.7"]);
  }

  /** Level 2, digit groups joined by a mix of periods, dashes and spaces:
      one verbatim fragment. */
  lemma SuspectedFragmentsMixedRow()
    ensures GetSuspectedFragments("foo 21.3-56 7 bar", Some(2)) == ["21.3-56 7"]
  {
    PermissiveFragments();
    BetweenWitness("21.3-56 7");
    SuspectedFragmentsAre("foo 21.3-56 7 bar", Some(2), ["foo ", " bar"], ["21.3-56 7"]);
  }

  /** The default level and level 1 agree on every text. */
  lemma DefaultLevelIsLevelOne(text: string)
    ensures GetSuspectedFragments(text, None) == GetSuspectedFragments(text, Some(1))
  {
  }

  function Concat(parts: seq<string>): string
    decreases |parts|
  {
    if parts == [] then [] else parts[0] + Concat(parts[1..])
  }

  /** The digits of an interleaving are the digits of its fragments. */
  lemma {:induction false} DigitsOfInterleave(gaps: seq<string>, frags: seq<string>)
    requires |gaps| == |frags| + 1
    requires forall j :: 0 <= j < |gaps| ==> NoDigit(gaps[j])
    ensures Digits(Interleave(gaps, frags)) == Digits(Concat(frags))
    decreases |frags|
  {
    DigitsExact(gaps[0]);
    if frags == [] {
      assert Concat(frags) == [];
    } else {
      DigitsOfInterleave(gaps[1..], frags[1..]);
      DigitsConcat(gaps[0] + frags[0], Interleave(gaps[1..], frags[1..]));
      DigitsConcat(gaps[0], frags[0]);
      DigitsConcat(frags[0], Concat(frags[1..]));
    }
  }

  /** Strict fragments are all digits, so their concatenation is all digits. */
  lemma {:induction false} ConcatOfDigitStrings(parts: seq<string>)
    requires forall i :: 0 <= i < |parts| ==> AllDigits(parts[i])
    ensures AllDigits(Concat(parts))
    decreases |parts|
  {
    if parts != [] {
      ConcatOfDigitStrings(parts[1..]);
      var c := Concat(parts);
      assert c == parts[0] + Concat(parts[1..]);
      forall k | 0 <= k < |c| ensures IsDigit(c[k]) {
        if k >= |parts[0]| { assert c[k] == Concat(parts[1..])[k - |parts[0]|]; }
      }
    }
  }

  /** No digit is lost by the scan: at every level the fragments hold all the
      digits of the text in order, and at the strict levels they hold nothing
      else, so joined together they are exactly the extracted number. */
  lemma FragmentsKeepDigits(text: string, level: Option<int>)
    ensures Digits(Concat(GetSuspectedFragments(text, level))) == Digits(text)
    ensures ModeOf(level) == Strict ==>
              ExtractNumberFromText(text) == if NoDigit(text) then None
                                             else Some(Concat(GetSuspectedFragments(text, level)))
  {
    var mode := ModeOf(level);
    var frags := GetSuspectedFragments(text, level);
    DigitsOfInterleave(Gaps(text, mode), frags);
    if mode == Strict {
      forall i | 0 <= i < |frags| ensures AllDigits(frags[i]) {
        assert IsFragment(frags[i], Strict);
      }
      ConcatOfDigitStrings(frags);
      DigitsExact(Concat(frags));
    }
  }

  /** A text made of digit-free gaps around all-digit pieces yields the
      pieces, joined, as its number; None when there is no digit at all. */
  lemma ExtractFromPieces(gaps: seq<string>, frags: seq<string>)
    requires |gaps| == |frags| + 1
    requires forall j :: 0 <= j < |gaps| ==> NoDigit(gaps[j])
    requires forall i :: 0 <= i < |frags| ==> AllDigits(frags[i])
    ensures ExtractNumberFromText(Interleave(gaps, frags))
         == if Concat(frags) == [] then None else Some(Concat(frags))
  {
    DigitsOfInterleave(gaps, frags);
    ConcatOfDigitStrings(frags);
    DigitsExact(Concat(frags));
    DigitsExact(Interleave(gaps, frags));
  }

  lemma InterleaveCons(g: string, f: string, gaps: seq<string>, frags: seq<string>)
    requires |gaps| == |frags| + 1
    ensures Interleave([g] + gaps, [f] + frags) == g + (f + Interleave(gaps, frags))
  {
    assert ([g] + gaps)[1..] == gaps && ([f] + frags)[1..] == frags;
  }

  /** The extraction row without digits: 'foo bar' has no number. */
  lemma ExtractNoDigitRow()
    ensures ExtractNumberFromText("foo bar") == None
  {
  }

  /** One digit run '12345' between digit-free texts yields '12345'. */
  lemma ExtractOneRun(a: string, e: string)
    requires NoDigit(a) && NoDigit(e)
    ensures ExtractNumberFromText(a + ("12345" + e)) == Some("12345")
  {
    var gaps, frags := [a, e], ["12345"];
    assert Interleave([e], []) == e;
    InterleaveCons(a, "12345", [e], []);
    assert [a] + [e] == gaps && ["12345"] + [] == frags;
    assert Concat(frags[1..]) == [];
    assert Concat(frags) == "12345";
    assert AllDigits(frags[0]);
    assert Interleave(gaps, frags) == a + ("12345" + e);
    ExtractFromPieces(gaps, frags);
  }

  /** The extraction row with one digit run: 'foo 12345 bar' gives '12345'. */
  lemma ExtractContinuousRow()
    ensures ExtractNumberFromText("foo 12345 bar") == Some("12345")
  {
    assert NoDigit("foo ") && NoDigit(" bar");
    ExtractOneRun("foo ", " bar");
    assert "foo " + ("12345" + " bar") == "foo 12345 bar";
  }

  /** Digit runs '12345' and '67890' between digit-free texts yield
      '1234567890'. */
  lemma ExtractTwoRuns(a: string, b: string, e: string)
    requires NoDigit(a) && NoDigit(b) && NoDigit(e)
    ensures ExtractNumberFromText(a + ("12345" + (b + ("67890" + e)))) == Some("1234567890")
  {
    var gaps, frags := [a, b, e], ["12345", "67890"];
    assert Interleave([e], []) == e;
    InterleaveCons(b, "67890", [e], []);
    assert [b] + [e] == gaps[1..] && ["67890"] + [] == frags[1..];
    InterleaveCons(a, "12345", gaps[1..], frags[1..]);
    assert [a] + gaps[1..] == gaps && ["12345"] + frags[1..] == frags;
    assert Concat(frags[2..]) == [];
    assert Concat(frags[1..]) == "67890";
    assert Concat(frags) == "1234567890";
    assert AllDigits(frags[0]) && AllDigits(frags[1]);
    assert Interleave(gaps, frags) == a + ("12345" + (b + ("67890" + e)));
    ExtractFromPieces(gaps, frags);
  }

  /** The extraction row with two runs split by a space. */
  lemma ExtractSpacesRow()
    ensures ExtractNumberFromText("foo 12345 67890 bar") == Some("1234567890")
  {
    assert NoDigit("foo ") && NoDigit(" ") && NoDigit(" bar");
    ExtractTwoRuns("foo ", " ", " bar");
    assert "foo " + ("12345" + (" " + ("67890" + " bar"))) == "foo 12345 67890 bar";
  }

  /** The four digit groups of the ten-digit rows, and what they join into. */
  lemma TenDigitGroups()
    ensures Concat(["123", "45", "678", "90"]) == "1234567890"
    ensures forall i :: 0 <= i < 4 ==> AllDigits(["123", "45", "678", "90"][i])
  {
    var frags := ["123", "45", "678", "90"];
    assert Concat(frags[4..]) == [];
    assert Concat(frags[3..]) == "90";
    assert Concat(frags[2..]) == "67890";
    assert Concat(frags[1..]) == "4567890";
    forall i | 0 <= i < |frags| ensures AllDigits(frags[i]) {
      var f := frags[i];
      forall k | 0 <= k < |f| ensures IsDigit(f[k]) {}
    }
  }

  lemma TenDigitText(a: string, b: string, c: string, d: string, e: string)
    ensures Interleave([a, b, c, d, e], ["123", "45", "678", "90"])
         == a + ("123" + (b + ("45" + (c + ("678" + (d + ("90" + e)))))))
  {
    var gaps, frags := [a, b, c, d, e], ["123", "45", "678", "90"];
    assert Interleave([e], []) == e;
    InterleaveCons(d, "90", [e], []);
    assert [d] + [e] == gaps[3..] && ["90"] + [] == frags[3..];
    InterleaveCons(c, "678", gaps[3..], frags[3..]);
    assert [c] + gaps[3..] == gaps[2..] && ["678"] + frags[3..] == frags[2..];
    InterleaveCons(b, "45", gaps[2..], frags[2..]);
    assert [b] + gaps[2..] == gaps[1..] && ["45"] + frags[2..] == frags[1..];
    InterleaveCons(a, "123", gaps[1..], frags[1..]);
    assert [a] + gaps[1..] == gaps && ["123"] + frags[1..] == frags;
  }

  /** Four digit groups between digit-free text yield the ten digits
      '1234567890', whatever the text around and between them. */
  lemma ExtractTenDigits(a: string, b: string, c: string, d: string, e: string)
    requires NoDigit(a) && NoDigit(b) && NoDigit(c) && NoDigit(d) && NoDigit(e)
    ensures ExtractNumberFromText(a + ("123" + (b + ("45" + (c + ("678" + (d + ("90" + e))))))))
         == Some("1234567890")
  {
    var gaps, frags := [a, b, c, d, e], ["123", "45", "678", "90"];
    TenDigitGroups();
    TenDigitText(a, b, c, d, e);
    ExtractFromPieces(gaps, frags);
  }

  lemma DashesText()
    ensures "foo " + ("123" + ("-" + ("45" + ("-" + ("678" + ("-" + ("90" + " bar")))))))
         == "foo 123-45-678-90 bar"
  {
  }

  /** The extraction row with digit groups joined by dashes. */
  lemma ExtractDashesRow()
    ensures ExtractNumberFromText("foo 123-45-678-90 bar") == Some("1234567890")
  {
    assert NoDigit("foo ") && NoDigit("-") && NoDigit(" bar");
    ExtractTenDigits("foo ", "-", "-", "-", " bar");
    DashesText();
  }

  lemma AlphaMixText()
    ensures "foo " + ("123" + ("-bla" + ("45" + ("-foo" + ("678" + ("-" + ("90" + " bar")))))))
         == "foo 123-bla45-foo678-90 bar"
  {
  }

  /** The extraction rows with letters mixed between the digit groups. */
  lemma ExtractAlphaMixRow()
    ensures ExtractNumberFromText("foo 123-bla45-foo678-90 bar") == Some("1234567890")
  {
    var b, c := "-bla", "-foo";
    assert NoDigit(b) by { forall k | 0 <= k < |b| ensures !IsDigit(b[k]) {} }
    assert NoDigit(c) by { forall k | 0 <= k < |c| ensures !IsDigit(c[k]) {} }
    assert NoDigit("foo ") && NoDigit("-") && NoDigit(" bar");
    ExtractTenDigits("foo ", b, c, "-", " bar");
    AlphaMixText();
  }

  lemma SpecialCharsText()
    ensures "foo " + ("123" + ("-!@$bla" + ("45" + ("-fQ@%*(!oo" + ("678" + ("-" + ("90" + " bar")))))))
         == "foo 123-!@$bla45-fQ@%*(!oo678-90 bar"
  {
  }

  /** The extraction row with punctuation and letters between the groups. */
  lemma ExtractSpecialCharsRow()
    ensures ExtractNumberFromText("foo 123-!@$bla45-fQ@%*(!oo678-90 bar") == Some("1234567890")
  {
    var b, c := "-!@$bla", "-fQ@%*(!oo";
    assert NoDigit(b) by { forall k | 0 <= k < |b| ensures !IsDigit(b[k]) {} }
    assert NoDigit(c) by { forall k | 0 <= k < |c| ensures !IsDigit(c[k]) {} }
    assert NoDigit("foo ") && NoDigit("-") && NoDigit(" bar");
    ExtractTenDigits("foo ", b, c, "-", " bar");
    SpecialCharsText();
  }

  // ---------------------------------------------------------------------
  // markFragment
  // ---------------------------------------------------------------------

  /** The annotated form that replaces each occurrence of a fragment. */
  function Annotation(fragment: string, marker: string): (a: string)
    ensures |a| == |fragment| + |marker| + 6
  {
    "{{" + fragment + "}[" + marker + "]}"
  }

  /** `f` occurs in `s` starting at position `k`. */
  predicate OccursAt(s: string, f: string, k: nat) {
    k + |f| <= |s| && s[k..k + |f|] == f
  }

  /** `f` occurs in `s` starting at some position before `n`. */
  predicate OccursBefore(s: string, f: string, n: nat) {
    exists k :: 0 <= k < n && OccursAt(s, f, k)
  }

  /** The pieces of `s` between the occurrences of `sep`, found left to right
      without overlap. */
  function Split(s: string, sep: string): (parts: seq<string>)
    requires sep != []
    ensures |parts| >= 1
    decreases |s|
  {
    if sep <= s then [[]] + Split(s[|sep|..], sep)
    else if s == [] then [[]]
    else
      var rest := Split(s[1..], sep);
      [[s[0]] + rest[0]] + rest[1..]
  }

  /** The pieces glued back together with `sep` between neighbours. */
  function Join(parts: seq<string>, sep: string): string
    requires |parts| >= 1
    decreases |parts|
  {
    if |parts| == 1 then parts[0] else parts[0] + sep + Join(parts[1..], sep)
  }

  lemma JoinCons(c: char, parts: seq<string>, sep: string)
    requires |parts| >= 1
    ensures Join([[c] + parts[0]] + parts[1..], sep) == [c] + Join(parts, sep)
  {
    var q := [[c] + parts[0]] + parts[1..];
    assert q[1..] == parts[1..];
  }

  /** A text that starts with the separator: an empty first piece, then
      the pieces of what follows the separator. */
  lemma SplitCut(s: string, sep: string)
    requires sep != [] && sep <= s
    ensures Split(s, sep) == [[]] + Split(s[|sep|..], sep)
  {
  }

  /** A text that does not start with the separator: its first character
      joins the first piece of the rest. */
  lemma SplitExtend(s: string, sep: string)
    requires sep != [] && !(sep <= s) && s != []
    ensures var rest := Split(s[1..], sep);
            Split(s, sep) == [[s[0]] + rest[0]] + rest[1..]
  {
  }

  lemma JoinHead(x: string, tail: seq<string>, sep: string)
    requires |tail| >= 1
    ensures Join([x] + tail, sep) == x + sep + Join(tail, sep)
  {
    assert ([x] + tail)[1..] == tail;
  }

  /** Splitting and joining again with the same separator gives the text
      back. */
  lemma {:induction false} SplitJoin(s: string, sep: string)
    requires sep != []
    ensures Join(Split(s, sep), sep) == s
    decreases |s|
  {
    if sep <= s {
      var tail := Split(s[|sep|..], sep);
      SplitCut(s, sep);
      SplitJoin(s[|sep|..], sep);
      JoinHead([], tail, sep);
      assert s == [] + sep + s[|sep|..];
    } else if s != [] {
      var rest := Split(s[1..], sep);
      SplitExtend(s, sep);
      SplitJoin(s[1..], sep);
      JoinCons(s[0], rest, sep);
      assert s == [s[0]] + s[1..];
    }
  }

  /** Occurrences move by one position when one character is put in front. */
  lemma OccursShift(c: char, y: string, f: string, k: nat)
    ensures OccursAt([c] + y, f, k + 1) <==> OccursAt(y, f, k)
  {
    if k + 1 + |f| <= |[c] + y| {
      assert ([c] + y)[k + 1..k + 1 + |f|] == y[k..k + |f|];
    }
  }

  /** The first piece of a split, with the separator after it when one
      follows, is a prefix of the text. */
  lemma SplitFirstPiecePrefix(s: string, sep: string)
    requires sep != []
    ensures var parts := Split(s, sep);
            (if |parts| > 1 then parts[0] + sep else parts[0]) <= s
  {
    var parts := Split(s, sep);
    SplitJoin(s, sep);
    if |parts| > 1 {
      assert s == parts[0] + sep + Join(parts[1..], sep);
    }
  }

  /** Each piece followed by its separator, and the last piece alone */
  function PieceWithSeparator(parts: seq<string>, i: nat, sep: string): string
    requires i < |parts|
  {
    if i + 1 < |parts| then parts[i] + sep else parts[i]
  }

  /** The pieces were found left to right: each piece, with the separator
      that follows it, holds no occurrence of the separator that starts
      inside the piece. In particular no piece holds the separator. */
  predicate LeftToRight(parts: seq<string>, sep: string) {
    forall i :: 0 <= i < |parts| ==> !OccursBefore(PieceWithSeparator(parts, i, sep), sep, |parts[i]|)
  }

  lemma ConsAppend(c: char, a: string, b: string)
    ensures ([c] + a) + b == [c] + (a + b)
  {
  }

  /** When the text does not start with the separator, its first piece is
      its first character followed by the first piece of the rest, and no
      occurrence starts inside it. */
  lemma FirstPieceClean(s: string, sep: string)
    requires sep != [] && s != [] && !(sep <= s)
    requires LeftToRight(Split(s[1..], sep), sep)
    ensures var parts := Split(s, sep);
            !OccursBefore(PieceWithSeparator(parts, 0, sep), sep, |parts[0]|)
  {
    var parts := Split(s, sep);
    var rest := Split(s[1..], sep);
    assert parts == [[s[0]] + rest[0]] + rest[1..];
    var x := PieceWithSeparator(parts, 0, sep);
    var y := PieceWithSeparator(rest, 0, sep);
    assert parts[0] == [s[0]] + rest[0] && |parts| == |rest|;
    if |rest| > 1 {
      assert x == ([s[0]] + rest[0]) + sep && y == rest[0] + sep;
      ConsAppend(s[0], rest[0], sep);
    }
    assert !OccursBefore(y, sep, |rest[0]|);
    forall k | 0 <= k < |parts[0]| ensures !OccursAt(x, sep, k) {
      if k == 0 {
        SplitFirstPiecePrefix(s[1..], sep);
      } else {
        OccursShift(s[0], y, sep, k - 1);
      }
    }
  }

  lemma {:induction false} SplitLeftmost(s: string, sep: string)
    requires sep != []
    ensures LeftToRight(Split(s, sep), sep)
    decreases |s|
  {
    var parts := Split(s, sep);
    if sep <= s {
      var tail := Split(s[|sep|..], sep);
      SplitLeftmost(s[|sep|..], sep);
      assert parts == [[]] + tail;
      forall i | 0 <= i < |parts| ensures !OccursBefore(PieceWithSeparator(parts, i, sep), sep, |parts[i]|) {
        if i > 0 {
          assert parts[i] == tail[i - 1];
          assert PieceWithSeparator(parts, i, sep) == PieceWithSeparator(tail, i - 1, sep);
        }
      }
    } else if s != [] {
      var rest := Split(s[1..], sep);
      SplitLeftmost(s[1..], sep);
      FirstPieceClean(s, sep);
      assert parts == [[s[0]] + rest[0]] + rest[1..];
      forall i | 0 < i < |parts| ensures !OccursBefore(PieceWithSeparator(parts, i, sep), sep, |parts[i]|) {
        assert parts[i] == rest[i];
        assert PieceWithSeparator(parts, i, sep) == PieceWithSeparator(rest, i, sep);
      }
    }
  }

  /** Dropping the first piece keeps the pieces left to right. */
  lemma LeftToRightTail(parts: seq<string>, sep: string)
    requires |parts| >= 1 && LeftToRight(parts, sep)
    ensures LeftToRight(parts[1..], sep)
  {
    var tail := parts[1..];
    forall i | 0 <= i < |tail| ensures !OccursBefore(PieceWithSeparator(tail, i, sep), sep, |tail[i]|) {
      assert tail[i] == parts[i + 1];
      assert PieceWithSeparator(tail, i, sep) == PieceWithSeparator(parts, i + 1, sep);
    }
  }

  /** Moving the first character out of a non-empty first piece keeps the
      pieces left to right. */
  lemma LeftToRightShift(parts: seq<string>, sep: string)
    requires |parts| >= 1 && parts[0] != [] && LeftToRight(parts, sep)
    ensures LeftToRight([parts[0][1..]] + parts[1..], sep)
  {
    var q := [parts[0][1..]] + parts[1..];
    var c := parts[0][0];
    assert parts[0] == [c] + q[0];
    forall i | 0 <= i < |q| ensures !OccursBefore(PieceWithSeparator(q, i, sep), sep, |q[i]|) {
      if i > 0 {
        assert q[i] == parts[i];
        assert PieceWithSeparator(q, i, sep) == PieceWithSeparator(parts, i, sep);
      } else {
        var x := PieceWithSeparator(parts, 0, sep);
        var y := PieceWithSeparator(q, 0, sep);
        if |parts| > 1 {
          assert x == ([c] + q[0]) + sep && y == q[0] + sep;
          ConsAppend(c, q[0], sep);
        }
        assert x == [c] + y;
        forall k | 0 <= k < |q[0]| ensures !OccursAt(y, sep, k) {
          OccursShift(c, y, sep, k);
        }
      }
    }
  }

  /** Pieces found left to right whose first piece is not empty: the text
      they join into does not start with the separator. */
  lemma NoSeparatorInFront(parts: seq<string>, sep: string)
    requires sep != [] && |parts| >= 1 && parts[0] != [] && LeftToRight(parts, sep)
    ensures !(sep <= Join(parts, sep))
  {
    var s := Join(parts, sep);
    var x := PieceWithSeparator(parts, 0, sep);
    if |parts| > 1 {
      assert s == x + Join(parts[1..], sep);
    }
    assert !OccursAt(x, sep, 0);
    if |sep| <= |x| {
      assert x[..|sep|] == s[..|sep|];
    }
  }

  /** The split is determined by what it promises: pieces that join back
      into the text and were found left to right are the pieces `Split`
      returns. */
  lemma {:induction false} SplitUnique(s: string, sep: string, parts: seq<string>)
    requires sep != [] && |parts| >= 1
    requires Join(parts, sep) == s && LeftToRight(parts, sep)
    ensures Split(s, sep) == parts
    decreases |s|
  {
    HeadTail(parts);
    if parts[0] == [] {
      if |parts| > 1 {
        var tail := parts[1..];
        JoinHead([], tail, sep);
        assert s == sep + Join(tail, sep);
        assert s[|sep|..] == Join(tail, sep);
        LeftToRightTail(parts, sep);
        SplitCut(s, sep);
        SplitUnique(s[|sep|..], sep, tail);
      }
    } else {
      var c := parts[0][0];
      var q := [parts[0][1..]] + parts[1..];
      assert parts[0] == [c] + q[0];
      assert q[1..] == parts[1..];
      JoinCons(c, q, sep);
      assert s == [c] + Join(q, sep);
      assert s[1..] == Join(q, sep);
      NoSeparatorInFront(parts, sep);
      LeftToRightShift(parts, sep);
      SplitExtend(s, sep);
      SplitUnique(s[1..], sep, q);
    }
  }

  /** Without an occurrence of the separator, a text splits into itself. */
  lemma {:induction false} SplitWithoutOccurrence(s: string, sep: string)
    requires sep != [] && !OccursBefore(s, sep, |s|)
    ensures Split(s, sep) == [s]
    decreases |s|
  {
    assert !OccursAt(s, sep, 0);
    if s != [] {
      assert s == [s[0]] + s[1..];
      forall k | 0 <= k < |s[1..]| ensures !OccursAt(s[1..], sep, k) {
        OccursShift(s[0], s[1..], sep, k);
      }
      SplitWithoutOccurrence(s[1..], sep);
      assert s == [s[0]] + s[1..];
    }
  }

  /** The number of characters in all the pieces together. */
  function TotalLength(parts: seq<string>): nat
    decreases |parts|
  {
    if parts == [] then 0 else |parts[0]| + TotalLength(parts[1..])
  }

  lemma {:induction false} JoinLength(parts: seq<string>, sep: string)
    requires |parts| >= 1
    ensures |Join(parts, sep)| == TotalLength(parts) + (|parts| - 1) * |sep|
    decreases |parts|
  {
    if |parts| > 1 {
      JoinLength(parts[1..], sep);
      assert (|parts| - 1) * |sep| == (|parts| - 2) * |sep| + |sep|;
    } else {
      assert parts[1..] == [];
    }
  }

  /** A text splits into a single piece exactly when the separator does not
      occur in it. */
  lemma SplitSingle(s: string, sep: string)
    requires sep != []
    ensures |Split(s, sep)| == 1 <==> !OccursBefore(s, sep, |s|)
  {
    var parts := Split(s, sep);
    SplitLeftmost(s, sep);
    SplitJoin(s, sep);
    assert |parts| == 1 ==> PieceWithSeparator(parts, 0, sep) == s;
    if !OccursBefore(s, sep, |s|) {
      SplitWithoutOccurrence(s, sep);
    }
  }

  /** The number of left-to-right, non-overlapping occurrences of a
      non-empty fragment in a text. */
  function Occurrences(text: string, fragment: string): (n: nat)
    requires fragment != []
    ensures n == 0 <==> !OccursBefore(text, fragment, |text|)
  {
    SplitSingle(text, fragment);
    |Split(text, fragment)| - 1
  }

  /** `text` with every occurrence of `fragment`, found left to right,
      replaced by its annotation with `marker`; an empty fragment leaves the
      text as it is, whatever the marker. */
  function MarkFragment(text: string, fragment: string, marker: string): (marked: string)
    ensures fragment == [] ==> marked == text
  {
    if fragment == [] then text
    else Join(Split(text, fragment), Annotation(fragment, marker))
  }

  /** What marking does: the text is its pieces joined by the fragment, each
      piece free of the fragment (found left to right), and the marked text
      is the same pieces joined by the annotation; nothing else changes. */
  lemma MarkFragmentReplacesEveryOccurrence(text: string, fragment: string, marker: string)
    requires fragment != []
    ensures var parts := Split(text, fragment);
            && Join(parts, fragment) == text
            && MarkFragment(text, fragment, marker) == Join(parts, Annotation(fragment, marker))
            && LeftToRight(parts, fragment)
  {
    SplitJoin(text, fragment);
    SplitLeftmost(text, fragment);
  }

  lemma Distribute(k: nat, x: nat, y: nat)
    ensures k * (x + y) == k * x + k * y
  {
  }

  /** Marking k occurrences lengthens the text by k times the annotation's
      overhead of 6 + |marker| characters; a text without the fragment comes
      back unchanged. */
  lemma MarkFragmentLength(text: string, fragment: string, marker: string)
    requires fragment != []
    ensures |MarkFragment(text, fragment, marker)|
         == |text| + Occurrences(text, fragment) * (6 + |marker|)
    ensures !OccursBefore(text, fragment, |text|) ==> MarkFragment(text, fragment, marker) == text
  {
    var parts := Split(text, fragment);
    var a := Annotation(fragment, marker);
    var n := |parts| - 1;
    SplitJoin(text, fragment);
    JoinLength(parts, fragment);
    JoinLength(parts, a);
    assert |text| == TotalLength(parts) + n * |fragment|;
    assert |MarkFragment(text, fragment, marker)| == TotalLength(parts) + n * |a|;
    Distribute(n, |fragment|, 6 + |marker|);
    assert Occurrences(text, fragment) == n;
    if !OccursBefore(text, fragment, |text|) {
      SplitWithoutOccurrence(text, fragment);
    }
  }

  /** Marking is determined by the pieces alone: whenever the text is some
      pieces joined by the fragment, found left to right, the marked text is
      the same pieces joined by the annotation. */
  lemma MarkFragmentByPieces(text: string, fragment: string, marker: string, parts: seq<string>)
    requires fragment != [] && |parts| >= 1
    requires Join(parts, fragment) == text && LeftToRight(parts, fragment)
    ensures MarkFragment(text, fragment, marker) == Join(parts, Annotation(fragment, marker))
  {
    SplitUnique(text, fragment, parts);
  }

  /** No occurrence can start where the fragment's first character is not. */
  lemma NoOccurrenceWithoutFirst(x: string, f: string, n: nat)
    requires f != [] && n <= |x|
    requires forall k :: 0 <= k < n ==> x[k] != f[0]
    ensures !OccursBefore(x, f, n)
  {
    forall k | 0 <= k < n ensures !OccursAt(x, f, k) {
      if k + |f| <= |x| {
        assert x[k..k + |f|][0] == x[k];
      }
    }
  }

  /** The pieces of 'foo bar' around 'foo', and what they join into with
      any marker's annotation. */
  lemma SingleRowPieces(marker: string)
    ensures Join(["", " bar"], "foo") == "foo bar"
    ensures LeftToRight(["", " bar"], "foo")
    ensures Join(["", " bar"], Annotation("foo", marker)) == Annotation("foo", marker) + " bar"
  {
    NoOccurrenceWithoutFirst(" bar", "foo", 4);
    JoinHead("", [" bar"], Annotation("foo", marker));
    JoinHead("", [" bar"], "foo");
    assert [""] + [" bar"] == ["", " bar"];
  }

  /** The empty-fragment rows: 'foo bar' comes back as it is, with an
      empty marker and with a non-empty one. */
  lemma MarkEmptyFragmentRows()
    ensures MarkFragment("foo bar", "", "") == "foo bar"
    ensures MarkFragment("foo bar", "", "bar") == "foo bar"
  {
  }

  /** A single occurrence: 'foo' in 'foo bar' is annotated with whatever
      marker is given. */
  lemma MarkFragmentSingleOccurrence(marker: string)
    ensures MarkFragment("foo bar", "foo", marker) == "{{foo}[" + marker + "]} bar"
  {
    SingleRowPieces(marker);
    MarkFragmentByPieces("foo bar", "foo", marker, ["", " bar"]);
  }

  /** The single-occurrence rows, with the empty marker and with 'bar'. */
  lemma MarkFragmentSingleRows()
    ensures MarkFragment("foo bar", "foo", "") == "{{foo}[]} bar"
    ensures MarkFragment("foo bar", "foo", "bar") == "{{foo}[bar]} bar"
  {
    MarkFragmentSingleOccurrence("");
    MarkFragmentSingleOccurrence("bar");
  }

  /** Occurrences are taken leftmost first and do not overlap: in '111'
      only the first of the two overlapping occurrences of '11' is marked. */
  lemma MarkFragmentOverlap()
    ensures MarkFragment("111", "11", "") == "{{11}[]}1"
  {
    assert Join(["", "1"], "11") == "111";
    assert !OccursBefore("11", "11", 0);
    assert !OccursAt("1", "11", 0);
    assert LeftToRight(["", "1"], "11");
    MarkFragmentByPieces("111", "11", "", ["", "1"]);
    assert Join(["", "1"], Annotation("11", "")) == "{{11}[]}1";
  }

  /** The pieces of 'foo bar foo bar' around 'foo'. */
  lemma RepeatedRowPieces()
    ensures Join(["", " bar ", " bar"], "foo") == "foo bar foo bar"
    ensures LeftToRight(["", " bar ", " bar"], "foo")
  {
    NoOccurrenceWithoutFirst(" bar foo", "foo", 5);
    NoOccurrenceWithoutFirst(" bar", "foo", 4);
  }

  lemma RepeatedRowJoin()
    ensures Join(["", " bar ", " bar"], Annotation("foo", "bar")) == "{{foo}[bar]} bar {{foo}[bar]} bar"
  {
    var ann := Annotation("foo", "bar");
    JoinHead(" bar ", [" bar"], ann);
    JoinHead("", [" bar ", " bar"], ann);
    assert [""] + [" bar ", " bar"] == ["", " bar ", " bar"];
  }

  /** The multiple-occurrence marking row: both occurrences of 'foo' are
      annotated. */
  lemma MarkFragmentRepeatedRow()
    ensures MarkFragment("foo bar foo bar", "foo", "bar") == "{{foo}[bar]} bar {{foo}[bar]} bar"
  {
    RepeatedRowPieces();
    MarkFragmentByPieces("foo bar foo bar", "foo", "bar", ["", " bar ", " bar"]);
    RepeatedRowJoin();
  }
}
