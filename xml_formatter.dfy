/**
 * `XmlFormatter`: two compacting rewrites of serialized XML.
 */
module XmlFormatter {

  import opened Strings

  predicate IsLineBreakOrTab(c: char) { c == '\r' || c == '\n' || c == '\t' }

  /**
   * `removeLineFeedsAndTabs`: carriage returns, line feeds and tabs are
   * deleted; every other character, spaces included, stays in order.
   */
  function RemoveLineFeedsAndTabs(s: string): (r: string)
    ensures IsSubsequence(r, s)
    ensures forall k | 0 <= k < |r| :: !IsLineBreakOrTab(r[k])
    decreases |s|
  {
    if s == [] then []
    else
      var rest := RemoveLineFeedsAndTabs(s[1..]);
      if IsLineBreakOrTab(s[0]) then rest
      else
        assert ([s[0]] + rest)[1..] == rest;
        [s[0]] + rest
  }

  /** Every other character `c` is kept as often as `s` holds it. */
  lemma {:induction false} RemoveLineFeedsAndTabsCounts(s: string, c: char)
    requires !IsLineBreakOrTab(c)
    ensures multiset(RemoveLineFeedsAndTabs(s))[c] == multiset(s)[c]
    decreases |s|
  {
    if s != [] {
      RemoveLineFeedsAndTabsCounts(s[1..], c);
      assert s == [s[0]] + s[1..];
      if !IsLineBreakOrTab(s[0]) {
        var rest := RemoveLineFeedsAndTabs(s[1..]);
        assert multiset([s[0]] + rest) == multiset([s[0]]) + multiset(rest);
      }
    }
  }

  /** Text without any of the three is returned as it is. */
  lemma {:induction false} RemoveLineFeedsAndTabsIdentity(s: string)
    requires forall k | 0 <= k < |s| :: !IsLineBreakOrTab(s[k])
    ensures RemoveLineFeedsAndTabs(s) == s
    decreases |s|
  {
    if s != [] {
      RemoveLineFeedsAndTabsIdentity(s[1..]);
      assert s == [s[0]] + s[1..];
    }
  }

  /** Removing line feeds and tabs a second time changes nothing. */
  lemma RemoveLineFeedsAndTabsIdempotent(s: string)
    ensures RemoveLineFeedsAndTabs(RemoveLineFeedsAndTabs(s)) == RemoveLineFeedsAndTabs(s)
  {
    RemoveLineFeedsAndTabsIdentity(RemoveLineFeedsAndTabs(s));
  }

  /** `r` and `s` differ only in their `\s` characters. */
  predicate SameNonSpace(r: string, s: string) {
    DropSpaces(r) == DropSpaces(s)
  }

  lemma SameNonSpaceAppend(r1: string, s1: string, r2: string, s2: string)
    requires SameNonSpace(r1, s1) && SameNonSpace(r2, s2)
    ensures SameNonSpace(r1 + r2, s1 + s2)
  {
    DropSpacesAppend(r1, r2);
    DropSpacesAppend(s1, s2);
  }

  /** `>\s+<` matches at `i`: a `>`, at least one `\s`, then a `<`. */
  predicate GapAt(s: string, i: nat)
    requires i < |s|
  {
    s[i] == '>' && i + 1 < |s| && IsSpace(s[i + 1]) && SkipSpaces(s, i + 1) < |s| && s[SkipSpaces(s, i + 1)] == '<'
  }

  predicate NoGap(s: string) {
    forall k | 0 <= k < |s| :: !GapAt(s, k)
  }

  /**
   * One step of `removeWhitespaceBetweenTags` at `i`: on a match `><` is
   * emitted and the scan resumes after the `<`; otherwise the character is
   * copied.
   */
  function Step(s: string, i: nat): (r: (string, nat))
    requires i < |s|
    ensures i < r.1 <= |s| && 0 < |r.0| <= r.1 - i && r.0[0] == s[i]
  {
    if GapAt(s, i) then ("><", SkipSpaces(s, i + 1) + 1) else ([s[i]], i + 1)
  }

  /** `removeWhitespaceBetweenTags` from position `i`. */
  function CollapseFrom(s: string, i: nat): (r: string)
    requires i <= |s|
    ensures |r| <= |s| - i
    ensures r != [] ==> r[0] == s[i]
    decreases |s| - i
  {
    if i == |s| then []
    else
      var (piece, next) := Step(s, i);
      piece + CollapseFrom(s, next)
  }

  /** A step drops only `\s` characters of those it consumed. */
  lemma StepKeepsNonSpace(s: string, i: nat)
    requires i < |s|
    ensures SameNonSpace(Step(s, i).0, s[i..Step(s, i).1])
  {
    if GapAt(s, i) {
      GapKeepsNonSpace(s, i, SkipSpaces(s, i + 1));
    } else {
      assert s[i..i + 1] == [s[i]];
    }
  }

  /** Collapsing `>\s+<` from `i` to `j` drops only the spaces between the two. */
  lemma GapKeepsNonSpace(s: string, i: nat, j: nat)
    requires i < j < |s| && s[i] == '>' && s[j] == '<'
    requires forall k | i < k < j :: IsSpace(s[k])
    ensures SameNonSpace("><", s[i..j + 1])
  {
    var mid := s[i + 1..j];
    assert s[i..j + 1] == ['>'] + (mid + ['<']);
    DropAllSpaces(mid);
    DropSpacesAppend(mid, ['<']);
    DropSpacesAppend(['>'], mid + ['<']);
    DropSpacesAppend(['>'], ['<']);
    assert ['>'] + ['<'] == "><";
  }

  /** A step emits a subsequence of the characters it consumed. */
  lemma StepIsSubsequence(s: string, i: nat)
    requires i < |s|
    ensures IsSubsequence(Step(s, i).0, s[i..Step(s, i).1])
  {
    if GapAt(s, i) {
      var j := SkipSpaces(s, i + 1);
      var mid := s[i + 1..j];
      assert s[i..j + 1] == ['>'] + mid + ['<'];
      SubsequenceOfLast('<', mid);
      assert (['>'] + mid + ['<'])[1..] == mid + ['<'];
    } else {
      assert s[i..i + 1] == [s[i]];
    }
  }

  /** The first step of the scan from `i`, and the scan from where it stops. */
  lemma CollapseUnfold(s: string, i: nat, piece: string, next: nat)
    requires i < |s| && Step(s, i) == (piece, next)
    ensures CollapseFrom(s, i) == piece + CollapseFrom(s, next)
  {
  }

  /** Only `\s` characters are deleted. */
  lemma {:induction false} CollapseKeepsNonSpace(s: string, i: nat)
    requires i <= |s|
    ensures SameNonSpace(CollapseFrom(s, i), s[i..])
    decreases |s| - i
  {
    if i < |s| {
      var piece, next := Step(s, i).0, Step(s, i).1;
      CollapseUnfold(s, i, piece, next);
      CollapseKeepsNonSpace(s, next);
      StepKeepsNonSpace(s, i);
      assert s[i..] == s[i..next] + s[next..];
      SameNonSpaceAppend(piece, s[i..next], CollapseFrom(s, next), s[next..]);
    }
  }

  /** The characters kept stay in their order. */
  lemma {:induction false} CollapseIsSubsequence(s: string, i: nat)
    requires i <= |s|
    ensures IsSubsequence(CollapseFrom(s, i), s[i..])
    decreases |s| - i
  {
    if i < |s| {
      var piece, next := Step(s, i).0, Step(s, i).1;
      CollapseUnfold(s, i, piece, next);
      CollapseIsSubsequence(s, next);
      StepIsSubsequence(s, i);
      assert s[i..] == s[i..next] + s[next..];
      SubsequenceAppend(piece, s[i..next], CollapseFrom(s, next), s[next..]);
    }
  }

  /** Text without `>\s+<` is returned as it is. */
  lemma {:induction false} CollapseIdentity(s: string, i: nat)
    requires i <= |s|
    ensures (forall k | i <= k < |s| :: !GapAt(s, k)) ==> CollapseFrom(s, i) == s[i..]
    decreases |s| - i
  {
    if i < |s| {
      CollapseIdentity(s, i + 1);
      assert s[i..] == [s[i]] + s[i + 1..];
    }
  }

  /** A run of `\s` is copied as it is. */
  lemma {:induction false} CollapseCopiesSpaces(s: string, k: nat, j: nat)
    requires k <= j <= |s|
    requires forall m | k <= m < j :: IsSpace(s[m])
    ensures CollapseFrom(s, k) == s[k..j] + CollapseFrom(s, j)
    decreases j - k
  {
    if k < j {
      CollapseCopiesOne(s, k);
      CollapseCopiesSpaces(s, k + 1, j);
      SliceCons(s, k, j, CollapseFrom(s, j));
    }
  }

  /** A character that does not start a match is copied. */
  lemma CollapseCopiesOne(s: string, k: nat)
    requires k < |s| && s[k] != '>'
    ensures CollapseFrom(s, k) == [s[k]] + CollapseFrom(s, k + 1)
  {
    CollapseUnfold(s, k, [s[k]], k + 1);
  }

  lemma SliceCons(s: string, k: nat, j: nat, rest: string)
    requires k < j <= |s|
    ensures [s[k]] + (s[k + 1..j] + rest) == s[k..j] + rest
  {
    assert s[k..j] == [s[k]] + s[k + 1..j];
  }

  /** Gaps inside `b` are gaps of `p + b` at the shifted position. */
  lemma GapShift(p: string, b: string, k: nat)
    requires k < |b|
    ensures GapAt(p + b, |p| + k) == GapAt(b, k)
  {
    if k + 1 < |b| {
      SkipSpacesShift(p, b, k + 1);
    }
  }

  /** The rewritten text holds no `>\s+<` any more. */
  lemma {:induction false} CollapseLeavesNoGap(s: string, i: nat)
    requires i <= |s|
    ensures NoGap(CollapseFrom(s, i))
    decreases |s| - i
  {
    if i < |s| {
      var piece, next := Step(s, i).0, Step(s, i).1;
      var rest := CollapseFrom(s, next);
      CollapseUnfold(s, i, piece, next);
      CollapseLeavesNoGap(s, next);
      forall k | 0 <= k < |piece + rest| ensures !GapAt(piece + rest, k) {
        if k >= |piece| {
          GapShift(piece, rest, k - |piece|);
        } else {
          NoGapAtHead(s, i, piece, next);
        }
      }
    }
  }

  /** Where a step starts, the output of the scan holds no match. */
  lemma NoGapAtHead(s: string, i: nat, piece: string, next: nat)
    requires i < |s| && Step(s, i) == (piece, next)
    requires NoGap(CollapseFrom(s, next))
    ensures forall k | 0 <= k < |piece| :: !GapAt(CollapseFrom(s, i), k)
  {
    CollapseUnfold(s, i, piece, next);
    if GapAt(s, i) {
      assert CollapseFrom(s, i)[1] == '<';
    } else if s[i] == '>' && i + 1 < |s| && IsSpace(s[i + 1]) {
      UnmatchedSpaces(s, i);
    }
  }

  /** `>` and `\s` not followed by `<`: the spaces are copied and stay unmatched. */
  lemma UnmatchedSpaces(s: string, i: nat)
    requires i + 1 < |s| && s[i] == '>' && IsSpace(s[i + 1]) && !GapAt(s, i)
    ensures !GapAt(CollapseFrom(s, i), 0)
  {
    var j := SkipSpaces(s, i + 1);
    var r := CollapseFrom(s, i);
    CollapseUnfold(s, i, [s[i]], i + 1);
    CollapseCopiesSpaces(s, i + 1, j);
    assert r == [s[i]] + s[i + 1..j] + CollapseFrom(s, j);
    SkipSpacesTo(r, 1, j - i);
  }

  /** `removeWhitespaceBetweenTags`. */
  function RemoveWhitespaceBetweenTags(s: string): (r: string)
    ensures |r| <= |s|
    ensures IsSubsequence(r, s)
    ensures SameNonSpace(r, s)
    ensures NoGap(s) ==> r == s
  {
    assert s[0..] == s;
    CollapseKeepsNonSpace(s, 0);
    CollapseIsSubsequence(s, 0);
    CollapseIdentity(s, 0);
    CollapseFrom(s, 0)
  }

  /** A second pass finds nothing left to collapse. */
  lemma RemoveWhitespaceBetweenTagsIdempotent(s: string)
    ensures RemoveWhitespaceBetweenTags(RemoveWhitespaceBetweenTags(s)) == RemoveWhitespaceBetweenTags(s)
  {
    CollapseLeavesNoGap(s, 0);
  }
}
