/** The matched-character count M behind difflib.SequenceMatcher.ratio(),
    as the scoring in backend.py uses it (no junk function).

    SequenceMatcher finds the longest block the two strings have in common
    inside a window a[alo..ahi], b[blo..bhi] (ties broken by the earliest
    start in a, then the earliest start in b), and then repeats the search
    in the window to the left of that block and in the window to its right.
    M is the total size of the blocks found. */
module Similarity {

  /** The part a[alo..ahi], b[blo..bhi] of the two strings being searched. */
  datatype Window = Window(alo: nat, ahi: nat, blo: nat, bhi: nat)

  /** A candidate block: a[i..i+size] == b[j..j+size]. */
  datatype Block = Block(i: nat, j: nat, size: nat)

  predicate ValidWindow(a: string, b: string, w: Window) {
    w.alo <= w.ahi <= |a| && w.blo <= w.bhi <= |b|
  }

  /** The window over the whole of both strings. */
  function Whole(a: string, b: string): (w: Window)
    ensures ValidWindow(a, b, w)
  {
    Window(0, |a|, 0, |b|)
  }

  /** Size of the longest block inside the window that starts at a[i] and
      b[j]. */
  function Run(a: string, b: string, w: Window, i: nat, j: nat): (k: nat)
    requires ValidWindow(a, b, w)
    ensures i + k <= w.ahi || k == 0
    ensures j + k <= w.bhi || k == 0
    decreases w.ahi - i
  {
    if i < w.ahi && j < w.bhi && a[i] == b[j] then 1 + Run(a, b, w, i + 1, j + 1) else 0
  }

  /** a[i + n] and b[j + n] exist and coincide. */
  predicate SameAt(a: string, b: string, i: nat, j: nat, n: nat) {
    i + n < |a| && j + n < |b| && a[i + n] == b[j + n]
  }

  /** a[i..i+k] == b[j..j+k], place by place. */
  predicate Agree(a: string, b: string, i: nat, j: nat, k: nat) {
    forall n | 0 <= n < k :: SameAt(a, b, i, j, n)
  }

  /** The characters of a run coincide. */
  lemma {:induction false} RunAgrees(a: string, b: string, w: Window, i: nat, j: nat)
    requires ValidWindow(a, b, w)
    ensures Agree(a, b, i, j, Run(a, b, w, i, j))
    decreases w.ahi - i
  {
    if Run(a, b, w, i, j) > 0 {
      RunAgrees(a, b, w, i + 1, j + 1);
      forall n | 0 < n < Run(a, b, w, i, j) ensures SameAt(a, b, i, j, n) {
        assert SameAt(a, b, i + 1, j + 1, n - 1);
      }
      assert SameAt(a, b, i, j, 0);
    }
  }

  /** Characters that coincide over k places inside the window give a run
      of at least k. */
  lemma {:induction false} RunAtLeast(a: string, b: string, w: Window, i: nat, j: nat, k: nat)
    requires ValidWindow(a, b, w) && i + k <= w.ahi && j + k <= w.bhi
    requires Agree(a, b, i, j, k)
    ensures Run(a, b, w, i, j) >= k
    decreases k
  {
    if k > 0 {
      assert SameAt(a, b, i, j, 0);
      var i', j' := i + 1, j + 1;
      forall n | 0 <= n < k - 1 ensures SameAt(a, b, i', j', n) {
        assert SameAt(a, b, i, j, n + 1);
      }
      RunAtLeast(a, b, w, i + 1, j + 1, k - 1);
    }
  }

  /** The two sides of the window hold the same characters. */
  predicate AgreesIn(a: string, b: string, w: Window) {
    w.alo <= w.ahi && Agree(a, b, w.alo, w.blo, w.ahi - w.alo)
  }

  /** Two agreeing stretches, one after the other, agree as a whole. */
  lemma AgreeConcat(a: string, b: string, i: nat, j: nat, k: nat, k': nat)
    requires Agree(a, b, i, j, k) && Agree(a, b, i + k, j + k, k')
    ensures Agree(a, b, i, j, k + k')
  {
    forall n | k <= n < k + k' ensures SameAt(a, b, i, j, n) {
      assert SameAt(a, b, i + k, j + k, n - k);
    }
  }

  /** (i', j') comes before (i, j) in the order of the search: rows of a
      first, then positions in b. */
  predicate Before(i': int, j': int, i: int, j: int) {
    i' < i || (i' == i && j' < j)
  }

  /** blk lies inside the window; an empty block sits at (alo, blo), where
      find_longest_match puts it. */
  predicate InWindow(w: Window, blk: Block) {
    && w.alo <= blk.i && blk.i + blk.size <= w.ahi
    && w.blo <= blk.j && blk.j + blk.size <= w.bhi
    && (blk.size == 0 ==> blk.i == w.alo && blk.j == w.blo)
  }

  /** best is the block the search keeps after looking at every start
      position before (i, j): a run of its size starts there, no earlier
      position starts a longer one, and every position before best starts
      a strictly shorter one. */
  ghost predicate BestSoFar(a: string, b: string, w: Window, best: Block, i: int, j: int)
    requires ValidWindow(a, b, w)
  {
    && InWindow(w, best)
    && (best.size > 0 ==> Before(best.i, best.j, i, j) && Run(a, b, w, best.i, best.j) == best.size)
    && (forall i', j' | Before(i', j', i, j) && w.alo <= i' < w.ahi && w.blo <= j' < w.bhi
          :: Run(a, b, w, i', j') <= best.size)
    && (forall i', j' | Before(i', j', best.i, best.j) && w.alo <= i' < w.ahi && w.blo <= j' < w.bhi
          :: Run(a, b, w, i', j') < best.size)
  }

  /** Scans row i of the window from position j of b on, keeping the first
      block that is strictly longer than the best one so far. */
  function ScanRow(a: string, b: string, w: Window, i: nat, j: nat, best: Block): (r: Block)
    requires ValidWindow(a, b, w) && w.alo <= i < w.ahi && w.blo <= j <= w.bhi
    requires InWindow(w, best)
    ensures InWindow(w, r)
    decreases w.bhi - j
  {
    if j == w.bhi then best
    else
      var k := Run(a, b, w, i, j);
      ScanRow(a, b, w, i, j + 1, if k > best.size then Block(i, j, k) else best)
  }

  /** Scans the rows of the window from row i of a on. */
  function ScanRows(a: string, b: string, w: Window, i: nat, best: Block): (r: Block)
    requires ValidWindow(a, b, w) && w.alo <= i <= w.ahi
    requires InWindow(w, best)
    ensures InWindow(w, r)
    decreases w.ahi - i
  {
    if i == w.ahi then best else ScanRows(a, b, w, i + 1, ScanRow(a, b, w, i, w.blo, best))
  }

  lemma {:induction false} ScanRowKeepsBest(a: string, b: string, w: Window, i: nat, j: nat, best: Block)
    requires ValidWindow(a, b, w) && w.alo <= i < w.ahi && w.blo <= j <= w.bhi
    requires BestSoFar(a, b, w, best, i, j)
    ensures BestSoFar(a, b, w, ScanRow(a, b, w, i, j, best), i, w.bhi)
    decreases w.bhi - j
  {
    if j < w.bhi {
      var k := Run(a, b, w, i, j);
      ScanRowKeepsBest(a, b, w, i, j + 1, if k > best.size then Block(i, j, k) else best);
    }
  }

  /** Having scanned the whole of row i is having scanned up to row i + 1. */
  lemma RowDone(a: string, b: string, w: Window, best: Block, i: nat)
    requires ValidWindow(a, b, w)
    requires BestSoFar(a, b, w, best, i, w.bhi)
    ensures BestSoFar(a, b, w, best, i + 1, w.blo)
  {
    forall i', j' | Before(i', j', i + 1, w.blo) && w.alo <= i' < w.ahi && w.blo <= j' < w.bhi
      ensures Before(i', j', i, w.bhi)
    {
    }
  }

  lemma {:induction false} ScanRowsKeepsBest(a: string, b: string, w: Window, i: nat, best: Block)
    requires ValidWindow(a, b, w) && w.alo <= i <= w.ahi
    requires BestSoFar(a, b, w, best, i, w.blo)
    ensures BestSoFar(a, b, w, ScanRows(a, b, w, i, best), w.ahi, w.blo)
    decreases w.ahi - i
  {
    if i < w.ahi {
      var row := ScanRow(a, b, w, i, w.blo, best);
      ScanRowKeepsBest(a, b, w, i, w.blo, best);
      RowDone(a, b, w, row, i);
      ScanRowsKeepsBest(a, b, w, i + 1, row);
    }
  }

  /** find_longest_match(alo, ahi, blo, bhi): the scan over every start
      position of the window, rows of a first. */
  function LongestMatch(a: string, b: string, w: Window): (r: Block)
    requires ValidWindow(a, b, w)
    ensures InWindow(w, r)
  {
    ScanRows(a, b, w, w.alo, Block(w.alo, w.blo, 0))
  }

  /** The block find_longest_match must return: the longest block the two
      strings have in common inside the window, the earliest in a among the
      longest, and the earliest in b among those; the empty block at
      (alo, blo) when the window holds no common character. */
  ghost predicate IsLongestMatch(a: string, b: string, w: Window, r: Block)
    requires ValidWindow(a, b, w)
  {
    && InWindow(w, r)
    && (r.size > 0 ==> Run(a, b, w, r.i, r.j) == r.size)
    && (forall i', j' | w.alo <= i' < w.ahi && w.blo <= j' < w.bhi :: Run(a, b, w, i', j') <= r.size)
    && (forall i', j' | Before(i', j', r.i, r.j) && w.alo <= i' < w.ahi && w.blo <= j' < w.bhi
          :: Run(a, b, w, i', j') < r.size)
  }

  /** The scan finds the block the specification describes. */
  lemma LongestMatchIsLongest(a: string, b: string, w: Window)
    requires ValidWindow(a, b, w)
    ensures IsLongestMatch(a, b, w, LongestMatch(a, b, w))
  {
    ScanRowsKeepsBest(a, b, w, w.alo, Block(w.alo, w.blo, 0));
    assert forall i', j' | w.alo <= i' < w.ahi && w.blo <= j' < w.bhi :: Before(i', j', w.ahi, w.blo);
  }

  /** The specification leaves no choice: at most one block meets it. */
  lemma LongestMatchUnique(a: string, b: string, w: Window, r: Block, r': Block)
    requires ValidWindow(a, b, w)
    requires IsLongestMatch(a, b, w, r) && IsLongestMatch(a, b, w, r')
    ensures r == r'
  {
    assert r.size > 0 ==> Run(a, b, w, r.i, r.j) <= r'.size;
    assert r'.size > 0 ==> Run(a, b, w, r'.i, r'.j) <= r.size;
    assert r.size == r'.size;
  }

  /** The block that meets the specification, for use in proofs. */
  ghost function SpecifiedMatch(a: string, b: string, w: Window): (r: Block)
    requires ValidWindow(a, b, w)
    ensures IsLongestMatch(a, b, w, r)
  {
    LongestMatchIsLongest(a, b, w);
    var r :| IsLongestMatch(a, b, w, r); r
  }

  /** The window to the left of a block, and the window to its right. */
  function LeftOf(w: Window, blk: Block): Window
    requires InWindow(w, blk)
  {
    Window(w.alo, blk.i, w.blo, blk.j)
  }

  function RightOf(w: Window, blk: Block): Window
    requires InWindow(w, blk)
  {
    Window(blk.i + blk.size, w.ahi, blk.j + blk.size, w.bhi)
  }

  /** The total size of the matching blocks in the window
      (get_matching_blocks): the longest block, then the same search to its
      left and to its right. Never more than either side of the window. */
  ghost function MatchesIn(a: string, b: string, w: Window): (m: nat)
    requires ValidWindow(a, b, w)
    ensures m <= w.ahi - w.alo && m <= w.bhi - w.blo
    decreases w.ahi - w.alo + w.bhi - w.blo
  {
    var blk := SpecifiedMatch(a, b, w);
    if blk.size == 0 then 0
    else blk.size + MatchesIn(a, b, LeftOf(w, blk)) + MatchesIn(a, b, RightOf(w, blk))
  }

  /** get_matching_blocks as it runs: the scan finds the longest block,
      and the windows on either side of it are searched in turn. */
  function CountMatches(a: string, b: string, w: Window): (m: nat)
    requires ValidWindow(a, b, w)
    ensures m <= w.ahi - w.alo && m <= w.bhi - w.blo
    decreases w.ahi - w.alo + w.bhi - w.blo
  {
    var blk := LongestMatch(a, b, w);
    if blk.size == 0 then 0
    else blk.size + CountMatches(a, b, LeftOf(w, blk)) + CountMatches(a, b, RightOf(w, blk))
  }

  /** The running count is the specified one. */
  lemma {:induction false} CountMatchesIsMatches(a: string, b: string, w: Window)
    requires ValidWindow(a, b, w)
    ensures CountMatches(a, b, w) == MatchesIn(a, b, w)
    decreases w.ahi - w.alo + w.bhi - w.blo
  {
    var blk := LongestMatch(a, b, w);
    LongestMatchIsLongest(a, b, w);
    MatchesSplit(a, b, w, blk);
    if blk.size > 0 {
      CountMatchesIsMatches(a, b, LeftOf(w, blk));
      CountMatchesIsMatches(a, b, RightOf(w, blk));
    }
  }

  /** M for two whole strings. */
  ghost function Matches(a: string, b: string): (m: nat)
    ensures m <= |a| && m <= |b|
  {
    MatchesIn(a, b, Whole(a, b))
  }

  /** One step of get_matching_blocks, for any block that meets the
      specification, for instance the one the scan finds. */
  lemma MatchesSplit(a: string, b: string, w: Window, blk: Block)
    requires ValidWindow(a, b, w) && IsLongestMatch(a, b, w, blk)
    ensures blk.size == 0 ==> MatchesIn(a, b, w) == 0
    ensures blk.size > 0 ==>
      MatchesIn(a, b, w) == blk.size + MatchesIn(a, b, LeftOf(w, blk)) + MatchesIn(a, b, RightOf(w, blk))
  {
    LongestMatchUnique(a, b, w, blk, SpecifiedMatch(a, b, w));
  }

  /** When every character on both sides of a window is matched, so is
      every character on both sides of the windows left and right of the
      longest block. */
  lemma MatchesSplitFull(a: string, b: string, w: Window, blk: Block)
    requires ValidWindow(a, b, w) && IsLongestMatch(a, b, w, blk)
    requires MatchesIn(a, b, w) == w.ahi - w.alo == w.bhi - w.blo
    ensures blk.size == 0 ==> w.ahi == w.alo
    ensures blk.size > 0 ==> blk.i - w.alo == blk.j - w.blo
    ensures blk.size > 0 ==>
      var l := LeftOf(w, blk); MatchesIn(a, b, l) == l.ahi - l.alo == l.bhi - l.blo
    ensures blk.size > 0 ==>
      var r := RightOf(w, blk); MatchesIn(a, b, r) == r.ahi - r.alo == r.bhi - r.blo
  {
    MatchesSplit(a, b, w, blk);
  }

  /** Agreement left of a block, on the block and right of it is
      agreement over the whole window. */
  lemma AgreeAround(a: string, b: string, w: Window, blk: Block)
    requires ValidWindow(a, b, w) && InWindow(w, blk)
    requires blk.i - w.alo == blk.j - w.blo
    requires AgreesIn(a, b, LeftOf(w, blk)) && AgreesIn(a, b, RightOf(w, blk))
    requires Run(a, b, w, blk.i, blk.j) == blk.size && Agree(a, b, blk.i, blk.j, Run(a, b, w, blk.i, blk.j))
    ensures AgreesIn(a, b, w)
  {
    AgreeConcat(a, b, w.alo, w.blo, blk.i - w.alo, blk.size);
    AgreeConcat(a, b, w.alo, w.blo, blk.i - w.alo + blk.size, w.ahi - blk.i - blk.size);
  }

  /** When every character on both sides of a window is matched, the two
      sides hold the same characters. */
  lemma {:induction false} MatchesAllOnlyIfEqualIn(a: string, b: string, w: Window)
    requires ValidWindow(a, b, w)
    requires MatchesIn(a, b, w) == w.ahi - w.alo == w.bhi - w.blo
    ensures AgreesIn(a, b, w)
    decreases w.ahi - w.alo + w.bhi - w.blo
  {
    var blk := SpecifiedMatch(a, b, w);
    MatchesSplitFull(a, b, w, blk);
    if blk.size > 0 {
      MatchesAllOnlyIfEqualIn(a, b, LeftOf(w, blk));
      MatchesAllOnlyIfEqualIn(a, b, RightOf(w, blk));
      RunAgrees(a, b, w, blk.i, blk.j);
      AgreeAround(a, b, w, blk);
    }
  }

  /** A string matches itself completely. */
  lemma MatchesSelf(a: string)
    ensures Matches(a, a) == |a|
  {
    var w := Whole(a, a);
    var blk := SpecifiedMatch(a, a, w);
    MatchesSplit(a, a, w, blk);
    if |a| > 0 {
      RunAtLeast(a, a, w, 0, 0, |a|);
      assert blk.i == 0 && blk.j == 0 && blk.size == |a|;
    }
  }

  /** Equal strings are exactly the pairs that match completely. */
  lemma MatchesAllIffEqual(a: string, b: string)
    ensures (Matches(a, b) == |a| == |b|) <==> a == b
  {
    if a == b {
      MatchesSelf(a);
    } else if Matches(a, b) == |a| == |b| {
      MatchesAllOnlyIfEqualIn(a, b, Whole(a, b));
      forall n | 0 <= n < |a| ensures a[n] == b[n] {
        assert SameAt(a, b, 0, 0, n);
      }
    }
  }

  /** There is a match exactly when the strings share a character. */
  lemma MatchesPositiveIffSharedChar(a: string, b: string)
    ensures Matches(a, b) > 0 <==> exists i, j | 0 <= i < |a| && 0 <= j < |b| :: a[i] == b[j]
  {
    var w := Whole(a, b);
    var blk := SpecifiedMatch(a, b, w);
    MatchesSplit(a, b, w, blk);
    if exists i, j | 0 <= i < |a| && 0 <= j < |b| :: a[i] == b[j] {
      var i, j :| 0 <= i < |a| && 0 <= j < |b| && a[i] == b[j];
      assert Run(a, b, w, i, j) > 0;
    }
    if blk.size > 0 {
      RunAgrees(a, b, w, blk.i, blk.j);
      assert SameAt(a, b, blk.i, blk.j, 0);
    }
  }

  /** A prefix of a string matches that string as far as the prefix goes:
      dropping the end of a phrase loses only the dropped characters. */
  lemma MatchesPrefix(a: string, x: string)
    requires x <= a
    ensures Matches(a, x) == |x|
  {
    var w := Whole(a, x);
    var blk := SpecifiedMatch(a, x, w);
    MatchesSplit(a, x, w, blk);
    if |x| > 0 {
      forall n | 0 <= n < |x| ensures SameAt(a, x, 0, 0, n) {
      }
      RunAtLeast(a, x, w, 0, 0, |x|);
      assert blk.size == |x| && blk.j == 0;
      assert blk.i == 0;
    }
  }
}
