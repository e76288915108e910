/** Arithmetic of the dirty region: marking covers what was written, and completing a submission
    forgets only submitted bytes. */
module WritebackDirty {
  import opened Arithmetic
  import opened Pages
  import opened Writeback

  lemma CeilAbove(i: nat, e: nat, m: nat)
    requires m > 0 && i < e
    ensures i / m < (e + m - 1) / m
  {
    DivStep(i, m);
    DivLe(i + m, e + m - 1, m);
  }

  lemma CeilIs(e: nat, m: nat)
    requires m > 0
    ensures (e + m - 1) / m == e / m + if e % m == 0 then 0 else 1
  {
    var q, r := e / m, e % m;
    DivMod(e, m);
    Distribute(q, 1, m);
    Distribute(q, 2, m);
    BlockOf(e + m - 1, if r == 0 then q else q + 1, m);
  }

  lemma CeilBelow(k: nat, e: nat, m: nat)
    requires m > 0 && k < (e + m - 1) / m && e / m <= k
    ensures k == e / m && e % m != 0
  {
    CeilIs(e, m);
  }

  lemma InBlockRange(m: nat, begin: nat, end: nat, i: nat)
    requires m > 0 && begin <= i < end
    ensures i / m in BlockRange(m, begin, end)
  {
    DivLe(begin, i, m);
    CeilAbove(i, end, m);
  }

  lemma {:induction false} FirstFromIs(B: set<nat>, k: nat, n: nat)
    requires k <= n && exists x :: x in B && k <= x < n
    ensures FirstFrom(B, k, n) in B && k <= FirstFrom(B, k, n) < n
    ensures forall x :: x in B && k <= x < n ==> FirstFrom(B, k, n) <= x
    decreases n - k
  {
    if k < n && k !in B {
      FirstFromIs(B, k + 1, n);
    }
  }

  lemma {:induction false} LastBelowIs(B: set<nat>, n: nat)
    requires exists x :: x in B && x < n
    ensures LastBelow(B, n) > 0 && LastBelow(B, n) - 1 in B && LastBelow(B, n) <= n
    ensures forall x :: x in B && x < n ==> x < LastBelow(B, n)
    decreases n
  {
    if n > 0 && n - 1 !in B {
      LastBelowIs(B, n - 1);
    }
  }

  // ---------------------------------------------------------------- marking

  lemma MarkCovers(c: Config, d: Dirty, begin: nat, end: nat, i: nat)
    requires ConfigOk(c) && DirtyOk(c, d) && begin < end <= PAGE
    ensures DirtyAt(c, d, i) ==> DirtyAt(c, Mark(c, d, begin, end), i)
    ensures begin <= i < end ==> DirtyAt(c, Mark(c, d, begin, end), i)
  {
    if begin <= i < end {
      InBlockRange(c.block, begin, end, i);
    }
  }

  lemma MarkOk(c: Config, d: Dirty, begin: nat, end: nat)
    requires ConfigOk(c) && DirtyOk(c, d) && begin < end <= PAGE
    ensures DirtyOk(c, Mark(c, d, begin, end))
  {
    InBlockRange(c.block, begin, end, begin);
    DivLe(end + c.block - 1, PAGE + c.block - 1, c.block);
    PageBlocks(c.block);
  }

  lemma PageBlocks(m: nat)
    requires 0 < m && PAGE % m == 0
    ensures (PAGE + m - 1) / m == PAGE / m
  {
    BlockBounds(PAGE, m);
    assert PAGE == PAGE / m * m;
    BlockOf(PAGE + m - 1, PAGE / m, m);
  }

  // ---------------------------------------------------------------- clearing

  /** The captured range still describes the dirty region: no mark and no resize since the capture. */
  ghost predicate Matches(c: Config, d: Dirty, p: Prepared)
    requires c.block > 0
  {
    && p.begin == d.begin && p.begin <= p.end && (p.end <= d.end || p.end == p.begin)
    && p.blocks == (if c.blockMode then d.blocks * BlockRange(c.block, p.begin, p.end) else {})
  }

  lemma ClearedBlock(c: Config, d: Dirty, p: Prepared, i: nat)
    requires ConfigOk(c) && DirtyOk(c, d) && Matches(c, d, p) && c.blockMode && p.blocks != {}
    requires DirtyAt(c, d, i) && i / c.block in p.blocks && p.end <= i
    ensures p.end < d.end && p.end % c.block != 0 && i / c.block == p.end / c.block
  {
    DivLe(p.end, i, c.block);
    CeilBelow(i / c.block, p.end, c.block);
  }

  /** The blocks that completion leaves dirty. */
  function LeftBlocks(c: Config, d: Dirty, p: Prepared): set<nat>
    requires c.block > 0
  {
    var covered := if p.end < d.end && p.end % c.block != 0 then p.blocks - {p.end / c.block} else p.blocks;
    (d.blocks * BlockRange(c.block, d.begin, d.end)) - covered
  }

  lemma LeftBlocksBounds(c: Config, d: Dirty, p: Prepared)
    requires ConfigOk(c) && DirtyOk(c, d) && c.blockMode && LeftBlocks(c, d, p) != {}
    ensures var left, n := LeftBlocks(c, d, p), PAGE / c.block;
            var first, last := FirstFrom(left, 0, n), LastBelow(left, n);
            && first in left && last > 0 && last - 1 in left && last <= n
            && forall k :: k in left ==> first <= k < last
  {
    var left, n := LeftBlocks(c, d, p), PAGE / c.block;
    var x :| x in left;
    assert x < n;
    FirstFromIs(left, 0, n);
    LastBelowIs(left, n);
  }

  /** A byte of a block that stays dirty stays dirty. */
  lemma LeftStaysDirty(c: Config, d: Dirty, p: Prepared, i: nat)
    requires ConfigOk(c) && DirtyOk(c, d) && c.blockMode && p.blocks != {}
    requires DirtyAt(c, d, i) && i / c.block in LeftBlocks(c, d, p)
    ensures DirtyAt(c, Cleared(c, d, p), i)
  {
    var k, left := i / c.block, LeftBlocks(c, d, p);
    LeftBlocksBounds(c, d, p);
    var first, last := FirstFrom(left, 0, PAGE / c.block), LastBelow(left, PAGE / c.block);
    BlockBounds(i, c.block);
    MulLe(first, k, c.block);
    MulLe(k + 1, last, c.block);
  }

  /** A byte stops being dirty only if it was captured. */
  lemma ClearedWasCaptured(c: Config, d: Dirty, p: Prepared, i: nat)
    requires ConfigOk(c) && DirtyOk(c, d) && Matches(c, d, p)
    requires DirtyAt(c, d, i) && !DirtyAt(c, Cleared(c, d, p), i)
    ensures InCapture(c, p, i)
  {
    if c.blockMode && p.blocks != {} {
      InBlockRange(c.block, d.begin, d.end, i);
      hide Cleared, BlockRange;
      if i / c.block in LeftBlocks(c, d, p) {
        LeftStaysDirty(c, d, p, i);
      } else if p.end <= i {
        ClearedBlock(c, d, p, i);
      }
    }
  }

  lemma CapturedBlocks(c: Config, d: Dirty, p: Prepared)
    requires ConfigOk(c) && DirtyOk(c, d) && Matches(c, d, p) && c.blockMode && p.begin < p.end
    ensures p.blocks != {}
  {
    InBlockRange(c.block, p.begin, p.end, p.begin);
    assert p.begin / c.block in p.blocks;
  }

  lemma ClearedOk(c: Config, d: Dirty, p: Prepared)
    requires ConfigOk(c) && DirtyOk(c, d) && Matches(c, d, p)
    ensures DirtyOk(c, Cleared(c, d, p))
  {
    if c.blockMode && p.begin < p.end {
      CapturedBlocks(c, d, p);
    }
    if c.blockMode && p.blocks != {} {
      var left, n := LeftBlocks(c, d, p), PAGE / c.block;
      if left != {} {
        LeftBlocksBounds(c, d, p);
        var first, last := FirstFrom(left, 0, n), LastBelow(left, n);
        LeftBegin(c, d, first);
        LeftEnd(c, d, first, last);
      }
    }
  }

  lemma LeftBegin(c: Config, d: Dirty, first: nat)
    requires ConfigOk(c) && d.begin < d.end && first in BlockRange(c.block, d.begin, d.end)
    ensures (if d.begin < first * c.block then first * c.block else d.begin) / c.block == first
  {
    if d.begin < first * c.block {
      BlockOf(first * c.block, first, c.block);
    } else {
      BlockBounds(d.begin, c.block);
      MulLe(d.begin / c.block, first, c.block);
      BlockOf(d.begin, first, c.block);
    }
  }

  lemma BlockStartsBelow(k: nat, e: nat, m: nat)
    requires m > 0 && k < (e + m - 1) / m
    ensures k * m < e
  {
    BlockBounds(e + m - 1, m);
    MulLe(k + 1, (e + m - 1) / m, m);
  }

  lemma LeftEnd(c: Config, d: Dirty, first: nat, last: nat)
    requires ConfigOk(c) && d.begin < d.end <= PAGE && first < last
    requires first in BlockRange(c.block, d.begin, d.end) && last - 1 in BlockRange(c.block, d.begin, d.end)
    ensures (if d.begin < first * c.block then first * c.block else d.begin)
            < if d.end > last * c.block then last * c.block else d.end
  {
    BlockStartsBelow(first, d.end, c.block);
    MulLe(first + 1, last, c.block);
    BlockBounds(d.begin, c.block);
    MulLe(d.begin / c.block + 1, last, c.block);
  }
}
