/**
 The search for a run of free units, `find_free_units` of kernel/memory/mem_alloc.c, stated unit by
 unit over the sequence `used` (one boolean per unit), and what a caller may conclude from its result.

 `AsWritten` is the search as the source has it: skipping a full word leaves `count` alone.
 `WithReset` is the intended search, which also sets `count` to 0 when it skips a full word.
 */
module Search {

  datatype Variant = AsWritten | WithReset

  /** Unit `i` lies in a bitmap word whose 32 bits are all set. */
  predicate InFullWord(used: seq<bool>, i: nat) {
    FullWord(used, i / 32)
  }

  predicate FullWord(used: seq<bool>, w: nat) {
    32 * w + 32 <= |used| && forall i :: 32 * w <= i < 32 * w + 32 ==> used[i]
  }

  /** The scan standing before unit `i`, with the `count` and `start` it has collected. */
  function FindFrom(v: Variant, used: seq<bool>, needed: nat, i: nat, count: nat, start: int): int
    requires i <= |used|
    decreases |used| - i
  {
    if i == |used| then -1
    else if InFullWord(used, i) then
      FindFrom(v, used, needed, i + 1, if v.WithReset? then 0 else count, start)
    else if used[i] then
      FindFrom(v, used, needed, i + 1, 0, start)
    else
      var s := if count == 0 then i else start;
      if count + 1 == needed then s else FindFrom(v, used, needed, i + 1, count + 1, s)
  }

  function Find(v: Variant, used: seq<bool>, needed: nat): int {
    FindFrom(v, used, needed, 0, 0, -1)
  }

  /** `needed` consecutive free units begin at `s`. */
  ghost predicate Fits(used: seq<bool>, needed: nat, s: int) {
    0 <= s && s + needed <= |used| && forall i :: s <= i < s + needed ==> !used[i]
  }

  /** The plain scan: try every start from `s` upwards and look at every unit. */
  ghost function FirstFit(used: seq<bool>, needed: nat, s: nat): int
    requires s <= |used|
    decreases |used| - s
  {
    if Fits(used, needed, s) then s
    else if s == |used| then -1
    else FirstFit(used, needed, s + 1)
  }

  /** Some full word begins strictly inside the window of `needed` units at `s`. */
  ghost predicate SpansFullWord(used: seq<bool>, needed: nat, s: int) {
    exists w: nat :: s < 32 * w < s + needed && FullWord(used, w)
  }

  /** What the scan's variables mean when it stands before unit `i`. */
  ghost predicate ScanInv(v: Variant, used: seq<bool>, needed: nat, i: nat, count: nat, start: int) {
    && i <= |used| && count < needed
    && (count > 0 ==>
          && 0 <= start && start + count <= i && !used[start]
          && (forall k :: start <= k < i ==> !used[k] || InFullWord(used, k))
          && (v.WithReset? ==> start + count == i && forall k :: start <= k < i ==> !used[k]))
  }

  lemma {:induction false} WindowFrom(v: Variant, used: seq<bool>, needed: nat, i: nat, count: nat, start: int)
    requires ScanInv(v, used, needed, i, count, start)
    ensures var r := FindFrom(v, used, needed, i, count, start);
            r != -1 ==>
              && 0 <= r && r + needed <= |used| && !used[r]
              && (forall k :: r <= k < r + needed ==> !used[k] || InFullWord(used, k))
              && (v.WithReset? ==> Fits(used, needed, r))
    decreases |used| - i
  {
    if i == |used| {
    } else if InFullWord(used, i) {
      WindowFrom(v, used, needed, i + 1, if v.WithReset? then 0 else count, start);
    } else if used[i] {
      WindowFrom(v, used, needed, i + 1, 0, start);
    } else {
      var s := if count == 0 then i else start;
      if count + 1 != needed {
        WindowFrom(v, used, needed, i + 1, count + 1, s);
      }
    }
  }

  lemma FullWordUsed(used: seq<bool>, i: nat)
    requires i < |used| && InFullWord(used, i)
    ensures used[i]
  {
    assert 32 * (i / 32) <= i < 32 * (i / 32) + 32;
  }

  lemma {:induction false} CompleteFrom(v: Variant, used: seq<bool>, needed: nat, i: nat, count: nat, start: int, fit: nat)
    requires ScanInv(v, used, needed, i, count, start)
    requires needed >= 1 && Fits(used, needed, fit)
    requires i <= fit || (i < fit + needed && count >= i - fit && start <= fit)
    ensures 0 <= FindFrom(v, used, needed, i, count, start) <= fit
    decreases |used| - i
  {
    if InFullWord(used, i) {
      FullWordUsed(used, i);
      CompleteFrom(v, used, needed, i + 1, if v.WithReset? then 0 else count, start, fit);
    } else if used[i] {
      CompleteFrom(v, used, needed, i + 1, 0, start, fit);
    } else {
      var s := if count == 0 then i else start;
      if count + 1 != needed {
        CompleteFrom(v, used, needed, i + 1, count + 1, s, fit);
      }
    }
  }

  /** The returned window, whichever search made it. */
  lemma Window(v: Variant, used: seq<bool>, needed: nat)
    ensures var r := Find(v, used, needed);
            r != -1 ==>
              && needed >= 1
              && 0 <= r && r + needed <= |used| && !used[r]
              && (forall k :: r <= k < r + needed ==> !used[k] || InFullWord(used, k))
              && (v.WithReset? ==> Fits(used, needed, r))
  {
    if needed == 0 {
      NothingForNothing(v, used, 0, 0, -1);
    } else {
      WindowFrom(v, used, needed, 0, 0, -1);
    }
  }

  /** A request for no units (reached when the size arithmetic wraps) is never granted. */
  lemma {:induction false} NothingForNothing(v: Variant, used: seq<bool>, i: nat, count: nat, start: int)
    requires i <= |used|
    ensures FindFrom(v, used, 0, i, count, start) == -1
    decreases |used| - i
  {
    if i < |used| {
      var s := if count == 0 then i else start;
      NothingForNothing(v, used, i + 1, if v.WithReset? then 0 else count, start);
      NothingForNothing(v, used, i + 1, 0, start);
      NothingForNothing(v, used, i + 1, count, start);
      NothingForNothing(v, used, i + 1, count + 1, s);
    }
  }

  /** Either search reports failure only when no run of free units exists, and never starts later than one. */
  lemma Complete(v: Variant, used: seq<bool>, needed: nat, fit: nat)
    requires needed >= 1 && Fits(used, needed, fit)
    ensures 0 <= Find(v, used, needed) <= fit
  {
    CompleteFrom(v, used, needed, 0, 0, -1, fit);
  }

  lemma {:induction false} FirstFitIsLeast(used: seq<bool>, needed: nat, s: nat)
    requires s <= |used|
    ensures var r := FirstFit(used, needed, s);
            && (r == -1 || (s <= r && Fits(used, needed, r)))
            && (forall t :: s <= t <= |used| && Fits(used, needed, t) ==> 0 <= r <= t)
    decreases |used| - s
  {
    if !Fits(used, needed, s) && s < |used| {
      FirstFitIsLeast(used, needed, s + 1);
    }
  }

  /** The word-skipping search with the reset is the plain first-fit scan. */
  lemma ResetSearchIsFirstFit(used: seq<bool>, needed: nat)
    requires needed >= 1
    ensures Find(WithReset, used, needed) == FirstFit(used, needed, 0)
  {
    var r, f := Find(WithReset, used, needed), FirstFit(used, needed, 0);
    Window(WithReset, used, needed);
    FirstFitIsLeast(used, needed, 0);
    if f != -1 {
      Complete(WithReset, used, needed, f);
    }
  }

  /** As written, the window returned is all free exactly when no full word begins strictly inside it. */
  lemma WindowFreeIffNoFullWordInside(used: seq<bool>, needed: nat)
    requires Find(AsWritten, used, needed) != -1
    ensures var r := Find(AsWritten, used, needed);
            Fits(used, needed, r) <==> !SpansFullWord(used, needed, r)
  {
    var r := Find(AsWritten, used, needed);
    Window(AsWritten, used, needed);
    if SpansFullWord(used, needed, r) {
      var w: nat :| r < 32 * w < r + needed && FullWord(used, w);
      assert used[32 * w];
    } else {
      forall k | r <= k < r + needed ensures !used[k] {
        var w := k / 32;
        assert !FullWord(used, w) by {
          if 32 * w <= r {
            assert !used[r];
          } else {
            assert r < 32 * w < r + needed;
          }
        }
      }
    }
  }

  /** As written and intended agree exactly when the written one fails or spans no full word. */
  lemma SearchesAgreeIff(used: seq<bool>, needed: nat)
    requires needed >= 1
    ensures var r := Find(AsWritten, used, needed);
            r == Find(WithReset, used, needed) <==> r == -1 || !SpansFullWord(used, needed, r)
  {
    var r, q := Find(AsWritten, used, needed), Find(WithReset, used, needed);
    Window(AsWritten, used, needed);
    Window(WithReset, used, needed);
    if r != -1 {
      WindowFreeIffNoFullWordInside(used, needed);
    }
    if q != -1 {
      Complete(AsWritten, used, needed, q);
    }
    if r != -1 && Fits(used, needed, r) {
      Complete(WithReset, used, needed, r);
    }
  }

  /** A request larger than the heap is refused by either search. */
  lemma TooLargeRefused(v: Variant, used: seq<bool>, needed: nat)
    requires needed > |used|
    ensures Find(v, used, needed) == -1
  {
    Window(v, used, needed);
  }

  // ----- the search as written is a plain first fit over another bitmap -----

  /** The units from `i` on that lie outside full words. */
  function KeptUnits(used: seq<bool>, i: nat): (r: seq<nat>)
    requires i <= |used|
    ensures forall k :: 0 <= k < |r| ==> i <= r[k] < |used|
    decreases |used| - i
  {
    if i == |used| then []
    else if InFullWord(used, i) then KeptUnits(used, i + 1)
    else [i] + KeptUnits(used, i + 1)
  }

  /** The bitmap of the units at these places. */
  function At(used: seq<bool>, units: seq<nat>): (r: seq<bool>)
    requires forall k :: 0 <= k < |units| ==> units[k] < |used|
    ensures |r| == |units|
  {
    seq(|units|, k requires 0 <= k < |units| => used[units[k]])
  }

  /** The bitmap with its full words taken out. */
  function Squeezed(used: seq<bool>): seq<bool> {
    At(used, KeptUnits(used, 0))
  }

  /** The plain first fit over the bitmap without its full words, as a unit of the whole bitmap. */
  ghost function SqueezedFit(used: seq<bool>, needed: nat): int
    requires needed >= 1
  {
    var r := FirstFit(Squeezed(used), needed, 0);
    FirstFitIsLeast(Squeezed(used), needed, 0);
    if r == -1 then -1 else KeptUnits(used, 0)[r]
  }

  lemma {:induction false} NoFitBetween(used: seq<bool>, needed: nat, s: nat, t: nat)
    requires s <= t <= |used| && forall k :: s <= k < t ==> !Fits(used, needed, k)
    ensures FirstFit(used, needed, s) == FirstFit(used, needed, t)
    decreases t - s
  {
    if s < t {
      NoFitBetween(used, needed, s + 1, t);
    }
  }

  /** A scan that stops at used units and skips nothing; `count` free units end before `j`. */
  function PlainFrom(flags: seq<bool>, needed: nat, j: nat, count: nat): (r: int)
    requires count <= j <= |flags|
    ensures r == -1 || j - count <= r < |flags|
    decreases |flags| - j
  {
    if j == |flags| then -1
    else if flags[j] then PlainFrom(flags, needed, j + 1, 0)
    else if count + 1 == needed then j - count
    else PlainFrom(flags, needed, j + 1, count + 1)
  }

  lemma {:induction false} PlainIsFirstFit(flags: seq<bool>, needed: nat, j: nat, count: nat)
    requires count < needed && count <= j <= |flags|
    requires forall k :: j - count <= k < j ==> !flags[k]
    ensures PlainFrom(flags, needed, j, count) == FirstFit(flags, needed, j - count)
    decreases |flags| - j
  {
    FirstFitIsLeast(flags, needed, j - count);
    if j < |flags| {
      if flags[j] {
        NoFitBetween(flags, needed, j - count, j + 1);
        PlainIsFirstFit(flags, needed, j + 1, 0);
      } else if count + 1 != needed {
        PlainIsFirstFit(flags, needed, j + 1, count + 1);
      }
    }
  }

  /** From `i` on the kept units are those from the `j`-th on. */
  ghost predicate Remaining(used: seq<bool>, i: nat, units: seq<nat>, j: nat) {
    i <= |used| && j <= |units| && units[j..] == KeptUnits(used, i)
  }

  lemma NextKept(used: seq<bool>, i: nat, units: seq<nat>, j: nat)
    requires i < |used| && Remaining(used, i, units, j)
    ensures InFullWord(used, i) ==> Remaining(used, i + 1, units, j)
    ensures !InFullWord(used, i) ==> j < |units| && units[j] == i && Remaining(used, i + 1, units, j + 1)
  {
    hide InFullWord;
    if !InFullWord(used, i) {
      assert units[j] == units[j..][0];
      assert units[j + 1..] == units[j..][1..];
    }
  }

  lemma NoneKept(used: seq<bool>, units: seq<nat>, j: nat)
    requires Remaining(used, |used|, units, j)
    ensures j == |units|
  {
    assert |units[j..]| == 0;
  }

  lemma WrittenScanStep(used: seq<bool>, needed: nat, i: nat, count: nat, start: int)
    requires i < |used|
    ensures FindFrom(AsWritten, used, needed, i, count, start) ==
      if InFullWord(used, i) then FindFrom(AsWritten, used, needed, i + 1, count, start)
      else if used[i] then FindFrom(AsWritten, used, needed, i + 1, 0, start)
      else if count + 1 == needed then (if count == 0 then i else start)
      else FindFrom(AsWritten, used, needed, i + 1, count + 1, if count == 0 then i else start)
  {
    hide InFullWord;
  }

  lemma PlainScanStep(flags: seq<bool>, needed: nat, j: nat, count: nat)
    requires count <= j < |flags|
    ensures PlainFrom(flags, needed, j, count) ==
      if flags[j] then PlainFrom(flags, needed, j + 1, 0)
      else if count + 1 == needed then j - count
      else PlainFrom(flags, needed, j + 1, count + 1)
  {
  }

  lemma FlagAt(used: seq<bool>, units: seq<nat>, j: nat)
    requires j < |units| && forall k :: 0 <= k < |units| ==> units[k] < |used|
    ensures At(used, units)[j] == used[units[j]]
  {
  }

  /** Standing before the `j`-th kept unit, the scan as written does what the plain scan does. */
  lemma {:induction false} WrittenScanIsPlain(used: seq<bool>, needed: nat, i: nat, count: nat, start: int,
                                              units: seq<nat>, j: nat)
    requires i <= |used| && count < needed && count <= j <= |units|
    requires forall k :: 0 <= k < |units| ==> units[k] < |used|
    requires Remaining(used, i, units, j)
    requires count > 0 ==> start == units[j - count]
    ensures var r := PlainFrom(At(used, units), needed, j, count);
      FindFrom(AsWritten, used, needed, i, count, start) == if r == -1 then -1 else units[r]
    decreases |used| - i
  {
    hide InFullWord, At, Remaining, KeptUnits;
    if i == |used| {
      NoneKept(used, units, j);
    } else {
      NextKept(used, i, units, j);
      WrittenScanStep(used, needed, i, count, start);
      if InFullWord(used, i) {
        hide FindFrom, PlainFrom;
        WrittenScanIsPlain(used, needed, i + 1, count, start, units, j);
      } else {
        FlagAt(used, units, j);
        PlainScanStep(At(used, units), needed, j, count);
        hide FindFrom, PlainFrom;
        if used[i] {
          WrittenScanIsPlain(used, needed, i + 1, 0, start, units, j + 1);
        } else if count + 1 != needed {
          WrittenScanIsPlain(used, needed, i + 1, count + 1, if count == 0 then i else start, units, j + 1);
        }
      }
    }
  }

  /** The search as written is the plain first fit over the bitmap without its full words. */
  lemma WrittenSearchIsSqueezedFit(used: seq<bool>, needed: nat)
    requires needed >= 1
    ensures Find(AsWritten, used, needed) == SqueezedFit(used, needed)
  {
    var units := KeptUnits(used, 0);
    assert units[0..] == units;
    WrittenScanIsPlain(used, needed, 0, 0, -1, units, 0);
    PlainIsFirstFit(At(used, units), needed, 0, 0);
  }

  // ----- scanning over runs of used units -----

  lemma {:induction false} ScanOverUsed(used: seq<bool>, needed: nat, i: nat, j: nat, start: int)
    requires i <= j <= |used| && forall k :: i <= k < j ==> used[k]
    ensures FindFrom(AsWritten, used, needed, i, 0, start) == FindFrom(AsWritten, used, needed, j, 0, start)
    decreases j - i
  {
    if i < j {
      ScanOverUsed(used, needed, i + 1, j, start);
    }
  }

  /** What skipping one full word does to the scan. */
  lemma {:induction false} ScanOverFullWord(v: Variant, used: seq<bool>, needed: nat, w: nat, i: nat, count: nat, start: int)
    requires FullWord(used, w) && 32 * w <= i < 32 * w + 32
    ensures FindFrom(v, used, needed, i, count, start)
         == FindFrom(v, used, needed, 32 * w + 32, if v.WithReset? then 0 else count, start)
    decreases 32 * w + 32 - i
  {
    assert i / 32 == w;
    if i + 1 < 32 * w + 32 {
      ScanOverFullWord(v, used, needed, w, i + 1, if v.WithReset? then 0 else count, start);
    }
  }

  /** Free units complete a count that has begun. */
  lemma {:induction false} ScanFree(used: seq<bool>, needed: nat, i: nat, count: nat, start: int)
    requires 1 <= count < needed && i + needed - count <= |used|
    requires forall k :: i <= k < i + needed - count ==> !used[k]
    ensures FindFrom(AsWritten, used, needed, i, count, start) == start
    decreases needed - count
  {
    assert !InFullWord(used, i) by {
      if InFullWord(used, i) { FullWordUsed(used, i); }
    }
    if count + 1 < needed {
      ScanFree(used, needed, i + 1, count + 1, start);
    }
  }

  /** One free unit before a full word and free units behind it: as written, they are counted together. */
  lemma CountsAcross(used: seq<bool>, needed: nat)
    requires 2 <= needed && 63 + needed <= |used|
    requires forall i :: 0 <= i < 63 + needed ==> (used[i] <==> i != 31 && i < 64)
    ensures Find(AsWritten, used, needed) == 31
  {
    ScanOverUsed(used, needed, 0, 31, -1);
    assert FullWord(used, 1);
    assert !InFullWord(used, 31) by {
      if InFullWord(used, 31) { FullWordUsed(used, 31); }
    }
    ScanOverFullWord(AsWritten, used, needed, 1, 32, 1, 31);
    ScanFree(used, needed, 64, 1, 31);
  }
}
