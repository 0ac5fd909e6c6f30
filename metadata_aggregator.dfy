/**
 * `MetaDataAggregator`: running totals over the files a batch optimizes.
 * PHP integers are modelled as unbounded; the percentage is a real number.
 */
module MetaDataAggregator {

  /** One `addFileData` call: the original and the optimized size of a file. */
  datatype FileSizes = FileSizes(original: int, optimized: int)

  /** The sum of the original sizes. */
  function SumOriginal(h: seq<FileSizes>): int {
    if h == [] then 0 else SumOriginal(h[..|h| - 1]) + h[|h| - 1].original
  }

  /** The sum of the optimized sizes. */
  function SumOptimized(h: seq<FileSizes>): int {
    if h == [] then 0 else SumOptimized(h[..|h| - 1]) + h[|h| - 1].optimized
  }

  /** The bytes each file saved, added up. */
  function SumSaved(h: seq<FileSizes>): int {
    if h == [] then 0 else h[0].original - h[0].optimized + SumSaved(h[1..])
  }

  /** The sum of the savings taken file by file equals the difference of the two totals. */
  lemma {:induction false} SavedIsDifferenceOfTotals(h: seq<FileSizes>)
    ensures SumSaved(h) == SumOriginal(h) - SumOptimized(h)
    decreases |h|
  {
    if h != [] {
      var t := h[1..];
      SavedIsDifferenceOfTotals(t);
      SumsOfCons(h[0], t);
      assert h == [h[0]] + t;
    }
  }

  /** The totals of a history that starts with `x`. */
  lemma {:induction false} SumsOfCons(x: FileSizes, t: seq<FileSizes>)
    ensures SumOriginal([x] + t) == x.original + SumOriginal(t)
    ensures SumOptimized([x] + t) == x.optimized + SumOptimized(t)
    decreases |t|
  {
    if t != [] {
      var init := t[..|t| - 1];
      SumsOfCons(x, init);
      assert ([x] + t)[..|t|] == [x] + init;
    } else {
      assert [x][..0] == [];
    }
  }

  class MetaDataAggregator {
    var totalOriginalSize: int
    var totalOptimizedSize: int
    var optimizedFileCount: int
    /** Every `addFileData` call so far, oldest first. */
    ghost var history: seq<FileSizes>

    /** The three counters are what the calls in `history` add up to. */
    ghost predicate Valid()
      reads this
    {
      optimizedFileCount == |history|
      && totalOriginalSize == SumOriginal(history)
      && totalOptimizedSize == SumOptimized(history)
    }

    /** Every total and the file count start at zero. */
    constructor ()
      ensures Valid() && history == []
      ensures totalOriginalSize == 0 && totalOptimizedSize == 0 && optimizedFileCount == 0
    {
      totalOriginalSize := 0;
      totalOptimizedSize := 0;
      optimizedFileCount := 0;
      history := [];
    }

    /** `addFileData`: each size goes onto its total and the count grows by one. */
    method AddFileData(originalSize: int, optimizedSize: int)
      requires Valid()
      modifies this
      ensures Valid() && history == old(history) + [FileSizes(originalSize, optimizedSize)]
      ensures totalOriginalSize == old(totalOriginalSize) + originalSize
      ensures totalOptimizedSize == old(totalOptimizedSize) + optimizedSize
      ensures optimizedFileCount == old(optimizedFileCount) + 1
    {
      totalOriginalSize := totalOriginalSize + originalSize;
      totalOptimizedSize := totalOptimizedSize + optimizedSize;
      optimizedFileCount := optimizedFileCount + 1;
      history := history + [FileSizes(originalSize, optimizedSize)];
      assert history[..|history| - 1] == old(history);
    }

    /** `getSavedBytes`: the bytes every file saved, added up. */
    function SavedBytes(): (r: int)
      requires Valid()
      reads this
      ensures r == SumSaved(history)
    {
      SavedIsDifferenceOfTotals(history);
      totalOriginalSize - totalOptimizedSize
    }

    /**
     * `getSavedPercentage`: zero, without a division, when nothing was
     * counted; otherwise the saved bytes as a percentage of the original total.
     */
    function SavedPercentage(): (r: real)
      requires Valid()
      reads this
      ensures SumOriginal(history) == 0 ==> r == 0.0
      ensures SumOriginal(history) != 0 ==> r * (SumOriginal(history) as real) == (SumSaved(history) as real) * 100.0
    {
      if totalOriginalSize == 0 then 0.0
      else (SavedBytes() as real / totalOriginalSize as real) * 100.0
    }
  }
}
