/** Size classes of the small-block allocator (SizeManager in runtime/src/Common/MemCommon.h). */
module SizeClasses {

  const MAX_BYTES: nat := 256 * 1024
  const NFREELIST: nat := 208
  const MAX_NPAGES: nat := 129
  const PAGE_SIZE: nat := 4096

  /** What the unsigned 64-bit functions return for -1. */
  const NONE: nat := 0xFFFF_FFFF_FFFF_FFFF

  function RoundUp(bytes: nat): nat {
    if bytes <= 128 then (bytes + 7) / 8 * 8
    else if bytes <= 1024 then (bytes + 15) / 16 * 16
    else if bytes <= 8 * 1024 then (bytes + 127) / 128 * 128
    else if bytes <= 64 * 1024 then (bytes + 1023) / 1024 * 1024
    else if bytes <= MAX_BYTES then (bytes + 8191) / 8192 * 8192
    else NONE
  }

  function Index(bytes: nat): nat {
    if bytes == 0 then NONE
    else if bytes <= 128 then (bytes + 7) / 8 - 1
    else if bytes <= 1024 then (bytes - 128 + 15) / 16 - 1 + 16
    else if bytes <= 8 * 1024 then (bytes - 1024 + 127) / 128 - 1 + 72
    else if bytes <= 64 * 1024 then (bytes - 8 * 1024 + 1023) / 1024 - 1 + 128
    else if bytes <= MAX_BYTES then (bytes - 64 * 1024 + 8191) / 8192 - 1 + 184
    else NONE
  }

  /** The block size of a bucket. */
  function ClassSize(k: nat): nat {
    if k < 16 then 8 * (k + 1)
    else if k < 72 then 128 + 16 * (k - 15)
    else if k < 128 then 1024 + 128 * (k - 71)
    else if k < 184 then 8 * 1024 + 1024 * (k - 127)
    else 64 * 1024 + 8192 * (k - 183)
  }

  lemma SmallRequest(bytes: nat)
    requires 1 <= bytes <= 1024
    ensures Index(bytes) < 72 && RoundUp(bytes) == ClassSize(Index(bytes)) && bytes <= RoundUp(bytes)
  {
  }

  lemma MiddleRequest(bytes: nat)
    requires 1024 < bytes <= 64 * 1024
    ensures Index(bytes) < 184 && RoundUp(bytes) == ClassSize(Index(bytes)) && bytes <= RoundUp(bytes)
  {
  }

  lemma LargeRequest(bytes: nat)
    requires 64 * 1024 < bytes <= MAX_BYTES
    ensures Index(bytes) < NFREELIST && RoundUp(bytes) == ClassSize(Index(bytes)) && bytes <= RoundUp(bytes)
  {
  }

  /** Every bucket is the bucket of its block size, which needs no rounding. */
  lemma BucketOfClass(k: nat)
    requires k < NFREELIST
    ensures 8 <= ClassSize(k) <= MAX_BYTES && Index(ClassSize(k)) == k && RoundUp(ClassSize(k)) == ClassSize(k)
  {
  }

  /** Rounding a request and finding its bucket agree: the bucket's block size is the rounded request. */
  lemma BucketOfRequest(bytes: nat)
    requires 1 <= bytes <= MAX_BYTES
    ensures Index(bytes) < NFREELIST && RoundUp(bytes) == ClassSize(Index(bytes))
    ensures bytes <= RoundUp(bytes) <= MAX_BYTES
    ensures Index(RoundUp(bytes)) == Index(bytes) && RoundUp(RoundUp(bytes)) == RoundUp(bytes)
  {
    if bytes <= 1024 {
      SmallRequest(bytes);
    } else if bytes <= 64 * 1024 {
      MiddleRequest(bytes);
    } else {
      LargeRequest(bytes);
    }
    BucketOfClass(Index(bytes));
  }

  /** Two requests share a bucket exactly when they round to the same size. */
  lemma SameBucket(a: nat, b: nat)
    requires 1 <= a <= MAX_BYTES && 1 <= b <= MAX_BYTES
    ensures Index(a) == Index(b) <==> RoundUp(a) == RoundUp(b)
  {
    BucketOfRequest(a);
    BucketOfRequest(b);
  }

  function LimitSize(size: nat): (n: nat)
    requires size > 0
    ensures 2 <= n <= 512
  {
    var num := MAX_BYTES / size;
    if num < 2 then 2 else if num > 512 then 512 else num
  }

  function CalculatePageNum(size: nat): nat
    requires size > 0
  {
    var npage := (LimitSize(size) * size + PAGE_SIZE - 1) / PAGE_SIZE;
    if npage == 0 then 1 else npage
  }

  /** A new span holds at least two blocks and is no larger than the page cache provides. */
  lemma SpanSize(size: nat)
    requires 8 <= size <= MAX_BYTES
    ensures 2 * size <= CalculatePageNum(size) * PAGE_SIZE && 1 <= CalculatePageNum(size) < MAX_NPAGES
  {
    var num := MAX_BYTES / size;
    Fits(num, size);
    assert LimitSize(size) * size <= 2 * MAX_BYTES by {
      if num > 512 { Product(512, num, size); }
    }
    Product(2, LimitSize(size), size);
  }

  lemma Fits(num: nat, size: nat)
    requires size > 0 && num == MAX_BYTES / size
    ensures num * size <= MAX_BYTES
  {
  }

  lemma Product(a: nat, b: nat, x: nat)
    requires a <= b
    ensures a * x <= b * x
  {
  }

  /** Rounding gives the least block size of any bucket that is large enough, and wastes less than 8 bytes or an
      eighth. */
  lemma RoundUpIsLeast(bytes: nat, k: nat)
    requires 1 <= bytes <= MAX_BYTES && k < NFREELIST && bytes <= ClassSize(k)
    ensures bytes <= RoundUp(bytes) <= ClassSize(k)
    ensures RoundUp(bytes) - bytes < 8 || 8 * (RoundUp(bytes) - bytes) < bytes
  {
    BucketOfRequest(bytes);
    if k < Index(bytes) {
      ClassesGrow(k, Index(bytes) - 1);
      NotTheOneBelow(bytes);
    } else {
      ClassesGrow(Index(bytes), k);
    }
  }

  lemma ClassesGrow(j: nat, k: nat)
    requires j <= k < NFREELIST
    ensures ClassSize(j) <= ClassSize(k)
  {
  }

  /** The bucket below the one of a request is too small for it. */
  lemma NotTheOneBelow(bytes: nat)
    requires 1 <= bytes <= MAX_BYTES && 0 < Index(bytes)
    ensures ClassSize(Index(bytes) - 1) < bytes
  {
  }

  /** The batches a caller may ask for: two blocks always, up to 512 while they take no more than the largest block. */
  predicate Affordable(batch: nat, size: nat) {
    batch <= 2 || (batch <= 512 && batch * size <= MAX_BYTES)
  }

  lemma AffordableIff(batch: nat, size: nat)
    requires size > 0
    ensures Affordable(batch, size) <==> batch <= LimitSize(size)
  {
    var num := MAX_BYTES / size;
    Fits(num, size);
    if batch <= num {
      Product(batch, num, size);
    } else {
      Product(num + 1, batch, size);
      Next(num, size);
    }
  }

  lemma Next(num: nat, size: nat)
    requires size > 0 && num == MAX_BYTES / size
    ensures (num + 1) * size > MAX_BYTES
  {
  }

  /** The pages of a new span are the fewest that hold the largest batch. */
  lemma PagesAreLeast(size: nat)
    requires size > 0
    ensures var need := LimitSize(size) * size; need <= CalculatePageNum(size) * PAGE_SIZE < need + PAGE_SIZE
  {
    Product(1, LimitSize(size), size);
  }
}
