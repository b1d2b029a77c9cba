/** The transfer arithmetic of Options.resolve, on the machine's 64-bit integers. */
module Transfer {

  newtype int64 = x: int | -0x8000_0000_0000_0000 <= x < 0x8000_0000_0000_0000

  const MIN_MULTIPART: int64 := 0x50_0000
  const MAX_MULTIPART: int64 := 0x1_4000_0000
  const DEFAULT_THRESHOLD: int64 := 0x400_0000
  const DEFAULT_PART_SIZE: int64 := 0x100_0000
  const DEFAULT_CONCURRENCY: int64 := 3
  const MAX_CONCURRENCY: int64 := 64
  const DEFAULT_TRANSFERS: int64 := 4
  const MAX_TRANSFERS: int64 := 32
  const MAX_MEMORY: int64 := 0x2000_0000
  const MAX_PARTS: int64 := 10000

  datatype Field = MultipartThreshold | MultipartPartSize | Concurrency | MaxConcurrentTransfers | TransferMemoryBudget

  datatype Resolved = Resolved(threshold: int64, partSize: int64, concurrency: int64, transfers: int64, maximum: int64)

  datatype Result = Ok(value: Resolved) | Invalid(field: Field)

  /** A field left at zero takes its default. */
  function OrDefault(requested: int, fallback: int64): int {
    if requested == 0 then fallback as int else requested
  }

  /** The documented budget, over the mathematical integers. */
  function Memory(threshold: int, partSize: int, concurrency: int, transfers: int): int {
    (threshold + (concurrency + 1) * partSize) * transfers
  }

  predicate SizeInRange(size: int) {
    MIN_MULTIPART as int <= size <= MAX_MULTIPART as int
  }

  /** What a configuration must satisfy, with no mention of machine integers or of the order of the checks. */
  predicate Acceptable(threshold: int, partSize: int, concurrency: int, transfers: int) {
    && SizeInRange(threshold) && SizeInRange(partSize) && partSize <= threshold
    && 0 < concurrency <= MAX_CONCURRENCY as int
    && 0 < transfers <= MAX_TRANSFERS as int
    && Memory(threshold, partSize, concurrency, transfers) <= MAX_MEMORY as int
  }

  /** The defaults are acceptable, and take up the documented budget to the byte. */
  lemma DefaultsFillTheBudget()
    ensures Acceptable(DEFAULT_THRESHOLD as int, DEFAULT_PART_SIZE as int, DEFAULT_CONCURRENCY as int,
                       DEFAULT_TRANSFERS as int)
    ensures Memory(DEFAULT_THRESHOLD as int, DEFAULT_PART_SIZE as int, DEFAULT_CONCURRENCY as int,
                   DEFAULT_TRANSFERS as int) == MAX_MEMORY as int
  {
  }

  /** The field is one to blame for a configuration that is not acceptable. */
  predicate AtFault(field: Field, threshold: int, partSize: int, concurrency: int, transfers: int) {
    match field
    case MultipartThreshold => !SizeInRange(threshold) || threshold < partSize
    case MultipartPartSize => !SizeInRange(partSize)
    case Concurrency => !(0 < concurrency <= MAX_CONCURRENCY as int)
    case MaxConcurrentTransfers => !(0 < transfers <= MAX_TRANSFERS as int)
    case TransferMemoryBudget => Memory(threshold, partSize, concurrency, transfers) > MAX_MEMORY as int
  }

  method ResolveTransferSize(requested: int64, fallback: int64) returns (ok: bool, size: int64)
    ensures size as int == OrDefault(requested as int, fallback)
    ensures ok <==> requested == 0 || SizeInRange(requested as int)
  {
    if requested == 0 {
      return true, fallback;
    }
    return MIN_MULTIPART <= requested <= MAX_MULTIPART, requested;
  }

  function AccountedObjectSize(partSize: int64): int64
    requires SizeInRange(partSize as int)
  {
    partSize * MAX_PARTS - 1
  }

  lemma ScaleUp(a: int, b: int, c: int)
    requires a <= b && 0 <= c
    ensures a * c <= b * c
  {
  }

  /** The products are bounded, so the budget check cannot be passed by wrapping around. */
  lemma BudgetFits(threshold: int, partSize: int, concurrency: int, transfers: int)
    requires SizeInRange(threshold) && SizeInRange(partSize)
    requires 0 < concurrency <= 64 && 0 < transfers <= 32
    ensures 0 <= (concurrency + 1) * partSize <= 65 * 0x1_4000_0000
    ensures 0 <= Memory(threshold, partSize, concurrency, transfers) <= 66 * 0x1_4000_0000 * 32
  {
    ScaleUp(0, concurrency + 1, partSize);
    ScaleUp(concurrency + 1, 65, partSize);
    var buffers := (concurrency + 1) * partSize;
    ScaleUp(0, threshold + buffers, transfers);
    ScaleUp(threshold + buffers, 66 * 0x1_4000_0000, transfers);
  }

  /** The transfer part of resolve: it accepts exactly the acceptable configurations, computes nothing that
      overflows, and on any accepted body keeps the part count under the SDK's ceiling. */
  method Resolve(threshold0: int64, partSize0: int64, concurrency0: int64, transfers0: int64) returns (r: Result)
    ensures var threshold := OrDefault(threshold0 as int, DEFAULT_THRESHOLD);
            var partSize := OrDefault(partSize0 as int, DEFAULT_PART_SIZE);
            var concurrency := OrDefault(concurrency0 as int, DEFAULT_CONCURRENCY);
            var transfers := OrDefault(transfers0 as int, DEFAULT_TRANSFERS);
            && (r.Ok? <==> Acceptable(threshold, partSize, concurrency, transfers))
            && (r.Invalid? ==> AtFault(r.field, threshold, partSize, concurrency, transfers))
            && (r.Ok? ==>
                  && r.value.threshold as int == threshold && r.value.partSize as int == partSize
                  && r.value.concurrency as int == concurrency && r.value.transfers as int == transfers
                  && r.value.maximum as int == partSize * 10000 - 1)
  {
    var ok, threshold := ResolveTransferSize(threshold0, DEFAULT_THRESHOLD);
    if !ok {
      return Invalid(MultipartThreshold);
    }
    var partSize;
    ok, partSize := ResolveTransferSize(partSize0, DEFAULT_PART_SIZE);
    if !ok {
      return Invalid(MultipartPartSize);
    }
    if threshold < partSize {
      return Invalid(MultipartThreshold);
    }
    var concurrency := concurrency0;
    if concurrency < 0 {
      return Invalid(Concurrency);
    }
    if concurrency == 0 {
      concurrency := DEFAULT_CONCURRENCY;
    }
    if concurrency > MAX_CONCURRENCY {
      return Invalid(Concurrency);
    }
    var transfers := transfers0;
    if transfers < 0 {
      return Invalid(MaxConcurrentTransfers);
    }
    if transfers == 0 {
      transfers := DEFAULT_TRANSFERS;
    }
    if transfers > MAX_TRANSFERS {
      return Invalid(MaxConcurrentTransfers);
    }
    BudgetFits(threshold as int, partSize as int, concurrency as int, transfers as int);
    var partBuffers := (concurrency + 1) * partSize;
    var perTransferMemory := threshold + partBuffers;
    if perTransferMemory * transfers > MAX_MEMORY {
      return Invalid(TransferMemoryBudget);
    }
    return Ok(Resolved(threshold, partSize, concurrency, transfers, AccountedObjectSize(partSize)));
  }

  lemma QuotientBelow(size: int, p: int, n: int)
    requires 0 <= size && 0 < p
    ensures size / p < n <==> size < n * p
  {
    var q := size / p;
    assert q * p <= size < q * p + p;
    if q < n {
      ScaleUp(q + 1, n, p);
      assert (q + 1) * p == q * p + p;
    } else {
      ScaleUp(n, q, p);
    }
  }

  /** The transfer manager inflates its parts once size / partSize reaches its ceiling; the accounted maximum is the
      largest size that does not. */
  lemma MaximumIsTheLastUninflatedSize(partSize: int64, size: int)
    requires SizeInRange(partSize as int) && 0 <= size
    ensures size <= AccountedObjectSize(partSize) as int <==> size / (partSize as int) < MAX_PARTS as int
  {
    var p := partSize as int;
    QuotientBelow(size, p, 10000);
  }
}
