/** Offset paging over uint32 pages and sizes (query/paging.go). An int has 64 bits, so converting a
    uint32 to it loses nothing. */
module Paging {

  const MODULUS := 0x1_0000_0000

  type uint32 = n: int | 0 <= n < MODULUS

  const DEFAULT_PAGE: uint32 := 1
  const DEFAULT_PAGE_SIZE: uint32 := 10
  const MAX_PAGE_SIZE: uint32 := 100

  function Wrap(n: int): uint32 {
    n % MODULUS
  }

  datatype OffsetPaging = OffsetPaging(page: uint32, pageSize: uint32) {

    /** Subtraction and multiplication wrap around. */
    function Offset(): int {
      Wrap(Wrap(page - 1) * pageSize)
    }

    function Limit(): int {
      pageSize
    }

    /** The row the page should start at. */
    function Start(): int {
      (page - 1) * pageSize
    }

    predicate Normal() {
      1 <= page && 1 <= pageSize <= MAX_PAGE_SIZE
    }

    /** Nothing wraps around. */
    predicate Exact() {
      1 <= page && Start() < MODULUS
    }

    /** The window of rows that the query asks for. */
    predicate Holds(row: int) {
      Offset() <= row < Offset() + Limit()
    }
  }

  method NewOffsetPaging(page: uint32, pageSize: uint32) returns (p: OffsetPaging)
    ensures p.Normal()
    ensures page >= 1 ==> p.page == page
    ensures page == 0 ==> p.page == 1
    ensures 1 <= pageSize <= 100 ==> p.pageSize == pageSize
    ensures pageSize == 0 ==> p.pageSize == 10
    ensures pageSize > 100 ==> p.pageSize == 100
    ensures OffsetPaging(page, pageSize).Normal() <==> p == OffsetPaging(page, pageSize)
  {
    var pg, size := page, pageSize;
    if pg < DEFAULT_PAGE {
      pg := DEFAULT_PAGE;
    }
    if size == 0 {
      size := DEFAULT_PAGE_SIZE;
    }
    if size > MAX_PAGE_SIZE {
      size := MAX_PAGE_SIZE;
    }
    p := OffsetPaging(pg, size);
  }

  lemma StartPositive(p: OffsetPaging)
    requires p.page >= 1
    ensures p.Start() >= 0
  {
    MulGrows(0, p.page - 1, 0, p.pageSize);
  }

  /** The offset is the page's start exactly when that fits 32 bits, which it does for page 0 only when the
      size is 0: otherwise page 0 starts one page before the end of the 32 bits. */
  lemma OffsetExactIff(p: OffsetPaging)
    ensures p.Offset() == p.Start() <==> 0 <= p.Start() < MODULUS
    ensures 0 <= p.Offset() < 0x1_0000_0000 && (p.Start() - p.Offset()) % 0x1_0000_0000 == 0
    ensures p.page == 0 && p.pageSize > 0 ==> p.Start() < 0 && p.Offset() == MODULUS - p.pageSize
    ensures p.page >= 1 ==> 0 <= p.Start()
  {
    if p.page == 0 {
      LastPage(p.pageSize);
    } else {
      StartPositive(p);
    }
  }

  lemma LastPage(size: uint32)
    ensures Wrap(Wrap(-1) * size) == if size == 0 then 0 else MODULUS - size
  {
    if size > 0 {
      assert Wrap(-1) * size == (size - 1) * MODULUS + (MODULUS - size);
      WrapsTo(size - 1, MODULUS - size);
    }
  }

  lemma WrapsTo(rounds: nat, rest: uint32)
    ensures Wrap(rounds * MODULUS + rest) == rest
  {
  }

  /** Every page up to 42,949,673 is exact at any normal size, and at the largest size the next is not. */
  lemma ExactPages(p: OffsetPaging)
    requires p.Normal()
    ensures p.page <= 42_949_673 ==> p.Exact()
    ensures p.pageSize == MAX_PAGE_SIZE && p.page > 42_949_673 ==> !p.Exact() && p.Offset() < p.Start()
  {
    StartPositive(p);
    if p.page <= 42_949_673 {
      MulGrows(p.page - 1, 42_949_672, p.pageSize, 100);
    }
  }

  lemma MulGrows(a: nat, b: nat, c: nat, d: nat)
    requires a <= b && c <= d
    ensures a * c <= b * d
  {
  }

  /** Over the exact pages of one size the windows tile the rows: a row is in the window of one page only,
      the one it falls in by division, and that page has it whenever it is exact. */
  lemma WindowsTile(p: OffsetPaging, row: nat)
    requires p.Normal() && p.Exact()
    ensures p.Holds(row) <==> p.page == row / p.pageSize + 1
  {
    OffsetExactIff(p);
    InWindowIff(p.page - 1, p.pageSize, row);
  }

  lemma InWindowIff(n: nat, size: nat, row: nat)
    requires size > 0
    ensures n * size <= row < n * size + size <==> n == row / size
  {
    Division(row, size);
    var q := row / size;
    if n < q {
      MulGrows(n + 1, q, size, size);
      Next(n + 1, size);
    } else if n > q {
      MulGrows(q + 1, n, size, size);
      Next(q + 1, size);
    }
  }

  lemma Next(n: int, size: int)
    ensures n * size == (n - 1) * size + size
  {
  }

  lemma Division(row: nat, size: nat)
    requires size > 0
    ensures row / size * size <= row < row / size * size + size
  {
  }

  /** A page that is not exact shows rows of an earlier page again. */
  lemma WrappedPageRepeats()
    ensures var p := OffsetPaging(42_949_674, MAX_PAGE_SIZE);
            p.Normal() && !p.Exact() && p.Holds(4) && OffsetPaging(1, MAX_PAGE_SIZE).Holds(4)
  {
  }
}
