/** Integer helpers shared by the server query and the client paging state. */
module Numbers {

  /** The number of pages of `size` items needed to hold `total` items:
      Math.ceil(total / size) on the client, and the number of pages that
      tile a query result on the server. */
  function CeilDiv(total: nat, size: int): (pages: nat)
    requires size > 0
    ensures pages * size >= total
    ensures pages > 0 ==> (pages - 1) * size < total
    ensures pages == 0 <==> total == 0
    ensures pages <= total
  {
    var q := (total + size - 1) / size;
    DivisionBounds(total + size - 1, size);
    StepDown(q, size);
    AtLeastFactor(q - 1, size);
    q
  }

  lemma DivisionBounds(a: nat, d: int)
    requires d > 0
    ensures (a / d) * d <= a < (a / d) * d + d
  {
  }

  lemma StepDown(q: int, d: int)
    ensures (q - 1) * d == q * d - d
  {
  }

  lemma AtLeastFactor(a: int, d: int)
    requires d > 0
    ensures a >= 0 ==> a <= a * d
  {
  }

  function Min(a: int, b: int): int { if a <= b then a else b }

  function Max(a: int, b: int): int { if a >= b then a else b }
}
