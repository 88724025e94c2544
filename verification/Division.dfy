/** Quotients and remainders, as radix trees split their keys. */
module Division {
  lemma Grows(q: nat, b: nat, c: nat)
    requires q >= b
    ensures q * c >= b * c
  {
    assert q * c == b * c + (q - b) * c;
  }

  /** The key with given quotient and remainder. */
  lemma Split(q: nat, r: nat, c: nat)
    requires r < c
    ensures (q * c + r) / c == q && (q * c + r) % c == r
  {
    var k := q * c + r;
    if k / c < q { Grows(q, k / c + 1, c); }
    if k / c > q { Grows(k / c, q + 1, c); }
  }

  lemma DivMod(key: nat, b: nat, c: nat)
    requires c > 0 && key < b * c
    ensures key / c < b && key % c < c && key == (key / c) * c + key % c
  {
    Quotient(key, b, c, key / c, key % c);
  }

  lemma Quotient(key: nat, b: nat, c: nat, q: nat, r: nat)
    requires c > 0 && key < b * c && key == q * c + r
    ensures q < b
  {
    if q >= b { Grows(q, b, c); }
  }

  /** Keys compare by quotient first, then by remainder. */
  lemma Order(q: nat, r: nat, q': nat, r': nat, c: nat)
    requires r < c && r' < c
    ensures q * c + r <= q' * c + r' <==> q < q' || (q == q' && r <= r')
  {
    if q < q' { Grows(q', q + 1, c); }
    if q > q' { Grows(q, q' + 1, c); }
  }
}
