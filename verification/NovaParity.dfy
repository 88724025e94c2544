/** Stripe parity of a NOVA data block and the repair of corrupted stripes (nova/parity.c,
    nova/checksum.c). A block has 8 stripes of 512 bytes; the checksum is a parameter. */
module NovaParity {
  const STRIPE: nat := 512
  const STRIPES: nat := 8
  const BLOCK: nat := 4096

  type Byte = bv8

  function X(a: Byte, b: Byte): Byte { a ^ b }

  /** Byte `i` of stripe `s`. */
  function At(b: seq<Byte>, s: nat, i: nat): Byte
    requires |b| == BLOCK && s < STRIPES && i < STRIPE
  {
    b[s * STRIPE + i]
  }

  function Stripe(b: seq<Byte>, s: nat): (r: seq<Byte>)
    requires |b| == BLOCK && s < STRIPES
    ensures |r| == STRIPE && forall i | 0 <= i < STRIPE :: r[i] == At(b, s, i)
  {
    b[s * STRIPE..s * STRIPE + STRIPE]
  }

  /** The XOR of byte `i` of the first `n` stripes. */
  function Xor(b: seq<Byte>, i: nat, n: nat): Byte
    requires |b| == BLOCK && n <= STRIPES && i < STRIPE
  {
    if n == 0 then 0 else X(Xor(b, i, n - 1), At(b, n - 1, i))
  }

  function Parity(b: seq<Byte>): (p: seq<Byte>)
    requires |b| == BLOCK
    ensures |p| == STRIPE && forall i | 0 <= i < STRIPE :: p[i] == Xor(b, i, STRIPES)
  {
    seq(STRIPE, i requires 0 <= i < STRIPE => Xor(b, i, STRIPES))
  }

  /** nova_calculate_block_parity. XOR works bit by bit, so words are taken byte by byte. */
  method CalculateParity(b: seq<Byte>) returns (parity: seq<Byte>)
    requires |b| == BLOCK
    ensures parity == Parity(b)
  {
    parity := [];
    for i := 0 to STRIPE
      invariant parity == Parity(b)[..i]
    {
      var x := At(b, 0, i);
      assert x == Xor(b, i, 1) by { assert Xor(b, i, 0) == 0; Zero(x); }
      for s := 1 to STRIPES
        invariant x == Xor(b, i, s)
      {
        x := X(x, At(b, s, i));
      }
      parity := parity + [x];
    }
  }

  lemma Zero(x: Byte)
    ensures X(0, x) == x
  {
  }

  /** The parity of nova_update_block_csum_parity, unrolled by 8. */
  method UnrolledParity(b: seq<Byte>) returns (parity: seq<Byte>)
    requires |b| == BLOCK
    ensures parity == Parity(b)
  {
    parity := [];
    for i := 0 to STRIPE
      invariant parity == Parity(b)[..i]
    {
      var x := X(X(X(X(X(X(X(At(b, 0, i), At(b, 1, i)), At(b, 2, i)), At(b, 3, i)), At(b, 4, i)), At(b, 5, i)),
          At(b, 6, i)), At(b, 7, i));
      EightTerms(b, i);
      parity := parity + [x];
    }
  }

  lemma EightTerms(b: seq<Byte>, i: nat)
    requires |b| == BLOCK && i < STRIPE
    ensures X(X(X(X(X(X(X(At(b, 0, i), At(b, 1, i)), At(b, 2, i)), At(b, 3, i)), At(b, 4, i)), At(b, 5, i)),
              At(b, 6, i)), At(b, 7, i)) == Xor(b, i, STRIPES)
  {
    hide At, X;
    Zero(At(b, 0, i));
    assert Xor(b, i, 1) == At(b, 0, i);
    assert Xor(b, i, 2) == X(At(b, 0, i), At(b, 1, i));
    assert Xor(b, i, 3) == X(Xor(b, i, 2), At(b, 2, i));
    assert Xor(b, i, 4) == X(Xor(b, i, 3), At(b, 3, i));
    assert Xor(b, i, 5) == X(Xor(b, i, 4), At(b, 4, i));
    assert Xor(b, i, 6) == X(Xor(b, i, 5), At(b, 5, i));
    assert Xor(b, i, 7) == X(Xor(b, i, 6), At(b, 6, i));
  }

  // ------------------------------------------------------------- reconstruction

  function WithStripe(b: seq<Byte>, s: nat, r: seq<Byte>): (b': seq<Byte>)
    requires |b| == BLOCK && s < STRIPES && |r| == STRIPE
    ensures |b'| == BLOCK
  {
    b[..s * STRIPE] + r + b[s * STRIPE + STRIPE..]
  }

  lemma WithStripeAt(b: seq<Byte>, s: nat, r: seq<Byte>, t: nat, i: nat)
    requires |b| == BLOCK && s < STRIPES && |r| == STRIPE && t < STRIPES && i < STRIPE
    ensures At(WithStripe(b, s, r), t, i) == if t == s then r[i] else At(b, t, i)
  {
  }

  lemma {:induction false} XorWith(b: seq<Byte>, s: nat, r: seq<Byte>, i: nat, n: nat)
    requires |b| == BLOCK && s < STRIPES && |r| == STRIPE && i < STRIPE && n <= STRIPES
    ensures Xor(WithStripe(b, s, r), i, n) == if s < n then X(X(Xor(b, i, n), At(b, s, i)), r[i]) else Xor(b, i, n)
  {
    if n > 0 {
      XorWith(b, s, r, i, n - 1);
      WithStripeAt(b, s, r, n - 1, i);
      hide At, WithStripe, X;
      if s == n - 1 {
        Twice(Xor(b, i, n - 1), At(b, s, i), r[i]);
      } else {
        Commute(Xor(b, i, n - 1), At(b, s, i), r[i], At(b, n - 1, i));
      }
    }
  }

  lemma Twice(x: Byte, a: Byte, r: Byte)
    ensures X(x, r) == X(X(X(x, a), a), r)
  {
  }

  lemma Commute(x: Byte, a: Byte, r: Byte, c: Byte)
    ensures X(X(X(x, a), r), c) == X(X(X(x, c), a), r)
  {
  }

  /** The XOR of what differs between two blocks at byte `i`, stripe `s` aside. */
  function Delta(b: seq<Byte>, o: seq<Byte>, s: nat, i: nat): Byte
    requires |b| == BLOCK && |o| == BLOCK && s < STRIPES && i < STRIPE
  {
    X(X(Xor(b, i, STRIPES), At(b, s, i)), X(Xor(o, i, STRIPES), At(o, s, i)))
  }

  /** With the parity of the original in place of stripe `s`, the parity of the block gives
      back byte `i` of the stripe exactly if the other stripes' damage there cancels out. */
  lemma Rebuilt(b: seq<Byte>, o: seq<Byte>, s: nat, i: nat)
    requires |b| == BLOCK && |o| == BLOCK && s < STRIPES && i < STRIPE
    ensures Parity(WithStripe(b, s, Parity(o)))[i] == At(o, s, i) <==> Delta(b, o, s, i) == 0
  {
    XorWith(b, s, Parity(o), i, STRIPES);
    hide At, Xor, WithStripe, X;
    Cancels(Xor(b, i, STRIPES), At(b, s, i), Xor(o, i, STRIPES), At(o, s, i));
  }

  lemma Cancels(x: Byte, a: Byte, y: Byte, c: Byte)
    ensures X(X(x, a), y) == c <==> X(X(x, a), X(y, c)) == 0
  {
  }

  /** Where no other stripe is damaged nothing needs to cancel. */
  lemma {:induction false} SameXor(b: seq<Byte>, o: seq<Byte>, s: nat, i: nat, n: nat)
    requires |b| == BLOCK && |o| == BLOCK && s < STRIPES && i < STRIPE && n <= STRIPES
    requires forall t | 0 <= t < STRIPES && t != s :: At(b, t, i) == At(o, t, i)
    ensures if s < n then X(Xor(b, i, n), At(b, s, i)) == X(Xor(o, i, n), At(o, s, i)) else Xor(b, i, n) == Xor(o, i, n)
  {
    if n > 0 {
      SameXor(b, o, s, i, n - 1);
      hide At, X;
      if s == n - 1 {
        Cancel(Xor(b, i, n - 1), At(b, s, i));
        Cancel(Xor(o, i, n - 1), At(o, s, i));
      } else if s < n - 1 {
        Exchange(Xor(b, i, n - 1), At(b, n - 1, i), At(b, s, i));
        Exchange(Xor(o, i, n - 1), At(o, n - 1, i), At(o, s, i));
      }
    }
  }

  lemma Cancel(x: Byte, a: Byte)
    ensures X(X(x, a), a) == x
  {
  }

  lemma Exchange(x: Byte, c: Byte, a: Byte)
    ensures X(X(x, c), a) == X(X(x, a), c)
  {
  }

  lemma NoDelta(b: seq<Byte>, o: seq<Byte>, s: nat, i: nat)
    requires |b| == BLOCK && |o| == BLOCK && s < STRIPES && i < STRIPE
    requires forall t | 0 <= t < STRIPES && t != s :: At(b, t, i) == At(o, t, i)
    ensures Delta(b, o, s, i) == 0
  {
    SameXor(b, o, s, i, STRIPES);
    hide At, Xor, X;
    SelfZero(X(Xor(b, i, STRIPES), At(b, s, i)));
  }

  lemma SelfZero(x: Byte)
    ensures X(x, x) == 0
  {
  }
}
