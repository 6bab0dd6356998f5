/** Address masking: remainders modulo a size that is a parameter. */
module Modular {
  /** x % w, written as repeated subtraction so that proofs about it stay linear. For w = 4096 it is
      x & 0x0FFF, and for w = 256 the offset of x in its page. */
  function Mask(w: nat, x: nat): (r: nat)
    requires w > 0
    ensures r < w
    ensures x < w ==> r == x
    decreases x
  {
    if x < w then x else Mask(w, x - w)
  }

  lemma {:induction false} MulStep(a: nat, b: nat, w: nat)
    requires a < b
    ensures a * w + w <= b * w
    decreases b
  {
    assert b * w == (b - 1) * w + w;
    if a < b - 1 {
      MulStep(a, b - 1, w);
    }
  }

  lemma RemainderUnique(w: nat, x: nat, q: nat, r: nat)
    requires r < w && x == q * w + r
    ensures x % w == r
  {
    var q' := x / w;
    assert x == q' * w + x % w;
    if q < q' {
      MulStep(q, q', w);
    } else if q' < q {
      MulStep(q', q, w);
    }
  }

  lemma RemainderStep(w: nat, x: nat)
    requires 0 < w <= x
    ensures x % w == (x - w) % w
  {
    var q, r := (x - w) / w, (x - w) % w;
    assert x - w == q * w + r;
    assert (q + 1) * w == q * w + w;
    RemainderUnique(w, x, q + 1, r);
  }

  lemma {:induction false} MaskIsRemainder(w: nat, x: nat)
    requires w > 0
    ensures Mask(w, x) == x % w
    decreases x
  {
    if x >= w {
      MaskIsRemainder(w, x - w);
      RemainderStep(w, x);
    }
  }

  /** Masking a partial sum first makes no difference. */
  lemma {:induction false} MaskAdd(w: nat, x: nat, y: nat)
    requires w > 0
    ensures Mask(w, Mask(w, x) + y) == Mask(w, x + y)
    decreases x
  {
    if x >= w {
      MaskAdd(w, x - w, y);
      assert x - w + y == x + y - w;
    }
  }

  /** Two offsets below the modulus that lead to the same remainder are equal. */
  lemma MaskShift(w: nat, x: nat, d: nat, e: nat)
    requires d < w && e < w && Mask(w, x + d) == Mask(w, x + e)
    ensures d == e
  {
    MaskAdd(w, x, d);
    MaskAdd(w, x, e);
  }

  /** Masking to a multiple of p keeps the offset within a p-sized block. */
  lemma {:induction false} MaskKeepsOffset(p: nat, w: nat, x: nat)
    requires p > 0 && w > 0 && Mask(p, w) == 0
    ensures Mask(p, Mask(w, x)) == Mask(p, x)
    decreases x
  {
    if x >= w {
      MaskKeepsOffset(p, w, x - w);
      MaskAdd(p, w, x - w);
    }
  }
}
