/** Rule and context identifiers, and the fresh-identifier oracle that
    stands in for `Guid.NewGuid`. */
module Guids {

  /** An identifier. Only equality of identifiers matters to the model. */
  type Guid = nat

  /** The oracle's state: it has issued exactly the identifiers below `next`. */
  datatype GuidSource = GuidSource(next: nat)

  predicate Issued(src: GuidSource, g: Guid) {
    g < src.next
  }

  /** Draws an identifier the oracle has never issued before. */
  function NewGuid(src: GuidSource): (r: (Guid, GuidSource))
    ensures !Issued(src, r.0)
    ensures Issued(r.1, r.0)
    ensures forall g :: Issued(src, g) ==> Issued(r.1, g)
  {
    (src.next, GuidSource(src.next + 1))
  }

  /** The identifiers produced by `n` successive draws. */
  function Draws(src: GuidSource, n: nat): (r: (seq<Guid>, GuidSource))
    ensures |r.0| == n
    decreases n
  {
    if n == 0 then ([], src)
    else
      var (g, src') := NewGuid(src);
      var (rest, last) := Draws(src', n - 1);
      ([g] + rest, last)
  }

  /** Identifiers drawn from one oracle never repeat, and none of them was
      issued before the first draw. */
  lemma {:induction false} DrawsAreDistinct(src: GuidSource, n: nat)
    ensures forall i, j :: 0 <= i < j < n ==> Draws(src, n).0[i] != Draws(src, n).0[j]
    ensures forall i :: 0 <= i < n ==> !Issued(src, Draws(src, n).0[i])
    ensures forall i :: 0 <= i < n ==> Issued(Draws(src, n).1, Draws(src, n).0[i])
    ensures forall g :: Issued(src, g) ==> Issued(Draws(src, n).1, g)
    decreases n
  {
    if n > 0 {
      var (g, src') := NewGuid(src);
      DrawsAreDistinct(src', n - 1);
      var rest := Draws(src', n - 1).0;
      assert Draws(src, n).0 == [g] + rest;
      assert Draws(src, n).1 == Draws(src', n - 1).1;
    }
  }
}
