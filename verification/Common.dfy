/** What several modules share. */
module Common {

  type Byte = n: nat | n < 256

  datatype Option<T> = None | Some(value: T)

  /** A product, for proofs that need only how it grows. */
  function Times(k: nat, p: nat): (t: nat)
  {
    if k == 0 then 0 else Times(k - 1, p) + p
  }

  lemma {:induction false} TimesIs(k: nat, p: nat)
    ensures Times(k, p) == k * p
  {
    if k > 0 {
      TimesIs(k - 1, p);
    }
  }
}
