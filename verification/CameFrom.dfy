/** The bits of an entry's comefrom word: bits 0 to 4 name the hooks a rule can be
    reached from, bit 5 says that the rule is on the path being searched. */
module CameFrom {
  import opened Powers

  const NF_IP_NUMHOOKS: nat := 5
  const ON_PATH: nat := NF_IP_NUMHOOKS

  /** w & (1 << k) */
  predicate Bit(w: nat, k: nat) {
    if k == 0 then w % 2 == 1 else Bit(w / 2, k - 1)
  }

  /** w | (1 << k) */
  function SetBit(w: nat, k: nat): nat {
    if k > 0 then 2 * SetBit(w / 2, k - 1) + w % 2
    else if w % 2 == 1 then w else w + 1
  }

  /** w ^ (1 << k) */
  function FlipBit(w: nat, k: nat): nat {
    if k > 0 then 2 * FlipBit(w / 2, k - 1) + w % 2
    else if w % 2 == 1 then w - 1 else w + 1
  }

  /** Setting or flipping bit k does that to bit k and nothing to the other bits. */
  lemma {:induction false} BitLaws(w: nat, k: nat, j: nat)
    ensures Bit(SetBit(w, k), j) == (j == k || Bit(w, j))
    ensures Bit(FlipBit(w, k), j) == (if j == k then !Bit(w, k) else Bit(w, j))
  {
    if k > 0 && j > 0 {
      BitLaws(w / 2, k - 1, j - 1);
    }
  }

  /** Bit k is worth 2^k: setting it adds that unless it is set, flipping it adds or takes it.
      A word with a bit set is worth at least that bit. */
  lemma {:induction false} BitWorth(w: nat, k: nat)
    ensures Bit(w, k) ==> w >= Power2(k)
    ensures SetBit(w, k) == if Bit(w, k) then w else w + Power2(k)
    ensures FlipBit(w, k) == if Bit(w, k) then w - Power2(k) else w + Power2(k)
  {
    if k > 0 {
      BitWorth(w / 2, k - 1);
    }
  }

  lemma {:induction false} ZeroHasNoBits(k: nat)
    ensures !Bit(0, k)
  {
    if k > 0 {
      ZeroHasNoBits(k - 1);
    }
  }
}
