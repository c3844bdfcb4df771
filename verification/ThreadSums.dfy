/** Adding up a weight over the program counters of all threads. */
module ThreadSums {

  ghost function Total<P>(pcs: seq<P>, weight: P -> int): int {
    if pcs == [] then 0 else weight(pcs[0]) + Total(pcs[1..], weight)
  }

  /** One thread moving changes the total by the change of its own weight. */
  lemma {:induction false} TotalUpdate<P>(pcs: seq<P>, t: nat, pc: P, weight: P -> int)
    requires t < |pcs|
    ensures Total(pcs[t := pc], weight) == Total(pcs, weight) - weight(pcs[t]) + weight(pc)
  {
    if t == 0 {
      assert pcs[t := pc][1..] == pcs[1..];
    } else {
      assert pcs[t := pc][1..] == pcs[1..][t - 1 := pc];
      TotalUpdate(pcs[1..], t - 1, pc, weight);
    }
  }

  lemma {:induction false} TotalBounds<P>(pcs: seq<P>, weight: P -> int)
    requires forall p :: p in pcs ==> 0 <= weight(p) <= 1
    ensures 0 <= Total(pcs, weight) <= |pcs|
  {
    if pcs != [] {
      TotalBounds(pcs[1..], weight);
    }
  }

  lemma {:induction false} TotalAtLeast<P>(pcs: seq<P>, t: nat, weight: P -> int)
    requires t < |pcs| && forall p :: p in pcs ==> 0 <= weight(p)
    ensures weight(pcs[t]) <= Total(pcs, weight)
  {
    if t > 0 {
      TotalAtLeast(pcs[1..], t - 1, weight);
    } else {
      TotalNonNegative(pcs[1..], weight);
    }
  }

  lemma {:induction false} TotalNonNegative<P>(pcs: seq<P>, weight: P -> int)
    requires forall p :: p in pcs ==> 0 <= weight(p)
    ensures 0 <= Total(pcs, weight)
  {
    if pcs != [] {
      TotalNonNegative(pcs[1..], weight);
    }
  }

  lemma {:induction false} TotalOfIdle<P>(n: nat, pc: P, weight: P -> int)
    requires weight(pc) == 0
    ensures Total(seq(n, _ => pc), weight) == 0
  {
    if n > 0 {
      assert seq(n, _ => pc)[1..] == seq(n - 1, _ => pc);
      TotalOfIdle(n - 1, pc, weight);
    }
  }

  /** A thread exists that carries positive weight. */
  lemma {:induction false} SomeoneCarries<P>(pcs: seq<P>, weight: P -> int) returns (t: nat)
    requires Total(pcs, weight) > 0
    ensures t < |pcs| && weight(pcs[t]) > 0
  {
    if weight(pcs[0]) > 0 {
      t := 0;
    } else {
      t := SomeoneCarries(pcs[1..], weight);
      t := t + 1;
    }
  }
}
