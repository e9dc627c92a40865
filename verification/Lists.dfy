/** Positions in lists: insertion, and the cyclic order that the kernel's ring and scheduler loops
    follow. */
module Lists {

  function Insert<T>(xs: seq<T>, k: nat, x: T): seq<T>
    requires k <= |xs|
  {
    xs[..k] + [x] + xs[k..]
  }

  /** The next position in cyclic order. */
  function Succ(n: nat, i: nat): nat
    requires i < n
  {
    if i + 1 < n then i + 1 else 0
  }

  /** The position t steps from i. */
  function Walk(n: nat, i: nat, t: nat): nat
    requires i < n
    ensures Walk(n, i, t) < n
  {
    if t == 0 then i else Succ(n, Walk(n, i, t - 1))
  }

  /** Steps from c to i in cyclic order; a full turn if they are equal. */
  function Distance(n: nat, c: nat, i: nat): nat
    requires c < n && i < n
  {
    if i > c then i - c else i + n - c
  }

  /** That is how long the walk to i is: it does not come to i any sooner. */
  lemma DistanceIsWalk(n: nat, c: nat, i: nat)
    requires c < n && i < n
    ensures 1 <= Distance(n, c, i) <= n && Walk(n, c, Distance(n, c, i)) == i
    ensures forall t: nat :: 1 <= t < Distance(n, c, i) ==> Walk(n, c, t) != i
  {
    forall t: nat | t <= Distance(n, c, i) ensures Walk(n, c, t) == if c + t < n then c + t else c + t - n {
      WalkAround(n, c, t);
    }
  }

  lemma {:induction false} WalkAround(n: nat, c: nat, t: nat)
    requires c < n && t <= n
    ensures Walk(n, c, t) == if c + t < n then c + t else c + t - n
  {
    if t > 0 { WalkAround(n, c, t - 1); }
  }

  /** Without wrapping around. */
  lemma {:induction false} WalkAhead(n: nat, i: nat, t: nat)
    requires i + t < n
    ensures Walk(n, i, t) == i + t
  {
    if t > 0 { WalkAhead(n, i, t - 1); }
  }

  lemma {:induction false} WalkOn(n: nat, i: nat, t: nat, u: nat)
    requires i < n
    ensures Walk(n, i, t + u) == Walk(n, Walk(n, i, t), u)
  {
    if u > 0 { WalkOn(n, i, t, u - 1); }
  }

  /** Walking on reaches every position. */
  lemma WalkReaches(n: nat, i: nat, j: nat) returns (t: nat)
    requires i < n && j < n
    ensures t < n && Walk(n, i, t) == j
  {
    if i <= j {
      t := j - i;
      WalkAhead(n, i, t);
    } else {
      WalkAhead(n, i, n - 1 - i);
      WalkAhead(n, 0, j);
      t := n - i + j;
      WalkOn(n, i, n - i, j);
    }
  }
}
