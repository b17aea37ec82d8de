/**
 Double hashing over a table of prime size (archival/dpkg.c, make_hash and the probing loops): the
 probes of a key visit every slot of the table.
 */
module Probing {
  import opened Words

  predicate IsPrime(p: nat) {
    p >= 2 && forall d :: 1 < d < p ==> p % d != 0
  }

  predicate Divides(d: nat, n: nat)
    requires d > 0
  {
    n % d == 0
  }

  lemma MulMod(k: nat, p: nat)
    requires p > 0
    ensures (k * p) % p == 0
    decreases k
  {
    if k > 0 {
      MulMod(k - 1, p);
      assert k * p == (k - 1) * p + p;
      AddModulus((k - 1) * p, p);
    }
  }

  lemma AddModulus(a: nat, p: nat)
    requires p > 0
    ensures (a + p) % p == a % p
  {
    var q, r := a / p, a % p;
    Distribute(q, 1, p);
    ModUnique(a + p, p, q + 1, r);
  }

  lemma SubDivides(a: nat, b: nat, p: nat)
    requires p > 0 && b <= a && Divides(p, a) && Divides(p, b)
    ensures Divides(p, a - b)
  {
    var i, j := a / p, b / p;
    assert a == i * p && b == j * p;
    if i < j {
      MulSpread(i, j, p);
    }
    Distribute(i - j, j, p);
    MulMod(i - j, p);
  }

  lemma MulDivides(k: nat, a: nat, p: nat)
    requires p > 0 && Divides(p, a)
    ensures Divides(p, k * a)
  {
    var i := a / p;
    assert a == i * p;
    MulAssoc(k, i, p);
    MulMod(k * i, p);
  }

  /** The least positive multiple of d that p divides, starting the search at m. */
  ghost function LeastFrom(p: nat, d: nat, m: nat): (r: nat)
    requires p > 0 && 1 <= m <= p && forall k :: 1 <= k < m ==> !Divides(p, k * d)
    ensures m <= r <= p && Divides(p, r * d) && forall k :: 1 <= k < r ==> !Divides(p, k * d)
    decreases p - m
  {
    if Divides(p, m * d) then m
    else if m == p then MulDivides(d, p, p); assert d * p == p * d; m
    else LeastFrom(p, d, m + 1)
  }

  /** A prime does not divide a product of two smaller numbers. */
  lemma NoSmallProduct(p: nat, d: nat, k: nat)
    requires IsPrime(p) && 1 <= d < p && 1 <= k < p
    ensures !Divides(p, k * d)
  {
    var m := LeastFrom(p, d, 1);
    var q, r := p / m, p % m;
    assert p == q * m + r;
    MulDivides(d, p, p);
    assert d * p == p * d;
    MulDivides(q, m * d, p);
    Distribute(q * m, r, d);
    MulAssoc(q, m, d);
    SubDivides(p * d, q * (m * d), p);
    assert p * d - q * (m * d) == r * d;
    if m == 1 {
      SmallNotDivided(p, d);
    }
  }

  lemma SmallNotDivided(p: nat, d: nat)
    requires 1 <= d < p
    ensures !Divides(p, 1 * d)
  {
    ModUnique(d, p, 0, d);
  }

  /** The next probe: the address goes down by the decrement, around the end of the table. */
  function Next(address: nat, decrement: nat, p: nat): (r: nat)
    requires address < p && 1 <= decrement < p
    ensures r < p
  {
    if address < decrement then address - decrement + p else address - decrement
  }

  function Probe(start: nat, decrement: nat, p: nat, k: nat): (r: nat)
    requires start < p && 1 <= decrement < p
    ensures r < p
  {
    if k == 0 then start else Next(Probe(start, decrement, p, k - 1), decrement, p)
  }

  lemma NextIs(x: nat, decrement: nat, p: nat)
    requires 1 <= decrement < p
    ensures Next(x % p, decrement, p) == (x + (p - decrement)) % p
  {
    var q, r := x / p, x % p;
    if r < decrement {
      ModUnique(x + (p - decrement), p, q, r + (p - decrement));
    } else {
      Distribute(q, 1, p);
      ModUnique(x + (p - decrement), p, q + 1, r - decrement);
    }
  }

  lemma {:induction false} ProbeIs(start: nat, decrement: nat, p: nat, k: nat)
    requires start < p && 1 <= decrement < p
    ensures Probe(start, decrement, p, k) == Sum(start, p - decrement, k) % p
  {
    hide Next;
    if k == 0 {
      ModUnique(start, p, 0, start);
    } else {
      ProbeIs(start, decrement, p, k - 1);
      NextIs(Sum(start, p - decrement, k - 1), decrement, p);
    }
  }

  /** start + k * e, one step at a time. */
  function Sum(start: nat, e: nat, k: nat): nat {
    if k == 0 then start else Sum(start, e, k - 1) + e
  }

  lemma {:induction false} SumIs(start: nat, e: nat, k: nat)
    ensures Sum(start, e, k) == start + k * e
  {
    if k > 0 {
      SumIs(start, e, k - 1);
      Distribute(k - 1, 1, e);
    }
  }

  /** The first p probes are all different. */
  lemma ProbesDiffer(start: nat, decrement: nat, p: nat, i: nat, j: nat)
    requires IsPrime(p) && start < p && 1 <= decrement < p && i < j < p
    ensures Probe(start, decrement, p, i) != Probe(start, decrement, p, j)
  {
    hide IsPrime;
    var e := p - decrement;
    var a, b := start + i * e, start + j * e;
    ProbeIs(start, decrement, p, i);
    ProbeIs(start, decrement, p, j);
    SumIs(start, e, i);
    SumIs(start, e, j);
    Distribute(j - i, i, e);
    NoSmallProduct(p, e, j - i);
    if a % p == b % p {
      SameRemainder(a, b, p);
    }
  }

  lemma SameRemainder(a: nat, b: nat, p: nat)
    requires p > 0 && a <= b && a % p == b % p
    ensures Divides(p, b - a)
  {
    var i, j := a / p, b / p;
    assert a == i * p + a % p && b == j * p + b % p;
    if j < i {
      MulSpread(j, i, p);
    }
    Distribute(j - i, i, p);
    MulMod(j - i, p);
  }

  ghost function Visited(start: nat, decrement: nat, p: nat, k: nat): (r: set<nat>)
    requires start < p && 1 <= decrement < p
  {
    if k == 0 then {} else Visited(start, decrement, p, k - 1) + {Probe(start, decrement, p, k - 1)}
  }

  /** One of the first k probes is at slot s. */
  ghost predicate Hit(start: nat, decrement: nat, p: nat, k: nat, s: nat)
    requires start < p && 1 <= decrement < p
  {
    exists j :: 0 <= j < k && Probe(start, decrement, p, j) == s
  }

  lemma {:induction false} VisitedSize(start: nat, decrement: nat, p: nat, k: nat)
    requires IsPrime(p) && start < p && 1 <= decrement < p && k <= p
    ensures |Visited(start, decrement, p, k)| == k
    ensures forall s :: s in Visited(start, decrement, p, k) ==> s < p && Hit(start, decrement, p, k, s)
  {
    hide IsPrime, Probe;
    if k > 0 {
      VisitedSize(start, decrement, p, k - 1);
      if Probe(start, decrement, p, k - 1) in Visited(start, decrement, p, k - 1) {
        var j :| 0 <= j < k - 1 && Probe(start, decrement, p, j) == Probe(start, decrement, p, k - 1);
        ProbesDiffer(start, decrement, p, j, k - 1);
      }
    }
  }

  lemma {:induction false} Below(s: set<nat>, p: nat)
    requires forall x :: x in s ==> x < p
    ensures |s| <= p
  {
    if p == 0 {
      assert s == {};
    } else {
      Below(s - {p - 1}, p - 1);
    }
  }

  /** Every slot is probed within p steps. */
  lemma ProbesReach(start: nat, decrement: nat, p: nat, slot: nat)
    requires IsPrime(p) && start < p && 1 <= decrement < p && slot < p
    ensures Hit(start, decrement, p, p, slot)
  {
    hide IsPrime, Probe;
    VisitedSize(start, decrement, p, p);
    var v := Visited(start, decrement, p, p);
    if slot !in v {
      Below(v + {slot}, p);
    }
  }
}
