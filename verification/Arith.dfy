/** Products and remainders by a symbolic size. They are written by repeated
    addition, one unfolding at a time, which keeps nonlinear arithmetic out of the
    proofs that only need neighbouring multiples. */
module Arith {

  function Times(k: nat, b: nat): nat {
    if k == 0 then 0 else Times(k - 1, b) + b
  }

  function Mod(a: nat, n: nat): nat
    requires n > 0
  {
    if a < n then a else Mod(a - n, n)
  }

  lemma {:induction false} TimesIsProduct(k: nat, b: nat)
    ensures Times(k, b) == k * b
    decreases k
  {
    if k > 0 {
      TimesIsProduct(k - 1, b);
      assert k * b == (k - 1) * b + b;
    }
  }

  lemma {:induction false} TimesStep(j: nat, k: nat, b: nat)
    requires j < k
    ensures Times(j, b) + b <= Times(k, b)
    decreases k - j
  {
    if j + 1 < k {
      TimesStep(j, k - 1, b);
    }
  }

  lemma TimesMono(j: nat, k: nat, b: nat)
    requires j <= k
    ensures Times(j, b) <= Times(k, b)
  {
    if j < k {
      TimesStep(j, k, b);
    }
  }

  // Multiples of a sector are multiples of a directory entry, 32 bytes.
  lemma Mod512(a: nat)
    requires a % 512 == 0
    ensures a % 32 == 0
  {
    assert a == 32 * (16 * (a / 512));
  }

  lemma {:induction false} TimesWhole(k: nat, b: nat)
    requires b % 32 == 0
    ensures Times(k, b) % 32 == 0
    decreases k
  {
    if k > 0 {
      TimesWhole(k - 1, b);
    }
  }

  lemma {:induction false} ModRange(a: nat, n: nat)
    requires n > 0
    ensures Mod(a, n) < n
    decreases a
  {
    if a >= n {
      ModRange(a - n, n);
    }
  }

  // Within one turn, no remainder repeats ...
  lemma {:induction false} ModInjective(a: nat, b: nat, n: nat)
    requires a < b < a + n
    ensures Mod(a, n) != Mod(b, n)
    decreases a
  {
    if a >= n {
      ModInjective(a - n, b - n, n);
    } else if b >= n {
      assert Mod(b, n) == b - n;
    }
  }

  // ... and every remainder occurs.
  lemma {:induction false} ModOnto(s: nat, r: nat, n: nat) returns (j: nat)
    requires r < n
    ensures j < n && Mod(j + s, n) == r
    decreases s
  {
    if s >= n {
      j := ModOnto(s - n, r, n);
    } else if s <= r {
      j := r - s;
    } else {
      j := r + n - s;
      assert Mod(r + n, n) == Mod(r, n);
    }
  }

  lemma {:induction false} MulStep(j: int, k: int, b: nat)
    requires j < k
    ensures j * b + b <= k * b
    decreases k - j
  {
    if j + 1 < k {
      MulStep(j, k - 1, b);
      assert k * b == (k - 1) * b + b;
    }
  }

  lemma MulMono(j: int, k: int, b: nat)
    requires j <= k
    ensures j * b <= k * b
  {
    if j < k {
      MulStep(j, k, b);
    }
  }

  lemma DivMul(a: nat, b: nat)
    requires b > 0
    ensures a / b * b + a % b == a && 0 <= a % b < b
  {
  }

  lemma DivIsQuotient(q: nat, b: nat, r: nat)
    requires r < b
    ensures (q * b + r) / b == q && (q * b + r) % b == r
  {
    var a := q * b + r;
    DivMul(a, b);
    if a / b < q {
      MulStep(a / b, q, b);
    } else if a / b > q {
      MulStep(q, a / b, b);
    }
  }

  lemma DivStep(a: nat, b: nat)
    requires 0 < b <= a
    ensures a / b == (a - b) / b + 1 && a % b == (a - b) % b
  {
    DivMul(a - b, b);
    var q, r := (a - b) / b, (a - b) % b;
    assert (q + 1) * b + r == a;
    DivIsQuotient(q + 1, b, r);
  }

  ghost predicate Ascending(at: seq<nat>) {
    forall j, k :: 0 <= j < k < |at| ==> at[j] < at[k]
  }

  // Places in a sequence, seen from one element earlier: that one, if it counts, and the
  // others one further on.
  function Onward(first: bool, at: seq<nat>): (r: seq<nat>)
    ensures |r| == |at| + if first then 1 else 0
    ensures forall k :: 0 <= k < |r| ==> r[k] == if first then (if k == 0 then 0 else at[k - 1] + 1) else at[k] + 1
  {
    (if first then [0] else []) + seq(|at|, k requires 0 <= k < |at| => at[k] + 1)
  }

  lemma OnwardAscends(first: bool, at: seq<nat>)
    requires Ascending(at)
    ensures Ascending(Onward(first, at))
  {
  }

  lemma OnwardHas(first: bool, at: seq<nat>, i: nat)
    ensures i in Onward(first, at) <==> if i == 0 then first else i - 1 in at
  {
    var r := Onward(first, at);
    if i > 0 && i - 1 in at {
      var k :| 0 <= k < |at| && at[k] == i - 1;
      assert r[if first then k + 1 else k] == i;
    }
    if first {
      assert r[0] == 0;
    }
  }
}
