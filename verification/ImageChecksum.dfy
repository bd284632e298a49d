/** The image checksum: a sum of 16-bit words with end-around carry, and taking the
    stored checksum back out of it. */
module ImageChecksum {
  import opened FatFormat

  function Sum(ws: seq<Word>): nat {
    if ws == [] then 0 else Sum(ws[..|ws| - 1]) + ws[|ws| - 1]
  }

  /** A sum brought to 16 bits: congruent modulo 65535, and zero only for zero. */
  function Norm(n: nat): Word {
    if n == 0 then 0 else (n - 1) % 0xffff + 1
  }

  // Adding the high half to the low half.
  function Fold(x: nat): nat {
    x / 0x1_0000 + x % 0x1_0000
  }

  lemma NormMod(n: nat)
    ensures Norm(n) % 0xffff == n % 0xffff && (Norm(n) == 0 <==> n == 0)
  {
    if n > 0 {
      var q := (n - 1) / 0xffff;
      assert n == q * 0xffff + Norm(n);
      assert n % 0xffff == Norm(n) % 0xffff;
    }
  }

  // Two words that agree modulo 65535 and on being zero are the same.
  lemma NormUnique(x: Word, n: nat)
    requires x % 0xffff == n % 0xffff && (x == 0 <==> n == 0)
    ensures x == Norm(n)
  {
    NormMod(n);
  }

  // One step of the sum.
  lemma FoldStep(n: nat, w: Word)
    ensures Fold(Norm(n) + w) == Norm(n + w)
  {
    var x := Norm(n) + w;
    NormMod(n);
    assert Fold(x) == if x < 0x1_0000 then x else x - 0xffff;
    assert x % 0xffff == (n % 0xffff + w) % 0xffff == (n + w) % 0xffff by {
      ModSum(n, w);
      ModSum(Norm(n), w);
    }
    NormUnique(Fold(x), n + w);
  }

  lemma ModSum(a: nat, b: nat)
    ensures (a + b) % 0xffff == (a % 0xffff + b) % 0xffff
  {
    var q := a / 0xffff;
    assert a == q * 0xffff + a % 0xffff;
    assert a + b == q * 0xffff + (a % 0xffff + b);
  }

  /** The checksum of some words, going on from the checksum of others. */
  method ChkSum(partialSum: Word, source: seq<Word>) returns (r: Word)
    ensures r == Norm(partialSum + Sum(source))
  {
    var sum: nat := partialSum;
    NormSmall(partialSum);
    for i := 0 to |source|
      invariant sum == Norm(partialSum + Sum(source[..i]))
    {
      FoldStep(partialSum + Sum(source[..i]), source[i]);
      assert source[..i + 1][..i] == source[..i];
      sum := sum + source[i];
      sum := sum / 0x1_0000 + sum % 0x1_0000;
    }
    assert source[..|source|] == source;
    r := (sum / 0x1_0000 + sum) % 0x1_0000;
  }

  lemma NormSmall(w: Word)
    ensures Norm(w) == w
  {
  }

  lemma {:induction false} SumAppend(a: seq<Word>, b: seq<Word>)
    ensures Sum(a + b) == Sum(a) + Sum(b)
    decreases |b|
  {
    if b == [] {
      assert a + b == a;
    } else {
      assert (a + b)[..|a + b| - 1] == a + b[..|b| - 1];
      SumAppend(a, b[..|b| - 1]);
    }
  }

  /** The checksum of a file read in pieces is that of the whole. */
  lemma ChecksumsChain(p: Word, a: seq<Word>, b: seq<Word>)
    ensures Norm(Norm(p + Sum(a)) + Sum(b)) == Norm(p + Sum(a + b))
  {
    hide Norm;
    SumAppend(a, b);
    var n, m := p + Sum(a), Sum(b);
    NormMod(n);
    NormMod(Norm(n) + m);
    ModSum(n, m);
    ModSum(Norm(n), m);
    NormUnique(Norm(Norm(n) + m), n + m);
  }

  lemma WithoutOne(b: seq<Word>, i: nat)
    requires i < |b|
    ensures var rest := b[..i] + b[i + 1..];
            multiset(b) == multiset(rest) + multiset{b[i]} && Sum(b) == Sum(rest) + b[i]
  {
    var w := b[i];
    assert b == b[..i] + [w] + b[i + 1..];
    SumAppend(b[..i], b[i + 1..]);
    SumAppend(b[..i], [w]);
    SumAppend(b[..i] + [w], b[i + 1..]);
  }

  lemma CancelOne(x: multiset<Word>, y: multiset<Word>, v: Word)
    requires x + multiset{v} == y + multiset{v}
    ensures x == y
  {
    assert (x + multiset{v}) - multiset{v} == x && (y + multiset{v}) - multiset{v} == y;
  }

  lemma {:induction false} SumOfMultiset(a: seq<Word>, b: seq<Word>)
    requires multiset(a) == multiset(b)
    ensures Sum(a) == Sum(b)
    decreases |a|
  {
    if a == [] {
      assert |multiset(b)| == 0;
    } else {
      var last := |a| - 1;
      assert a[last] in multiset(a);
      var i :| 0 <= i < |b| && b[i] == a[last];
      WithoutOne(a, last);
      WithoutOne(b, i);
      assert a[..last] + a[last + 1..] == a[..last];
      CancelOne(multiset(a[..last]), multiset(b[..i] + b[i + 1..]), a[last]);
      SumOfMultiset(a[..last], b[..i] + b[i + 1..]);
    }
  }

  /** The checksum does not depend on the order of the words, is their sum modulo 65535,
      and from a zero start is zero for all-zero words only. */
  lemma ChecksumMeaning(p: Word, a: seq<Word>, b: seq<Word>)
    ensures multiset(a) == multiset(b) ==> Norm(p + Sum(a)) == Norm(p + Sum(b))
    ensures Norm(p + Sum(a)) % 0xffff == (p + Sum(a)) % 0xffff
    ensures Norm(Sum(a)) == 0 <==> forall i :: 0 <= i < |a| ==> a[i] == 0
  {
    if multiset(a) == multiset(b) {
      SumOfMultiset(a, b);
    }
    NormMod(p + Sum(a));
    NormMod(Sum(a));
    SumZero(a);
  }

  lemma {:induction false} SumZero(a: seq<Word>)
    ensures Sum(a) == 0 <==> forall i :: 0 <= i < |a| ==> a[i] == 0
    decreases |a|
  {
    if a != [] {
      SumZero(a[..|a| - 1]);
    }
  }

  // Unsigned 16-bit subtraction with end-around borrow.
  function TakeOut(sum: Word, w: Word): Word {
    (sum - (if sum < w then 1 else 0) - w) % 0x1_0000
  }

  lemma TakeOutExact(sum: Word, w: Word)
    ensures TakeOut(sum, w) == if sum < w then sum + 0xffff - w else sum - w
  {
  }

  /** Taking the two checksum words out of the sum of everything gives what summing with
      those words zeroed gives, up to a multiple of 65535 ... */
  lemma RemovalCongruent(rest: nat, low: Word, high: Word)
    ensures TakeOut(TakeOut(Norm(rest + low + high), low), high) % 0xffff == Norm(rest) % 0xffff
  {
    var p := Norm(rest + low + high);
    var q := TakeOut(p, low);
    TakeOutExact(p, low);
    TakeOutExact(q, high);
    NormMod(rest + low + high);
    NormMod(rest);
    ModCancel(p, rest + high, low);
    ModCancel(q, rest, high);
  }

  lemma ModCancel(p: Word, n: nat, w: Word)
    requires p % 0xffff == (n + w) % 0xffff
    ensures TakeOut(p, w) % 0xffff == n % 0xffff
  {
    TakeOutExact(p, w);
    var r := TakeOut(p, w);
    assert (r + w) % 0xffff == p % 0xffff;
    ModSum(r, w);
    ModSum(n, w);
  }

  /** ... and exactly the same, unless the other words sum to a positive multiple of
      65535 and the checksum words are not both zero: then it gives zero for 0xffff. */
  lemma RemovalExact(rest: nat, low: Word, high: Word)
    ensures TakeOut(TakeOut(Norm(rest + low + high), low), high) == Norm(rest)
            <==> rest == 0 || rest % 0xffff != 0 || (low == 0 && high == 0)
  {
    var r := TakeOut(TakeOut(Norm(rest + low + high), low), high);
    RemovalCongruent(rest, low, high);
    NormMod(rest);
    if rest % 0xffff == 0 {
      ModSum(rest, low + high);
      NormMod(rest + low + high);
      NormMod(low + high);
      TakeOutExact(Norm(rest + low + high), low);
      TakeOutExact(TakeOut(Norm(rest + low + high), low), high);
      if low + high > 0 {
        NormUnique(Norm(rest + low + high), low + high);
      }
    }
  }

  // What is left of a sum over words that add up to `rest`, and low and high.
  ghost predicate Removed(r: Word, rest: nat, low: Word, high: Word) {
    && r % 0xffff == Norm(rest) % 0xffff
    && (r == Norm(rest) <==> rest == 0 || rest % 0xffff != 0 || (low == 0 && high == 0))
  }

  lemma RemovedMod(sum: Word, low: Word, high: Word)
    ensures TakeOut(TakeOut(sum, low), high) % 0xffff == (sum - low - high) % 0xffff
  {
    TakeOutExact(sum, low);
    TakeOutExact(TakeOut(sum, low), high);
  }

  method TakeOutWord(sum: Word, w: Word) returns (r: Word)
    ensures r == TakeOut(sum, w)
  {
    r := (sum - (if sum < w then 1 else 0)) % 0x1_0000;
    r := (r - w) % 0x1_0000;
  }

  /** The stored checksum lies in the words summed; take it out again. Whatever the other
      words sum to, what is left agrees with their checksum modulo 65535, and is that
      checksum except where RemovalExact says it is zero for 0xffff. */
  method RemoveCheckSum(partialSum: Word, low: Word, high: Word) returns (r: Word)
    ensures r % 0xffff == (partialSum - low - high) % 0xffff
    ensures forall rest: nat :: partialSum == Norm(rest + low + high) ==> Removed(r, rest, low, high)
  {
    hide Norm, TakeOut;
    r := TakeOutWord(partialSum, low);
    r := TakeOutWord(r, high);
    forall rest: nat | partialSum == Norm(rest + low + high)
      ensures Removed(r, rest, low, high)
    {
      RemovalCongruent(rest, low, high);
      RemovalExact(rest, low, high);
    }
    RemovedMod(partialSum, low, high);
  }
}
