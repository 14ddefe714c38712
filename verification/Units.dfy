/** Arithmetic of blocks and clusters; a cluster is a power of two of blocks. */
module Units {
  const TWO32: int := 0x1_0000_0000

  /** `CMFS_MIN_CLUSTERSIZE` to `CMFS_MAX_CLUSTERSIZE`, in blocks of `CMFS_MIN_BLOCKSIZE` bytes. */
  predicate ClusterSize(bpc: nat) {
    bpc in {1, 2, 4, 8, 16, 32, 64, 128, 256, 512, 1024, 2048, 4096, 8192}
  }

  function Times(a: nat, b: nat): nat {
    a * b
  }

  lemma Divides(bpc: nat)
    requires ClusterSize(bpc)
    ensures TWO32 % bpc == 0 && 0 < bpc < TWO32
  {
  }

  lemma DivMod(x: nat, b: nat)
    requires 0 < b
    ensures x == Times(x / b, b) + x % b && x % b < b
  {
  }

  lemma Unique(b: nat, q: nat, r: nat, q': nat, r': nat)
    requires r < b && r' < b && Times(q, b) + r == Times(q', b) + r'
    ensures q == q' && r == r'
  {
    Order(b, q, q');
    Order(b, q', q);
  }

  /** Dividing a sum of whole clusters and a rest. */
  lemma DivOf(b: nat, q: nat, r: nat)
    requires r < b
    ensures (Times(q, b) + r) / b == q && (Times(q, b) + r) % b == r
  {
    var x := Times(q, b) + r;
    DivMod(x, b);
    Unique(b, x / b, x % b, q, r);
  }

  lemma Add(b: nat, p: nat, q: nat)
    ensures Times(p + q, b) == Times(p, b) + Times(q, b)
  {
  }

  lemma Order(b: nat, p: nat, q: nat)
    requires 0 < b
    ensures p < q ==> Times(p, b) + b <= Times(q, b)
    ensures p <= q ==> Times(p, b) <= Times(q, b)
    ensures p <= Times(p, b)
  {
    if p < q {
      Add(b, p, 1);
      Add(b, p + 1, q - p - 1);
    }
    assert p * b == p + p * (b - 1);
  }

  /** The 32-bit shift of a value that was cut to 32 bits. */
  lemma ShiftOf(a: nat, b: nat)
    ensures Times(a % TWO32, b) % TWO32 == Times(a, b) % TWO32
  {
    var q, r := a / TWO32, a % TWO32;
    assert a == q * TWO32 + r;
    assert Times(a, b) == Times(q, b) * TWO32 + Times(r, b);
    ModAdd(Times(q, b), Times(r, b));
  }

  /** Whole clusters, counted and shifted back. */
  lemma ShiftBack(n: nat, b: nat)
    requires 0 < b && n % b == 0 && n < TWO32
    ensures Times((n / b) % TWO32, b) % TWO32 == n
  {
    DivMod(n, b);
    ShiftOf(n / b, b);
  }

  lemma ModAdd(k: nat, r: nat)
    ensures (k * TWO32 + r) % TWO32 == r % TWO32
  {
  }

  /** A cluster starts below 2^32 exactly when all its blocks lie below it. */
  lemma BelowTwo32(b: nat, q: nat, r: nat)
    requires ClusterSize(b) && r < b
    ensures Times(q, b) < TWO32 <==> Times(q, b) + r < TWO32
  {
    Divides(b);
    DivMod(TWO32, b);
    var m := TWO32 / b;
    Order(b, q, m);
    Order(b, m, q);
  }

  /** Which cluster a block is in. */
  lemma InCluster(b: nat, x: nat, c: nat)
    requires 0 < b
    ensures x / b < c <==> x < Times(c, b)
    ensures c <= x / b <==> Times(c, b) <= x
  {
    DivMod(x, b);
    Order(b, x / b, c);
    Order(b, c, x / b);
  }

  /** Shifting in 32 bits yields whole clusters. */
  lemma ShiftWhole(b: nat, r: nat) returns (q: nat)
    requires ClusterSize(b)
    ensures Times(r, b) % TWO32 == Times(q, b)
  {
    Divides(b);
    DivMod(TWO32, b);
    var m, k := TWO32 / b, Times(r, b) / TWO32;
    Turns(b, m, k);
    Order(b, r, k * m);
    q := r - k * m;
    Add(b, k * m, q);
  }

  lemma Turns(b: nat, m: nat, k: nat)
    requires Times(m, b) == TWO32
    ensures k * TWO32 == Times(k * m, b)
  {
  }

  /** A count less a rest, in 64 bits. */
  lemma CountZero(s: nat, t: nat, rest: nat)
    requires s < TWO32 && (s + t) % TWO32 == 0 && rest < TWO32 && (s == 0 || rest < s)
    ensures (s - rest) % 0x1_0000_0000_0000_0000 == 0 <==> rest == 0 && t % TWO32 == 0
  {
  }

  lemma CountPlain(s: nat, rest: nat)
    requires rest <= s < TWO32
    ensures (s % TWO32 - rest) % 0x1_0000_0000_0000_0000 == s - rest
  {
  }
}
