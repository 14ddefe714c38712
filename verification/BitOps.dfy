/** bitops.c: bit arrays, searched a byte at a time. */
module BitOps {
  import opened BlockCache

  // ---- words: the C operators on unsigned integers, from the lowest bit up ----

  /** `x << n` */
  function Shl(x: nat, n: nat): nat
    decreases n
  {
    if n == 0 then x else 2 * Shl(x, n - 1)
  }

  /** `x >> n` */
  function Shr(x: nat, n: nat): nat
    decreases n
  {
    if n == 0 then x else Shr(x, n - 1) / 2
  }

  /** `x & y` */
  function And(x: nat, y: nat): nat {
    if x == 0 then 0 else 2 * And(x / 2, y / 2) + if x % 2 == 1 && y % 2 == 1 then 1 else 0
  }

  /** `x | y` */
  function Or(x: nat, y: nat): nat {
    if x == 0 && y == 0 then 0 else 2 * Or(x / 2, y / 2) + if x % 2 == 1 || y % 2 == 1 then 1 else 0
  }

  /** The word whose low `n` bits are ones. */
  function Ones(n: nat): nat {
    if n == 0 then 0 else 2 * Ones(n - 1) + 1
  }

  const WORD: nat := 0xFFFF_FFFF

  /** `~x`, a byte being promoted to 32 bits first */
  function Not(x: nat): nat
    requires x <= WORD
  {
    WORD - x
  }

  /** `ffs`: the place of the lowest set bit, counted from 1, or 0. */
  function Ffs(x: nat): nat {
    if x == 0 then 0 else if x % 2 == 1 then 1 else 1 + Ffs(x / 2)
  }

  /** Bit `k` of a word. */
  predicate Bit(x: nat, k: nat)
    decreases k
  {
    if k == 0 then x % 2 == 1 else Bit(x / 2, k - 1)
  }

  /** The bits of a byte array, bit 0 of each byte first. */
  function Bits(b: seq<byte>): (s: seq<bool>)
    ensures |s| == 8 * |b| && forall i :: 0 <= i < |s| ==> s[i] == Bit(b[i / 8], i % 8)
  {
    seq(8 * |b|, i requires 0 <= i < 8 * |b| => Bit(b[i / 8], i % 8))
  }

  lemma {:induction false} ZeroBits(k: nat)
    ensures !Bit(0, k)
  {
    if k > 0 {
      ZeroBits(k - 1);
    }
  }

  lemma {:induction false} FfsFirst(x: nat)
    ensures var r := Ffs(x);
      && (r == 0 ==> forall k: nat :: !Bit(x, k))
      && (r > 0 ==> Bit(x, r - 1) && forall k :: 0 <= k < r - 1 ==> !Bit(x, k))
  {
    if x == 0 {
      forall k: nat ensures !Bit(0, k) { ZeroBits(k); }
    } else if x % 2 == 0 {
      FfsFirst(x / 2);
      forall k | 0 <= k < Ffs(x) - 1 ensures !Bit(x, k) {
        assert k > 0 ==> !Bit(x / 2, k - 1);
      }
    }
  }

  lemma {:induction false} FfsBelow(x: nat, n: nat)
    requires x <= Ones(n)
    ensures Ffs(x) <= n
    decreases n
  {
    if n > 0 && x > 0 {
      FfsBelow(x / 2, n - 1);
    }
  }

  /** The complement of a word with a clear bit below `n`. */
  lemma {:induction false} FfsNot(x: nat, n: nat, w: nat)
    requires x < Ones(n) && n <= w
    ensures x <= Ones(w) && 0 < Ffs(Ones(w) - x) <= n
    decreases n
  {
    FfsNotStep(x, n, w);
    if x % 2 == 1 {
      FfsNot(x / 2, n - 1, w - 1);
    }
  }

  lemma {:induction false} FfsNotStep(x: nat, n: nat, w: nat)
    requires x < Ones(n) && n <= w
    ensures x < Ones(w) && (Ones(w) - x) / 2 == Ones(w - 1) - x / 2 && (Ones(w) - x) % 2 == 1 - x % 2
    ensures x % 2 == 1 ==> x / 2 < Ones(n - 1)
  {
    OnesGrow(n, w);
  }

  lemma {:induction false} OnesGrow(n: nat, w: nat)
    requires n <= w
    ensures Ones(n) <= Ones(w)
  {
    if n < w {
      OnesGrow(n, w - 1);
    }
  }

  lemma {:induction false} AndBit(x: nat, y: nat, k: nat)
    ensures Bit(And(x, y), k) == (Bit(x, k) && Bit(y, k))
    decreases k
  {
    if x == 0 {
      ZeroBits(k);
    } else if k > 0 {
      AndBit(x / 2, y / 2, k - 1);
    }
  }

  lemma {:induction false} OrBit(x: nat, y: nat, k: nat)
    ensures Bit(Or(x, y), k) == (Bit(x, k) || Bit(y, k))
    decreases k
  {
    if x == 0 && y == 0 {
      ZeroBits(k);
    } else if k > 0 {
      OrBit(x / 2, y / 2, k - 1);
    }
  }

  lemma {:induction false} AndBelow(x: nat, y: nat)
    ensures And(x, y) <= x && And(x, y) <= y
  {
    if x > 0 {
      AndBelow(x / 2, y / 2);
    }
  }

  lemma {:induction false} OrBelow(x: nat, y: nat, n: nat)
    requires x <= Ones(n) && y <= Ones(n)
    ensures Or(x, y) <= Ones(n)
    decreases n
  {
    if n > 0 && (x > 0 || y > 0) {
      OrBelow(x / 2, y / 2, n - 1);
    }
  }

  lemma {:induction false} OnesBit(n: nat, k: nat)
    ensures Bit(Ones(n), k) == (k < n)
    decreases k
  {
    if n == 0 {
      ZeroBits(k);
    } else if k > 0 {
      OnesBit(n - 1, k - 1);
    }
  }

  lemma {:induction false} NotBitBelow(x: nat, w: nat, k: nat)
    requires x <= Ones(w) && k < w
    ensures Bit(Ones(w) - x, k) == !Bit(x, k)
    decreases k
  {
    if k > 0 {
      assert (Ones(w) - x) / 2 == Ones(w - 1) - x / 2;
      NotBitBelow(x / 2, w - 1, k - 1);
    }
  }

  lemma {:induction false} OneBit(n: nat, k: nat)
    ensures Bit(Shl(1, n), k) == (k == n)
    decreases n
  {
    if n == 0 {
      if k > 0 {
        ZeroBits(k - 1);
      }
    } else if k > 0 {
      assert Shl(1, n) / 2 == Shl(1, n - 1);
      OneBit(n - 1, k - 1);
    }
  }

  /** `(1 << n) - 1` */
  lemma {:induction false} LowMask(n: nat)
    ensures Shl(1, n) == Ones(n) + 1
  {
    if n > 0 {
      LowMask(n - 1);
    }
  }

  /** `255 >> (8 - w)` */
  lemma {:induction false} HighMask(w: nat)
    requires w <= 8
    ensures Shr(255, 8 - w) == Ones(w)
    decreases 8 - w
  {
    if w < 8 {
      HighMask(w + 1);
    } else {
      assert Ones(8) == 255;
    }
  }

  lemma WordOnes()
    ensures Ones(32) == WORD && Ones(8) == 255 && Ones(7) == 127
  {
    assert Ones(7) == 127;
    assert Ones(12) == 0xFFF;
    assert Ones(18) == 0x3_FFFF;
    assert Ones(25) == 0x1FF_FFFF;
  }

  lemma NotBit(x: nat, k: nat)
    requires x <= WORD && k < 32
    ensures Bit(Not(x), k) == !Bit(x, k)
  {
    WordOnes();
    NotBitBelow(x, 32, k);
  }

  lemma ByteOnes(k: nat)
    ensures Bit(255, k) == (k < 8)
  {
    WordOnes();
    OnesBit(8, k);
  }

  lemma FfsByte(x: nat)
    requires x <= 255
    ensures Ffs(x) <= 8
  {
    WordOnes();
    FfsBelow(x, 8);
  }

  /** The complement of a word below 255 has a one in its low byte. */
  lemma FfsNotByte(x: nat)
    requires x < 255
    ensures 0 < Ffs(Not(x)) <= 8
  {
    WordOnes();
    FfsNot(x, 8, 32);
  }

  lemma OnesByte(n: nat)
    requires n <= 8
    ensures Ones(n) <= 255 && (n < 8 ==> Ones(n) <= 127)
  {
    WordOnes();
    OnesGrow(n, if n < 8 then 7 else 8);
  }

  // ---- searches ----

  /** No bit from `lo` up to `hi` is `v`. */
  predicate NoneIn(s: seq<bool>, v: bool, lo: nat, hi: nat) {
    forall j :: lo <= j < hi && j < |s| ==> s[j] != v
  }

  /** `r` is the least index from `offset` up to `size` whose bit is `v`, or at least
      `size` when there is none. */
  predicate Next(s: seq<bool>, v: bool, size: nat, offset: nat, r: nat)
    requires size <= |s|
  {
    if r < size then offset <= r && s[r] == v && NoneIn(s, v, offset, r) else NoneIn(s, v, offset, size)
  }

  /** The search bit by bit: the first index from `from` on whose bit is `v`, or `size`. */
  function Scan(s: seq<bool>, v: bool, size: nat, from: nat): (r: nat)
    requires size <= |s|
    decreases size - from
  {
    if from >= size then size else if s[from] == v then from else Scan(s, v, size, from + 1)
  }

  /** A search by bytes gives what the search bit by bit gives, or passes the size with it. */
  lemma {:induction false} NextIsScan(s: seq<bool>, v: bool, size: nat, offset: nat, r: nat)
    requires size <= |s|
    ensures Next(s, v, size, offset, r)
      <==> if Scan(s, v, size, offset) < size then r == Scan(s, v, size, offset) else size <= r
    decreases size - offset
  {
    if offset < size && s[offset] != v {
      NextIsScan(s, v, size, offset + 1, r);
      assert NoneIn(s, v, offset + 1, size) ==> NoneIn(s, v, offset, size);
    }
  }

  /** Of the bits below `hi`, `y` has those of `x` from `lo` up that are `v`. */
  predicate Picks(x: nat, v: bool, lo: nat, hi: nat, y: nat) {
    forall k :: 0 <= k < hi ==> Bit(y, k) == (lo <= k && Bit(x, k) == v)
  }

  lemma InByte(b: seq<byte>, p: nat, k: nat)
    requires p < |b| && k < 8
    ensures 8 * p + k < |Bits(b)| && Bits(b)[8 * p + k] == Bit(b[p], k)
  {
  }

  /** What `ffs` finds in the bits picked from one byte. */
  lemma ByteStep(b: seq<byte>, v: bool, p: nat, lo: nat, hi: nat, y: nat)
    requires p < |b| && lo <= hi <= 8 && Picks(b[p], v, lo, hi, y)
    ensures var f := Ffs(y);
      && (f == 0 || f > hi ==> NoneIn(Bits(b), v, 8 * p + lo, 8 * p + hi))
      && (0 < f <= hi ==> lo < f && Bits(b)[8 * p + (f - 1)] == v && NoneIn(Bits(b), v, 8 * p + lo, 8 * p + (f - 1)))
  {
    FfsFirst(y);
    var f := Ffs(y);
    var end := if f == 0 || f > hi then hi else f - 1;
    forall j | 8 * p + lo <= j < 8 * p + end ensures Bits(b)[j] != v {
      InByte(b, p, j - 8 * p);
    }
    if 0 < f <= hi {
      InByte(b, p, f - 1);
    }
  }

  lemma Join(s: seq<bool>, v: bool, lo: nat, mid: nat, hi: nat)
    requires lo <= mid <= hi && NoneIn(s, v, lo, mid) && NoneIn(s, v, mid, hi)
    ensures NoneIn(s, v, lo, hi)
  {
  }

  /** A byte without a bit of value `v`. */
  lemma DullByte(b: seq<byte>, v: bool, p: nat)
    requires p < |b| && b[p] == if v then 0 else 255
    ensures NoneIn(Bits(b), v, 8 * p, 8 * p + 8)
  {
    forall j | 8 * p <= j < 8 * p + 8 ensures Bits(b)[j] != v {
      InByte(b, p, j - 8 * p);
      ZeroBits(j - 8 * p);
      ByteOnes(j - 8 * p);
    }
  }

  /** `~((1 << n) - 1)` */
  function High(n: nat): (y: nat)
    requires n < 8
  {
    LowMask(n);
    OnesByte(n);
    Not(Shl(1, n) - 1)
  }

  lemma HighBit(n: nat, k: nat)
    requires n < 8 && k < 32
    ensures Bit(High(n), k) == (n <= k)
  {
    LowMask(n);
    OnesByte(n);
    NotBit(Ones(n), k);
    OnesBit(n, k);
  }

  lemma PicksFrom(x: byte, n: nat)
    requires n < 8
    ensures Picks(x, true, n, 8, And(x, High(n))) && Ffs(And(x, High(n))) <= 8
  {
    forall k | 0 <= k < 8 ensures Bit(And(x, High(n)), k) == (n <= k && Bit(x, k)) {
      AndBit(x, High(n), k);
      HighBit(n, k);
    }
    AndBelow(x, High(n));
    FfsByte(And(x, High(n)));
  }

  lemma PicksClearFrom(x: byte, n: nat)
    requires n < 8
    ensures var y := And(And(Not(x), High(n)), 255); Picks(x, false, n, 8, y) && Ffs(y) <= 8
  {
    var z := And(Not(x), High(n));
    forall k | 0 <= k < 8 ensures Bit(And(z, 255), k) == (n <= k && !Bit(x, k)) {
      AndBit(z, 255, k);
      ByteOnes(k);
      AndBit(Not(x), High(n), k);
      NotBit(x, k);
      HighBit(n, k);
    }
    AndBelow(z, 255);
    FfsByte(And(z, 255));
  }

  /** The mask of the last byte of a search, in either branch. */
  lemma MaskBit(x: byte, w: nat, k: nat)
    requires 1 <= w <= 8
    ensures Bit(And(x, Shr(255, 8 - w)), k) == (k < w && Bit(x, k))
  {
    HighMask(w);
    AndBit(x, Ones(w), k);
    OnesBit(w, k);
  }

  lemma PicksTo(x: byte, w: nat)
    requires 1 <= w <= 8
    ensures var y := And(x, Shr(255, 8 - w));
      && Picks(x, true, 0, w, y) && Ffs(y) <= w
      && (w == 8 && x != 0 ==> Ffs(y) > 0)
  {
    var y := And(x, Shr(255, 8 - w));
    forall k | 0 <= k < w ensures Bit(y, k) == Bit(x, k) {
      MaskBit(x, w, k);
    }
    AndBelow(x, Shr(255, 8 - w));
    HighMask(w);
    FfsBelow(y, w);
    if w == 8 && x != 0 {
      FfsFirst(x);
      FfsByte(x);
      FfsFirst(y);
    }
  }

  /** `~(x & mask)` */
  function NotMasked(x: byte, mask: nat): (y: nat) {
    AndBelow(x, mask);
    Not(And(x, mask))
  }

  lemma PicksClearTo(x: byte, w: nat)
    requires 1 <= w <= 8 && (w == 8 ==> x != 255)
    ensures var y := NotMasked(x, Shr(255, 8 - w)); Picks(x, false, 0, w, y)
  {
    var y := And(x, Shr(255, 8 - w));
    AndBelow(x, Shr(255, 8 - w));
    forall k | 0 <= k < w ensures Bit(Not(y), k) == !Bit(x, k) {
      MaskBit(x, w, k);
      NotBit(y, k);
    }
    HighMask(w);
    OnesByte(w);
  }

  lemma ClearEnds(x: byte, w: nat)
    requires 1 <= w <= 8 && (w == 8 ==> x != 255)
    ensures var f := Ffs(NotMasked(x, Shr(255, 8 - w))); 0 < f <= 8 && f <= w + 1
  {
    var y := And(x, Shr(255, 8 - w));
    AndBelow(x, Shr(255, 8 - w));
    HighMask(w);
    if w < 8 {
      FfsNotMask(y, w);
    } else {
      FfsNotByte(y);
    }
  }

  lemma FfsNotMask(x: nat, w: nat)
    requires x <= Ones(w) && w < 8
    ensures x <= WORD && 0 < Ffs(Not(x)) <= w + 1
  {
    WordOnes();
    FfsNot(x, w + 1, 32);
  }

  /** The search starts inside a byte, and the first bit it meets in that byte lies past
      the size. */
  predicate Passes(s: seq<bool>, v: bool, size: nat, offset: nat) {
    var end := 8 * (offset / 8) + 8;
    0 < size && offset % 8 != 0 && end <= |s| && size < Scan(s, v, end, offset) < end
  }

  lemma FirstPasses(s: seq<bool>, v: bool, size: nat, offset: nat, r: nat)
    requires 0 < size && offset % 8 != 0 && 8 * (offset / 8) + 8 <= |s|
    requires Next(s, v, 8 * (offset / 8) + 8, offset, r)
    ensures r < 8 * (offset / 8) + 8 ==> (r > size <==> Passes(s, v, size, offset))
    ensures r >= 8 * (offset / 8) + 8 ==> !Passes(s, v, size, offset)
  {
    NextIsScan(s, v, 8 * (offset / 8) + 8, offset, r);
  }

  /** The fourth bit of a byte, found from its second bit on in a map of two bits. */
  lemma PastSize()
    ensures Passes(Bits([8]), true, 2, 1)
  {
    var s := Bits([8]);
    InByte([8], 0, 1);
    InByte([8], 0, 2);
    InByte([8], 0, 3);
    assert Bit(8, 3) && !Bit(8, 2) && !Bit(8, 1);
    NextIsScan(s, true, 8, 1, 3);
  }

  /** What a search finds in the byte in which it starts, not on its first bit. */
  lemma StartByte(b: seq<byte>, v: bool, offset: nat, y: nat)
    requires offset % 8 != 0 && offset / 8 < |b| && Ffs(y) <= 8 && Picks(b[offset / 8], v, offset % 8, 8, y)
    ensures Next(Bits(b), v, 8 * (offset / 8) + 8, offset, 8 * (offset / 8) + if Ffs(y) > 0 then Ffs(y) - 1 else 8)
  {
    ByteStep(b, v, offset / 8, offset % 8, 8, y);
  }

  /** And what that says about the whole search. */
  lemma FirstByte(b: seq<byte>, v: bool, size: nat, offset: nat, y: nat)
    requires 0 < size <= 8 * |b| && offset % 8 != 0 && offset / 8 < |b| && Ffs(y) <= 8
    requires Picks(b[offset / 8], v, offset % 8, 8, y)
    ensures Ffs(y) == 0 ==> NoneIn(Bits(b), v, offset, 8 * (offset / 8) + 8) && !Passes(Bits(b), v, size, offset)
    ensures Ffs(y) > 0 ==>
      var r := 8 * (offset / 8) + (Ffs(y) - 1);
      && Next(Bits(b), v, size, offset, r) && r < |Bits(b)| && Bits(b)[r] == v
      && (r > size <==> Passes(Bits(b), v, size, offset))
  {
    StartByte(b, v, offset, y);
    FirstPasses(Bits(b), v, size, offset, 8 * (offset / 8) + if Ffs(y) > 0 then Ffs(y) - 1 else 8);
  }

  /** The byte at which a search ends. */
  lemma LastByte(b: seq<byte>, v: bool, size: nat, offset: nat, p: nat, y: nat)
    requires offset <= 8 * p < size <= 8 * |b| && NoneIn(Bits(b), v, offset, 8 * p)
    requires Picks(b[p], v, 0, Width(size, p), y) && Ffs(y) <= 8 && Ffs(y) <= Width(size, p) + 1
    requires Ffs(y) == 0 ==> Width(size, p) < 8
    ensures Ffs(y) == 0 ==> Next(Bits(b), v, size, offset, size)
    ensures Ffs(y) > 0 ==> 8 * p + (Ffs(y) - 1) <= size && Next(Bits(b), v, size, offset, 8 * p + (Ffs(y) - 1))
  {
    var w := Width(size, p);
    ByteStep(b, v, p, 0, w, y);
    var end := if 0 < Ffs(y) <= w then 8 * p + (Ffs(y) - 1) else 8 * p + w;
    Join(Bits(b), v, offset, 8 * p, end);
  }

  /** How many bits of byte `p` are below `size`. */
  function Width(size: nat, p: nat): nat
    requires 8 * p < size
  {
    if 8 * p + 8 > size then size - 8 * p else 8
  }

  /** `cmfs_find_next_bit_set`, from byte `p` on. */
  method SetFromByte(a: array<byte>, size: nat, offset: nat, p0: nat) returns (r: nat)
    requires size <= 8 * a.Length && offset <= 8 * p0 && NoneIn(Bits(a[..]), true, offset, 8 * p0)
    ensures Next(Bits(a[..]), true, size, offset, r) && r <= size
  {
    ghost var b := a[..];
    var p, res, mask: nat := p0, 8 * p0, 255;
    while size > res && a[p] == 0
      invariant res == 8 * p && offset <= res && NoneIn(Bits(b), true, offset, res)
    {
      DullByte(b, true, p);
      Join(Bits(b), true, offset, res, res + 8);
      p, res := p + 1, res + 8;
    }
    if res >= size {
      return size;
    }
    if res + 8 > size {
      mask := Shr(mask, 8 - (size - res));
    }
    var d0 := Ffs(And(a[p], mask));
    PicksTo(b[p], Width(size, p));
    LastByte(b, true, size, offset, p, And(b[p], mask));
    if d0 == 0 {
      return size;
    }
    r := res + (d0 - 1);
  }

  /** `cmfs_find_next_bit_set` */
  method FindNextBitSet(a: array<byte>, size: nat, offset: nat) returns (r: nat)
    requires size <= 8 * a.Length && (offset % 8 != 0 ==> offset / 8 < a.Length)
    ensures Next(Bits(a[..]), true, size, offset, r)
    ensures r > size <==> Passes(Bits(a[..]), true, size, offset)
    ensures r > size ==> r < 8 * a.Length && Bits(a[..])[r]
  {
    if size == 0 {
      return 0;
    }
    var bit := offset % 8;
    var p := offset / 8;
    var res := 8 * p;
    if bit != 0 {
      var found := Ffs(And(a[p], High(bit)));
      PicksFrom(a[p], bit);
      FirstByte(a[..], true, size, offset, And(a[p], High(bit)));
      if found != 0 {
        return res + (found - 1);
      }
      p := p + 1;
    }
    r := SetFromByte(a, size, offset, p);
  }

  /** `cmfs_find_next_bit_clear`, from byte `p` on. */
  method ClearFromByte(a: array<byte>, size: nat, offset: nat, p0: nat) returns (r: nat)
    requires size <= 8 * a.Length && offset <= 8 * p0 && NoneIn(Bits(a[..]), false, offset, 8 * p0)
    ensures Next(Bits(a[..]), false, size, offset, r) && r <= size
  {
    ghost var b := a[..];
    var p, res, mask: nat := p0, 8 * p0, 255;
    while size > res && a[p] == 255
      invariant res == 8 * p && offset <= res && NoneIn(Bits(b), false, offset, res)
    {
      DullByte(b, false, p);
      Join(Bits(b), false, offset, res, res + 8);
      p, res := p + 1, res + 8;
    }
    if res >= size {
      return size;
    }
    if res + 8 > size {
      mask := Shr(mask, 8 - (size - res));
    }
    var d0 := Ffs(NotMasked(a[p], mask));
    PicksClearTo(b[p], Width(size, p));
    ClearEnds(b[p], Width(size, p));
    LastByte(b, false, size, offset, p, NotMasked(b[p], mask));
    if d0 == 0 {
      return size;
    }
    r := res + (d0 - 1);
  }

  /** `cmfs_find_next_bit_clear` */
  method FindNextBitClear(a: array<byte>, size: nat, offset: nat) returns (r: nat)
    requires size <= 8 * a.Length && (offset % 8 != 0 ==> offset / 8 < a.Length)
    ensures Next(Bits(a[..]), false, size, offset, r)
    ensures r > size <==> Passes(Bits(a[..]), false, size, offset)
  {
    if size == 0 {
      return 0;
    }
    var bit := offset % 8;
    var p := offset / 8;
    var res := 8 * p;
    if bit != 0 {
      var found := Ffs(And(And(Not(a[p]), High(bit)), 255));
      PicksClearFrom(a[p], bit);
      FirstByte(a[..], false, size, offset, And(And(Not(a[p]), High(bit)), 255));
      if found != 0 {
        return res + (found - 1);
      }
      p := p + 1;
    }
    r := ClearFromByte(a, size, offset, p);
  }

  // ---- counting ----

  /** How many of the bits from `lo` up to `hi` are `v`. */
  function Count(s: seq<bool>, v: bool, lo: nat, hi: nat): (n: nat)
    requires hi <= |s|
    ensures lo <= hi ==> n <= hi - lo
    decreases hi - lo
  {
    if lo >= hi then 0 else (if s[lo] == v then 1 else 0) + Count(s, v, lo + 1, hi)
  }

  lemma {:induction false} CountNone(s: seq<bool>, v: bool, lo: nat, mid: nat, hi: nat)
    requires lo <= mid <= hi <= |s| && NoneIn(s, v, lo, mid)
    ensures Count(s, v, lo, hi) == Count(s, v, mid, hi)
    decreases mid - lo
  {
    if lo < mid {
      CountNone(s, v, lo + 1, mid, hi);
    }
  }

  lemma InMap(at: nat, size: nat, bytes: nat)
    requires size <= 8 * bytes
    ensures at <= size && at % 8 != 0 ==> at / 8 < bytes
  {
  }

  /** One search, and what it says about the count. */
  method CountStep(a: array<byte>, size: nat, at: nat, ghost s: seq<bool>) returns (found: nat)
    requires s == Bits(a[..]) && size <= 8 * a.Length && (at % 8 != 0 ==> at / 8 < a.Length)
    ensures Count(s, true, at, size) == if found < size then 1 + Count(s, true, found + 1, size) else 0
    ensures found < size ==> at <= found
  {
    found := FindNextBitSet(a, size, at);
    if found < size {
      CountNone(s, true, at, found, size);
    } else if at <= size {
      CountNone(s, true, at, size, size);
    }
  }

  /** `cmfs_get_bits_set` */
  method GetBitsSet(a: array<byte>, size: nat, offset: nat) returns (set_bits: nat)
    requires size <= 8 * a.Length && (offset % 8 != 0 ==> offset / 8 < a.Length)
    ensures set_bits == Count(Bits(a[..]), true, offset, size)
  {
    ghost var s := Bits(a[..]);
    var at := offset;
    set_bits := 0;
    while true
      invariant at <= size || at == offset
      invariant set_bits + Count(s, true, at, size) == Count(s, true, offset, size)
      decreases size - at
    {
      InMap(at, size, a.Length);
      var found := CountStep(a, size, at, s);
      if found >= size {
        break;
      }
      set_bits := set_bits + 1;
      at := found + 1;
    }
  }

  // ---- single bits ----

  lemma ShlByte(n: nat)
    requires n < 8
    ensures Shl(1, n) <= 255
  {
    LowMask(n);
    OnesByte(n);
  }

  /** `x | 1 << n` */
  function WithBit(x: byte, n: nat): (y: byte)
    requires n < 8
  {
    ShlByte(n);
    OrByte(x, Shl(1, n));
    Or(x, Shl(1, n))
  }

  lemma OrByte(x: nat, y: nat)
    requires x <= 255 && y <= 255
    ensures Or(x, y) <= 255
  {
    WordOnes();
    OrBelow(x, y, 8);
  }

  lemma WithBitAt(x: byte, n: nat)
    requires n < 8
    ensures forall k :: 0 <= k < 8 ==> Bit(WithBit(x, n), k) == if k == n then true else Bit(x, k)
  {
    forall k | 0 <= k < 8 ensures Bit(WithBit(x, n), k) == (k == n || Bit(x, k)) {
      OneBit(n, k);
      OrBit(x, Shl(1, n), k);
    }
  }

  /** `x & ~(1 << n)` */
  function WithoutBit(x: byte, n: nat): (y: byte)
    requires n < 8
  {
    ShlByte(n);
    AndBelow(x, Not(Shl(1, n)));
    And(x, Not(Shl(1, n)))
  }

  lemma WithoutBitAt(x: byte, n: nat)
    requires n < 8
    ensures forall k :: 0 <= k < 8 ==> Bit(WithoutBit(x, n), k) == if k == n then false else Bit(x, k)
  {
    ShlByte(n);
    forall k | 0 <= k < 8 ensures Bit(WithoutBit(x, n), k) == (k != n && Bit(x, k)) {
      OneBit(n, k);
      NotBit(Shl(1, n), k);
      AndBit(x, Not(Shl(1, n)), k);
    }
  }

  lemma OneByte(b: seq<byte>, nr: nat, y: byte, v: bool)
    requires nr < 8 * |b| && forall k :: 0 <= k < 8 ==> Bit(y, k) == if k == nr % 8 then v else Bit(b[nr / 8], k)
    ensures Bits(b[nr / 8 := y]) == Bits(b)[nr := v]
  {
  }

  /** A byte masked with one bit is zero exactly when that bit is clear. */
  lemma MaskTest(x: nat, n: nat)
    ensures And(Shl(1, n), x) != 0 <==> Bit(x, n)
  {
  }

  /** `cmfs_set_bit` */
  method SetBit(nr: nat, a: array<byte>) returns (was: bool)
    requires nr < 8 * a.Length
    modifies a
    ensures was == old(Bits(a[..])[nr]) && Bits(a[..]) == old(Bits(a[..]))[nr := true]
  {
    was := And(Shl(1, nr % 8), a[nr / 8]) != 0;
    MaskTest(a[nr / 8], nr % 8);
    ghost var b := a[..];
    var y := WithBit(a[nr / 8], nr % 8);
    a[nr / 8] := y;
    WithBitAt(b[nr / 8], nr % 8);
    OneByte(b, nr, y, true);
    assert a[..] == b[nr / 8 := y];
  }

  /** `cmfs_clear_bit` */
  method ClearBit(nr: nat, a: array<byte>) returns (was: bool)
    requires nr < 8 * a.Length
    modifies a
    ensures was == old(Bits(a[..])[nr]) && Bits(a[..]) == old(Bits(a[..]))[nr := false]
  {
    was := And(Shl(1, nr % 8), a[nr / 8]) != 0;
    MaskTest(a[nr / 8], nr % 8);
    ghost var b := a[..];
    var y := WithoutBit(a[nr / 8], nr % 8);
    a[nr / 8] := y;
    WithoutBitAt(b[nr / 8], nr % 8);
    OneByte(b, nr, y, false);
    assert a[..] == b[nr / 8 := y];
  }

  /** `cmfs_test_bit` */
  method TestBit(nr: nat, a: array<byte>) returns (r: bool)
    requires nr < 8 * a.Length
    ensures r == Bits(a[..])[nr]
  {
    MaskTest(a[nr / 8], nr % 8);
    r := And(Shl(1, nr % 8), a[nr / 8]) != 0;
  }
}
