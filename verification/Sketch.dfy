/** The count-min sketch of src/data_sketch.c, with the 128-bit hash of the key given:
    what every counter counts, and how good the estimate is. */
module Sketch {
  import opened Trie
  import opened Bins
  import opened Parts

  const UINT32_MAX := 0xffff_ffff
  const INT32_MAX := 0x7fff_ffff
  const WRAP := 0x1_0000_0000

  /** uint64_t. */
  type Word = n: nat | n < 0x1_0000_0000_0000_0000

  function Pow2(n: nat): (p: nat)
    ensures p > 0
  {
    if n == 0 then 1 else 2 * Pow2(n - 1)
  }

  /** a | b. */
  function Or(a: nat, b: nat): nat {
    if a == 0 then b
    else if b == 0 then a
    else 2 * Or(a / 2, b / 2) + (if a % 2 == 1 || b % 2 == 1 then 1 else 0)
  }

  lemma {:induction false} OrBelow(a: nat, b: nat, n: nat)
    requires a < Pow2(n) && b < Pow2(n)
    ensures Or(a, b) < Pow2(n)
  {
    if a > 0 && b > 0 {
      assert n > 0;
      OrBelow(a / 2, b / 2, n - 1);
    }
  }

  lemma WordSize()
    ensures Pow2(64) == 0x1_0000_0000_0000_0000
  {
    assert Pow2(4) == 16;
    Pow2Sum(4, 4);
    Pow2Sum(8, 8);
    Pow2Sum(16, 16);
    Pow2Sum(32, 32);
  }

  /** w >> n. */
  function Right(w: Word, n: nat): (r: Word) {
    hide Pow2;
    AtMostWhole(w, Pow2(n));
    w / Pow2(n)
  }

  lemma AtMostWhole(a: nat, n: nat)
    requires n > 0
    ensures 0 <= a / n <= a
  {
    Quotient(a, n);
    var q := a / n;
    if q > a {
      CountMin.AtMost(a + 1, q, n);
      AtLeast(a + 1, 1);
      CountMin.AtMost(1, n, a + 1);
    }
  }

  /** w << n, what goes beyond 64 bits being lost. */
  function Left(w: Word, n: nat): Word { w * Pow2(n) % 0x1_0000_0000_0000_0000 }

  function OrWords(a: Word, b: Word): (r: Word) {
    WordSize();
    OrBelow(a, b, 64);
    Or(a, b)
  }

  /** ext_hash: two words. */
  datatype Digest = Digest(low: Word, high: Word)

  // --------------------------------------------------------------- the rows

  /** The words as they stand when row i is reached, and tot_shift. */
  datatype Slice = Slice(low: Word, high: Word, shifted: nat)

  function FirstSlice(h: Digest): Slice { Slice(h.low, h.high, 0) }

  /** The end of the loop body: `shift` bits are used up, and when the low word runs
      out bits of the high word are put in. */
  function NextSlice(s: Slice, shift: nat): (r: Slice)
    requires s.shifted < 64 && shift < 64
    ensures r.shifted < 64
  {
    var total := s.shifted + shift;
    if total < 64 then Slice(Right(s.low, shift), s.high, total)
    else if total == 64 then Slice(Right(s.high, shift), s.high, 0)
    else
      var t := total - 64;
      Slice(Right(OrWords(s.low, Left(s.high, shift - t)), shift), Right(s.high, 64 - t), t)
  }

  function SliceAt(h: Digest, shift: nat, i: nat): (r: Slice)
    requires shift < 64
    ensures r.shifted < 64
  {
    if i == 0 then FirstSlice(h) else NextSlice(SliceAt(h, shift, i - 1), shift)
  }

  /** The counter of row i: i * width + (hash[0] & (width - 1)). */
  function Cell(h: Digest, p: Params, i: nat): (c: nat)
    requires PowerOfTwo(p.width) && p.shift < 64
    ensures i * p.width <= c < i * p.width + p.width && c / p.width == i
  {
    var x := SliceAt(h, p.shift, i).low;
    AndMask(x, p.width);
    Remainder(i * p.width + And(x, p.width - 1), p.width, i, And(x, p.width - 1));
    i * p.width + And(x, p.width - 1)
  }

  lemma {:induction false} Pow2Sum(a: nat, b: nat)
    ensures Pow2(a + b) == Pow2(a) * Pow2(b)
  {
    if a > 0 {
      Pow2Sum(a - 1, b);
      assert Pow2(a + b) == 2 * Pow2(a - 1 + b);
      assert 2 * (Pow2(a - 1) * Pow2(b)) == 2 * Pow2(a - 1) * Pow2(b);
    }
  }

  lemma TwiceDivided(x: nat, a: nat, b: nat)
    requires a > 0 && b > 0
    ensures a * b > 0 && x / a / b == x / (a * b)
  {
    Quotient(x, a);
    Quotient(x / a, b);
    var q, r := x / a / b, x / a % b * a + x % a;
    AtLeastOne(a, b);
    CountMin.AtMost(x / a % b + 1, b, a);
    assert (x / a % b + 1) * a == x / a % b * a + a;
    assert x / a * a == (q * b + x / a % b) * a == q * b * a + x / a % b * a == q * (a * b) + x / a % b * a;
    Remainder(x, a * b, q, r);
  }

  lemma AtLeastOne(a: nat, b: nat)
    requires a > 0 && b > 0
    ensures a * b > 0
  {
  }

  /** As long as the low word lasts, row i is told by its bits from number i * shift on;
      no two of these rows share a bit if the width is 2^shift. */
  lemma {:induction false} RowBits(h: Digest, p: Params, i: nat)
    requires PowerOfTwo(p.width) && p.width > 0 && p.shift < 64 && i * p.shift < 64
    ensures Cell(h, p, i) == i * p.width + h.low / Pow2(i * p.shift) % p.width
  {
    hide And, PowerOfTwo, Pow2;
    SliceBits(h, p.shift, i);
    AndMask(SliceAt(h, p.shift, i).low, p.width);
  }

  lemma {:induction false} SliceBits(h: Digest, shift: nat, i: nat)
    requires shift < 64 && i * shift < 64
    ensures SliceAt(h, shift, i) == Slice(Right(h.low, i * shift), h.high, i * shift)
  {
    hide Pow2;
    if i == 0 {
      assert Pow2(0) == 1 by { PowZero(); }
    } else {
      assert i * shift == (i - 1) * shift + shift;
      SliceBits(h, shift, i - 1);
      Pow2Sum((i - 1) * shift, shift);
      TwiceDivided(h.low, Pow2((i - 1) * shift), Pow2(shift));
    }
  }

  // Where the low word runs out, before row m: rows from m on are told by the high word.

  lemma {:induction false} OrAbove(a: nat, c: nat, n: nat)
    requires a < Pow2(n)
    ensures Or(a, c * Pow2(n)) / Pow2(n) == c
  {
    var b, half := c * Pow2(n), Pow2(n);
    if n == 0 {
      assert a == 0;
    } else if a == 0 || b == 0 {
      Remainder(Or(a, b), Pow2(n), c, a);
    } else {
      var k := Pow2(n - 1);
      assert b == 2 * (c * k);
      OrAbove(a / 2, c, n - 1);
      TwiceDivided(Or(a, b), 2, k);
    }
  }

  lemma TimesRemainder(x: nat, m: nat, k: nat)
    requires m > 0 && k > 0
    ensures m * k > 0 && x * k % (m * k) == x % m * k && x % m * k / k == x % m
  {
    AtLeastOne(m, k);
    Quotient(x, m);
    var q, r := x / m, x % m;
    assert x * k == (q * m + r) * k == q * (m * k) + r * k;
    CountMin.AtMost(r + 1, m, k);
    Remainder(x * k, m * k, q, r * k);
    Remainder(r * k, k, r, 0);
  }

  /** The bits of the high word that come in. */
  lemma ShiftedIn(low: Word, high: Word, n: nat, t: nat)
    requires n + t < 64 && low < Pow2(n)
    ensures Right(OrWords(low, Left(high, n)), n + t) == high % Pow2(64 - n) / Pow2(t)
  {
    hide Pow2, Or;
    WordSize();
    Pow2Sum(64 - n, n);
    Pow2Sum(n, t);
    TimesRemainder(high, Pow2(64 - n), Pow2(n));
    var c := high % Pow2(64 - n);
    assert Left(high, n) == c * Pow2(n);
    OrAbove(low, c, n);
    TwiceDivided(Or(low, c * Pow2(n)), Pow2(n), Pow2(t));
  }

  lemma LowRest(w: Word, n: nat)
    requires n <= 64
    ensures Right(w, n) < Pow2(64 - n)
  {
    hide Pow2;
    WordSize();
    Pow2Sum(64 - n, n);
    Quotient(w, Pow2(n));
    if w / Pow2(n) >= Pow2(64 - n) { CountMin.AtMost(Pow2(64 - n), w / Pow2(n), Pow2(n)); }
  }

  lemma Crossing(h: Digest, shift: nat, m: nat)
    requires 0 < shift < 64 && m > 0 && (m - 1) * shift < 64 <= m * shift
    ensures var s := SliceAt(h, shift, m);
            && s.shifted == m * shift - 64
            && s.low == if m * shift == 64 then h.high / Pow2(shift)
                        else h.high % Pow2((m - 1) * shift) / Pow2(m * shift - 64)
  {
    hide Pow2, OrWords, Right, Left;
    var n := 64 - (m - 1) * shift;
    assert m * shift == (m - 1) * shift + shift;
    SliceBits(h, shift, m - 1);
    LowRest(h.low, (m - 1) * shift);
    RightIs(h.high, shift);
    if m * shift > 64 { ShiftedIn(Right(h.low, (m - 1) * shift), h.high, n, m * shift - 64); }
  }

  lemma RightIs(w: Word, n: nat)
    ensures Right(w, n) == w / Pow2(n)
  {
  }

  lemma OneSlice(s: Slice, shift: nat)
    requires s.shifted + shift < 64
    ensures NextSlice(s, shift) == Slice(Right(s.low, shift), s.high, s.shifted + shift)
  {
  }

  /** As long as no other crossing comes, with used == j * shift. */
  lemma {:induction false} SliceAfter(h: Digest, shift: nat, m: nat, j: nat, used: nat)
    requires shift < 64 && used == j * shift && SliceAt(h, shift, m).shifted + used < 64
    ensures var s, r := SliceAt(h, shift, m), SliceAt(h, shift, m + j);
            r.low == s.low / Pow2(used) && r.shifted == s.shifted + used
  {
    hide Pow2, NextSlice;
    if j == 0 {
      PowZero();
    } else {
      SliceAfter(h, shift, m, j - 1, used - shift);
      OneSlice(SliceAt(h, shift, m + j - 1), shift);
      Pow2Sum(used - shift, shift);
      TwiceDivided(SliceAt(h, shift, m).low, Pow2(used - shift), Pow2(shift));
    }
  }

  /** Row m is the first that the low word does not reach.  If the low word was used
      up exactly, the rows from there on are told by the bits of the high word, the
      first `shift` of which are skipped; otherwise by the bits of the high word from
      number m * shift - 64 on, of which the topmost are cut off. */
  lemma HighRowBits(h: Digest, p: Params, m: nat, i: nat)
    requires PowerOfTwo(p.width) && p.width > 0 && 0 < p.shift < 64
    requires 0 < m <= i && (m - 1) * p.shift < 64 <= m * p.shift && i * p.shift < 128
    ensures m * p.shift == 64 ==>
              Cell(h, p, i) == i * p.width + h.high / Pow2(i * p.shift - 64 + p.shift) % p.width
    ensures m * p.shift > 64 ==>
              Cell(h, p, i) ==
              i * p.width + h.high % Pow2((m - 1) * p.shift) / Pow2(i * p.shift - 64) % p.width
  {
    hide And, PowerOfTwo, Pow2, SliceAt, Cell;
    var used := i * p.shift - m * p.shift;
    assert used == (i - m) * p.shift;
    Crossing(h, p.shift, m);
    SliceAfter(h, p.shift, m, i - m, used);
    CellIs(h, p, i);
    if m * p.shift == 64 {
      Pow2Sum(p.shift, used);
      TwiceDivided(h.high, Pow2(p.shift), Pow2(used));
    } else {
      Pow2Sum(m * p.shift - 64, used);
      TwiceDivided(h.high % Pow2((m - 1) * p.shift), Pow2(m * p.shift - 64), Pow2(used));
    }
  }

  lemma CellIs(h: Digest, p: Params, i: nat)
    requires PowerOfTwo(p.width) && p.width > 0 && p.shift < 64
    ensures Cell(h, p, i) == i * p.width + SliceAt(h, p.shift, i).low % p.width
  {
    hide And, PowerOfTwo, SliceAt;
    AndMask(SliceAt(h, p.shift, i).low, p.width);
  }

  lemma PowZero()
    ensures Pow2(0) == 1
  {
  }

  datatype Params = Params(width: nat, depth: nat, shift: nat)

  ghost predicate Fine(p: Params) { PowerOfTwo(p.width) && p.width > 0 && p.shift < 64 }

  // --------------------------------------------------------------- counting

  /** How many of the increments went to counter c of row i. */
  ghost function Hits(hist: seq<Digest>, p: Params, i: nat, c: nat): (n: nat)
    requires Fine(p)
    ensures n <= |hist|
  {
    if hist == [] then 0
    else
      var last := |hist| - 1;
      Hits(hist[..last], p, i, c) + (if Cell(hist[last], p, i) == c then 1 else 0)
  }

  function Min(a: nat, b: nat): nat { if a <= b then a else b }

  /** The least of the counters of h in the first i rows, each modulo 2^32. */
  ghost function Estimate(hist: seq<Digest>, p: Params, h: Digest, i: nat): nat
    requires Fine(p)
  {
    if i == 0 then UINT32_MAX
    else Min(Estimate(hist, p, h, i - 1), Hits(hist, p, i - 1, Cell(h, p, i - 1)) % WRAP)
  }

  /** uint32_t returned as int. */
  function AsInt(n: nat): int { if n <= INT32_MAX then n else n - WRAP }

  lemma HitsSnoc(hist: seq<Digest>, h: Digest, p: Params, i: nat, c: nat)
    requires Fine(p)
    ensures Hits(hist + [h], p, i, c) == Hits(hist, p, i, c) + (if Cell(h, p, i) == c then 1 else 0)
  {
    hide Cell;
    assert (hist + [h])[..|hist|] == hist;
  }

  /** The estimate is the least of the counts of those that share a counter with h,
      as long as no counter overflows. */
  lemma {:induction false} EstimateIsLeast(hist: seq<Digest>, p: Params, h: Digest, d: nat)
    requires Fine(p) && d > 0 && |hist| < WRAP
    ensures forall i: nat :: i < d ==> Estimate(hist, p, h, d) <= Hits(hist, p, i, Cell(h, p, i))
    ensures exists i: nat :: i < d && Estimate(hist, p, h, d) == Hits(hist, p, i, Cell(h, p, i))
  {
    hide Cell, Hits;
    Small(hist, p, h, d - 1);
    if d > 1 {
      EstimateIsLeast(hist, p, h, d - 1);
    } else {
      assert Estimate(hist, p, h, 0) == UINT32_MAX;
    }
    assert Estimate(hist, p, h, d) == Min(Estimate(hist, p, h, d - 1), Hits(hist, p, d - 1, Cell(h, p, d - 1)));
  }

  lemma Small(hist: seq<Digest>, p: Params, h: Digest, i: nat)
    requires Fine(p) && |hist| < WRAP
    ensures Hits(hist, p, i, Cell(h, p, i)) <= UINT32_MAX
    ensures Hits(hist, p, i, Cell(h, p, i)) % WRAP == Hits(hist, p, i, Cell(h, p, i))
  {
    hide Cell;
  }

  lemma {:induction false} OwnHits(hist: seq<Digest>, p: Params, h: Digest, i: nat)
    requires Fine(p)
    ensures multiset(hist)[h] <= Hits(hist, p, i, Cell(h, p, i))
  {
    hide Cell;
    if hist != [] {
      var last := |hist| - 1;
      OwnHits(hist[..last], p, h, i);
      assert hist == hist[..last] + [hist[last]];
    }
  }

  /** The estimate is never below the true count. */
  lemma NeverBelow(hist: seq<Digest>, p: Params, h: Digest)
    requires Fine(p) && p.depth > 0 && |hist| < WRAP
    ensures multiset(hist)[h] <= Estimate(hist, p, h, p.depth) <= |hist|
  {
    hide Cell, Hits, Estimate;
    EstimateIsLeast(hist, p, h, p.depth);
    var i: nat :| i < p.depth && Estimate(hist, p, h, p.depth) == Hits(hist, p, i, Cell(h, p, i));
    OwnHits(hist, p, h, i);
    HitsBound(hist, p, i, Cell(h, p, i));
  }

  lemma HitsBound(hist: seq<Digest>, p: Params, i: nat, c: nat)
    requires Fine(p)
    ensures Hits(hist, p, i, c) <= |hist|
  {
  }

  /** The counts of the first n counters of row i. */
  ghost function RowSum(hist: seq<Digest>, p: Params, i: nat, n: nat): nat
    requires Fine(p)
  {
    if n == 0 then 0 else RowSum(hist, p, i, n - 1) + Hits(hist, p, i, i * p.width + n - 1)
  }

  lemma {:induction false} RowSumSnoc(hist: seq<Digest>, h: Digest, p: Params, i: nat, n: nat)
    requires Fine(p)
    ensures RowSum(hist + [h], p, i, n) == RowSum(hist, p, i, n) + (if Cell(h, p, i) < i * p.width + n then 1 else 0)
  {
    hide Hits, Cell;
    if n > 0 {
      RowSumSnoc(hist, h, p, i, n - 1);
      HitsSnoc(hist, h, p, i, i * p.width + n - 1);
    } else {
      InRow(h, p, i);
    }
  }

  lemma InRow(h: Digest, p: Params, i: nat)
    requires Fine(p)
    ensures i * p.width <= Cell(h, p, i) < i * p.width + p.width
  {
  }

  lemma {:induction false} RowSumEmpty(p: Params, i: nat, n: nat)
    requires Fine(p)
    ensures RowSum([], p, i, n) == 0
  {
    if n > 0 { RowSumEmpty(p, i, n - 1); }
  }

  /** Every row counts every increment once. */
  lemma {:induction false} RowTotals(hist: seq<Digest>, p: Params, i: nat)
    requires Fine(p)
    ensures RowSum(hist, p, i, p.width) == |hist|
    decreases |hist|
  {
    hide RowSum, Cell;
    if hist == [] {
      RowSumEmpty(p, i, p.width);
    } else {
      var last := |hist| - 1;
      RowTotals(hist[..last], p, i);
      assert hist == hist[..last] + [hist[last]];
      RowSumSnoc(hist[..last], hist[last], p, i, p.width);
      InRow(hist[last], p, i);
    }
  }

  // ---------------------------------------------------------------- the code

  function RowOf(c: nat, p: Params): (i: nat)
    requires p.width > 0
  {
    hide PowerOfTwo;
    c / p.width
  }

  /** Every counter is the number of increments that went to it, modulo 2^32: of all
      in `after` for the first i rows, of those in `hist` for the rest. */
  ghost predicate Counted(counts: seq<nat>, p: Params, hist: seq<Digest>, after: seq<Digest>, i: nat)
    requires Fine(p)
  {
    forall c: nat :: c < |counts| ==>
      counts[c] == Hits(if RowOf(c, p) < i then after else hist, p, RowOf(c, p), c) % WRAP
  }

  lemma FirstRow(counts: seq<nat>, p: Params, hist: seq<Digest>, after: seq<Digest>)
    requires Fine(p) && Counted(counts, p, hist, hist, 0)
    ensures Counted(counts, p, hist, after, 0)
  {
    hide Hits, RowOf, PowerOfTwo;
  }

  lemma CountedStep(counts: seq<nat>, p: Params, hist: seq<Digest>, h: Digest, i: nat, idx: nat)
    requires Fine(p) && Counted(counts, p, hist, hist + [h], i)
    requires idx == Cell(h, p, i) < |counts|
    ensures Counted(counts[idx := (counts[idx] + 1) % WRAP], p, hist, hist + [h], i + 1)
    ensures (counts[idx] + 1) % WRAP == Hits(hist + [h], p, i, idx) % WRAP
  {
    hide Cell, Hits, RowOf, PowerOfTwo;
    CellRow(h, p, i);
    HitsSnoc(hist, h, p, i, idx);
    AddOne(counts[idx], Hits(hist, p, i, idx));
    var next := counts[idx := (counts[idx] + 1) % WRAP];
    forall c: nat | c < |next|
      ensures next[c] == Hits(if RowOf(c, p) < i + 1 then hist + [h] else hist, p, RowOf(c, p), c) % WRAP
    {
      HitsSnoc(hist, h, p, RowOf(c, p), c);
    }
  }

  lemma AddOne(a: nat, n: nat)
    requires a == n % WRAP
    ensures (a + 1) % WRAP == (n + 1) % WRAP
  {
  }

  lemma CellRow(h: Digest, p: Params, i: nat)
    requires Fine(p)
    ensures RowOf(Cell(h, p, i), p) == i
  {
  }

  lemma RowsBelow(p: Params, c: nat)
    requires Fine(p) && c < p.depth * p.width
    ensures RowOf(c, p) < p.depth
  {
    var i := RowOf(c, p);
    Quotient(c, p.width);
    if i >= p.depth { CountMin.AtMost(p.depth, i, p.width); }
  }

  lemma AllCounted(counts: seq<nat>, p: Params, hist: seq<Digest>, after: seq<Digest>)
    requires Fine(p) && |counts| == p.depth * p.width && Counted(counts, p, hist, after, p.depth)
    ensures Counted(counts, p, after, after, 0)
  {
    hide Hits, RowOf, PowerOfTwo;
    forall c: nat | c < |counts| ensures counts[c] == Hits(after, p, RowOf(c, p), c) % WRAP { RowsBelow(p, c); }
  }

  class CountMin {
    const p: Params
    const counts: array<nat>
    /** The increments so far. */
    ghost var hist: seq<Digest>

    ghost predicate Valid()
      reads this, counts
    {
      Fine(p) && counts.Length == p.depth * p.width && Counted(counts[..], p, hist, hist, 0)
    }

    /** sketch_construct(), for a width that is a power of two. */
    constructor (p: Params)
      requires Fine(p)
      ensures Valid() && hist == [] && fresh(counts) && this.p == p
    {
      hide PowerOfTwo, RowOf;
      this.p, hist := p, [];
      counts := new nat[p.depth * p.width](_ => 0);
    }

    static lemma CellInRange(h: Digest, p: Params, i: nat)
      requires Fine(p) && i < p.depth
      ensures Cell(h, p, i) < p.depth * p.width && Cell(h, p, i) / p.width == i
    {
      hide SliceAt, And;
      assert (i + 1) * p.width <= p.depth * p.width by { AtMost(i + 1, p.depth, p.width); }
      assert (i + 1) * p.width == i * p.width + p.width;
    }

    static lemma AtMost(a: nat, b: nat, w: nat)
      requires a <= b
      ensures a * w <= b * w
    {
    }

    /** countmin_inc_explicit(): counts the key and returns its new estimate. */
    method Inc(key: Key, h: Digest) returns (r: int)
      requires Valid()
      modifies this`hist, counts
      ensures Valid()
      ensures Special(key) ==> r == 0x7fff_ffff && hist == old(hist)
      ensures !Special(key) ==> hist == old(hist) + [h]
      ensures !Special(key) ==>
                var e := Estimate(hist, p, h, p.depth);
                r == if e < 0x8000_0000 then e else e - 0x1_0000_0000
    {
      hide Special, PowerOfTwo, Cell, Hits, SliceAt, NextSlice, RowOf, Counted;
      if Special(key) { return INT32_MAX; }
      var minimal: nat, s := UINT32_MAX, FirstSlice(h);
      SliceZero(h, p.shift);
      ghost var after := hist + [h];
      FirstRow(counts[..], p, hist, after);
      for i := 0 to p.depth
        invariant s == SliceAt(h, p.shift, i) && s.shifted < 64
        invariant minimal == Estimate(after, p, h, i)
        invariant Counted(counts[..], p, hist, after, i)
        modifies counts
      {
        var idx := CellOf(s, p, i, h);
        CellInRange(h, p, i);
        CountedStep(counts[..], p, hist, h, i, idx);
        counts[idx] := (counts[idx] + 1) % WRAP;
        minimal := Min(minimal, counts[idx]);
        SliceNext(h, p.shift, i);
        s := NextSlice(s, p.shift);
      }
      AllCounted(counts[..], p, hist, after);
      hist := after;
      r := AsInt(minimal);
    }

    static method CellOf(s: Slice, p: Params, i: nat, ghost h: Digest) returns (idx: nat)
      requires Fine(p) && s == SliceAt(h, p.shift, i)
      ensures idx == Cell(h, p, i)
    {
      hide PowerOfTwo, SliceAt, And;
      var x := s.low;
      AndMask(x, p.width);
      idx := i * p.width + And(x, p.width - 1);
    }

    static lemma SliceZero(h: Digest, shift: nat)
      requires shift < 64
      ensures SliceAt(h, shift, 0) == FirstSlice(h)
    {
    }

    static lemma SliceNext(h: Digest, shift: nat, i: nat)
      requires shift < 64
      ensures SliceAt(h, shift, i + 1) == NextSlice(SliceAt(h, shift, i), shift)
    {
      hide NextSlice;
    }

    /** countmin_count_explicit(): the estimate, which is what the last increment of
        the key returned if nothing was counted since. */
    method Count(key: Key, h: Digest) returns (r: int)
      requires Valid()
      ensures Special(key) ==> r == 0x7fff_ffff
      ensures !Special(key) ==>
                var e := Estimate(hist, p, h, p.depth);
                r == if e < 0x8000_0000 then e else e - 0x1_0000_0000
    {
      hide Special, PowerOfTwo, Cell, Hits, SliceAt, NextSlice, RowOf;
      if Special(key) { return INT32_MAX; }
      var minimal: nat, s := UINT32_MAX, FirstSlice(h);
      SliceZero(h, p.shift);
      for i := 0 to p.depth
        invariant s == SliceAt(h, p.shift, i) && s.shifted < 64
        invariant minimal == Estimate(hist, p, h, i)
      {
        var idx := CellOf(s, p, i, h);
        CellInRange(h, p, i);
        CellRow(h, p, i);
        minimal := Min(minimal, counts[idx]);
        SliceNext(h, p.shift, i);
        s := NextSlice(s, p.shift);
      }
      r := AsInt(minimal);
    }
  }
}
