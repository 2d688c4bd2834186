/** Round robin over a fixed list of servers with a 32-bit counter: how evenly any window of picks
    spreads, and what the counter's wrap does to it. */
module RoundRobin {

  const TWO32: nat := 0x1_0000_0000

  /** atomic.AddUint32(&counter, 1) */
  function Advance(counter: nat): nat { (counter + 1) % TWO32 }

  /** The uint32 expression index-1 of a freshly advanced counter. */
  function Previous(index: nat): nat { (index + TWO32 - 1) % TWO32 }

  /** The counter before the k-th pick of a window, k counted from 0. */
  function CounterAt(start: nat, k: nat): nat {
    if k == 0 then start else Advance(CounterAt(start, k - 1))
  }

  /** The server index the k-th pick of a window lands on. */
  function PickAt(start: nat, k: nat, n: nat): nat
    requires n > 0
  {
    Previous(Advance(CounterAt(start, k))) % n
  }

  /** How many of the m picks of a window land on server j. */
  function Hits(start: nat, m: nat, n: nat, j: nat): nat
    requires n > 0
  {
    if m == 0 then 0
    else Hits(start, m - 1, n, j) + (if PickAt(start, m - 1, n) == j then 1 else 0)
  }

  lemma WrapThenAdd(x: nat)
    ensures Advance(x % TWO32) == (x + 1) % TWO32
  {
    var q, r := x / TWO32, x % TWO32;
    if r + 1 == TWO32 {
      assert x + 1 == (q + 1) * TWO32;
    }
  }

  lemma {:induction false} CounterWraps(start: nat, k: nat)
    requires start < TWO32
    ensures CounterAt(start, k) == (start + k) % TWO32
  {
    hide Advance;
    if k > 0 {
      CounterWraps(start, k - 1);
      WrapThenAdd(start + k - 1);
    }
  }

  lemma PreviousOfAdvance(counter: nat)
    requires counter < TWO32
    ensures Previous(Advance(counter)) == counter
  {}

  lemma PickWraps(start: nat, k: nat, n: nat)
    requires start < TWO32 && n > 0
    ensures PickAt(start, k, n) == ((start + k) % TWO32) % n
    ensures start + k < TWO32 ==> PickAt(start, k, n) == (start + k) % n
    ensures TWO32 <= start + k < 2 * TWO32 ==> PickAt(start, k, n) == (start + k - TWO32) % n
  {
    hide Previous, Advance;
    CounterWraps(start, k);
    PreviousOfAdvance(CounterAt(start, k));
  }

  /** One pick takes the counter's server and moves the counter on, round at 2^32. */
  lemma OnePick(start: nat, n: nat)
    requires start < 0x1_0000_0000 && n > 0
    ensures PickAt(start, 0, n) == start % n
    ensures CounterAt(start, 1) == (start + 1) % 0x1_0000_0000
  {
    PickWraps(start, 0, n);
    CounterWraps(start, 1);
  }

  // ---------------------------------------------------------------------------------------------
  // Counting residues

  /** How many of the numbers a, ..., a+m-1 leave remainder j. */
  function Residues(a: nat, m: nat, n: nat, j: nat): nat
    requires n > 0
  {
    if m == 0 then 0
    else Residues(a, m - 1, n, j) + (if (a + m - 1) % n == j then 1 else 0)
  }

  /** How many of the numbers below x leave remainder j. */
  function ResiduesBelow(x: nat, n: nat, j: nat): nat
    requires n > 0
  {
    x / n + (if x % n > j then 1 else 0)
  }

  lemma MulAtLeast(d: int, n: nat)
    ensures d >= 1 ==> d * n >= n
    ensures d <= -1 ==> d * n + n <= 0
  {}

  lemma DivMod(x: nat, n: nat, q: nat, r: nat)
    requires n > 0 && r < n && x == q * n + r
    ensures x / n == q && x % n == r
  {
    var d: int := x / n - q;
    assert x == (x / n) * n + x % n;
    assert d * n == r - x % n;
    MulAtLeast(d, n);
  }

  lemma Euclid(x: nat, n: nat)
    requires n > 0
    ensures x == (x / n) * n + x % n
  {}

  /** A sum of remainders carries once at most. */
  lemma Carry(s: nat, n: nat, q: nat, r: nat)
    requires n > 0 && r < 2 * n && s == q * n + r
    ensures var carry := if r < n then 0 else 1;
            s / n == q + carry && s % n == r - carry * n
  {
    if r < n {
      DivMod(s, n, q, r);
    } else {
      Distribute(q, 1, n);
      DivMod(s, n, q + 1, r - n);
    }
  }

  lemma AddDivMod(a: nat, m: nat, n: nat)
    requires n > 0
    ensures var carry := if a % n + m % n < n then 0 else 1;
            && (a + m) / n == a / n + m / n + carry
            && (a + m) % n == a % n + m % n - carry * n
  {
    Euclid(a, n);
    Euclid(m, n);
    Distribute(a / n, m / n, n);
    Carry(a + m, n, a / n + m / n, a % n + m % n);
  }

  lemma Distribute(p: nat, q: nat, n: nat)
    ensures (p + q) * n == p * n + q * n
  {}

  lemma ResiduesBelowStep(x: nat, n: nat, j: nat)
    requires j < n
    ensures ResiduesBelow(x + 1, n, j) == ResiduesBelow(x, n, j) + (if x % n == j then 1 else 0)
  {
    var q, r := x / n, x % n;
    if r + 1 < n {
      DivMod(x + 1, n, q, r + 1);
    } else {
      assert x + 1 == (q + 1) * n;
      DivMod(x + 1, n, q + 1, 0);
    }
  }

  lemma {:induction false} ResiduesAreDifference(a: nat, m: nat, n: nat, j: nat)
    requires j < n
    ensures Residues(a, m, n, j) == ResiduesBelow(a + m, n, j) - ResiduesBelow(a, n, j)
  {
    if m > 0 {
      ResiduesAreDifference(a, m - 1, n, j);
      ResiduesBelowStep(a + m - 1, n, j);
    }
  }

  function CeilDiv(m: nat, n: nat): nat
    requires n > 0
  {
    m / n + (if m % n > 0 then 1 else 0)
  }

  /** Any m consecutive numbers hit each remainder floor(m/n) or ceil(m/n) times. */
  lemma ResiduesEven(a: nat, m: nat, n: nat, j: nat)
    requires j < n
    ensures m / n <= Residues(a, m, n, j) <= CeilDiv(m, n)
  {
    ResiduesAreDifference(a, m, n, j);
    AddDivMod(a, m, n);
  }

  // ---------------------------------------------------------------------------------------------
  // Windows of picks

  lemma {:induction false} HitsWithoutWrap(start: nat, m: nat, n: nat, j: nat)
    requires start < TWO32 && start + m <= TWO32 && n > 0
    ensures Hits(start, m, n, j) == Residues(start, m, n, j)
  {
    hide PickAt;
    if m > 0 {
      HitsWithoutWrap(start, m - 1, n, j);
      PickWraps(start, m - 1, n);
    }
  }

  /** In a window that does not cross the wrap every server gets floor(m/n) or ceil(m/n) picks. */
  lemma WindowEven(start: nat, m: nat, n: nat, j: nat)
    requires start < TWO32 && start + m <= TWO32 && j < n
    ensures m / n <= Hits(start, m, n, j) <= CeilDiv(m, n)
  {
    HitsWithoutWrap(start, m, n, j);
    ResiduesEven(start, m, n, j);
  }

  lemma {:induction false} HitsAcrossWrap(start: nat, m: nat, n: nat, j: nat)
    requires start < TWO32 && TWO32 - start <= m <= 2 * TWO32 - start && n > 0
    ensures Hits(start, m, n, j) == Residues(start, TWO32 - start, n, j) + Residues(0, m - (TWO32 - start), n, j)
  {
    hide PickAt;
    if m == TWO32 - start {
      HitsWithoutWrap(start, m, n, j);
    } else {
      HitsAcrossWrap(start, m - 1, n, j);
      PickWraps(start, m - 1, n);
    }
  }

  /** In a window that crosses the wrap once, any two servers differ by two picks at most. */
  lemma WindowAcrossWrap(start: nat, m: nat, n: nat, i: nat, j: nat)
    requires start < TWO32 && start + m <= 2 * TWO32 && i < n && j < n
    ensures Hits(start, m, n, i) - Hits(start, m, n, j) <= 2
  {
    if start + m <= TWO32 {
      WindowEven(start, m, n, i);
      WindowEven(start, m, n, j);
    } else {
      var first, second := TWO32 - start, m - (TWO32 - start);
      HitsAcrossWrap(start, m, n, i);
      HitsAcrossWrap(start, m, n, j);
      ResiduesEven(start, first, n, i);
      ResiduesEven(start, first, n, j);
      ResiduesEven(0, second, n, i);
      ResiduesEven(0, second, n, j);
    }
  }

  /** No window, of any length and crossing the wrap any number of times, sets two servers more than
      one pick apart. */
  ghost predicate AlwaysEven(n: nat)
    requires n > 0
  {
    forall start: nat, m: nat, i: nat, j: nat :: start < TWO32 && i < n && j < n ==>
      Hits(start, m, n, i) - Hits(start, m, n, j) <= 1
  }

  lemma ModOfMod(x: nat, n: nat)
    requires n > 0 && TWO32 % n == 0
    ensures (x % TWO32) % n == x % n
  {
    var c, q := TWO32 / n, x / TWO32;
    var y := x % TWO32;
    assert TWO32 == c * n;
    assert x == q * TWO32 + y;
    assert q * TWO32 == (q * c) * n by { assert q * (c * n) == (q * c) * n; }
    assert x == (q * c + y / n) * n + y % n by { assert (q * c + y / n) * n == (q * c) * n + (y / n) * n; }
    DivMod(x, n, q * c + y / n, y % n);
  }

  lemma {:induction false} HitsWhenDivides(start: nat, m: nat, n: nat, j: nat)
    requires start < TWO32 && n > 0 && TWO32 % n == 0
    ensures Hits(start, m, n, j) == Residues(start, m, n, j)
  {
    hide PickAt;
    if m > 0 {
      HitsWhenDivides(start, m - 1, n, j);
      PickWraps(start, m - 1, n);
      ModOfMod(start + m - 1, n);
    }
  }

  /** When n does not divide 2^32, the window of r+1 picks that starts r = 2^32 mod n picks before the
      wrap gives server 0 two picks and the last server none. */
  lemma UnevenWindow(n: nat) returns (start: nat, m: nat)
    requires n > 0 && TWO32 % n != 0
    ensures start < TWO32 && m == TWO32 % n + 1
    ensures Hits(start, m, n, 0) == 2 && Hits(start, m, n, n - 1) == 0
  {
    var r, c := TWO32 % n, TWO32 / n;
    start, m := TWO32 - r, r + 1;
    assert start == c * n;
    HitsAcrossWrap(start, m, n, 0);
    HitsAcrossWrap(start, m, n, n - 1);
    assert Residues(0, 1, n, 0) == 1 && Residues(0, 1, n, n - 1) == 0 by {
      assert Residues(0, 0, n, 0) == 0 && 0 % n == 0;
    }
    ShortResidues(c, r, n);
  }

  lemma {:induction false} ShortResidues(c: nat, r: nat, n: nat)
    requires 0 < r < n
    ensures Residues(c * n, r, n, 0) == 1 && Residues(c * n, r, n, n - 1) == 0
  {
    DivMod(c * n + r - 1, n, c, r - 1);
    if r > 1 {
      ShortResidues(c, r - 1, n);
    }
  }

  /** Every window is even exactly when the number of servers divides 2^32. */
  lemma AlwaysEvenIff(n: nat)
    requires n > 0
    ensures AlwaysEven(n) <==> TWO32 % n == 0
  {
    if TWO32 % n == 0 {
      forall start: nat, m: nat, i: nat, j: nat | start < TWO32 && i < n && j < n
        ensures Hits(start, m, n, i) - Hits(start, m, n, j) <= 1
      {
        HitsWhenDivides(start, m, n, i);
        HitsWhenDivides(start, m, n, j);
        ResiduesEven(start, m, n, i);
        ResiduesEven(start, m, n, j);
      }
    } else {
      var start, m := UnevenWindow(n);
      assert Hits(start, m, n, 0) - Hits(start, m, n, n - 1) > 1;
    }
  }
}
