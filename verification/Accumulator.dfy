/** The accumulator: a power of 3 modulo 257, raised to a prime for every element added. */
module Accumulators {
  import opened Types
  import Blocks
  import LedgerSpec

  const GENERATOR := 3
  const MODULUS := 257

  // ---- primes --------------------------------------------------------------------------------

  predicate IsPrime(n: nat) {
    n >= 2 && forall d | 2 <= d < n :: n % d != 0
  }

  lemma {:induction false} Prime101()
    ensures IsPrime(101)
  {
  }

  /** Where the search for the element's prime starts: from 2 to 101. */
  function Seed(H: HashFn, element: seq<byte>): (n: nat)
    ensures 2 <= n <= 101
  {
    Blocks.FromBigEndian(H(element)[..8]) % 100 + 2
  }

  /** p is the least prime that is not below n. */
  ghost predicate LeastPrimeFrom(n: nat, p: nat) {
    n <= p && IsPrime(p) && forall q | n <= q < p :: !IsPrime(q)
  }

  lemma {:induction false} PrimeExists(n: nat)
    requires n <= 101
    ensures exists p :: LeastPrimeFrom(n, p) && p <= 101
    decreases 101 - n
  {
    Prime101();
    if IsPrime(n) {
      assert LeastPrimeFrom(n, n);
    } else {
      PrimeExists(n + 1);
      var p :| LeastPrimeFrom(n + 1, p) && p <= 101;
      assert LeastPrimeFrom(n, p);
    }
  }

  /** The prime that stands for an element. */
  ghost function PrimeOf(H: HashFn, element: seq<byte>): (p: nat)
    ensures LeastPrimeFrom(Seed(H, element), p) && p <= 101
  {
    PrimeExists(Seed(H, element));
    var p :| LeastPrimeFrom(Seed(H, element), p) && p <= 101;
    p
  }

  /** The prime depends on the first eight bytes of the hash: it is the least from their value modulo 100, plus 2, on. */
  lemma {:induction false} PrimeFromFirstBytes(H: HashFn, element: seq<byte>, n: uint64)
    requires H(element)[..8] == Blocks.BigEndian(n, 8)
    ensures LeastPrimeFrom(n % 100 + 2, PrimeOf(H, element))
  {
    Blocks.Widths();
    Blocks.BigEndianRoundTrip(n, 8);
  }

  lemma {:induction false} SameFirstBytesSamePrime(H: HashFn, a: seq<byte>, b: seq<byte>)
    requires H(a)[..8] == H(b)[..8]
    ensures PrimeOf(H, a) == PrimeOf(H, b)
  {
    LeastPrimeIsUnique(Seed(H, a), PrimeOf(H, a), PrimeOf(H, b));
  }

  lemma {:induction false} LeastPrimeIsUnique(n: nat, p: nat, q: nat)
    requires LeastPrimeFrom(n, p) && LeastPrimeFrom(n, q)
    ensures p == q
  {
  }

  /** For example: bytes of value 5 give the prime 7, and a new accumulator becomes 3^7 mod 257. */
  lemma {:induction false} FirstElement(H: HashFn, element: seq<byte>)
    requires H(element)[..8] == [0, 0, 0, 0, 0, 0, 0, 5]
    ensures PrimeOf(H, element) == 7 && Accumulated(H, [element]) == 131
  {
    assert PrimeOf(H, element) == 7 by {
      assert Blocks.BigEndian(5, 8) == [0, 0, 0, 0, 0, 0, 0] + [5] by {
        assert Blocks.BigEndian(0, 7) == [0, 0, 0, 0, 0, 0, 0];
      }
      PrimeFromFirstBytes(H, element, 5);
      assert IsPrime(7);
      LeastPrimeIsUnique(7, PrimeOf(H, element), 7);
    }
    var none: seq<seq<byte>> := [];
    assert [element][..0] == none && Accumulated(H, none) == GENERATOR;
    assert Pow(GENERATOR, 7) == 2187;
  }

  /** Counts upward to the next prime, which is at most 101. */
  method hashToPrime(H: HashFn, data: seq<byte>) returns (num: nat)
    ensures num == PrimeOf(H, data)
  {
    num := Seed(H, data);
    ghost var prime := PrimeOf(H, data);
    while !IsPrime(num)
      invariant Seed(H, data) <= num <= prime
      decreases prime - num
    {
      num := num + 1;
    }
  }

  // ---- powers --------------------------------------------------------------------------------

  function Pow(b: int, e: nat): int {
    if e == 0 then 1 else b * Pow(b, e - 1)
  }

  /** b^e mod 257. */
  function ModPow(b: int, e: nat): (r: nat)
    ensures r < MODULUS
  {
    Pow(b, e) % MODULUS
  }

  lemma {:induction false} PowSum(b: int, x: nat, y: nat)
    ensures Pow(b, x + y) == Pow(b, x) * Pow(b, y)
  {
    if x > 0 {
      PowSum(b, x - 1, y);
      assert b * (Pow(b, x - 1) * Pow(b, y)) == b * Pow(b, x - 1) * Pow(b, y);
    }
  }

  lemma {:induction false} PowProduct(b: int, x: nat, y: nat)
    ensures Pow(b, x * y) == Pow(Pow(b, x), y)
  {
    if y == 0 {
      assert x * y == 0;
    } else {
      PowProduct(b, x, y - 1);
      assert x * y == x + x * (y - 1);
      PowSum(b, x, x * (y - 1));
    }
  }

  lemma {:induction false} ModTimes(a: int, b: int)
    ensures (a * (b % MODULUS)) % MODULUS == (a * b) % MODULUS
  {
    var q := b / MODULUS;
    assert a * b == a * (b % MODULUS) + MODULUS * (a * q) by {
      assert b == b % MODULUS + MODULUS * q;
      assert a * (b % MODULUS + MODULUS * q) == a * (b % MODULUS) + a * (MODULUS * q);
      assert a * (MODULUS * q) == MODULUS * (a * q);
    }
    AddMultiple(a * (b % MODULUS), a * q);
  }

  lemma {:induction false} AddMultiple(x: int, k: int)
    ensures (x + MODULUS * k) % MODULUS == x % MODULUS
  {
  }

  /** Reducing the base first makes no difference. */
  lemma {:induction false} ModPowOfMod(b: int, e: nat)
    ensures ModPow(b % MODULUS, e) == ModPow(b, e)
  {
    if e > 0 {
      var r := b % MODULUS;
      ModPowOfMod(b, e - 1);
      ModTimes(r, Pow(r, e - 1));
      ModTimes(r, Pow(b, e - 1));
      ModTimes(Pow(b, e - 1), b);
      assert Pow(b, e - 1) * r == r * Pow(b, e - 1);
      assert Pow(b, e - 1) * b == b * Pow(b, e - 1);
    }
  }

  lemma {:induction false} ModPowTwice(b: int, x: nat, y: nat)
    ensures ModPow(ModPow(b, x), y) == ModPow(b, Times(x, y))
  {
    ModPowOfMod(Pow(b, x), y);
    PowProduct(b, x, y);
  }

  function Times(x: nat, y: nat): nat {
    x * y
  }

  lemma {:induction false} TimesAssociates(x: nat, y: nat, z: nat)
    ensures Times(Times(x, y), z) == Times(x, Times(y, z))
    ensures Times(Times(x, y), z) == Times(Times(x, z), y)
    ensures Times(Times(x, y), z) == Times(x, Times(z, y))
  {
  }

  lemma {:induction false} TimesOne(x: nat)
    ensures Times(x, 1) == x && Times(1, x) == x
  {
  }

  // ---- what a list of elements accumulates to ------------------------------------------------

  /** The product of the elements' primes. */
  ghost function Product(H: HashFn, elements: seq<seq<byte>>): nat {
    if elements == [] then 1
    else Times(Product(H, elements[..|elements| - 1]), PrimeOf(H, elements[|elements| - 1]))
  }

  /** The accumulator's value after these elements, in this order. */
  ghost function Accumulated(H: HashFn, elements: seq<seq<byte>>): nat {
    if elements == [] then GENERATOR
    else ModPow(Accumulated(H, elements[..|elements| - 1]), PrimeOf(H, elements[|elements| - 1]))
  }

  /** One exponentiation does for all. */
  lemma {:induction false} AccumulatedIsOnePower(H: HashFn, elements: seq<seq<byte>>)
    ensures Accumulated(H, elements) == ModPow(GENERATOR, Product(H, elements))
  {
    hide Times, ModPow;
    if elements == [] {
      ThreeToTheOne();
    } else {
      var front := elements[..|elements| - 1];
      AccumulatedIsOnePower(H, front);
      ModPowTwice(GENERATOR, Product(H, front), PrimeOf(H, elements[|elements| - 1]));
    }
  }

  lemma {:induction false} ThreeToTheOne()
    ensures ModPow(GENERATOR, 1) == GENERATOR
  {
  }

  lemma {:induction false} ProductConcat(H: HashFn, first: seq<seq<byte>>, second: seq<seq<byte>>)
    ensures Product(H, first + second) == Times(Product(H, first), Product(H, second))
  {
    hide Times;
    if second == [] {
      assert first + second == first;
      TimesOne(Product(H, first));
    } else {
      var front, p := second[..|second| - 1], PrimeOf(H, second[|second| - 1]);
      ProductConcat(H, first, front);
      assert (first + second)[..|first + second| - 1] == first + front;
      TimesAssociates(Product(H, first), Product(H, front), p);
    }
  }

  lemma {:induction false} ProductOfOne(H: HashFn, element: seq<byte>)
    ensures Product(H, [element]) == PrimeOf(H, element)
  {
  }

  lemma {:induction false} ProductInserted(H: HashFn, before: seq<seq<byte>>, element: seq<byte>, after: seq<seq<byte>>)
    ensures Product(H, before + [element] + after) == Times(Product(H, before + after), PrimeOf(H, element))
  {
    hide Times;
    ProductConcat(H, before + [element], after);
    ProductConcat(H, before, [element]);
    ProductConcat(H, before, after);
    ProductOfOne(H, element);
    TimesAssociates(Product(H, before), PrimeOf(H, element), Product(H, after));
  }

  lemma {:induction false} WithoutOne<T>(xs: seq<T>, ys: seq<T>, k: nat)
    requires multiset(xs) == multiset(ys) && k < |ys| && xs != [] && xs[|xs| - 1] == ys[k]
    ensures multiset(xs[..|xs| - 1]) == multiset(ys[..k] + ys[k + 1..])
  {
    assert xs == xs[..|xs| - 1] + [ys[k]];
    assert ys == ys[..k] + [ys[k]] + ys[k + 1..];
    assert multiset(xs[..|xs| - 1]) == multiset(ys) - multiset{ys[k]};
    assert multiset(ys[..k] + ys[k + 1..]) == multiset(ys) - multiset{ys[k]};
  }

  lemma {:induction false} ProductOfPermutation(H: HashFn, xs: seq<seq<byte>>, ys: seq<seq<byte>>)
    requires multiset(xs) == multiset(ys)
    ensures Product(H, xs) == Product(H, ys)
  {
    hide Times;
    if xs == [] {
      assert |multiset(ys)| == 0;
    } else {
      var front, last := xs[..|xs| - 1], xs[|xs| - 1];
      assert last in multiset(xs);
      var k :| 0 <= k < |ys| && ys[k] == last;
      var before, after := ys[..k], ys[k + 1..];
      WithoutOne(xs, ys, k);
      ProductOfPermutation(H, front, before + after);
      ProductInserted(H, before, last, after);
      assert ys == before + [last] + after;
    }
  }

  /** Order independence: a list accumulates to the same value however it is permuted. */
  lemma {:induction false} OrderIndependence(H: HashFn, xs: seq<seq<byte>>, ys: seq<seq<byte>>)
    requires multiset(xs) == multiset(ys)
    ensures Accumulated(H, xs) == Accumulated(H, ys)
  {
    AccumulatedIsOnePower(H, xs);
    AccumulatedIsOnePower(H, ys);
    ProductOfPermutation(H, xs, ys);
  }

  /** What the value was before an element, raised to the later primes, is a witness of it. */
  lemma {:induction false} RaisedWitnessIsAccepted(H: HashFn, before: seq<seq<byte>>, element: seq<byte>, later: seq<seq<byte>>)
    ensures var raised := ModPow(Accumulated(H, before), Product(H, later));
            ModPow(raised, PrimeOf(H, element)) == Accumulated(H, before + [element] + later)
  {
    hide Times, ModPow;
    AccumulatedIsOnePower(H, before);
    AccumulatedIsOnePower(H, before + [element] + later);
    ModPowTwice(GENERATOR, Product(H, before), Product(H, later));
    ModPowTwice(GENERATOR, Product(H, before + later), PrimeOf(H, element));
    ProductConcat(H, before, later);
    ProductInserted(H, before, element, later);
  }

  // ---- the accumulator -----------------------------------------------------------------------

  /** An arbitrary-precision integer: Go's are mutable and held by pointer. */
  class BigInt {
    var n: int

    constructor (n: int)
      ensures this.n == n
    {
      this.n := n;
    }
  }

  datatype AccumulatorWitness = AccumulatorWitness(element: seq<byte>, kept: BigInt)

  /** The elements before the last occurrence of the given one. */
  ghost function Before(elements: seq<seq<byte>>, element: seq<byte>): seq<seq<byte>>
    requires element in elements
  {
    var front, last := elements[..|elements| - 1], elements[|elements| - 1];
    if last == element then front else Before(front, element)
  }

  /** The elements after it. */
  ghost function After(elements: seq<seq<byte>>, element: seq<byte>): (after: seq<seq<byte>>)
    requires element in elements
    ensures element !in after
  {
    var front, last := elements[..|elements| - 1], elements[|elements| - 1];
    if last == element then [] else After(front, element) + [last]
  }

  lemma {:induction false} BeforeAndAfter(elements: seq<seq<byte>>, element: seq<byte>)
    requires element in elements
    ensures elements == Before(elements, element) + [element] + After(elements, element)
  {
    var front, last := elements[..|elements| - 1], elements[|elements| - 1];
    assert elements == front + [last];
    if last != element {
      BeforeAndAfter(front, element);
    }
  }

  class Accumulator {
    const H: HashFn
    const value: BigInt
    var witnesses: map<seq<byte>, AccumulatorWitness>

    /** The elements added so far. */
    ghost var added: seq<seq<byte>>

    /** The witness kept for an element is a copy of the value from just before it was last added. */
    ghost predicate WitnessValid(element: seq<byte>)
      requires element in witnesses
      reads this, witnesses[element].kept
    {
      var w := witnesses[element];
      w.element == element && w.kept != value && element in added && w.kept.n == Accumulated(H, Before(added, element))
    }

    ghost function Held(): set<BigInt>
      reads this
    {
      set element | element in witnesses :: witnesses[element].kept
    }

    ghost predicate Valid()
      reads this, value, Held()
    {
      && value.n == Accumulated(H, added)
      && (forall element :: element in witnesses <==> element in added)
      && forall element | element in witnesses :: WitnessValid(element)
    }

    constructor (H: HashFn)
      ensures Valid() && this.H == H && added == [] && fresh(value)
    {
      this.H, witnesses, added := H, map[], [];
      value := new BigInt(GENERATOR);
    }

    /** The witness is set aside as a copy before the value changes in place. */
    method Add(element: seq<byte>)
      requires Valid()
      modifies this, value
      ensures Valid() && added == old(added) + [element]
      ensures witnesses == old(witnesses)[element := witnesses[element]] && witnesses[element].kept.n == old(value.n)
    {
      hide ModPow, Pow, IsPrime, LeastPrimeFrom, Seed, After;
      var prime := hashToPrime(H, element);
      var kept := new BigInt(value.n);
      value.n := ModPow(value.n, prime);
      witnesses := witnesses[element := AccumulatorWitness(element, kept)];
      added := added + [element];
      assert added[..|added| - 1] == old(added);
      forall other | other in witnesses ensures WitnessValid(other) {
        assert other != element ==> old(WitnessValid(other));
      }
    }

    /** Whether the witness, raised to the element's prime, is the value. */
    method Verify(element: seq<byte>, w: BigInt?) returns (ok: bool)
      requires Valid()
      ensures ok <==> w != null && ModPow(w.n, PrimeOf(H, element)) == Accumulated(H, added)
    {
      if w == null {
        return false;
      }
      var prime := hashToPrime(H, element);
      var result := new BigInt(ModPow(w.n, prime));
      ok := result.n == value.n;
    }

    /** The value as big-endian bytes, without leading zeros. */
    method Root() returns (bytes: seq<byte>)
      requires Valid()
      ensures bytes == Bytes(Accumulated(H, added))
    {
      bytes := Bytes(value.n);
    }
  }

  /** The witness stored for an element, raised to all primes added after it, passes for that element. */
  lemma {:induction false} StoredWitnessIsAccepted(acc: Accumulator, element: seq<byte>)
    requires acc.Valid() && element in acc.added
    ensures element in acc.witnesses
    ensures var raised := ModPow(acc.witnesses[element].kept.n, Product(acc.H, After(acc.added, element)));
            ModPow(raised, PrimeOf(acc.H, element)) == Accumulated(acc.H, acc.added)
  {
    hide Times, ModPow, Accumulated, Product;
    assert acc.WitnessValid(element);
    RaisedWitnessIsAccepted(acc.H, Before(acc.added, element), element, After(acc.added, element));
    BeforeAndAfter(acc.added, element);
  }

  // ---- what a witness does not show ----------------------------------------------------------

  lemma {:induction false} Square(e: nat, power: nat, square: nat)
    requires ModPow(GENERATOR, e) == power && power * power % MODULUS == square
    ensures ModPow(GENERATOR, 2 * e) == square
  {
    ModPowTwice(GENERATOR, e, 2);
    assert Pow(power, 2) == power * Pow(power, 1) && Pow(power, 1) == power * Pow(power, 0);
  }

  /** 3 to the 256 is 1. */
  lemma {:induction false} OrderOfGenerator()
    ensures ModPow(GENERATOR, 256) == 1
  {
    hide ModPow;
    ThreeToTheOne();
    Square(1, 3, 9);
    Square(2, 9, 81);
    Square(4, 81, 136);
    Square(8, 136, 249);
    Square(16, 249, 64);
    Square(32, 64, 241);
    Square(64, 241, 256);
    Square(128, 256, 1);
  }

  lemma {:induction false} PowOfOne(e: nat)
    ensures Pow(1, e) == 1
  {
    if e > 0 {
      PowOfOne(e - 1);
    }
  }

  /** Exponents of 3 matter modulo 256 only. */
  lemma {:induction false} ExponentWraps(x: nat, y: nat)
    ensures ModPow(GENERATOR, x + 256 * y) == ModPow(GENERATOR, x)
  {
    PowSum(GENERATOR, x, 256 * y);
    PowProduct(GENERATOR, 256, y);
    OrderOfGenerator();
    ModPowOfMod(Pow(GENERATOR, 256), y);
    PowOfOne(y);
    ModTimes(Pow(GENERATOR, x), Pow(GENERATOR, 256 * y));
  }

  lemma {:induction false} Regroup(t: nat, n: int, half: int)
    requires n == 2 * half
    ensures t * n == (2 * t) * half
  {
  }

  lemma {:induction false} InverseLifts(p: nat, q: nat, t: nat, m: int)
    requires p % 2 == 1 && p * q == 1 + t * m
    ensures m % 2 == 0 ==> p * q == 1 + (2 * t) * (m / 2)
    ensures m % 2 == 1 ==> p * (q + t) == 1 + (2 * t) * ((m + p) / 2)
  {
    if m % 2 == 0 {
      Regroup(t, m, m / 2);
    } else {
      assert p * (q + t) == p * q + p * t && t * (m + p) == t * m + p * t;
      Regroup(t, m + p, (m + p) / 2);
    }
  }

  /** An odd number has an inverse modulo every power of two. */
  lemma {:induction false} InverseOfOdd(p: nat, k: nat) returns (q: nat, m: int)
    requires p % 2 == 1
    ensures p * q == 1 + Pow2(k) * m
  {
    if k == 0 {
      q, m := 1, p - 1;
    } else {
      q, m := InverseOfOdd(p, k - 1);
      InverseLifts(p, q, Pow2(k - 1), m);
      if m % 2 == 0 {
        m := m / 2;
      } else {
        q, m := q + Pow2(k - 1), (m + p) / 2;
      }
    }
  }

  lemma {:induction false} InverseModulo256(p: nat) returns (q: nat, m: nat)
    requires p % 2 == 1
    ensures p * q == 1 + 256 * m
  {
    var n;
    q, n := InverseOfOdd(p, 8);
    assert Pow2(8) == 256 by {
      assert Pow2(2) == 4 && Pow2(4) == 16 && Pow2(6) == 64;
    }
    assert p * q >= 0;
    m := n;
  }

  /** Whatever was added, an element with an odd prime has a witness that passes, whether it was added or not. */
  lemma {:induction false} OddPrimesAlwaysPass(H: HashFn, elements: seq<seq<byte>>, element: seq<byte>) returns (w: nat)
    requires PrimeOf(H, element) % 2 == 1
    ensures ModPow(w, PrimeOf(H, element)) == Accumulated(H, elements)
  {
    hide ModPow, Pow;
    var p, total := PrimeOf(H, element), Product(H, elements);
    var q, m := InverseModulo256(p);
    w := ModPow(Accumulated(H, elements), q);
    AccumulatedIsOnePower(H, elements);
    ModPowTwice(GENERATOR, total, q);
    ModPowTwice(GENERATOR, Times(total, q), p);
    ExponentOfInverse(total, q, p, m);
    ExponentWraps(total, total * m);
  }

  lemma {:induction false} ExponentOfInverse(total: nat, q: nat, p: nat, m: nat)
    requires p * q == 1 + 256 * m
    ensures Times(Times(total, q), p) == total + 256 * (total * m)
  {
    assert total * q * p == total * (p * q);
    assert total * (1 + 256 * m) == total + 256 * (total * m);
  }

  predicate IsSquareBelow16(b: nat, square: nat) {
    || (b == 0 && square == 0) || (b == 1 && square == 1) || (b == 2 && square == 4) || (b == 3 && square == 9)
    || (b == 4 && square == 16) || (b == 5 && square == 25) || (b == 6 && square == 36) || (b == 7 && square == 49)
    || (b == 8 && square == 64) || (b == 9 && square == 81) || (b == 10 && square == 100) || (b == 11 && square == 121)
    || (b == 12 && square == 144) || (b == 13 && square == 169) || (b == 14 && square == 196) || (b == 15 && square == 225)
  }

  lemma {:induction false} SquareBelow16(b: nat)
    requires b < 16
    ensures IsSquareBelow16(b, b * b)
  {
  }

  /** The square of 16a + b, by rows of sixteen. */
  lemma {:induction false} LowRowsHaveNoThree(a: nat, b: nat, square: nat)
    requires a < 4 && IsSquareBelow16(b, square)
    ensures (32 * a * b + square - a * a) % MODULUS != 3
  {
    if a == 0 {} else if a == 1 {} else if a == 2 {} else {}
  }

  lemma {:induction false} HighRowsHaveNoThree(a: nat, b: nat, square: nat)
    requires 4 <= a < 8 && IsSquareBelow16(b, square)
    ensures (32 * a * b + square - a * a) % MODULUS != 3
  {
    if a == 4 {} else if a == 5 {} else if a == 6 {} else {}
  }

  lemma {:induction false} SmallSquareIsNotThree(r: nat)
    requires r <= 128
    ensures r * r % MODULUS != 3
  {
    if r < 128 {
      var a, b := r / 16, r % 16;
      SquareBelow16(b);
      if a < 4 {
        LowRowsHaveNoThree(a, b, b * b);
      } else {
        HighRowsHaveNoThree(a, b, b * b);
      }
      SquareOfSum(a, b);
      AddMultiple(32 * a * b + b * b - a * a, a * a);
    }
  }

  lemma {:induction false} SquareOfSum(a: int, b: int)
    ensures (16 * a + b) * (16 * a + b) == 32 * a * b + b * b - a * a + MODULUS * (a * a)
  {
  }

  /** 3 is no square. */
  lemma {:induction false} ThreeIsNoSquare(x: int)
    ensures x * x % MODULUS != 3
  {
    var r := x % MODULUS;
    ModTimes(r, x);
    ModTimes(x, x);
    assert r * x == x * r;
    if r <= 128 {
      SmallSquareIsNotThree(r);
    } else {
      SmallSquareIsNotThree(MODULUS - r);
      assert (MODULUS - r) * (MODULUS - r) == r * r + MODULUS * (MODULUS - 2 * r);
      AddMultiple(r * r, MODULUS - 2 * r);
    }
  }

  /** An odd power of 3 is no square: else, divided by an even one, 3 were. */
  lemma {:induction false} OddPowerIsNoSquare(w: int, k: nat)
    ensures ModPow(w, 2) != ModPow(GENERATOR, 2 * k + 1)
  {
    if ModPow(w, 2) == ModPow(GENERATOR, 2 * k + 1) {
      var u, power := Pow(GENERATOR, 255 * k), Pow(GENERATOR, 2 * k + 1);
      assert Pow(w, 2) == w * Pow(w, 1) && Pow(w, 1) == w * Pow(w, 0);
      PowSum(GENERATOR, 255 * k, 255 * k);
      PowSum(GENERATOR, 510 * k, 2 * k + 1);
      ExponentWraps(1, 2 * k);
      ThreeToTheOne();
      ModTimes(u * u, w * w);
      ModTimes(u * u, power);
      assert (u * w) * (u * w) == (u * u) * (w * w);
      ThreeIsNoSquare(u * w);
    }
  }

  lemma {:induction false} EvenPrime(p: nat)
    requires IsPrime(p) && p % 2 == 0
    ensures p == 2
  {
  }

  lemma {:induction false} TimesOfHalf(a: nat, r: nat, y: nat)
    requires r < 2
    ensures Times(2 * a + r, y) == 2 * (a * y) + (if r == 1 then y else 0)
  {
  }

  lemma {:induction false} TimesParity(x: nat, y: nat)
    ensures Times(x, y) % 2 == 0 <==> x % 2 == 0 || y % 2 == 0
  {
    hide Times;
    TimesOfHalf(x / 2, x % 2, y);
    assert x == 2 * (x / 2) + x % 2;
  }

  lemma {:induction false} ProductParity(H: HashFn, elements: seq<seq<byte>>)
    ensures Product(H, elements) % 2 == 0 <==> exists e :: e in elements && PrimeOf(H, e) == 2
  {
    hide Times;
    if elements != [] {
      var front, last := elements[..|elements| - 1], elements[|elements| - 1];
      assert elements == front + [last];
      ProductParity(H, front);
      TimesParity(Product(H, front), PrimeOf(H, last));
      if PrimeOf(H, last) % 2 == 0 {
        EvenPrime(PrimeOf(H, last));
      }
    }
  }

  ghost predicate SomeWitnessPasses(H: HashFn, elements: seq<seq<byte>>, element: seq<byte>) {
    exists w: int :: ModPow(w, PrimeOf(H, element)) == Accumulated(H, elements)
  }

  /**
   * Passing does not show that an element was added: some witness passes for it if and only if its prime is odd, or that of
   * some element added is 2.
   */
  lemma {:induction false} WhenSomeWitnessPasses(H: HashFn, elements: seq<seq<byte>>, element: seq<byte>)
    ensures SomeWitnessPasses(H, elements, element)
       <==> PrimeOf(H, element) != 2 || exists e :: e in elements && PrimeOf(H, e) == 2
  {
    hide ModPow;
    var total := Product(H, elements);
    AccumulatedIsOnePower(H, elements);
    ProductParity(H, elements);
    if PrimeOf(H, element) % 2 == 1 {
      var w := OddPrimesAlwaysPass(H, elements, element);
    } else {
      EvenPrime(PrimeOf(H, element));
      if total % 2 == 0 {
        ModPowTwice(GENERATOR, total / 2, 2);
      } else {
        forall w: int ensures ModPow(w, 2) != ModPow(GENERATOR, total) {
          OddPowerIsNoSquare(w, total / 2);
        }
      }
    }
  }

  // ---- accumulating a state ------------------------------------------------------------------

  /** The product of the primes of all entries, each an address followed by its encoded value. */
  ghost function MapProduct<V>(H: HashFn, entries: map<Address, V>, encode: V -> seq<byte>): nat
    decreases |entries|
  {
    if entries == map[] then 1
    else
      var a :| a in entries;
      RemovedIsSmaller(entries, a);
      Times(MapProduct(H, entries - {a}, encode), PrimeOf(H, a + encode(entries[a])))
  }

  /** An entry stands for its address followed by its encoded value. */
  lemma {:induction false} MapProductOfOne<V>(H: HashFn, entries: map<Address, V>, encode: V -> seq<byte>, a: Address)
    requires entries.Keys == {a}
    ensures MapProduct(H, entries, encode) == PrimeOf(H, a + encode(entries[a]))
  {
  }

  lemma {:induction false} MapProductWithout<V>(H: HashFn, entries: map<Address, V>, encode: V -> seq<byte>, a: Address)
    requires a in entries
    ensures MapProduct(H, entries, encode)
         == Times(MapProduct(H, entries - {a}, encode), PrimeOf(H, a + encode(entries[a])))
    decreases |entries|
  {
    hide Times;
    var b: Address :| b in entries
      && MapProduct(H, entries, encode) == Times(MapProduct(H, entries - {b}, encode), PrimeOf(H, b + encode(entries[b])));
    if a != b {
      RemovedIsSmaller(entries, a);
      RemovedIsSmaller(entries, b);
      MapProductWithout(H, entries - {b}, encode, a);
      MapProductWithout(H, entries - {a}, encode, b);
      assert entries - {a} - {b} == entries - {b} - {a};
      TimesAssociates(MapProduct(H, entries - {a} - {b}, encode), PrimeOf(H, a + encode(entries[a])),
                      PrimeOf(H, b + encode(entries[b])));
    }
  }

  /** Add every entry, in whatever order the iteration yields. */
  method AddEntries<V>(acc: Accumulator, entries: map<Address, V>, encode: V -> seq<byte>)
    requires acc.Valid()
    modifies acc, acc.value
    ensures acc.Valid()
    ensures Product(acc.H, acc.added) == Times(Product(acc.H, old(acc.added)), MapProduct(acc.H, entries, encode))
  {
    hide Times;
    var todo := entries.Keys;
    ghost var left := entries;
    assert left.Keys == todo;
    while todo != {}
      invariant acc.Valid() && left.Keys == todo && forall a | a in left :: a in entries && left[a] == entries[a]
      invariant Times(Product(acc.H, acc.added), MapProduct(acc.H, left, encode))
             == Times(Product(acc.H, old(acc.added)), MapProduct(acc.H, entries, encode))
      decreases todo
    {
      var addr :| addr in todo;
      todo := todo - {addr};
      ghost var before := acc.added;
      var data := addr + encode(entries[addr]);
      acc.Add(data);
      assert acc.added[..|acc.added| - 1] == before;
      MapProductWithout(acc.H, left, encode, addr);
      TimesAssociates(Product(acc.H, before), PrimeOf(acc.H, data), MapProduct(acc.H, left - {addr}, encode));
      left := left - {addr};
    }
    assert left == map[];
    TimesOne(Product(acc.H, acc.added));
  }

  /** The accumulator of a state depends on its accounts and contracts alone, not on the order they are met in. */
  method updateAccumulator(H: HashFn, accounts: LedgerSpec.Ledger, contracts: LedgerSpec.Ledger,
                           encodeAccount: LedgerSpec.Account -> seq<byte>, encodeContract: LedgerSpec.Account -> seq<byte>)
    returns (accumulator: Accumulator)
    ensures accumulator.Valid() && accumulator.H == H
    ensures accumulator.value.n
         == ModPow(GENERATOR, Times(MapProduct(H, accounts, encodeAccount), MapProduct(H, contracts, encodeContract)))
  {
    hide Times, ModPow;
    accumulator := new Accumulator(H);
    AddEntries(accumulator, accounts, encodeAccount);
    TimesOne(MapProduct(H, accounts, encodeAccount));
    AddEntries(accumulator, contracts, encodeContract);
    AccumulatedIsOnePower(H, accumulator.added);
  }

  // ---- the root that does not fit ------------------------------------------------------------

  /** Big-endian bytes without leading zeros. */
  function Bytes(n: nat): seq<byte> {
    if n == 0 then [] else Bytes(n / 256) + [n % 256]
  }

  /** The bytes are those of the value, most significant first, and none is a leading zero. */
  lemma {:induction false} BytesOfValue(n: nat)
    ensures Blocks.FromBigEndian(Bytes(n)) == n && (Bytes(n) != [] ==> Bytes(n)[0] != 0)
  {
    if n > 0 {
      BytesOfValue(n / 256);
      assert Bytes(n)[..|Bytes(n)| - 1] == Bytes(n / 256);
    }
  }

  lemma {:induction false} RootIsTooShort(n: nat)
    requires n < MODULUS
    ensures |Bytes(n)| <= 2
  {
  }

  /** So no update commits with the root of such an accumulator: the conversion to a hash always panics first. */
  lemma {:induction false} NoUpdateCommits(H: HashFn, elements: seq<seq<byte>>, ledger: LedgerSpec.Ledger, update: LedgerSpec.Update)
    requires update.env.accumulatorRoot == Bytes(Accumulated(H, elements))
    ensures LedgerSpec.Verdict(ledger, update.height, update.txs, update.env)
         == if LedgerSpec.TransferAll(ledger, update.txs).Some? then LedgerSpec.Panicked else LedgerSpec.TransactionFailed
    ensures LedgerSpec.Updated(ledger, update) == ledger
  {
  }
}
