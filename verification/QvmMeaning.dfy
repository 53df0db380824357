/**
  What the instructions of the virtual machine compute, by their numbers in byte code (opcode_t of
  Shared/vm_local.h): laws of arithmetic, of bits and of memory.
 */
module QvmMeaning {
  import opened Arithmetic
  import opened BitStream
  import opened Words
  import opened QvmMachine

  // ---- words ----

  /** Ints that are the same word */
  predicate SameWord(a: int, b: int) {
    (a - b) % 0x1_0000_0000 == 0
  }

  lemma WrapIsSame(v: int)
    ensures SameWord(Wrap(v), v) && -0x8000_0000 <= Wrap(v) < 0x8000_0000
  {
  }

  lemma UnsignedIsSame(v: int)
    ensures SameWord(Unsigned(v), v) && Unsigned(v) < 0x1_0000_0000
  {
  }

  /** A word that fits comes back as it is. */
  lemma WrapOfNat(v: nat)
    requires v < 0x1_0000_0000
    ensures Unsigned(Wrap(v)) == v
  {
  }

  // ---- sums and quotients ----

  lemma SumsAreModular(host: Host, a: int, b: int)
    ensures Int32(Binary(host, 38, a, b)) && SameWord(Binary(host, 38, a, b), a + b)
    ensures Int32(Binary(host, 39, a, b)) && SameWord(Binary(host, 39, a, b) + b, a)
    ensures Int32(Binary(host, 44, a, b)) && SameWord(Binary(host, 44, a, b), a * b)
    ensures Int32(Binary(host, 45, a, b)) && SameWord(Binary(host, 45, a, b), a * b)
    ensures Int32(Unary(host, 37, a)) && SameWord(Unary(host, 37, a) + a, 0)
  {
    WrapIsSame(a + b);
    WrapIsSame(a - b);
    WrapIsSame(a * b);
    WrapIsSame(-a);
  }

  /** Division truncates: the remainder is smaller than the divisor and has the dividend's sign. */
  lemma DivisionTruncates(host: Host, a: int, b: int)
    requires Int32(a) && Int32(b) && b != 0 && !(a == -0x8000_0000 && b == -1)
    ensures
      var q, r := Binary(host, 40, a, b), Binary(host, 42, a, b);
      && Int32(q) && a == q * b + r && Magnitude(r) < Magnitude(b) && (r < 0 ==> a < 0) && (r > 0 ==> a > 0)
  {
    QuotientTruncates(a, b);
  }

  lemma QuotientTruncates(a: int, b: int)
    requires Int32(a) && Int32(b) && b != 0 && !(a == -0x8000_0000 && b == -1)
    ensures
      var q := Quotient(a, b);
      var r := a - b * q;
      && Int32(q) && a == q * b + r && Magnitude(r) < Magnitude(b) && (r < 0 ==> a < 0) && (r > 0 ==> a > 0)
  {
    var m, n := Magnitude(a), Magnitude(b);
    Parts(m, n);
    var q: int, r: int := m / n, m % n;
    SmallFactor(m, n, q, r);
    if (a < 0) == (b < 0) { SignedParts(a, b, n, q, r); } else { SignedParts(a, b, n, -q, r); }
  }

  /** Parts of magnitudes are parts of the numbers, up to signs. */
  lemma SignedParts(a: int, b: int, n: nat, q: int, r: int)
    requires n == Magnitude(b) && Magnitude(a) == n * Magnitude(q) + r
    requires q == 0 || (q > 0) == ((a < 0) == (b < 0))
    ensures a - b * q == if a < 0 then -r else r
  {
    assert n * Magnitude(q) == Magnitude(b * q) by { MagnitudeOfProduct(b, q); }
    SignOf(b, q);
  }

  lemma MagnitudeOfProduct(a: int, b: int)
    ensures Magnitude(a * b) == Magnitude(a) * Magnitude(b)
  {
    SignOf(a, b);
    assert -a * b == -(a * b) && a * -b == -(a * b) && -a * -b == a * b;
  }

  lemma SignOf(a: int, b: int)
    ensures a * b > 0 <==> (a > 0 && b > 0) || (a < 0 && b < 0)
    ensures a * b == 0 <==> a == 0 || b == 0
  {
    MultipleIsFar(Magnitude(a), b);
    assert a < 0 ==> Magnitude(a) * b == -(a * b);
  }

  lemma UnsignedDivision(host: Host, a: int, b: int)
    requires Unsigned(b) != 0
    ensures
      var q, r := Unsigned(Binary(host, 41, a, b)), Unsigned(Binary(host, 43, a, b));
      Unsigned(a) == q * Unsigned(b) + r && r < Unsigned(b)
  {
    var m, n := Unsigned(a), Unsigned(b);
    UnsignedIsSame(a);
    UnsignedIsSame(b);
    Parts(m, n);
    SmallFactor(m, n, m / n, m % n);
    hide Wrap, Unsigned;
    WrapOfNat(m / n);
    WrapOfNat(m % n);
  }

  // ---- bits ----

  lemma {:induction false} BitwiseIsSmall(f: (bool, bool) -> bool, a: int, b: int, n: nat)
    ensures Bitwise(f, a, b, n) < Pow2(n)
    decreases n
  {
    if n > 0 { BitwiseIsSmall(f, a / 2, b / 2, n - 1); }
  }

  /** Each bit of a bitwise operation comes from the two bits at its place. */
  lemma {:induction false} BitwiseAt(f: (bool, bool) -> bool, a: int, b: int, n: nat, j: nat)
    requires j < n
    ensures Bit(Bitwise(f, a, b, n), j) == f(Bit(a % Pow2(n), j), Bit(b % Pow2(n), j))
    decreases n
  {
    hide Pow2;
    HalfOfRest(a, n - 1);
    HalfOfRest(b, n - 1);
    BitwiseHalf(f, a, b, n);
    hide Bitwise;
    BitIs(Bitwise(f, a, b, n), j);
    BitIs(a % Pow2(n), j);
    BitIs(b % Pow2(n), j);
    hide Bit;
    if j > 0 { BitwiseAt(f, a / 2, b / 2, n - 1, j - 1); }
  }

  lemma BitIs(n: nat, j: nat)
    ensures Bit(n, j) == if j == 0 then n % 2 == 1 else Bit(n / 2, j - 1)
  {
  }

  lemma BitwiseHalf(f: (bool, bool) -> bool, a: int, b: int, n: nat)
    requires n > 0
    ensures Bitwise(f, a, b, n) / 2 == Bitwise(f, a / 2, b / 2, n - 1)
    ensures Bitwise(f, a, b, n) % 2 == if f(a % 2 == 1, b % 2 == 1) then 1 else 0
  {
  }

  lemma HalfOfRest(a: int, n: nat)
    ensures a % Pow2(n + 1) / 2 == a / 2 % Pow2(n) && a % Pow2(n + 1) % 2 == a % 2
  {
    var p := Pow2(n);
    var q, r := a / (2 * p), a % (2 * p);
    assert a == 2 * p * q + r;
    assert a == 2 * (p * q) + r by { assert 2 * p * q == 2 * (p * q); }
    assert a / 2 == p * q + r / 2;
    RestIs(a / 2, p, q, r / 2);
  }

  lemma BitsAreCombined(host: Host, a: int, b: int, j: nat)
    requires j < 32
    ensures Bit(Unsigned(Binary(host, 46, a, b)), j) <==> Bit(Unsigned(a), j) && Bit(Unsigned(b), j)
    ensures Bit(Unsigned(Binary(host, 47, a, b)), j) <==> Bit(Unsigned(a), j) || Bit(Unsigned(b), j)
    ensures Bit(Unsigned(Binary(host, 48, a, b)), j) <==> Bit(Unsigned(a), j) != Bit(Unsigned(b), j)
    ensures Bit(Unsigned(Unary(host, 49, a)), j) <==> !Bit(Unsigned(a), j)
  {
    SmallPowers();
    hide Wrap, Bitwise, Bit, Pow2;
    BitwiseWord((x, y) => x && y, a, b, j);
    BitwiseWord((x, y) => x || y, a, b, j);
    BitwiseWord((x, y) => x != y, a, b, j);
    Complement(a, j);
  }

  lemma BitwiseWord(f: (bool, bool) -> bool, a: int, b: int, j: nat)
    requires j < 32
    ensures Bit(Unsigned(Wrap(Bitwise(f, a, b, 32))), j) == f(Bit(Unsigned(a), j), Bit(Unsigned(b), j))
  {
    SmallPowers();
    hide Wrap, Bitwise, Bit, Pow2;
    BitwiseIsSmall(f, a, b, 32);
    BitwiseAt(f, a, b, 32, j);
    WrapOfNat(Bitwise(f, a, b, 32));
  }

  lemma Complement(a: int, j: nat)
    requires j < 32
    ensures Bit(Unsigned(Wrap(-1 - a)), j) == !Bit(Unsigned(a), j)
  {
    ComplementIs(a);
    SmallPowers();
    hide Wrap, Unsigned, Pow2, Bit;
    ComplementAt(Unsigned(a), 32, j);
  }

  lemma ComplementIs(a: int)
    ensures Unsigned(Wrap(-1 - a)) == 0xFFFF_FFFF - Unsigned(a) && Unsigned(a) < 0x1_0000_0000
  {
  }

  lemma {:induction false} ComplementAt(n: nat, k: nat, j: nat)
    requires n < Pow2(k) && j < k
    ensures Bit(Pow2(k) - 1 - n, j) == !Bit(n, j)
  {
    if j > 0 {
      ComplementAt(n / 2, k - 1, j - 1);
      assert (Pow2(k) - 1 - n) / 2 == Pow2(k - 1) - 1 - n / 2;
    }
  }

  /** r is a divided by p, rounded down. */
  predicate Rounded(a: int, p: nat, r: int) {
    r * p <= a < (r + 1) * p
  }

  /** Shifts multiply and divide by a power of two; the quotient is rounded down. */
  lemma ShiftsScale(host: Host, a: int, b: int)
    requires Int32(a) && 0 <= b < 32
    ensures SameWord(Binary(host, 50, a, b), a * Pow2(b)) && Int32(Binary(host, 50, a, b))
    ensures Rounded(a, Pow2(b), Binary(host, 51, a, b))
    ensures Rounded(Unsigned(a), Pow2(b), Unsigned(Binary(host, 52, a, b)))
  {
    WrapIsSame(a * Pow2(b));
    ShiftsAre(host, a, b, Pow2(b));
    RoundsDown(a, Pow2(b));
    UnsignedShift(a, Pow2(b));
    hide Wrap, Unsigned, Pow2, SameWord, Binary, Rounded;
  }

  lemma ShiftsAre(host: Host, a: int, b: int, p: nat)
    requires 0 <= b < 32 && p == Pow2(b)
    ensures Binary(host, 50, a, b) == Wrap(a * p)
    ensures Binary(host, 51, a, b) == a / p
    ensures Binary(host, 52, a, b) == Wrap(Unsigned(a) / p)
  {
    hide Wrap, Unsigned, Pow2, Quotient, Bitwise;
  }

  lemma UnsignedShift(a: int, p: nat)
    requires p > 0
    ensures Rounded(Unsigned(a), p, Unsigned(Wrap(Unsigned(a) / p)))
  {
    var u := Unsigned(a);
    UnsignedIsSame(a);
    Parts(u, p);
    SmallFactor(u, p, u / p, u % p);
    hide Wrap, Unsigned;
    WrapOfNat(u / p);
    RoundsDown(u, p);
  }

  lemma RoundsDown(a: int, p: nat)
    requires p > 0
    ensures Rounded(a, p, a / p)
  {
    Parts(a, p);
    assert (a / p + 1) * p == a / p * p + p && a / p * p == p * (a / p);
  }

  lemma {:induction false} BitOfRest(n: nat, k: nat, j: nat)
    ensures Bit(n % Pow2(k), j) == (j < k && Bit(n, j))
    decreases k
  {
    if k == 0 {
      NoBits(j);
    } else {
      HalfOfRest(n, k - 1);
      if j > 0 { BitOfRest(n / 2, k - 1, j - 1); }
    }
  }

  lemma {:induction false} NoBits(j: nat)
    ensures !Bit(0, j)
  {
    if j > 0 { NoBits(j - 1); }
  }

  /** Extending the sign keeps the low bits and repeats the highest of them. */
  lemma SignIsRepeated(host: Host, a: int, j: nat)
    requires j < 32
    ensures -0x80 <= Unary(host, 35, a) < 0x80 && -0x8000 <= Unary(host, 36, a) < 0x8000
    ensures Bit(Unsigned(Unary(host, 35, a)), j) == Bit(Unsigned(a), if j < 7 then j else 7)
    ensures Bit(Unsigned(Unary(host, 36, a)), j) == Bit(Unsigned(a), if j < 15 then j else 15)
  {
    SmallPowers();
    Extended(a, 7, (a + 0x80) % 0x100 - 0x80, j);
    assert Pow2(15) == 0x8000;
    Extended(a, 15, (a + 0x8000) % 0x1_0000 - 0x8000, j);
  }

  /** A value of k + 1 bits with sign */
  lemma Extended(a: int, k: nat, r: int, j: nat)
    requires j < 32 && k < 31 && r == (a + Pow2(k)) % Pow2(k + 1) - Pow2(k)
    ensures Bit(Unsigned(r), j) == Bit(Unsigned(a), if j < k then j else k)
  {
    var p, u := Pow2(k), Unsigned(a);
    var low: int := u % (2 * p);
    SmallPowers();
    LowPart(a, k);
    assert r == if low < p then low else low - 2 * p;
    var i := if j < k then j else k;
    Pow2Grows(k + 1, 32);
    Doubles(k);
    Parts(u, 2 * p);
    assert 2 * p <= 0x1_0000_0000;
    hide Bit, Pow2, SameWord, Unsigned;
    WordOfLow(low, p);
    BitOfRest(u, k + 1, i);
    TopBitIs(low, k);
    if low < p {
      if j >= k { SmallHasNoBits(low, k, j); }
    } else {
      HighOnes(low, k, 32, j);
    }
  }

  lemma WordOfLow(low: int, p: nat)
    requires 0 <= low < 2 * p <= 0x1_0000_0000
    ensures Unsigned(if low < p then low else low - 2 * p) == if low < p then low else 0x1_0000_0000 + low - 2 * p
  {
  }

  lemma LowPart(a: int, k: nat)
    requires k < 31
    ensures
      var p := Pow2(k);
      var low := Unsigned(a) % (2 * p);
      (a + p) % (2 * p) - p == if low < p then low else low - 2 * p
  {
    SmallPowers();
    PowersMultiply(k + 1, 31 - k);
    Doubles(k);
    assert a == 0x1_0000_0000 * (a / 0x1_0000_0000) + Unsigned(a);
    RestOfMultiple(a, Pow2(k), Pow2(31 - k), a / 0x1_0000_0000, Unsigned(a));
  }

  lemma RestOfMultiple(a: int, p: nat, n: nat, q: int, u: nat)
    requires p > 0 && a == 2 * p * n * q + u
    ensures
      var low := u % (2 * p);
      (a + p) % (2 * p) - p == if low < p then low else low - 2 * p
  {
    var low, t := u % (2 * p), u / (2 * p);
    Parts(u, 2 * p);
    Factor(2 * p, n * q, t, n, q);
    SplitRest(a, p, n * q + t, low);
  }

  lemma SplitRest(a: int, p: nat, q: int, low: nat)
    requires p > 0 && a == 2 * p * q + low && low < 2 * p
    ensures (a + p) % (2 * p) - p == if low < p then low else low - 2 * p
  {
    if low < p {
      RestIs(a + p, 2 * p, q, low + p);
    } else {
      assert 2 * p * (q + 1) == 2 * p * q + 2 * p;
      RestIs(a + p, 2 * p, q + 1, low - p);
    }
  }

  lemma Factor(x: int, y: int, t: int, n: int, q: int)
    requires y == n * q
    ensures x * n * q + x * t == x * (y + t)
  {
    assert x * n * q == x * (n * q);
  }

  lemma {:induction false} TopBitIs(n: nat, k: nat)
    requires n < 2 * Pow2(k)
    ensures Bit(n, k) <==> n >= Pow2(k)
  {
    if k > 0 { TopBitIs(n / 2, k - 1); }
  }

  lemma {:induction false} SmallHasNoBits(n: nat, k: nat, j: nat)
    requires n < Pow2(k) && k <= j
    ensures !Bit(n, j)
  {
    if k == 0 {
      NoBits(j);
    } else {
      SmallHasNoBits(n / 2, k - 1, j - 1);
    }
  }

  /** Ones above bit k, which is one itself */
  lemma {:induction false} HighOnes(low: nat, k: nat, n: nat, j: nat)
    requires Pow2(k) <= low < 2 * Pow2(k) && j < n && k < n
    ensures Pow2(n) >= 2 * Pow2(k)
    ensures Bit(Pow2(n) + low - 2 * Pow2(k), j) == Bit(low, if j < k then j else k)
    decreases k
  {
    Pow2Grows(k + 1, n);
    if k == 0 {
      NoBits(j);
      ComplementAt(0, n, j);
    } else {
      var up := Pow2(n) + low - 2 * Pow2(k);
      assert up / 2 == Pow2(n - 1) + low / 2 - 2 * Pow2(k - 1) && up % 2 == low % 2;
      if j > 0 { HighOnes(low / 2, k - 1, n - 1, j - 1); }
    }
  }

  lemma Doubles(k: nat)
    ensures Pow2(k + 1) == 2 * Pow2(k)
  {
  }

  // ---- comparisons ----

  /** Of less, equal and greater exactly one holds, and the other comparisons are what is left; unsigned ones differ
      from signed ones exactly if the signs do. */
  lemma ComparisonsAgree(host: Host, a: int, b: int)
    requires Int32(a) && Int32(b)
    ensures
      var eq, lt, gt := Compare(host, 11, a, b), Compare(host, 13, a, b), Compare(host, 15, a, b);
      && (eq <==> SameWord(a, b)) && (lt ==> b - a > 0) && (gt ==> a - b > 0)
      && (lt || eq || gt) && !(lt && eq) && !(lt && gt) && !(eq && gt)
      && Compare(host, 12, a, b) == !eq && Compare(host, 14, a, b) == !gt && Compare(host, 16, a, b) == !lt
    ensures
      var eq, lt, gt := Compare(host, 11, a, b), Compare(host, 17, a, b), Compare(host, 19, a, b);
      && (lt || eq || gt) && !(lt && eq) && !(lt && gt) && !(eq && gt)
      && Compare(host, 18, a, b) == !gt && Compare(host, 20, a, b) == !lt
      && lt == if (a < 0) == (b < 0) then Compare(host, 13, a, b) else b < 0
  {
  }

  // ---- memory ----

  /** The place that is used for an address: the bits below the size of the memory, without those that align */
  lemma {:induction false} MaskedIsBits(a: int, k: nat, align: nat, j: nat)
    requires k <= 32 && align <= k
    ensures 0 <= Masked(a, Pow2(k), Pow2(align)) < Pow2(k)
    ensures Bit(Masked(a, Pow2(k), Pow2(align)), j) <==> align <= j < k && Bit(Unsigned(a), j)
  {
    var low := a % Pow2(k);
    Parts(low, Pow2(align));
    SmallFactor(low, Pow2(align), low / Pow2(align), low % Pow2(align));
    RestOfWord(a, k);
    BitOfRest(Unsigned(a), k, j);
    ClearsLowBits(low, align, j);
  }

  lemma RestOfWord(a: int, k: nat)
    requires k <= 32
    ensures a % Pow2(k) == Unsigned(a) % Pow2(k)
  {
    SmallPowers();
    PowersMultiply(k, 32 - k);
    var p, n, q := Pow2(k), Pow2(32 - k), a / 0x1_0000_0000;
    assert a == 0x1_0000_0000 * q + Unsigned(a);
    hide Unsigned, Pow2;
    SameRest(a, Unsigned(a), p, n, q);
  }

  lemma SameRest(a: int, u: nat, p: nat, n: nat, q: int)
    requires p > 0 && a == p * n * q + u
    ensures a % p == u % p
  {
    Parts(u, p);
    Factor(p, n * q, u / p, n, q);
    RestIs(a, p, n * q + u / p, u % p);
  }

  lemma {:induction false} ClearsLowBits(n: nat, align: nat, j: nat)
    ensures n - n % Pow2(align) >= 0
    ensures Bit(n - n % Pow2(align), j) <==> align <= j && Bit(n, j)
    decreases align
  {
    RestIsSmall(n, Pow2(align));
    if align > 0 {
      HalfOfRest(n, align - 1);
      RestIsSmall(n / 2, Pow2(align - 1));
      if j > 0 { ClearsLowBits(n / 2, align - 1, j - 1); }
      EvenDifference(n, n % Pow2(align));
    }
  }

  lemma RestIsSmall(n: nat, p: nat)
    requires p > 0
    ensures 0 <= n % p <= n
  {
    Parts(n, p);
    SmallFactor(n, p, n / p, n % p);
    ProductOfNats(p, n / p);
  }

  lemma EvenDifference(n: nat, r: nat)
    requires r <= n && r % 2 == n % 2
    ensures (n - r) % 2 == 0 && (n - r) / 2 == n / 2 - r / 2
  {
  }

  /** The bytes of a word, the lowest first */
  lemma LowByteFirst(v: int)
    ensures
      var b, u := WordBytes(v), Unsigned(v);
      |b| == 4 && u == b[0] as int + 0x100 * b[1] as int + 0x1_0000 * b[2] as int + 0x100_0000 * b[3] as int
  {
    hide Unsigned;
    UnsignedIsSame(v);
    Digits(Unsigned(v));
  }

  /** What is stored is loaded again, cut to the size; all other bytes stay. */
  lemma StoredIsLoaded(s: State, size: int, j: nat)
    requires Proper(s) && 3 <= s.top < CELLS && (size == 1 || size == 2 || size == 4) && j < |s.image|
    requires Int32(s.cells[s.top])
    ensures
      var store, load := if size == 1 then 30 else if size == 2 then 31 else 32,
        if size == 1 then 27 else if size == 2 then 28 else 29;
      var e := StoreStep(s, Instr(store, 0));
      var a, v := s.cells[s.top - 1], s.cells[s.top];
      && e.Running? && e.s == s.(pc := s.pc + 1, top := s.top - 2, image := e.s.image) && |e.s.image| == |s.image|
      && Loaded(e.s.image, load, a)
         == (if size == 1 then Unsigned(v) % 0x100 else if size == 2 then Unsigned(v) % 0x1_0000 else v)
      && (!(Masked(a, |s.image|, size) <= j < Masked(a, |s.image|, size) + size) ==> e.s.image[j] == s.image[j])
  {
    var a, v := s.cells[s.top - 1], s.cells[s.top];
    var at := Masked(a, |s.image|, size);
    hide WordBytes, Masked, Unsigned, Load4, Put;
    LowBytes(v);
    MaskedInside(a, |s.image|, size);
    PutBytes(s.image, at, WordBytes(v)[..size], j);
    PutBytes(s.image, at, WordBytes(v)[..size], at);
    if size == 2 { PutBytes(s.image, at, WordBytes(v)[..size], at + 1); }
    if size == 4 { PutThenLoad(s.image, at, v); }
    assert WordBytes(v)[..4] == WordBytes(v);
  }

  lemma LowBytes(v: int)
    ensures WordBytes(v)[0] == Unsigned(v) % 0x100
    ensures WordBytes(v)[0] as int + 0x100 * WordBytes(v)[1] as int == Unsigned(v) % 0x1_0000
  {
    hide Unsigned;
    TwoDigits(Unsigned(v));
  }

  lemma TwoDigits(u: nat)
    ensures u % 256 + 0x100 * (u / 0x100 % 256) == u % 0x1_0000
  {
    var a := u / 0x100;
    RestIs(u, 0x1_0000, a / 0x100, u % 256 + 0x100 * (a % 256));
  }

  lemma PutBytes(m: Image, a: int, bytes: seq<byte>, j: nat)
    requires 0 <= a && a + |bytes| <= |m| && j < |m|
    ensures Put(m, a, bytes)[j] == if a <= j < a + |bytes| then bytes[j - a] else m[j]
  {
  }

  lemma MaskedInside(a: int, size: int, n: int)
    requires size > 0 && size % 4 == 0 && (n == 1 || n == 2 || n == 4)
    ensures 0 <= Masked(a, size, n) && Masked(a, size, n) + n <= size
    ensures Masked(a, size, 1) == a % size
  {
  }

  lemma PutThenLoad(m: Image, a: int, v: int)
    requires 0 <= a && a + 4 <= |m| && Int32(v)
    ensures Load4(Put(m, a, WordBytes(v)), a) == v
  {
    hide WordBytes, Load4;
    LoadsWhatWasStored(v);
    var b := Put(m, a, WordBytes(v));
    assert b[a..a + 4] == WordBytes(v);
    LoadsFrom(b, a);
  }

  /** The count of a block copy stays as it is if the destination ends before the end of the memory, and is not
      positive otherwise. The source does not matter: the second masking undoes the first. */
  lemma CountOfCopy(size: int, src: int, dest: int, count: int)
    requires 0 <= src < size && 0 <= dest < size && 0 <= count <= size
    ensures CopyCount(size, src, dest, count) == if dest + count < size then count else count - size
  {
    RestOnce(src + count, size);
    RestOnce(dest + (src + count) % size - src, size);
  }

  lemma RestOnce(a: int, size: int)
    requires size > 0 && -size <= a < 2 * size
    ensures a % size == if a < 0 then a + size else if a < size then a else a - size
  {
    RestIs(a, size, if a < 0 then -1 else if a < size then 0 else 1,
      if a < 0 then a + size else if a < size then a else a - size);
  }

  /** A copy whose source reaches behind the end of the memory is not cut. */
  lemma SourceIsNotCut()
    ensures CopyCount(16, 12, 0, 8) == 8 && 12 + 8 > 16
  {
  }

  lemma CopyMoves(s: State, count: int, j: nat)
    requires Proper(s) && 3 <= s.top < CELLS && 0 <= count && j < |s.image|
    requires
      var src, dest := s.cells[s.top] % |s.image|, s.cells[s.top - 1] % |s.image|;
      src + count <= |s.image| && dest + count < |s.image| && (src + count <= dest || dest + count <= src)
    ensures
      var e := CopyStep(s, Instr(34, count));
      var src, dest := s.cells[s.top] % |s.image|, s.cells[s.top - 1] % |s.image|;
      && e.Running? && e.s == s.(pc := s.pc + 1, top := s.top - 2, image := e.s.image) && |e.s.image| == |s.image|
      && e.s.image[j] == if dest <= j < dest + count then s.image[src + j - dest] else s.image[j]
  {
    CountOfCopy(|s.image|, s.cells[s.top] % |s.image|, s.cells[s.top - 1] % |s.image|, count);
    hide CopyCount;
  }
}
