/**
 * The translation tables of a single-byte charset: up to 256 character indexes, the character
 * each index stands for, the reverse lookup from character to index, and the character type
 * bits kept per index.
 */
module Lookup {
  import opened Java

  /** `MAX_CHARACTERS`: the size of a single-byte charset's index space. */
  const MaxCharacters: nat := 256

  /** A table of `n` zero characters, as `new char[n]` starts out. */
  function Zeros(n: nat): (z: seq<Char>)
    ensures |z| == n && forall i :: 0 <= i < n ==> z[i] == 0
  {
    seq(n, i => 0)
  }

  /** The characters of the first `n` unicode map values, each cut to 16 bits. */
  function IndexChars(values: seq<int>, n: nat): (u: seq<Char>)
    requires n <= |values|
    ensures |u| == n && forall i :: 0 <= i < n ==> u[i] == ToChar(values[i])
  {
    seq(n, i requires 0 <= i < n => ToChar(values[i]))
  }

  /**
   * The character-to-index map after `put(u[i], i)` for `i` from 0 upwards.  A character maps
   * to an index exactly when it occurs in `u`; it maps to an index holding it, and a later
   * `put` overwrites an earlier one, so the index is the highest that holds the character.
   */
  function CharToIndex(u: seq<Char>): (m: map<Char, int>)
    ensures forall c :: c in m <==> c in u
    ensures forall c :: c in m ==> 0 <= m[c] < |u| && u[m[c]] == c
    ensures forall c, j :: c in m && m[c] < j < |u| ==> u[j] != c
  {
    if u == [] then map[]
    else
      var prefix := u[..|u| - 1];
      var m := CharToIndex(prefix);
      assert forall c :: c in u <==> c in prefix || c == u[|u| - 1] by {
        assert u == prefix + [u[|u| - 1]];
      }
      m[u[|u| - 1] := |u| - 1]
  }

  /** With pairwise distinct characters the lookup inverts the table at every index. */
  lemma CharToIndexInverts(u: seq<Char>, i: nat)
    requires i < |u|
    requires forall j, k :: 0 <= j < k < |u| ==> u[j] != u[k]
    ensures u[i] in CharToIndex(u) && CharToIndex(u)[u[i]] == i
  {
    assert u[i] in CharToIndex(u);
  }

  /** With a repeated character the lookup picks the later of two indexes. */
  lemma CharToIndexLastWins(u: seq<Char>, i: nat, j: nat)
    requires i < j < |u| && u[i] == u[j]
    ensures CharToIndex(u)[u[i]] != i
  {
    assert u[i] in CharToIndex(u);
  }

  // ---------------------------------------------------------------------------------------
  // Character types
  // ---------------------------------------------------------------------------------------

  /** The eight character type predicates, in the order they are declared. */
  datatype CtypeFlag =
    | UpperCaseWordChar
    | LowerCaseWordChar
    | DecimalDigit
    | PrinterControl
    | NotWhiteNotWord
    | ControlChar
    | Space
    | HexDigit

  /** The bit a flag tests: 0 for the first declared flag up to 7 for the last. */
  function Bit(f: CtypeFlag): (k: nat)
    ensures k < 8
  {
    match f
    case UpperCaseWordChar => 0
    case LowerCaseWordChar => 1
    case DecimalDigit => 2
    case PrinterControl => 3
    case NotWhiteNotWord => 4
    case ControlChar => 5
    case Space => 6
    case HexDigit => 7
  }

  /** The mask a flag's predicate applies: 0x01, 0x02, ..., 0x80. */
  function Mask(f: CtypeFlag): (m: nat)
    ensures 1 <= m <= 0x80
  {
    match f
    case UpperCaseWordChar => 0x01
    case LowerCaseWordChar => 0x02
    case DecimalDigit => 0x04
    case PrinterControl => 0x08
    case NotWhiteNotWord => 0x10
    case ControlChar => 0x20
    case Space => 0x40
    case HexDigit => 0x80
  }

  function Pow2(k: nat): (p: nat)
    ensures p >= 1
  {
    if k == 0 then 1 else 2 * Pow2(k - 1)
  }

  /** Bit `k` of `v` in two's complement (floor division keeps negative values right). */
  predicate HasBit(v: int, k: nat)
  {
    (v / Pow2(k)) % 2 == 1
  }

  /** `(v & mask) != 0` for the flag's one-bit mask. */
  predicate TestMask(v: int, f: CtypeFlag)
  {
    match f
    case UpperCaseWordChar => v % 2 == 1
    case LowerCaseWordChar => v / 0x02 % 2 == 1
    case DecimalDigit => v / 0x04 % 2 == 1
    case PrinterControl => v / 0x08 % 2 == 1
    case NotWhiteNotWord => v / 0x10 % 2 == 1
    case ControlChar => v / 0x20 % 2 == 1
    case Space => v / 0x40 % 2 == 1
    case HexDigit => v / 0x80 % 2 == 1
  }

  /** Each mask is the single bit its flag tests, so distinct flags test distinct bits. */
  lemma MasksAreDistinctBits(f: CtypeFlag, g: CtypeFlag)
    ensures Mask(f) == Pow2(Bit(f))
    ensures f != g ==> Mask(f) != Mask(g) && Bit(f) != Bit(g)
  {
    assert Pow2(1) == 2 && Pow2(2) == 4 && Pow2(3) == 8 && Pow2(4) == 16;
    assert Pow2(5) == 32 && Pow2(6) == 64 && Pow2(7) == 128;
  }

  /** Each predicate tests exactly its flag's bit of the entry. */
  lemma TestMaskIsBit(v: int, f: CtypeFlag)
    ensures TestMask(v, f) <==> HasBit(v, Bit(f))
  {
    MasksAreDistinctBits(f, f);
    assert Pow2(Bit(f)) == Mask(f);
  }

  // ---------------------------------------------------------------------------------------
  // Java's `&` on `int`, digit by digit
  // ---------------------------------------------------------------------------------------

  /** The `n` low-order binary digits of `u`, least significant first. */
  function Digits(u: nat, n: nat): (ds: seq<bool>)
    ensures |ds| == n
  {
    if n == 0 then [] else [u % 2 == 1] + Digits(u / 2, n - 1)
  }

  /** The number a sequence of binary digits, least significant first, spells. */
  function DigitsValue(ds: seq<bool>): nat
  {
    if ds == [] then 0 else (if ds[0] then 1 else 0) + 2 * DigitsValue(ds[1..])
  }

  /** The digit-wise conjunction of two digit strings of one length. */
  function AndDigits(a: seq<bool>, b: seq<bool>): (c: seq<bool>)
    requires |a| == |b|
    ensures |c| == |a| && forall i :: 0 <= i < |a| ==> c[i] == (a[i] && b[i])
  {
    if a == [] then [] else [a[0] && b[0]] + AndDigits(a[1..], b[1..])
  }

  /**
   * Java's `v & w` on two `int`s: the digit-wise conjunction of their 32-bit two's-complement
   * forms, read as an unsigned number (zero exactly when Java's signed result is zero).
   */
  function JavaAnd(v: JInt, w: JInt): nat
  {
    DigitsValue(AndDigits(Digits(v % 0x1_0000_0000, 32), Digits(w % 0x1_0000_0000, 32)))
  }

  /** Each predicate's `(v & mask) != 0` over the two's-complement digits is `TestMask`. */
  lemma TestMaskIsAnd(v: JInt, f: CtypeFlag)
    ensures TestMask(v, f) <==> JavaAnd(v, Mask(f)) != 0
  {
    var k := Bit(f);
    TestMaskIsBit(v, f);
    MasksAreDistinctBits(f, f);
    var a, b := Digits(v % 0x1_0000_0000, 32), Digits(Pow2(k), 32);
    DivisionUnique(Mask(f), 0x1_0000_0000, 0, Mask(f));
    var c := AndDigits(a, b);
    assert JavaAnd(v, Mask(f)) == DigitsValue(c);
    forall i | 0 <= i < 32
      ensures c[i] <==> i == k && HasBit(v, k)
    {
      DigitsIndex(Pow2(k), 32, i);
      PowerHasOneBit(k, i);
      DigitsIndex(v % 0x1_0000_0000, 32, i);
      WrapKeepsBit(v, k);
    }
    assert c[k] <==> HasBit(v, k);
    DigitsValueZero(c);
  }

  /** A digit string spells zero exactly when every digit is zero. */
  lemma {:induction false} DigitsValueZero(ds: seq<bool>)
    ensures DigitsValue(ds) == 0 <==> forall i :: 0 <= i < |ds| ==> !ds[i]
  {
    if ds != [] {
      DigitsValueZero(ds[1..]);
      assert forall i :: 1 <= i < |ds| ==> ds[i] == ds[1..][i - 1];
    }
  }

  /** Digit `k` of `u` is bit `k` of `u`. */
  lemma {:induction false} DigitsIndex(u: nat, n: nat, k: nat)
    requires k < n
    ensures Digits(u, n)[k] <==> HasBit(u, k)
  {
    if k > 0 {
      DigitsIndex(u / 2, n - 1, k - 1);
      HalfThenDivide(u, Pow2(k - 1));
    }
  }

  /** `Pow2(b)` has bit `b` and no other. */
  lemma {:induction false} PowerHasOneBit(b: nat, i: nat)
    ensures HasBit(Pow2(b), i) <==> i == b
  {
    if i > 0 {
      HalfThenDivide(Pow2(b), Pow2(i - 1));
      if b == 0 {
        assert Pow2(b) / 2 == 0;
      } else {
        assert Pow2(b) / 2 == Pow2(b - 1);
        PowerHasOneBit(b - 1, i - 1);
      }
    }
  }

  /** Halving and then dividing by `p` is dividing by `2 * p`. */
  lemma HalfThenDivide(u: nat, p: nat)
    requires p >= 1
    ensures u / 2 / p == u / (2 * p)
  {
    var q, r := u / 2, u % 2;
    var q2, r2 := q / p, q % p;
    assert u == (2 * p) * q2 + (2 * r2 + r);
    DivisionUnique(u, 2 * p, q2, 2 * r2 + r);
  }

  /** The quotient is the only `q` with a remainder in range. */
  lemma DivisionUnique(u: int, d: nat, q: int, r: int)
    requires d >= 1 && 0 <= r < d && u == d * q + r
    ensures u / d == q
  {
    var q0, r0 := u / d, u % d;
    assert u == d * q0 + r0;
    assert d * (q - q0) == r0 - r;
    MulBounds(d, q - q0);
  }

  /** A non-zero multiple of `d` is at least `d` away from zero. */
  lemma MulBounds(d: int, x: int)
    requires d >= 1
    ensures x >= 1 ==> d * x >= d
    ensures x <= -1 ==> d * x <= -d
  {
    if x >= 1 {
      assert d * x == d + d * (x - 1);
    } else if x <= -1 {
      assert d * x == -d + d * (x + 1);
    }
  }

  /** Adding `m` multiples of `p` adds `m` to the quotient by `p`. */
  lemma AddMultiple(v: int, p: nat, m: int)
    requires p >= 1
    ensures (v + p * m) / p == v / p + m
  {
    assert p * (v / p + m) + v % p == v + p * m;
    DivisionUnique(v + p * m, p, v / p + m, v % p);
  }

  /** `Pow2(a + b) == Pow2(a) * Pow2(b)`. */
  lemma {:induction false} Pow2Add(a: nat, b: nat)
    ensures Pow2(a + b) == Pow2(a) * Pow2(b)
  {
    if a > 0 {
      Pow2Add(a - 1, b);
      assert Pow2(a + b) == 2 * Pow2(a - 1 + b);
      assert 2 * (Pow2(a - 1) * Pow2(b)) == (2 * Pow2(a - 1)) * Pow2(b);
    }
  }

  /** `Pow2(32)` is the size of the `int` range. */
  lemma Pow2Is32Bits()
    ensures Pow2(32) == 0x1_0000_0000
  {
    assert Pow2(1) == 2 && Pow2(2) == 4 && Pow2(3) == 8 && Pow2(4) == 16;
    assert Pow2(5) == 32 && Pow2(6) == 64 && Pow2(7) == 128 && Pow2(8) == 256;
    Pow2Add(8, 8);
    Pow2Add(16, 16);
  }

  /** Bits below 32 are the same in an `int` and in its unsigned 32-bit form. */
  lemma WrapKeepsBit(v: JInt, k: nat)
    requires k < 32
    ensures HasBit(v % 0x1_0000_0000, k) <==> HasBit(v, k)
  {
    if v < 0 {
      var p, h := Pow2(k), Pow2(31 - k);
      assert Pow2(32 - k) == 2 * h;
      Pow2Is32Bits();
      Pow2Add(k, 32 - k);
      assert v % 0x1_0000_0000 == v + p * (2 * h);
      AddMultiple(v, p, 2 * h);
      assert (v / p + 2 * h) % 2 == (v / p) % 2;
    }
  }
}
