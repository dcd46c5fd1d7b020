/**
 * The collation algorithms, stated over a collation's weight function.
 *
 * A collation weighs each character with a signed byte (`getWeight`), which may throw.  A
 * `Weigher` is that function with the collation's state fixed.  The collator's loops and the
 * collation key's loops are specified by the functions here, and the properties the collator
 * promises (a consistent order, equality as "same weights", weight-preserving normalisation)
 * are proved about these functions once, for every collation.
 */
module Collating {
  import opened Java
  import opened Lookup

  /** `getWeight` of a collation whose state is fixed. */
  type Weigher = Char -> Outcome<JByte>

  /** `toIndex` of a charset whose state is fixed. */
  type Indexer = Char -> Outcome<int>

  // ---------------------------------------------------------------------------------------
  // Weight sequences
  // ---------------------------------------------------------------------------------------

  /** The weights of the characters of `s` from left to right; the first failure is thrown. */
  function Weights(w: Weigher, s: JString): (r: Outcome<seq<JByte>>)
    ensures r.Ok? <==> forall i :: 0 <= i < |s| ==> w(s[i]).Ok?
    ensures r.Ok? ==> |r.value| == |s| && forall i :: 0 <= i < |s| ==> w(s[i]) == Ok(r.value[i])
  {
    if s == [] then Ok([])
    else
      var prefix := Weights(w, s[..|s| - 1]);
      assert forall i :: 0 <= i < |s| - 1 ==> s[..|s| - 1][i] == s[i];
      if prefix.Thrown? then prefix
      else
        match w(s[|s| - 1])
        case Thrown(e) => Thrown(e)
        case Ok(x) => Ok(prefix.value + [x])
  }

  /** One more character with a weight extends the weights by that weight. */
  lemma WeightsSnoc(w: Weigher, s: JString, i: nat)
    requires i < |s| && Weights(w, s[..i]).Ok? && w(s[i]).Ok?
    ensures Weights(w, s[..i + 1]) == Ok(Weights(w, s[..i]).value + [w(s[i]).value])
  {
    assert s[..i + 1][..i] == s[..i];
  }

  /** The weight of a character known to have one. */
  function WeightOf(w: Weigher, c: Char): JByte
    requires w(c).Ok?
  {
    w(c).value
  }

  /** `s` consists of characters that all have a weight. */
  predicate Weighable(w: Weigher, s: JString)
  {
    forall i :: 0 <= i < |s| ==> w(s[i]).Ok?
  }

  /**
   * The order on weight sequences: the signed difference at the first position where they
   * differ, else the difference of their lengths.
   */
  function LexCompare(a: seq<JByte>, b: seq<JByte>): int
  {
    if a == [] || b == [] then |a| - |b|
    else if a[0] != b[0] then a[0] as int - b[0] as int
    else LexCompare(a[1..], b[1..])
  }

  /** At the first differing position the order is the signed weight difference, within [-255, 255]. */
  lemma {:induction false} LexFirstDifference(a: seq<JByte>, b: seq<JByte>, k: nat)
    requires k < |a| && k < |b| && a[..k] == b[..k] && a[k] != b[k]
    ensures LexCompare(a, b) == a[k] as int - b[k] as int
    ensures -255 <= LexCompare(a, b) <= 255 && LexCompare(a, b) != 0
  {
    if k > 0 {
      assert a[0] == a[..k][0] == b[..k][0] == b[0];
      assert a[1..][..k - 1] == a[..k][1..] == b[..k][1..] == b[1..][..k - 1];
      LexFirstDifference(a[1..], b[1..], k - 1);
    }
  }

  /** When one sequence is a prefix of the other, the order is the length difference. */
  lemma {:induction false} LexPrefix(a: seq<JByte>, b: seq<JByte>)
    requires |a| <= |b| && a == b[..|a|]
    ensures LexCompare(a, b) == |a| - |b| && LexCompare(b, a) == |b| - |a|
  {
    if a != [] {
      assert a[0] == b[0];
      assert a[1..] == b[1..][..|a| - 1];
      LexPrefix(a[1..], b[1..]);
    }
  }

  /** Swapping the arguments negates the order. */
  lemma {:induction false} LexAntisymmetric(a: seq<JByte>, b: seq<JByte>)
    ensures LexCompare(b, a) == -LexCompare(a, b)
  {
    if a != [] && b != [] && a[0] == b[0] {
      LexAntisymmetric(a[1..], b[1..]);
    }
  }

  /** The order is zero exactly on equal sequences. */
  lemma {:induction false} LexZeroIff(a: seq<JByte>, b: seq<JByte>)
    ensures LexCompare(a, b) == 0 <==> a == b
  {
    if a != [] && b != [] && a[0] == b[0] {
      LexZeroIff(a[1..], b[1..]);
      assert a == [a[0]] + a[1..] && b == [b[0]] + b[1..];
    }
  }

  /** The order is transitive, so it is a total preorder fit for sorting. */
  lemma {:induction false} LexTransitive(a: seq<JByte>, b: seq<JByte>, c: seq<JByte>)
    requires LexCompare(a, b) < 0 && LexCompare(b, c) < 0
    ensures LexCompare(a, c) < 0
  {
    if a != [] && b != [] && c != [] && a[0] == b[0] && b[0] == c[0] {
      LexTransitive(a[1..], b[1..], c[1..]);
    }
  }

  /** Weights 0x80 to 0xFF are negative bytes, so they order before weights 0x00 to 0x7F. */
  lemma HighWeightsFirst(a: JByte, b: JByte)
    requires Unsigned(a) >= 0x80 && Unsigned(b) < 0x80
    ensures LexCompare([a], [b]) < 0
  {
  }

  // ---------------------------------------------------------------------------------------
  // MySqlCollator.compare
  // ---------------------------------------------------------------------------------------

  /** `compare`'s loop from position `i`: weigh both characters, stop at the first difference. */
  function CompareFrom(w: Weigher, s: JString, t: JString, i: nat): Outcome<int>
    decreases |s| - i
  {
    if i < |s| && i < |t| then
      match w(s[i])
      case Thrown(e) => Thrown(e)
      case Ok(a) =>
        match w(t[i])
        case Thrown(e) => Thrown(e)
        case Ok(b) => if a != b then Ok(a - b) else CompareFrom(w, s, t, i + 1)
    else Ok(|s| - |t|)
  }

  /** `compare(source, target)`: 0 for the same reference (`sameInstance`), else the loop. */
  function Compare(w: Weigher, s: JString, t: JString, sameInstance: bool): Outcome<int>
    requires sameInstance ==> s == t
  {
    if sameInstance then Ok(0) else CompareFrom(w, s, t, 0)
  }

  /** Over weighable strings `compare` is the order of their weight sequences. */
  lemma CompareIsLex(w: Weigher, s: JString, t: JString, sameInstance: bool)
    requires sameInstance ==> s == t
    requires Weighable(w, s) && Weighable(w, t)
    ensures Compare(w, s, t, sameInstance) == Ok(LexCompare(Weights(w, s).value, Weights(w, t).value))
  {
    CompareFromLex(w, s, t, 0);
    assert Weights(w, s).value[0..] == Weights(w, s).value;
    assert Weights(w, t).value[0..] == Weights(w, t).value;
    if sameInstance {
      LexZeroIff(Weights(w, s).value, Weights(w, t).value);
    }
  }

  lemma {:induction false} CompareFromLex(w: Weigher, s: JString, t: JString, i: nat)
    requires Weighable(w, s) && Weighable(w, t) && i <= |s| && i <= |t|
    ensures CompareFrom(w, s, t, i) == Ok(LexCompare(Weights(w, s).value[i..], Weights(w, t).value[i..]))
    decreases |s| - i
  {
    var ws, wt := Weights(w, s).value, Weights(w, t).value;
    if i < |s| && i < |t| {
      assert ws[i..][0] == ws[i] && wt[i..][0] == wt[i];
      if ws[i] == wt[i] {
        CompareFromLex(w, s, t, i + 1);
        assert ws[i..][1..] == ws[i + 1..] && wt[i..][1..] == wt[i + 1..];
      }
    }
  }

  /** `compare(a, b) == -compare(b, a)` for weighable strings. */
  lemma CompareAntisymmetric(w: Weigher, s: JString, t: JString)
    requires Weighable(w, s) && Weighable(w, t)
    ensures Compare(w, s, t, false).Ok? && Compare(w, t, s, false).Ok?
    ensures Compare(w, s, t, false).value == -Compare(w, t, s, false).value
  {
    CompareIsLex(w, s, t, false);
    CompareIsLex(w, t, s, false);
    LexAntisymmetric(Weights(w, s).value, Weights(w, t).value);
  }

  /**
   * `compare` is 0 exactly for strings of equal length with equal weights at every position,
   * and if one weight sequence is a prefix of the other, the shorter string sorts first.
   */
  lemma CompareZeroIff(w: Weigher, s: JString, t: JString)
    requires Weighable(w, s) && Weighable(w, t)
    ensures Compare(w, s, t, false) == Ok(0) <==>
      |s| == |t| && forall i :: 0 <= i < |s| ==> w(s[i]) == w(t[i])
    ensures |s| <= |t| && (forall i :: 0 <= i < |s| ==> w(s[i]) == w(t[i])) ==>
      Compare(w, s, t, false) == Ok(|s| - |t|)
  {
    var ws, wt := Weights(w, s).value, Weights(w, t).value;
    CompareIsLex(w, s, t, false);
    LexZeroIff(ws, wt);
    if |s| <= |t| && (forall i :: 0 <= i < |s| ==> w(s[i]) == w(t[i])) {
      assert ws == wt[..|ws|];
      LexPrefix(ws, wt);
    }
  }

  // ---------------------------------------------------------------------------------------
  // MySqlCollator.equals(String, String)
  // ---------------------------------------------------------------------------------------

  /** `equals`'s loop from position `i` over strings of equal length. */
  function EqualsFrom(w: Weigher, s: JString, t: JString, i: nat): Outcome<bool>
    requires |s| == |t|
    decreases |s| - i
  {
    if i < |s| then
      match w(s[i])
      case Thrown(e) => Thrown(e)
      case Ok(a) =>
        match w(t[i])
        case Thrown(e) => Thrown(e)
        case Ok(b) => if a != b then Ok(false) else EqualsFrom(w, s, t, i + 1)
    else Ok(true)
  }

  /** `equals(source, target)`: true for the same reference, false for different lengths, else the loop. */
  function Equals(w: Weigher, s: JString, t: JString, sameInstance: bool): Outcome<bool>
    requires sameInstance ==> s == t
  {
    if sameInstance then Ok(true)
    else if |s| != |t| then Ok(false)
    else EqualsFrom(w, s, t, 0)
  }

  /** Over weighable strings `equals` holds exactly when `compare` gives 0. */
  lemma EqualsIffCompareZero(w: Weigher, s: JString, t: JString, sameInstance: bool)
    requires sameInstance ==> s == t
    requires Weighable(w, s) && Weighable(w, t)
    ensures Equals(w, s, t, sameInstance) == Ok(Compare(w, s, t, sameInstance) == Ok(0))
  {
    CompareIsLex(w, s, t, sameInstance);
    if |s| == |t| {
      EqualsFromLex(w, s, t, 0);
      assert Weights(w, s).value[0..] == Weights(w, s).value;
      assert Weights(w, t).value[0..] == Weights(w, t).value;
    }
    LexZeroIff(Weights(w, s).value, Weights(w, t).value);
  }

  lemma {:induction false} EqualsFromLex(w: Weigher, s: JString, t: JString, i: nat)
    requires Weighable(w, s) && Weighable(w, t) && |s| == |t| && i <= |s|
    ensures EqualsFrom(w, s, t, i) == Ok(Weights(w, s).value[i..] == Weights(w, t).value[i..])
    decreases |s| - i
  {
    var ws, wt := Weights(w, s).value, Weights(w, t).value;
    if i < |s| {
      EqualsFromLex(w, s, t, i + 1);
      assert ws[i..] == [ws[i]] + ws[i + 1..] && wt[i..] == [wt[i]] + wt[i + 1..];
    }
  }

  /**
   * `equals` and `compare` agree whatever the weigher throws: for strings of one length (or the
   * same instance) `equals` fails exactly where `compare` fails and otherwise holds exactly when
   * `compare` gives 0; for strings of different lengths `equals` is false without weighing,
   * and a `compare` that completes is not 0.
   */
  lemma EqualsAgreesWithCompare(w: Weigher, s: JString, t: JString, sameInstance: bool)
    requires sameInstance ==> s == t
    ensures sameInstance || |s| == |t| ==>
      Equals(w, s, t, sameInstance) == match Compare(w, s, t, sameInstance)
                                       case Thrown(e) => Thrown(e)
                                       case Ok(v) => Ok(v == 0)
    ensures !sameInstance && |s| != |t| ==>
      Equals(w, s, t, sameInstance) == Ok(false)
      && (Compare(w, s, t, sameInstance).Ok? ==> Compare(w, s, t, sameInstance).value != 0)
  {
    if !sameInstance {
      if |s| == |t| {
        EqualsFromAgrees(w, s, t, 0);
      } else {
        CompareFromUnequalLengths(w, s, t, 0);
      }
    }
  }

  lemma {:induction false} EqualsFromAgrees(w: Weigher, s: JString, t: JString, i: nat)
    requires |s| == |t| && i <= |s|
    ensures EqualsFrom(w, s, t, i) == match CompareFrom(w, s, t, i)
                                     case Thrown(e) => Thrown(e)
                                     case Ok(v) => Ok(v == 0)
    decreases |s| - i
  {
    if i < |s| && w(s[i]).Ok? && w(t[i]).Ok? && w(s[i]).value == w(t[i]).value {
      EqualsFromAgrees(w, s, t, i + 1);
    }
  }

  lemma {:induction false} CompareFromUnequalLengths(w: Weigher, s: JString, t: JString, i: nat)
    requires |s| != |t| && i <= |s| && i <= |t|
    ensures CompareFrom(w, s, t, i).Ok? ==> CompareFrom(w, s, t, i).value != 0
    decreases |s| - i
  {
    if i < |s| && i < |t| && w(s[i]).Ok? && w(t[i]).Ok? && w(s[i]).value == w(t[i]).value {
      CompareFromUnequalLengths(w, s, t, i + 1);
    }
  }

  // ---------------------------------------------------------------------------------------
  // MySqlCollator.isMappable
  // ---------------------------------------------------------------------------------------

  /** `isMappable`'s loop from position `i`: false at the first character with a negative index. */
  function MappableFrom(ix: Indexer, s: JString, i: nat): Outcome<bool>
    decreases |s| - i
  {
    if i < |s| then
      match ix(s[i])
      case Thrown(e) => Thrown(e)
      case Ok(v) => if v < 0 then Ok(false) else MappableFrom(ix, s, i + 1)
    else Ok(true)
  }

  /** Where every lookup succeeds, a string is mappable iff every character has an index >= 0. */
  lemma {:induction false} MappableIff(ix: Indexer, s: JString, i: nat)
    requires forall j :: 0 <= j < |s| ==> ix(s[j]).Ok?
    ensures MappableFrom(ix, s, i) == Ok(forall j :: i <= j < |s| ==> ix(s[j]).value >= 0)
    decreases |s| - i
  {
    if i < |s| {
      MappableIff(ix, s, i + 1);
    }
  }

  // ---------------------------------------------------------------------------------------
  // The normalisation table
  // ---------------------------------------------------------------------------------------

  /** A table being built, and the exception that stopped the build, if any. */
  datatype Built = Built(table: seq<Char>, failure: Option<Exception>)

  /** The table's update for character `c` in bucket `b`: 0 means empty, else keep the smaller. */
  function Place(table: seq<Char>, b: nat, c: Char): (t: seq<Char>)
    requires b < |table|
    ensures |t| == |table|
  {
    if table[b] == 0 || table[b] > c then table[b := c] else table
  }

  /**
   * The normalisation table after the characters `chars`, in order: each goes to the bucket
   * `getWeight(c) & 0xFF`.  A weight that throws stops the build, leaving the table so far.
   */
  function BuildTable(w: Weigher, chars: seq<Char>): (b: Built)
    ensures |b.table| == MaxCharacters
  {
    if chars == [] then Built(Zeros(MaxCharacters), None)
    else
      var p := BuildTable(w, chars[..|chars| - 1]);
      var c := chars[|chars| - 1];
      if p.failure.Some? then p
      else
        match w(c)
        case Thrown(e) => Built(p.table, Some(e))
        case Ok(x) => Built(Place(p.table, Unsigned(x), c), None)
  }

  /** `c` is among `chars` and lands in bucket `b`. */
  predicate InBucket(w: Weigher, chars: seq<Char>, b: nat, c: Char)
  {
    c in chars && w(c).Ok? && Unsigned(w(c).value) == b
  }

  /**
   * What a completed build holds: every character had a weight; a bucket holds 0 or one of
   * its own characters, and a bucket with any character holds one of them; a bucket without
   * character 0 holds its smallest character.
   */
  lemma {:induction false} BuildTableBuckets(w: Weigher, chars: seq<Char>)
    requires BuildTable(w, chars).failure.None?
    ensures forall c :: c in chars ==> w(c).Ok?
    ensures var t := BuildTable(w, chars).table;
      forall b :: 0 <= b < MaxCharacters ==>
        && (t[b] == 0 || InBucket(w, chars, b, t[b]))
        && ((exists c :: InBucket(w, chars, b, c)) ==> InBucket(w, chars, b, t[b]))
        && (!InBucket(w, chars, b, 0) ==> forall c :: InBucket(w, chars, b, c) ==> t[b] <= c)
  {
    if chars != [] {
      var prefix := chars[..|chars| - 1];
      var c := chars[|chars| - 1];
      assert chars == prefix + [c];
      BuildTableBuckets(w, prefix);
      var p := BuildTable(w, prefix).table;
      var t := BuildTable(w, chars).table;
      var x := Unsigned(w(c).value);
      forall b | 0 <= b < MaxCharacters
        ensures t[b] == 0 || InBucket(w, chars, b, t[b])
        ensures (exists d :: InBucket(w, chars, b, d)) ==> InBucket(w, chars, b, t[b])
        ensures !InBucket(w, chars, b, 0) ==> forall d :: InBucket(w, chars, b, d) ==> t[b] <= d
      {
        assert forall d :: InBucket(w, chars, b, d) <==> InBucket(w, prefix, b, d) || (d == c && x == b);
        if b != x {
          assert t[b] == p[b];
        }
      }
    }
  }

  /**
   * The order the characters come in matters when character 0 shares a bucket: 0 after a
   * non-zero character resets the bucket to "empty", and the next character then takes it
   * even if it is not the smallest.
   */
  lemma BuildTableOrderDependent(w: Weigher)
    requires w(0) == Ok(0) && w(3) == Ok(0) && w(5) == Ok(0)
    ensures BuildTable(w, [3, 0, 5]).table[0] == 5
    ensures BuildTable(w, [0, 3, 5]).table[0] == 3
  {
    assert [3, 0, 5][..2] == [3, 0] && [3, 0][..1] == [3];
    assert [0, 3, 5][..2] == [0, 3] && [0, 3][..1] == [0];
  }

  // ---------------------------------------------------------------------------------------
  // normalize
  // ---------------------------------------------------------------------------------------

  /** `normalize(s)` with a finished table: each character replaced by its bucket's entry. */
  function NormalizeWith(w: Weigher, table: seq<Char>, s: JString): (r: Outcome<JString>)
    requires |table| == MaxCharacters
    ensures r.Ok? <==> Weighable(w, s)
    ensures r.Ok? ==> (|r.value| == |s|
      && forall i :: 0 <= i < |s| ==> r.value[i] == table[Unsigned(w(s[i]).value)])
  {
    if s == [] then Ok([])
    else
      var prefix := NormalizeWith(w, table, s[..|s| - 1]);
      assert forall i :: 0 <= i < |s| - 1 ==> s[..|s| - 1][i] == s[i];
      if prefix.Thrown? then prefix
      else
        match w(s[|s| - 1])
        case Thrown(e) => Thrown(e)
        case Ok(x) => Ok(prefix.value + [table[Unsigned(x)]])
  }

  /**
   * Normalising with a completed table keeps every weight of a string drawn from the table's
   * characters, and normalising again changes nothing.
   */
  lemma NormalizeIdempotent(w: Weigher, chars: seq<Char>, s: JString)
    requires BuildTable(w, chars).failure.None?
    requires forall i :: 0 <= i < |s| ==> s[i] in chars
    ensures var table := BuildTable(w, chars).table;
      var n := NormalizeWith(w, table, s);
      && n.Ok?
      && (forall i :: 0 <= i < |s| ==> n.value[i] in chars && w(n.value[i]) == w(s[i]))
      && NormalizeWith(w, table, n.value) == n
  {
    var table := BuildTable(w, chars).table;
    BuildTableBuckets(w, chars);
    var n := NormalizeWith(w, table, s);
    forall i | 0 <= i < |s| ensures n.value[i] in chars && w(n.value[i]) == w(s[i]) {
      var b := Unsigned(w(s[i]).value);
      assert InBucket(w, chars, b, s[i]);
      assert InBucket(w, chars, b, table[b]);
      UnsignedInjective(w(n.value[i]).value, w(s[i]).value);
    }
    var n2 := NormalizeWith(w, table, n.value);
    assert n2.value == n.value;
  }

  // ---------------------------------------------------------------------------------------
  // MySqlCollationKey's hash
  // ---------------------------------------------------------------------------------------

  /** The key constructor's hash: `h := 31 * h + w` from `h = 1`, in 32-bit `int` arithmetic. */
  function HashOf(ws: seq<JByte>): JInt
  {
    if ws == [] then 1 else WrapInt(31 * HashOf(ws[..|ws| - 1]) + ws[|ws| - 1])
  }

  /** The hash of one more weight folds it in as `31 * h + w`. */
  lemma HashSnoc(ws: seq<JByte>, b: JByte)
    ensures HashOf(ws + [b]) == WrapInt(31 * HashOf(ws) + b)
  {
    assert (ws + [b])[..|ws|] == ws;
  }

  /** The same polynomial over unbounded integers: `31^n + sum of ws[i] * 31^(n-1-i)`. */
  function Polynomial(ws: seq<JByte>): int
  {
    if ws == [] then 1 else 31 * Polynomial(ws[..|ws| - 1]) + ws[|ws| - 1]
  }

  lemma WrapIntShift(b: int, k: int)
    ensures WrapInt(b + k * 0x1_0000_0000) == WrapInt(b)
  {
  }

  /** The wrapped-around hash is the polynomial reduced to 32-bit two's complement. */
  lemma {:induction false} HashIsWrappedPolynomial(ws: seq<JByte>)
    ensures HashOf(ws) == WrapInt(Polynomial(ws))
  {
    if ws != [] {
      var prefix, x := ws[..|ws| - 1], ws[|ws| - 1];
      HashIsWrappedPolynomial(prefix);
      var h, p := HashOf(prefix), Polynomial(prefix);
      var k := (h - p) / 0x1_0000_0000;
      assert h == p + k * 0x1_0000_0000;
      WrapIntShift(31 * p + x, 31 * k);
    }
  }

  // ---------------------------------------------------------------------------------------
  // The collator scenario of the tests
  // ---------------------------------------------------------------------------------------

  /**
   * Under a case-insensitive collation such as latin1_swedish_ci, where 'f' and 'F' share a
   * weight: "foobar" equals "Foobar" and their keys hold the same weights (so the keys are
   * equal and hash alike), while "foo bar" is never equal to "foobar" and never has its key.
   */
  lemma CaseInsensitiveScenario(w: Weigher)
    requires Weighable(w, Str("foobar")) && w('F' as int) == w('f' as int)
    ensures Equals(w, Str("foobar"), Str("Foobar"), false) == Ok(true)
    ensures Compare(w, Str("foobar"), Str("Foobar"), false) == Ok(0)
    ensures Weights(w, Str("foobar")) == Weights(w, Str("Foobar"))
    ensures Equals(w, Str("foobar"), Str("foo bar"), false) == Ok(false)
    ensures Weights(w, Str("foobar")) != Weights(w, Str("foo bar"))
  {
    var s, t := Str("foobar"), Str("Foobar");
    assert forall i :: 0 <= i < |s| ==> w(s[i]) == w(t[i]) by {
      assert t[0] == 'F' as int && s[0] == 'f' as int;
      assert forall i :: 1 <= i < |s| ==> s[i] == t[i];
    }
    assert Weighable(w, t);
    CompareZeroIff(w, s, t);
    EqualsIffCompareZero(w, s, t, false);
    var ws, wt := Weights(w, s).value, Weights(w, t).value;
    assert ws == wt;
    assert |Str("foo bar")| == 7;
  }
}
