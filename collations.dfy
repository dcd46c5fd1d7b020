/**
 * Charsets, collations, the collator and collation keys.
 *
 * Two generations of charset and collation classes live side by side: the `xml` ones (loaded
 * from MySQL's charset files, looking characters up through tables built from the `unicode`
 * map) and the top-level ones (which take their index space from a `java.nio` charset and
 * cache it in two tables).  The collator works over either kind of collation, and so do
 * collation keys; `CollationRef` names the collation a collator or key belongs to.  These
 * classes refer to each other both ways, so they share one module.
 */
module Collations {
  import opened Java
  import opened HexMaps
  import opened Lookup
  import opened Collating
  import opened CharacterMaps
  import CharsetUtils

  /** The collation of a collator or key: of either generation. */
  datatype CollationRef = XmlRef(xml: XmlCollation) | LegacyRef(legacy: LegacyCollation)

  // =========================================================================================
  // xml.MySqlCharset
  // =========================================================================================

  /** `toIndex` over the character-to-index table: -1 for a character not in it. */
  function XmlIndex(charToIndex: Option<map<Char, int>>, c: Char): Outcome<int>
  {
    match charToIndex
    case None => Thrown(NullPointer)
    case Some(m) => Ok(if c in m then m[c] else -1)
  }

  /** The characters of the first `MAX_CHARACTERS` unicode map values the lookup is built from. */
  function UnicodeChars(values: Option<seq<int>>): seq<Char>
  {
    match values
    case None => []
    case Some(vs) => IndexChars(vs, if |vs| < MaxCharacters then |vs| else MaxCharacters)
  }

  class XmlCharset {
    var name: Name
    var ctype: XmlCharacterMap?
    var lower: XmlCharacterMap?
    var upper: XmlCharacterMap?
    var unicode: XmlCharacterMap?
    var collations: Option<map<Name, XmlCollation>>
    /** `_indexToChar`: the character of each index. */
    var indexToChar: Option<seq<Char>>
    /** `_charToIndex`: the index of each character. */
    var charToIndex: Option<map<Char, int>>

    constructor ()
      ensures name.None? && ctype == null && lower == null && upper == null && unicode == null
      ensures collations.None? && indexToChar.None? && charToIndex.None?
    {
      name := None;
      ctype, lower, upper, unicode := null, null, null, null;
      collations := None;
      indexToChar, charToIndex := None, None;
    }

    /**
     * The lookup tables were built from the current unicode map, which has a value for each
     * of the 256 indexes: index `i` stands for `(char) unicode[i]`, and each character of the
     * table maps back to an index.
     */
    ghost predicate LookupBuilt()
      reads this, unicode
    {
      && unicode != null && unicode.values.Some? && |unicode.values.value| >= MaxCharacters
      && indexToChar == Some(UnicodeChars(unicode.values))
      && charToIndex == Some(CharToIndex(indexToChar.value))
    }

    /**
     * `setUnicode(unicode)` with `initCharLookup()`: a null map clears both tables; otherwise
     * fresh tables are published and filled index by index from the map's values.  A map
     * without values, or with fewer than 256, throws at the first missing index and leaves
     * the tables filled up to it.
     */
    method SetUnicode(u: XmlCharacterMap?) returns (r: Outcome<()>)
      modifies this
      ensures unicode == u && name == old(name) && collations == old(collations)
      ensures ctype == old(ctype) && lower == old(lower) && upper == old(upper)
      ensures u == null ==> r.Ok? && indexToChar.None? && charToIndex.None?
      ensures u != null ==>
        var chars := UnicodeChars(u.values);
        && indexToChar == Some(chars + Zeros(MaxCharacters - |chars|))
        && charToIndex == Some(CharToIndex(chars))
        && (u.values.None? ==> r == Thrown(IllegalState("no map set")))
        && (u.values.Some? && |u.values.value| < MaxCharacters ==> r == Thrown(ArrayIndexOutOfBounds(|u.values.value|)))
        && (u.values.Some? && |u.values.value| >= MaxCharacters ==> r.Ok? && LookupBuilt())
    {
      unicode := u;
      if u == null {
        indexToChar, charToIndex := None, None;
        return Ok(());
      }
      indexToChar := Some(Zeros(MaxCharacters));
      charToIndex := Some(map[]);
      ghost var chars := UnicodeChars(u.values);
      assert chars[..0] + Zeros(MaxCharacters) == Zeros(MaxCharacters);
      for i := 0 to MaxCharacters
        invariant unicode == u && name == old(name) && collations == old(collations)
        invariant ctype == old(ctype) && lower == old(lower) && upper == old(upper)
        invariant i <= |chars|
        invariant indexToChar == Some(chars[..i] + Zeros(MaxCharacters - i))
        invariant charToIndex == Some(CharToIndex(chars[..i]))
      {
        var v := u.GetValue(i);
        if v.Thrown? {
          assert chars[..i] == chars;
          return Thrown(v.exc);
        }
        var c := Java.ToChar(v.value);
        FillStep(chars, i);
        indexToChar := Some(indexToChar.value[i := c]);
        charToIndex := Some(charToIndex.value[c := i]);
      }
      assert chars[..MaxCharacters] == chars;
      assert Zeros(0) == [];
      assert indexToChar.value == chars;
      return Ok(());
    }

    /**
     * `toIndex(c)`: the index the lookup holds for `c`, or -1 for an unmappable character.
     * Over built tables, -1 exactly for characters not in the index table; otherwise the
     * highest index holding `c`.
     */
    function ToIndex(c: Char): (r: Outcome<int>)
      reads this, unicode
      ensures charToIndex.None? ==> r == Thrown(NullPointer)
      ensures LookupBuilt() ==> r.Ok? && (r.value == -1 <==> c !in indexToChar.value)
      ensures LookupBuilt() && c in indexToChar.value ==>
        && 0 <= r.value < MaxCharacters && indexToChar.value[r.value] == c
        && forall j :: r.value < j < MaxCharacters ==> indexToChar.value[j] != c
    {
      XmlIndex(charToIndex, c)
    }

    /** `toChar(index)`: after `setUnicode(u)` index `i` of [0, 256) gives `(char) u[i]`. */
    function ToChar(index: int): (r: Outcome<Char>)
      reads this, unicode
      ensures indexToChar.None? ==> r == Thrown(NullPointer)
      ensures LookupBuilt() && !(0 <= index < MaxCharacters) ==> r == Thrown(ArrayIndexOutOfBounds(index))
      ensures LookupBuilt() && 0 <= index < MaxCharacters ==> r == Ok(Java.ToChar(unicode.values.value[index]))
    {
      match indexToChar
      case None => Thrown(NullPointer)
      case Some(t) => if 0 <= index < |t| then Ok(t[index]) else Thrown(ArrayIndexOutOfBounds(index))
    }

    /** For every mappable character `c`, `toChar(toIndex(c)) == c`. */
    lemma ToCharToIndex(c: Char)
      requires LookupBuilt() && c in indexToChar.value
      ensures ToIndex(c).Ok? && ToChar(ToIndex(c).value) == Ok(c)
    {
    }

    /** With pairwise distinct unicode values, `toIndex(toChar(i)) == i` for every index. */
    lemma ToIndexToChar(i: int)
      requires LookupBuilt() && 0 <= i < MaxCharacters
      requires forall j, k :: 0 <= j < k < MaxCharacters ==> indexToChar.value[j] != indexToChar.value[k]
      ensures ToChar(i).Ok? && ToIndex(ToChar(i).value) == Ok(i)
    {
      CharToIndexInverts(indexToChar.value, i);
    }

    /**
     * `toUnicode(c)`: `(char) unicode[toIndex(c)]`, which gives `c` back for a mappable
     * character; an unmappable one fails at index -1.
     */
    function ToUnicode(c: Char): (r: Outcome<Char>)
      reads this, unicode
      ensures LookupBuilt() && c in indexToChar.value ==> r == Ok(c)
      ensures LookupBuilt() && c !in indexToChar.value ==> r == Thrown(ArrayIndexOutOfBounds(-1))
    {
      match ToIndex(c)
      case Thrown(e) => Thrown(e)
      case Ok(i) =>
        if unicode == null then Thrown(NullPointer)
        else
          match unicode.GetValue(i)
          case Thrown(e) => Thrown(e)
          case Ok(v) => Ok(Java.ToChar(v))
    }

    /** A case map applied through the index space: index of `c`, map entry, back to a character. */
    function Translate(m: XmlCharacterMap?, c: Char): Outcome<Char>
      reads this, unicode, m
    {
      match ToIndex(c)
      case Thrown(e) => Thrown(e)
      case Ok(i) =>
        if m == null then Thrown(NullPointer)
        else
          match m.GetValue(i)
          case Thrown(e) => Thrown(e)
          case Ok(v) => ToChar(v)
    }

    /**
     * `toLower(c)`: `toChar(lower[toIndex(c)])`.  For a mappable character whose lower-case
     * entry is an index, that index's character; an unmappable character fails at index -1.
     */
    function ToLower(c: Char): (r: Outcome<Char>)
      reads this, unicode, lower
      ensures LookupBuilt() && lower != null && lower.values.Some? ==>
        var lv := lower.values.value;
        && (c !in indexToChar.value ==> r == Thrown(ArrayIndexOutOfBounds(-1)))
        && (c in indexToChar.value && ToIndex(c).value < |lv| && 0 <= lv[ToIndex(c).value] < MaxCharacters ==>
              r == Ok(Java.ToChar(unicode.values.value[lv[ToIndex(c).value]])))
    {
      Translate(lower, c)
    }

    /** `toUpper(c)`: `toChar(upper[toIndex(c)])`, like `toLower` with the upper-case map. */
    function ToUpper(c: Char): (r: Outcome<Char>)
      reads this, unicode, upper
      ensures LookupBuilt() && upper != null && upper.values.Some? ==>
        var uv := upper.values.value;
        && (c !in indexToChar.value ==> r == Thrown(ArrayIndexOutOfBounds(-1)))
        && (c in indexToChar.value && ToIndex(c).value < |uv| && 0 <= uv[ToIndex(c).value] < MaxCharacters ==>
              r == Ok(Java.ToChar(unicode.values.value[uv[ToIndex(c).value]])))
    {
      Translate(upper, c)
    }

    /**
     * The eight character type predicates (`isUpperCaseWordChar` ... `isHexDigit`): the flag's
     * bit of `ctype[toIndex(c) + 1]`, the map having a leading sentinel entry.  An unmappable
     * character reads the sentinel `ctype[0]` instead of failing.
     */
    function IsCtype(f: CtypeFlag, c: Char): (r: Outcome<bool>)
      reads this, unicode, ctype
      ensures LookupBuilt() && ctype != null && ctype.values.Some? && ctype.values.value != [] ==>
        var cv := ctype.values.value;
        && (c !in indexToChar.value ==> r == Ok(TestMask(cv[0], f)))
        && (c in indexToChar.value && ToIndex(c).value + 1 < |cv| ==> r == Ok(TestMask(cv[ToIndex(c).value + 1], f)))
    {
      match ToIndex(c)
      case Thrown(e) => Thrown(e)
      case Ok(i) =>
        if ctype == null then Thrown(NullPointer)
        else
          match ctype.GetValue(i + 1)
          case Thrown(e) => Thrown(e)
          case Ok(v) => Ok(TestMask(v, f))
    }

    /**
     * `add(collation)`: creates the map on first use and puts the collation under its name.
     * A name already present throws `IllegalArgumentException`, the new collation having
     * replaced the old one; otherwise the collation's charset becomes this charset.
     */
    method Add(collation: XmlCollation?) returns (r: Outcome<()>)
      modifies this, collation
      ensures name == old(name) && unicode == old(unicode) && indexToChar == old(indexToChar)
      ensures charToIndex == old(charToIndex) && ctype == old(ctype) && lower == old(lower) && upper == old(upper)
      ensures var before := if old(collations).Some? then old(collations).value else map[];
        && (collation == null ==> r == Thrown(NullPointer) && collations == Some(before))
        && (collation != null ==>
              && collations == Some(before[collation.name := collation])
              && collation.name == old(collation.name)
              && (collation.name in before ==>
                    r == Thrown(IllegalArgument("duplicate collation name: " + NameText(collation.name)))
                    && collation.charset == old(collation.charset))
              && (collation.name !in before ==> r.Ok? && collation.charset == this))
    {
      if collations.None? {
        collations := Some(map[]);
      }
      if collation == null {
        return Thrown(NullPointer);
      }
      var previous := collations.value;
      collations := Some(previous[collation.name := collation]);
      if collation.name in previous {
        return Thrown(IllegalArgument("duplicate collation name: " + NameText(collation.name)));
      }
      collation.charset := this;
      return Ok(());
    }

    /**
     * `getCharacters()`: the index-to-character table itself (not a copy).  Null before
     * `setUnicode`; after `setUnicode` with a full map, entry `i` is `(char) unicode[i]` for
     * each of the 256 indexes, the character `toChar(i)` gives.
     */
    function GetCharacters(): (r: Option<seq<Char>>)
      reads this, unicode
      ensures indexToChar.None? ==> r.None?
      ensures LookupBuilt() ==>
        && r.Some? && |r.value| == MaxCharacters
        && forall i :: 0 <= i < MaxCharacters ==>
             r.value[i] == Java.ToChar(unicode.values.value[i]) && ToChar(i) == Ok(r.value[i])
    {
      indexToChar
    }
  }

  /** Filling index `i` of the lookup tables extends both by the character at `i`. */
  lemma FillStep(chars: seq<Char>, i: nat)
    requires i < |chars| <= MaxCharacters
    ensures (chars[..i] + Zeros(MaxCharacters - i))[i := chars[i]] == chars[..i + 1] + Zeros(MaxCharacters - (i + 1))
    ensures CharToIndex(chars[..i])[chars[i] := i] == CharToIndex(chars[..i + 1])
  {
    assert chars[..i + 1][..i] == chars[..i];
  }

  // =========================================================================================
  // xml.MySqlCollation
  // =========================================================================================

  /**
   * `getWeight(c)` of an `xml` collation: `(byte) getValue(getCharset().toIndex(c))`.  The
   * lookup runs first (null charset or missing tables throw `NullPointerException`), then the
   * weight map access (no map, or an index out of range such as -1).
   */
  function XmlWeight(values: Option<seq<int>>, charToIndex: Option<Option<map<Char, int>>>, c: Char): Outcome<JByte>
  {
    match charToIndex
    case None => Thrown(NullPointer)
    case Some(lookup) =>
      match XmlIndex(lookup, c)
      case Thrown(e) => Thrown(e)
      case Ok(i) =>
        if values.None? then Thrown(IllegalState("no map set"))
        else
          match ValueAt(values.value, i)
          case Thrown(e) => Thrown(e)
          case Ok(v) => Ok(ToByte(v))
  }

  /** The lookup table of a possibly null charset. */
  function LookupOf(cs: XmlCharset?): Option<Option<map<Char, int>>>
    reads cs
  {
    if cs == null then None else Some(cs.charToIndex)
  }

  /** The weight function of an `xml` collation with weight map `m` over charset `cs`. */
  function XmlWeigher(m: XmlCharacterMap, cs: XmlCharset?): Weigher
    reads m, cs
  {
    var values, lookup := m.values, LookupOf(cs);
    c => XmlWeight(values, lookup, c)
  }

  /** The characters the normalisation table is built from, and the table a build leaves. */
  function XmlBuild(m: XmlCharacterMap, cs: XmlCharset?): (b: Built)
    reads m, cs
    ensures |b.table| == MaxCharacters
  {
    if cs == null || cs.indexToChar.None? then Built(Zeros(MaxCharacters), Some(NullPointer))
    else BuildTable(XmlWeigher(m, cs), cs.indexToChar.value)
  }

  class XmlCollation {
    var name: Name
    var flag: Option<string>
    /** The collation is a character map (it extends `MySqlCharacterMap`): its weights by index. */
    const weightMap: XmlCharacterMap
    var charset: XmlCharset?
    var collator: Collator?
    /** `_normalize`: the lowest character of each weight, built on first use. */
    var normalizeTable: Option<seq<Char>>

    ghost predicate Valid()
      reads this, collator
    {
      && (normalizeTable.Some? ==> |normalizeTable.value| == MaxCharacters)
      && (collator != null ==> collator.collation == XmlRef(this))
    }

    constructor ()
      ensures Valid() && fresh(weightMap) && weightMap.values.None?
      ensures name.None? && flag.None? && charset == null && collator == null && normalizeTable.None?
    {
      name, flag := None, None;
      weightMap := new XmlCharacterMap();
      charset, collator := null, null;
      normalizeTable := None;
    }

    /** `setMap(map)`, inherited from the character map. */
    method SetMap(mapText: Option<string>) returns (r: Outcome<()>)
      modifies weightMap
      ensures mapText.None? ==> r.Ok? && weightMap.values.None?
      ensures mapText.Some? && ParseMap(mapText.value).Ok? ==> r.Ok? && weightMap.values == Some(ParseMap(mapText.value).value)
      ensures mapText.Some? && ParseMap(mapText.value).Thrown? ==>
        r == Thrown(ParseMap(mapText.value).exc) && weightMap.values == old(weightMap.values)
    {
      r := weightMap.SetMap(mapText);
      if mapText.Some? && ParseMap(mapText.value).Ok? {
        ParseMapOk(mapText.value, weightMap.values.value);
      }
    }

    /**
     * `getWeight(c)`: the collation map's entry at the charset's index of `c`, cut to a signed
     * byte.  Unmappable characters fail out of range at -1, and a missing map with
     * `IllegalStateException`.
     */
    function GetWeight(c: Char): (r: Outcome<JByte>)
      reads this, weightMap, charset, if charset == null then null else charset.unicode
      ensures charset == null ==> r == Thrown(NullPointer)
      ensures charset != null ==> r == match charset.ToIndex(c)
                                       case Thrown(e) => Thrown(e)
                                       case Ok(i) =>
                                         match weightMap.GetValue(i)
                                         case Thrown(e) => Thrown(e)
                                         case Ok(v) => Ok(ToByte(v))
      ensures r == XmlWeigher(weightMap, charset)(c)
    {
      XmlWeight(weightMap.values, LookupOf(charset), c)
    }

    /**
     * `getNormalize()`: the table is built once.  It is published before it is filled, so a
     * build stopped by an exception leaves the partial table in place for later calls.
     */
    method GetNormalize() returns (r: Outcome<seq<Char>>)
      requires Valid()
      modifies this
      ensures Valid()
      ensures name == old(name) && flag == old(flag) && charset == old(charset) && collator == old(collator)
      ensures old(normalizeTable).Some? ==> normalizeTable == old(normalizeTable) && r == Ok(normalizeTable.value)
      ensures old(normalizeTable).None? ==>
        var b := XmlBuild(weightMap, charset);
        && normalizeTable == Some(b.table)
        && r == (if b.failure.Some? then Thrown(b.failure.value) else Ok(b.table))
    {
      if normalizeTable.Some? {
        return Ok(normalizeTable.value);
      }
      normalizeTable := Some(Zeros(MaxCharacters));
      if charset == null || charset.GetCharacters().None? {
        return Thrown(NullPointer);
      }
      var chars := charset.GetCharacters().value;
      ghost var w := XmlWeigher(weightMap, charset);
      for i := 0 to |chars|
        invariant name == old(name) && flag == old(flag) && charset == old(charset) && collator == old(collator)
        invariant normalizeTable == Some(BuildTable(w, chars[..i]).table)
        invariant BuildTable(w, chars[..i]).failure.None?
      {
        var c := chars[i];
        assert chars[..i + 1][..i] == chars[..i];
        var x := GetWeight(c);
        if x.Thrown? {
          BuildStops(w, chars, i);
          return Thrown(x.exc);
        }
        var index := Unsigned(x.value);
        var current := normalizeTable.value[index];
        if current == 0 || current > c {
          normalizeTable := Some(normalizeTable.value[index := c]);
        }
      }
      assert chars[..|chars|] == chars;
      return Ok(normalizeTable.value);
    }

    /**
     * `normalize(s)`: null for null; otherwise each character replaced by the table entry of
     * its weight bucket `getWeight(c) & 0xFF`, the table being built first if need be.
     */
    method Normalize(s: Option<JString>) returns (r: Outcome<Option<JString>>)
      requires Valid()
      modifies this
      ensures Valid() && charset == old(charset) && collator == old(collator) && name == old(name)
      ensures s.None? ==> r == Ok(None) && normalizeTable == old(normalizeTable)
      ensures s.Some? && old(normalizeTable).None? ==> normalizeTable == Some(XmlBuild(weightMap, charset).table)
      ensures s.Some? && old(normalizeTable).Some? ==> normalizeTable == old(normalizeTable)
      ensures s.Some? ==>
        r == if old(normalizeTable).None? && XmlBuild(weightMap, charset).failure.Some?
             then Thrown(XmlBuild(weightMap, charset).failure.value)
             else match NormalizeWith(XmlWeigher(weightMap, charset), normalizeTable.value, s.value)
                  case Ok(n) => Ok(Some(n))
                  case Thrown(e) => Thrown(e)
    {
      if s.None? {
        return Ok(None);
      }
      var table := GetNormalize();
      if table.Thrown? {
        return Thrown(table.exc);
      }
      var t := table.value;
      var str := s.value;
      ghost var w := XmlWeigher(weightMap, charset);
      var buf: JString := [];
      for i := 0 to |str|
        invariant NormalizeWith(w, t, str[..i]) == Ok(buf)
      {
        assert str[..i + 1][..i] == str[..i];
        var x := GetWeight(str[i]);
        if x.Thrown? {
          NormalizeStops(w, t, str, i);
          return Thrown(x.exc);
        }
        buf := buf + [t[Unsigned(x.value)]];
      }
      assert str[..|str|] == str;
      return Ok(Some(buf));
    }

    /** `getCollatorInstance()`: creates the collator on first use and returns it ever after. */
    method GetCollatorInstance() returns (r: Collator)
      modifies this
      ensures collator == r
      ensures old(collator) != null ==> r == old(collator)
      ensures old(collator) == null ==> fresh(r) && r.collation == XmlRef(this)
      ensures old(Valid()) ==> Valid() && r.collation == XmlRef(this)
      ensures name == old(name) && charset == old(charset) && normalizeTable == old(normalizeTable)
    {
      if collator == null {
        collator := new Collator(XmlRef(this));
      }
      return collator;
    }
  }

  /** A build that meets a failing weight at position `i` stops there, with the table so far. */
  lemma {:induction false} BuildStops(w: Weigher, chars: seq<Char>, i: nat)
    requires i < |chars| && w(chars[i]).Thrown?
    requires BuildTable(w, chars[..i]).failure.None?
    ensures BuildTable(w, chars).table == BuildTable(w, chars[..i]).table
    ensures BuildTable(w, chars).failure == Some(w(chars[i]).exc)
    decreases |chars| - i
  {
    if |chars| == i + 1 {
      assert chars[..|chars| - 1] == chars[..i];
    } else {
      assert chars[..|chars| - 1][..i] == chars[..i];
      BuildStops(w, chars[..|chars| - 1], i);
    }
  }

  /** Normalising stops at the first character without a weight. */
  lemma {:induction false} NormalizeStops(w: Weigher, table: seq<Char>, s: JString, i: nat)
    requires |table| == MaxCharacters
    requires i < |s| && w(s[i]).Thrown? && NormalizeWith(w, table, s[..i]).Ok?
    ensures NormalizeWith(w, table, s) == Thrown(w(s[i]).exc)
    decreases |s| - i
  {
    if |s| == i + 1 {
      assert s[..|s| - 1] == s[..i];
    } else {
      assert s[..|s| - 1][..i] == s[..i];
      NormalizeStops(w, table, s[..|s| - 1], i);
    }
  }

  // =========================================================================================
  // MySqlCharset (top level)
  // =========================================================================================

  /**
   * The `java.nio` charset behind a top-level charset, reduced to what the model uses: the
   * index the bytes of one encoded character spell (big-endian), and the first character a
   * byte sequence decodes to.
   */
  datatype NioCharset = NioCharset(encodeIndex: Char -> JInt, decode: seq<JByte> -> Char)

  /** `x >> n` on `int`: an arithmetic shift by the distance's low five bits. */
  function ShiftRight(x: int, n: int): int
  {
    x / Pow2(n % 32)
  }

  /** Byte `i` that `toBytes` writes for `index`: `(byte) ((index >> (3 - i) * 8) & 0xFF)`. */
  function ByteAt(index: int, i: int): JByte
  {
    ToByte(ShiftRight(index, (3 - i) * 8) % 0x100)
  }

  /** The four bytes `toChar` has `toBytes` write: the base-256 digits of the index, high first. */
  function Bytes4(index: int): (bs: seq<JByte>)
    ensures |bs| == 4
  {
    [ToByte(index / 0x100_0000 % 0x100), ToByte(index / 0x1_0000 % 0x100), ToByte(index / 0x100 % 0x100), ToByte(index % 0x100)]
  }

  /** They are the bytes `toBytes` writes into an array of four. */
  lemma Bytes4AreShifts(index: int)
    ensures forall i :: 0 <= i < 4 ==> Bytes4(index)[i] == ByteAt(index, i)
  {
    Pow2Bytes();
  }

  /** The shift distances `toBytes` uses, as divisors. */
  lemma Pow2Bytes()
    ensures Pow2(0) == 1 && Pow2(8) == 0x100 && Pow2(16) == 0x1_0000 && Pow2(24) == 0x100_0000
  {
    assert Pow2(1) == 2 && Pow2(2) == 4 && Pow2(3) == 8 && Pow2(4) == 0x10;
    assert Pow2(5) == 0x20 && Pow2(6) == 0x40 && Pow2(7) == 0x80 && Pow2(8) == 0x100;
    assert Pow2(9) == 0x200 && Pow2(10) == 0x400 && Pow2(11) == 0x800 && Pow2(12) == 0x1000;
    assert Pow2(13) == 0x2000 && Pow2(14) == 0x4000 && Pow2(15) == 0x8000 && Pow2(16) == 0x1_0000;
    assert Pow2(17) == 0x2_0000 && Pow2(18) == 0x4_0000 && Pow2(19) == 0x8_0000 && Pow2(20) == 0x10_0000;
    assert Pow2(21) == 0x20_0000 && Pow2(22) == 0x40_0000 && Pow2(23) == 0x80_0000;
  }

  /** The position of the first non-zero byte, or -1 when all are zero. */
  function FirstNonZero(bs: seq<JByte>): (f: int)
    ensures -1 <= f < |bs|
    ensures f == -1 ==> forall i :: 0 <= i < |bs| ==> bs[i] == 0
    ensures f >= 0 ==> bs[f] != 0 && forall i :: 0 <= i < f ==> bs[i] == 0
  {
    if bs == [] then -1
    else if bs[0] != 0 then 0
    else
      var f := FirstNonZero(bs[1..]);
      if f < 0 then -1 else f + 1
  }

  /** The first non-zero position is the only one with the properties it promises. */
  lemma FirstNonZeroUnique(bs: seq<JByte>, f: int)
    requires -1 <= f < |bs|
    requires f == -1 ==> forall i :: 0 <= i < |bs| ==> bs[i] == 0
    requires f >= 0 ==> bs[f] != 0 && forall i :: 0 <= i < f ==> bs[i] == 0
    ensures f == FirstNonZero(bs)
  {
  }


  /**
   * The slow path of `toChar(index)`: an index whose bytes are all zero is character 0, any
   * other decodes from its first non-zero byte on.
   */
  function SlowChar(nio: NioCharset, index: int): Char
  {
    var bs := Bytes4(index);
    var f := FirstNonZero(bs);
    if f < 0 then 0 else nio.decode(bs[f..])
  }

  /**
   * The four bytes of an `int` are its big-endian representation: together they spell the
   * index modulo 2^32, and they are all zero exactly for index 0.
   */
  lemma ToBytesBigEndian(index: JInt)
    ensures var bs := Bytes4(index);
      Unsigned(bs[0]) * 0x100_0000 + Unsigned(bs[1]) * 0x1_0000 + Unsigned(bs[2]) * 0x100 + Unsigned(bs[3])
        == index % 0x1_0000_0000
    ensures FirstNonZero(Bytes4(index)) == -1 <==> index == 0
  {
    var bs := Bytes4(index);
    var d0, d1, d2, d3 := index / 0x100_0000 % 0x100, index / 0x1_0000 % 0x100, index / 0x100 % 0x100, index % 0x100;
    UnsignedToByte(d0);
    UnsignedToByte(d1);
    UnsignedToByte(d2);
    UnsignedToByte(d3);
    DigitsSpell(index);
    if FirstNonZero(bs) == -1 {
      assert bs[0] == 0 && bs[1] == 0 && bs[2] == 0 && bs[3] == 0;
    }
    if index == 0 {
      assert bs == [0, 0, 0, 0];
    }
  }

  lemma UnsignedToByte(z: int)
    requires 0 <= z < 0x100
    ensures Unsigned(ToByte(z)) == z
  {
  }

  /** Four base-256 digits spell the number modulo 2^32. */
  lemma DigitsSpell(x: int)
    ensures (x / 0x100_0000 % 0x100) * 0x100_0000 + (x / 0x1_0000 % 0x100) * 0x1_0000
            + (x / 0x100 % 0x100) * 0x100 + x % 0x100 == x % 0x1_0000_0000
  {
    var q1 := x / 0x100;
    var q2 := q1 / 0x100;
    var q3 := q2 / 0x100;
    var q4 := q3 / 0x100;
    assert x / 0x1_0000 == q2;
    assert x / 0x100_0000 == q3;
    assert x / 0x1_0000_0000 == q4;
  }

  /** The outcome of `getCharset()`: the charset once loaded, else loading it by name. */
  function NioOf(name: Name, nio: Option<NioCharset>, forName: string -> Outcome<NioCharset>): Outcome<NioCharset>
  {
    if nio.Some? then Ok(nio.value)
    else if name.None? then Thrown(NullPointer)
    else forName(name.value)
  }

  /** The 256 characters `initCharset` puts in the character table. */
  function CharsOf(nio: NioCharset): (cs: seq<Char>)
    ensures |cs| == MaxCharacters
  {
    CharsUpTo(nio, MaxCharacters)
  }

  /** The characters the first `n` indexes decode to, in index order. */
  function CharsUpTo(nio: NioCharset, n: nat): (cs: seq<Char>)
    ensures |cs| == n
  {
    if n == 0 then [] else CharsUpTo(nio, n - 1) + [SlowChar(nio, n - 1)]
  }

  /** Entry `i` of the character table is what index `i` decodes to. */
  lemma {:induction false} CharsUpToIndex(nio: NioCharset, n: nat, i: nat)
    requires i < n
    ensures CharsUpTo(nio, n)[i] == SlowChar(nio, i)
  {
    if i < n - 1 {
      CharsUpToIndex(nio, n - 1, i);
    }
  }

  class LegacyCharset {
    var name: Name
    var ctype: CharacterMap?
    var lower: CharacterMap?
    var upper: CharacterMap?
    var unicode: CharacterMap?
    var collations: Option<map<Name, LegacyCollation>>
    /** `Charset.forName`: the nio charset of a name, or what looking it up throws. */
    const forName: string -> Outcome<NioCharset>
    /** `_charset`, loaded on first use. */
    var nio: Option<NioCharset>
    /** `_charTable`: `toChar(i)` for each index, filled by `initCharset`. */
    var charTable: Option<seq<Char>>
    /** `_indexTable`: `toIndex((char) i)` for each index, filled by `initCharset`. */
    var indexTable: Option<seq<JInt>>

    /** The charset is loaded and both tables hold what the slow paths compute. */
    ghost predicate Built()
      reads this
    {
      && nio.Some? && charTable == Some(CharsOf(nio.value)) && indexTable.Some?
      && |indexTable.value| == MaxCharacters
      && forall c: Char :: c < MaxCharacters ==> indexTable.value[c] == nio.value.encodeIndex(c)
    }

    /** The tables exist exactly once the charset is loaded, and then hold what they cache. */
    ghost predicate Valid()
      reads this
    {
      && (nio.None? ==> charTable.None? && indexTable.None?)
      && (nio.Some? ==> Built())
    }

    /** A character map the charset reads keeps its cache consistent with its string. */
    static ghost predicate MapValid(m: CharacterMap?)
      reads m
    {
      m != null ==> m.Valid()
    }

    constructor (forName: string -> Outcome<NioCharset>)
      ensures Valid() && this.forName == forName
      ensures name.None? && ctype == null && lower == null && upper == null && unicode == null
      ensures collations.None? && nio.None?
    {
      this.forName := forName;
      name := None;
      ctype, lower, upper, unicode := null, null, null, null;
      collations := None;
      nio, charTable, indexTable := None, None, None;
    }

    /**
     * `toBytes(index, bytes)`: byte `i` of the array becomes `(index >> (3 - i) * 8) & 0xFF`;
     * the result is the position of the first non-zero byte, or -1.
     */
    static method ToBytes(index: int, bytes: array<JByte>) returns (first: int)
      modifies bytes
      ensures forall i :: 0 <= i < bytes.Length ==> bytes[i] == ByteAt(index, i)
      ensures first == FirstNonZero(bytes[..])
    {
      first := -1;
      for i := 0 to bytes.Length
        invariant forall j :: 0 <= j < i ==> bytes[j] == ByteAt(index, j)
        invariant -1 <= first < i
        invariant first == -1 ==> forall j :: 0 <= j < i ==> bytes[j] == 0
        invariant first >= 0 ==> bytes[first] != 0 && forall j :: 0 <= j < first ==> bytes[j] == 0
      {
        var b := ShiftRight(index, (3 - i) * 8);
        bytes[i] := ToByte(b % 0x100);
        if first < 0 && bytes[i] != 0 {
          first := i;
        }
      }
      FirstNonZeroUnique(bytes[..], first);
    }

    /** `toBytes(index, new byte[4])` as `toChar` calls it: the four bytes and the first non-zero one. */
    static method IndexBytes(index: int) returns (bs: seq<JByte>, first: int)
      ensures bs == Bytes4(index) && first == FirstNonZero(bs)
    {
      var bytes := new JByte[4];
      first := ToBytes(index, bytes);
      Bytes4AreShifts(index);
      bs := bytes[..];
      assert bs == Bytes4(index);
    }

    /** The slow path of `toChar`, given the loaded charset. */
    static method DecodeIndex(nio: NioCharset, index: int) returns (c: Char)
      ensures c == SlowChar(nio, index)
    {
      var bs, first := IndexBytes(index);
      if first < 0 {
        return 0;
      }
      return nio.decode(bs[first..]);
    }

    /**
     * `initCharset()`: with no charset loaded and a name set, loads the charset by name and
     * fills both tables through the slow paths.  Otherwise it does nothing.
     */
    method InitCharset() returns (r: Outcome<()>)
      requires Valid()
      modifies this
      ensures Valid()
      ensures name == old(name) && collations == old(collations)
      ensures ctype == old(ctype) && lower == old(lower) && upper == old(upper) && unicode == old(unicode)
      ensures old(nio).Some? || old(name).None? ==>
        r.Ok? && nio == old(nio) && charTable == old(charTable) && indexTable == old(indexTable)
      ensures old(nio).None? && old(name).Some? ==>
        match forName(old(name).value)
        case Thrown(e) => r == Thrown(e) && nio.None? && charTable.None? && indexTable.None?
        case Ok(n) => r.Ok? && nio == Some(n) && Built()
    {
      if nio.Some? || name.None? {
        return Ok(());
      }
      var loaded := forName(name.value);
      if loaded.Thrown? {
        return Thrown(loaded.exc);
      }
      var n := loaded.value;
      var chars, indexes := FillTables(n);
      nio, charTable, indexTable := Some(n), Some(chars), Some(indexes);
      r := Ok(());
    }

    /** The loop of `initCharset`: both tables filled index by index through the slow paths. */
    static method FillTables(n: NioCharset) returns (chars: seq<Char>, indexes: seq<JInt>)
      ensures chars == CharsOf(n) && |indexes| == MaxCharacters
      ensures forall c: Char :: c < MaxCharacters ==> indexes[c] == n.encodeIndex(c)
    {
      var charArray := new Char[MaxCharacters];
      var indexArray := new JInt[MaxCharacters];
      for i := 0 to MaxCharacters
        invariant forall j :: 0 <= j < i ==> charArray[j] == SlowChar(n, j)
        invariant forall j :: 0 <= j < i ==> indexArray[j] == n.encodeIndex(j)
      {
        charArray[i] := DecodeIndex(n, i);
        indexArray[i] := n.encodeIndex(i);
      }
      forall j | 0 <= j < MaxCharacters
        ensures charArray[j] == CharsOf(n)[j]
      {
        CharsUpToIndex(n, MaxCharacters, j);
      }
      chars, indexes := charArray[..], indexArray[..];
    }

    /** `getCharset()`: initialises, then the loaded charset; `null` (thrown on use) without a name. */
    method GetCharset() returns (r: Outcome<NioCharset>)
      requires Valid()
      modifies this
      ensures Valid() && Unchanged(old(name), old(collations), old(ctype), old(lower), old(upper), old(unicode))
      ensures r == NioOf(old(name), old(nio), forName)
      ensures old(nio).Some? ==> nio == old(nio) && charTable == old(charTable) && indexTable == old(indexTable)
      ensures r.Ok? ==> nio == Some(r.value) && Built()
      ensures r.Thrown? ==> nio.None?
    {
      var init := InitCharset();
      if init.Thrown? {
        return Thrown(init.exc);
      }
      if nio.None? {
        return Thrown(NullPointer);
      }
      return Ok(nio.value);
    }

    /** The fields no lookup changes. */
    ghost predicate Unchanged(name0: Name, collations0: Option<map<Name, LegacyCollation>>,
                              ctype0: CharacterMap?, lower0: CharacterMap?, upper0: CharacterMap?, unicode0: CharacterMap?)
      reads this
    {
      name == name0 && collations == collations0 && ctype == ctype0 && lower == lower0
      && upper == upper0 && unicode == unicode0
    }

    /**
     * What `toIndex(c)` yields in the current state: the cached index for codes 1 to 255 once
     * the tables exist, else the encoded index (loading the charset first).
     */
    ghost function IndexOutcome(c: Char): Outcome<int>
      reads this
    {
      if indexTable.Some? && 0 < c < |indexTable.value| then Ok(indexTable.value[c])
      else
        match NioOf(name, nio, forName)
        case Thrown(e) => Thrown(e)
        case Ok(n) => Ok(n.encodeIndex(c))
    }

    /**
     * `toIndex(c)`.  Codes 1 to 255 come from the index table once it exists; character 0 and
     * codes of 256 and above always take the slow path.  The cache is transparent: once built,
     * every character gets the index its encoding spells.
     */
    method ToIndex(c: Char) returns (r: Outcome<int>)
      requires Valid()
      modifies this
      ensures Valid() && Unchanged(old(name), old(collations), old(ctype), old(lower), old(upper), old(unicode))
      ensures old(nio).Some? ==> nio == old(nio) && charTable == old(charTable) && indexTable == old(indexTable)
      ensures r == old(IndexOutcome(c))
      ensures old(Built()) ==> r == Ok(nio.value.encodeIndex(c))
      ensures r.Ok? ==> Built()
    {
      if indexTable.Some? {
        if 0 < c < |indexTable.value| {
          return Ok(indexTable.value[c]);
        }
      }
      var n := GetCharset();
      if n.Thrown? {
        return Thrown(n.exc);
      }
      return Ok(n.value.encodeIndex(c));
    }

    /**
     * `toChar(index)`.  Indexes 0 to 255 come from the character table once it exists; other
     * indexes take the slow path, where one whose bytes are all zero gives character 0 without
     * loading the charset.  Once built, every index gets the character its bytes decode to.
     */
    method ToChar(index: int) returns (r: Outcome<Char>)
      requires Valid()
      modifies this
      ensures Valid() && Unchanged(old(name), old(collations), old(ctype), old(lower), old(upper), old(unicode))
      ensures old(nio).Some? ==> nio == old(nio) && charTable == old(charTable) && indexTable == old(indexTable)
      ensures old(charTable).Some? && 0 <= index < MaxCharacters ==> r == Ok(old(charTable).value[index])
      ensures !(old(charTable).Some? && 0 <= index < MaxCharacters) ==>
        if FirstNonZero(Bytes4(index)) < 0 then r == Ok(0) && nio == old(nio)
        else r == match NioOf(old(name), old(nio), forName)
                  case Thrown(e) => Thrown(e)
                  case Ok(n) => Ok(SlowChar(n, index))
      ensures old(Built()) ==> r == Ok(SlowChar(nio.value, index))
    {
      if charTable.Some? && 0 <= index < |charTable.value| {
        CharsUpToIndex(nio.value, MaxCharacters, index);
        return Ok(charTable.value[index]);
      }
      var bs, first := IndexBytes(index);
      if first < 0 {
        return Ok(0);
      }
      var n := GetCharset();
      if n.Thrown? {
        return Thrown(n.exc);
      }
      return Ok(n.value.decode(bs[first..]));
    }

    /**
     * What `m.getValue(index + offset)` yields after the index lookup ended in `index`: the
     * lookup's failure, `NullPointerException` for a null map (checked after the lookup), else
     * the map's entry.
     */
    static ghost function EntryOutcome(index: Outcome<int>, m: CharacterMap?, offset: int): Outcome<int>
      reads m
    {
      match index
      case Thrown(e) => Thrown(e)
      case Ok(i) => if m == null then Thrown(NullPointer) else m.Entry(i + offset)
    }

    /**
     * `m.getValue(index + offset)` once `toIndex` has given `index`, the step `toUnicode`,
     * `toLower`, `toUpper` and the character type predicates share.
     */
    static method ReadEntry(index: Outcome<int>, m: CharacterMap?, offset: int) returns (r: Outcome<int>)
      requires MapValid(m)
      modifies m
      ensures MapValid(m) && r == EntryOutcome(index, m, offset)
    {
      if index.Thrown? {
        r := Thrown(index.exc);
      } else if m == null {
        r := Thrown(NullPointer);
      } else {
        r := m.GetValue(index.value + offset);
      }
    }

    /** `toUnicode(c)`: `(char) unicode[toIndex(c)]`. */
    method ToUnicode(c: Char) returns (r: Outcome<Char>)
      requires Valid() && MapValid(unicode)
      modifies this, unicode
      ensures Valid() && Unchanged(old(name), old(collations), old(ctype), old(lower), old(upper), old(unicode))
      ensures MapValid(unicode)
      ensures r == match EntryOutcome(old(IndexOutcome(c)), unicode, 0)
                   case Thrown(e) => Thrown(e)
                   case Ok(v) => Ok(Java.ToChar(v))
    {
      var index := ToIndex(c);
      var v := ReadEntry(index, unicode, 0);
      if v.Thrown? {
        return Thrown(v.exc);
      }
      return Ok(Java.ToChar(v.value));
    }

    /** `toChar(m.getValue(toIndex(c)))`, shared by `toLower` and `toUpper`. */
    method Translate(m: CharacterMap?, c: Char) returns (r: Outcome<Char>)
      requires Valid() && MapValid(m)
      modifies this, m
      ensures Valid() && Unchanged(old(name), old(collations), old(ctype), old(lower), old(upper), old(unicode))
      ensures MapValid(m)
      ensures EntryOutcome(old(IndexOutcome(c)), m, 0).Ok? ==> Built()
      ensures r == match EntryOutcome(old(IndexOutcome(c)), m, 0)
                   case Thrown(e) => Thrown(e)
                   case Ok(v) => Ok(SlowChar(nio.value, v))
    {
      var index := ToIndex(c);
      var v := ReadEntry(index, m, 0);
      if v.Thrown? {
        return Thrown(v.exc);
      }
      r := ToChar(v.value);
    }

    /**
     * `toLower(c)`: the character the loaded charset decodes the lower-case map's entry for
     * the index of `c` to.
     */
    method ToLower(c: Char) returns (r: Outcome<Char>)
      requires Valid() && MapValid(lower)
      modifies this, lower
      ensures Valid() && Unchanged(old(name), old(collations), old(ctype), old(lower), old(upper), old(unicode))
      ensures MapValid(lower)
      ensures EntryOutcome(old(IndexOutcome(c)), lower, 0).Ok? ==> Built()
      ensures r == match EntryOutcome(old(IndexOutcome(c)), lower, 0)
                   case Thrown(e) => Thrown(e)
                   case Ok(v) => Ok(SlowChar(nio.value, v))
    {
      r := Translate(lower, c);
    }

    /** `toUpper(c)`: as `toLower`, with the upper-case map. */
    method ToUpper(c: Char) returns (r: Outcome<Char>)
      requires Valid() && MapValid(upper)
      modifies this, upper
      ensures Valid() && Unchanged(old(name), old(collations), old(ctype), old(lower), old(upper), old(unicode))
      ensures MapValid(upper)
      ensures EntryOutcome(old(IndexOutcome(c)), upper, 0).Ok? ==> Built()
      ensures r == match EntryOutcome(old(IndexOutcome(c)), upper, 0)
                   case Thrown(e) => Thrown(e)
                   case Ok(v) => Ok(SlowChar(nio.value, v))
    {
      r := Translate(upper, c);
    }

    /**
     * The character type predicates: the flag's bit of `ctype[toIndex(c) + 1]`, the map
     * having a leading sentinel entry.
     */
    method IsCtype(f: CtypeFlag, c: Char) returns (r: Outcome<bool>)
      requires Valid() && MapValid(ctype)
      modifies this, ctype
      ensures Valid() && Unchanged(old(name), old(collations), old(ctype), old(lower), old(upper), old(unicode))
      ensures MapValid(ctype)
      ensures r == match EntryOutcome(old(IndexOutcome(c)), ctype, 1)
                   case Thrown(e) => Thrown(e)
                   case Ok(v) => Ok(TestMask(v, f))
    {
      var index := ToIndex(c);
      var v := ReadEntry(index, ctype, 1);
      if v.Thrown? {
        return Thrown(v.exc);
      }
      return Ok(TestMask(v.value, f));
    }

    /**
     * `getCharacters()`: initialises, then a copy of the character table: the character each
     * of the 256 indexes decodes to.
     */
    method GetCharacters() returns (r: Outcome<array<Char>>)
      requires Valid()
      modifies this
      ensures Valid() && Unchanged(old(name), old(collations), old(ctype), old(lower), old(upper), old(unicode))
      ensures old(nio).Some? ==> nio == old(nio) && charTable == old(charTable) && indexTable == old(indexTable)
      ensures NioOf(old(name), old(nio), forName).Thrown? ==> r == Thrown(NioOf(old(name), old(nio), forName).exc)
      ensures NioOf(old(name), old(nio), forName).Ok? ==>
        && r.Ok? && fresh(r.value) && Built()
        && nio == Some(NioOf(old(name), old(nio), forName).value)
        && r.value[..] == CharsOf(nio.value)
    {
      var init := InitCharset();
      if init.Thrown? {
        return Thrown(init.exc);
      }
      if charTable.None? {
        return Thrown(NullPointer);
      }
      var table := charTable.value;
      var copy := new Char[|table|](i requires 0 <= i < |table| => table[i]);
      return Ok(copy);
    }

    /**
     * `add(collation)`: as for the `xml` charset, the map is created on first use, the
     * collation put under its name, and a name already present throws.
     */
    method Add(collation: LegacyCollation?) returns (r: Outcome<()>)
      modifies this
      ensures name == old(name) && nio == old(nio) && charTable == old(charTable) && indexTable == old(indexTable)
      ensures ctype == old(ctype) && lower == old(lower) && upper == old(upper) && unicode == old(unicode)
      ensures var before := if old(collations).Some? then old(collations).value else map[];
        && (collation == null ==> r == Thrown(NullPointer) && collations == Some(before))
        && (collation != null ==>
              && collations == Some(before[collation.name := collation])
              && (collation.name in before <==> r == Thrown(IllegalArgument("duplicate collation name: " + NameText(collation.name))))
              && (collation.name !in before <==> r.Ok?))
    {
      if collations.None? {
        collations := Some(map[]);
      }
      if collation == null {
        return Thrown(NullPointer);
      }
      var previous := collations.value;
      collations := Some(previous[collation.name := collation]);
      if collation.name in previous {
        return Thrown(IllegalArgument("duplicate collation name: " + NameText(collation.name)));
      }
      return Ok(());
    }
  }

  // =========================================================================================
  // MySqlCollation (top level)
  // =========================================================================================

  /** What a top-level collation reads from its collation bean: `getName()` and `getMap()`. */
  datatype CollationFields = CollationFields(name: Name, mapText: Option<string>)

  /**
   * `getWeight(c)` of a top-level collation over a loaded charset: without weights the
   * character itself cut to a byte; otherwise the weight at the character's index, which
   * may fall outside the weights.
   */
  function LegacyWeight(weights: Option<seq<JByte>>, nio: NioCharset, c: Char): Outcome<JByte>
  {
    if weights.None? then Ok(ToByte(c))
    else
      var i := nio.encodeIndex(c);
      if 0 <= i < |weights.value| then Ok(weights.value[i]) else Thrown(ArrayIndexOutOfBounds(i))
  }

  function LegacyWeigher(weights: Option<seq<JByte>>, nio: NioCharset): Weigher
  {
    c => LegacyWeight(weights, nio, c)
  }

  class LegacyCollation {
    const charset: LegacyCharset
    const name: Name
    const weights: Option<seq<JByte>>
    /** Set once, by construction, to this collation's collator. */
    var collator: Collator?
    /** `_normalize`: the lowest character of each weight, built by the constructor. */
    var normalizeTable: seq<Char>

    ghost predicate Valid()
      reads this, charset
    {
      && charset.Built() && |normalizeTable| == MaxCharacters
      && collator != null && collator.collation == LegacyRef(this)
    }

    /** The weight function of this collation. */
    function Weigher(): Weigher
      reads this, charset
      requires Valid()
    {
      LegacyWeigher(weights, charset.nio.value)
    }

    constructor Init(charset: LegacyCharset, name: Name, weights: Option<seq<JByte>>)
      ensures this.charset == charset && this.name == name && this.weights == weights
      ensures collator == null && normalizeTable == Zeros(MaxCharacters)
    {
      this.charset, this.name, this.weights := charset, name, weights;
      collator := null;
      normalizeTable := Zeros(MaxCharacters);
    }

    /**
     * The constructor `MySqlCollation(charset, bean)`: a null charset throws
     * `NullPointerException("charset")`, a null bean throws on reading its name, and a weight
     * map that does not parse throws `NumberFormatException`.  It then creates the collator,
     * loads the charset's characters and fills the normalisation table from them, which fails
     * if a character has no weight.
     */
    static method New(charset: LegacyCharset?, bean: Option<CollationFields>) returns (r: Outcome<LegacyCollation>)
      requires charset != null ==> charset.Valid()
      modifies charset
      ensures charset != null ==> charset.Valid() && charset.name == old(charset.name)
      ensures charset == null || bean.None? ==> r == Thrown(NullPointer)
      ensures charset != null && bean.Some? ==>
        match CharsetUtils.ByteArrayOf(bean.value.mapText)
        case Thrown(e) => r == Thrown(e)
        case Ok(ws) =>
          match NioOf(old(charset.name), old(charset.nio), charset.forName)
          case Thrown(e) => r == Thrown(e)
          case Ok(n) =>
            var b := BuildTable(LegacyWeigher(ws, n), CharsOf(n));
            && (b.failure.Some? ==> r == Thrown(b.failure.value))
            && (b.failure.None? ==>
                  && r.Ok? && fresh(r.value) && r.value.Valid()
                  && r.value.charset == charset && r.value.name == bean.value.name && r.value.weights == ws
                  && r.value.normalizeTable == b.table)
    {
      if charset == null || bean.None? {
        return Thrown(NullPointer);
      }
      var ws := CharsetUtils.ToByteArray(bean.value.mapText);
      if ws.Thrown? {
        return Thrown(ws.exc);
      }
      var c := new LegacyCollation.Init(charset, bean.value.name, ws.value);
      c.collator := new Collator(LegacyRef(c));
      var characters := charset.GetCharacters();
      if characters.Thrown? {
        return Thrown(characters.exc);
      }
      var filled := c.FillNormalize(characters.value);
      if filled.Thrown? {
        return Thrown(filled.exc);
      }
      return Ok(c);
    }

    /** The constructor's loop: each character's weight bucket keeps the lowest character. */
    method FillNormalize(chars: array<Char>) returns (r: Outcome<()>)
      requires Valid() && normalizeTable == Zeros(MaxCharacters)
      modifies this
      ensures Valid() && collator == old(collator)
      ensures var b := BuildTable(Weigher(), chars[..]);
        && normalizeTable == b.table
        && r == (if b.failure.Some? then Thrown(b.failure.value) else Ok(()))
    {
      ghost var w := Weigher();
      for i := 0 to chars.Length
        invariant Valid() && collator == old(collator)
        invariant normalizeTable == BuildTable(w, chars[..i]).table
        invariant BuildTable(w, chars[..i]).failure.None?
      {
        var ch := chars[i];
        assert chars[..i + 1][..i] == chars[..i];
        var x := GetWeight(ch);
        if x.Thrown? {
          BuildStops(w, chars[..], i);
          return Thrown(x.exc);
        }
        var index := Unsigned(x.value);
        var current := normalizeTable[index];
        if current == 0 || current > ch {
          normalizeTable := normalizeTable[index := ch];
        }
      }
      assert chars[..chars.Length] == chars[..];
      return Ok(());
    }

    /** `getCollator()`: the collator created with this collation. */
    function GetCollator(): (r: Collator)
      reads this, charset
      requires Valid()
      ensures r.collation == LegacyRef(this)
    {
      collator
    }

    /**
     * `getWeight(c)`: through the index table for codes 1 to 255, which gives the same as
     * encoding the character, so the weight is that of the character's encoded index.
     */
    function GetWeight(c: Char): (r: Outcome<JByte>)
      reads this, charset
      requires Valid()
      ensures r == Weigher()(c)
    {
      if weights.None? then Ok(ToByte(c))
      else
        var i := if 0 < c < |charset.indexTable.value| then charset.indexTable.value[c]
                 else charset.nio.value.encodeIndex(c);
        if 0 <= i < |weights.value| then Ok(weights.value[i]) else Thrown(ArrayIndexOutOfBounds(i))
    }

    /** `normalize(s)`: null for null, else the normalisation table applied to each weight. */
    method Normalize(s: Option<JString>) returns (r: Outcome<Option<JString>>)
      requires Valid()
      ensures s.None? ==> r == Ok(None)
      ensures s.Some? ==> r == match NormalizeWith(Weigher(), normalizeTable, s.value)
                               case Ok(n) => Ok(Some(n))
                               case Thrown(e) => Thrown(e)
    {
      if s.None? {
        return Ok(None);
      }
      var str := s.value;
      var buf: JString := [];
      for i := 0 to |str|
        invariant NormalizeWith(Weigher(), normalizeTable, str[..i]) == Ok(buf)
      {
        assert str[..i + 1][..i] == str[..i];
        var x := GetWeight(str[i]);
        if x.Thrown? {
          NormalizeStops(Weigher(), normalizeTable, str, i);
          return Thrown(x.exc);
        }
        buf := buf + [normalizeTable[Unsigned(x.value)]];
      }
      assert str[..|str|] == str;
      return Ok(Some(buf));
    }
  }

  // =========================================================================================
  // MySqlCollator
  // =========================================================================================

  /** The objects the weights and lookups of a collation depend on. */
  ghost function Repr(c: CollationRef): set<object?>
    reads if c.XmlRef? then {c.xml} else {c.legacy}
  {
    match c
    case XmlRef(x) => {x, x.weightMap, x.charset}
    case LegacyRef(l) => {l, l.charset}
  }

  /** A top-level collation was fully constructed; `xml` ones need nothing. */
  ghost predicate RefValid(c: CollationRef)
    reads Repr(c)
  {
    c.LegacyRef? ==> c.legacy.Valid()
  }

  /** `getWeight` of the collation, for its current state. */
  function WeigherOf(c: CollationRef): (w: Weigher)
    reads Repr(c)
    requires RefValid(c)
  {
    match c
    case XmlRef(x) => XmlWeigher(x.weightMap, x.charset)
    case LegacyRef(l) => l.Weigher()
  }

  /** `getCharset().toIndex` of the collation, for its current state. */
  function IndexerOf(c: CollationRef): Indexer
    reads Repr(c)
    requires RefValid(c)
  {
    match c
    case XmlRef(x) =>
      var lookup := LookupOf(x.charset);
      (ch: Char) => if lookup.None? then Thrown(NullPointer) else XmlIndex(lookup.value, ch)
    case LegacyRef(l) =>
      var n := l.charset.nio.value;
      (ch: Char) => Ok(n.encodeIndex(ch) as int)
  }

  class Collator {
    const collation: CollationRef

    constructor (collation: CollationRef)
      ensures this.collation == collation
    {
      this.collation := collation;
    }

    /**
     * `compare(source, target)`: 0 for the same string instance; otherwise the signed
     * difference of the first differing weights, or of the lengths when one string is a
     * prefix of the other.  A null string against another string throws; two nulls are one
     * reference, so they compare as the same instance.
     */
    method Compare(source: Option<JString>, target: Option<JString>, sameInstance: bool) returns (r: Outcome<int>)
      requires RefValid(collation)
      requires sameInstance ==> source == target
      requires source.None? && target.None? ==> sameInstance
      ensures sameInstance ==> r == Ok(0)
      ensures !sameInstance && (source.None? || target.None?) ==> r == Thrown(NullPointer)
      ensures source.Some? && target.Some? ==>
        r == Collating.Compare(WeigherOf(collation), source.value, target.value, sameInstance)
    {
      if sameInstance {
        return Ok(0);
      }
      if source.None? || target.None? {
        return Thrown(NullPointer);
      }
      var s, t := source.value, target.value;
      var w := WeigherOf(collation);
      var i := 0;
      while i < |s| && i < |t|
        invariant i <= |s| && i <= |t|
        invariant CompareFrom(w, s, t, 0) == CompareFrom(w, s, t, i)
        decreases |s| - i
      {
        var a := w(s[i]);
        if a.Thrown? {
          return Thrown(a.exc);
        }
        var b := w(t[i]);
        if b.Thrown? {
          return Thrown(b.exc);
        }
        if a.value != b.value {
          return Ok(a.value as int - b.value as int);
        }
        i := i + 1;
      }
      return Ok(|s| - |t|);
    }

    /**
     * `equals(source, target)`: true for the same instance, false for different lengths,
     * else whether the weights agree position by position.  A null string against another
     * string throws; two nulls are one reference and so the same instance.
     */
    method Equals(source: Option<JString>, target: Option<JString>, sameInstance: bool) returns (r: Outcome<bool>)
      requires RefValid(collation)
      requires sameInstance ==> source == target
      requires source.None? && target.None? ==> sameInstance
      ensures sameInstance ==> r == Ok(true)
      ensures !sameInstance && (source.None? || target.None?) ==> r == Thrown(NullPointer)
      ensures source.Some? && target.Some? ==>
        r == Collating.Equals(WeigherOf(collation), source.value, target.value, sameInstance)
    {
      if sameInstance {
        return Ok(true);
      }
      if source.None? || target.None? {
        return Thrown(NullPointer);
      }
      var s, t := source.value, target.value;
      if |s| != |t| {
        return Ok(false);
      }
      var w := WeigherOf(collation);
      var i := 0;
      while i < |s| && i < |t|
        invariant i <= |s|
        invariant EqualsFrom(w, s, t, 0) == EqualsFrom(w, s, t, i)
        decreases |s| - i
      {
        var a := w(s[i]);
        if a.Thrown? {
          return Thrown(a.exc);
        }
        var b := w(t[i]);
        if b.Thrown? {
          return Thrown(b.exc);
        }
        if a.value != b.value {
          return Ok(false);
        }
        i := i + 1;
      }
      return Ok(true);
    }

    /** `isMappable(s)`: every character of `s` has an index in the collation's charset. */
    method IsMappable(s: Option<JString>) returns (r: Outcome<bool>)
      requires RefValid(collation)
      ensures s.None? ==> r == Thrown(NullPointer)
      ensures s.Some? ==> r == MappableFrom(IndexerOf(collation), s.value, 0)
    {
      if s.None? {
        return Thrown(NullPointer);
      }
      var str := s.value;
      var ix := IndexerOf(collation);
      for i := 0 to |str|
        invariant MappableFrom(ix, str, 0) == MappableFrom(ix, str, i)
      {
        var v := ix(str[i]);
        if v.Thrown? {
          return Thrown(v.exc);
        }
        if v.value < 0 {
          return Ok(false);
        }
      }
      return Ok(true);
    }

    /** `getCollationKey(source)`: a new key of `source` under this collator's collation. */
    method GetCollationKey(source: Option<JString>) returns (r: Outcome<CollationKey>)
      requires RefValid(collation)
      ensures source.None? ==> r == Thrown(NullPointer)
      ensures source.Some? ==> match Weights(WeigherOf(collation), source.value)
                               case Thrown(e) => r == Thrown(e)
                               case Ok(ws) => r.Ok? && fresh(r.value) && r.value.Valid()
                                              && r.value.source == source.value && r.value.weights == ws
    {
      r := CollationKey.New(source, collation);
    }

    /** `normalize(s)`: the collation's `normalize`. */
    method Normalize(s: Option<JString>) returns (r: Outcome<Option<JString>>)
      requires RefValid(collation)
      requires collation.XmlRef? ==> collation.xml.Valid()
      modifies if collation.XmlRef? then {collation.xml} else {}
      ensures s.None? ==> r == Ok(None)
      ensures collation.LegacyRef? && s.Some? ==>
        r == match NormalizeWith(WeigherOf(collation), collation.legacy.normalizeTable, s.value)
             case Ok(n) => Ok(Some(n))
             case Thrown(e) => Thrown(e)
      ensures collation.XmlRef? && s.Some? && r.Ok? ==>
        && collation.xml.Valid() && collation.xml.normalizeTable.Some? && r.value.Some?
        && NormalizeWith(WeigherOf(collation), collation.xml.normalizeTable.value, s.value) == Ok(r.value.value)
    {
      match collation {
        case XmlRef(x) =>
          r := x.Normalize(s);
        case LegacyRef(l) =>
          r := l.Normalize(s);
      }
    }

    /** `clone()`: a new collator over the same collation. */
    method Clone() returns (r: Collator)
      ensures fresh(r) && r.collation == collation
    {
      r := new Collator(collation);
    }
  }

  // =========================================================================================
  // MySqlCollationKey
  // =========================================================================================

  /** The serialised form of a key: its source, weights and hash code. */
  datatype SerializedKey = SerializedKey(source: JString, weights: seq<JByte>, hash: JInt)

  class CollationKey {
    const source: JString
    const weights: seq<JByte>
    const hash: JInt

    /** A key built from a source holds one weight per character and their hash code. */
    ghost predicate Valid()
    {
      |weights| == |source| && hash == HashOf(weights)
    }

    /** The private constructor: the three parts as given. */
    constructor FromParts(source: JString, weights: seq<JByte>, hash: JInt)
      ensures this.source == source && this.weights == weights && this.hash == hash
    {
      this.source, this.weights, this.hash := source, weights, hash;
    }

    /**
     * `MySqlCollationKey(source, collation)`: the weight of each character of `source`, and the
     * hash code `31 * h + w` folded over them from 1 in `int` arithmetic.
     */
    static method New(source: Option<JString>, collation: CollationRef) returns (r: Outcome<CollationKey>)
      requires RefValid(collation)
      ensures source.None? ==> r == Thrown(NullPointer)
      ensures source.Some? ==> match Weights(WeigherOf(collation), source.value)
                               case Thrown(e) => r == Thrown(e)
                               case Ok(ws) => r.Ok? && fresh(r.value) && r.value.Valid()
                                              && r.value.source == source.value && r.value.weights == ws
    {
      if source.None? {
        return Thrown(NullPointer);
      }
      var s := source.value;
      var weighed := WeighAll(WeigherOf(collation), s);
      if weighed.Thrown? {
        return Thrown(weighed.exc);
      }
      var key := new CollationKey.FromParts(s, weighed.value.0, weighed.value.1);
      return Ok(key);
    }

    /** The loop of the constructor: each weight into its slot, folding the hash as it goes. */
    static method WeighAll(w: Weigher, s: JString) returns (r: Outcome<(seq<JByte>, JInt)>)
      ensures match Weights(w, s)
              case Thrown(e) => r == Thrown(e)
              case Ok(ws) => r == Ok((ws, HashOf(ws)))
    {
      var weights := new JByte[|s|];
      var hash: JInt := 1;
      for i := 0 to |s|
        invariant Weights(w, s[..i]) == Ok(weights[..i])
        invariant hash == HashOf(weights[..i])
      {
        var x := w(s[i]);
        if x.Thrown? {
          WeightsStop(w, s, i);
          return Thrown(x.exc);
        }
        ghost var before := weights[..i];
        weights[i] := x.value;
        assert weights[..i + 1] == before + [x.value];
        WeightsSnoc(w, s, i);
        HashSnoc(before, x.value);
        hash := WrapInt(31 * hash + x.value);
      }
      assert s[..|s|] == s && weights[..|s|] == weights[..];
      return Ok((weights[..], hash));
    }

    /** `hashCode()`: the hash computed when the key was built. */
    function HashCode(): (h: JInt)
      requires Valid()
      ensures h == WrapInt(Polynomial(weights))
    {
      HashIsWrappedPolynomial(weights);
      hash
    }

    /**
     * `equals(obj)`: true for this very key, false for anything that is not a key, true for a
     * key of the same source string instance, else whether the weights are equal.
     */
    method Equals(obj: Option<CollationKey>, sameSource: bool) returns (r: bool)
      requires sameSource ==> obj.Some? && obj.value.source == source
      ensures r <==> obj.Some? && (obj.value == this || sameSource || obj.value.weights == weights)
    {
      if obj.Some? && obj.value == this {
        return true;
      }
      if obj.None? {
        return false;
      }
      var other := obj.value;
      if sameSource {
        return true;
      }
      var ows := other.weights;
      if |ows| != |weights| {
        return false;
      }
      for i := 0 to |weights|
        invariant ows[..i] == weights[..i]
      {
        if weights[i] != ows[i] {
          return false;
        }
      }
      assert ows == ows[..|weights|] && weights == weights[..|weights|];
      return true;
    }

    /**
     * `compareTo(o)`: the signed difference of the first differing weights, else of the
     * lengths.  A null key throws.
     */
    method CompareTo(o: CollationKey?) returns (r: Outcome<int>)
      ensures o == null ==> r == Thrown(NullPointer)
      ensures o != null ==> r == Ok(LexCompare(weights, o.weights))
    {
      if o == null {
        return Thrown(NullPointer);
      }
      var ows := o.weights;
      var min := if |weights| <= |ows| then |weights| else |ows|;
      for i := 0 to min
        invariant weights[..i] == ows[..i]
      {
        if weights[i] != ows[i] {
          LexFirstDifference(weights, ows, i);
          return Ok(weights[i] as int - ows[i] as int);
        }
      }
      if |weights| <= |ows| {
        LexPrefix(weights, ows);
      } else {
        LexPrefix(ows, weights);
      }
      return Ok(|weights| - |ows|);
    }

    /** `toByteArray()`: a fresh copy of the weights. */
    method ToByteArray() returns (a: array<JByte>)
      ensures fresh(a) && a[..] == weights
    {
      a := new JByte[|weights|];
      for i := 0 to |weights|
        invariant a[..i] == weights[..i]
      {
        a[i] := weights[i];
      }
      assert a[..] == a[..|weights|];
    }

    /** `writeReplace()`: the serialised form. */
    function WriteReplace(): (k: SerializedKey)
      ensures k.source == source && k.weights == weights && k.hash == hash
    {
      SerializedKey(source, weights, hash)
    }

    /** `readResolve()` of the serialised form: a key with the same three parts. */
    static method ReadResolve(k: SerializedKey) returns (r: CollationKey)
      ensures fresh(r) && r.WriteReplace() == k
    {
      r := new CollationKey.FromParts(k.source, k.weights, k.hash);
    }
  }

  /** The weights of a string stop at its first character without a weight. */
  lemma {:induction false} WeightsStop(w: Weigher, s: JString, i: nat)
    requires i < |s| && w(s[i]).Thrown? && Weights(w, s[..i]).Ok?
    ensures Weights(w, s) == Thrown(w(s[i]).exc)
    decreases |s| - i
  {
    if |s| == i + 1 {
      assert s[..|s| - 1] == s[..i];
    } else {
      assert s[..|s| - 1][..i] == s[..i];
      WeightsStop(w, s[..|s| - 1], i);
    }
  }
}
