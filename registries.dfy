/**
 * The name-keyed registries the charset files are read into: `MySqlCharsets` (charsets by
 * name), `MySqlCharsetsBean` (charset beans by name) and `MySqlCharsetBean` (collation beans
 * by name).  Every `add` creates its map on first use, puts the entry and only then complains
 * about a duplicate name, so the newer entry is already in place when the exception is
 * thrown.  The merging constructors `putAll` the inputs' maps in order, so a name shared by
 * several inputs keeps the entry of the last of them.
 */
module Registries {
  import opened Java
  import opened Collations

  // ---------------------------------------------------------------------------------------
  // Merging
  // ---------------------------------------------------------------------------------------

  /** The maps laid over each other in order, as `putAll` of each in turn leaves them. */
  function MergeMaps<V>(ms: seq<map<Name, V>>): map<Name, V>
  {
    if |ms| == 0 then map[] else MergeMaps(ms[..|ms| - 1]) + ms[|ms| - 1]
  }

  /** A name is in the merge exactly when some input has it. */
  lemma {:induction false} MergeNames<V>(ms: seq<map<Name, V>>, k: Name)
    ensures k in MergeMaps(ms) <==> exists i :: 0 <= i < |ms| && k in ms[i]
  {
    if |ms| != 0 {
      var prefix := ms[..|ms| - 1];
      MergeNames(prefix, k);
      if k in MergeMaps(ms) && k !in ms[|ms| - 1] {
        var i :| 0 <= i < |prefix| && k in prefix[i];
        assert k in ms[i];
      }
      if exists i :: 0 <= i < |ms| && k in ms[i] {
        var i :| 0 <= i < |ms| && k in ms[i];
        if i < |ms| - 1 {
          assert k in prefix[i];
        }
      }
    }
  }

  /** A name keeps the entry of the last input that has it. */
  lemma {:induction false} MergeLastWins<V>(ms: seq<map<Name, V>>, k: Name, i: nat)
    requires i < |ms| && k in ms[i]
    requires forall j :: i < j < |ms| ==> k !in ms[j]
    ensures k in MergeMaps(ms) && MergeMaps(ms)[k] == ms[i][k]
  {
    if i < |ms| - 1 {
      var prefix := ms[..|ms| - 1];
      assert prefix[i] == ms[i];
      forall j | i < j < |prefix|
        ensures k !in prefix[j]
      {
        assert prefix[j] == ms[j];
      }
      MergeLastWins(prefix, k, i);
    }
  }

  /** Merging two maps lays the second over the first. */
  lemma MergeTwo<V>(a: map<Name, V>, b: map<Name, V>)
    ensures MergeMaps([a, b]) == a + b
  {
    assert [a, b][..1] == [a];
    assert [a][..0] == [];
    assert MergeMaps([a]) == map[] + a == a;
  }

  // ---------------------------------------------------------------------------------------
  // MySqlCharsets
  // ---------------------------------------------------------------------------------------

  /** `xml.MySqlCharsets`: the charsets of one or more charset files, by name. */
  class Charsets {
    var copyright: Option<string>
    var charsets: Option<map<Name, XmlCharset>>

    /** The constructor the digester uses: no copyright and no map yet. */
    constructor ()
      ensures copyright.None? && charsets.None?
    {
      copyright := None;
      charsets := None;
    }

    function GetCopyright(): Option<string>
      reads this
    {
      copyright
    }

    /** `setCopyright(c)`: `getCopyright()` returns `c` from now on. */
    method SetCopyright(c: Option<string>)
      modifies this
      ensures GetCopyright() == c && charsets == old(charsets)
    {
      copyright := c;
    }

    function GetCharsets(): Option<map<Name, XmlCharset>>
      reads this
    {
      charsets
    }

    /** `setCharsets(m)`: `getCharsets()` returns `m` from now on. */
    method SetCharsets(m: Option<map<Name, XmlCharset>>)
      modifies this
      ensures GetCharsets() == m && copyright == old(copyright)
    {
      charsets := m;
    }

    /**
     * `add(charset)`: creates the map on first use, then reads the charset's name (a null
     * charset throws here), puts the charset under it and throws `IllegalArgumentException`
     * if the name was taken, with the new charset already in its place.
     */
    method Add(charset: XmlCharset?) returns (r: Outcome<()>)
      modifies this
      ensures copyright == old(copyright)
      ensures var before := if old(charsets).Some? then old(charsets).value else map[];
        && (charset == null ==> r == Thrown(NullPointer) && charsets == Some(before))
        && (charset != null ==>
              && charsets == Some(before[charset.name := charset])
              && (charset.name in before ==>
                    r == Thrown(IllegalArgument("duplicate charset name: " + NameText(charset.name))))
              && (charset.name !in before ==> r == Ok(())))
    {
      if charsets.None? {
        charsets := Some(map[]);
      }
      if charset == null {
        return Thrown(NullPointer);
      }
      var previous := charsets.value;
      charsets := Some(previous[charset.name := charset]);
      if charset.name in previous {
        return Thrown(IllegalArgument("duplicate charset name: " + NameText(charset.name)));
      }
      return Ok(());
    }

    /**
     * The merging constructor `MySqlCharsets(charsets...)`: the inputs' maps laid over each
     * other in order, with no copyright.  A null input or an input without a map throws
     * `NullPointerException`.  The inputs are only read.
     */
    static method Merge(inputs: seq<Charsets?>) returns (r: Outcome<Charsets>)
      ensures (exists i :: 0 <= i < |inputs| && (inputs[i] == null || inputs[i].charsets.None?)) ==> r == Thrown(NullPointer)
      ensures (forall i :: 0 <= i < |inputs| ==> (inputs[i] != null && inputs[i].charsets.Some?)) ==>
        && r.Ok? && fresh(r.value) && r.value.copyright.None?
        && r.value.charsets == Some(MergeMaps(MapsOf(inputs)))
    {
      var merged := PutAll(inputs);
      if merged.Thrown? {
        return Thrown(merged.exc);
      }
      var c := new Charsets();
      c.charsets := Some(merged.value);
      return Ok(c);
    }

    /** The loop of the merging constructor: `putAll` of each input's map in turn. */
    static method PutAll(inputs: seq<Charsets?>) returns (r: Outcome<map<Name, XmlCharset>>)
      ensures (exists i :: 0 <= i < |inputs| && (inputs[i] == null || inputs[i].charsets.None?)) ==> r == Thrown(NullPointer)
      ensures (forall i :: 0 <= i < |inputs| ==> (inputs[i] != null && inputs[i].charsets.Some?)) ==>
        r == Ok(MergeMaps(MapsOf(inputs)))
    {
      var merged: map<Name, XmlCharset> := map[];
      ghost var seen: seq<map<Name, XmlCharset>> := [];
      for i := 0 to |inputs|
        invariant forall j :: 0 <= j < i ==> (inputs[j] != null && inputs[j].charsets.Some?)
        invariant |seen| == i && forall j :: 0 <= j < i ==> seen[j] == inputs[j].charsets.value
        invariant merged == MergeMaps(seen)
      {
        if inputs[i] == null || inputs[i].charsets.None? {
          return Thrown(NullPointer);
        }
        assert (seen + [inputs[i].charsets.value])[..i] == seen;
        merged := merged + inputs[i].charsets.value;
        seen := seen + [inputs[i].charsets.value];
      }
      assert seen == MapsOf(inputs);
      return Ok(merged);
    }
  }

  /** The maps of inputs that all have one. */
  function MapsOf(inputs: seq<Charsets?>): (ms: seq<map<Name, XmlCharset>>)
    requires forall i :: 0 <= i < |inputs| ==> (inputs[i] != null && inputs[i].charsets.Some?)
    reads set i | 0 <= i < |inputs| :: inputs[i]
    ensures |ms| == |inputs| && forall i :: 0 <= i < |inputs| ==> ms[i] == inputs[i].charsets.value
  {
    if |inputs| == 0 then []
    else MapsOf(inputs[..|inputs| - 1]) + [inputs[|inputs| - 1].charsets.value]
  }

  // ---------------------------------------------------------------------------------------
  // MySqlCharsetsBean, MySqlCharsetBean and the collation beans
  // ---------------------------------------------------------------------------------------

  /**
   * A collation bean as the charset bean holds it: its name, its weight map string and the
   * charset bean it was added to.
   */
  class CollationBean {
    var name: Name
    var mapText: Option<string>
    var charset: CharsetBean?

    constructor (name: Name, mapText: Option<string>)
      ensures this.name == name && this.mapText == mapText && charset == null
    {
      this.name := name;
      this.mapText := mapText;
      charset := null;
    }

    /** What a top-level collation reads from the bean. */
    function Fields(): CollationFields
      reads this
    {
      CollationFields(name, mapText)
    }
  }

  /**
   * `xml.MySqlCharsetBean`: a charset as read from a file, with its four character maps (each
   * held by its map string) and its collation beans by name.
   */
  class CharsetBean {
    var name: Name
    var ctype: Option<string>
    var lower: Option<string>
    var upper: Option<string>
    var unicode: Option<string>
    var collations: Option<map<Name, CollationBean>>

    constructor ()
      ensures name.None? && ctype.None? && lower.None? && upper.None? && unicode.None?
      ensures collations.None?
    {
      name := None;
      ctype, lower, upper, unicode := None, None, None, None;
      collations := None;
    }

    function GetName(): Name reads this { name }
    function GetCtype(): Option<string> reads this { ctype }
    function GetLower(): Option<string> reads this { lower }
    function GetUpper(): Option<string> reads this { upper }
    function GetUnicode(): Option<string> reads this { unicode }
    function GetCollations(): Option<map<Name, CollationBean>> reads this { collations }

    /** The six properties, for saying that a setter changes only its own. */
    ghost function Properties(): (Name, Option<string>, Option<string>, Option<string>, Option<string>, Option<map<Name, CollationBean>>)
      reads this
    {
      (name, ctype, lower, upper, unicode, collations)
    }

    method SetName(n: Name)
      modifies this
      ensures GetName() == n && Properties() == old(Properties()).(0 := n)
    {
      name := n;
    }

    method SetCtype(m: Option<string>)
      modifies this
      ensures GetCtype() == m && Properties() == old(Properties()).(1 := m)
    {
      ctype := m;
    }

    method SetLower(m: Option<string>)
      modifies this
      ensures GetLower() == m && Properties() == old(Properties()).(2 := m)
    {
      lower := m;
    }

    method SetUpper(m: Option<string>)
      modifies this
      ensures GetUpper() == m && Properties() == old(Properties()).(3 := m)
    {
      upper := m;
    }

    method SetUnicode(m: Option<string>)
      modifies this
      ensures GetUnicode() == m && Properties() == old(Properties()).(4 := m)
    {
      unicode := m;
    }

    method SetCollations(m: Option<map<Name, CollationBean>>)
      modifies this
      ensures GetCollations() == m && Properties() == old(Properties()).(5 := m)
    {
      collations := m;
    }

    /**
     * `add(collation)`: creates the map on first use, puts the collation under its name and
     * throws `IllegalArgumentException` if the name was taken (the new bean already in place,
     * its back-reference untouched); otherwise points the collation back at this charset.
     */
    method Add(collation: CollationBean?) returns (r: Outcome<()>)
      modifies this, collation
      ensures name == old(name) && ctype == old(ctype) && lower == old(lower)
      ensures upper == old(upper) && unicode == old(unicode)
      ensures var before := if old(collations).Some? then old(collations).value else map[];
        && (collation == null ==> r == Thrown(NullPointer) && collations == Some(before))
        && (collation != null ==>
              && collation.name == old(collation.name) && collation.mapText == old(collation.mapText)
              && collations == Some(before[collation.name := collation])
              && (collation.name in before ==>
                    && r == Thrown(IllegalArgument("duplicate collation name: " + NameText(collation.name)))
                    && collation.charset == old(collation.charset))
              && (collation.name !in before ==> r == Ok(()) && collation.charset == this))
    {
      if collations.None? {
        collations := Some(map[]);
      }
      if collation == null {
        return Thrown(NullPointer);
      }
      var previous := collations.value;
      collations := Some(previous[collation.name := collation]);
      if collation.name in previous {
        return Thrown(IllegalArgument("duplicate collation name: " + NameText(collation.name)));
      }
      collation.charset := this;
      return Ok(());
    }
  }

  /** `xml.MySqlCharsetsBean`: the charset beans of one or more charset files, by name. */
  class CharsetsBean {
    var copyright: Option<string>
    var charsets: Option<map<Name, CharsetBean>>

    constructor ()
      ensures copyright.None? && charsets.None?
    {
      copyright := None;
      charsets := None;
    }

    function GetCopyright(): Option<string>
      reads this
    {
      copyright
    }

    /** `setCopyright(c)`: `getCopyright()` returns `c` from now on. */
    method SetCopyright(c: Option<string>)
      modifies this
      ensures GetCopyright() == c && charsets == old(charsets)
    {
      copyright := c;
    }

    function GetCharsets(): Option<map<Name, CharsetBean>>
      reads this
    {
      charsets
    }

    /** `setCharsets(m)`: `getCharsets()` returns `m` from now on. */
    method SetCharsets(m: Option<map<Name, CharsetBean>>)
      modifies this
      ensures GetCharsets() == m && copyright == old(copyright)
    {
      charsets := m;
    }

    /** `add(charset)`: as `MySqlCharsets.add`, over charset beans. */
    method Add(charset: CharsetBean?) returns (r: Outcome<()>)
      modifies this
      ensures copyright == old(copyright)
      ensures var before := if old(charsets).Some? then old(charsets).value else map[];
        && (charset == null ==> r == Thrown(NullPointer) && charsets == Some(before))
        && (charset != null ==>
              && charsets == Some(before[charset.name := charset])
              && (charset.name in before ==>
                    r == Thrown(IllegalArgument("duplicate charset name: " + NameText(charset.name))))
              && (charset.name !in before ==> r == Ok(())))
    {
      if charsets.None? {
        charsets := Some(map[]);
      }
      if charset == null {
        return Thrown(NullPointer);
      }
      var previous := charsets.value;
      charsets := Some(previous[charset.name := charset]);
      if charset.name in previous {
        return Thrown(IllegalArgument("duplicate charset name: " + NameText(charset.name)));
      }
      return Ok(());
    }

    /** The merging constructor `MySqlCharsetsBean(charsets...)`, as for `MySqlCharsets`. */
    static method Merge(inputs: seq<CharsetsBean?>) returns (r: Outcome<CharsetsBean>)
      ensures (exists i :: 0 <= i < |inputs| && (inputs[i] == null || inputs[i].charsets.None?)) ==> r == Thrown(NullPointer)
      ensures (forall i :: 0 <= i < |inputs| ==> (inputs[i] != null && inputs[i].charsets.Some?)) ==>
        && r.Ok? && fresh(r.value) && r.value.copyright.None?
        && r.value.charsets == Some(MergeMaps(BeanMapsOf(inputs)))
    {
      var merged := PutAll(inputs);
      if merged.Thrown? {
        return Thrown(merged.exc);
      }
      var c := new CharsetsBean();
      c.charsets := Some(merged.value);
      return Ok(c);
    }

    /** The loop of the merging constructor: `putAll` of each input's map in turn. */
    static method PutAll(inputs: seq<CharsetsBean?>) returns (r: Outcome<map<Name, CharsetBean>>)
      ensures (exists i :: 0 <= i < |inputs| && (inputs[i] == null || inputs[i].charsets.None?)) ==> r == Thrown(NullPointer)
      ensures (forall i :: 0 <= i < |inputs| ==> (inputs[i] != null && inputs[i].charsets.Some?)) ==>
        r == Ok(MergeMaps(BeanMapsOf(inputs)))
    {
      var merged: map<Name, CharsetBean> := map[];
      ghost var seen: seq<map<Name, CharsetBean>> := [];
      for i := 0 to |inputs|
        invariant forall j :: 0 <= j < i ==> (inputs[j] != null && inputs[j].charsets.Some?)
        invariant |seen| == i && forall j :: 0 <= j < i ==> seen[j] == inputs[j].charsets.value
        invariant merged == MergeMaps(seen)
      {
        if inputs[i] == null || inputs[i].charsets.None? {
          return Thrown(NullPointer);
        }
        assert (seen + [inputs[i].charsets.value])[..i] == seen;
        merged := merged + inputs[i].charsets.value;
        seen := seen + [inputs[i].charsets.value];
      }
      assert seen == BeanMapsOf(inputs);
      return Ok(merged);
    }
  }

  /** The maps of inputs that all have one. */
  function BeanMapsOf(inputs: seq<CharsetsBean?>): (ms: seq<map<Name, CharsetBean>>)
    requires forall i :: 0 <= i < |inputs| ==> (inputs[i] != null && inputs[i].charsets.Some?)
    reads set i | 0 <= i < |inputs| :: inputs[i]
    ensures |ms| == |inputs| && forall i :: 0 <= i < |inputs| ==> ms[i] == inputs[i].charsets.value
  {
    if |inputs| == 0 then []
    else BeanMapsOf(inputs[..|inputs| - 1]) + [inputs[|inputs| - 1].charsets.value]
  }
}
