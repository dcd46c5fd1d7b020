/**
 * The lookup half of `MySqlCollatorFactory`: a factory holds the charsets read from charset
 * files and hands out the collator of a charset/collation pair; `addCharsets` lays another
 * factory's charsets over its own, and the file filter picks the charset files of a
 * directory.  Reading the files themselves is not part of this model.
 */
module Factory {
  import opened Java
  import opened Collations
  import opened Registries

  /** `CHARSET_DEFAULT` and `COLLATION_DEFAULT`. */
  const DefaultCharset: Name := Some("latin1")
  const DefaultCollation: Name := Some("latin1_swedish_ci")

  /** `name.endsWith(suffix)`. */
  predicate EndsWith(name: string, suffix: string)
  {
    |suffix| <= |name| && name[|name| - |suffix|..] == suffix
  }

  /** `CharsetFileFilter.accept(dir, name)`: an XML file other than the index file. */
  function AcceptCharsetFile(name: string): (r: bool)
    ensures r <==> (exists stem :: name == stem + ".xml") && name != "Index.xml"
  {
    if EndsWith(name, ".xml") then
      assert name == name[..|name| - 4] + ".xml";
      name != "Index.xml"
    else
      assert forall stem :: EndsWith(stem + ".xml", ".xml") by {
        forall stem
          ensures EndsWith(stem + ".xml", ".xml")
        {
          assert (stem + ".xml")[|stem|..] == ".xml";
        }
      }
      false
  }

  /** Charset files are picked by extension alone; the index file is the one exception. */
  lemma CharsetFileExamples()
    ensures AcceptCharsetFile("latin1.xml") && AcceptCharsetFile("cp1250.xml")
    ensures !AcceptCharsetFile("Index.xml") && !AcceptCharsetFile("latin1.txt")
  {
    assert "latin1.xml" == "latin1" + ".xml";
    assert "cp1250.xml" == "cp1250" + ".xml";
    assert "latin1.txt"[6..] != ".xml";
  }

  /** `MySqlCollatorFactory`: the charsets it looks collations up in. */
  class CollatorFactory {
    var charsets: Charsets?

    constructor (charsets: Charsets?)
      ensures this.charsets == charsets
    {
      this.charsets := charsets;
    }

    /**
     * The collation `getCollator(charset, collation)` finds, or what it throws on the way:
     * `NullPointerException` without charsets or without a collation map, and
     * `IllegalArgumentException` naming what is missing.
     */
    function Lookup(charsetName: Name, collationName: Name): (r: Outcome<XmlCollation>)
      reads this, charsets
      reads if charsets != null && charsets.charsets.Some? then charsets.charsets.value.Values else {}
      ensures charsets == null || charsets.charsets.None? ==> r == Thrown(NullPointer)
      ensures charsets != null && charsets.charsets.Some? && charsetName !in charsets.charsets.value ==>
        r == Thrown(IllegalArgument("charset not available: " + NameText(charsetName)))
      ensures charsets != null && charsets.charsets.Some? && charsetName in charsets.charsets.value ==>
        var cs := charsets.charsets.value[charsetName];
        && (cs.collations.None? ==> r == Thrown(NullPointer))
        && (cs.collations.Some? && collationName !in cs.collations.value ==>
              r == Thrown(IllegalArgument("collation not available for charset '" + NameText(charsetName)
                                          + "': " + NameText(collationName))))
        && (cs.collations.Some? && collationName in cs.collations.value ==>
              r == Ok(cs.collations.value[collationName]))
    {
      if charsets == null || charsets.charsets.None? then Thrown(NullPointer)
      else if charsetName !in charsets.charsets.value then
        Thrown(IllegalArgument("charset not available: " + NameText(charsetName)))
      else
        var cs := charsets.charsets.value[charsetName];
        if cs.collations.None? then Thrown(NullPointer)
        else if collationName !in cs.collations.value then
          Thrown(IllegalArgument("collation not available for charset '" + NameText(charsetName)
                                 + "': " + NameText(collationName)))
        else Ok(cs.collations.value[collationName])
    }

    /**
     * `getCollator(charset, collation)`: the collator instance of the collation found, created
     * on the first request and the same instance on every later one.
     */
    method GetCollator(charsetName: Name, collationName: Name) returns (r: Outcome<Collator>)
      modifies if Lookup(charsetName, collationName).Ok? then {Lookup(charsetName, collationName).value} else {}
      ensures Lookup(charsetName, collationName) == old(Lookup(charsetName, collationName))
      ensures match old(Lookup(charsetName, collationName))
              case Thrown(e) => r == Thrown(e)
              case Ok(coll) =>
                && r.Ok? && r.value == coll.collator
                && (old(coll.collator) != null ==> r.value == old(coll.collator))
                && (old(coll.collator) == null ==> fresh(r.value) && r.value.collation == XmlRef(coll))
                && (old(coll.Valid()) ==> coll.Valid() && r.value.collation == XmlRef(coll))
    {
      var found := Lookup(charsetName, collationName);
      if found.Thrown? {
        return Thrown(found.exc);
      }
      var collator := found.value.GetCollatorInstance();
      return Ok(collator);
    }

    /** Asking twice for one pair gives the same collator instance. */
    method GetCollatorTwice(charsetName: Name, collationName: Name) returns (first: Outcome<Collator>, second: Outcome<Collator>)
      modifies if Lookup(charsetName, collationName).Ok? then {Lookup(charsetName, collationName).value} else {}
      ensures first == second
      ensures first.Thrown? <==> Lookup(charsetName, collationName).Thrown?
    {
      first := GetCollator(charsetName, collationName);
      second := GetCollator(charsetName, collationName);
    }

    /** `getDefaultCollator()`: the collator of latin1 under latin1_swedish_ci. */
    method GetDefaultCollator() returns (r: Outcome<Collator>)
      modifies if Lookup(DefaultCharset, DefaultCollation).Ok? then {Lookup(DefaultCharset, DefaultCollation).value} else {}
      ensures match old(Lookup(DefaultCharset, DefaultCollation))
              case Thrown(e) => r == Thrown(e)
              case Ok(coll) =>
                && r.Ok? && r.value == coll.collator
                && (old(coll.collator) != null ==> r.value == old(coll.collator))
                && (old(coll.Valid()) ==> coll.Valid() && r.value.collation == XmlRef(coll))
    {
      r := GetCollator(DefaultCharset, DefaultCollation);
    }

    /**
     * `addCharsets(current)`: replaces the charsets with the merge of this factory's and
     * `current`'s, so that `current`'s charset wins a shared name.  A null factory, or either
     * side without charsets, throws `NullPointerException` and leaves the charsets as they were.
     */
    method AddCharsets(current: CollatorFactory?) returns (r: Outcome<()>)
      modifies this
      ensures current == null || old(charsets) == null || old(charsets.charsets).None?
              || old(current.charsets) == null || old(current.charsets.charsets).None? ==>
        r == Thrown(NullPointer) && charsets == old(charsets)
      ensures current != null && old(charsets) != null && old(charsets.charsets).Some?
              && old(current.charsets) != null && old(current.charsets.charsets).Some? ==>
        && r == Ok(()) && charsets != null && fresh(charsets) && charsets.copyright.None?
        && charsets.charsets == Some(old(charsets.charsets.value) + old(current.charsets.charsets.value))
    {
      if current == null {
        return Thrown(NullPointer);
      }
      var inputs := [charsets, current.charsets];
      var merged := Charsets.Merge(inputs);
      if merged.Thrown? {
        return Thrown(merged.exc);
      }
      assert !(exists i :: 0 <= i < |inputs| && (inputs[i] == null || inputs[i].charsets.None?)) by {
        assert merged.Ok?;
      }
      assert inputs[0] != null && inputs[0].charsets.Some?;
      assert inputs[1] != null && inputs[1].charsets.Some?;
      var a, b := charsets.charsets.value, current.charsets.charsets.value;
      assert MapsOf(inputs) == [a, b];
      MergeTwo(a, b);
      charsets := merged.value;
      return Ok(());
    }
  }

  /** After `addCharsets`, a charset name the other factory knows resolves to its charset. */
  lemma AddCharsetsLaterWins(mine: map<Name, XmlCharset>, theirs: map<Name, XmlCharset>, n: Name)
    ensures n in MergeMaps([mine, theirs]) <==> n in mine || n in theirs
    ensures n in theirs ==> MergeMaps([mine, theirs])[n] == theirs[n]
    ensures n !in theirs && n in mine ==> MergeMaps([mine, theirs])[n] == mine[n]
  {
    MergeTwo(mine, theirs);
  }
}
