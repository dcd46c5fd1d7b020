/**
 * The two generations of `MySqlCharacterMap`: a table of ints given as a hexadecimal map
 * string.  The `xml` one parses the string as soon as it is set; the top-level one keeps the
 * string and parses it on first use, caching the values until the string changes.
 */
module CharacterMaps {
  import opened Java
  import opened HexMaps
  import CharsetUtils

  /** `xml.MySqlCharacterMap`: the parsed values, or none before a map is set. */
  class XmlCharacterMap {
    var values: Option<seq<int>>

    constructor ()
      ensures values.None?
    {
      values := None;
    }

    /**
     * `setMap(map)`: the values of `map`, one per token in order; `null` clears them.  A token
     * that does not parse throws before the assignment, so the previous values survive.
     */
    method SetMap(mapText: Option<string>) returns (r: Outcome<()>)
      modifies this
      ensures mapText.None? ==> r.Ok? && values.None?
      ensures mapText.Some? && ParseMap(mapText.value).Ok? ==>
        var ts := Split(mapText.value);
        && r.Ok? && values.Some? && |values.value| == |ts|
        && forall i :: 0 <= i < |ts| ==> GetValue(i) == Ok(ParseHexInt(ts[i]).value as int)
      ensures mapText.Some? && ParseMap(mapText.value).Thrown? ==>
        r == Thrown(ParseMap(mapText.value).exc) && values == old(values)
    {
      var parsed := CharsetUtils.ToIntArray(mapText);
      match parsed {
        case Thrown(e) =>
          return Thrown(e);
        case Ok(vs) =>
          values := vs;
          if vs.Some? {
            ParseMapOk(mapText.value, vs.value);
          }
          return Ok(());
      }
    }

    /**
     * `getValue(index)`: `IllegalStateException` with no map set, checked before the index;
     * then `ArrayIndexOutOfBoundsException` outside the values; else the value at `index`.
     */
    function GetValue(index: int): (r: Outcome<int>)
      reads this
      ensures values.None? ==> r == Thrown(IllegalState("no map set"))
      ensures values.Some? && !(0 <= index < |values.value|) ==> r == Thrown(ArrayIndexOutOfBounds(index))
      ensures values.Some? && 0 <= index < |values.value| ==> r == Ok(values.value[index])
    {
      if values.None? then Thrown(IllegalState("no map set")) else ValueAt(values.value, index)
    }
  }

  /**
   * The top-level `MySqlCharacterMap`: the map string, and the values parsed from it on first
   * use (`_values`, a transient cache).
   */
  class CharacterMap {
    var mapText: Option<string>
    var cache: Option<seq<int>>

    /** A filled cache always holds the values of the current map string. */
    ghost predicate Valid()
      reads this
    {
      cache.Some? ==> mapText.Some? && ParseMap(mapText.value) == Ok(cache.value)
    }

    constructor ()
      ensures Valid() && mapText.None? && cache.None?
    {
      mapText := None;
      cache := None;
    }

    /** `getMap()`: the string last passed to `setMap`. */
    function GetMap(): Option<string>
      reads this
    {
      mapText
    }

    /** `setMap(map)`: stores the string and drops the cached values; nothing is parsed yet. */
    method SetMap(m: Option<string>)
      modifies this
      ensures Valid() && GetMap() == m && cache.None?
    {
      mapText := m;
      cache := None;
    }

    /**
     * `getValues()`: parses the map on first use and caches the values.  A filled cache is
     * returned as it is, so each map string is parsed successfully at most once.
     */
    method GetValues() returns (r: Outcome<Option<seq<int>>>)
      requires Valid()
      modifies this
      ensures Valid() && mapText == old(mapText)
      ensures old(cache).Some? ==> cache == old(cache) && r == Ok(cache)
      ensures mapText.None? ==> r == Ok(None) && cache.None?
      ensures mapText.Some? ==> match ParseMap(mapText.value)
                                case Ok(vs) => r == Ok(Some(vs)) && cache == Some(vs)
                                case Thrown(e) => r == Thrown(e) && cache.None?
    {
      if cache.None? && mapText.Some? {
        var parsed := CharsetUtils.ToIntArray(mapText);
        if parsed.Thrown? {
          return Thrown(parsed.exc);
        }
        cache := parsed.value;
      }
      return Ok(cache);
    }

    /**
     * What `getValue(index)` yields for the current map string, whether or not it is cached:
     * `IllegalStateException` without a string, the parse failure of a malformed one, and
     * otherwise the value at `index` or `ArrayIndexOutOfBoundsException`.
     */
    function Entry(index: int): Outcome<int>
      reads this
    {
      if mapText.None? then Thrown(IllegalState("no map set"))
      else
        match ParseMap(mapText.value)
        case Ok(vs) => ValueAt(vs, index)
        case Thrown(e) => Thrown(e)
    }

    /**
     * The cases of `Entry`: `IllegalStateException` without a string, the parse failure of a
     * malformed one, else the value of the token at `index` or out of bounds.
     */
    lemma EntryCases(index: int)
      ensures mapText.None? ==> Entry(index) == Thrown(IllegalState("no map set"))
      ensures mapText.Some? && ParseMap(mapText.value).Thrown? ==> Entry(index) == Thrown(ParseMap(mapText.value).exc)
      ensures mapText.Some? && ParseMap(mapText.value).Ok? ==>
        var ts := Split(mapText.value);
        && (0 <= index < |ts| ==> Entry(index) == Ok(ParseHexInt(ts[index]).value as int))
        && (!(0 <= index < |ts|) ==> Entry(index) == Thrown(ArrayIndexOutOfBounds(index)))
    {
    }

    /**
     * `getValue(index)`: `IllegalStateException` with no map string, before anything else;
     * then a malformed map surfaces here as `NumberFormatException`; then the bounds check.
     */
    method GetValue(index: int) returns (r: Outcome<int>)
      requires Valid()
      modifies this
      ensures Valid() && mapText == old(mapText)
      ensures old(cache).Some? ==> cache == old(cache)
      ensures r == Entry(index)
    {
      if mapText.None? {
        return Thrown(IllegalState("no map set"));
      }
      var values := GetValues();
      if values.Thrown? {
        return Thrown(values.exc);
      }
      return ValueAt(values.value.value, index);
    }
  }

  /** After `setMap`, lookups see the new string's values, whatever was cached before. */
  method SetMapThenGetValue(m: CharacterMap, text: string, index: int) returns (r: Outcome<int>)
    requires m.Valid()
    modifies m
    ensures r == match ParseMap(text)
                 case Ok(vs) => ValueAt(vs, index)
                 case Thrown(e) => Thrown(e)
    ensures m.Entry(index) == r
  {
    m.SetMap(Some(text));
    r := m.GetValue(index);
  }
}
