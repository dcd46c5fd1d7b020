/**
 * `MySqlCharsetUtils`: a map string turned into an `int[]`, `byte[]` or `char[]`, one entry
 * per hexadecimal token.  A null map gives a null array, and a token that does not parse
 * raises `NumberFormatException` so that no array is returned.
 *
 * The arrays are filled index by index as in the source and handed back as sequences: no
 * caller writes into them afterwards.
 */
module CharsetUtils {
  import opened Java
  import opened HexMaps

  /**
   * `toIntArray(map)`, and the private `parseMapValues` of both character map classes, which
   * is the same loop: split at whitespace, then parse each token base 16 into its slot.
   */
  method ToIntArray(mapText: Option<string>) returns (r: Outcome<Option<seq<int>>>)
    ensures mapText.None? ==> r == Ok(None)
    ensures mapText.Some? ==> r == match ParseMap(mapText.value)
                               case Ok(vs) => Ok(Some(vs))
                               case Thrown(e) => Thrown(e)
  {
    if mapText.None? {
      return Ok(None);
    }
    var values := ParseAll(Split(mapText.value));
    if values.Thrown? {
      return Thrown(values.exc);
    }
    return Ok(Some(values.value));
  }

  /** The loop of `toIntArray`: each token parsed base 16 into its slot of a new array. */
  method ParseAll(str: seq<string>) returns (r: Outcome<seq<int>>)
    ensures r == ParseTokens(str)
  {
    var values := new int[|str|];
    for i := 0 to values.Length
      invariant forall j :: 0 <= j < i ==> ParseHexInt(str[j]) == Some(values[j])
    {
      var v := ParseHexInt(str[i]);
      if v.None? {
        ParseTokensFirstFailure(str, i);
        return Thrown(NumberFormat(str[i]));
      }
      values[i] := v.value;
    }
    ParseTokensAllOk(str, values[..]);
    return Ok(values[..]);
  }

  /** Each parsed value cut to its low 8 bits as a signed byte. */
  function MapBytes(vs: seq<int>): (bs: seq<JByte>)
    ensures |bs| == |vs| && forall i :: 0 <= i < |vs| ==> bs[i] == ToByte(vs[i])
  {
    seq(|vs|, i requires 0 <= i < |vs| => ToByte(vs[i]))
  }

  /** Each parsed value cut to its low 16 bits. */
  function MapChars(vs: seq<int>): (cs: seq<Char>)
    ensures |cs| == |vs| && forall i :: 0 <= i < |vs| ==> cs[i] == ToChar(vs[i])
  {
    seq(|vs|, i requires 0 <= i < |vs| => ToChar(vs[i]))
  }

  /** What `toByteArray(map)` returns or throws. */
  function ByteArrayOf(mapText: Option<string>): Outcome<Option<seq<JByte>>>
  {
    match mapText
    case None => Ok(None)
    case Some(t) =>
      match ParseMap(t)
      case Thrown(e) => Thrown(e)
      case Ok(vs) => Ok(Some(MapBytes(vs)))
  }

  /** What `toCharArray(map)` returns or throws. */
  function CharArrayOf(mapText: Option<string>): Outcome<Option<seq<Char>>>
  {
    match mapText
    case None => Ok(None)
    case Some(t) =>
      match ParseMap(t)
      case Thrown(e) => Thrown(e)
      case Ok(vs) => Ok(Some(MapChars(vs)))
  }

  /** `toByteArray(map)`: the parsed values, each cut to its low 8 bits as a signed byte. */
  method ToByteArray(mapText: Option<string>) returns (r: Outcome<Option<seq<JByte>>>)
    ensures r == ByteArrayOf(mapText)
  {
    var parsed := ToIntArray(mapText);
    if parsed.Thrown? {
      return Thrown(parsed.exc);
    }
    if parsed.value.None? {
      return Ok(None);
    }
    var bytes := CutToBytes(parsed.value.value);
    return Ok(Some(bytes));
  }

  /** The loop of `toByteArray`. */
  method CutToBytes(values: seq<int>) returns (bs: seq<JByte>)
    ensures bs == MapBytes(values)
  {
    var bytes := new JByte[|values|];
    for i := 0 to bytes.Length
      invariant forall j :: 0 <= j < i ==> bytes[j] == ToByte(values[j])
    {
      bytes[i] := ToByte(values[i]);
    }
    bs := bytes[..];
  }

  /** `toCharArray(map)`: the parsed values, each cut to its low 16 bits. */
  method ToCharArray(mapText: Option<string>) returns (r: Outcome<Option<seq<Char>>>)
    ensures r == CharArrayOf(mapText)
  {
    var parsed := ToIntArray(mapText);
    if parsed.Thrown? {
      return Thrown(parsed.exc);
    }
    if parsed.value.None? {
      return Ok(None);
    }
    var chars := CutToChars(parsed.value.value);
    return Ok(Some(chars));
  }

  /** The loop of `toCharArray`. */
  method CutToChars(values: seq<int>) returns (cs: seq<Char>)
    ensures cs == MapChars(values)
  {
    var chars := new Char[|values|];
    for i := 0 to chars.Length
      invariant forall j :: 0 <= j < i ==> chars[j] == ToChar(values[j])
    {
      chars[i] := ToChar(values[i]);
    }
    cs := chars[..];
  }
}
