# MySQL collations for Java, modelled in Dafny

molindo-mysql-collations gives Java code the string ordering of MySQL's 8-bit character
sets. MySQL describes each charset in an XML file with four hexadecimal maps of 256
entries each (`ctype`, `lower`, `upper`, `unicode`), and each collation with one more map:
the weight of each character index. A `java.text.Collator` then compares two strings by
weighing each character:

1. find the character's index in the charset;
2. read the collation's weight at that index;
3. compare the weights as signed bytes, position by position, and then by length.

A collation key stores the weights of one string, so that keys can be compared without the
collation.

This project models the library's core:

- **Map strings** (`HexMaps`, `CharsetUtils`, `CharacterMaps`): a map string is split at
  whitespace and each token is parsed base 16. This yields the `int[]`, `byte[]` and
  `char[]` tables, including `NumberFormatException` for a malformed token. Both character
  map classes are modelled: the `xml` one parses when the map is set; the top-level one
  parses lazily and caches the values.
- **Charsets** (`Collations.XmlCharset`, `Collations.LegacyCharset`):
  - the `xml` charset builds its character/index lookup from the `unicode` map;
  - the top-level charset encodes a character and reads the bytes of the result, over a
    `java.nio` charset reduced to two functions;
  - both provide case mapping and the eight character-type predicates on the `ctype` map.
- **Collations** (`Collations.XmlCollation`, `Collations.LegacyCollation`):
  - the weight of a character;
  - the normalisation table, which maps each weight to the lowest character with that
    weight;
  - `normalize`;
  - the collator instance, created on first use.
- **Comparison** (`Collating`, `Collations.Collator`, `Collations.CollationKey`):
  - `compare`, `equals` and `isMappable` over a collation's weight function;
  - collation keys with their `int` hash code, key `equals`/`compareTo`, and the
    serialised form.
- **Registries** (`Registries`): the charset registry `MySqlCharsets` and its bean twin
  `MySqlCharsetsBean`, including the merging constructor, and the charset bean
  `MySqlCharsetBean`.
- **Factory** (`Factory`): the lookup half of `MySqlCollatorFactory`, which covers:
  - the charset file filter;
  - `getCollator`;
  - `getDefaultCollator` (latin1 / latin1_swedish_ci);
  - `addCharsets`.

Java's types are explicit in the model:

- `char` is an integer in [0, 0x10000);
- `byte` is in [-128, 127];
- `(byte)` and `(char)` casts are written out as wrap-around;
- the key's hash code is computed in 32-bit wrap-around arithmetic;
- every exception the core can throw is a value of `Outcome`;
- a `null` string or name is `None`.

Java's `==` on strings and keys (reference identity) is a boolean parameter of the
operations that test it.

## Model

| member | source | states |
|---|---|---|
| Java.ToByte | src/main/java/at/molindo/mysqlcollations/MySqlCharsetUtils.java:30 | `(byte) x` is the signed byte congruent to `x` modulo 256 |
| Java.ToChar | src/main/java/at/molindo/mysqlcollations/MySqlCharsetUtils.java:42 | `(char) x` is the code unit congruent to `x` modulo 65536 |
| Java.Unsigned | src/main/java/at/molindo/mysqlcollations/xml/MySqlCollation.java:93 | `b & 0xFF` lies in [0, 256) and casts back to `b` |
| Java.WrapInt | src/main/java/at/molindo/mysqlcollations/MySqlCollationKey.java:46-48 | `int` arithmetic gives the value congruent modulo 2^32 within the `int` range |
| Java.UnsignedInjective | src/main/java/at/molindo/mysqlcollations/xml/MySqlCollation.java:93 | distinct bytes land in distinct buckets of `b & 0xFF` |
| HexMaps.Split | src/main/java/at/molindo/mysqlcollations/MySqlCharsetUtils.java:53 | `split("\\s+")` pieces contain no whitespace; trailing empty pieces are dropped |
| HexMaps.SplitTokens | src/main/java/at/molindo/mysqlcollations/MySqlCharsetUtils.java:53 | splitting a text without leading whitespace gives non-empty whitespace-free tokens |
| HexMaps.SplitJoin | src/main/java/at/molindo/mysqlcollations/MySqlCharsetUtils.java:53 | splitting the tokens joined by single spaces gives the tokens back |
| HexMaps.ParseHexInt | src/main/java/at/molindo/mysqlcollations/MySqlCharsetUtils.java:56 | `Integer.parseInt(s, 16)` succeeds exactly on an optional sign followed by hex digits, with the value in the `int` range |
| HexMaps.ParseFormatHex | src/main/java/at/molindo/mysqlcollations/MySqlCharsetUtils.java:56 | parsing the hex spelling of a non-negative `int` gives the value back |
| HexMaps.ParseTokens | src/main/java/at/molindo/mysqlcollations/MySqlCharsetUtils.java:55-58 | one value per token, each the token's value; it fails exactly when some token does not parse, naming the first such token |
| HexMaps.ParseTokensAllOk | src/main/java/at/molindo/mysqlcollations/MySqlCharsetUtils.java:55-58 | when every token parses, the values are the tokens' values in order |
| HexMaps.ParseTokensFirstFailure | src/main/java/at/molindo/mysqlcollations/MySqlCharsetUtils.java:55-58 | the first token that does not parse decides the `NumberFormatException` |
| HexMaps.ParseMapOk | src/main/java/at/molindo/mysqlcollations/MySqlCharsetUtils.java:53-58 | a map parses to `vs` exactly when `vs` has one entry per token, each the token's value |
| HexMaps.LeadingWhitespaceFails | src/main/java/at/molindo/mysqlcollations/MySqlCharsetUtils.java:53-56 | a map starting with whitespace gives an empty first token, which throws `NumberFormatException` |
| HexMaps.ParseFormatMap | src/main/java/at/molindo/mysqlcollations/MySqlCharsetUtils.java:53-58 | the space-separated hex spelling of non-negative values parses back to the values |
| HexMaps.ValueAt | src/main/java/at/molindo/mysqlcollations/xml/MySqlCharacterMap.java:42-45 | an array read gives the entry in bounds and `ArrayIndexOutOfBoundsException` outside them |
| CharsetUtils.ToIntArray | src/main/java/at/molindo/mysqlcollations/MySqlCharsetUtils.java:47-59 | null gives null; otherwise the parsed map, or its `NumberFormatException` |
| CharsetUtils.ParseAll | src/main/java/at/molindo/mysqlcollations/MySqlCharsetUtils.java:55-58 | the array loop yields exactly the token-by-token parse, stopping at the first bad token |
| CharsetUtils.MapBytes | src/main/java/at/molindo/mysqlcollations/MySqlCharsetUtils.java:29-31 | each value cut to a signed byte, position by position |
| CharsetUtils.MapChars | src/main/java/at/molindo/mysqlcollations/MySqlCharsetUtils.java:41-43 | each value cut to a `char`, position by position |
| CharsetUtils.ToByteArray | src/main/java/at/molindo/mysqlcollations/MySqlCharsetUtils.java:23-33 | null gives null, a bad token throws, else one signed byte per token |
| CharsetUtils.CutToBytes | src/main/java/at/molindo/mysqlcollations/MySqlCharsetUtils.java:28-31 | the copying loop fills every slot with the cut value |
| CharsetUtils.ToCharArray | src/main/java/at/molindo/mysqlcollations/MySqlCharsetUtils.java:35-45 | null gives null, a bad token throws, else one `char` per token |
| CharsetUtils.CutToChars | src/main/java/at/molindo/mysqlcollations/MySqlCharsetUtils.java:40-43 | the copying loop fills every slot with the cut value |
| CharacterMaps.XmlCharacterMap.SetMap | src/main/java/at/molindo/mysqlcollations/xml/MySqlCharacterMap.java:29-31 | null clears the values; a good map makes `getValue(i)` the value of token `i`; a bad one throws and keeps the old values |
| CharacterMaps.XmlCharacterMap.GetValue | src/main/java/at/molindo/mysqlcollations/xml/MySqlCharacterMap.java:37-46 | `IllegalStateException` without a map, checked before the index; then the bounds check |
| CharacterMaps.CharacterMap.SetMap | src/main/java/at/molindo/mysqlcollations/MySqlCharacterMap.java:34-37 | stores the string and drops the cache, so the cache invariant holds |
| CharacterMaps.CharacterMap.GetValues | src/main/java/at/molindo/mysqlcollations/MySqlCharacterMap.java:39-44 | a filled cache is returned unchanged; otherwise the map is parsed and cached, or its failure returned with the cache left empty |
| CharacterMaps.CharacterMap.EntryCases | src/main/java/at/molindo/mysqlcollations/MySqlCharacterMap.java:46-56 | `IllegalStateException` without a string, the parse failure of a bad one, else the token's value or out of bounds |
| CharacterMaps.CharacterMap.GetValue | src/main/java/at/molindo/mysqlcollations/MySqlCharacterMap.java:46-56 | cached or not, the result is the current string's entry, and the cache stays consistent with the string |
| CharacterMaps.SetMapThenGetValue | src/main/java/at/molindo/mysqlcollations/MySqlCharacterMap.java:34-56 | after `setMap(text)` a lookup sees `text`'s values, whatever was cached before |
| Lookup.Zeros | src/main/java/at/molindo/mysqlcollations/xml/MySqlCharset.java:115 | a new `char[n]` holds `n` zeros |
| Lookup.IndexChars | src/main/java/at/molindo/mysqlcollations/xml/MySqlCharset.java:118-120 | entry `i` of the index table is `(char) unicode[i]` |
| Lookup.CharToIndex | src/main/java/at/molindo/mysqlcollations/xml/MySqlCharset.java:115-120 | a character is in the reverse table iff some index holds it, maps to an index holding it, and no later index holds it |
| Lookup.CharToIndexInverts | src/main/java/at/molindo/mysqlcollations/xml/MySqlCharset.java:115-120 | with distinct characters, the reverse table sends each index's character back to that index |
| Lookup.CharToIndexLastWins | src/main/java/at/molindo/mysqlcollations/xml/MySqlCharset.java:115-120 | a character held at two indexes does not map back to the earlier one |
| Lookup.Bit | src/main/java/at/molindo/mysqlcollations/xml/MySqlCharset.java:148-178 | each character-type flag is one of the 8 bits of a ctype entry |
| Lookup.MasksAreDistinctBits | src/main/java/at/molindo/mysqlcollations/xml/MySqlCharset.java:148-178 | each predicate's mask is a single bit, and distinct predicates test distinct bits |
| Lookup.TestMaskIsBit | src/main/java/at/molindo/mysqlcollations/xml/MySqlCharset.java:148-178 | each predicate's test of the entry is its flag's bit `v / 2^k % 2`, negative entries included |
| Lookup.TestMaskIsAnd | src/main/java/at/molindo/mysqlcollations/xml/MySqlCharset.java:148-178 | `(v & mask) != 0`, with `&` taken digit by digit over the 32-bit two's-complement forms, holds exactly when `TestMask` does, for every `int` entry |
| Collating.Weights | src/main/java/at/molindo/mysqlcollations/MySqlCollationKey.java:40-51 | the weights exist iff every character has one, one per character in order |
| Collating.LexFirstDifference | src/main/java/at/molindo/mysqlcollations/MySqlCollationKey.java:89-104 | at the first differing position the result is the difference of the two weights, non-zero and within ±255 |
| Collating.LexPrefix | src/main/java/at/molindo/mysqlcollations/MySqlCollationKey.java:89-104 | when one key is a prefix of the other the result is the length difference |
| Collating.LexAntisymmetric | src/main/java/at/molindo/mysqlcollations/MySqlCollationKey.java:89-104 | swapping the operands negates the result |
| Collating.LexZeroIff | src/main/java/at/molindo/mysqlcollations/MySqlCollationKey.java:89-104 | the result is 0 exactly for equal weight sequences |
| Collating.LexTransitive | src/main/java/at/molindo/mysqlcollations/MySqlCollationKey.java:89-104 | the ordering is transitive |
| Collating.HighWeightsFirst | src/main/java/at/molindo/mysqlcollations/MySqlCollator.java:51-53 | weights compare as signed bytes, so a weight of 0x80 or more sorts before one below 0x80 |
| Collating.CompareIsLex | src/main/java/at/molindo/mysqlcollations/MySqlCollator.java:44-59 | when both strings are weighable, `compare` is the lexicographic comparison of their weight sequences |
| Collating.CompareFromLex | src/main/java/at/molindo/mysqlcollations/MySqlCollator.java:47-58 | the comparison loop from position `i` equals the comparison of the weight suffixes |
| Collating.CompareAntisymmetric | src/main/java/at/molindo/mysqlcollations/MySqlCollator.java:44-59 | `compare(s, t) == -compare(t, s)` |
| Collating.CompareZeroIff | src/main/java/at/molindo/mysqlcollations/MySqlCollator.java:44-59 | `compare` gives 0 exactly for strings of equal length with equal weights position by position |
| Collating.EqualsIffCompareZero | src/main/java/at/molindo/mysqlcollations/MySqlCollator.java:62-80 | for strings where every character has a weight, `equals(s, t)` holds exactly when `compare(s, t) == 0` |
| Collating.EqualsAgreesWithCompare | src/main/java/at/molindo/mysqlcollations/MySqlCollator.java:44-80 | with any weigher, failures included: for one length `equals` throws exactly what `compare` throws and otherwise holds exactly when `compare` gives 0; for different lengths `equals` is false and a completed `compare` is not 0 |
| Collating.EqualsFromLex | src/main/java/at/molindo/mysqlcollations/MySqlCollator.java:70-79 | the equality loop from position `i` decides equality of the weight suffixes |
| Collating.MappableIff | src/main/java/at/molindo/mysqlcollations/MySqlCollator.java:96-107 | `isMappable` holds exactly when every character has a non-negative index |
| Collating.BuildTable | src/main/java/at/molindo/mysqlcollations/xml/MySqlCollation.java:86-103 | the normalisation table always has 256 entries |
| Collating.BuildTableBuckets | src/main/java/at/molindo/mysqlcollations/xml/MySqlCollation.java:92-98 | each table entry is 0 or a character of that weight bucket, a non-empty bucket is filled, and without a 0 character it holds the bucket's lowest character |
| Collating.BuildTableOrderDependent | src/main/java/at/molindo/mysqlcollations/xml/MySqlCollation.java:95 | a 0 character in a bucket is overwritten by any later one, so the result depends on the order |
| Collating.NormalizeWith | src/main/java/at/molindo/mysqlcollations/xml/MySqlCollation.java:105-115 | normalising succeeds iff every character has a weight, and gives the table entry of each character's bucket |
| Collating.NormalizeIdempotent | src/main/java/at/molindo/mysqlcollations/xml/MySqlCollation.java:105-115 | over the table built from the charset's characters, normalising twice equals normalising once |
| Collating.HashSnoc | src/main/java/at/molindo/mysqlcollations/MySqlCollationKey.java:46-48 | one more weight updates the hash to `31 * h + w` in `int` arithmetic |
| Collating.HashIsWrappedPolynomial | src/main/java/at/molindo/mysqlcollations/MySqlCollationKey.java:43-50 | the hash is the polynomial `31^n + Σ w_i·31^(n-1-i)` wrapped to `int` |
| Collating.CaseInsensitiveScenario | src/test/java/at/molindo/mysqlcollations/MySqlCollatorTest.java:41-62 | under weights equating `F` and `f`, "foobar" equals "Foobar" with equal keys, and differs from "foo bar" |
| Collations.XmlCharset.SetUnicode | src/main/java/at/molindo/mysqlcollations/xml/MySqlCharset.java:105-122 | null clears the lookup; a map of at least 256 values builds both tables from its first 256 values; a shorter one throws at the first missing index |
| Collations.XmlCharset.ToIndex | src/main/java/at/molindo/mysqlcollations/xml/MySqlCharset.java:196-199 | -1 exactly for characters not in the table; otherwise the highest index holding the character |
| Collations.XmlCharset.ToChar | src/main/java/at/molindo/mysqlcollations/xml/MySqlCharset.java:201-203 | index `i` gives `(char) unicode[i]`, out of range throws |
| Collations.XmlCharset.ToCharToIndex | src/main/java/at/molindo/mysqlcollations/xml/MySqlCharset.java:196-203 | `toChar(toIndex(c)) == c` for every mappable character |
| Collations.XmlCharset.ToIndexToChar | src/main/java/at/molindo/mysqlcollations/xml/MySqlCharset.java:196-203 | with distinct unicode values, `toIndex(toChar(i)) == i` for every index |
| Collations.XmlCharset.ToUnicode | src/main/java/at/molindo/mysqlcollations/xml/MySqlCharset.java:205-207 | a mappable character maps to itself; an unmappable one fails at index -1 |
| Collations.XmlCharset.ToLower | src/main/java/at/molindo/mysqlcollations/xml/MySqlCharset.java:185-187 | the character of the lower map's entry at the character's index |
| Collations.XmlCharset.ToUpper | src/main/java/at/molindo/mysqlcollations/xml/MySqlCharset.java:189-191 | the character of the upper map's entry at the character's index |
| Collations.XmlCharset.IsCtype | src/main/java/at/molindo/mysqlcollations/xml/MySqlCharset.java:148-183 | the flag's bit of `ctype[toIndex(c) + 1]`; an unmappable character reads the sentinel entry |
| Collations.XmlCharset.Add | src/main/java/at/molindo/mysqlcollations/xml/MySqlCharset.java:132-140 | the collation is stored under its name; a duplicate name throws after replacing; otherwise its charset becomes this one |
| Collations.XmlCharset.GetCharacters | src/main/java/at/molindo/mysqlcollations/xml/MySqlCharset.java:209-211 | null before `setUnicode`; after a full unicode map, 256 entries, entry `i` being `(char) unicode[i]` and what `toChar(i)` gives |
| Collations.FillStep | src/main/java/at/molindo/mysqlcollations/xml/MySqlCharset.java:118-120 | filling index `i` extends both lookup tables by that index's character |
| Collations.XmlCollation.SetMap | src/main/java/at/molindo/mysqlcollations/xml/MySqlCharacterMap.java:29-31 | the weights become the parsed map; a bad map throws and keeps the old weights |
| Collations.XmlCollation.GetWeight | src/main/java/at/molindo/mysqlcollations/xml/MySqlCollation.java:82-84 | null charset throws; otherwise the weight map's entry at the character's index, cut to a byte |
| Collations.XmlCollation.GetNormalize | src/main/java/at/molindo/mysqlcollations/xml/MySqlCollation.java:86-103 | built once: later calls return the stored table; the first builds it from the charset's characters, and a failure leaves the partial table stored |
| Collations.XmlCollation.Normalize | src/main/java/at/molindo/mysqlcollations/xml/MySqlCollation.java:105-115 | null gives null; otherwise each character is replaced by its bucket's table entry, or the first weight failure |
| Collations.XmlCollation.GetCollatorInstance | src/main/java/at/molindo/mysqlcollations/xml/MySqlCollation.java:75-80 | creates the collator over this collation once and returns that instance ever after |
| Collations.BuildStops | src/main/java/at/molindo/mysqlcollations/xml/MySqlCollation.java:92-98 | a build that meets a weightless character stops there with the table so far |
| Collations.NormalizeStops | src/main/java/at/molindo/mysqlcollations/xml/MySqlCollation.java:111-113 | normalising stops at the first weightless character with its failure |
| Collations.Bytes4AreShifts | src/main/java/at/molindo/mysqlcollations/MySqlCharset.java:47-49 | the four bytes are the big-endian bytes `index >> 24`, `>> 16`, `>> 8`, `>> 0`, each cut to a byte |
| Collations.FirstNonZero | src/main/java/at/molindo/mysqlcollations/MySqlCharset.java:46-54 | the position of the first non-zero byte, or -1 when all four are zero |
| Collations.ToBytesBigEndian | src/main/java/at/molindo/mysqlcollations/MySqlCharset.java:45-55 | the bytes from the first non-zero one spell the index back, and there is none exactly for index 0 |
| Collations.DigitsSpell | src/main/java/at/molindo/mysqlcollations/MySqlCharset.java:45-55 | the four base-256 digits of a value spell it back |
| Collations.CharsUpToIndex | src/main/java/at/molindo/mysqlcollations/MySqlCharset.java:214-219 | entry `i` of the character table is the character index `i` decodes to |
| Collations.LegacyCharset.ToBytes | src/main/java/at/molindo/mysqlcollations/MySqlCharset.java:45-55 | fills the array with the big-endian bytes and returns the first non-zero position |
| Collations.LegacyCharset.DecodeIndex | src/main/java/at/molindo/mysqlcollations/MySqlCharset.java:188-199 | the character an index's significant bytes decode to, and 0 for index 0 |
| Collations.LegacyCharset.InitCharset | src/main/java/at/molindo/mysqlcollations/MySqlCharset.java:210-223 | a loaded charset is kept; otherwise `forName` is asked and both tables are built from the result, or its failure returned |
| Collations.LegacyCharset.FillTables | src/main/java/at/molindo/mysqlcollations/MySqlCharset.java:214-221 | the character table decodes each index and the index table encodes each of the first 256 characters |
| Collations.LegacyCharset.GetCharset | src/main/java/at/molindo/mysqlcollations/MySqlCharset.java:205-208 | loads on first use and then returns the same charset; a load failure leaves nothing loaded |
| Collations.LegacyCharset.ToIndex | src/main/java/at/molindo/mysqlcollations/MySqlCharset.java:166-186 | over a loaded charset, the index the character encodes to, table-cached for the first 256 codes |
| Collations.LegacyCharset.ToChar | src/main/java/at/molindo/mysqlcollations/MySqlCharset.java:188-199 | the table entry for an index under 256, else the decoding of the index's bytes |
| Collations.LegacyCharset.ToUnicode | src/main/java/at/molindo/mysqlcollations/MySqlCharset.java:201-203 | the unicode map's entry at the character's index, or the lookup's failure |
| Collations.LegacyCharset.Translate | src/main/java/at/molindo/mysqlcollations/MySqlCharset.java:158-164 | a case map read at the character's index, then turned back into a character |
| Collations.LegacyCharset.ToLower | src/main/java/at/molindo/mysqlcollations/MySqlCharset.java:158-160 | the lower map applied through the index space |
| Collations.LegacyCharset.ToUpper | src/main/java/at/molindo/mysqlcollations/MySqlCharset.java:162-164 | the upper map applied through the index space |
| Collations.LegacyCharset.IsCtype | src/main/java/at/molindo/mysqlcollations/MySqlCharset.java:121-156 | the flag's bit of the ctype entry after the character's index |
| Collations.LegacyCharset.GetCharacters | src/main/java/at/molindo/mysqlcollations/MySqlCharset.java:225-228 | the decoding of each of the 256 indexes, or the load failure |
| Collations.LegacyCharset.Add | src/main/java/at/molindo/mysqlcollations/MySqlCharset.java:105-113 | the collation is stored under its name; a duplicate name throws after replacing |
| Collations.LegacyCollation.New | src/main/java/at/molindo/mysqlcollations/MySqlCollation.java:40-59 | null charset or bean throws; a bad weight map or a charset load failure throws; otherwise a valid collation whose table is built from the charset's characters |
| Collations.LegacyCollation.FillNormalize | src/main/java/at/molindo/mysqlcollations/MySqlCollation.java:50-58 | the loop leaves the table the build over the characters gives, or its first failure |
| Collations.LegacyCollation.GetCollator | src/main/java/at/molindo/mysqlcollations/MySqlCollation.java:61-63 | the collator created by the constructor, over this collation |
| Collations.LegacyCollation.GetWeight | src/main/java/at/molindo/mysqlcollations/MySqlCollation.java:65-67 | the weight at the character's encoded index, or the character cut to a byte without weights |
| Collations.LegacyCollation.Normalize | src/main/java/at/molindo/mysqlcollations/MySqlCollation.java:69-78 | null gives null; otherwise the table applied to each weight bucket |
| Collations.Collator.Compare | src/main/java/at/molindo/mysqlcollations/MySqlCollator.java:44-59 | 0 for the same instance (two nulls included), a null against a string throws, else the first weight difference or the length difference |
| Collations.Collator.Equals | src/main/java/at/molindo/mysqlcollations/MySqlCollator.java:62-80 | true for the same instance (two nulls included), a null against a string throws, else equal lengths and equal weights |
| Collations.Collator.IsMappable | src/main/java/at/molindo/mysqlcollations/MySqlCollator.java:96-107 | null throws; else whether every character has an index |
| Collations.Collator.GetCollationKey | src/main/java/at/molindo/mysqlcollations/MySqlCollator.java:85-87 | a new key holding the source's weights and hash, or the first weight failure |
| Collations.Collator.Normalize | src/main/java/at/molindo/mysqlcollations/MySqlCollator.java:92-94 | the collation's normalisation |
| Collations.Collator.Clone | src/main/java/at/molindo/mysqlcollations/MySqlCollator.java:110-116 | a new collator over the same collation |
| Collations.CollationKey.New | src/main/java/at/molindo/mysqlcollations/MySqlCollationKey.java:40-51 | null throws; otherwise a key with one weight per character and their wrapped hash |
| Collations.CollationKey.WeighAll | src/main/java/at/molindo/mysqlcollations/MySqlCollationKey.java:42-50 | the loop yields the weights and their hash, or the first weight failure |
| Collations.CollationKey.HashCode | src/main/java/at/molindo/mysqlcollations/MySqlCollationKey.java:54-56 | the hash is the wrapped polynomial of the weights |
| Collations.CollationKey.Equals | src/main/java/at/molindo/mysqlcollations/MySqlCollationKey.java:60-86 | true exactly for this key, a key of the same source instance, or a key with equal weights |
| Collations.CollationKey.CompareTo | src/main/java/at/molindo/mysqlcollations/MySqlCollationKey.java:89-104 | null throws; else the lexicographic comparison of the weights |
| Collations.CollationKey.ToByteArray | src/main/java/at/molindo/mysqlcollations/MySqlCollationKey.java:107-109 | a fresh array holding the weights |
| Collations.CollationKey.WriteReplace | src/main/java/at/molindo/mysqlcollations/MySqlCollationKey.java:116-118 | the serialised form holds source, weights and hash |
| Collations.CollationKey.ReadResolve | src/main/java/at/molindo/mysqlcollations/MySqlCollationKey.java:133-135 | reading the serialised form back gives a key with the same three parts |
| Collations.WeightsStop | src/main/java/at/molindo/mysqlcollations/MySqlCollationKey.java:44-49 | the weights of a string fail with its first weightless character |
| Registries.MergeNames | src/main/java/at/molindo/mysqlcollations/xml/MySqlCharsets.java:49-54 | a name is in the merged map iff some input has it |
| Registries.MergeLastWins | src/main/java/at/molindo/mysqlcollations/xml/MySqlCharsets.java:49-54 | a shared name resolves to the last input holding it |
| Registries.MergeTwo | src/main/java/at/molindo/mysqlcollations/xml/MySqlCharsets.java:49-54 | merging two maps is map override |
| Registries.Charsets.SetCopyright | src/main/java/at/molindo/mysqlcollations/xml/MySqlCharsets.java:56-62 | sets the copyright, charsets unchanged |
| Registries.Charsets.SetCharsets | src/main/java/at/molindo/mysqlcollations/xml/MySqlCharsets.java:64-70 | sets the charsets, copyright unchanged |
| Registries.Charsets.Add | src/main/java/at/molindo/mysqlcollations/xml/MySqlCharsets.java:72-79 | the map is created on first use; null throws; the charset is stored under its name; a duplicate name throws after replacing |
| Registries.Charsets.Merge | src/main/java/at/molindo/mysqlcollations/xml/MySqlCharsets.java:49-54 | a null input or one without a map throws; otherwise a new registry with all inputs' charsets, later ones winning |
| Registries.Charsets.PutAll | src/main/java/at/molindo/mysqlcollations/xml/MySqlCharsets.java:50-53 | the `putAll` loop yields the merge of the inputs' maps |
| Registries.MapsOf | src/main/java/at/molindo/mysqlcollations/xml/MySqlCharsets.java:50-53 | the inputs' maps, in order |
| Registries.CollationBean.constructor | src/main/java/at/molindo/mysqlcollations/xml/MySqlCharsetBean.java:107-115 | a collation bean with its name and map, not yet attached to a charset |
| Registries.CharsetBean.SetName | src/main/java/at/molindo/mysqlcollations/xml/MySqlCharsetBean.java:50-52 | sets the name, every other property unchanged |
| Registries.CharsetBean.SetCtype | src/main/java/at/molindo/mysqlcollations/xml/MySqlCharsetBean.java:62-64 | sets the ctype map, every other property unchanged |
| Registries.CharsetBean.SetLower | src/main/java/at/molindo/mysqlcollations/xml/MySqlCharsetBean.java:73-75 | sets the lower map, every other property unchanged |
| Registries.CharsetBean.SetUpper | src/main/java/at/molindo/mysqlcollations/xml/MySqlCharsetBean.java:84-86 | sets the upper map, every other property unchanged |
| Registries.CharsetBean.SetUnicode | src/main/java/at/molindo/mysqlcollations/xml/MySqlCharsetBean.java:95-97 | sets the unicode map, every other property unchanged |
| Registries.CharsetBean.SetCollations | src/main/java/at/molindo/mysqlcollations/xml/MySqlCharsetBean.java:103-105 | sets the collations, every other property unchanged |
| Registries.CharsetBean.Add | src/main/java/at/molindo/mysqlcollations/xml/MySqlCharsetBean.java:107-115 | stored under its name; a duplicate name throws after replacing and the bean keeps its charset; otherwise its charset becomes this one |
| Registries.CharsetsBean.SetCopyright | src/main/java/at/molindo/mysqlcollations/xml/MySqlCharsetsBean.java:56-62 | sets the copyright, charsets unchanged |
| Registries.CharsetsBean.SetCharsets | src/main/java/at/molindo/mysqlcollations/xml/MySqlCharsetsBean.java:64-70 | sets the charsets, copyright unchanged |
| Registries.CharsetsBean.Add | src/main/java/at/molindo/mysqlcollations/xml/MySqlCharsetsBean.java:72-79 | as for charsets: created on first use, null throws, a duplicate name throws after replacing |
| Registries.CharsetsBean.Merge | src/main/java/at/molindo/mysqlcollations/xml/MySqlCharsetsBean.java:49-54 | a null input or one without a map throws; otherwise a new registry with the merge, later ones winning |
| Registries.CharsetsBean.PutAll | src/main/java/at/molindo/mysqlcollations/xml/MySqlCharsetsBean.java:50-53 | the `putAll` loop yields the merge of the inputs' maps |
| Registries.BeanMapsOf | src/main/java/at/molindo/mysqlcollations/xml/MySqlCharsetsBean.java:50-53 | the inputs' maps, in order |
| Factory.AcceptCharsetFile | src/main/java/at/molindo/mysqlcollations/MySqlCollatorFactory.java:51-53 | a file name is accepted iff it ends in `.xml` and is not `Index.xml` |
| Factory.CharsetFileExamples | src/main/java/at/molindo/mysqlcollations/MySqlCollatorFactory.java:51-53 | `latin1.xml` and `cp1250.xml` are accepted; `Index.xml` and `latin1.txt` are not |
| Factory.CollatorFactory.Lookup | src/main/java/at/molindo/mysqlcollations/MySqlCollatorFactory.java:334-344 | no charsets throws NPE; a missing charset or collation throws `IllegalArgumentException` naming it; a charset without collations throws NPE |
| Factory.CollatorFactory.GetCollator | src/main/java/at/molindo/mysqlcollations/MySqlCollatorFactory.java:334-344 | the lookup's failure, or the found collation's collator, the same instance on every request |
| Factory.CollatorFactory.GetCollatorTwice | src/main/java/at/molindo/mysqlcollations/MySqlCollatorFactory.java:334-344 | two requests for one pair give the same collator instance or the same failure |
| Factory.CollatorFactory.GetDefaultCollator | src/main/java/at/molindo/mysqlcollations/MySqlCollatorFactory.java:350-352 | the collator of latin1 / latin1_swedish_ci |
| Factory.CollatorFactory.AddCharsets | src/main/java/at/molindo/mysqlcollations/MySqlCollatorFactory.java:354-356 | null or missing charsets throw and change nothing; otherwise a new registry of this factory's charsets overridden by the other's |
| Factory.AddCharsetsLaterWins | src/main/java/at/molindo/mysqlcollations/MySqlCollatorFactory.java:354-356 | after merging, a name known to the other factory resolves to its charset, else to this factory's |

## Left out

- Reading charset files: file access, the XML digester (`CharsetXmlDigester`), the `Index.xml` filter's directory walk and the system-property lookup of the MySQL directory are not part of this model. The factory is built from a registry directly.
- `java.nio` encoding and decoding: a top-level charset's `Charset` is a pair of functions (the index a character's bytes spell, the first character a byte sequence decodes to), and `Charset.forName` is a parameter. The byte-buffer machinery and `CharacterCodingException` are not modelled.
- `UnmappableCharacterException` is not part of this model: no core operation throws it.
- Concurrency: `volatile` fields and the `synchronized` double-checked initialisation of the normalisation table are modelled as single-threaded lazy initialisation.
- Serialisation streams: `writeReplace`/`readResolve` are modelled as conversions to and from the serialised form; `ObjectOutputStream` is left out.
- Arrays that the core returns and no caller mutates (`toIntArray`, `getCharacters` of an `xml` charset, the normalisation table) are modelled as sequences, so aliasing between the returned array and the internal one is not captured.
- Reference identity (`source == target`, `obj == this` with a different source string instance) is a boolean parameter rather than object identity of Java strings.
- `MySqlCollator` and `MySqlCollationKey` are typed in the source against one of the two collation classes each, and the top-level `MySqlCharset.add` calls a `setCharset` that the top-level collation does not declare. The model lets collators and keys work over either collation (`CollationRef`), and `Collations.LegacyCharset.Add` does not set a back-reference.
- `MySqlCollationBean` and `MySqlCharacterMapBean` are not part of this model: a collation bean is its name, map string and charset fields, and a character map bean is its map string.
- Registry map values are never null in the model; the source's maps could hold a `null` value only through `setCharsets`.
- `Integer.parseInt` also accepts non-ASCII Unicode digits; the model accepts only ASCII hex digits.
- `compareTo` of a key against a non-key object (`ClassCastException`) is not modelled: the parameter is typed as a key.
- Collations.Collator.Normalize: for an `xml` collation the contract states only the length and per-character bucket property of the result, not the exact table built, because the collator does not own the collation's table.
- `toString` methods and the factory's named charset and collation constants other than the two defaults are left out: they are display text and lookup keys.
- The speed tests and the loading of real MySQL data files are left out; `Collating.CaseInsensitiveScenario` takes a weight function in which `F` and `f` weigh the same and the characters of "foobar" have weights, in place of latin1_swedish_ci's data.
