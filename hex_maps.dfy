/**
 * Character maps as they appear in MySQL's charset files: a string of whitespace-separated
 * hexadecimal tokens, one per character index.  This module holds the text handling that
 * every map class shares: `String.split("\\s+")`, `Integer.parseInt(token, 16)`, the values a
 * map string stands for, and checked indexed lookup.
 */
module HexMaps {
  import opened Java

  // ---------------------------------------------------------------------------------------
  // String.split("\\s+")
  // ---------------------------------------------------------------------------------------

  /** `\s` of Java regular expressions: space, tab, newline, vertical tab, form feed, return. */
  predicate IsWhitespace(c: char)
  {
    c == ' ' || c == '\t' || c == '\n' || c == '\r' || c as int == 0x0B || c as int == 0x0C
  }

  predicate NoWhitespace(s: string)
  {
    forall i :: 0 <= i < |s| ==> !IsWhitespace(s[i])
  }

  /** The index of the first whitespace character of `s`, or `|s|` when there is none. */
  function FirstWhitespace(s: string): (k: nat)
    ensures k <= |s| && NoWhitespace(s[..k])
    ensures k < |s| ==> IsWhitespace(s[k])
  {
    if s == [] then 0
    else if IsWhitespace(s[0]) then 0
    else
      var k := 1 + FirstWhitespace(s[1..]);
      assert s[..k] == [s[0]] + s[1..][..k - 1];
      k
  }

  /** The end of the run of whitespace that starts at index `k`. */
  function RunEnd(s: string, k: nat): (j: nat)
    requires k <= |s|
    ensures k <= j <= |s|
    ensures forall i :: k <= i < j ==> IsWhitespace(s[i])
    ensures j < |s| ==> !IsWhitespace(s[j])
    decreases |s| - k
  {
    if k < |s| && IsWhitespace(s[k]) then RunEnd(s, k + 1) else k
  }

  /** The substrings of `s` between maximal whitespace runs, the leading and trailing ones included. */
  function Pieces(s: string): (ps: seq<string>)
    ensures |ps| >= 1
    ensures forall i :: 0 <= i < |ps| ==> NoWhitespace(ps[i])
    decreases |s|
  {
    var k := FirstWhitespace(s);
    if k == |s| then [s]
    else
      var j := RunEnd(s, k);
      [s[..k]] + Pieces(s[j..])
  }

  function DropTrailingEmpty(ts: seq<string>): (r: seq<string>)
    ensures |r| <= |ts| && r == ts[..|r|]
    ensures r != [] ==> r[|r| - 1] != ""
    ensures forall i :: |r| <= i < |ts| ==> ts[i] == ""
  {
    if ts != [] && ts[|ts| - 1] == "" then DropTrailingEmpty(ts[..|ts| - 1]) else ts
  }

  /**
   * `s.split("\\s+")`: with no whitespace in `s` the result is `[s]` (so `""` gives `[""]`);
   * otherwise it is the list of pieces with the trailing empty pieces removed.
   */
  function Split(s: string): seq<string>
  {
    if FirstWhitespace(s) == |s| then [s] else DropTrailingEmpty(Pieces(s))
  }

  /** Every piece but the first is non-empty, except a trailing one. */
  lemma {:induction false} PiecesNonEmpty(s: string)
    ensures forall i :: 0 < i < |Pieces(s)| - 1 ==> Pieces(s)[i] != ""
    decreases |s|
  {
    var k := FirstWhitespace(s);
    if k < |s| {
      var j := RunEnd(s, k);
      var rest := s[j..];
      PiecesNonEmpty(rest);
      if |Pieces(rest)| > 1 {
        // the rest starts with a non-whitespace character, so its first piece is not empty
        assert j < |s| && !IsWhitespace(rest[0]);
        FirstPiece(rest);
      }
    }
  }

  /** The first piece runs up to the first whitespace character. */
  lemma FirstPiece(s: string)
    ensures Pieces(s)[0] == s[..FirstWhitespace(s)]
    ensures s != [] && !IsWhitespace(s[0]) ==> Pieces(s)[0] != ""
  {
    if s != [] && !IsWhitespace(s[0]) {
      assert FirstWhitespace(s) > 0;
    }
  }

  /**
   * What `split` hands the parser: tokens without whitespace, every token but the first
   * non-empty; the first is empty exactly when `s` is empty or starts with whitespace
   * (and the result is not empty altogether).
   */
  lemma SplitTokens(s: string)
    ensures var ts := Split(s);
      && (forall i :: 0 <= i < |ts| ==> NoWhitespace(ts[i]))
      && (forall i :: 0 < i < |ts| ==> ts[i] != "")
      && (ts != [] ==> (ts[0] == "" <==> s == "" || IsWhitespace(s[0])))
  {
    var k := FirstWhitespace(s);
    if k < |s| {
      PiecesNonEmpty(s);
      var ps := Pieces(s);
      var ts := DropTrailingEmpty(ps);
      forall i | 0 < i < |ts| ensures ts[i] != "" {
        assert ts[i] == ps[i];
        if i == |ts| - 1 {
          assert ts[|ts| - 1] != "";
        } else {
          assert 0 < i < |ps| - 1;
          assert ps[i] != "";
        }
      }
      if ts != [] {
        FirstPiece(s);
        assert ts[0] == ps[0] == s[..k];
      }
    }
  }

  /** The tokens joined with single spaces, the way MySQL's charset files lay out a map. */
  function Join(ts: seq<string>): string
  {
    if |ts| <= 1 then (if ts == [] then "" else ts[0]) else ts[0] + " " + Join(ts[1..])
  }

  lemma {:induction false} JoinStart(ts: seq<string>)
    requires ts != [] && ts[0] != ""
    ensures Join(ts) != "" && Join(ts)[0] == ts[0][0]
  {
  }

  lemma {:induction false} PiecesOfJoin(ts: seq<string>)
    requires ts != []
    requires forall i :: 0 <= i < |ts| ==> ts[i] != "" && NoWhitespace(ts[i])
    ensures Pieces(Join(ts)) == ts
    decreases |ts|
  {
    if |ts| == 1 {
      assert FirstWhitespace(ts[0]) == |ts[0]|;
    } else {
      var s := Join(ts);
      var t0 := ts[0];
      var rest := Join(ts[1..]);
      assert s == t0 + (" " + rest);
      JoinStart(ts[1..]);
      FirstWhitespaceOfPrefix(t0, " " + rest);
      var k := FirstWhitespace(s);
      assert k == |t0|;
      assert RunEnd(s, k + 1) == k + 1;
      assert RunEnd(s, k) == k + 1;
      assert s[..k] == t0;
      assert s[k + 1..] == rest;
      PiecesOfJoin(ts[1..]);
    }
  }

  lemma {:induction false} FirstWhitespaceOfPrefix(a: string, b: string)
    requires NoWhitespace(a) && b != [] && IsWhitespace(b[0])
    ensures FirstWhitespace(a + b) == |a|
    decreases |a|
  {
    if a != [] {
      assert (a + b)[1..] == a[1..] + b;
      FirstWhitespaceOfPrefix(a[1..], b);
    } else {
      assert a + b == b;
    }
  }

  /** Splitting undoes joining: a map laid out as single-space separated tokens splits back. */
  lemma SplitJoin(ts: seq<string>)
    requires ts != []
    requires forall i :: 0 <= i < |ts| ==> ts[i] != "" && NoWhitespace(ts[i])
    ensures Split(Join(ts)) == ts
  {
    PiecesOfJoin(ts);
    if FirstWhitespace(Join(ts)) == |Join(ts)| {
      assert |Pieces(Join(ts))| == 1;
    }
  }

  // ---------------------------------------------------------------------------------------
  // Integer.parseInt(token, 16)
  // ---------------------------------------------------------------------------------------

  predicate IsHexDigit(c: char)
  {
    '0' <= c <= '9' || 'a' <= c <= 'f' || 'A' <= c <= 'F'
  }

  function HexDigitValue(c: char): (d: nat)
    requires IsHexDigit(c)
    ensures d < 16
  {
    if '0' <= c <= '9' then c as int - '0' as int
    else if 'a' <= c <= 'f' then c as int - 'a' as int + 10
    else c as int - 'A' as int + 10
  }

  predicate AllHexDigits(ds: string)
  {
    forall i :: 0 <= i < |ds| ==> IsHexDigit(ds[i])
  }

  /** The value of a string of hexadecimal digits, most significant digit first. */
  function HexMagnitude(ds: string): nat
    requires AllHexDigits(ds)
  {
    if ds == [] then 0 else 16 * HexMagnitude(ds[..|ds| - 1]) + HexDigitValue(ds[|ds| - 1])
  }

  /**
   * `Integer.parseInt(token, 16)`: an optional sign, then at least one hexadecimal digit,
   * and a value that fits an `int`; `None` where Java throws `NumberFormatException`.
   */
  function ParseHexInt(token: string): Option<JInt>
  {
    if token == [] then None
    else
      var negative := token[0] == '-';
      var digits := if token[0] == '-' || token[0] == '+' then token[1..] else token;
      if digits == [] || !AllHexDigits(digits) then None
      else
        var m: int := HexMagnitude(digits);
        if negative then (if m <= 0x8000_0000 then Some(-m) else None)
        else if m < 0x8000_0000 then Some(m) else None
  }

  function HexDigit(d: nat): (c: char)
    requires d < 16
    ensures IsHexDigit(c) && HexDigitValue(c) == d
  {
    if d < 10 then ('0' as int + d) as char else ('A' as int + d - 10) as char
  }

  /** `n` in hexadecimal, upper-case digits, no leading zeros. */
  function FormatHex(n: nat): (s: string)
    ensures s != [] && AllHexDigits(s) && HexMagnitude(s) == n
    ensures NoWhitespace(s) && s[0] != '-' && s[0] != '+'
  {
    if n < 16 then [HexDigit(n)]
    else
      var s := FormatHex(n / 16) + [HexDigit(n % 16)];
      assert s[..|s| - 1] == FormatHex(n / 16);
      s
  }

  /** Parsing undoes formatting for every non-negative `int`. */
  lemma ParseFormatHex(n: nat)
    requires n < 0x8000_0000
    ensures ParseHexInt(FormatHex(n)) == Some(n)
  {
  }

  // ---------------------------------------------------------------------------------------
  // parseMapValues
  // ---------------------------------------------------------------------------------------

  /** The position of the first token that is not a hex number, or the length if all are. */
  function FirstUnparsable(ts: seq<string>): (i: nat)
    ensures i <= |ts| && (i < |ts| ==> ParseHexInt(ts[i]).None?)
    ensures forall j :: 0 <= j < i ==> ParseHexInt(ts[j]).Some?
  {
    if ts == [] || ParseHexInt(ts[0]).None? then 0
    else
      var k := FirstUnparsable(ts[1..]);
      assert forall j :: 1 <= j < k + 1 ==> ts[j] == ts[1..][j - 1];
      k + 1
  }

  /**
   * The values of a token list parsed one by one, in order; the first token that does not
   * parse raises `NumberFormatException` naming it.
   */
  function ParseTokens(ts: seq<string>): (r: Outcome<seq<int>>)
    ensures r.Ok? ==> |r.value| == |ts| && forall i :: 0 <= i < |ts| ==> ParseHexInt(ts[i]) == Some(r.value[i])
    ensures r.Thrown? <==> FirstUnparsable(ts) < |ts|
    ensures r.Thrown? ==> r.exc == NumberFormat(ts[FirstUnparsable(ts)])
  {
    if ts == [] then Ok([])
    else
      match ParseHexInt(ts[0])
      case None => Thrown(NumberFormat(ts[0]))
      case Some(v) =>
        var rest := ParseTokens(ts[1..]);
        if rest.Thrown? then rest
        else Ok([v as int] + rest.value)
  }

  lemma {:induction false} ParseTokensAllOk(ts: seq<string>, vs: seq<int>)
    requires |vs| == |ts| && forall i :: 0 <= i < |ts| ==> ParseHexInt(ts[i]) == Some(vs[i])
    ensures ParseTokens(ts) == Ok(vs)
  {
    if ts != [] {
      assert forall i :: 0 <= i < |ts[1..]| ==> ts[1..][i] == ts[i + 1] && vs[1..][i] == vs[i + 1];
      ParseTokensAllOk(ts[1..], vs[1..]);
      assert ParseHexInt(ts[0]) == Some(vs[0]);
      assert ParseTokens(ts) == Ok([vs[0]] + ParseTokens(ts[1..]).value);
      assert vs == [vs[0]] + vs[1..];
    }
  }

  lemma {:induction false} ParseTokensFirstFailure(ts: seq<string>, i: nat)
    requires i < |ts| && ParseHexInt(ts[i]).None?
    requires forall j :: 0 <= j < i ==> ParseHexInt(ts[j]).Some?
    ensures ParseTokens(ts) == Thrown(NumberFormat(ts[i]))
  {
    if i > 0 {
      ParseTokensFirstFailure(ts[1..], i - 1);
    }
  }

  /** The values a map string stands for: one per whitespace-separated token, in order. */
  function ParseMap(s: string): Outcome<seq<int>>
  {
    ParseTokens(Split(s))
  }

  /** A map parses exactly when each of its tokens does, to the tokens' values in order. */
  lemma ParseMapOk(s: string, vs: seq<int>)
    ensures ParseMap(s) == Ok(vs) <==>
      |vs| == |Split(s)| && forall i :: 0 <= i < |vs| ==> ParseHexInt(Split(s)[i]) == Some(vs[i])
  {
    var ts := Split(s);
    if |vs| == |ts| && forall i :: 0 <= i < |vs| ==> ParseHexInt(ts[i]) == Some(vs[i]) {
      ParseTokensAllOk(ts, vs);
    }
  }

  /** A map string that starts with whitespace splits into a leading empty token, which fails. */
  lemma LeadingWhitespaceFails(s: string)
    requires s != [] && IsWhitespace(s[0])
    requires exists i :: 0 <= i < |s| && !IsWhitespace(s[i])
    ensures ParseMap(s) == Thrown(NumberFormat(""))
  {
    var i :| 0 <= i < |s| && !IsWhitespace(s[i]);
    assert FirstWhitespace(s) == 0;
    var ps := Pieces(s);
    var j := RunEnd(s, 0);
    assert j <= i;
    assert ps == [""] + Pieces(s[j..]);
    assert Pieces(s[j..])[0] != "" by {
      assert s[j..] != [] && !IsWhitespace(s[j..][0]);
      assert FirstWhitespace(s[j..]) > 0;
    }
    FirstPiece(s[j..]);
    assert ps[1] != "";
    var ts := DropTrailingEmpty(ps);
    assert |ts| >= 2 && ts[0] == "";
    assert Split(s) == ts;
  }

  /** The text of a map with the given values, laid out as MySQL's files do. */
  function FormatMap(values: seq<nat>): string
  {
    Join(seq(|values|, i requires 0 <= i < |values| => FormatHex(values[i])))
  }

  /** A map written out as hexadecimal tokens parses back to the same values. */
  lemma ParseFormatMap(values: seq<nat>)
    requires values != []
    requires forall i :: 0 <= i < |values| ==> values[i] < 0x8000_0000
    ensures ParseMap(FormatMap(values)) == Ok(values)
  {
    var ts := seq(|values|, i requires 0 <= i < |values| => FormatHex(values[i]));
    SplitJoin(ts);
    forall i | 0 <= i < |values| ensures ParseHexInt(ts[i]) == Some(values[i] as int) {
      ParseFormatHex(values[i]);
    }
    ParseMapOk(FormatMap(values), values);
  }

  // ---------------------------------------------------------------------------------------
  // getValue
  // ---------------------------------------------------------------------------------------

  /** Java's checked array access `values[index]`. */
  function ValueAt(values: seq<int>, index: int): Outcome<int>
  {
    if 0 <= index < |values| then Ok(values[index]) else Thrown(ArrayIndexOutOfBounds(index))
  }
}
