/**
 * The Java value types the collation code works with, and its exceptions as values.
 *
 * A Java `char` is a UTF-16 code unit (0 .. 0xFFFF), a `byte` is signed (-128 .. 127) and
 * `int` arithmetic wraps around modulo 2^32.  The narrowing casts `(byte) x` and `(char) x`
 * keep the low 8 and 16 bits of their operand.
 */
module Java {

  type Char = c: int | 0 <= c < 0x1_0000
  type JByte = b: int | -128 <= b < 128
  type JInt = i: int | -0x8000_0000 <= i < 0x8000_0000

  /** A Java `String`, as the sequence of its UTF-16 code units. */
  type JString = seq<Char>

  /** A charset or collation name; the source's hash maps also accept the null name. */
  type Name = Option<string>

  datatype Option<+T> = None | Some(value: T)

  /** The exceptions the modelled code raises. */
  datatype Exception =
    | NullPointer
    | IllegalState(message: string)
    | ArrayIndexOutOfBounds(index: int)
    | NumberFormat(token: string)
    | IllegalArgument(message: string)
    | UnsupportedCharset(charsetName: string)

  /** The outcome of a Java call: a normal return or a thrown exception. */
  datatype Outcome<+T> = Ok(value: T) | Thrown(exc: Exception)

  /** `(byte) x`: the low 8 bits of `x`, read as a signed byte. */
  function ToByte(x: int): (b: JByte)
    ensures (b - x) % 0x100 == 0
  {
    (x + 0x80) % 0x100 - 0x80
  }

  /** `(char) x`: the low 16 bits of `x`. */
  function ToChar(x: int): (c: Char)
    ensures (c - x) % 0x1_0000 == 0
  {
    x % 0x1_0000
  }

  /** `b & 0xFF` for a byte `b`: the byte read as unsigned. */
  function Unsigned(b: JByte): (u: int)
    ensures 0 <= u < 0x100 && ToByte(u) == b
  {
    b % 0x100
  }

  /** `int` arithmetic: the value of `x` wrapped into 32-bit two's complement. */
  function WrapInt(x: int): (i: JInt)
    ensures (i - x) % 0x1_0000_0000 == 0
  {
    (x + 0x8000_0000) % 0x1_0000_0000 - 0x8000_0000
  }

  /** Two bytes with the same unsigned reading are the same byte. */
  lemma UnsignedInjective(a: JByte, b: JByte)
    requires Unsigned(a) == Unsigned(b)
    ensures a == b
  {
    assert ToByte(Unsigned(a)) == a && ToByte(Unsigned(b)) == b;
  }

  /** `String.valueOf(n)` for a possibly null name, as used in exception messages. */
  function NameText(n: Name): string
  {
    match n
    case None => "null"
    case Some(s) => s
  }

  /** A Dafny string literal as a Java string of the same code units. */
  function Str(s: string): (r: JString)
    requires forall i :: 0 <= i < |s| ==> s[i] as int < 0x1_0000
    ensures |r| == |s| && forall i :: 0 <= i < |s| ==> r[i] == s[i] as int
  {
    seq(|s|, i requires 0 <= i < |s| => s[i] as int)
  }
}
