/**
  Coupon codes: `secrets.token_hex(4)` writes four random bytes as lower-case
  hexadecimal, two digits per byte, high nibble first, and `str.upper` turns
  the letters into capitals. The random bytes are a parameter here.
 */
module HexToken {
  import opened Wrappers

  newtype byte = x: int | 0 <= x < 256

  /** Number of random bytes drawn for one code. */
  const CodeBytes: nat := 4

  predicate IsLowerHexDigit(c: char) { '0' <= c <= '9' || 'a' <= c <= 'f' }

  predicate IsUpperHexDigit(c: char) { '0' <= c <= '9' || 'A' <= c <= 'F' }

  /** The lower-case hexadecimal digit of a nibble. */
  function LowerDigit(n: int): (c: char)
    requires 0 <= n < 16
    ensures IsLowerHexDigit(c)
  {
    if n < 10 then ('0' as int + n) as char else ('a' as int + n - 10) as char
  }

  /** `token_hex`: every byte becomes two lower-case digits. */
  function TokenHex(b: seq<byte>): (s: string)
    ensures |s| == 2 * |b|
    ensures forall i :: 0 <= i < |s| ==> IsLowerHexDigit(s[i])
  {
    if b == [] then []
    else [LowerDigit(b[0] as int / 16), LowerDigit(b[0] as int % 16)] + TokenHex(b[1..])
  }

  /** `str.upper` on one character, for the ASCII letters a hex string can hold. */
  function UpperChar(c: char): (u: char)
  {
    if 'a' <= c <= 'z' then (c as int - 32) as char else c
  }

  /** `str.upper`, character by character. */
  function Upper(s: string): (u: string)
    ensures |u| == |s|
    ensures forall i :: 0 <= i < |s| ==> u[i] == UpperChar(s[i])
  {
    if s == [] then [] else [UpperChar(s[0])] + Upper(s[1..])
  }

  /** The code of a new coupon: `token_hex(4).upper()`. */
  function NewCode(token: seq<byte>): (code: string)
    requires |token| == CodeBytes
    ensures |code| == 2 * CodeBytes
    ensures forall i :: 0 <= i < |code| ==> IsUpperHexDigit(code[i])
  {
    Upper(TokenHex(token))
  }

  /** The value of one upper-case hexadecimal digit. */
  function DigitValue(c: char): (d: Option<int>)
    ensures d.Some? <==> IsUpperHexDigit(c)
    ensures d.Some? ==> 0 <= d.value < 16
  {
    if '0' <= c <= '9' then Some(c as int - '0' as int)
    else if 'A' <= c <= 'F' then Some(c as int - 'A' as int + 10)
    else None
  }

  /** Reads a code back into the bytes it was made from; the inverse of `NewCode`. */
  function ParseCode(s: string): (bytes: Option<seq<byte>>)
    decreases |s|
  {
    if s == [] then Some([])
    else if |s| == 1 then None
    else
      match (DigitValue(s[0]), DigitValue(s[1]), ParseCode(s[2..]))
      case (Some(hi), Some(lo), Some(rest)) => Some([(hi * 16 + lo) as byte] + rest)
      case _ => None
  }

  lemma DigitRoundTrip(n: int)
    requires 0 <= n < 16
    ensures DigitValue(UpperChar(LowerDigit(n))) == Some(n)
  {
  }

  lemma {:induction false} ParseUpperTokenHex(b: seq<byte>)
    ensures ParseCode(Upper(TokenHex(b))) == Some(b)
  {
    if b != [] {
      var hi, lo := b[0] as int / 16, b[0] as int % 16;
      var x, y, t := LowerDigit(hi), LowerDigit(lo), TokenHex(b[1..]);
      var s := Upper([x, y] + t);
      assert s == [UpperChar(x), UpperChar(y)] + Upper(t);
      DigitRoundTrip(hi);
      DigitRoundTrip(lo);
      ParseUpperTokenHex(b[1..]);
      assert s[2..] == Upper(t);
      assert (hi * 16 + lo) as byte == b[0];
      assert [b[0]] + b[1..] == b;
    }
  }

  /** Decoding a generated code gives back the random bytes it was drawn from. */
  lemma CodeRoundTrip(token: seq<byte>)
    requires |token| == CodeBytes
    ensures ParseCode(NewCode(token)) == Some(token)
  {
    ParseUpperTokenHex(token);
  }

  /** Two draws give the same code exactly when they drew the same bytes. */
  lemma CodeInjective(t1: seq<byte>, t2: seq<byte>)
    requires |t1| == CodeBytes && |t2| == CodeBytes
    ensures NewCode(t1) == NewCode(t2) <==> t1 == t2
  {
    CodeRoundTrip(t1);
    CodeRoundTrip(t2);
  }
}
