/** Byte strings as the program uses them: block hashes compared with bytes.Compare, and hex
    text written with encoding/hex (upper-cased where the program upper-cases it). */
module Hex {
  import opened Common

  type Byte = x: int | 0 <= x < 256

  /** bytes.Compare(a, b) < 0: lexicographic order, a proper prefix sorting first. */
  predicate LexLess(a: seq<Byte>, b: seq<Byte>)
  {
    if a == [] then b != []
    else if b == [] then false
    else if a[0] != b[0] then a[0] < b[0]
    else LexLess(a[1..], b[1..])
  }

  lemma {:induction false} LexLessIrreflexive(a: seq<Byte>)
    ensures !LexLess(a, a)
  {
    if a != [] {
      LexLessIrreflexive(a[1..]);
    }
  }

  lemma {:induction false} LexLessAsymmetric(a: seq<Byte>, b: seq<Byte>)
    ensures !(LexLess(a, b) && LexLess(b, a))
  {
    if a != [] && b != [] && a[0] == b[0] {
      LexLessAsymmetric(a[1..], b[1..]);
    }
  }

  lemma {:induction false} LexLessTransitive(a: seq<Byte>, b: seq<Byte>, c: seq<Byte>)
    requires LexLess(a, b) && LexLess(b, c)
    ensures LexLess(a, c)
  {
    if a != [] && b != [] && c != [] && a[0] == b[0] && b[0] == c[0] {
      LexLessTransitive(a[1..], b[1..], c[1..]);
    }
  }

  /** Any two different byte strings are ordered one way or the other. */
  lemma {:induction false} LexLessTotal(a: seq<Byte>, b: seq<Byte>)
    requires a != b
    ensures LexLess(a, b) || LexLess(b, a)
  {
    if a != [] && b != [] && a[0] == b[0] {
      assert a == [a[0]] + a[1..] && b == [b[0]] + b[1..];
      LexLessTotal(a[1..], b[1..]);
    }
  }

  /** The hex digit of a nibble, in upper or lower case. */
  function HexDigit(n: int, upper: bool): (c: char)
    requires 0 <= n < 16
  {
    if n < 10 then '0' + n as char
    else if upper then 'A' + (n - 10) as char
    else 'a' + (n - 10) as char
  }

  /** The value of one hex digit of either case, as encoding/hex reads it. */
  function NibbleValue(c: char): (r: Option<int>)
    ensures r.Some? ==> 0 <= r.value < 16
  {
    if '0' <= c <= '9' then Some(c as int - '0' as int)
    else if 'a' <= c <= 'f' then Some(c as int - 'a' as int + 10)
    else if 'A' <= c <= 'F' then Some(c as int - 'A' as int + 10)
    else None
  }

  /** hex.EncodeToString, or its strings.ToUpper when `upper`: two digits per byte, high nibble
      first. */
  function Encode(b: seq<Byte>, upper: bool): (s: string)
    ensures |s| == 2 * |b|
  {
    if b == [] then [] else [HexDigit(b[0] / 16, upper), HexDigit(b[0] % 16, upper)] + Encode(b[1..], upper)
  }

  /** Every character is a hex digit of either case. */
  predicate AllHex(s: string) {
    forall i :: 0 <= i < |s| ==> NibbleValue(s[i]).Some?
  }

  /** hex.DecodeString: digits of either case taken in pairs. A character that is not a hex
      digit is an InvalidByteError wherever it stands; only text made of hex digits alone can
      fail with ErrLength, for an odd length. */
  function Decode(s: string): (r: Result<seq<Byte>>)
    ensures r.Ok? <==> |s| % 2 == 0 && AllHex(s)
    ensures r.Ok? ==> 2 * |r.value| == |s|
    ensures r.Err? ==> r.error == if AllHex(s) then OddHexLength else InvalidHex
  {
    if s == [] then Ok([])
    else if |s| == 1 then
      if NibbleValue(s[0]).Some? then Err(OddHexLength) else Err(InvalidHex)
    else
      AllHexStep(s);
      var rest := Decode(s[2..]);
      if NibbleValue(s[0]).None? || NibbleValue(s[1]).None? then Err(InvalidHex)
      else if rest.Err? then rest
      else Ok([NibbleValue(s[0]).value * 16 + NibbleValue(s[1]).value] + rest.value)
  }

  /** A text of two or more characters is all hex digits when its first pair and the rest are. */
  lemma AllHexStep(s: string)
    requires |s| >= 2
    ensures AllHex(s) <==> NibbleValue(s[0]).Some? && NibbleValue(s[1]).Some? && AllHex(s[2..])
  {
    if NibbleValue(s[0]).Some? && NibbleValue(s[1]).Some? && AllHex(s[2..]) {
      forall i | 2 <= i < |s|
        ensures NibbleValue(s[i]).Some?
      {
        assert s[i] == s[2..][i - 2];
      }
    }
  }

  /** Decoding inverts encoding, whichever case the digits were written in. */
  lemma {:induction false} DecodeEncode(b: seq<Byte>, upper: bool)
    ensures Decode(Encode(b, upper)) == Ok(b)
  {
    if b != [] {
      var s := Encode(b, upper);
      assert s[2..] == Encode(b[1..], upper);
      DecodeEncode(b[1..], upper);
      assert b == [b[0] / 16 * 16 + b[0] % 16] + b[1..];
    }
  }

  /** Different byte strings never share their hex text. */
  lemma EncodeInjective(a: seq<Byte>, b: seq<Byte>, upper: bool)
    requires Encode(a, upper) == Encode(b, upper)
    ensures a == b
  {
    DecodeEncode(a, upper);
    DecodeEncode(b, upper);
  }

  /** An example: a two-byte hash written by the token cache, and read back from mixed-case
      text. */
  lemma EncodeExample()
    ensures Encode([0x0A, 0xFF], true) == "0AFF"
    ensures Decode("0aFf") == Ok([0x0A, 0xFF])
  {
    assert Encode([0xFF], true) == "FF";
    var s := "0aFf";
    assert s[0] == '0' && s[1] == 'a' && s[2] == 'F' && s[3] == 'f';
    var t := s[2..];
    assert t[0] == 'F' && t[1] == 'f' && t[2..] == [];
    assert NibbleValue(t[0]) == Some(15) && NibbleValue(t[1]) == Some(15);
    assert Decode(t[2..]) == Ok([]);
    assert Decode(t).value == [255];
    assert NibbleValue(s[0]) == Some(0) && NibbleValue(s[1]) == Some(10);
    assert Decode(s).value == [10, 255];
  }
}
