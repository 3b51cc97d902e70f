/** Byte strings, and the hexadecimal text they travel as. */
module ByteStrings {
  import opened Wrappers

  type Byte = b: int | 0 <= b < 256

  type Bytes = seq<Byte>

  /** What SHA-256 returns. */
  type Digest = d: Bytes | |d| == 32 witness seq(32, _ => 0)

  // ---------------------------------------------------------------- hexadecimal

  function HexDigit(v: int): char
    requires 0 <= v < 16
  {
    "0123456789abcdef"[v]
  }

  /** The value of a hexadecimal digit in either case, as `bytes.fromhex` reads it. */
  function DigitValue(c: char): Option<int> {
    if '0' <= c <= '9' then Some(c as int - '0' as int)
    else if 'a' <= c <= 'f' then Some(10 + c as int - 'a' as int)
    else if 'A' <= c <= 'F' then Some(10 + c as int - 'A' as int)
    else None
  }

  /** ASCII white space: tab, line feed, vertical tab, form feed, carriage return, space. */
  predicate IsSpace(c: char) {
    c == ' ' || 9 as char <= c <= 13 as char
  }

  /** `b.hex()` */
  function ToHex(b: Bytes): string {
    if b == [] then "" else [HexDigit(b[0] / 16), HexDigit(b[0] % 16)] + ToHex(b[1..])
  }

  /**
   * `bytes.fromhex(s)`; None is its ValueError. White space between byte pairs is skipped, so the
   * number of bytes is not always half the number of characters.
   */
  function FromHex(s: string): Option<Bytes> {
    if s == "" then Some([])
    else if IsSpace(s[0]) then FromHex(s[1..])
    else if |s| == 1 then None
    else
      match (DigitValue(s[0]), DigitValue(s[1]))
      case (Some(high), Some(low)) =>
        (match FromHex(s[2..])
         case Some(rest) => Some([16 * high + low] + rest)
         case None => None)
      case _ => None
  }

  lemma DigitRoundTrip(v: int)
    requires 0 <= v < 16
    ensures DigitValue(HexDigit(v)) == Some(v)
    ensures !IsSpace(HexDigit(v))
  {
    var digits := "0123456789abcdef";
    assert v < 10 ==> digits[v] == '0' + v as char;
    assert v >= 10 ==> digits[v] == 'a' + (v - 10) as char;
  }

  lemma {:induction false} HexRoundTrip(b: Bytes)
    ensures FromHex(ToHex(b)) == Some(b)
    ensures |ToHex(b)| == 2 * |b|
  {
    if b != [] {
      HexRoundTrip(b[1..]);
      HexPair(b[0], ToHex(b[1..]));
      assert b == [b[0]] + b[1..];
    }
  }

  /** Reading back one printed byte. */
  lemma HexPair(byte: Byte, rest: string)
    ensures var s := [HexDigit(byte / 16), HexDigit(byte % 16)] + rest;
            FromHex(s) == if FromHex(rest).Some? then Some([byte] + FromHex(rest).value) else None
  {
    DigitRoundTrip(byte / 16);
    DigitRoundTrip(byte % 16);
    var s := [HexDigit(byte / 16), HexDigit(byte % 16)] + rest;
    assert s[2..] == rest;
  }

  /** Printing writes lower-case digits and nothing else. */
  lemma {:induction false} PrintedHex(b: Bytes)
    ensures forall c :: c in ToHex(b) ==> c in "0123456789abcdef"
  {
    if b != [] { PrintedHex(b[1..]); }
  }

  /** A character in lower case, where it is a letter from A to F. */
  function Lower(c: char): char {
    if 'A' <= c <= 'F' then 'a' + (c as int - 'A' as int) as char else c
  }

  function AllLower(s: string): string {
    seq(|s|, i requires 0 <= i < |s| => Lower(s[i]))
  }

  /** Case makes no difference to what is read. */
  lemma {:induction false} HexIgnoresCase(s: string)
    ensures FromHex(AllLower(s)) == FromHex(s)
  {
    if s != "" {
      assert AllLower(s)[0] == Lower(s[0]);
      if IsSpace(s[0]) {
        assert AllLower(s)[1..] == AllLower(s[1..]);
        HexIgnoresCase(s[1..]);
      } else if |s| > 1 {
        assert AllLower(s)[1] == Lower(s[1]);
        assert AllLower(s)[2..] == AllLower(s[2..]);
        HexIgnoresCase(s[2..]);
      }
    }
  }

  /** One of the digits, in either case, or ASCII white space. */
  predicate HexText(c: char) {
    c in "0123456789abcdefABCDEF" || c == ' ' || 9 as char <= c <= 13 as char
  }

  predicate AllHexText(s: string) {
    forall i :: 0 <= i < |s| ==> HexText(s[i])
  }

  /** What the first character or two of text that is read are, and that the rest is read too. */
  lemma ReadsOn(s: string)
    requires s != "" && FromHex(s).Some?
    ensures HexText(s[0])
    ensures IsSpace(s[0]) ==> FromHex(s[1..]).Some?
    ensures !IsSpace(s[0]) ==> |s| >= 2 && HexText(s[1]) && FromHex(s[2..]).Some?
  {
    InAlphabet(s[0]);
    if |s| >= 2 { InAlphabet(s[1]); }
    hide HexText, IsSpace, DigitValue;
  }

  /** Nothing else is read. */
  lemma {:induction false} HexAlphabet(s: string)
    requires FromHex(s).Some?
    ensures AllHexText(s)
  {
    hide FromHex, HexText, IsSpace;
    if s != "" {
      ReadsOn(s);
      if IsSpace(s[0]) {
        HexAlphabet(s[1..]);
        FromHere(s, 1);
      } else {
        HexAlphabet(s[2..]);
        FromHere(s, 2);
      }
    }
  }

  lemma FromHere(s: string, k: nat)
    requires k <= |s| && AllHexText(s[k..]) && forall i :: 0 <= i < k ==> HexText(s[i])
    ensures AllHexText(s)
  {
    hide HexText;
    forall i | k <= i < |s| ensures HexText(s[i]) {
      assert s[i] == s[k..][i - k];
    }
  }

  lemma InAlphabet(c: char)
    ensures DigitValue(c).Some? || IsSpace(c) ==> HexText(c)
  {
    var digits := "0123456789abcdefABCDEF";
    if DigitValue(c).Some? {
      var i := if c <= '9' then c as int - '0' as int else if c <= 'F' then 16 + c as int - 'A' as int
               else 10 + c as int - 'a' as int;
      assert digits[i] == c;
    }
  }

  predicate SpaceFree(s: string) {
    forall i :: 0 <= i < |s| ==> !IsSpace(s[i])
  }

  /**
   * Readable text of length L carries exactly L/2 bytes when it holds no white space, and fewer
   * otherwise: the exact meaning of a length test on hexadecimal text.
   */
  lemma {:induction false} HexLength(s: string)
    requires FromHex(s).Some?
    ensures 2 * |FromHex(s).value| <= |s|
    ensures 2 * |FromHex(s).value| == |s| <==> SpaceFree(s)
  {
    if s != "" {
      if IsSpace(s[0]) {
        HexLength(s[1..]);
      } else {
        HexLength(s[2..]);
        assert forall i :: 0 <= i < |s[2..]| ==> s[2..][i] == s[i + 2];
        assert forall i :: 2 <= i < |s| ==> s[i] == s[2..][i - 2];
        assert !IsSpace(s[1]);
      }
    }
  }
}
