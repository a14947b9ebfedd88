/** `bytes.hex` and `bytes.fromhex`, as storage.py and ratelimit.py use them. */
module Hex {
  import opened Bytes

  const DIGITS := "0123456789abcdef"

  function Digit(n: nat): char
    requires n < 16
  {
    DIGITS[n]
  }

  /** `bytes.hex` */
  function ToHex(b: bytes): string {
    if b == [] then "" else [Digit(b[0] / 16), Digit(b[0] % 16)] + ToHex(b[1..])
  }

  function DigitValue(c: char): (n: Option<nat>)
    ensures n.Some? ==> n.value < 16
  {
    if '0' <= c <= '9' then Some((c - '0') as int)
    else if 'a' <= c <= 'f' then Some((c - 'a') as int + 10)
    else if 'A' <= c <= 'F' then Some((c - 'A') as int + 10)
    else None
  }

  predicate IsSpace(c: char) {
    c == ' ' || '\t' <= c <= '\r'
  }

  /** `bytes.fromhex`: pairs of digits in either case, with white space allowed before each pair. */
  function FromHex(s: string): Result<bytes> {
    if s == "" then Ok([])
    else if IsSpace(s[0]) then FromHex(s[1..])
    else if |s| == 1 then Err(BadHex)
    else
      match (DigitValue(s[0]), DigitValue(s[1]))
      case (Some(h), Some(l)) =>
        var rest :- FromHex(s[2..]);
        Ok([h * 16 + l] + rest)
      case _ => Err(BadHex)
  }

  lemma DigitRoundTrip(n: nat)
    requires n < 16
    ensures DigitValue(Digit(n)) == Some(n) && !IsSpace(Digit(n))
  {
    if n < 10 {
      assert DIGITS[n] == "0123456789"[n];
    } else {
      assert DIGITS[n] == "abcdef"[n - 10];
    }
  }

  lemma PairRead(v: byte, s: string)
    ensures FromHex([Digit(v / 16), Digit(v % 16)] + s) ==
      match FromHex(s) case Ok(rest) => Ok([v] + rest) case Err(e) => Err(e)
  {
    DigitRoundTrip(v / 16);
    DigitRoundTrip(v % 16);
    var t := [Digit(v / 16), Digit(v % 16)] + s;
    assert t[0] == Digit(v / 16) && t[1] == Digit(v % 16) && t[2..] == s;
  }

  /** Decoding undoes encoding. */
  lemma {:induction false} HexRoundTrip(b: bytes)
    ensures FromHex(ToHex(b)) == Ok(b)
  {
    if b != [] {
      HexRoundTrip(b[1..]);
      PairRead(b[0], ToHex(b[1..]));
      assert b == [b[0]] + b[1..];
    }
  }

  lemma {:induction false} OnlyBadHex(s: string)
    ensures FromHex(s).Err? ==> FromHex(s) == Err(BadHex)
    decreases |s|
  {
    if s != "" && IsSpace(s[0]) {
      OnlyBadHex(s[1..]);
    } else if |s| > 1 {
      OnlyBadHex(s[2..]);
    }
  }

  /** White space before a pair is skipped; anything else that is no pair of digits is refused. */
  lemma HexRefuses(c: char, d: char, s: string)
    ensures IsSpace(c) ==> FromHex([c] + s) == FromHex(s)
    ensures !IsSpace(c) ==> FromHex([c]) == Err(BadHex)
    ensures !IsSpace(c) && (DigitValue(c).None? || DigitValue(d).None?) ==> FromHex([c, d] + s) == Err(BadHex)
  {
    assert ([c] + s)[1..] == s;
    var t := [c, d] + s;
    assert t[0] == c && t[1] == d;
  }

  lemma PairAccepted(h: char, l: char, s: string)
    requires DigitValue(h).Some? && DigitValue(l).Some? && !IsSpace(h)
    ensures FromHex([h, l] + s) ==
      match FromHex(s)
      case Ok(rest) => Ok([DigitValue(h).value * 16 + DigitValue(l).value] + rest)
      case Err(e) => Err(e)
  {
    var t := [h, l] + s;
    assert t[0] == h && t[1] == l && t[2..] == s;
  }

  /** Two lower-case digits a byte, the high one first; read back in either case. */
  lemma HexOfBytes()
    ensures ToHex([26, 171]) == "1aab" && FromHex("1aAB") == Ok([26, 171])
  {
    PairWritten(26, [171]);
    PairWritten(171, []);
    PairAccepted('A', 'B', "");
    PairAccepted('1', 'a', "AB");
    Joined();
  }

  lemma PairWritten(b: byte, rest: bytes)
    ensures ToHex([b] + rest) == [Digit(b / 16), Digit(b % 16)] + ToHex(rest)
  {
    assert ([b] + rest)[1..] == rest;
  }

  lemma Joined()
    ensures [171] + [] == [171] && [26] + [171] == [26, 171]
    ensures ['A', 'B'] + "" == "AB" && ['1', 'a'] + "AB" == "1aAB"
    ensures [Digit(10), Digit(11)] + "" == "ab" && [Digit(1), Digit(10)] + "ab" == "1aab"
  {
  }

  /** Different byte strings have different keys. */
  lemma HexInjective(b: bytes, b': bytes)
    requires ToHex(b) == ToHex(b')
    ensures b == b'
  {
    HexRoundTrip(b);
    HexRoundTrip(b');
  }
}
