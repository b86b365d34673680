/**
  The text the binary exporter writes for a node's list of allowed values:
  every element preceded by its length as two upper-case hexadecimal
  digits, the elements one after the other. The helpers are modelled as
  written, together with a corrected framing that refuses elements whose
  length two digits cannot express, and a reader for the framed text.
 */
module AllowedFraming {
  import opened Wrappers

  /** The longest element a two-digit length prefix can describe. */
  const MaxElementLength: nat := 255

  /** An upper-case hexadecimal digit. */
  predicate IsHexDigit(c: char) {
    '0' <= c <= '9' || 'A' <= c <= 'F'
  }

  /** Whether `code` is a Unicode scalar value: a code point that is a character UTF-8 can encode. */
  predicate IsScalar(code: int) {
    0 <= code < 0xD800 || 0xE000 <= code < 0x11_0000
  }

  /** The value of an upper-case hexadecimal digit; None for any other character. */
  function HexValue(c: char): (r: Option<nat>)
    ensures r.Some? <==> IsHexDigit(c)
    ensures r.Some? ==> r.value < 16
  {
    if '0' <= c <= '9' then Some(c as int - '0' as int)
    else if 'A' <= c <= 'F' then Some(c as int - 'A' as int + 10)
    else None
  }

  /** Two digits with the same value are the same digit. */
  lemma HexValueInjective(a: char, b: char)
    requires HexValue(a).Some? && HexValue(a) == HexValue(b)
    ensures a == b
  {
  }

  /**
    `intToHexChar`: a value below ten becomes the digit counted on from
    '0', any other value the letter counted on from 'A' (so sixteen and more
    run past 'F'). None when that code point is not a character: `chr`
    raises beyond U+10FFFF, and a surrogate cannot be encoded to UTF-8.
   */
  function IntToHexChar(hexInt: nat): (r: Option<char>)
    ensures hexInt < 16 ==> r.Some? && HexValue(r.value) == Some(hexInt)
    ensures hexInt >= 16 && r.Some? ==> !IsHexDigit(r.value) && r.value > 'F'
  {
    var code := if hexInt < 10 then hexInt + '0' as int else hexInt - 10 + 'A' as int;
    if IsScalar(code) then Some(code as char) else None
  }

  /** The digit values map onto '0'..'9' then 'A'..'F'. */
  lemma IntToHexCharDigits()
    ensures IntToHexChar(0) == Some('0') && IntToHexChar(9) == Some('9')
    ensures IntToHexChar(10) == Some('A') && IntToHexChar(15) == Some('F')
  {
  }

  /** Distinct digit values give distinct digits. */
  lemma IntToHexCharInjective(a: nat, b: nat)
    requires a < 16 && b < 16 && a != b
    ensures IntToHexChar(a) != IntToHexChar(b)
  {
  }

  /**
    `hexAllowedLen` as written: the element's length divided by sixteen,
    then the remainder, each through `intToHexChar`. Nothing bounds the
    quotient, so from 256 characters on the first character is not a digit.
   */
  function HexAllowedLen(allowed: string): (r: Option<string>)
    ensures r.Some? ==> |r.value| == 2
    ensures |allowed| <= MaxElementLength ==>
              && r.Some?
              && HexValue(r.value[0]) == Some(|allowed| / 16)
              && HexValue(r.value[1]) == Some(|allowed| % 16)
    ensures |allowed| > MaxElementLength && r.Some? ==> !IsHexDigit(r.value[0])
  {
    var d1 := |allowed| / 16;
    var d2 := |allowed| - d1 * 16;
    assert d2 == |allowed| % 16;
    match IntToHexChar(d1)
    case None => None
    case Some(c1) => Some([c1, IntToHexChar(d2).value])
  }

  /** The corrected length prefix, defined only for lengths two digits can express. */
  function LengthPrefix(n: nat): (r: string)
    requires n <= MaxElementLength
    ensures |r| == 2 && HexValue(r[0]).Some? && HexValue(r[1]).Some?
    ensures 16 * HexValue(r[0]).value + HexValue(r[1]).value == n
  {
    [IntToHexChar(n / 16).value, IntToHexChar(n % 16).value]
  }

  /** Two digits whose value is `n` are the prefix of `n`. */
  lemma LengthPrefixUnique(p: string, n: nat)
    requires n <= MaxElementLength
    requires |p| == 2 && HexValue(p[0]).Some? && HexValue(p[1]).Some?
    requires 16 * HexValue(p[0]).value + HexValue(p[1]).value == n
    ensures p == LengthPrefix(n)
  {
    var q := LengthPrefix(n);
    var hi, lo := HexValue(p[0]).value, HexValue(p[1]).value;
    assert hi == n / 16 && lo == n % 16;
    HexValueInjective(p[0], q[0]);
    HexValueInjective(p[1], q[1]);
  }

  /** Where the length fits, `hexAllowedLen` is the corrected prefix. */
  lemma HexAllowedLenAgrees(allowed: string)
    requires |allowed| <= MaxElementLength
    ensures HexAllowedLen(allowed) == Some(LengthPrefix(|allowed|))
  {
    var r := HexAllowedLen(allowed).value;
    LengthPrefixUnique(r, |allowed|);
  }

  /** Every element of `l` fits a two-digit length prefix. */
  predicate Encodable(l: seq<string>) {
    forall i :: 0 <= i < |l| ==> |l[i]| <= MaxElementLength
  }

  /** The size of a framed list: two prefix characters plus the element, for every element. */
  function FramedLength(l: seq<string>): nat {
    if |l| == 0 then 0 else 2 + |l[0]| + FramedLength(l[1..])
  }

  /**
    `allowedString` as written: each element in order, preceded by
    `hexAllowedLen` of it. None when some prefix cannot be built.
   */
  function AllowedStringAsWritten(l: seq<string>): (r: Option<string>)
    ensures r.Some? ==> |r.value| == FramedLength(l)
    ensures Encodable(l) ==> r.Some?
  {
    if |l| == 0 then Some("")
    else
      match (HexAllowedLen(l[0]), AllowedStringAsWritten(l[1..]))
      case (Some(p), Some(rest)) => Some(p + l[0] + rest)
      case _ => None
  }

  /**
    The corrected `allowedString`: the same framing, refusing (with the
    offending element) a list with an element longer than two digits can
    describe.
   */
  function AllowedString(l: seq<string>): (r: Result<string, string>)
    ensures r.Ok? <==> Encodable(l)
    ensures r.Ok? ==> |r.value| == FramedLength(l)
    ensures r.Err? ==> r.error in l && |r.error| > MaxElementLength
  {
    if |l| == 0 then Ok("")
    else if |l[0]| > MaxElementLength then Err(l[0])
    else
      match AllowedString(l[1..])
      case Err(e) => Err(e)
      case Ok(rest) => Ok(LengthPrefix(|l[0]|) + l[0] + rest)
  }

  /** On lists that fit, the corrected framing is exactly the framing as written. */
  lemma {:induction false} AllowedStringAgrees(l: seq<string>)
    requires Encodable(l)
    ensures AllowedStringAsWritten(l) == Some(AllowedString(l).value)
  {
    if |l| > 0 {
      HexAllowedLenAgrees(l[0]);
      AllowedStringAgrees(l[1..]);
    }
  }

  /**
    Reads a framed text back into its elements: two digits give the length
    of the element that follows. None when the text is not well framed.
   */
  function DecodeAllowed(s: string): (r: Option<seq<string>>)
    decreases |s|
  {
    if |s| == 0 then Some([])
    else if |s| < 2 then None
    else
      match (HexValue(s[0]), HexValue(s[1]))
      case (Some(hi), Some(lo)) =>
        var n := 16 * hi + lo;
        if |s| < 2 + n then None
        else (
          match DecodeAllowed(s[2 + n..])
          case None => None
          case Some(rest) => Some([s[2..2 + n]] + rest))
      case _ => None
  }

  /** Reading back a framed list gives the list. */
  lemma {:induction false} AllowedRoundTrip(l: seq<string>)
    requires Encodable(l)
    ensures AllowedString(l).Ok? && DecodeAllowed(AllowedString(l).value) == Some(l)
  {
    if |l| > 0 {
      var e := l[0];
      assert Encodable(l[1..]) by {
        forall i | 0 <= i < |l[1..]| ensures |l[1..][i]| <= MaxElementLength {
          assert l[1..][i] == l[i + 1];
        }
      }
      AllowedRoundTrip(l[1..]);
      var rest := AllowedString(l[1..]).value;
      var s := LengthPrefix(|e|) + e + rest;
      assert AllowedString(l).value == s;
      assert s[2..2 + |e|] == e;
      assert s[2 + |e|..] == rest;
      assert [e] + l[1..] == l;
    }
  }

  /** One step of reading: a non-empty well-framed text is a prefix, an element and a well-framed rest. */
  lemma DecodeStep(s: string)
    requires DecodeAllowed(s).Some? && |s| > 0
    ensures |s| >= 2 && HexValue(s[0]).Some? && HexValue(s[1]).Some?
    ensures var n := 16 * HexValue(s[0]).value + HexValue(s[1]).value;
            && 2 + n <= |s|
            && DecodeAllowed(s[2 + n..]).Some?
            && DecodeAllowed(s).value == [s[2..2 + n]] + DecodeAllowed(s[2 + n..]).value
  {
  }

  /** One step of framing: an element that fits, in front of a list that fits. */
  lemma FrameStep(e: string, l: seq<string>)
    requires |e| <= MaxElementLength && Encodable(l)
    ensures Encodable([e] + l)
    ensures AllowedString([e] + l) == Ok(LengthPrefix(|e|) + e + AllowedString(l).value)
  {
    assert ([e] + l)[1..] == l;
    assert forall i :: 0 < i < |[e] + l| ==> ([e] + l)[i] == l[i - 1];
  }

  /** Every well-framed text is the framing of what it reads back to. */
  lemma {:induction false} DecodeAllowedFrames(s: string)
    requires DecodeAllowed(s).Some?
    ensures Encodable(DecodeAllowed(s).value)
    ensures AllowedString(DecodeAllowed(s).value) == Ok(s)
    decreases |s|
  {
    if |s| > 0 {
      DecodeStep(s);
      var n := 16 * HexValue(s[0]).value + HexValue(s[1]).value;
      var e, tail := s[2..2 + n], s[2 + n..];
      DecodeAllowedFrames(tail);
      var l := DecodeAllowed(tail).value;
      FrameStep(e, l);
      LengthPrefixUnique(s[..2], n);
      SplitFrame(s, n);
    }
  }

  /** A text cut after its two prefix characters and then after `n` more. */
  lemma SplitFrame(s: string, n: nat)
    requires 2 + n <= |s|
    ensures s == s[..2] + s[2..2 + n] + s[2 + n..]
  {
  }

  /** The prefixes of the example lengths. */
  lemma SmallPrefixes()
    ensures LengthPrefix(1) == "01" && LengthPrefix(2) == "02"
  {
    LengthPrefixUnique("01", 1);
    LengthPrefixUnique("02", 2);
  }

  /** `[]` frames as "", `["x"]` as "01x", `["ab", "c"]` as "02ab01c". */
  lemma AllowedStringExamples()
    ensures AllowedString([]) == Ok("")
    ensures AllowedString(["x"]) == Ok("01x")
    ensures AllowedString(["ab", "c"]) == Ok("02ab01c")
  {
    SmallPrefixes();
    FrameStep("x", []);
    assert ["x"] == ["x"] + [];
    assert "01" + "x" + "" == "01x";
    FrameStep("c", []);
    assert ["c"] == ["c"] + [];
    assert "01" + "c" + "" == "01c";
    FrameStep("ab", ["c"]);
    assert ["ab", "c"] == ["ab"] + ["c"];
    assert "02" + "ab" + "01c" == "02ab01c";
  }

  /**
    As written, an element of 256 characters is framed behind "G0": its
    first prefix character is sixteen counted on from 'A', which is not a
    digit, so the framed text cannot be read back.
   */
  lemma LongElementUndecodable(e: string)
    requires |e| == 256
    ensures HexAllowedLen(e) == Some("G0")
    ensures AllowedStringAsWritten([e]) == Some("G0" + e)
    ensures DecodeAllowed("G0" + e) == None
  {
    assert IntToHexChar(16) == Some('G');
    assert HexAllowedLen(e) == Some("G0");
    assert [e][1..] == [];
    assert "G0" + e + "" == "G0" + e;
    assert ("G0" + e)[0] == 'G';
  }

  /** As written, no list with an over-long element reads back: its framing fails or is unreadable. */
  lemma {:induction false} LongElementNeverRoundTrips(l: seq<string>, i: nat)
    requires i < |l| && |l[i]| > MaxElementLength
    ensures AllowedStringAsWritten(l).None? || DecodeAllowed(AllowedStringAsWritten(l).value) != Some(l)
  {
    if AllowedStringAsWritten(l).Some? && DecodeAllowed(AllowedStringAsWritten(l).value) == Some(l) {
      DecodeAllowedFrames(AllowedStringAsWritten(l).value);
      assert false;
    }
  }
}
