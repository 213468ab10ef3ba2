/** Text renderings of bytes and numbers: bufferToHexCodes and padNumber. */
module Formatting {
  import opened Buffers

  /** The digit of `d` in upper-case hexadecimal. */
  function HexDigit(d: nat): (c: char)
    requires d < 16
    ensures IsHexDigit(c) && HexValue(c) == d
  {
    if d < 10 then ('0' as int + d) as char else ('A' as int + d - 10) as char
  }

  predicate IsHexDigit(c: char)
  {
    '0' <= c <= '9' || 'A' <= c <= 'F'
  }

  /** The value of an upper-case hexadecimal digit; 0 for any other character. */
  function HexValue(c: char): (v: nat)
    ensures v < 16
  {
    if '0' <= c <= '9' then c as int - '0' as int
    else if 'A' <= c <= 'F' then c as int - 'A' as int + 10
    else 0
  }

  /** item.toString(16).toUpperCase(): the digits of a byte without leading zeros. */
  function UpperHex(b: byte): (s: string)
    ensures |s| == if b < 16 then 1 else 2
    ensures forall k :: 0 <= k < |s| ==> IsHexDigit(s[k])
    ensures |s| == 1 ==> HexValue(s[0]) == b
    ensures |s| == 2 ==> HexValue(s[0]) * 16 + HexValue(s[1]) == b && s[0] != '0'
  {
    if b < 16 then [HexDigit(b)] else [HexDigit(b / 16), HexDigit(b % 16)]
  }

  /** The code bufferToHexCodes writes for one byte: a '0' in front of a single digit. */
  function Code(b: byte): (c: string)
    ensures |c| == 2 && IsHexDigit(c[0]) && IsHexDigit(c[1])
    ensures HexValue(c[0]) * 16 + HexValue(c[1]) == b
  {
    var str := UpperHex(b);
    if |str| == 1 then "0" + str else str
  }

  function Separator(insertSpace: bool): string
  {
    if insertSpace then " " else ""
  }

  /** What the loop of bufferToHexCodes has built after the bytes of `window`:
      each code followed by the separator. */
  function HexCodes(window: seq<byte>, insertSpace: bool): string
  {
    if |window| == 0 then ""
    else HexCodes(window[..|window| - 1], insertSpace) + Code(window[|window| - 1]) + Separator(insertSpace)
  }

  /** One more byte of the window adds its code and a separator at the end. */
  lemma HexCodesStep(window: seq<byte>, k: nat, insertSpace: bool)
    requires k < |window|
    ensures HexCodes(window[..k + 1], insertSpace) == HexCodes(window[..k], insertSpace) + Code(window[k]) + Separator(insertSpace)
  {
    assert window[..k + 1][..k] == window[..k];
  }

  /** The codes of `window` with one separator between neighbours and none at
      either end. */
  function Joined(window: seq<byte>, insertSpace: bool): (s: string)
    ensures |s| == if |window| == 0 then 0 else if insertSpace then 3 * |window| - 1 else 2 * |window|
  {
    if |window| == 0 then ""
    else if |window| == 1 then Code(window[0])
    else Joined(window[..|window| - 1], insertSpace) + Separator(insertSpace) + Code(window[|window| - 1])
  }

  /** The characters String.prototype.trim removes that matter here: the ASCII
      white space, the no-break space and the byte order mark. */
  predicate IsWhitespace(c: char)
  {
    c == ' ' || c == '\t' || c == '\n' || c == '\r' || c == '\U{000B}' || c == '\U{000C}' || c == '\U{00A0}' || c == '\U{FEFF}'
  }

  /** The number of white-space characters at the front of `s`. */
  function LeadingWhitespace(s: string): (n: nat)
    ensures n <= |s| && (n < |s| ==> !IsWhitespace(s[n]))
    ensures forall k :: 0 <= k < n ==> IsWhitespace(s[k])
  {
    if |s| == 0 || !IsWhitespace(s[0]) then 0 else 1 + LeadingWhitespace(s[1..])
  }

  /** The number of white-space characters at the end of `s`. */
  function TrailingWhitespace(s: string): (n: nat)
    ensures n <= |s| && (n < |s| ==> !IsWhitespace(s[|s| - 1 - n]))
    ensures forall k :: |s| - n <= k < |s| ==> IsWhitespace(s[k])
  {
    if |s| == 0 || !IsWhitespace(s[|s| - 1]) then 0 else 1 + TrailingWhitespace(s[..|s| - 1])
  }

  /** String.prototype.trim: drop the white space at both ends. */
  function Trim(s: string): (r: string)
    ensures LeadingWhitespace(s) + |r| <= |s| && r == s[LeadingWhitespace(s)..LeadingWhitespace(s) + |r|]
    ensures |r| == 0 || (!IsWhitespace(r[0]) && !IsWhitespace(r[|r| - 1]))
    ensures forall k :: LeadingWhitespace(s) + |r| <= k < |s| ==> IsWhitespace(s[k])
  {
    var rest := s[LeadingWhitespace(s)..];
    rest[..|rest| - TrailingWhitespace(rest)]
  }

  /** Text that does not start or end in white space keeps exactly itself when
      white space after it is trimmed. */
  lemma TrimAppended(s: string, blank: string)
    requires |s| == 0 || (!IsWhitespace(s[0]) && !IsWhitespace(s[|s| - 1]))
    requires forall k :: 0 <= k < |blank| ==> IsWhitespace(blank[k])
    ensures Trim(s + blank) == s
  {
    var t := s + blank;
    assert forall k :: |s| <= k < |t| ==> IsWhitespace(t[k]) by {
      forall k | |s| <= k < |t|
        ensures IsWhitespace(t[k])
      {
        assert t[k] == blank[k - |s|];
      }
    }
    if |s| == 0 {
      assert LeadingWhitespace(t) == |t|;
    } else {
      assert LeadingWhitespace(t) == 0;
      assert t[0..] == t;
      assert t[|s| - 1] == s[|s| - 1];
      assert TrailingWhitespace(t) == |blank|;
      assert t[..|s|] == s;
    }
  }

  /** The loop text is the joined codes followed by one separator. */
  lemma {:induction false} HexCodesJoined(window: seq<byte>, insertSpace: bool)
    ensures HexCodes(window, insertSpace) == Joined(window, insertSpace) + (if |window| == 0 then "" else Separator(insertSpace))
  {
    if |window| > 1 {
      var front := window[..|window| - 1];
      HexCodesJoined(front, insertSpace);
      assert front[..|front| - 1] == window[..|window| - 2];
    } else if |window| == 1 {
      assert window[..0] == [];
    }
  }

  /** The joined codes start and end with a hexadecimal digit. */
  lemma {:induction false} JoinedEnds(window: seq<byte>, insertSpace: bool)
    requires |window| > 0
    ensures var s := Joined(window, insertSpace);
            IsHexDigit(s[0]) && IsHexDigit(s[|s| - 1])
  {
    if |window| > 1 {
      JoinedEnds(window[..|window| - 1], insertSpace);
    }
  }

  /** Trimming the loop text removes exactly the separator after the last code. */
  lemma TrimHexCodes(window: seq<byte>, insertSpace: bool)
    ensures Trim(HexCodes(window, insertSpace)) == Joined(window, insertSpace)
  {
    HexCodesJoined(window, insertSpace);
    if |window| > 0 {
      JoinedEnds(window, insertSpace);
    }
    TrimAppended(Joined(window, insertSpace), if |window| == 0 then "" else Separator(insertSpace));
  }

  /** bufferToHexCodes: two upper-case hexadecimal digits per byte of the window
      at `inputOffset`, a space after each when `insertSpace`, then trim. */
  method BufferToHexCodes(inputBuffer: seq<byte>, inputOffset: nat, inputLength: nat, insertSpace: bool)
    returns (r: string)
    requires inputOffset + inputLength <= |inputBuffer|
    ensures r == Joined(inputBuffer[inputOffset..inputOffset + inputLength], insertSpace)
  {
    var window := inputBuffer[inputOffset..inputOffset + inputLength];
    var result := "";
    for k := 0 to |window|
      invariant result == HexCodes(window[..k], insertSpace)
    {
      var item := window[k];
      var str := UpperHex(item);
      ghost var before := result;
      if |str| == 1 {
        result := result + "0";
      }
      result := result + str;
      assert result == before + Code(item);
      if insertSpace {
        result := result + " ";
      }
      HexCodesStep(window, k, insertSpace);
    }
    assert window[..|window|] == window;
    TrimHexCodes(window, insertSpace);
    r := Trim(result);
  }

  /** Reading hexadecimal codes back, from the end: the last two characters are
      one byte, and with `insertSpace` one separator precedes each earlier code. */
  function ParseHexCodes(s: string, insertSpace: bool): seq<byte>
    decreases |s|
  {
    if |s| < 2 then []
    else
      var front := s[..|s| - 2];
      ParseHexCodes(if insertSpace && |front| > 0 then front[..|front| - 1] else front, insertSpace)
      + [HexValue(s[|s| - 2]) * 16 + HexValue(s[|s| - 1])]
  }

  /** A code after a separator reads back as one more byte. */
  lemma ParseStep(prior: string, code: string, insertSpace: bool)
    requires |code| == 2
    ensures ParseHexCodes(prior + Separator(insertSpace) + code, insertSpace)
            == ParseHexCodes(prior, insertSpace) + [HexValue(code[0]) * 16 + HexValue(code[1])]
  {
    var s := prior + Separator(insertSpace) + code;
    var front := s[..|s| - 2];
    assert front == prior + Separator(insertSpace);
    assert s[|s| - 2] == code[0] && s[|s| - 1] == code[1];
    var before := if insertSpace && |front| > 0 then front[..|front| - 1] else front;
    assert before == prior;
    assert ParseHexCodes(s, insertSpace) == ParseHexCodes(before, insertSpace) + [HexValue(s[|s| - 2]) * 16 + HexValue(s[|s| - 1])];
  }

  /** A non-empty sequence is its front followed by its last element. */
  lemma LastSplit(s: seq<byte>)
    requires |s| > 0
    ensures s == s[..|s| - 1] + [s[|s| - 1]]
  {
  }

  /** The hexadecimal text determines the window it was made from. */
  lemma {:induction false} HexCodesRoundTrip(window: seq<byte>, insertSpace: bool)
    ensures ParseHexCodes(Joined(window, insertSpace), insertSpace) == window
  {
    if |window| == 1 {
      assert Code(window[0])[..0] == [];
    } else if |window| > 1 {
      var n := |window|;
      ParseStep(Joined(window[..n - 1], insertSpace), Code(window[n - 1]), insertSpace);
      HexCodesRoundTrip(window[..n - 1], insertSpace);
      LastSplit(window);
    }
  }

  /** The digit character of `d`. */
  function DigitChar(d: nat): (c: char)
    requires d < 10
    ensures '0' <= c <= '9' && DigitValue(c) == d
  {
    ('0' as int + d) as char
  }

  /** The value of a decimal digit; 0 for any other character. */
  function DigitValue(c: char): (v: nat)
    ensures v < 10
  {
    if '0' <= c <= '9' then c as int - '0' as int else 0
  }

  /** Number.prototype.toString(10) of a natural number: its decimal digits,
      with a leading '0' only for zero itself. */
  function DecimalString(n: nat): (s: string)
    ensures |s| >= 1 && (s[0] == '0' <==> n == 0)
    ensures forall k :: 0 <= k < |s| ==> '0' <= s[k] <= '9'
    decreases n
  {
    if n < 10 then [DigitChar(n)] else DecimalString(n / 10) + [DigitChar(n % 10)]
  }

  /** The number a string of decimal digits stands for. */
  function ParseDecimal(s: string): nat
  {
    if |s| == 0 then 0 else ParseDecimal(s[..|s| - 1]) * 10 + DigitValue(s[|s| - 1])
  }

  /** The decimal digits of a number read back as that number. */
  lemma {:induction false} DecimalRoundTrip(n: nat)
    ensures ParseDecimal(DecimalString(n)) == n
    decreases n
  {
    if n >= 10 {
      var s := DecimalString(n);
      assert s[..|s| - 1] == DecimalString(n / 10);
      DecimalRoundTrip(n / 10);
    }
  }

  /** `k` zero digits. */
  function ZeroChars(k: nat): (z: string)
    ensures |z| == k && forall j :: 0 <= j < k ==> z[j] == '0'
  {
    seq(k, _ => '0')
  }

  /** Zero digits in front do not change the number. */
  lemma {:induction false} LeadingZeroDigits(k: nat, s: string)
    ensures ParseDecimal(ZeroChars(k) + s) == ParseDecimal(s)
    decreases |s|, k
  {
    if |s| > 0 {
      var t := ZeroChars(k) + s;
      assert t[..|t| - 1] == ZeroChars(k) + s[..|s| - 1];
      LeadingZeroDigits(k, s[..|s| - 1]);
    } else if k > 0 {
      assert (ZeroChars(k) + s)[..k - 1] == ZeroChars(k - 1) + s;
      LeadingZeroDigits(k - 1, s);
    }
  }

  /** Zero digits in front of the decimal digits of `n` still read as `n`. */
  lemma PaddedDigits(n: nat, dif: nat)
    ensures var r := ZeroChars(dif) + DecimalString(n);
            ParseDecimal(r) == n && r[dif..] == DecimalString(n)
  {
    LeadingZeroDigits(dif, DecimalString(n));
    DecimalRoundTrip(n);
    assert (ZeroChars(dif) + DecimalString(n))[dif..] == DecimalString(n);
  }

  /** padNumber: the decimal digits of `inputNumber` behind as many '0' as make
      `fullLength` characters, or "" when the digits alone are longer. */
  method PadNumber(inputNumber: nat, fullLength: int) returns (r: string)
    ensures fullLength < |DecimalString(inputNumber)| ==> r == ""
    ensures fullLength >= |DecimalString(inputNumber)| ==>
              |r| == fullLength && ParseDecimal(r) == inputNumber &&
              r[fullLength - |DecimalString(inputNumber)|..] == DecimalString(inputNumber) &&
              forall k :: 0 <= k < fullLength - |DecimalString(inputNumber)| ==> r[k] == '0'
  {
    var str := DecimalString(inputNumber);
    if fullLength < |str| {
      return "";
    }
    var dif := fullLength - |str|;
    var padding := new char[dif];
    for i := 0 to dif
      invariant padding[..i] == ZeroChars(i)
    {
      padding[i] := '0';
    }
    var paddingString := padding[..];
    assert paddingString == ZeroChars(dif);
    PaddedDigits(inputNumber, dif);
    r := paddingString + str;
  }
}
