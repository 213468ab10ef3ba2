/** BASE64 and base64url over binary strings (toBase64 / fromBase64). A binary
    string carries one byte per character, so both sides of the codec are byte
    sequences here; the encoded text is a string. */
module Base64 {
  import opened Buffers

  const Upper: string := "ABCDEFGHIJKLMNOPQRSTUVWXYZ"
  const Lower: string := "abcdefghijklmnopqrstuvwxyz"
  const DecimalDigits: string := "0123456789"

  /** The 64 symbols of BASE64 followed by the padding symbol. */
  const Base64Template: string := Upper + Lower + DecimalDigits + "+/="
  /** The 64 symbols of base64url followed by the padding symbol. */
  const Base64UrlTemplate: string := Upper + Lower + DecimalDigits + "-_="

  function Template(useUrlTemplate: bool): string
  {
    if useUrlTemplate then Base64UrlTemplate else Base64Template
  }

  /** Symbol k of the alphabet, described by ranges: k = 64 is the padding '='. */
  function Symbol(k: nat, useUrlTemplate: bool): char
    requires k <= 64
  {
    if k < 26 then ('A' as int + k) as char
    else if k < 52 then ('a' as int + (k - 26)) as char
    else if k < 62 then ('0' as int + (k - 52)) as char
    else if k == 62 then (if useUrlTemplate then '-' else '+')
    else if k == 63 then (if useUrlTemplate then '_' else '/')
    else '='
  }

  /** The position of `c` among the 64 symbols, 64 when it is not one of them
      (the padding symbol included). */
  function SymbolIndex(c: char, useUrlTemplate: bool): (k: nat)
    ensures k <= 64
  {
    if 'A' <= c <= 'Z' then c as int - 'A' as int
    else if 'a' <= c <= 'z' then c as int - 'a' as int + 26
    else if '0' <= c <= '9' then c as int - '0' as int + 52
    else if c == (if useUrlTemplate then '-' else '+') then 62
    else if c == (if useUrlTemplate then '_' else '/') then 63
    else 64
  }

  lemma UpperRange()
    ensures forall k :: 0 <= k < 26 ==> Upper[k] as int == 'A' as int + k
  {
  }

  lemma LowerRange()
    ensures forall k :: 0 <= k < 26 ==> Lower[k] as int == 'a' as int + k
  {
  }

  lemma DigitRange()
    ensures forall k :: 0 <= k < 10 ==> DecimalDigits[k] as int == '0' as int + k
  {
  }

  /** The template strings hold the symbols in order, then '='. */
  lemma TemplateSymbols(useUrlTemplate: bool)
    ensures |Template(useUrlTemplate)| == 65
    ensures forall k :: 0 <= k < 65 ==> Template(useUrlTemplate)[k] == Symbol(k, useUrlTemplate)
  {
    var t := Template(useUrlTemplate);
    var tail := if useUrlTemplate then "-_=" else "+/=";
    assert t == Upper + Lower + DecimalDigits + tail;
    forall k | 0 <= k < 65
      ensures t[k] == Symbol(k, useUrlTemplate)
    {
      if k < 26 {
        UpperRange();
        assert t[k] == Upper[k];
      } else if k < 52 {
        LowerRange();
        assert t[k] == Lower[k - 26];
      } else if k < 62 {
        DigitRange();
        assert t[k] == DecimalDigits[k - 52];
      } else {
        assert t[k] == tail[k - 62];
      }
    }
  }

  /** Symbol and SymbolIndex are inverse on 0..64. */
  lemma {:induction false} IndexOfSymbol(k: nat, useUrlTemplate: bool)
    requires k <= 64
    ensures SymbolIndex(Symbol(k, useUrlTemplate), useUrlTemplate) == k
  {
  }

  /** A character SymbolIndex places below 64 is that symbol; one it maps to 64
      is none of the 64 symbols. */
  lemma SymbolOfIndex(c: char, useUrlTemplate: bool)
    ensures SymbolIndex(c, useUrlTemplate) < 64 ==> Symbol(SymbolIndex(c, useUrlTemplate), useUrlTemplate) == c
    ensures SymbolIndex(c, useUrlTemplate) == 64 ==> forall k :: 0 <= k < 64 ==> Symbol(k, useUrlTemplate) != c
  {
    if SymbolIndex(c, useUrlTemplate) == 64 {
      forall k | 0 <= k < 64
        ensures Symbol(k, useUrlTemplate) != c
      {
        IndexOfSymbol(k, useUrlTemplate);
      }
    }
  }

  /** indexOf of fromBase64: the first of the 64 template symbols equal to
      `toSearch`, or 64. */
  method IndexOf(useUrlTemplate: bool, toSearch: char) returns (r: nat)
    ensures r == SymbolIndex(toSearch, useUrlTemplate)
  {
    var template := Template(useUrlTemplate);
    TemplateSymbols(useUrlTemplate);
    SymbolOfIndex(toSearch, useUrlTemplate);
    for i := 0 to 64
      invariant i <= SymbolIndex(toSearch, useUrlTemplate)
    {
      if template[i] == toSearch {
        IndexOfSymbol(i, useUrlTemplate);
        return i;
      }
    }
    return 64;
  }

  /** test of fromBase64: the padding index 64 counts as 0. */
  function Test(incoming: nat): (t: nat)
    ensures incoming == 64 ==> t == 0
    ensures incoming != 64 ==> t == incoming
  {
    if incoming == 64 then 0 else incoming
  }

  /** charCodeAt past the end of the input is NaN, which the shifts and masks of
      toBase64 read as 0. */
  function CharCodeAt(input: seq<byte>, i: nat): (c: byte)
    ensures i < |input| ==> c == input[i]
    ensures |input| <= i ==> c == 0
  {
    if i < |input| then input[i] else 0
  }

  /** The four symbol indices toBase64 computes for a group of 1..3 bytes, 64
      standing for padding. */
  function Sextets(chunk: seq<byte>): (e: seq<nat>)
    requires 1 <= |chunk| <= 3
    ensures |e| == 4 && e[0] < 64 && e[1] < 64
    ensures (e[2] == 64 <==> |chunk| == 1) && e[2] <= 64
    ensures (e[3] == 64 <==> |chunk| < 3) && e[3] <= 64
  {
    var c1 := CharCodeAt(chunk, 0);
    var c2 := CharCodeAt(chunk, 1);
    var c3 := CharCodeAt(chunk, 2);
    [c1 / 4,
     c1 % 4 * 16 + c2 / 16,
     if |chunk| == 1 then 64 else c2 % 16 * 4 + c3 / 64,
     if |chunk| < 3 then 64 else c3 % 64]
  }

  /** The text of one group: four symbols, or without padding only the
      |chunk| + 1 that carry bits. */
  function EncodeGroup(chunk: seq<byte>, useUrlTemplate: bool, skipPadding: bool): (t: string)
    requires 1 <= |chunk| <= 3
    ensures |t| == if skipPadding then |chunk| + 1 else 4
  {
    var e := Sextets(chunk);
    if skipPadding && |chunk| == 1 then
      [Symbol(e[0], useUrlTemplate), Symbol(e[1], useUrlTemplate)]
    else if skipPadding && |chunk| == 2 then
      [Symbol(e[0], useUrlTemplate), Symbol(e[1], useUrlTemplate), Symbol(e[2], useUrlTemplate)]
    else
      [Symbol(e[0], useUrlTemplate), Symbol(e[1], useUrlTemplate), Symbol(e[2], useUrlTemplate), Symbol(e[3], useUrlTemplate)]
  }

  /** The BASE64 text of `input`, three bytes at a time. */
  function Encode(input: seq<byte>, useUrlTemplate: bool, skipPadding: bool): string
    decreases |input|
  {
    if |input| == 0 then []
    else if |input| <= 3 then EncodeGroup(input, useUrlTemplate, skipPadding)
    else EncodeGroup(input[..3], useUrlTemplate, skipPadding) + Encode(input[3..], useUrlTemplate, skipPadding)
  }

  /** The number of zero bytes in front of the first non-zero one. */
  function LeadingZeros(s: seq<byte>): (n: nat)
    ensures n <= |s| && (n < |s| ==> s[n] != 0)
    ensures forall k :: 0 <= k < n ==> s[k] == 0
  {
    if |s| == 0 || s[0] != 0 then 0 else 1 + LeadingZeros(s[1..])
  }

  /** What skipLeadingZeros leaves of the input: everything from the first
      non-zero byte on, or the whole input when there is none. */
  function StripLeadingZeros(s: seq<byte>): (r: seq<byte>)
    ensures |r| <= |s| && r == s[|s| - |r|..]
    ensures forall k :: 0 <= k < |s| - |r| ==> s[k] == 0
    ensures (exists k :: 0 <= k < |s| && s[k] != 0) ==> |r| > 0 && r[0] != 0
    ensures (forall k :: 0 <= k < |s| ==> s[k] == 0) ==> r == s
  {
    var n := LeadingZeros(s);
    if n == |s| then s else s[n..]
  }

  function Min(a: nat, b: nat): nat
  {
    if a < b then a else b
  }

  /** The text of the group toBase64 reads at position i of `data`, as template
      lookups of the indices it computes there: bytes past the end read as 0, and
      the padding index 64 appears where the second or third byte is missing. */
  lemma EncodeGroupAt(data: seq<byte>, i: nat, useUrlTemplate: bool, skipPadding: bool,
                      enc1: nat, enc2: nat, enc3: nat, enc4: nat)
    requires i < |data|
    requires enc1 == data[i] / 4
    requires enc2 == data[i] % 4 * 16 + CharCodeAt(data, i + 1) / 16
    requires enc3 == if i + 1 >= |data| then 64 else CharCodeAt(data, i + 1) % 16 * 4 + CharCodeAt(data, i + 2) / 64
    requires enc4 == if i + 2 >= |data| then 64 else CharCodeAt(data, i + 2) % 64
    ensures var t := Template(useUrlTemplate);
            |t| == 65 && enc1 < 64 && enc2 < 64 && enc3 <= 64 && enc4 <= 64 &&
            EncodeGroup(data[i..Min(i + 3, |data|)], useUrlTemplate, skipPadding)
            == if skipPadding && enc3 == 64 then [t[enc1], t[enc2]]
               else if skipPadding && enc4 == 64 then [t[enc1], t[enc2], t[enc3]]
               else [t[enc1], t[enc2], t[enc3], t[enc4]]
  {
    var chunk := data[i..Min(i + 3, |data|)];
    assert CharCodeAt(chunk, 0) == data[i];
    assert CharCodeAt(chunk, 1) == CharCodeAt(data, i + 1);
    assert CharCodeAt(chunk, 2) == CharCodeAt(data, i + 2);
    assert Sextets(chunk) == [enc1, enc2, enc3, enc4];
    TemplateSymbols(useUrlTemplate);
  }

  /** The text of `data` from position i on is the text of the group there,
      then the text of what follows it. */
  lemma EncodeGroupFront(data: seq<byte>, i: nat, useUrlTemplate: bool, skipPadding: bool)
    requires i < |data|
    ensures Encode(data[i..], useUrlTemplate, skipPadding)
            == EncodeGroup(data[i..Min(i + 3, |data|)], useUrlTemplate, skipPadding)
               + (if i + 3 < |data| then Encode(data[i + 3..], useUrlTemplate, skipPadding) else [])
  {
    var rest := data[i..];
    if |rest| > 3 {
      assert rest[..3] == data[i..Min(i + 3, |data|)];
      assert rest[3..] == data[i + 3..];
    } else {
      assert rest == data[i..Min(i + 3, |data|)];
    }
  }

  /** One round of the encoding loop: the text so far followed by the group at
      position i is the text of the whole input up to where the next round
      starts. */
  lemma EncodeStep(data: seq<byte>, i: nat, useUrlTemplate: bool, skipPadding: bool,
                   prefix: string, output: string, total: string, next: nat)
    requires i < |data| && next == i + 3
    requires prefix + Encode(data[i..], useUrlTemplate, skipPadding) == total
    requires output == prefix + EncodeGroup(data[i..Min(i + 3, |data|)], useUrlTemplate, skipPadding)
    ensures next < |data| ==> output + Encode(data[next..], useUrlTemplate, skipPadding) == total
    ensures next >= |data| ==> output == total
  {
    EncodeGroupFront(data, i, useUrlTemplate, skipPadding);
  }

  /** The skipLeadingZeros step of toBase64: slice from the first non-zero byte,
      or from 0 when there is none. */
  method SkipLeadingZeros(input: seq<byte>) returns (data: seq<byte>)
    ensures data == StripLeadingZeros(input)
  {
    var nonZeroPosition := 0;
    for j := 0 to |input|
      invariant nonZeroPosition == 0 && forall k :: 0 <= k < j ==> input[k] == 0
    {
      if input[j] != 0 {
        nonZeroPosition := j;
        break;
      }
    }
    data := input[nonZeroPosition..];
  }

  /** The end of the encoding loop body: append the four symbols, or, when
      padding is skipped, only those that are not padding. */
  method AppendSymbols(output: string, template: string, skipPadding: bool,
                       enc1: nat, enc2: nat, enc3: nat, enc4: nat) returns (r: string)
    requires |template| == 65 && enc1 < 64 && enc2 < 64 && enc3 <= 64 && enc4 <= 64
    ensures r == output + if skipPadding && enc3 == 64 then [template[enc1], template[enc2]]
                          else if skipPadding && enc4 == 64 then [template[enc1], template[enc2], template[enc3]]
                          else [template[enc1], template[enc2], template[enc3], template[enc4]]
  {
    if skipPadding {
      if enc3 == 64 {
        r := output + [template[enc1], template[enc2]];
      } else if enc4 == 64 {
        r := output + [template[enc1], template[enc2], template[enc3]];
      } else {
        r := output + [template[enc1], template[enc2], template[enc3], template[enc4]];
      }
    } else {
      r := output + [template[enc1], template[enc2], template[enc3], template[enc4]];
    }
  }

  /** toBase64: optionally drop the leading zero bytes, then encode three bytes
      at a time; flag1 and flag2 record that the second or third byte of the
      group is missing. */
  method ToBase64(input: seq<byte>, useUrlTemplate: bool, skipPadding: bool, skipLeadingZeros: bool)
    returns (output: string)
    ensures output == Encode(if skipLeadingZeros then StripLeadingZeros(input) else input, useUrlTemplate, skipPadding)
  {
    var i := 0;
    var flag1 := 0;
    var flag2 := 0;
    output := "";
    var template := Template(useUrlTemplate);

    var data := input;
    if skipLeadingZeros {
      data := SkipLeadingZeros(data);
    }

    ghost var total := Encode(data, useUrlTemplate, skipPadding);
    while i < |data|
      invariant i < |data| ==> flag1 == 0 && flag2 == 0
      invariant i < |data| ==> output + Encode(data[i..], useUrlTemplate, skipPadding) == total
      invariant i >= |data| ==> output == total
      decreases |data| - i
    {
      ghost var start := i;
      var chr1 := CharCodeAt(data, i);
      i := i + 1;
      if i >= |data| {
        flag1 := 1;
      }
      var chr2 := CharCodeAt(data, i);
      i := i + 1;
      if i >= |data| {
        flag2 := 1;
      }
      var chr3 := CharCodeAt(data, i);
      i := i + 1;

      var enc1 := chr1 / 4;
      var enc2 := chr1 % 4 * 16 + chr2 / 16;
      var enc3 := chr2 % 16 * 4 + chr3 / 64;
      var enc4 := chr3 % 64;
      if flag1 == 1 {
        enc3, enc4 := 64, 64;
      } else if flag2 == 1 {
        enc4 := 64;
      }
      EncodeGroupAt(data, start, useUrlTemplate, skipPadding, enc1, enc2, enc3, enc4);

      ghost var prefix := output;
      output := AppendSymbols(output, template, skipPadding, enc1, enc2, enc3, enc4);
      EncodeStep(data, start, useUrlTemplate, skipPadding, prefix, output, total, i);
    }
  }

  /** The index fromBase64 reads at position j: 0 past the end. */
  function IndexAt(input: string, j: nat, useUrlTemplate: bool): (k: nat)
    ensures k <= 64
  {
    if j < |input| then SymbolIndex(input[j], useUrlTemplate) else 0
  }

  /** The bytes fromBase64 appends for the indices of one group: chr1 always,
      chr2 and chr3 unless the index they end with is the padding 64. */
  function GroupBytes(enc1: nat, enc2: nat, enc3: nat, enc4: nat): (b: seq<byte>)
    requires enc1 <= 64 && enc2 <= 64 && enc3 <= 64 && enc4 <= 64
    ensures 1 <= |b| <= 3
  {
    var chr1 := Test(enc1) * 4 + Test(enc2) / 16;
    var chr2 := Test(enc2) % 16 * 16 + Test(enc3) / 4;
    var chr3 := Test(enc3) % 4 * 64 + Test(enc4);
    [chr1] + (if enc3 != 64 then [chr2] else []) + (if enc4 != 64 then [chr3] else [])
  }

  /** The bytes fromBase64 produces for a group of 1..4 symbols; a missing symbol
      reads as index 0, an unknown one or '=' as 64. */
  function DecodeGroup(chunk: string, useUrlTemplate: bool): (b: seq<byte>)
    requires 1 <= |chunk| <= 4
    ensures 1 <= |b| <= 3
  {
    GroupBytes(IndexAt(chunk, 0, useUrlTemplate), IndexAt(chunk, 1, useUrlTemplate),
               IndexAt(chunk, 2, useUrlTemplate), IndexAt(chunk, 3, useUrlTemplate))
  }

  /** The bytes of BASE64 text, four symbols at a time. */
  function Decode(input: string, useUrlTemplate: bool): seq<byte>
    decreases |input|
  {
    if |input| == 0 then []
    else if |input| <= 4 then DecodeGroup(input, useUrlTemplate)
    else DecodeGroup(input[..4], useUrlTemplate) + Decode(input[4..], useUrlTemplate)
  }

  /** The bytes of the group fromBase64 reads at position i, from the indices it
      looks up there: a symbol past the end reads as index 0. */
  lemma DecodeGroupAt(input: string, i: nat, useUrlTemplate: bool, enc1: nat, enc2: nat, enc3: nat, enc4: nat)
    requires i < |input|
    requires enc1 == IndexAt(input, i, useUrlTemplate)
    requires enc2 == IndexAt(input, i + 1, useUrlTemplate)
    requires enc3 == IndexAt(input, i + 2, useUrlTemplate)
    requires enc4 == IndexAt(input, i + 3, useUrlTemplate)
    ensures DecodeGroup(input[i..Min(i + 4, |input|)], useUrlTemplate) == GroupBytes(enc1, enc2, enc3, enc4)
  {
    var chunk := input[i..Min(i + 4, |input|)];
    assert IndexAt(chunk, 0, useUrlTemplate) == enc1;
    assert IndexAt(chunk, 1, useUrlTemplate) == enc2;
    assert IndexAt(chunk, 2, useUrlTemplate) == enc3;
    assert IndexAt(chunk, 3, useUrlTemplate) == enc4;
  }

  /** The bytes of `input` from position i on are those of the group there,
      then those of what follows it. */
  lemma DecodeFront(input: string, i: nat, useUrlTemplate: bool)
    requires i < |input|
    ensures Decode(input[i..], useUrlTemplate)
            == DecodeGroup(input[i..Min(i + 4, |input|)], useUrlTemplate) + Decode(input[Min(i + 4, |input|)..], useUrlTemplate)
  {
    var rest := input[i..];
    if |rest| <= 4 {
      assert input[i..Min(i + 4, |input|)] == rest;
      assert input[Min(i + 4, |input|)..] == [];
    } else {
      assert rest[..4] == input[i..Min(i + 4, |input|)];
      assert rest[4..] == input[i + 4..];
    }
  }

  /** One round of the decoding loop: with the indices read at position i, the
      bytes decoded so far followed by the bytes of those indices, then the
      bytes of what follows the group, are the bytes of the whole input. */
  lemma DecodeStep(input: string, i: nat, useUrlTemplate: bool, enc1: nat, enc2: nat, enc3: nat, enc4: nat,
                   prefix: seq<byte>, output: seq<byte>, total: seq<byte>, next: nat)
    requires i < |input| && next == Min(i + 4, |input|)
    requires enc1 == IndexAt(input, i, useUrlTemplate)
    requires enc2 == IndexAt(input, i + 1, useUrlTemplate)
    requires enc3 == IndexAt(input, i + 2, useUrlTemplate)
    requires enc4 == IndexAt(input, i + 3, useUrlTemplate)
    requires prefix + Decode(input[i..], useUrlTemplate) == total
    requires output == prefix + GroupBytes(enc1, enc2, enc3, enc4)
    ensures output + Decode(input[next..], useUrlTemplate) == total
  {
    DecodeGroupAt(input, i, useUrlTemplate, enc1, enc2, enc3, enc4);
    DecodeFront(input, i, useUrlTemplate);
  }

  /** The appends of one group: chr1, then chr2 and chr3 unless their last index
      was the padding. */
  lemma AppendGroup(prefix: seq<byte>, output: seq<byte>, enc1: nat, enc2: nat, enc3: nat, enc4: nat,
                    chr1: byte, chr2: byte, chr3: byte)
    requires enc1 <= 64 && enc2 <= 64 && enc3 <= 64 && enc4 <= 64
    requires chr1 == Test(enc1) * 4 + Test(enc2) / 16
    requires chr2 == Test(enc2) % 16 * 16 + Test(enc3) / 4
    requires chr3 == Test(enc3) % 4 * 64 + Test(enc4)
    requires output == (prefix + [chr1]) + (if enc3 != 64 then [chr2] else []) + (if enc4 != 64 then [chr3] else [])
    ensures output == prefix + GroupBytes(enc1, enc2, enc3, enc4)
  {
  }

  /** What cutTailZeros leaves: `s` up to its last non-zero byte. */
  function TrimTrailingZeros(s: seq<byte>): (r: seq<byte>)
    ensures |r| <= |s| && r == s[..|r|]
    ensures |r| == 0 || r[|r| - 1] != 0
    ensures forall k :: |r| <= k < |s| ==> s[k] == 0
  {
    if |s| == 0 || s[|s| - 1] != 0 then s else TrimTrailingZeros(s[..|s| - 1])
  }

  /** The three properties of TrimTrailingZeros pin its result down. */
  lemma TrimUnique(s: seq<byte>, n: nat)
    requires n <= |s| && (n == 0 || s[n - 1] != 0)
    requires forall k :: n <= k < |s| ==> s[k] == 0
    ensures TrimTrailingZeros(s) == s[..n]
  {
    var r := TrimTrailingZeros(s);
    if |r| != n {
      assert false;
    }
  }

  /** The cutTailZeros step of fromBase64: find the last non-zero byte from the
      end, keep everything up to it, or nothing when there is none. */
  method CutTailZeros(output: seq<byte>) returns (r: seq<byte>)
    ensures r == TrimTrailingZeros(output)
  {
    var outputLength := |output|;
    var nonZeroStart := -1;
    for j := outputLength downto 0
      invariant nonZeroStart == -1 && forall k :: j <= k < outputLength ==> output[k] == 0
    {
      if output[j] != 0 {
        nonZeroStart := j;
        break;
      }
    }
    if nonZeroStart != -1 {
      TrimUnique(output, nonZeroStart + 1);
      r := output[..nonZeroStart + 1];
    } else {
      TrimUnique(output, 0);
      r := [];
    }
  }

  /** The body of the decoding loop after the four symbol indices are read:
      append chr1, then chr2 unless the third symbol is padding, then chr3 unless
      the fourth is. */
  method AppendGroupBytes(output: seq<byte>, enc1: nat, enc2: nat, enc3: nat, enc4: nat) returns (r: seq<byte>)
    requires enc1 <= 64 && enc2 <= 64 && enc3 <= 64 && enc4 <= 64
    ensures r == output + GroupBytes(enc1, enc2, enc3, enc4)
  {
    var chr1: byte := Test(enc1) * 4 + Test(enc2) / 16;
    var chr2: byte := Test(enc2) % 16 * 16 + Test(enc3) / 4;
    var chr3: byte := Test(enc3) % 4 * 64 + Test(enc4);
    r := output + [chr1];
    if enc3 != 64 {
      r := r + [chr2];
    }
    if enc4 != 64 {
      r := r + [chr3];
    }
    AppendGroup(output, r, enc1, enc2, enc3, enc4, chr1, chr2, chr3);
  }

  /** fromBase64: decode four symbols at a time, then optionally cut the zero
      bytes at the end. */
  method FromBase64(input: string, useUrlTemplate: bool, cutTailZeros: bool) returns (output: seq<byte>)
    ensures output == if cutTailZeros then TrimTrailingZeros(Decode(input, useUrlTemplate))
                      else Decode(input, useUrlTemplate)
  {
    var i := 0;
    output := [];
    ghost var total := Decode(input, useUrlTemplate);
    while i < |input|
      invariant i <= |input|
      invariant output + Decode(input[i..], useUrlTemplate) == total
    {
      ghost var start := i;
      var enc1 := IndexOf(useUrlTemplate, input[i]);
      i := i + 1;
      var enc2 := 0;
      if i < |input| {
        enc2 := IndexOf(useUrlTemplate, input[i]);
        i := i + 1;
      }
      var enc3 := 0;
      if i < |input| {
        enc3 := IndexOf(useUrlTemplate, input[i]);
        i := i + 1;
      }
      var enc4 := 0;
      if i < |input| {
        enc4 := IndexOf(useUrlTemplate, input[i]);
        i := i + 1;
      }
      ghost var prefix := output;
      output := AppendGroupBytes(output, enc1, enc2, enc3, enc4);
      DecodeStep(input, start, useUrlTemplate, enc1, enc2, enc3, enc4, prefix, output, total, i);
    }
    assert input[i..] == [];
    assert output == total;

    if cutTailZeros {
      output := CutTailZeros(output);
    }
  }
}

module Base64Properties {
  import opened Buffers
  import opened Base64

  /** `n` zero bytes. */
  function Zeros(n: nat): (z: seq<byte>)
    ensures |z| == n && forall k :: 0 <= k < n ==> z[k] == 0
  {
    seq(n, _ => 0)
  }

  /** The shifts and masks of the two directions undo each other, byte by byte. */
  lemma GroupBits(c1: byte, c2: byte, c3: byte)
    ensures c1 / 4 * 4 + (c1 % 4 * 16 + c2 / 16) / 16 == c1
    ensures (c1 % 4 * 16 + c2 / 16) % 16 * 16 + (c2 % 16 * 4 + c3 / 64) / 4 == c2
    ensures (c2 % 16 * 4 + c3 / 64) % 4 * 64 + c3 % 64 == c3
    ensures c1 % 4 * 16 % 16 == 0 && c2 % 16 * 4 % 4 == 0
  {
  }

  /** The bytes of the indices a group encodes to, where without padding the
      symbols it leaves out read as index 0. */
  lemma SextetsBytes(chunk: seq<byte>, skipPadding: bool)
    requires 1 <= |chunk| <= 3
    ensures var e := Sextets(chunk);
            GroupBytes(e[0], e[1], if skipPadding && |chunk| == 1 then 0 else e[2],
                       if skipPadding && |chunk| < 3 then 0 else e[3])
            == chunk + Zeros(if skipPadding then 3 - |chunk| else 0)
  {
    GroupBits(CharCodeAt(chunk, 0), CharCodeAt(chunk, 1), CharCodeAt(chunk, 2));
  }

  /** The indices fromBase64 reads back from the text of one group. */
  lemma GroupIndices(chunk: seq<byte>, useUrlTemplate: bool, skipPadding: bool)
    requires 1 <= |chunk| <= 3
    ensures var e := Sextets(chunk);
            var t := EncodeGroup(chunk, useUrlTemplate, skipPadding);
            IndexAt(t, 0, useUrlTemplate) == e[0] && IndexAt(t, 1, useUrlTemplate) == e[1] &&
            IndexAt(t, 2, useUrlTemplate) == (if skipPadding && |chunk| == 1 then 0 else e[2]) &&
            IndexAt(t, 3, useUrlTemplate) == (if skipPadding && |chunk| < 3 then 0 else e[3])
  {
    var e := Sextets(chunk);
    IndexOfSymbol(e[0], useUrlTemplate);
    IndexOfSymbol(e[1], useUrlTemplate);
    IndexOfSymbol(e[2], useUrlTemplate);
    IndexOfSymbol(e[3], useUrlTemplate);
  }

  /** Decoding the text of one group gives the group back; without padding the
      missing symbols read as index 0, so zero bytes fill the group up to three. */
  lemma {:induction false} GroupRoundTrip(chunk: seq<byte>, useUrlTemplate: bool, skipPadding: bool)
    requires 1 <= |chunk| <= 3
    ensures DecodeGroup(EncodeGroup(chunk, useUrlTemplate, skipPadding), useUrlTemplate)
            == chunk + Zeros(if skipPadding then 3 - |chunk| else 0)
  {
    GroupIndices(chunk, useUrlTemplate, skipPadding);
    SextetsBytes(chunk, skipPadding);
  }

  /** Text made of a full group of four symbols and more decodes group by group. */
  lemma DecodeAppend(g: string, tail: string, useUrlTemplate: bool)
    requires |g| == 4 && |tail| > 0
    ensures Decode(g + tail, useUrlTemplate) == DecodeGroup(g, useUrlTemplate) + Decode(tail, useUrlTemplate)
  {
    var t := g + tail;
    assert t[..4] == g && t[4..] == tail;
  }

  /** The text of more than three bytes is a full group followed by more text. */
  lemma EncodeFront(s: seq<byte>, useUrlTemplate: bool, skipPadding: bool)
    requires |s| > 3
    ensures Encode(s, useUrlTemplate, skipPadding)
            == EncodeGroup(s[..3], useUrlTemplate, skipPadding) + Encode(s[3..], useUrlTemplate, skipPadding)
    ensures |EncodeGroup(s[..3], useUrlTemplate, skipPadding)| == 4 && |Encode(s[3..], useUrlTemplate, skipPadding)| > 0
  {
    EncodedLength(s[3..], useUrlTemplate, skipPadding);
  }

  /** A full group in front decodes back to its three bytes, in front of what
      the rest decodes to. */
  lemma DecodeEncodeFront(s: seq<byte>, useUrlTemplate: bool, skipPadding: bool)
    requires |s| > 3
    ensures Decode(Encode(s, useUrlTemplate, skipPadding), useUrlTemplate)
            == s[..3] + Decode(Encode(s[3..], useUrlTemplate, skipPadding), useUrlTemplate)
  {
    EncodeFront(s, useUrlTemplate, skipPadding);
    DecodeAppend(EncodeGroup(s[..3], useUrlTemplate, skipPadding), Encode(s[3..], useUrlTemplate, skipPadding), useUrlTemplate);
    GroupRoundTrip(s[..3], useUrlTemplate, skipPadding);
    assert s[..3] + Zeros(0) == s[..3];
  }

  /** The text of at most three bytes is one group, decoded as one group. */
  lemma DecodeEncodeLast(s: seq<byte>, useUrlTemplate: bool, skipPadding: bool)
    requires 1 <= |s| <= 3
    ensures Decode(Encode(s, useUrlTemplate, skipPadding), useUrlTemplate)
            == DecodeGroup(EncodeGroup(s, useUrlTemplate, skipPadding), useUrlTemplate)
  {
  }

  /** Decoding padded BASE64 text gives back exactly the bytes encoded. */
  lemma {:induction false} RoundTrip(s: seq<byte>, useUrlTemplate: bool)
    ensures Decode(Encode(s, useUrlTemplate, false), useUrlTemplate) == s
    decreases |s|
  {
    if 0 < |s| <= 3 {
      DecodeEncodeLast(s, useUrlTemplate, false);
      GroupRoundTrip(s, useUrlTemplate, false);
      assert s + Zeros(0) == s;
    } else if |s| > 3 {
      DecodeEncodeFront(s, useUrlTemplate, false);
      RoundTrip(s[3..], useUrlTemplate);
      assert s == s[..3] + s[3..];
    }
  }

  /** The number of padding bytes a last group of the input lacks. */
  function Missing(n: nat): (k: nat)
    ensures k < 3
    ensures 1 <= n <= 3 ==> k == 3 - n
  {
    (3 - n % 3) % 3
  }

  /** A full group in front does not change what the last group lacks. */
  lemma MissingStep(n: nat)
    requires n >= 3
    ensures Missing(n - 3) == Missing(n)
  {
    assert (n - 3) % 3 == n % 3;
  }

  /** Three bytes in front of the bytes and the zeros after them. */
  lemma ZerosAfter(s: seq<byte>, k: nat)
    requires |s| > 3
    ensures s[..3] + (s[3..] + Zeros(k)) == s + Zeros(k)
  {
    assert s == s[..3] + s[3..];
  }

  /** Without padding the symbols of an incomplete last group are missing, so
      decoding reads them as index 0 and appends a zero byte for each. */
  lemma {:induction false} UnpaddedRoundTrip(s: seq<byte>, useUrlTemplate: bool)
    ensures Decode(Encode(s, useUrlTemplate, true), useUrlTemplate) == s + Zeros(Missing(|s|))
    decreases |s|
  {
    if |s| == 0 {
      UnpaddedEmpty(s, useUrlTemplate);
    } else if |s| <= 3 {
      UnpaddedLast(s, useUrlTemplate);
    } else {
      UnpaddedRoundTrip(s[3..], useUrlTemplate);
      UnpaddedStep(s, useUrlTemplate);
    }
  }

  /** The unpadded round trip of no bytes at all. */
  lemma UnpaddedEmpty(s: seq<byte>, useUrlTemplate: bool)
    requires |s| == 0
    ensures Decode(Encode(s, useUrlTemplate, true), useUrlTemplate) == s + Zeros(Missing(|s|))
  {
    assert Zeros(Missing(0)) == [];
  }

  /** The unpadded round trip of a last group. */
  lemma UnpaddedLast(s: seq<byte>, useUrlTemplate: bool)
    requires 1 <= |s| <= 3
    ensures Decode(Encode(s, useUrlTemplate, true), useUrlTemplate) == s + Zeros(Missing(|s|))
  {
    DecodeEncodeLast(s, useUrlTemplate, true);
    GroupRoundTrip(s, useUrlTemplate, true);
  }

  /** The unpadded round trip of the bytes after a full group extends to the
      whole input. */
  lemma UnpaddedStep(s: seq<byte>, useUrlTemplate: bool)
    requires |s| > 3
    requires Decode(Encode(s[3..], useUrlTemplate, true), useUrlTemplate) == s[3..] + Zeros(Missing(|s[3..]|))
    ensures Decode(Encode(s, useUrlTemplate, true), useUrlTemplate) == s + Zeros(Missing(|s|))
  {
    DecodeEncodeFront(s, useUrlTemplate, true);
    MissingStep(|s|);
    ZerosAfter(s, Missing(|s|));
  }

  /** Padded text has four symbols per started group of three bytes; unpadded
      text one symbol per six bits, rounded up. */
  lemma {:induction false} EncodedLength(s: seq<byte>, useUrlTemplate: bool, skipPadding: bool)
    ensures |Encode(s, useUrlTemplate, skipPadding)| == SymbolCount(|s|, skipPadding)
    decreases |s|
  {
    var n := |s|;
    LengthFormula(n, skipPadding);
    if n > 3 {
      EncodedLength(s[3..], useUrlTemplate, skipPadding);
      assert |Encode(s, useUrlTemplate, skipPadding)| == 4 + |Encode(s[3..], useUrlTemplate, skipPadding)|;
    } else if n > 0 {
      assert |Encode(s, useUrlTemplate, skipPadding)| == |EncodeGroup(s, useUrlTemplate, skipPadding)|;
    }
  }

  /** The symbol count of a text, group by group. */
  function SymbolCount(n: nat, skipPadding: bool): nat
  {
    if skipPadding then (4 * n + 2) / 3 else 4 * ((n + 2) / 3)
  }

  /** The symbol counts grow by four per full group, and a last group of n
      bytes has n + 1 symbols unpadded, four padded. */
  lemma LengthFormula(n: nat, skipPadding: bool)
    ensures n == 0 ==> SymbolCount(n, skipPadding) == 0
    ensures 1 <= n <= 3 ==> SymbolCount(n, skipPadding) == if skipPadding then n + 1 else 4
    ensures n > 3 ==> SymbolCount(n, skipPadding) == 4 + SymbolCount(n - 3, skipPadding)
  {
  }

  /** `n` padding symbols. */
  function Padding(n: nat): (p: string)
    ensures |p| == n && forall k :: 0 <= k < n ==> p[k] == '='
  {
    seq(n, _ => '=')
  }

  /** Padded text is unpadded text followed by one '=' for each missing byte. */
  lemma {:induction false} PaddingOnly(s: seq<byte>, useUrlTemplate: bool)
    ensures Encode(s, useUrlTemplate, false) == Encode(s, useUrlTemplate, true) + Padding(Missing(|s|))
    decreases |s|
  {
    if 0 < |s| <= 3 {
      assert Symbol(64, useUrlTemplate) == '=';
    } else if |s| > 3 {
      PaddingOnly(s[3..], useUrlTemplate);
      MissingStep(|s|);
    }
  }

  /** Zero bytes appended at the end are exactly what cutTailZeros removes. */
  lemma TrimZerosAppended(s: seq<byte>, k: nat)
    ensures TrimTrailingZeros(s + Zeros(k)) == TrimTrailingZeros(s)
  {
    var r := TrimTrailingZeros(s);
    TrimUnique(s + Zeros(k), |r|);
    assert (s + Zeros(k))[..|r|] == r;
  }

  /** Decoding with cutTailZeros undoes either kind of encoding up to the zero
      bytes at the end of the input. */
  lemma CutRoundTrip(s: seq<byte>, useUrlTemplate: bool, skipPadding: bool)
    ensures TrimTrailingZeros(Decode(Encode(s, useUrlTemplate, skipPadding), useUrlTemplate)) == TrimTrailingZeros(s)
  {
    if skipPadding {
      UnpaddedRoundTrip(s, useUrlTemplate);
      TrimZerosAppended(s, Missing(|s|));
    } else {
      RoundTrip(s, useUrlTemplate);
    }
  }

  /** The text of one group uses the 64 symbols, and '=' only when padded. */
  lemma GroupAlphabet(chunk: seq<byte>, useUrlTemplate: bool, skipPadding: bool)
    requires 1 <= |chunk| <= 3
    ensures var t := EncodeGroup(chunk, useUrlTemplate, skipPadding);
            forall k :: 0 <= k < |t| ==> SymbolIndex(t[k], useUrlTemplate) < 64 || (!skipPadding && t[k] == '=')
  {
    var e := Sextets(chunk);
    IndexOfSymbol(e[0], useUrlTemplate);
    IndexOfSymbol(e[1], useUrlTemplate);
    IndexOfSymbol(e[2], useUrlTemplate);
    IndexOfSymbol(e[3], useUrlTemplate);
  }

  /** BASE64 text uses only the 64 symbols of its alphabet, and the padding
      symbol only when padding is on. */
  lemma {:induction false} Alphabet(s: seq<byte>, useUrlTemplate: bool, skipPadding: bool)
    ensures var t := Encode(s, useUrlTemplate, skipPadding);
            forall k :: 0 <= k < |t| ==> SymbolIndex(t[k], useUrlTemplate) < 64 || (!skipPadding && t[k] == '=')
    decreases |s|
  {
    if 0 < |s| <= 3 {
      GroupAlphabet(s, useUrlTemplate, skipPadding);
    } else if |s| > 3 {
      var g := EncodeGroup(s[..3], useUrlTemplate, skipPadding);
      var tail := Encode(s[3..], useUrlTemplate, skipPadding);
      GroupAlphabet(s[..3], useUrlTemplate, skipPadding);
      Alphabet(s[3..], useUrlTemplate, skipPadding);
      EncodeFront(s, useUrlTemplate, skipPadding);
      forall k | 0 <= k < |g + tail|
        ensures SymbolIndex((g + tail)[k], useUrlTemplate) < 64 || (!skipPadding && (g + tail)[k] == '=')
      {
        if k >= |g| {
          assert (g + tail)[k] == tail[k - |g|];
        }
      }
    }
  }
}
