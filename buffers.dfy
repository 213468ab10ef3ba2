/** Byte buffers as the library sees them: an ArrayBuffer or a Uint8Array view
    is a sequence of bytes; a "binary string" carries one byte per character. */
module Buffers {

  /** One cell of a Uint8Array. */
  type byte = x: int | 0 <= x < 256

  /** The bytes of `buffers` back to back, in argument order. */
  function Flatten(buffers: seq<seq<byte>>): seq<byte>
  {
    if |buffers| == 0 then [] else Flatten(buffers[..|buffers| - 1]) + buffers[|buffers| - 1]
  }

  /** The sum of the lengths of `buffers`. */
  function TotalLength(buffers: seq<seq<byte>>): nat
  {
    if |buffers| == 0 then 0 else TotalLength(buffers[..|buffers| - 1]) + |buffers[|buffers| - 1]|
  }

  /** A prefix of the argument list never has more bytes than the whole list. */
  lemma {:induction false} TotalLengthMonotone(buffers: seq<seq<byte>>, j: nat, k: nat)
    requires j <= k <= |buffers|
    ensures TotalLength(buffers[..j]) <= TotalLength(buffers[..k])
  {
    if j < k {
      TotalLengthMonotone(buffers, j, k - 1);
      assert buffers[..k][..k - 1] == buffers[..k - 1];
    }
  }

  /** The concatenation is as long as all inputs together. */
  lemma {:induction false} FlattenLength(buffers: seq<seq<byte>>)
    ensures |Flatten(buffers)| == TotalLength(buffers)
  {
    if |buffers| > 0 {
      FlattenLength(buffers[..|buffers| - 1]);
    }
  }

  /** Byte `k` of argument `j` lands at the offset where the earlier arguments end. */
  lemma {:induction false} FlattenAt(buffers: seq<seq<byte>>, j: nat, k: nat)
    requires j < |buffers| && k < |buffers[j]|
    ensures TotalLength(buffers[..j]) + k < |Flatten(buffers)|
    ensures Flatten(buffers)[TotalLength(buffers[..j]) + k] == buffers[j][k]
  {
    var n := |buffers|;
    var front := buffers[..n - 1];
    FlattenLength(buffers);
    FlattenLength(front);
    if j == n - 1 {
      assert buffers[..j] == front;
    } else {
      FlattenAt(front, j, k);
      assert front[..j] == buffers[..j];
    }
  }

  /** utilConcatBuf / utilConcatView: sum the lengths, allocate, then copy each
      argument in at the running offset `prevLength`. */
  method Concat(buffers: seq<seq<byte>>) returns (r: seq<byte>)
    ensures r == Flatten(buffers)
    ensures |r| == TotalLength(buffers)
  {
    var outputLength := 0;
    for k := 0 to |buffers|
      invariant outputLength == TotalLength(buffers[..k])
    {
      assert buffers[..k + 1][..k] == buffers[..k];
      outputLength := outputLength + |buffers[k]|;
    }
    assert buffers[..|buffers|] == buffers;

    var retView := new byte[outputLength];
    var prevLength := 0;
    for k := 0 to |buffers|
      invariant prevLength == TotalLength(buffers[..k]) <= outputLength
      invariant retView[..prevLength] == Flatten(buffers[..k])
    {
      assert buffers[..k + 1][..k] == buffers[..k];
      TotalLengthMonotone(buffers, k + 1, |buffers|);
      var view := buffers[k];
      SetAt(retView, view, prevLength);
      prevLength := prevLength + |view|;
    }
    FlattenLength(buffers);
    r := retView[..];
  }

  /** Uint8Array.set(view, offset): copy `view` into `target` from `offset` on,
      keeping the cells before and after it. */
  method SetAt(target: array<byte>, view: seq<byte>, offset: nat)
    requires offset + |view| <= target.Length
    modifies target
    ensures target[..offset + |view|] == old(target[..offset]) + view
    ensures target[offset + |view|..] == old(target[offset + |view|..])
  {
    forall m | 0 <= m < |view| {
      target[offset + m] := view[m];
    }
    assert target[..offset + |view|] == old(target[..offset]) + view;
  }

  /** isEqualBuffer: false at once on a length mismatch, then byte by byte. */
  method IsEqualBuffer(inputBuffer1: seq<byte>, inputBuffer2: seq<byte>) returns (eq: bool)
    ensures |inputBuffer1| != |inputBuffer2| ==> !eq
    ensures eq <==> inputBuffer1 == inputBuffer2
  {
    if |inputBuffer1| != |inputBuffer2| {
      return false;
    }
    for i := 0 to |inputBuffer1|
      invariant inputBuffer1[..i] == inputBuffer2[..i]
    {
      if inputBuffer1[i] != inputBuffer2[i] {
        return false;
      }
    }
    assert inputBuffer1 == inputBuffer1[..|inputBuffer1|];
    assert inputBuffer2 == inputBuffer2[..|inputBuffer2|];
    return true;
  }

  /** The binary string whose character codes are the bytes of `buffer`. */
  function TextOf(buffer: seq<byte>): (s: string)
  {
    seq(|buffer|, k requires 0 <= k < |buffer| => buffer[k] as char)
  }

  /** The bytes a Uint8Array holds after storing each character code of `s`
      (a store into a Uint8Array keeps the code modulo 256). */
  function CodesOf(s: string): (b: seq<byte>)
  {
    seq(|s|, k requires 0 <= k < |s| => (s[k] as int) % 256)
  }

  /** arrayBufferToString: one character per byte, appended in order. */
  method ArrayBufferToString(buffer: seq<byte>) returns (resultString: string)
    ensures resultString == TextOf(buffer)
  {
    resultString := "";
    for k := 0 to |buffer|
      invariant resultString == TextOf(buffer[..k])
    {
      resultString := resultString + [buffer[k] as char];
    }
    assert buffer[..|buffer|] == buffer;
  }

  /** stringToArrayBuffer: fill a fresh buffer with the character codes. */
  method StringToArrayBuffer(str: string) returns (r: seq<byte>)
    ensures r == CodesOf(str)
  {
    var stringLength := |str|;
    var resultView := new byte[stringLength];
    for i := 0 to stringLength
      invariant resultView[..i] == CodesOf(str[..i])
    {
      resultView[i] := (str[i] as int) % 256;
    }
    assert str[..stringLength] == str;
    r := resultView[..];
  }

  /** Bytes survive a trip through a binary string. */
  lemma BytesTextRoundTrip(buffer: seq<byte>)
    ensures |TextOf(buffer)| == |buffer|
    ensures CodesOf(TextOf(buffer)) == buffer
  {
  }

  /** A string whose codes are all below 256 survives a trip through bytes; one with a
      larger code does not. */
  lemma TextBytesRoundTrip(s: string)
    ensures (TextOf(CodesOf(s)) == s) <==> (forall k :: 0 <= k < |s| ==> s[k] as int < 256)
  {
    if !(forall k :: 0 <= k < |s| ==> s[k] as int < 256) {
      var k :| 0 <= k < |s| && s[k] as int >= 256;
      assert TextOf(CodesOf(s))[k] != s[k];
    }
  }
}
