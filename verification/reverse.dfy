/**
  `reverseString` of the sample module: the string's UTF-8 bytes in reverse
  order. The reversal is of bytes, not of characters, so a character that
  takes more than one byte comes out with its bytes swapped.
 */
module ByteReverse {

  newtype byte = b: int | 0 <= b < 256

  /** The bytes read from the last to the first. */
  function Reverse(s: seq<byte>): (r: seq<byte>)
    ensures |r| == |s|
    ensures forall i :: 0 <= i < |s| ==> r[i] == s[|s| - 1 - i]
  {
    if |s| == 0 then [] else Reverse(s[1..]) + [s[0]]
  }

  /** The copy the source makes, walking the input from its last byte. */
  method ReverseLoop(s: seq<byte>) returns (r: seq<byte>)
    ensures r == Reverse(s)
  {
    r := [];
    var i := |s|;
    while i > 0
      invariant 0 <= i <= |s|
      invariant |r| == |s| - i
      invariant forall k :: 0 <= k < |r| ==> r[k] == s[|s| - 1 - k]
    {
      i := i - 1;
      r := r + [s[i]];
    }
  }

  /** Reversing twice gives the input back. */
  lemma ReverseInvolution(s: seq<byte>)
    ensures Reverse(Reverse(s)) == s
  {
    var r := Reverse(s);
    assert forall i :: 0 <= i < |s| ==> Reverse(r)[i] == r[|s| - 1 - i] == s[i];
  }

  /** The empty string stays empty, and only the empty string reverses to it. */
  lemma ReverseEmpty(s: seq<byte>)
    ensures Reverse(s) == [] <==> s == []
  {
  }

  /** The reverse of a concatenation is the reverses concatenated the other way round. */
  lemma ReverseAppend(a: seq<byte>, b: seq<byte>)
    ensures Reverse(a + b) == Reverse(b) + Reverse(a)
  {
    var n := |a| + |b|;
    forall i | 0 <= i < n
      ensures Reverse(a + b)[i] == (Reverse(b) + Reverse(a))[i]
    {
      if i < |b| {
        assert (a + b)[n - 1 - i] == b[|b| - 1 - i];
      } else {
        assert (a + b)[n - 1 - i] == a[|a| - 1 - (i - |b|)];
      }
    }
  }

  /** A UTF-8 continuation byte: 10xxxxxx. */
  predicate Continuation(b: byte)
  {
    0x80 <= b < 0xC0
  }

  /** A string made of one multi-byte character reverses to one that starts
      with a continuation byte, which is not well-formed UTF-8: "é" is
      C3 A9 and comes out as A9 C3. */
  lemma MultiByteCharacterSplits(lead: byte, tail: byte)
    requires 0xC2 <= lead < 0xE0 && Continuation(tail)
    ensures Reverse([lead, tail]) == [tail, lead]
    ensures Continuation(Reverse([lead, tail])[0])
  {
    assert Reverse([lead, tail])[0] == tail;
    assert Reverse([lead, tail])[1] == lead;
  }
}
