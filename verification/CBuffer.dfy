/** The C library's writes into a buffer. */
module CBuffer {
  import opened CString

  /** snprintf of `text` at `offset`; `fits` says that nothing was cut. */
  method Print(buffer: array<char>, offset: nat, text: string) returns (fits: bool)
    requires offset < buffer.Length
    modifies buffer
    ensures fits <==> offset + |text| < buffer.Length
    ensures buffer[..offset] == old(buffer[..offset])
    ensures fits ==> buffer[..offset + |text|] == old(buffer[..offset]) + text && buffer[offset + |text|] == NUL
    ensures !fits ==>
      && buffer[offset..buffer.Length - 1] == text[..buffer.Length - 1 - offset]
      && buffer[buffer.Length - 1] == NUL
  {
    var n := if offset + |text| < buffer.Length then |text| else buffer.Length - 1 - offset;
    for i := 0 to n
      invariant buffer[..offset] == old(buffer[..offset])
      invariant buffer[offset..offset + i] == text[..i]
    {
      buffer[offset + i] := text[i];
      assert text[..i + 1] == text[..i] + [text[i]];
      assert buffer[offset..offset + i + 1] == buffer[offset..offset + i] + [text[i]];
    }
    buffer[offset + n] := NUL;
    fits := n == |text|;
    assert n == |text| ==> text[..n] == text;
    assert buffer[..offset + n] == buffer[..offset] + buffer[offset..offset + n];
  }

  /** strlen. */
  method StrLen(buffer: array<char>, ghost end: nat) returns (len: nat)
    requires end < buffer.Length && buffer[end] == NUL
    ensures len <= end && buffer[len] == NUL && NUL !in buffer[..len]
  {
    len := 0;
    while buffer[len] != NUL
      invariant len <= end && forall k :: 0 <= k < len ==> buffer[k] != NUL
      decreases end - len
    {
      len := len + 1;
    }
  }

  /** Counted bytes as a C string, by way of a buffer of `size` bytes. */
  method TextOfBytes(bytes: array<char>, count: nat, size: nat) returns (text: string)
    requires count <= bytes.Length && count < size
    ensures text == CText(bytes[..count])
  {
    var buffer := new char[size];
    Copy(buffer, 0, bytes, 0, count);
    buffer[count] := NUL;
    ghost var counted := bytes[..count];
    assert buffer[..count] == counted;
    var len := StrLen(buffer, count);
    text := buffer[..len];
    assert text == counted[..len];
    CTextIs(counted, len);
  }

  /** memcpy between two buffers. */
  method Copy(dst: array<char>, at: nat, src: array<char>, from: nat, count: nat)
    requires dst != src && at + count <= dst.Length && from + count <= src.Length
    modifies dst
    ensures dst[..at + count] == old(dst[..at]) + src[from..from + count]
    ensures dst[at + count..] == old(dst[at + count..])
  {
    for i := 0 to count
      invariant dst[..at + i] == old(dst[..at]) + src[from..from + i]
      invariant dst[at + i..] == old(dst[at + i..])
    {
      dst[at + i] := src[from + i];
      assert src[from..from + i + 1] == src[from..from + i] + [src[from + i]];
    }
  }
}
