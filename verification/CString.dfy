/** The C library's character classes and string searches, and the option type that stands
for a null pointer. A string carries no terminator; At shows it. */
module CString {

  datatype Option<+T> = None | Some(value: T)

  const NUL: char := '\0'

  /** Reading a C string at its length gives the terminator. */
  function At(s: string, i: nat): char { if i < |s| then s[i] else NUL }

  /** What a C function sees of counted bytes with a terminator put behind them. */
  function CText(bytes: string): string {
    if bytes == "" || bytes[0] == NUL then "" else [bytes[0]] + CText(bytes[1..])
  }

  /** That is everything in front of the first terminator. */
  lemma {:induction false} CTextIs(bytes: string, n: nat)
    requires n <= |bytes| && NUL !in bytes[..n] && (n < |bytes| ==> bytes[n] == NUL)
    ensures CText(bytes) == bytes[..n]
  {
    if n > 0 {
      assert bytes[..n][0] == bytes[0] && bytes[1..][..n - 1] == bytes[..n][1..];
      CTextIs(bytes[1..], n - 1);
    }
  }

  lemma {:induction false} CTextIsPrefix(bytes: string)
    ensures CText(bytes) <= bytes && (CText(bytes) != bytes ==> bytes[|CText(bytes)|] == NUL)
  {
    if bytes != "" && bytes[0] != NUL {
      CTextIsPrefix(bytes[1..]);
      assert bytes == [bytes[0]] + bytes[1..];
    }
  }

  lemma {:induction false} CTextHasNoNul(bytes: string)
    ensures NUL !in CText(bytes) && |CText(bytes)| <= |bytes|
    ensures CText(bytes) == bytes <==> NUL !in bytes
  {
    if bytes != "" && bytes[0] != NUL {
      CTextHasNoNul(bytes[1..]);
      assert bytes == [bytes[0]] + bytes[1..];
    }
  }

  predicate IsPrint(c: char) { ' ' <= c <= '~' }

  predicate IsSpace(c: char) { c == ' ' || '\t' <= c <= '\r' }

  predicate IsDigit(c: char) { '0' <= c <= '9' }

  function SkipSpaces(t: string): (u: string)
    ensures |u| <= |t| && (u != "" ==> !IsSpace(u[0]))
  {
    if t != "" && IsSpace(t[0]) then SkipSpaces(t[1..]) else t
  }

  predicate StartsWith(t: string, p: string) { |p| <= |t| && t[..|p|] == p }

  /** What is left from the first occurrence of `p` on. */
  function StrStr(t: string, p: string): (r: Option<string>)
    ensures r.Some? ==> StartsWith(r.value, p) && |r.value| <= |t|
  {
    if StartsWith(t, p) then Some(t) else if t == "" then None else StrStr(t[1..], p)
  }

  function StrChr(t: string, c: char): (r: Option<string>)
    ensures r.Some? ==> r.value != "" && r.value[0] == c && |r.value| <= |t|
    ensures r == None <==> c !in t
  {
    if t == "" then None else if t[0] == c then Some(t) else StrChr(t[1..], c)
  }

  /** snprintf("%s") into a buffer of `size` bytes. */
  function Truncate(s: string, size: nat): string
    requires size > 0
  {
    if |s| < size then s else s[..size - 1]
  }

  /** Chunks written one behind the other. */
  function Concat(chunks: seq<string>): string {
    if chunks == [] then "" else chunks[0] + Concat(chunks[1..])
  }
}
