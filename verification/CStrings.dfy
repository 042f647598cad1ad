// util/kutil.cpp: the string routines that the number formatter uses, on character buffers.
module CStrings {
  const NUL: char := '\0'

  // The text a buffer holds: its characters up to the first NUL.
  function Text(buffer: seq<char>): (t: seq<char>)
    ensures |t| <= |buffer| && t == buffer[..|t|] && NUL !in t
    ensures |t| < |buffer| ==> buffer[|t|] == NUL
  {
    if buffer == [] || buffer[0] == NUL then [] else [buffer[0]] + Text(buffer[1..])
  }

  predicate Terminated(buffer: seq<char>) { NUL in buffer }

  lemma TextIs(buffer: seq<char>, n: nat)
    requires n < |buffer| && buffer[n] == NUL && NUL !in buffer[..n]
    ensures Text(buffer) == buffer[..n]
  {
  }

  lemma TextEnds(buffer: seq<char>)
    requires Terminated(buffer)
    ensures |Text(buffer)| < |buffer|
  {
  }

  lemma StopsAtNul(buffer: seq<char>, i: nat)
    requires i <= |Text(buffer)| && i < |buffer| && buffer[i] == NUL
    ensures i == |Text(buffer)|
  {
  }

  method Strlen(str: array<char>) returns (len: nat)
    requires Terminated(str[..])
    ensures len == |Text(str[..])|
  {
    TextEnds(str[..]);
    len := 0;
    while str[len] != NUL
      invariant len < str.Length && NUL !in str[..len]
      invariant len <= |Text(str[..])|
      decreases str.Length - len
    {
      len := len + 1;
    }
    TextIs(str[..], len);
  }

  // `src` is the memory behind the source pointer.
  method Strcat(dest: array<char>, src: seq<char>)
    requires Terminated(dest[..]) && Terminated(src)
    requires |Text(dest[..])| + |Text(src)| < dest.Length
    modifies dest
    ensures Text(dest[..]) == old(Text(dest[..])) + Text(src)
    ensures Terminated(dest[..])
    ensures forall j :: |Text(dest[..])| < j < dest.Length ==> dest[j] == old(dest[j])
  {
    ghost var before, text := Text(dest[..]), Text(src);
    TextEnds(src);
    var end := Strlen(dest);
    var i := 0;
    while src[i] != NUL
      invariant i <= |text| && end == |before| + i
      invariant dest[..end] == before + text[..i]
      invariant forall j :: end <= j < dest.Length ==> dest[j] == old(dest[j])
      decreases |text| - i
    {
      assert i < |text| && src[i] == text[i];
      dest[end] := src[i];
      end := end + 1;
      i := i + 1;
    }
    StopsAtNul(src, i);
    dest[end] := NUL;
    assert dest[..end] == before + text;
    TextIs(dest[..], end);
    assert dest[end] in dest[..];
  }

  method Strcpy(dst: array<char>, src: seq<char>)
    requires Terminated(src) && |Text(src)| < dst.Length
    modifies dst
    ensures Text(dst[..]) == Text(src)
    ensures Terminated(dst[..])
    ensures forall j :: |Text(src)| < j < dst.Length ==> dst[j] == old(dst[j])
  {
    ghost var text := Text(src);
    TextEnds(src);
    var i := 0;
    while true
      invariant i <= |text|
      invariant dst[..i] == text[..i]
      invariant forall j :: i <= j < dst.Length ==> dst[j] == old(dst[j])
      decreases |text| - i
    {
      dst[i] := src[i];
      if src[i] == NUL {
        break;
      }
      assert i < |text|;
      i := i + 1;
    }
    StopsAtNul(src, i);
    TextIs(dst[..], i);
    assert dst[i] in dst[..];
  }
}
