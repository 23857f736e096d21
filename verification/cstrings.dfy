/** The byte-string helpers of str.c that the containers rely on:
    `string_copy`, `string_duplicate`, `string_lower` and `string_upper`.

    A C string argument is modelled as the byte buffer the pointer refers to;
    the string it denotes ends at the first NUL byte, or at the end of the
    buffer when the terminator lies just past it. A NULL pointer is `None`. */
module CStrings {
  import opened Common

  const Nul: byte := 0

  predicate NulFree(s: seq<byte>) {
    forall i :: 0 <= i < |s| ==> s[i] != Nul
  }

  /** `strlen`: the number of bytes before the first NUL. */
  function StrLen(s: seq<byte>): (n: nat)
    ensures n <= |s|
    ensures NulFree(s[..n])
    ensures n < |s| ==> s[n] == Nul
  {
    if |s| == 0 || s[0] == Nul then 0
    else
      var rest := StrLen(s[1..]);
      assert s[..1 + rest] == [s[0]] + s[1..][..rest];
      1 + rest
  }

  /** The string a buffer holds: its bytes up to the first NUL. */
  function CString(s: seq<byte>): seq<byte> {
    s[..StrLen(s)]
  }

  lemma StrLenOfNulFree(s: seq<byte>)
    requires NulFree(s)
    ensures StrLen(s) == |s| && CString(s) == s
  {
  }

  /** `strlen` is determined by its contract. */
  lemma StrLenUnique(s: seq<byte>, n: nat)
    requires n <= |s| && NulFree(s[..n]) && (n < |s| ==> s[n] == Nul)
    ensures StrLen(s) == n
  {
    NulFreePrefix(s, n);
    NulFreePrefix(s, StrLen(s));
  }

  lemma NulFreePrefix(s: seq<byte>, n: nat)
    requires n <= |s| && NulFree(s[..n])
    ensures forall i :: 0 <= i < n ==> s[i] != Nul
  {
    assert forall i :: 0 <= i < n ==> s[..n][i] == s[i];
  }

  /** A NUL-terminated buffer holding exactly `s`. */
  lemma StrLenOfTerminated(s: seq<byte>, tail: seq<byte>)
    requires NulFree(s)
    ensures StrLen(s + [Nul] + tail) == |s|
    ensures CString(s + [Nul] + tail) == s
  {
    var b := s + [Nul] + tail;
    assert b[..|s|] == s;
    StrLenUnique(b, |s|);
  }

  function Min(a: nat, b: nat): nat {
    if a <= b then a else b
  }

  /** `string_copy(input, output, outputsize)` (str.c:81-114): fails on a
      NULL argument; otherwise writes the first min(strlen(input),
      outputsize) bytes of `input` into `output`, then a NUL. The result is
      the whole output buffer afterwards. The caller must supply a buffer
      with room for the terminator. */
  function StringCopy(input: Option<seq<byte>>, output: Option<seq<byte>>, outputSize: nat): (r: Option<seq<byte>>)
    requires input.Some? && output.Some? ==> Min(StrLen(input.value), outputSize) < |output.value|
    ensures r.None? <==> input.None? || output.None?
    ensures r.Some? ==>
      var n := Min(StrLen(input.value), outputSize);
      |r.value| == |output.value|
      && r.value[..n] == input.value[..n]
      && r.value[n] == Nul
      && r.value[n + 1..] == output.value[n + 1..]
  {
    if input.None? || output.None? then None
    else
      var n := Min(StrLen(input.value), outputSize);
      Some(input.value[..n] + [Nul] + output.value[n + 1..])
  }

  /** Reading the output back as a C string yields the input's string cut
      to `outputSize` bytes. */
  lemma StringCopyReadsBack(input: seq<byte>, output: seq<byte>, outputSize: nat)
    requires Min(StrLen(input), outputSize) < |output|
    ensures var r := StringCopy(Some(input), Some(output), outputSize).value;
      CString(r) == CString(input)[..Min(StrLen(input), outputSize)]
  {
    var n := Min(StrLen(input), outputSize);
    var r := StringCopy(Some(input), Some(output), outputSize).value;
    assert r == input[..n] + [Nul] + output[n + 1..];
    assert input[..n] == CString(input)[..n];
    StrLenOfTerminated(input[..n], output[n + 1..]);
  }

  /** `string_duplicate` (str.c:116-147): a fresh buffer of strlen(input) + 1
      bytes holding the input's string and a terminator. */
  function StringDuplicate(input: Option<seq<byte>>): (r: Option<seq<byte>>)
    ensures r.None? <==> input.None?
    ensures r.Some? ==>
      |r.value| == StrLen(input.value) + 1
      && r.value[..StrLen(input.value)] == input.value[..StrLen(input.value)]
      && r.value[StrLen(input.value)] == Nul
  {
    if input.None? then None else Some(CString(input.value) + [Nul])
  }

  /** The duplicate holds the same string as the original, and duplicating
      it again gives the same buffer. */
  lemma DuplicateSameString(input: seq<byte>)
    ensures CString(StringDuplicate(Some(input)).value) == CString(input)
    ensures StringDuplicate(StringDuplicate(Some(input))) == StringDuplicate(Some(input))
  {
    StrLenOfTerminated(CString(input), []);
  }

  // ---------------------------------------------------------------------
  // Case conversion (ASCII, as `tolower`/`toupper` behave in the C locale).

  function ToLower(c: byte): byte {
    if 'A' as int <= c <= 'Z' as int then c + 32 else c
  }

  function ToUpper(c: byte): byte {
    if 'a' as int <= c <= 'z' as int then c - 32 else c
  }

  /** The buffer after applying `f` to every byte of its string; the bytes
      from the terminator on are left alone. */
  function MapString(s: seq<byte>, f: byte -> byte): (r: seq<byte>)
    ensures |r| == |s|
  {
    var n := StrLen(s);
    seq(|s|, i requires 0 <= i < |s| => if i < n then f(s[i]) else s[i])
  }

  /** The in-place loop of `string_lower` (str.c:311-330) over a buffer. */
  method LowerInPlace(s: seq<byte>) returns (r: seq<byte>)
    ensures r == MapString(s, ToLower)
  {
    r := s;
    var i := 0;
    while i < |r| && r[i] != Nul
      invariant 0 <= i <= |s| && |r| == |s|
      invariant i <= StrLen(s)
      invariant forall j :: 0 <= j < i ==> r[j] == ToLower(s[j])
      invariant r[i..] == s[i..]
    {
      r := r[i := ToLower(r[i])];
      i := i + 1;
    }
    StrLenUnique(s, i);
  }

  /** The in-place loop of `string_upper` (str.c:332-351) over a buffer. */
  method UpperInPlace(s: seq<byte>) returns (r: seq<byte>)
    ensures r == MapString(s, ToUpper)
  {
    r := s;
    var i := 0;
    while i < |r| && r[i] != Nul
      invariant 0 <= i <= |s| && |r| == |s|
      invariant i <= StrLen(s)
      invariant forall j :: 0 <= j < i ==> r[j] == ToUpper(s[j])
      invariant r[i..] == s[i..]
    {
      r := r[i := ToUpper(r[i])];
      i := i + 1;
    }
    StrLenUnique(s, i);
  }

  /** `string_lower`: NULL gives NULL; otherwise the same buffer, converted. */
  method StringLower(input: Option<seq<byte>>) returns (r: Option<seq<byte>>)
    ensures r.None? <==> input.None?
    ensures r.Some? ==> r.value == MapString(input.value, ToLower)
  {
    if input.None? {
      return None;
    }
    var s := LowerInPlace(input.value);
    return Some(s);
  }

  /** `string_upper`: NULL gives NULL; otherwise the same buffer, converted. */
  method StringUpper(input: Option<seq<byte>>) returns (r: Option<seq<byte>>)
    ensures r.None? <==> input.None?
    ensures r.Some? ==> r.value == MapString(input.value, ToUpper)
  {
    if input.None? {
      return None;
    }
    var s := UpperInPlace(input.value);
    return Some(s);
  }

  /** Case conversion never turns a byte into NUL, so the string keeps its
      length. */
  lemma MapStringKeepsLength(s: seq<byte>, f: byte -> byte)
    requires forall c: byte :: c != Nul ==> f(c) != Nul
    ensures StrLen(MapString(s, f)) == StrLen(s)
  {
    var r := MapString(s, f);
    var n := StrLen(s);
    assert forall i :: 0 <= i < n ==> r[..n][i] == f(s[..n][i]);
    StrLenUnique(r, n);
  }

  /** Converting twice is the same as converting once. */
  lemma LowerIdempotent(s: seq<byte>)
    ensures MapString(MapString(s, ToLower), ToLower) == MapString(s, ToLower)
  {
    MapStringKeepsLength(s, ToLower);
  }

  lemma UpperIdempotent(s: seq<byte>)
    ensures MapString(MapString(s, ToUpper), ToUpper) == MapString(s, ToUpper)
  {
    MapStringKeepsLength(s, ToUpper);
  }

  /** Lower-casing an upper-cased string is the same as lower-casing it. */
  lemma LowerAfterUpper(s: seq<byte>)
    ensures MapString(MapString(s, ToUpper), ToLower) == MapString(s, ToLower)
  {
    MapStringKeepsLength(s, ToUpper);
    var u := MapString(s, ToUpper);
    forall i | 0 <= i < |s|
      ensures MapString(u, ToLower)[i] == MapString(s, ToLower)[i]
    {
      assert ToLower(ToUpper(s[i])) == ToLower(s[i]);
    }
  }
}
