/** Fixed-size C character buffers: `memset(buf, 0, sizeof(buf))` followed
    by `strcpy(buf, s)`, and `strlen` to read a string back. */
module CString {

  /** A C string's content: no NUL character inside. */
  predicate NoNul(s: string)
  {
    forall i | 0 <= i < |s| :: s[i] != '\0'
  }

  /** The contents of an n-character buffer after zero-filling it and
      copying `s` with its terminator. */
  function Stored(s: string, n: nat): (buf: string)
    requires |s| < n
    ensures |buf| == n
  {
    s + seq(n - |s|, _ => '\0')
  }

  /** `strlen`: the index of the first NUL, or the whole buffer when there
      is none. */
  function StrLen(buf: string): (n: nat)
    ensures n <= |buf|
    ensures NoNul(buf[..n])
    ensures n < |buf| ==> buf[n] == '\0'
  {
    if buf == [] || buf[0] == '\0' then 0
    else
      var rest := StrLen(buf[1..]);
      assert buf[..rest + 1] == [buf[0]] + buf[1..][..rest];
      rest + 1
  }

  /** Reading a stored string back with `strlen` yields exactly that
      string: nothing of an earlier, longer value survives the zero-fill. */
  lemma ReadBack(s: string, n: nat)
    requires NoNul(s) && |s| < n
    ensures StrLen(Stored(s, n)) == |s|
    ensures Stored(s, n)[..StrLen(Stored(s, n))] == s
  {
    assert Stored(s, n)[|s|] == '\0';
  }

  /** `memset(buf, 0, sizeof(buf)); strcpy(buf, s);` with `s` shorter than
      the buffer (a longer one overflows it in C). */
  method ZeroThenCopy(buf: array<char>, s: string)
    requires NoNul(s) && |s| < buf.Length
    modifies buf
    ensures buf[..] == Stored(s, buf.Length)
  {
    var i := 0;
    while i < buf.Length
      invariant 0 <= i <= buf.Length
      invariant forall k | 0 <= k < i :: buf[k] == '\0'
    {
      buf[i] := '\0';
      i := i + 1;
    }
    i := 0;
    while i < |s|
      invariant 0 <= i <= |s|
      invariant forall k | 0 <= k < i :: buf[k] == s[k]
      invariant forall k | i <= k < buf.Length :: buf[k] == '\0'
    {
      buf[i] := s[i];
      i := i + 1;
    }
    buf[|s|] := '\0';
    assert buf[..] == Stored(s, buf.Length);
  }
}
