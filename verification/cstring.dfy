/** Zero-terminated strings, and the comparing and copying loops of kernel/fs/ramfs/ramfs.c. */
module CStrings {
  import opened Words

  /** The bytes before the first zero. */
  function CString(b: seq<byte>): (r: seq<byte>)
    ensures |r| <= |b|
  {
    if |b| == 0 || b[0] == 0 then [] else [b[0]] + CString(b[1..])
  }

  function Zeros(n: nat): (r: seq<byte>)
    ensures |r| == n
  {
    seq(n, _ => 0)
  }

  /** `strncpy` of at most `n` bytes: the string, padded with zeros. */
  function StrNCpy(b: seq<byte>, n: nat): (r: seq<byte>)
    ensures |r| == n
  {
    var s := CString(b);
    if |s| >= n then s[..n] else s + Zeros(n - |s|)
  }

  /** A byte string that C text can hold. */
  ghost predicate NoZero(b: seq<byte>) {
    forall i :: 0 <= i < |b| ==> b[i] != 0
  }

  lemma {:induction false} CStringOf(b: seq<byte>, rest: seq<byte>)
    requires NoZero(b) && (|rest| > 0 ==> rest[0] == 0)
    ensures CString(b + rest) == b
  {
    if |b| > 0 {
      assert (b + rest)[1..] == b[1..] + rest;
      CStringOf(b[1..], rest);
    } else {
      assert b + rest == rest;
    }
  }

  lemma {:induction false} CStringHasNoZero(b: seq<byte>)
    ensures NoZero(CString(b))
  {
    if |b| > 0 && b[0] != 0 {
      CStringHasNoZero(b[1..]);
    }
  }

  /** Copying a string that fits loses nothing. */
  lemma CopyKeepsString(b: seq<byte>, n: nat)
    requires |CString(b)| <= n
    ensures CString(StrNCpy(b, n)) == CString(b)
  {
    CStringHasNoZero(b);
    assert CString(b) + [] == CString(b);
    CStringOf(CString(b), if |CString(b)| >= n then [] else Zeros(n - |CString(b)|));
  }

  ghost predicate Terminated(b: seq<byte>) {
    exists i :: 0 <= i < |b| && b[i] == 0
  }

  lemma {:induction false} CStringIs(b: seq<byte>, n: nat)
    requires n < |b| && b[n] == 0 && forall i :: 0 <= i < n ==> b[i] != 0
    ensures CString(b) == b[..n]
  {
    assert b == b[..n] + b[n..];
    CStringOf(b[..n], b[n..]);
  }

  /**
   A name copied into a field of `n` bytes is terminated exactly when it is shorter than the field;
   then the field holds that very name.
   */
  lemma StoredNameTerminatedIff(name: seq<byte>, n: nat)
    requires NoZero(name)
    ensures Terminated(StrNCpy(name + [0], n)) <==> |name| < n
    ensures |name| < n ==> CString(StrNCpy(name + [0], n)) == name
  {
    CStringOf(name, [0]);
    if |name| < n {
      CopyKeepsString(name + [0], n);
      assert StrNCpy(name + [0], n)[|name|] == 0;
    }
  }

  /** `str_eq`; both strings end inside their buffers. */
  method StrEq(a: array<byte>, b: array<byte>) returns (equal: bool)
    requires Terminated(a[..]) && Terminated(b[..])
    ensures equal <==> CString(a[..]) == CString(b[..])
  {
    var i := 0;
    while true
      invariant 0 <= i < a.Length && i < b.Length
      invariant forall k :: 0 <= k < i ==> a[k] == b[k] != 0
      decreases a.Length - i
    {
      if a[i] != b[i] {
        DifferAt(a[..], b[..], i);
        return false;
      }
      if a[i] == 0 {
        CStringIs(a[..], i);
        CStringIs(b[..], i);
        assert a[..][..i] == b[..][..i];
        return true;
      }
      i := i + 1;
    }
  }

  lemma {:induction false} DifferAt(a: seq<byte>, b: seq<byte>, i: nat)
    requires i < |a| && i < |b| && a[i] != b[i]
    requires forall k :: 0 <= k < i ==> a[k] == b[k] != 0
    ensures CString(a) != CString(b)
    decreases i
  {
    if i > 0 {
      DifferAt(a[1..], b[1..], i - 1);
      assert CString(a)[1..] == CString(a[1..]) && CString(b)[1..] == CString(b[1..]);
    }
  }

  /** `str_copy` into a field of `max` bytes. */
  method StrCopy(dst: array<byte>, src: array<byte>, max: nat)
    requires dst != src && max <= dst.Length && (Terminated(src[..]) || max <= src.Length)
    modifies dst
    ensures dst[..max] == StrNCpy(src[..], max)
    ensures dst[max..] == old(dst[max..])
  {
    var i := 0;
    while i < max
      invariant 0 <= i <= max && i <= src.Length
      invariant dst[..i] == src[..i] && NoZero(src[..i])
      invariant dst[max..] == old(dst[max..])
    {
      dst[i] := src[i];
      if src[i] == 0 {
        break;
      }
      i := i + 1;
    }
    ghost var n := i;
    ghost var s := src[..];
    StringEndsAt(s, n, max);
    while i < max
      invariant n <= i <= max
      invariant dst[..n] == s[..n] && forall k :: n <= k < i ==> dst[k] == 0
      invariant dst[max..] == old(dst[max..])
    {
      dst[i] := 0;
      i := i + 1;
    }
  }

  /** Where the copying loop stops: at the terminator, or when the field is full. */
  lemma StringEndsAt(s: seq<byte>, n: nat, max: nat)
    requires n <= |s| && n <= max && NoZero(s[..n])
    requires n < max ==> n < |s| && s[n] == 0
    ensures StrNCpy(s, max) == s[..n] + Zeros(max - n)
  {
    assert s == s[..n] + s[n..];
    if n < max {
      CStringIs(s, n);
    } else {
      LongString(s, n);
    }
  }

  lemma {:induction false} LongString(s: seq<byte>, n: nat)
    requires n <= |s| && NoZero(s[..n])
    ensures |CString(s)| >= n && CString(s)[..n] == s[..n]
  {
    if n > 0 {
      assert s[..n][0] == s[0];
      assert s[1..][..n - 1] == s[..n][1..];
      LongString(s[1..], n - 1);
    }
  }
}
