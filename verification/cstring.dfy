/**
 * The C library string and memory routines the tag editor relies on
 * (strlen, strstr, memmove, memcpy), over NUL-terminated `char` buffers.
 */
module CString {
  import opened Wrappers

  /** The string terminator. */
  const NUL: char := '\0'

  /** strlen as a function: the index of the first NUL in `s`. */
  function TextLength(s: seq<char>): (n: nat)
    requires NUL in s
    ensures n < |s| && s[n] == NUL && NUL !in s[..n]
  {
    if s[0] == NUL then 0
    else
      assert NUL in s[1..] by { assert s == [s[0]] + s[1..]; }
      var m := TextLength(s[1..]);
      assert s[..m + 1] == [s[0]] + s[1..][..m];
      m + 1
  }

  /** The C string held at the start of `s`: everything before its first NUL. */
  function Text(s: seq<char>): (t: seq<char>)
    requires NUL in s
    ensures NUL !in t && |t| < |s| && s[|t|] == NUL && t == s[..|t|]
  {
    s[..TextLength(s)]
  }

  /** A buffer that holds `t` followed by a NUL holds the C string `t`. */
  lemma TextOfTerminated(t: seq<char>, rest: seq<char>)
    requires NUL !in t
    ensures NUL in t + [NUL] + rest && TextLength(t + [NUL] + rest) == |t|
  {
    var s := t + [NUL] + rest;
    assert s[|t|] == NUL;
  }

  /** Two first NULs from the same index are the same NUL. */
  lemma FirstNulUnique(a: array<char>, from: nat, i: nat, j: nat)
    requires from <= i < a.Length && from <= j < a.Length && a[i] == NUL && a[j] == NUL
    requires forall k :: from <= k < i ==> a[k] != NUL
    requires forall k :: from <= k < j ==> a[k] != NUL
    ensures i == j
  {
  }

  /** `pat` occurs in `s` starting at index `i`. */
  predicate OccursAt(s: seq<char>, pat: seq<char>, i: nat)
  {
    i + |pat| <= |s| && s[i..i + |pat|] == pat
  }

  /** `i` is the first index at or after `from` where `pat` occurs in `s`. */
  predicate FirstOccurrence(s: seq<char>, pat: seq<char>, from: nat, i: nat)
    ensures FirstOccurrence(s, pat, from, i) ==> from <= i && i + |pat| <= |s|
  {
    from <= i && OccursAt(s, pat, i) &&
    forall j :: from <= j < i ==> !OccursAt(s, pat, j)
  }

  /**
   * strstr(s + from, pat) as an index into `s`: the first occurrence of `pat`
   * at or after `from`, or None when there is none (see FindIsFirst).
   */
  function Find(s: seq<char>, pat: seq<char>, from: nat): (r: Option<nat>)
    ensures r.Some? ==> from <= r.value && r.value + |pat| <= |s|
    decreases |s| - from
  {
    if from + |pat| > |s| then None
    else if s[from..from + |pat|] == pat then Some(from)
    else Find(s, pat, from + 1)
  }

  /**
   * Find is strstr: an index it returns is the first occurrence at or after
   * `from`, and None means the pattern occurs nowhere from `from` on.
   */
  lemma {:induction false} FindIsFirst(s: seq<char>, pat: seq<char>, from: nat)
    ensures Find(s, pat, from).Some? ==> FirstOccurrence(s, pat, from, Find(s, pat, from).value)
    ensures Find(s, pat, from).None? ==> forall j :: from <= j ==> !OccursAt(s, pat, j)
    decreases |s| - from
  {
    if from + |pat| > |s| {
    } else if s[from..from + |pat|] == pat {
    } else {
      FindIsFirst(s, pat, from + 1);
    }
  }

  /** Find is complete: it returns the first occurrence whenever there is one. */
  lemma FindReturnsFirst(s: seq<char>, pat: seq<char>, from: nat, i: nat)
    requires FirstOccurrence(s, pat, from, i)
    ensures Find(s, pat, from) == Some(i)
  {
    FindIsFirst(s, pat, from);
    var r := Find(s, pat, from);
    assert r.Some? by { assert OccursAt(s, pat, i); }
    assert !(r.value < i);
    assert !(i < r.value) by { assert OccursAt(s, pat, i); }
  }

  /** strlen(a + from): scans the array for the NUL that ends the string at `from`. */
  method Strlen(a: array<char>, from: nat) returns (len: nat)
    requires from <= a.Length && NUL in a[from..]
    ensures from + len < a.Length && a[from + len] == NUL
    ensures forall k :: from <= k < from + len ==> a[k] != NUL
  {
    len := 0;
    while a[from + len] != NUL
      invariant from + len < a.Length
      invariant NUL in a[from + len..]
      invariant forall k :: from <= k < from + len ==> a[k] != NUL
      decreases a.Length - from - len
    {
      assert a[from + len..] == [a[from + len]] + a[from + len + 1..];
      len := len + 1;
    }
  }

  /** The array contents after memmove(a + dst, a + src, len). */
  function Moved(s: seq<char>, dst: nat, src: nat, len: nat): (r: seq<char>)
    requires src + len <= |s| && dst + len <= |s|
    ensures |r| == |s|
  {
    s[..dst] + s[src..src + len] + s[dst + len..]
  }

  /** After the move, the `len` cells at `dst` hold the cells that were at `src`; the rest are unchanged. */
  lemma MovedCells(s: seq<char>, dst: nat, src: nat, len: nat)
    requires src + len <= |s| && dst + len <= |s|
    ensures forall k :: 0 <= k < |s| ==>
      Moved(s, dst, src, len)[k] == (if dst <= k < dst + len then s[k - dst + src] else s[k])
  {
    var r := Moved(s, dst, src, len);
    forall k | 0 <= k < |s|
      ensures r[k] == (if dst <= k < dst + len then s[k - dst + src] else s[k])
    {
      if k < dst {
        assert r[k] == s[..dst][k];
      } else if k < dst + len {
        assert r[k] == s[src..src + len][k - dst];
      } else {
        assert r[k] == s[dst + len..][k - dst - len];
      }
    }
  }

  /**
   * memmove: copies `len` bytes from index `src` to index `dst` of the same
   * array. The two ranges may overlap, so the copy runs backward when the
   * destination lies after the source and forward otherwise.
   */
  method MemMove(a: array<char>, dst: nat, src: nat, len: nat)
    requires src + len <= a.Length && dst + len <= a.Length
    modifies a
    ensures a[..] == Moved(old(a[..]), dst, src, len)
  {
    if src < dst {
      CopyBackward(a, dst, src, len);
    } else if dst < src {
      CopyForward(a, dst, src, len);
    } else {
      MovedCells(a[..], dst, src, len);
      assert a[..] == Moved(a[..], dst, src, len);
    }
  }

  /** memmove to a higher index: the last byte is copied first, so no source byte is overwritten before it is read. */
  method CopyBackward(a: array<char>, dst: nat, src: nat, len: nat)
    requires src < dst && dst + len <= a.Length
    modifies a
    ensures a[..] == Moved(old(a[..]), dst, src, len)
  {
    var i := len;
    while i > 0
      invariant 0 <= i <= len
      invariant forall k :: dst + i <= k < dst + len ==> a[k] == old(a[k - dst + src])
      invariant forall k :: 0 <= k < a.Length && !(dst + i <= k < dst + len) ==> a[k] == old(a[k])
    {
      i := i - 1;
      a[dst + i] := a[src + i];
    }
    MovedCells(old(a[..]), dst, src, len);
    assert a[..] == Moved(old(a[..]), dst, src, len);
  }

  /** memmove to a lower index: the first byte is copied first, so no source byte is overwritten before it is read. */
  method CopyForward(a: array<char>, dst: nat, src: nat, len: nat)
    requires dst < src && src + len <= a.Length
    modifies a
    ensures a[..] == Moved(old(a[..]), dst, src, len)
  {
    var i := 0;
    while i < len
      invariant 0 <= i <= len
      invariant forall k :: dst <= k < dst + i ==> a[k] == old(a[k - dst + src])
      invariant forall k :: 0 <= k < a.Length && !(dst <= k < dst + i) ==> a[k] == old(a[k])
    {
      a[dst + i] := a[src + i];
      i := i + 1;
    }
    MovedCells(old(a[..]), dst, src, len);
    assert a[..] == Moved(old(a[..]), dst, src, len);
  }

  /** The array contents after memcpy(a + at, v, |v|). */
  function Copied(s: seq<char>, at: nat, v: seq<char>): (r: seq<char>)
    requires at + |v| <= |s|
    ensures |r| == |s|
  {
    s[..at] + v + s[at + |v|..]
  }

  /** After the copy, the cells from `at` hold `v`; the rest are unchanged. */
  lemma CopiedCells(s: seq<char>, at: nat, v: seq<char>)
    requires at + |v| <= |s|
    ensures forall k :: 0 <= k < |s| ==>
      Copied(s, at, v)[k] == (if at <= k < at + |v| then v[k - at] else s[k])
  {
    var r := Copied(s, at, v);
    forall k | 0 <= k < |s|
      ensures r[k] == (if at <= k < at + |v| then v[k - at] else s[k])
    {
      if k < at {
        assert r[k] == s[..at][k];
      } else if k < at + |v| {
        assert r[k] == v[k - at];
      } else {
        assert r[k] == s[at + |v|..][k - at - |v|];
      }
    }
  }

  /** memcpy(a + at, v, |v|): writes `v` over the array from index `at`. */
  method MemCpy(a: array<char>, at: nat, v: seq<char>)
    requires at + |v| <= a.Length
    modifies a
    ensures a[..] == Copied(old(a[..]), at, v)
  {
    var i := 0;
    while i < |v|
      invariant 0 <= i <= |v|
      invariant forall k :: at <= k < at + i ==> a[k] == v[k - at]
      invariant forall k :: 0 <= k < a.Length && !(at <= k < at + i) ==> a[k] == old(a[k])
    {
      a[at + i] := v[i];
      i := i + 1;
    }
    CopiedCells(old(a[..]), at, v);
    assert a[..] == Copied(old(a[..]), at, v);
  }
}
