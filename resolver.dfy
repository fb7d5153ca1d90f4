/**
 * The in-place scan that builds an absolute path in a heap buffer of
 * |base| + |name| + 2 characters, with one write index l into the buffer
 * and one read index i into the name.
 */
module Resolver {
  import opened Wrappers
  import opened Paths

  /** The NUL that terminates a C string. */
  const NUL: char := '\0'

  /** Resolve name against cwd into a freshly allocated, NUL-terminated
      buffer.  allocOk is the outcome of the allocation; None is the NULL
      that a failed allocation returns.  Every write to the buffer, the
      final NUL included, stays inside the allocation. */
  method MakeAbsolutePath(cwd: Option<string>, name: string, allocOk: bool)
    returns (r: Option<string>)
    ensures r == if allocOk then Some(Resolve(cwd, name)) else None
  {
    var base := if cwd.None? || (|name| > 0 && name[0] == '/') then "/" else cwd.value;
    assert base == Base(cwd, name);
    if !allocOk {
      return None;
    }
    var buf := new char[|base| + |name| + 2];
    var l: nat := |base|;
    forall k | 0 <= k < l {
      buf[k] := base[k];
    }
    assert buf[..l] == base;
    ghost var goal := Resolve(cwd, name);
    var i: nat := 0;
    while true
      invariant i <= |name|
      invariant l <= |base| + i + 1 + SlashBit(name, i)
      invariant i < |name| && !EndsWithSlash(buf[..l]) ==> l <= |base| + i + SlashBit(name, i)
      invariant Apply(buf[..l], SegmentsFrom(name, i)) == goal
      decreases |name| - i
    {
      i := SkipSeparators(name, i);
      if i == |name| {
        break;
      }
      l, i := ScanSegment(buf, l, name, i, |base|);
    }
    buf[l] := NUL;
    return Some(buf[..l]);
  }

  /** One turn of the scan, from a character of name other than '/': the
      separator, then a "." dropped, a ".." undone or a name copied.  The
      segments still to come, applied to the buffer, give the same path;
      and the buffer stays within the capacity bound. */
  method ScanSegment(buf: array<char>, l: nat, name: string, i: nat, ghost baseLen: nat)
    returns (l': nat, i': nat)
    requires i < |name| && name[i] != '/'
    requires buf.Length == baseLen + |name| + 2
    requires l <= baseLen + i + 1
    requires !EndsWithSlash(buf[..l]) ==> l <= baseLen + i
    modifies buf
    ensures i < i' <= |name|
    ensures l' <= baseLen + i' + 1 + SlashBit(name, i')
    ensures i' < |name| && !EndsWithSlash(buf[..l']) ==> l' <= baseLen + i' + SlashBit(name, i')
    ensures Apply(buf[..l'], SegmentsFrom(name, i')) == Apply(old(buf[..l]), SegmentsFrom(name, i))
  {
    ghost var b := buf[..l];
    l' := AddSeparator(buf, l);
    if name[i] == '.' && (i + 1 == |name| || name[i + 1] == '/') {
      // "." : the separator stays, the segment is dropped
      ScanDot(b, name, i);
      i' := i + 1;
    } else if name[i] == '.' && i + 1 < |name| && name[i + 1] == '.' && (i + 2 == |name| || name[i + 2] == '/') {
      // ".." : back up to the previous '/', never below the first character
      ScanDotDot(b, name, i);
      l' := PopSegment(buf, l');
      i' := i + 2;
    } else {
      // an ordinary segment: copy it, and a '/' if one follows
      l', i' := CopySegment(buf, l', name, i);
      ScanOrdinary(b, name, i, buf[..l']);
    }
  }

  /** Step over a run of '/' in name starting at i; the segments that
      follow are the same. */
  method SkipSeparators(name: string, i: nat) returns (i': nat)
    requires i <= |name|
    ensures i <= i' <= |name|
    ensures forall k :: i <= k < i' ==> name[k] == '/'
    ensures i' < |name| ==> name[i'] != '/'
    ensures SegmentsFrom(name, i') == SegmentsFrom(name, i)
  {
    i' := i;
    while i' < |name| && name[i'] == '/'
      invariant i <= i' <= |name|
      invariant forall k :: i <= k < i' ==> name[k] == '/'
      invariant SegmentsFrom(name, i') == SegmentsFrom(name, i)
      decreases |name| - i'
    {
      ScanSlash(name, i');
      i' := i' + 1;
    }
  }

  /** Make the buffer end with exactly one '/', appending one if it is
      empty or ends with something else. */
  method AddSeparator(buf: array<char>, l: nat) returns (l': nat)
    requires l < buf.Length
    modifies buf
    ensures l' == l + (if EndsWithSlash(old(buf[..l])) then 0 else 1)
    ensures buf[..l'] == WithSeparator(old(buf[..l]))
  {
    l' := l;
    if l' == 0 || buf[l' - 1] != '/' {
      buf[l'] := '/';
      l' := l' + 1;
    }
  }

  /** The ".." rewind: unless the buffer holds at most one character, step
      back over its last character and then back to just after the
      previous '/' (or to the start). */
  method PopSegment(buf: array<char>, l: nat) returns (m: nat)
    requires l <= buf.Length
    ensures m <= l
    ensures buf[..m] == Parent(buf[..l])
  {
    m := l;
    if m > 1 {
      m := m - 1;
      while m > 0 && buf[m - 1] != '/'
        invariant 0 <= m < l
        invariant BackToSlash(buf[..m]) == BackToSlash(buf[..l - 1])
      {
        assert buf[..m][..m - 1] == buf[..m - 1];
        m := m - 1;
      }
      assert buf[..l][..l - 1] == buf[..l - 1];
    }
  }

  /** Copy the run of non-'/' characters of name that starts at i to
      buf[l..], then a '/' if name has one right after it; i' is left at
      the end of the run. */
  method CopySegment(buf: array<char>, l: nat, name: string, i: nat)
    returns (l': nat, i': nat)
    requires i <= |name| && l + (|name| - i) < buf.Length
    modifies buf
    ensures i' == SegmentEnd(name, i)
    ensures l' == l + (i' - i) + (if i' < |name| then 1 else 0)
    ensures buf[..l'] == old(buf[..l]) + name[i..i'] + (if i' < |name| then "/" else "")
  {
    l', i' := l, i;
    while i' < |name| && name[i'] != '/'
      invariant i <= i' <= |name|
      invariant l' - l == i' - i
      invariant forall k :: i <= k < i' ==> name[k] != '/'
      invariant buf[..l'] == old(buf[..l]) + name[i..i']
      decreases |name| - i'
    {
      buf[l'] := name[i'];
      l' := l' + 1;
      i' := i' + 1;
    }
    SegmentEndIs(name, i, i');
    if i' < |name| {
      buf[l'] := '/';
      l' := l' + 1;
    }
  }
}
