/**
 * The functional specification of path resolution in the VFS layer:
 * a user path is split into segments, and the segments are applied one
 * by one to a base directory string.  A C string is modelled by the
 * sequence of its characters before the terminating NUL.
 */
module Paths {
  import opened Wrappers

  /** A segment of a user path: a maximal run of characters other than '/',
      classified the way the scan treats it. */
  datatype Segment =
    | Dot                               // exactly "."
    | DotDot                            // exactly ".."
    | Name(name: string, slash: bool)   // anything else; slash: a '/' follows it

  predicate NoSlash(x: string) {
    forall j :: 0 <= j < |x| ==> x[j] != '/'
  }

  /** A name the scan copies verbatim: nonempty, no '/', and neither "."
      nor "..". */
  predicate ValidName(x: string) {
    x != [] && NoSlash(x) && !(x[0] == '.' && (|x| == 1 || (|x| == 2 && x[1] == '.')))
  }

  predicate WellFormed(seg: Segment) {
    seg.Name? ==> ValidName(seg.name)
  }

  /** The index just past the run of non-'/' characters of s that starts
      at index i. */
  function SegmentEnd(s: string, i: nat): (j: nat)
    requires i <= |s|
    ensures i <= j <= |s|
    ensures forall k :: i <= k < j ==> s[k] != '/'
    ensures j < |s| ==> s[j] == '/'
    decreases |s| - i
  {
    if i == |s| || s[i] == '/' then i else SegmentEnd(s, i + 1)
  }

  /** The segment s[i..j], a run of non-'/' characters: "." and ".." are
      recognised, anything else is a name. */
  function SegmentAt(s: string, i: nat, j: nat): Segment
    requires i < j <= |s|
  {
    if j == i + 1 && s[i] == '.' then Dot
    else if j == i + 2 && s[i] == '.' && s[i + 1] == '.' then DotDot
    else Name(s[i..j], j < |s|)
  }

  /** The segments of s from index i on, left to right; runs of '/'
      separate them. */
  function SegmentsFrom(s: string, i: nat): seq<Segment>
    requires i <= |s|
    decreases |s| - i
  {
    if i == |s| then []
    else if s[i] == '/' then SegmentsFrom(s, i + 1)
    else
      var j := SegmentEnd(s, i);
      [SegmentAt(s, i, j)] + SegmentsFrom(s, j)
  }

  function Segments(s: string): seq<Segment> {
    SegmentsFrom(s, 0)
  }

  predicate EndsWithSlash(b: string) {
    b != [] && b[|b| - 1] == '/'
  }

  /** The buffer with a '/' at its end, appended if missing. */
  function WithSeparator(b: string): string
  {
    if EndsWithSlash(b) then b else b + "/"
  }

  /** The longest prefix of b that is empty or ends with '/'. */
  function BackToSlash(b: string): (r: string)
    ensures |r| <= |b| && r == b[..|r|]
    ensures r == [] || EndsWithSlash(r)
    ensures forall j :: |r| <= j < |b| ==> b[j] != '/'
    decreases |b|
  {
    if b == [] || b[|b| - 1] == '/' then b else BackToSlash(b[..|b| - 1])
  }

  /** What ".." does to a buffer: unless it is at most one character long,
      drop its last character and then everything back to the previous '/'. */
  function Parent(b: string): string
  {
    if |b| > 1 then BackToSlash(b[..|b| - 1]) else b
  }

  /** One segment applied to the buffer built so far.  The separator goes
      in first, whatever the segment is. */
  function Step(b: string, seg: Segment): string
  {
    match seg
    case Dot => WithSeparator(b)
    case DotDot => Parent(WithSeparator(b))
    case Name(x, slash) => WithSeparator(b) + x + (if slash then "/" else "")
  }

  function Apply(b: string, segs: seq<Segment>): string
    decreases |segs|
  {
    if segs == [] then b else Apply(Step(b, segs[0]), segs[1..])
  }

  /** The directory a name is resolved against: the root when there is no
      current directory or the name is absolute, else the current directory. */
  function Base(cwd: Option<string>, name: string): string
  {
    if cwd.None? || (name != [] && name[0] == '/') then "/" else cwd.value
  }

  /** The absolute path that a name denotes in a session whose current
      directory is cwd (None stands for a NULL cwd). */
  function Resolve(cwd: Option<string>, name: string): string {
    Apply(Base(cwd, name), Segments(name))
  }

  // ---------------------------------------------------------------------
  // What each move of the scan does.

  /** A run of non-'/' characters is "." or ".." exactly when it reads so;
      any other run is a name holding exactly its characters, marked with
      whether a '/' follows it. */
  lemma SegmentAtClassifies(s: string, i: nat, j: nat)
    requires i < j <= |s|
    ensures SegmentAt(s, i, j) == Dot <==> s[i..j] == "."
    ensures SegmentAt(s, i, j) == DotDot <==> s[i..j] == ".."
    ensures SegmentAt(s, i, j).Name? ==>
      SegmentAt(s, i, j).name == s[i..j] && (SegmentAt(s, i, j).slash <==> j < |s|)
  {
    if s[i..j] == "." {
      assert j == i + 1 && s[i] == s[i..j][0];
    }
    if s[i..j] == ".." {
      assert j == i + 2 && s[i] == s[i..j][0] && s[i + 1] == s[i..j][1];
    }
  }

  /** The separator move leaves the buffer as it is and ends it with one
      '/', added only when missing. */
  lemma WithSeparatorEnds(b: string)
    ensures EndsWithSlash(WithSeparator(b)) && b <= WithSeparator(b)
    ensures |WithSeparator(b)| == |b| + (if EndsWithSlash(b) then 0 else 1)
  {
  }

  /** The ".." move keeps a prefix of the buffer: for a buffer of two or
      more characters a strictly shorter one, empty or ending in '/', that
      drops the last character and the run of non-'/' characters before
      it; a buffer of at most one character stays as it is. */
  lemma ParentShape(b: string)
    ensures Parent(b) <= b
    ensures |b| > 1 ==> |Parent(b)| < |b| && (Parent(b) == [] || EndsWithSlash(Parent(b)))
    ensures |b| > 1 ==> forall j :: |Parent(b)| <= j < |b| - 1 ==> b[j] != '/'
    ensures |b| <= 1 ==> Parent(b) == b
  {
    if |b| > 1 {
      var r := BackToSlash(b[..|b| - 1]);
      assert r == b[..|r|];
    }
  }

  /** One turn of the loop: "." and a name keep the buffer with its
      separator and may only extend it; ".." cuts it back to a prefix; a
      name the scan copies leaves the buffer ending in '/' exactly when a
      '/' follows the name. */
  lemma StepShape(b: string, seg: Segment)
    ensures !seg.DotDot? ==> WithSeparator(b) <= Step(b, seg)
    ensures seg.Dot? ==> Step(b, seg) == WithSeparator(b)
    ensures seg.DotDot? ==> Step(b, seg) <= WithSeparator(b)
    ensures seg.Name? && ValidName(seg.name) ==> (EndsWithSlash(Step(b, seg)) <==> seg.slash)
  {
    if seg.DotDot? {
      ParentShape(WithSeparator(b));
    }
  }

  /** The base: the root for an absolute name or a NULL current
      directory, the current directory otherwise, and canonical whenever
      a current directory that is set is canonical. */
  lemma BaseChoice(cwd: Option<string>, name: string)
    ensures Base(cwd, name) == "/" || Some(Base(cwd, name)) == cwd
    ensures cwd.None? || (name != [] && name[0] == '/') ==> Base(cwd, name) == "/"
    ensures (cwd.Some? ==> Canonical(cwd.value)) ==> Canonical(Base(cwd, name))
  {
  }

  // ---------------------------------------------------------------------
  // Unfolding facts.

  lemma ApplyCons(b: string, seg: Segment, rest: seq<Segment>)
    ensures Apply(b, [seg] + rest) == Apply(Step(b, seg), rest)
  {
    assert ([seg] + rest)[1..] == rest;
  }

  lemma {:induction false} ApplyAppend(b: string, segs: seq<Segment>, seg: Segment)
    ensures Apply(b, segs + [seg]) == Step(Apply(b, segs), seg)
    decreases |segs|
  {
    if segs == [] {
      assert [] + [seg] == [seg];
    } else {
      assert (segs + [seg])[1..] == segs[1..] + [seg];
      ApplyAppend(Step(b, segs[0]), segs[1..], seg);
    }
  }

  /** The segment that ends where the next '/' is. */
  lemma SegmentEndIs(s: string, i: nat, j: nat)
    requires i <= j <= |s|
    requires forall k :: i <= k < j ==> s[k] != '/'
    requires j < |s| ==> s[j] == '/'
    ensures SegmentEnd(s, i) == j
    decreases j - i
  {
    if i < j {
      SegmentEndIs(s, i + 1, j);
    }
  }

  /** Every segment the splitter produces is well formed. */
  lemma {:induction false} SegmentsWellFormed(s: string, i: nat)
    requires i <= |s|
    ensures forall n :: 0 <= n < |SegmentsFrom(s, i)| ==> WellFormed(SegmentsFrom(s, i)[n])
    decreases |s| - i
  {
    if i == |s| {
    } else if s[i] == '/' {
      SegmentsWellFormed(s, i + 1);
    } else {
      var j := SegmentEnd(s, i);
      SegmentsWellFormed(s, j);
      var x := s[i..j];
      assert x[0] == s[i];
      if j >= i + 2 {
        assert x[1] == s[i + 1];
      }
      assert NoSlash(x);
    }
  }

  // ---------------------------------------------------------------------
  // The scan's moves, each stated on the buffer b built so far and the
  // index i of name at which the scan stands.

  lemma ScanSlash(name: string, i: nat)
    requires i < |name| && name[i] == '/'
    ensures SegmentsFrom(name, i) == SegmentsFrom(name, i + 1)
  {
  }

  lemma ScanDot(b: string, name: string, i: nat)
    requires i < |name| && name[i] == '.' && (i + 1 == |name| || name[i + 1] == '/')
    ensures Apply(b, SegmentsFrom(name, i)) == Apply(WithSeparator(b), SegmentsFrom(name, i + 1))
  {
    SegmentEndIs(name, i, i + 1);
    ApplyCons(b, Dot, SegmentsFrom(name, i + 1));
  }

  lemma ScanDotDot(b: string, name: string, i: nat)
    requires i + 1 < |name| && name[i] == '.' && name[i + 1] == '.'
    requires i + 2 == |name| || name[i + 2] == '/'
    ensures Apply(b, SegmentsFrom(name, i)) == Apply(Parent(WithSeparator(b)), SegmentsFrom(name, i + 2))
  {
    SegmentEndIs(name, i, i + 2);
    ApplyCons(b, DotDot, SegmentsFrom(name, i + 2));
  }

  lemma ScanOrdinary(b: string, name: string, i: nat, b': string)
    requires i < |name| && name[i] != '/' && !DotSegmentAt(name, i)
    requires var j := SegmentEnd(name, i);
             b' == WithSeparator(b) + name[i..j] + (if j < |name| then "/" else "")
    ensures Apply(b, SegmentsFrom(name, i)) == Apply(b', SegmentsFrom(name, SegmentEnd(name, i)))
  {
    var j := SegmentEnd(name, i);
    assert SegmentAt(name, i, j) == Name(name[i..j], j < |name|);
    ApplyCons(b, Name(name[i..j], j < |name|), SegmentsFrom(name, j));
  }

  // ---------------------------------------------------------------------
  // Capacity: the result fits the buffer of |base| + |name| + 2 bytes.

  function SlashBit(s: string, i: nat): nat {
    if i < |s| && s[i] == '/' then 1 else 0
  }

  /** The bound on the buffer, in the form the scan keeps it: one extra
      character is allowed for a separator the buffer still lacks, and a
      '/' at index i of the input is already spoken for. */
  lemma {:induction false} ApplyBound(b: string, s: string, i: nat)
    requires i <= |s|
    ensures |Apply(b, SegmentsFrom(s, i))| + SlashBit(s, i)
            <= |b| + (|s| - i) + (if i < |s| && !EndsWithSlash(b) then 1 else 0)
    decreases |s| - i
  {
    if i == |s| {
    } else if s[i] == '/' {
      ApplyBound(b, s, i + 1);
    } else {
      var j := SegmentEnd(s, i);
      var seg := SegmentAt(s, i, j);
      ApplyCons(b, seg, SegmentsFrom(s, j));
      var sep := WithSeparator(b);
      assert |sep| == |b| + (if EndsWithSlash(b) then 0 else 1);
      ApplyBound(Step(b, seg), s, j);
    }
  }

  /** The resolved path is at most one character longer than base and name
      together, so it and its terminating NUL fit the allocation of
      |base| + |name| + 2 characters. */
  lemma CapacityBound(cwd: Option<string>, name: string)
    ensures |Resolve(cwd, name)| <= |Base(cwd, name)| + |name| + 1
  {
    ApplyBound(Base(cwd, name), name, 0);
  }

  // ---------------------------------------------------------------------
  // Base selection.

  /** An absolute name is resolved from the root, whatever the session's
      current directory. */
  lemma AbsoluteIgnoresCwd(cwd1: Option<string>, cwd2: Option<string>, name: string)
    requires name != [] && name[0] == '/'
    ensures Resolve(cwd1, name) == Resolve(cwd2, name) == Resolve(None, name)
  {
  }

  /** A name that is not absolute is resolved from the current directory,
      or from the root when there is none. */
  lemma RelativeUsesCwd(cwd: Option<string>, name: string)
    requires name == [] || name[0] != '/'
    ensures Resolve(cwd, name) == Apply(cwd.GetOr("/"), Segments(name))
  {
  }

  /** An empty name gives back the base unchanged. */
  lemma EmptyNameKeepsBase(cwd: Option<string>)
    ensures Resolve(cwd, "") == cwd.GetOr("/")
  {
  }

  // ---------------------------------------------------------------------
  // Normal form.

  /** The segment between indexes j - 1 and j of p is empty: "//". */
  predicate EmptySegmentAt(p: string, j: nat)
    requires 0 < j < |p|
  {
    p[j - 1] == '/' && p[j] == '/'
  }

  /** A "." or ".." segment starts at index j of p. */
  predicate DotSegmentAt(p: string, j: nat) {
    j < |p| && p[j] == '.' &&
    (j + 1 == |p| || p[j + 1] == '/' ||
     (p[j + 1] == '.' && (j + 2 == |p| || p[j + 2] == '/')))
  }

  predicate DotAfterSlash(p: string, j: nat) {
    0 < j < |p| && p[j - 1] == '/' && DotSegmentAt(p, j)
  }

  /** An absolute path with no empty, "." or ".." segment.  A single
      trailing '/' is allowed: resolution keeps one from the input. */
  predicate Canonical(p: string) {
    p != [] && p[0] == '/' &&
    (forall j :: 0 < j < |p| ==> !EmptySegmentAt(p, j)) &&
    (forall j :: 0 < j < |p| ==> !DotAfterSlash(p, j))
  }

  lemma WithSeparatorCanonical(b: string)
    requires Canonical(b)
    ensures Canonical(WithSeparator(b)) && EndsWithSlash(WithSeparator(b))
  {
    if !EndsWithSlash(b) {
      var q := b + "/";
      forall j | 0 < j < |q|
        ensures !EmptySegmentAt(q, j) && !DotAfterSlash(q, j)
      {
        if j < |b| {
          assert EmptySegmentAt(q, j) == EmptySegmentAt(b, j);
          assert DotAfterSlash(q, j) ==> DotAfterSlash(b, j);
        }
      }
    }
  }

  /** Cutting a canonical path just after one of its '/' keeps it canonical. */
  lemma PrefixCanonical(p: string, m: nat)
    requires Canonical(p)
    requires 1 <= m <= |p| && p[m - 1] == '/'
    ensures Canonical(p[..m])
  {
    var q := p[..m];
    forall j | 0 < j < |q|
      ensures !EmptySegmentAt(q, j) && !DotAfterSlash(q, j)
    {
      assert EmptySegmentAt(q, j) == EmptySegmentAt(p, j);
      assert DotAfterSlash(q, j) ==> DotAfterSlash(p, j);
    }
  }

  lemma ParentCanonical(b: string)
    requires Canonical(b) && EndsWithSlash(b)
    ensures Canonical(Parent(b)) && EndsWithSlash(Parent(b))
  {
    if |b| > 1 {
      var c := b[..|b| - 1];
      var r := BackToSlash(c);
      assert c[0] == '/';
      assert r != [];
      assert r == b[..|r|];
      PrefixCanonical(b, |r|);
    }
  }

  /** Appending a name, and a '/' if the input has one after it, to a
      canonical path that ends with '/' keeps it canonical. */
  lemma AppendCanonical(b: string, x: string, slash: bool)
    requires Canonical(b) && EndsWithSlash(b) && ValidName(x)
    ensures Canonical(b + x + (if slash then "/" else ""))
  {
    var q := b + x + (if slash then "/" else "");
    assert forall j :: |b| <= j < |b| + |x| ==> q[j] == x[j - |b|];
    forall j | 0 < j < |q|
      ensures !EmptySegmentAt(q, j) && !DotAfterSlash(q, j)
    {
      if j < |b| {
        assert EmptySegmentAt(q, j) == EmptySegmentAt(b, j);
        assert DotAfterSlash(q, j) ==> DotAfterSlash(b, j);
      } else if j == |b| {
        assert q[j] == x[0] != '/';
        if |x| >= 2 {
          assert q[j + 1] == x[1] != '/';
        }
        if |x| >= 3 {
          assert q[j + 2] == x[2] != '/';
        }
      }
    }
  }

  lemma StepCanonical(b: string, seg: Segment)
    requires Canonical(b) && WellFormed(seg)
    ensures Canonical(Step(b, seg))
  {
    WithSeparatorCanonical(b);
    match seg
    case Dot =>
    case DotDot => ParentCanonical(WithSeparator(b));
    case Name(x, slash) => AppendCanonical(WithSeparator(b), x, slash);
  }

  lemma {:induction false} ApplyCanonical(b: string, segs: seq<Segment>)
    requires Canonical(b)
    requires forall i :: 0 <= i < |segs| ==> WellFormed(segs[i])
    ensures Canonical(Apply(b, segs))
    decreases |segs|
  {
    if segs != [] {
      StepCanonical(b, segs[0]);
      ApplyCanonical(Step(b, segs[0]), segs[1..]);
    }
  }

  /** Resolving any name against the root or a canonical current directory
      gives a canonical path: separator runs collapse and no "." or ".."
      segment survives. */
  lemma NormalForm(cwd: Option<string>, name: string)
    requires cwd.Some? ==> Canonical(cwd.value)
    ensures Canonical(Resolve(cwd, name))
  {
    SegmentsWellFormed(name, 0);
    ApplyCanonical(Base(cwd, name), Segments(name));
  }

  // ---------------------------------------------------------------------
  // Canonical paths are fixed points, so resolution is idempotent.

  /** From index i on, p holds names that are not "." or "..", each
      followed by one '/' or by the end: what follows a '/' in a canonical
      path. */
  predicate CleanFrom(p: string, i: nat)
    requires i <= |p|
    decreases |p| - i
  {
    i == |p| ||
    (SegmentEnd(p, i) > i && !DotSegmentAt(p, i) &&
     (SegmentEnd(p, i) < |p| ==> CleanFrom(p, SegmentEnd(p, i) + 1)))
  }

  lemma {:induction false} CanonicalCleanFrom(p: string, i: nat)
    requires Canonical(p)
    requires 1 <= i <= |p| && p[i - 1] == '/'
    ensures CleanFrom(p, i)
    decreases |p| - i
  {
    if i < |p| {
      assert !EmptySegmentAt(p, i);
      assert !DotAfterSlash(p, i);
      var j := SegmentEnd(p, i);
      if j < |p| {
        CanonicalCleanFrom(p, j + 1);
      }
    }
  }

  /** Applying the segments of a clean part of p to a buffer that ends with
      '/' appends that part of p to the buffer. */
  lemma {:induction false} CleanFromFixed(b: string, p: string, i: nat)
    requires EndsWithSlash(b) && i <= |p| && CleanFrom(p, i)
    ensures Apply(b, SegmentsFrom(p, i)) == b + p[i..]
    decreases |p| - i
  {
    if i == |p| {
      CleanEmpty(b, p, i);
    } else if SegmentEnd(p, i) == |p| {
      CleanLast(b, p, i);
    } else {
      var j := SegmentEnd(p, i);
      CleanNext(b, p, i);
      CleanFromFixed(b + p[i..j] + "/", p, j + 1);
      CleanStep(b, p, i);
    }
  }

  lemma CleanEmpty(b: string, p: string, i: nat)
    requires i == |p|
    ensures Apply(b, SegmentsFrom(p, i)) == b + p[i..]
  {
    assert p[i..] == [];
  }

  /** After an ordinary segment and its '/', the buffer still ends with '/'
      and the rest of p is still clean. */
  lemma CleanNext(b: string, p: string, i: nat)
    requires i < |p| && CleanFrom(p, i) && SegmentEnd(p, i) < |p|
    ensures EndsWithSlash(b + p[i..SegmentEnd(p, i)] + "/")
    ensures CleanFrom(p, SegmentEnd(p, i) + 1)
  {
    SlashEnds(b + p[i..SegmentEnd(p, i)]);
  }

  /** One ordinary segment of a clean part, followed by a '/'. */
  lemma CleanStep(b: string, p: string, i: nat)
    requires EndsWithSlash(b) && i < |p| && CleanFrom(p, i) && SegmentEnd(p, i) < |p|
    requires var j := SegmentEnd(p, i);
      Apply(b + p[i..j] + "/", SegmentsFrom(p, j + 1)) == b + p[i..j] + "/" + p[j + 1..]
    ensures Apply(b, SegmentsFrom(p, i)) == b + p[i..]
  {
    CleanSegment(b, p, i);
    SplitThroughSlash(b, p, i, SegmentEnd(p, i));
  }

  /** An ordinary segment of a clean part and its '/' are copied after a
      buffer that ends with '/'. */
  lemma CleanSegment(b: string, p: string, i: nat)
    requires EndsWithSlash(b) && i < |p| && CleanFrom(p, i) && SegmentEnd(p, i) < |p|
    ensures var j := SegmentEnd(p, i);
      Apply(b, SegmentsFrom(p, i)) == Apply(b + p[i..j] + "/", SegmentsFrom(p, j + 1))
  {
    var j := SegmentEnd(p, i);
    var b' := b + p[i..j] + "/";
    assert !DotSegmentAt(p, i) && j < |p|;
    SeparatorKept(b, p[i..j]);
    ScanOrdinary(b, p, i, b');
    ScanSlash(p, j);
  }

  /** The last segment of a clean part, with no '/' after it. */
  lemma CleanLast(b: string, p: string, i: nat)
    requires EndsWithSlash(b) && i < |p| && CleanFrom(p, i) && SegmentEnd(p, i) == |p|
    ensures Apply(b, SegmentsFrom(p, i)) == b + p[i..]
  {
    LastKept(b, p, i);
    ScanOrdinary(b, p, i, b + p[i..]);
  }

  lemma SeparatorKept(b: string, x: string)
    requires EndsWithSlash(b)
    ensures WithSeparator(b) + x + "/" == b + x + "/"
  {
  }

  lemma LastKept(b: string, p: string, i: nat)
    requires EndsWithSlash(b) && i <= |p|
    ensures WithSeparator(b) + p[i..|p|] + "" == b + p[i..]
  {
  }

  lemma SlashEnds(a: string)
    ensures EndsWithSlash(a + "/")
  {
  }

  /** Cutting the rest of p at the '/' at index j. */
  lemma SplitThroughSlash(b: string, p: string, i: nat, j: nat)
    requires i <= j < |p| && p[j] == '/'
    ensures b + p[i..j] + "/" + p[j + 1..] == b + p[i..]
  {
    assert p[i..] == p[i..j] + "/" + p[j + 1..];
  }

  /** A canonical absolute path resolves to itself, in any session. */
  lemma CanonicalFixedPoint(cwd: Option<string>, p: string)
    requires Canonical(p)
    ensures Resolve(cwd, p) == p
  {
    CanonicalCleanFrom(p, 1);
    CleanFromFixed("/", p, 1);
    assert "/" + p[1..] == p;
  }

  /** Resolving an already resolved path changes nothing. */
  lemma ResolveIdempotent(cwd: Option<string>, cwd2: Option<string>, name: string)
    requires cwd.Some? ==> Canonical(cwd.value)
    ensures Resolve(cwd2, Resolve(cwd, name)) == Resolve(cwd, name)
  {
    NormalForm(cwd, name);
    CanonicalFixedPoint(cwd2, Resolve(cwd, name));
  }
}
