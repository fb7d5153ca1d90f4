/**
 * Laws of path resolution that relate several resolutions or several
 * segments: what ".." removes, how the root absorbs "..", when the
 * result ends with '/', and worked examples.
 */
module PathLaws {
  import opened Wrappers
  import opened Paths

  // ---------------------------------------------------------------------
  // "..": one segment, never past the root.

  /** Backing up over a name that has no '/' stops at the '/' before it. */
  lemma {:induction false} BackToSlashName(b: string, x: string)
    requires EndsWithSlash(b) && NoSlash(x)
    ensures BackToSlash(b + x) == b
    decreases |x|
  {
    if x == [] {
      assert b + x == b;
    } else {
      var y := x[..|x| - 1];
      assert (b + x)[|b + x| - 1] == x[|x| - 1];
      assert (b + x)[..|b + x| - 1] == b + y;
      assert NoSlash(y) by {
        forall j | 0 <= j < |y| ensures y[j] != '/' {
          assert y[j] == x[j];
        }
      }
      BackToSlashName(b, y);
    }
  }

  /** ".." removes exactly the last name of the buffer, with or without the
      '/' after it, and leaves everything before it untouched. */
  lemma DotDotPops(b: string, x: string)
    requires EndsWithSlash(b) && x != [] && NoSlash(x)
    ensures Step(b + x, DotDot) == b
    ensures Step(b + x + "/", DotDot) == b
  {
    var c := b + x + "/";
    assert (b + x)[|b + x| - 1] == x[|x| - 1];
    assert WithSeparator(b + x) == c;
    assert WithSeparator(c) == c;
    assert c[..|c| - 1] == b + x;
    BackToSlashName(b, x);
  }

  /** At the root, or on an empty buffer, ".." leaves "/". */
  lemma DotDotAtRoot(b: string)
    requires b == "" || b == "/"
    ensures Step(b, DotDot) == "/"
  {
    assert WithSeparator(b) == "/";
  }

  // ---------------------------------------------------------------------
  // Segments of a name with a prefix in front.

  lemma {:induction false} SegmentEndShift(p: string, q: string, i: nat)
    requires i <= |q|
    ensures SegmentEnd(p + q, |p| + i) == |p| + SegmentEnd(q, i)
    decreases |q| - i
  {
    if i < |q| {
      assert (p + q)[|p| + i] == q[i];
      if q[i] != '/' {
        SegmentEndShift(p, q, i + 1);
      }
    }
  }

  /** Segmenting p + q from inside q gives the segments of q. */
  lemma {:induction false} SegmentsShift(p: string, q: string, i: nat)
    requires i <= |q|
    ensures SegmentsFrom(p + q, |p| + i) == SegmentsFrom(q, i)
    decreases |q| - i
  {
    if i < |q| {
      assert (p + q)[|p| + i] == q[i];
      if q[i] == '/' {
        SegmentsShift(p, q, i + 1);
      } else {
        var j := SegmentEnd(q, i);
        SegmentEndShift(p, q, i);
        SegmentsShift(p, q, j);
        SegmentAtShift(p, q, i, j);
        SegmentsFromCons(p + q, |p| + i);
        SegmentsFromCons(q, i);
      }
    }
  }

  lemma SegmentsFromCons(s: string, i: nat)
    requires i < |s| && s[i] != '/'
    ensures SegmentsFrom(s, i) == [SegmentAt(s, i, SegmentEnd(s, i))] + SegmentsFrom(s, SegmentEnd(s, i))
  {
  }

  lemma SegmentAtShift(p: string, q: string, i: nat, j: nat)
    requires i < j <= |q|
    ensures SegmentAt(p + q, |p| + i, |p| + j) == SegmentAt(q, i, j)
  {
    assert (p + q)[|p| + i..|p| + j] == q[i..j];
    assert (p + q)[|p| + i] == q[i];
    if j >= i + 2 {
      assert (p + q)[|p| + i + 1] == q[i + 1];
    }
  }

  /** A leading "../" contributes one ".." segment and nothing else. */
  lemma UpSegments(x: string)
    ensures Segments("../" + x) == [DotDot] + Segments(x)
  {
    var s := "../" + x;
    SegmentEndIs(s, 0, 2);
    assert SegmentAt(s, 0, 2) == DotDot;
    ScanSlash(s, 2);
    SegmentsShift("../", x, 0);
  }

  /** A leading '/' contributes no segment. */
  lemma SlashSegments(x: string)
    ensures Segments("/" + x) == Segments(x)
  {
    ScanSlash("/" + x, 0);
    SegmentsShift("/", x, 0);
  }

  /** A leading "./" contributes one "." segment. */
  lemma DotSegments(x: string)
    ensures Segments("./" + x) == [Dot] + Segments(x)
  {
    var s := "./" + x;
    SegmentEndIs(s, 0, 1);
    ScanSlash(s, 1);
    SegmentsShift("./", x, 0);
  }

  /** The run of characters before the first '/' of x + s is x. */
  lemma NameEnd(x: string, s: string)
    requires NoSlash(x) && (s == [] || s[0] == '/')
    ensures SegmentEnd(x + s, 0) == |x|
  {
    var t := x + s;
    forall k | 0 <= k < |x| ensures t[k] != '/' {
      assert t[k] == x[k];
    }
    SegmentEndIs(t, 0, |x|);
  }

  /** A leading name followed by '/' is one segment, with its '/'. */
  lemma NameSegments(x: string, y: string)
    requires ValidName(x)
    ensures Segments(x + "/" + y) == [Name(x, true)] + Segments(y)
  {
    var s := x + "/" + y;
    assert s == x + ("/" + y);
    NameEnd(x, "/" + y);
    NameAt(s, x);
    ScanSlash(s, |x|);
    SegmentsShift(x + "/", y, 0);
  }

  /** A name alone is one segment, with no '/' after it. */
  lemma LastNameSegments(x: string)
    requires ValidName(x)
    ensures Segments(x) == [Name(x, false)]
  {
    NameEnd(x, []);
    assert x + [] == x;
    assert x[..|x|] == x;
    NameAt(x, x);
    assert x[0] != '/';
    SegmentsFromCons(x, 0);
  }

  lemma NameAt(s: string, x: string)
    requires ValidName(x) && |x| <= |s| && s[..|x|] == x
    ensures SegmentAt(s, 0, |x|) == Name(x, |x| < |s|)
  {
    assert s[0] == x[0];
    if |x| == 2 {
      assert s[1] == x[1];
    }
  }

  // The same moves stated on a buffer: each consumes the front of the
  // name.

  lemma ApplySlash(b: string, y: string)
    ensures Apply(b, Segments("/" + y)) == Apply(b, Segments(y))
  {
    SlashSegments(y);
  }

  lemma ApplyDot(b: string, y: string)
    requires EndsWithSlash(b)
    ensures Apply(b, Segments("./" + y)) == Apply(b, Segments(y))
  {
    DotSegments(y);
    ApplyCons(b, Dot, Segments(y));
  }

  lemma ApplyUp(b: string, y: string)
    ensures Apply(b, Segments("../" + y)) == Apply(Step(b, DotDot), Segments(y))
  {
    UpSegments(y);
    ApplyCons(b, DotDot, Segments(y));
  }

  lemma ApplyName(b: string, x: string, y: string)
    requires EndsWithSlash(b) && ValidName(x)
    ensures Apply(b, Segments(x + "/" + y)) == Apply(b + x + "/", Segments(y))
  {
    NameSegments(x, y);
    ApplyCons(b, Name(x, true), Segments(y));
  }

  lemma ApplyLastName(b: string, x: string)
    requires EndsWithSlash(b) && ValidName(x)
    ensures Apply(b, Segments(x)) == b + x
  {
    LastNameSegments(x);
    ApplyCons(b, Name(x, false), []);
  }

  /** k copies of "../". */
  function Ups(k: nat): string {
    if k == 0 then "" else "../" + Ups(k - 1)
  }

  /** From the root, one leading "../" is absorbed. */
  lemma UpAtRoot(y: string)
    ensures Resolve(None, "../" + y) == Resolve(None, y)
  {
    UpSegments(y);
    ApplyCons("/", DotDot, Segments(y));
    DotDotAtRoot("/");
  }

  /** From the root, any number of leading "../" is absorbed. */
  lemma {:induction false} RootAbsorbs(k: nat, x: string)
    ensures Resolve(None, Ups(k) + x) == Resolve(None, x)
  {
    UpsCons(k, x);
    if k > 0 {
      UpAtRoot(Ups(k - 1) + x);
      RootAbsorbs(k - 1, x);
    }
  }

  lemma UpsCons(k: nat, x: string)
    ensures k == 0 ==> Ups(k) + x == x
    ensures k > 0 ==> Ups(k) + x == "../" + (Ups(k - 1) + x)
  {
  }

  /** In the root, a relative name resolves like the same name made
      absolute. */
  lemma RootRelative(x: string)
    ensures Resolve(None, x) == Resolve(None, "/" + x)
  {
    SlashSegments(x);
  }

  /** "/" followed by a single name is canonical. */
  lemma RootNameCanonical(x: string)
    requires ValidName(x)
    ensures Canonical("/" + x)
  {
    var p := "/" + x;
    forall j | 0 < j < |p|
      ensures !EmptySegmentAt(p, j) && !DotAfterSlash(p, j)
    {
      assert p[j] == x[j - 1];
      if j >= 2 {
        assert p[j - 1] == x[j - 2];
      }
      if j == 1 && |x| >= 2 {
        assert p[2] == x[1];
      }
      if j == 1 && |x| >= 3 {
        assert p[3] == x[2];
      }
    }
  }

  /** From the root, k copies of "../" followed by a name x give "/x". */
  lemma UpsThenName(k: nat, x: string)
    requires ValidName(x)
    ensures Resolve(None, Ups(k) + x) == "/" + x
  {
    RootAbsorbs(k, x);
    RootRelative(x);
    RootNameCanonical(x);
    CanonicalFixedPoint(None, "/" + x);
  }

  // ---------------------------------------------------------------------
  // The trailing '/'.

  function Last(segs: seq<Segment>): Segment
    requires segs != []
  {
    segs[|segs| - 1]
  }

  /** No segment from i on means only '/' from i on. */
  lemma {:induction false} NoSegmentsAllSlash(s: string, i: nat)
    requires i <= |s| && SegmentsFrom(s, i) == []
    ensures forall k :: i <= k < |s| ==> s[k] == '/'
    decreases |s| - i
  {
    if i < |s| {
      NoSegmentsAllSlash(s, i + 1);
    }
  }

  /** The last segment produced from s has a '/' after it exactly when s
      ends with '/'. */
  lemma {:induction false} LastSegmentSlash(s: string, i: nat)
    requires i <= |s| && SegmentsFrom(s, i) != [] && Last(SegmentsFrom(s, i)).Name?
    ensures Last(SegmentsFrom(s, i)).slash == EndsWithSlash(s)
    decreases |s| - i
  {
    if s[i] == '/' {
      LastSegmentSlash(s, i + 1);
    } else {
      var j := SegmentEnd(s, i);
      var rest := SegmentsFrom(s, j);
      if rest == [] {
        NoSegmentsAllSlash(s, j);
        assert Last(SegmentsFrom(s, i)) == SegmentAt(s, i, j);
      } else {
        assert Last(SegmentsFrom(s, i)) == Last(rest);
        LastSegmentSlash(s, j);
      }
    }
  }

  /** When the name ends in an ordinary segment, the resolved path ends
      with '/' if and only if the name does. */
  lemma TrailingSlashKept(cwd: Option<string>, name: string)
    requires Segments(name) != [] && Last(Segments(name)).Name?
    ensures EndsWithSlash(Resolve(cwd, name)) <==> EndsWithSlash(name)
  {
    var segs := Segments(name);
    var n := |segs| - 1;
    assert segs == segs[..n] + [segs[n]];
    ApplyAppend(Base(cwd, name), segs[..n], segs[n]);
    SegmentsWellFormed(name, 0);
    assert WellFormed(segs[n]);
    LastSegmentSlash(name, 0);
    var x := segs[n].name;
    var r := WithSeparator(Apply(Base(cwd, name), segs[..n])) + x;
    assert r[|r| - 1] == x[|x| - 1];
  }

  /** When the name ends in "." or "..", the resolved path ends with '/',
      whether or not the name does: the separator goes in before the
      segment is recognised. */
  lemma DotLastEndsWithSlash(cwd: Option<string>, name: string)
    requires cwd.Some? ==> Canonical(cwd.value)
    requires Segments(name) != [] && !Last(Segments(name)).Name?
    ensures EndsWithSlash(Resolve(cwd, name))
  {
    var segs := Segments(name);
    var n := |segs| - 1;
    assert segs == segs[..n] + [segs[n]];
    ApplyAppend(Base(cwd, name), segs[..n], segs[n]);
    SegmentsWellFormed(name, 0);
    var b := Apply(Base(cwd, name), segs[..n]);
    ApplyCanonical(Base(cwd, name), segs[..n]);
    WithSeparatorCanonical(b);
    if segs[n].DotDot? {
      ParentCanonical(WithSeparator(b));
    }
  }

  /** "." resolves to the directory with a '/' added when it lacks one, so
      resolving "." against a path without a trailing '/' does not give
      that path back. */
  lemma DotAddsSeparator(cwd: string)
    ensures Resolve(Some(cwd), ".") == WithSeparator(cwd)
    ensures !EndsWithSlash(cwd) ==> Resolve(Some(cwd), ".") != cwd
  {
    SegmentEndIs(".", 0, 1);
  }

  // ---------------------------------------------------------------------
  // Characters: the scan writes only '/' and characters of the base and
  // the name.

  /** No name segment in segs holds the character c. */
  ghost predicate NamesAvoid(segs: seq<Segment>, c: char) {
    forall k :: 0 <= k < |segs| && segs[k].Name? ==> c !in segs[k].name
  }

  lemma {:induction false} SegmentsAvoid(s: string, i: nat, c: char)
    requires i <= |s| && c !in s
    ensures NamesAvoid(SegmentsFrom(s, i), c)
    decreases |s| - i
  {
    if i == |s| {
    } else if s[i] == '/' {
      SegmentsAvoid(s, i + 1, c);
    } else {
      var j := SegmentEnd(s, i);
      SegmentsAvoid(s, j, c);
      SegmentAtClassifies(s, i, j);
      SliceAvoids(s, i, j, c);
      NamesAvoidCons(SegmentAt(s, i, j), SegmentsFrom(s, j), c);
    }
  }

  lemma SliceAvoids(s: string, i: nat, j: nat, c: char)
    requires i <= j <= |s| && c !in s
    ensures c !in s[i..j]
  {
    assert forall x :: x in s[i..j] ==> x in s;
  }

  lemma NamesAvoidCons(seg: Segment, rest: seq<Segment>, c: char)
    requires (seg.Name? ==> c !in seg.name) && NamesAvoid(rest, c)
    ensures NamesAvoid([seg] + rest, c)
  {
    var segs := [seg] + rest;
    assert forall k :: 1 <= k < |segs| ==> segs[k] == rest[k - 1];
  }

  lemma {:induction false} ApplyAvoids(b: string, segs: seq<Segment>, c: char)
    requires c != '/' && c !in b && NamesAvoid(segs, c)
    ensures c !in Apply(b, segs)
    decreases |segs|
  {
    if segs != [] {
      var w := WithSeparator(b);
      assert c !in w;
      var b' := Step(b, segs[0]);
      if segs[0].DotDot? {
        ParentShape(w);
        assert b' == w[..|b'|];
        assert forall x :: x in w[..|b'|] ==> x in w;
      } else if segs[0].Name? {
        assert c !in segs[0].name;
      }
      assert c !in b';
      assert forall k :: 0 <= k < |segs[1..]| ==> segs[1..][k] == segs[k + 1];
      ApplyAvoids(b', segs[1..], c);
    }
  }

  /** A character other than '/' that is neither in the current directory
      nor in the name is not in the resolved path either: in particular
      the result of resolving C strings holds no NUL. */
  lemma ResolveAvoids(cwd: Option<string>, name: string, c: char)
    requires c != '/' && c !in name && (cwd.Some? ==> c !in cwd.value)
    ensures c !in Resolve(cwd, name)
  {
    SegmentsAvoid(name, 0, c);
    ApplyAvoids(Base(cwd, name), Segments(name), c);
  }
}
