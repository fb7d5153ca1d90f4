/**
 * Worked resolutions, stated for any names a, b, ... that are not "."
 * or "..", and proved by splitting the name into its segments.
 */
module Scenarios {
  import opened Wrappers
  import opened Paths
  import opened PathLaws
  import Resolver
  import Vfs

  /** Runs of '/' collapse, and the trailing '/' of the name is kept:
      "//a///b//" resolves to "/a/b/". */
  lemma CollapseSeparators(cwd: Option<string>, a: string, b: string)
    requires ValidName(a) && ValidName(b)
    ensures Resolve(cwd, "//" + a + "///" + b + "//") == "/" + a + "/" + b + "/"
  {
    var t := b + "/" + ("/" + "");
    assert "//" + a + "///" + b + "//" == "/" + ("/" + (a + "/" + ("/" + ("/" + t))));
    var p1 := "/" + a + "/";
    ApplySlash("/", "/" + (a + "/" + ("/" + ("/" + t))));
    ApplySlash("/", a + "/" + ("/" + ("/" + t)));
    ApplyName("/", a, "/" + ("/" + t));
    ApplySlash(p1, "/" + t);
    ApplySlash(p1, t);
    ApplyName(p1, b, "/" + "");
    ApplySlash(p1 + b + "/", "");
  }

  /** "." segments vanish, and no '/' is added after the last name:
      "/a/./b/./c" resolves to "/a/b/c". */
  lemma DropDots(cwd: Option<string>, a: string, b: string, c: string)
    requires ValidName(a) && ValidName(b) && ValidName(c)
    ensures Resolve(cwd, "/" + a + "/./" + b + "/./" + c) == "/" + a + "/" + b + "/" + c
  {
    var u := b + "/" + ("./" + c);
    assert "/" + a + "/./" + b + "/./" + c == "/" + (a + "/" + ("./" + u));
    var p1 := "/" + a + "/";
    ApplySlash("/", a + "/" + ("./" + u));
    ApplyName("/", a, "./" + u);
    ApplyDot(p1, u);
    ApplyName(p1, b, "./" + c);
    ApplyDot(p1 + b + "/", c);
    ApplyLastName(p1 + b + "/", c);
  }

  /** Two names after the root resolve to themselves. */
  lemma TwoNames(cwd: Option<string>, a: string, b: string)
    requires ValidName(a) && ValidName(b)
    ensures Resolve(cwd, "/" + a + "/" + b) == "/" + a + "/" + b
  {
    assert "/" + a + "/" + b == "/" + (a + "/" + b);
    ApplySlash("/", a + "/" + b);
    ApplyName("/", a, b);
    ApplyLastName("/" + a + "/", b);
  }

  /** "..." and ".x" are ordinary names, copied as they are. */
  lemma DotNamesAreNames()
    ensures Resolve(None, "/.../.x") == "/.../.x"
  {
    assert ValidName("...") && ValidName(".x");
    assert "/" + "..." + "/" + ".x" == "/.../.x";
    TwoNames(None, "...", ".x");
  }

  /** "." on a directory without a trailing '/' adds one: in "/a", "."
      resolves to "/a/". */
  lemma DotInDirectory()
    ensures Resolve(Some("/a"), ".") == "/a/"
  {
    DotAddsSeparator("/a");
  }

  /** ".." removes the last name and keeps the '/' before it: in "/a/b",
      ".." resolves to "/a/". */
  lemma DotDotInDirectory(d: string, x: string)
    requires EndsWithSlash(d) && ValidName(x)
    ensures Resolve(Some(d + x), "..") == d
  {
    SegmentEndIs("..", 0, 2);
    assert Segments("..") == [DotDot];
    DotDotPops(d, x);
  }

  /** More ".." than there are names stops at the root: in "/a/b",
      "../../../c" resolves to "/c". */
  lemma DotDotPastRoot(a: string, b: string, c: string)
    requires ValidName(a) && ValidName(b) && ValidName(c)
    ensures Resolve(Some("/" + a + "/" + b), "../../../" + c) == "/" + c
  {
    ThreeUps(c);
    var p1 := "/" + a + "/";
    ApplyUp("/" + a + "/" + b, "../" + ("../" + c));
    DotDotPops(p1, b);
    ApplyUp(p1, "../" + c);
    DotDotPops("/", a);
    ApplyUp("/", c);
    DotDotAtRoot("/");
    ApplyLastName("/", c);
  }

  lemma ThreeUps(c: string)
    ensures "../../../" + c == "../" + ("../" + ("../" + c))
  {
  }

  /** A session in "/usr/lib" resolves "../bin/ls" to "/usr/bin/ls". */
  lemma SiblingDirectory(u: string, l: string, b: string, f: string)
    requires ValidName(u) && ValidName(l) && ValidName(b) && ValidName(f)
    ensures Resolve(Some("/" + u + "/" + l), "../" + b + "/" + f) == "/" + u + "/" + b + "/" + f
  {
    assert "../" + b + "/" + f == "../" + (b + "/" + f);
    var p1 := "/" + u + "/";
    ApplyUp("/" + u + "/" + l, b + "/" + f);
    DotDotPops(p1, l);
    ApplyName(p1, b, f);
    ApplyLastName(p1 + b + "/", f);
  }

  lemma UsrLib()
    ensures Resolve(None, "/usr/lib") == "/usr/lib"
    ensures Resolve(Some("/usr/lib"), "../bin/ls") == "/usr/bin/ls"
  {
    assert ValidName("usr") && ValidName("lib") && ValidName("bin") && ValidName("ls");
    assert "/" + "usr" + "/" + "lib" == "/usr/lib";
    TwoNames(None, "usr", "lib");
    assert "../" + "bin" + "/" + "ls" == "../bin/ls";
    assert "/" + "usr" + "/" + "bin" + "/" + "ls" == "/usr/bin/ls";
    SiblingDirectory("usr", "lib", "bin", "ls");
  }

  /** A fresh session changes to "/usr/lib" and then resolves "../bin/ls"
      to "/usr/bin/ls". */
  method ChdirThenResolve() returns (p: Option<string>)
    ensures p == Some("/usr/bin/ls")
  {
    var v := new Vfs.Session();
    var r := v.Chdir("/usr/lib", true);
    UsrLib();
    p := Resolver.MakeAbsolutePath(v.cwd, "../bin/ls", true);
  }

  /** getcwd of "/usr/lib" into a buffer of 3 characters stores "/u" and
      a NUL. */
  lemma GetcwdTruncates()
    ensures Vfs.Written("/usr/lib", 3) == ['/', 'u', Resolver.NUL]
  {
    var w := Vfs.Written("/usr/lib", 3);
    assert w[0] == '/' && w[1] == 'u';
  }
}
