/**
 * The session layer of the VFS: a session holds the current directory,
 * every path-taking call first resolves its name against it, and the
 * resolved path is handed to the provider that owns it.
 *
 * The provider layer is not part of this model.  Its lookup and its
 * operations are parameters: find maps an absolute path to the provider
 * bound there and the offset at which the provider's own part of the path
 * begins.  Allocation outcomes are parameters too: allocOk says whether
 * the allocation made by a call succeeds.
 */
module Vfs {
  import opened Wrappers
  import opened Paths
  import PathLaws
  import Resolver

  /** errno values (those of the newlib C library); the calls return them
      negated. */
  const ENOENT: int := 2
  const ENOMEM: int := 12
  const ENOSYS: int := 88

  /** What the provider lookup finds for a path: the provider and the
      offset at which its part of the path begins. */
  datatype Binding<P> = Binding(node: P, offset: nat)

  /** The lookup never points past the end of the path it was given. */
  ghost predicate FindsWithin<P>(find: string -> Option<Binding<P>>) {
    forall p :: find(p).Some? ==> find(p).value.offset <= |p|
  }

  /** Whether an open mode asks for writing: it holds the character 'w'
      somewhere, as the C library's character search finds it. */
  function WriteMode(mode: string): (w: bool)
    ensures w <==> exists k :: 0 <= k < |mode| && mode[k] == 'w'
  {
    if mode == [] then false
    else if mode[0] == 'w' then true
    else
      var w := WriteMode(mode[1..]);
      assert forall k :: 1 <= k < |mode| ==> mode[k] == mode[1..][k - 1];
      w
  }

  /** The bytes getcwd stores into a caller buffer of the given size when
      the current directory is c: all of c and a NUL when they fit,
      otherwise the first size - 1 characters and a NUL, and nothing at all
      into a buffer of size zero. */
  function Written(c: string, size: nat): (w: seq<char>)
    ensures |w| == if |c| < size then |c| + 1 else size
    ensures size > 0 ==> w[|w| - 1] == Resolver.NUL
    ensures forall k :: 0 <= k < |w| - 1 ==> w[k] == c[k]
  {
    if |c| >= size then
      (if size > 1 then c[..size - 1] else []) + (if size > 0 then [Resolver.NUL] else [])
    else
      c + [Resolver.NUL]
  }

  /** Read back as a C string, the buffer holds the longest prefix of c
      that fits in front of the NUL, provided c itself holds no NUL. */
  lemma WrittenReadsBack(c: string, size: nat)
    requires size > 0 && Resolver.NUL !in c
    ensures var m := if |c| < size then |c| else size - 1;
      Written(c, size) == c[..m] + [Resolver.NUL] && Resolver.NUL !in c[..m]
  {
    var m := if |c| < size then |c| else size - 1;
    var w := Written(c, size);
    assert w == w[..m] + [w[m]];
    assert w[..m] == c[..m];
  }

  /** A session: vfs_t. */
  class Session {
    /** The current directory; None is the NULL of a fresh session. */
    var cwd: Option<string>
    /** False once the session has been closed. */
    ghost var isOpen: bool

    /** An open session whose current directory, when set, is a canonical
        absolute path holding no NUL: only resolved C strings are ever
        stored there. */
    ghost predicate Valid()
      reads this
    {
      isOpen && (cwd.Some? ==> Canonical(cwd.value) && Resolver.NUL !in cwd.value)
    }

    /** vfs_openfs after a successful allocation: no current directory. */
    constructor ()
      ensures Valid() && cwd == None
    {
      cwd := None;
      isOpen := true;
    }

    /** The current directory as getcwd reports it: NULL reads as "/". */
    function CwdText(): (c: string)
      reads this
      ensures cwd.None? ==> c == "/"
      ensures cwd.Some? ==> c == cwd.value
      ensures Valid() ==> Resolver.NUL !in c
    {
      cwd.GetOr("/")
    }

    /** vfs_chdir: resolve the path against the current directory and make
        it the new current directory.  Nothing checks that the directory
        exists.  When the path cannot be built for lack of memory the call
        fails with -ENOMEM and changes nothing.  The path is a C string, so
        it holds no NUL. */
    method Chdir(path: string, allocOk: bool) returns (r: int)
      requires Valid() && Resolver.NUL !in path
      modifies this
      ensures Valid()
      ensures allocOk ==> r == 0 && cwd == Some(Resolve(old(cwd), path))
      ensures !allocOk ==> r == -ENOMEM && cwd == old(cwd)
    {
      var apath := Resolver.MakeAbsolutePath(cwd, path, allocOk);
      if apath.None? {
        return -ENOMEM;
      }
      NormalForm(cwd, path);
      PathLaws.ResolveAvoids(cwd, path, Resolver.NUL);
      cwd := apath;
      return 0;
    }

    /** vfs_getcwd into a caller buffer of buf.Length characters. */
    method GetcwdInto(buf: array<char>)
      requires Valid()
      modifies buf
      ensures buf[..|Written(CwdText(), buf.Length)|] == Written(CwdText(), buf.Length)
      ensures forall k :: |Written(CwdText(), buf.Length)| <= k < buf.Length ==> buf[k] == old(buf[k])
    {
      var c := CwdText();
      var size := buf.Length;
      if |c| >= size {
        if size > 1 {
          forall k | 0 <= k < size - 1 {
            buf[k] := c[k];
          }
        }
        if size > 0 {
          buf[size - 1] := Resolver.NUL;
        }
      } else {
        forall k | 0 <= k < |c| {
          buf[k] := c[k];
        }
        buf[|c|] := Resolver.NUL;
      }
    }

    /** vfs_getcwd with a NULL buffer: a fresh copy of the current
        directory, or NULL when the copy cannot be allocated. */
    method GetcwdDup(allocOk: bool) returns (r: Option<string>)
      requires Valid()
      ensures allocOk ==> r == Some(CwdText())
      ensures !allocOk ==> r == None
    {
      if !allocOk {
        return None;
      }
      return Some(CwdText());
    }

    /** vfs_stat: -ENOMEM when the path cannot be built, -ENOENT when no
        provider owns it, otherwise what the provider's stat returns for
        its part of the path. */
    method Stat<P>(name: string, allocOk: bool, find: string -> Option<Binding<P>>, stat: (P, string) -> int)
      returns (r: int)
      requires Valid() && FindsWithin(find)
      ensures !allocOk ==> r == -ENOMEM
      ensures allocOk ==> var p := Resolve(cwd, name);
        && (find(p).None? ==> r == -ENOENT)
        && (find(p).Some? ==> r == stat(find(p).value.node, p[find(p).value.offset..]))
    {
      r := -ENOMEM;
      var path := Resolver.MakeAbsolutePath(cwd, name, allocOk);
      if path.Some? {
        var p := path.value;
        var b := find(p);
        r := if b.Some? then stat(b.value.node, p[b.value.offset..]) else -ENOENT;
      }
    }

    /** vfs_open: NULL when the path cannot be built or no provider owns
        it, otherwise the provider's open of its part of the path, told
        whether the mode asks for writing. */
    method Open<P, F>(name: string, mode: string, allocOk: bool,
                      find: string -> Option<Binding<P>>, open: (P, string, bool) -> Option<F>)
      returns (r: Option<F>)
      requires Valid() && FindsWithin(find)
      ensures !allocOk ==> r == None
      ensures allocOk ==> var p := Resolve(cwd, name);
        && (find(p).None? ==> r == None)
        && (find(p).Some? ==> r == open(find(p).value.node, p[find(p).value.offset..], WriteMode(mode)))
    {
      var writemode := WriteMode(mode);
      r := None;
      var path := Resolver.MakeAbsolutePath(cwd, name, allocOk);
      if path.Some? {
        var p := path.value;
        var b := find(p);
        r := if b.Some? then open(b.value.node, p[b.value.offset..], writemode) else None;
      }
    }

    /** vfs_opendir: NULL when the path cannot be built or no provider owns
        it, otherwise the provider's opendir of its part of the path. */
    method Opendir<P, D>(name: string, allocOk: bool,
                         find: string -> Option<Binding<P>>, opendir: (P, string) -> Option<D>)
      returns (r: Option<D>)
      requires Valid() && FindsWithin(find)
      ensures !allocOk ==> r == None
      ensures allocOk ==> var p := Resolve(cwd, name);
        && (find(p).None? ==> r == None)
        && (find(p).Some? ==> r == opendir(find(p).value.node, p[find(p).value.offset..]))
    {
      r := None;
      var path := Resolver.MakeAbsolutePath(cwd, name, allocOk);
      if path.Some? {
        var p := path.value;
        var b := find(p);
        r := if b.Some? then opendir(b.value.node, p[b.value.offset..]) else None;
      }
    }

    /** vfs_rename: not supported; the session is untouched. */
    method Rename(frompath: string, topath: string) returns (r: int)
      ensures r == -ENOSYS
    {
      return -ENOSYS;
    }

    /** vfs_mkdir: not supported; the session is untouched. */
    method Mkdir(path: string, mode: int) returns (r: int)
      ensures r == -ENOSYS
    {
      return -ENOSYS;
    }

    /** vfs_rmdir: not supported; the session is untouched. */
    method Rmdir(path: string) returns (r: int)
      ensures r == -ENOSYS
    {
      return -ENOSYS;
    }

    /** vfs_remove: not supported; the session is untouched. */
    method Remove(path: string) returns (r: int)
      ensures r == -ENOSYS
    {
      return -ENOSYS;
    }
  }

  /** vfs_openfs: a fresh session with no current directory, or NULL when
      the session cannot be allocated. */
  method OpenFs(allocOk: bool) returns (v: Session?)
    ensures allocOk ==> v != null && fresh(v) && v.Valid() && v.cwd == None
    ensures !allocOk ==> v == null
  {
    if !allocOk {
      return null;
    }
    v := new Session();
  }

  /** vfs_closefs: a NULL session is ignored; otherwise the session is
      released and can no longer be used. */
  method CloseFs(v: Session?)
    modifies v
    ensures v != null ==> !v.isOpen && v.cwd == old(v.cwd)
  {
    if v != null {
      v.isOpen := false;
    }
  }

  /** vfs_write: not supported, whatever the file and data. */
  method WriteFile<F>(buffer: seq<bv8>, size: nat, nmemb: nat, file: F) returns (r: int)
    ensures r == -ENOSYS
  {
    return -ENOSYS;
  }
}
