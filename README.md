# The dc-ftpd VFS session layer, in Dafny

This project models the path-resolution and session layer of the
dc-ftpd virtual file system (`src/vfs.c`) and proves properties of it.

- `make_absolute_path` turns a session's current directory and a user path
  into an absolute path. It works in place in a heap buffer of
  `strlen(base) + strlen(name) + 2` characters with one write index.
  `Resolver.MakeAbsolutePath` is the same scan over an `array<char>`.
  Each of its moves is a method with its own contract:
  - skip a run of '/' (`SkipSeparators`, a loop with invariants);
  - add a separator (`AddSeparator`, a single test);
  - back up for ".." (`PopSegment`, a loop with invariants);
  - copy a name (`CopySegment`, a loop with invariants).
- Functions in `Paths` give its functional specification. These are the
  definitions to compare with the C:
  - `Paths.Base` (`src/vfs.c:51-53`): the root when the current directory
    is NULL or the name starts with '/', the current directory otherwise;
  - `Paths.SegmentEnd`, `Paths.SegmentAt`, `Paths.SegmentsFrom` and
    `Paths.Segments` (`src/vfs.c:59-60`, `65-69`, `78-80`): the name split into
    its runs of non-'/' characters, with runs of '/' skipped, and each run
    classified as ".", ".." or a name that records whether a '/' follows it;
  - `Paths.WithSeparator` (`src/vfs.c:63-64`): a '/' appended unless the
    buffer already ends with one;
  - `Paths.BackToSlash` and `Paths.Parent` (`src/vfs.c:70-74`): the ".."
    rewind, which leaves a buffer of at most one character alone;
  - `Paths.Step` (`src/vfs.c:63-81`): one turn of the loop, with the separator
    first, whatever the segment;
  - `Paths.Apply` and `Paths.Resolve` (`src/vfs.c:47-85`): the turns folded over
    the base.
  Their meaning is stated in the lemmas `SegmentAtClassifies`,
  `WithSeparatorEnds`, `ParentShape`, `StepShape` and `BaseChoice`.
  The method is proved to return exactly `Paths.Resolve`, with every write,
  the final NUL included, inside the allocation.
- About `Resolve`, the model proves:
  - the capacity bound;
  - base selection;
  - the normal form;
  - that canonical paths are fixed points, so a resolved path resolves to
    itself;
  - what ".." removes, and that the root absorbs extra "..";
  - when a trailing '/' survives.
- The session (`vfs_t`) is the class `Vfs.Session`, with its one field
  `cwd`. Its invariant is that a stored directory is canonical and holds no
  NUL, and `Chdir` keeps it. `PathLaws.ResolveAvoids` shows that resolving
  NUL-free strings gives a NUL-free path.
- `getcwd`, `stat`, `open`, `opendir`, the `-ENOSYS` stubs, `openfs` and
  `closefs` are methods with contracts that state:
  - their results;
  - their error mapping;
  - what state they leave.

C strings are `seq<char>` holding the characters before the NUL.

NULL has two encodings:
- A NULL string or handle is `None` of `Wrappers.Option`. This covers the
  current directory, the path buffer, the copy made by `getcwd`, and the
  handles that `open` and `opendir` return.
- A NULL session (`vfs_t *`) is Dafny's `null` of type `Session?`. It is the
  result of a failed `OpenFs`, and `CloseFs` ignores it.

Some things become parameters:
- An allocation's outcome is the parameter `allocOk`.
- The provider layer is made of function parameters:
  - a lookup `find`, giving a provider and an offset no larger than the path;
  - the provider's `stat`, `open` and `opendir`.

`Scenarios` holds worked resolutions. Most are stated for arbitrary names
rather than single strings.

Files:
- `wrappers.dfy`: `Option`;
- `paths.dfy`: the specification and its core lemmas;
- `resolver.dfy`: the in-place scan;
- `pathlaws.dfy`: laws relating several resolutions;
- `scenarios.dfy`: examples;
- `vfs.dfy`: the session and the façade.

## Model

| member | source | states |
|---|---|---|
| Paths.SegmentEnd | src/vfs.c:78-79 | the copy loop stops at the first '/' or the end; every character it passes is not '/' |
| Paths.BackToSlash | src/vfs.c:72-73 | the rewind stops on a prefix of the buffer that is empty or ends with '/'; no character between that prefix and the old end is '/' |
| Paths.ScanSlash | src/vfs.c:59-60 | skipping one '/' of the name leaves the segments still to come unchanged |
| Paths.ScanDot | src/vfs.c:63-67 | at a "." segment, resolution continues from the buffer with its separator added, one character further on |
| Paths.ScanDotDot | src/vfs.c:63-76 | at a ".." segment, resolution continues from the parent of the buffer with its separator added, two characters further on |
| Paths.ScanOrdinary | src/vfs.c:63-81 | at any other segment, resolution continues from the buffer with its separator, the segment's characters and a '/' exactly when the name has one next |
| Paths.SegmentAtClassifies | src/vfs.c:65-69 | a run of non-'/' characters is "." or ".." exactly when it reads so; any other run is a name holding exactly those characters, marked with whether a '/' follows |
| Paths.WithSeparatorEnds | src/vfs.c:63-64 | the separator move keeps the buffer as a prefix, ends it with '/', and grows it by one character exactly when it did not end with '/' |
| Paths.ParentShape | src/vfs.c:70-74 | the ".." move keeps a prefix of the buffer; from two or more characters it is strictly shorter, empty or ending in '/', and drops the last character and the run of non-'/' before it; at most one character is left alone |
| Paths.StepShape | src/vfs.c:63-81 | "." gives the buffer with its separator; a name extends that; ".." cuts it back to a prefix; after a copied name the buffer ends in '/' exactly when a '/' follows the name |
| Paths.BaseChoice | src/vfs.c:51-53 | the base is "/" or the current directory; it is "/" for a NULL cwd or an absolute name; it is canonical when the current directory is |
| Paths.SegmentsWellFormed | src/vfs.c:65-81 | every name segment handed to the copy is non-empty, holds no '/', and is neither "." nor ".." |
| Paths.ApplyBound | src/vfs.c:58-82 | while the rest of the name is applied, the buffer grows by at most the characters read, plus one separator the buffer may still lack |
| Paths.CapacityBound | src/vfs.c:54-83 | the resolved path is at most strlen(base) + strlen(name) + 1 long, so it and its NUL fit the allocation |
| Paths.AbsoluteIgnoresCwd | src/vfs.c:51-53 | a name starting with '/' resolves the same in every session, as from the root |
| Paths.RelativeUsesCwd | src/vfs.c:51-53 | any other name is resolved from the current directory, or from "/" when there is none |
| Paths.EmptyNameKeepsBase | src/vfs.c:57-62 | an empty name gives back an unchanged copy of the base |
| Paths.WithSeparatorCanonical | src/vfs.c:63-64 | adding the separator keeps a canonical buffer canonical, and it then ends with '/' |
| Paths.ParentCanonical | src/vfs.c:70-74 | the ".." rewind of a canonical buffer ending with '/' is canonical and still ends with '/' |
| Paths.AppendCanonical | src/vfs.c:78-81 | copying a valid name, with or without its '/', after a canonical buffer ending in '/' keeps it canonical |
| Paths.StepCanonical | src/vfs.c:63-81 | each move of the scan keeps a canonical buffer canonical |
| Paths.ApplyCanonical | src/vfs.c:58-82 | applying well-formed segments to a canonical base gives a canonical path |
| Paths.NormalForm | src/vfs.c:51-82 | resolving any name against "/" or a canonical directory gives an absolute path with no "//", "." or ".." segment |
| Paths.CanonicalCleanFrom | src/vfs.c:58-82 | after each '/' of a canonical path, the rest is a sequence of proper names, each followed by one '/' or by the end |
| Paths.CleanFromFixed | src/vfs.c:58-82 | applying such a rest to a buffer ending with '/' appends exactly that rest |
| Paths.CanonicalFixedPoint | src/vfs.c:51-82 | a canonical path resolves to itself in every session |
| Paths.ResolveIdempotent | src/vfs.c:51-82 | a path resolved in a valid session resolves to itself again, in any session |
| Resolver.MakeAbsolutePath | src/vfs.c:47-85 | NULL exactly when the allocation fails; otherwise the resolved path; every write stays inside the buffer |
| Resolver.ScanSegment | src/vfs.c:63-81 | one turn of the loop from a non-'/' character: the path still to be built is unchanged, and the capacity bound is kept |
| Resolver.SkipSeparators | src/vfs.c:59-60 | stops at the first character that is not '/', or at the end, and the segments to come are the same |
| Resolver.AddSeparator | src/vfs.c:63-64 | the buffer is extended by one '/' exactly when it is empty or does not end with '/' |
| Resolver.PopSegment | src/vfs.c:70-74 | the write index goes back to the parent of the buffer and never grows |
| Resolver.CopySegment | src/vfs.c:78-81 | appends the run of non-'/' characters and, when the name continues, one '/'; the read index ends at the run's end |
| PathLaws.DotDotPops | src/vfs.c:68-76 | ".." after a name, with or without its trailing '/', removes exactly that name and leaves the prefix before it |
| PathLaws.DotDotAtRoot | src/vfs.c:70 | at the root, or on an empty buffer, ".." leaves "/" |
| PathLaws.BackToSlashName | src/vfs.c:72-73 | backing up over a name with no '/' stops right after the '/' before it |
| PathLaws.SegmentsShift | src/vfs.c:58-82 | the segments of a name do not depend on what precedes the scan's position |
| PathLaws.SlashSegments | src/vfs.c:59-60 | a leading '/' produces no segment |
| PathLaws.DotSegments | src/vfs.c:65-67 | a leading "./" produces one "." segment |
| PathLaws.UpSegments | src/vfs.c:68-76 | a leading "../" produces one ".." segment |
| PathLaws.NameSegments | src/vfs.c:78-81 | a leading valid name followed by '/' produces one name segment that carries its '/' |
| PathLaws.LastNameSegments | src/vfs.c:78-81 | a valid name alone produces one name segment without a '/' |
| PathLaws.RootAbsorbs | src/vfs.c:68-76 | from the root, any number of leading "../" is absorbed |
| PathLaws.RootRelative | src/vfs.c:51-60 | from the root, a relative name resolves like the same name with a leading '/' |
| PathLaws.UpsThenName | src/vfs.c:68-81 | from the root, k copies of "../" then a name x give "/x", for every k |
| PathLaws.LastSegmentSlash | src/vfs.c:78-81 | the last segment of a name carries a '/' exactly when the name ends in '/' |
| PathLaws.TrailingSlashKept | src/vfs.c:78-81 | when the name ends in an ordinary segment, the result ends in '/' if and only if the name does |
| PathLaws.DotLastEndsWithSlash | src/vfs.c:63-77 | when the name ends in "." or "..", the result ends in '/' whether or not the name does |
| PathLaws.DotAddsSeparator | src/vfs.c:63-67 | "." resolves to the directory with a '/' added, so a directory without a trailing '/' is not its own "." |
| Scenarios.CollapseSeparators | src/vfs.c:58-82 | "//a///b//" resolves to "/a/b/" for any names a, b |
| Scenarios.DropDots | src/vfs.c:58-82 | "/a/./b/./c" resolves to "/a/b/c" for any names a, b, c |
| Scenarios.TwoNames | src/vfs.c:58-82 | "/a/b" resolves to itself for any names a, b |
| Scenarios.DotNamesAreNames | src/vfs.c:65-81 | "..." and ".x" are copied as names: "/.../.x" resolves to itself |
| Scenarios.DotInDirectory | src/vfs.c:63-67 | in "/a", "." resolves to "/a/" |
| Scenarios.DotDotInDirectory | src/vfs.c:63-76 | in d + x, ".." resolves to d; for example "/a/b" gives "/a/" |
| Scenarios.DotDotPastRoot | src/vfs.c:68-81 | in "/a/b", "../../../c" resolves to "/c" for any names a, b, c |
| Scenarios.SiblingDirectory | src/vfs.c:68-81 | in "/u/l", "../b/f" resolves to "/u/b/f" for any names |
| Scenarios.UsrLib | src/vfs.c:47-85 | "/usr/lib" resolves to itself, and "../bin/ls" in it to "/usr/bin/ls" |
| Scenarios.ChdirThenResolve | src/vfs.c:181-194 | a fresh session changes to "/usr/lib", then "../bin/ls" resolves to "/usr/bin/ls" |
| Scenarios.GetcwdTruncates | src/vfs.c:202-207 | getcwd of "/usr/lib" into 3 characters stores "/u" and a NUL |
| PathLaws.SegmentsAvoid | src/vfs.c:59-81 | a character absent from the name is absent from every name segment of it |
| PathLaws.ApplyAvoids | src/vfs.c:58-82 | the scan writes only '/' and characters of the base and of the segments, so a character other than '/' absent from both stays absent |
| PathLaws.ResolveAvoids | src/vfs.c:47-85 | resolving a NUL-free name against a NUL-free directory gives a NUL-free path, so the stored C string ends at its terminator |
| Vfs.WriteMode | src/vfs.c:136 | the mode asks for writing exactly when some character of it is 'w' |
| Vfs.Written | src/vfs.c:202-210 | getcwd stores min(strlen + 1, size) characters: a prefix of the directory, then a NUL whenever size > 0 |
| Vfs.WrittenReadsBack | src/vfs.c:202-210 | read back as a C string, the buffer holds the longest prefix of the directory that fits before the NUL |
| Vfs.Session.constructor | src/vfs.c:236-243 | a new session is valid and has no current directory |
| Vfs.Session.CwdText | src/vfs.c:200-201 | a NULL current directory reads as "/", any other as the stored string; in a valid session it holds no NUL |
| Vfs.Session.Chdir | src/vfs.c:181-194 | on success returns 0, and cwd is the resolved path, with no existence check; on allocation failure returns -ENOMEM and cwd is unchanged; the session stays valid, its directory canonical and NUL-free |
| Vfs.Session.GetcwdInto | src/vfs.c:196-210 | stores exactly Written(cwd, size) at the front of the caller's buffer and nothing after it |
| Vfs.Session.GetcwdDup | src/vfs.c:211-212 | with no buffer, returns a copy of the current directory, or NULL when the copy cannot be allocated |
| Vfs.Session.Stat | src/vfs.c:87-99 | -ENOMEM when the path cannot be built; -ENOENT when no provider owns it; otherwise the provider's stat of its part of the path |
| Vfs.Session.Open | src/vfs.c:134-147 | NULL when the path cannot be built or has no provider; otherwise the provider's open of its part, with the write flag from the mode |
| Vfs.Session.Opendir | src/vfs.c:110-123 | NULL when the path cannot be built or has no provider; otherwise the provider's opendir of its part |
| Vfs.Session.Rename | src/vfs.c:216-219 | always -ENOSYS; the session is not modified |
| Vfs.Session.Mkdir | src/vfs.c:221-224 | always -ENOSYS; the session is not modified |
| Vfs.Session.Rmdir | src/vfs.c:226-229 | always -ENOSYS; the session is not modified |
| Vfs.Session.Remove | src/vfs.c:231-234 | always -ENOSYS; the session is not modified |
| Vfs.WriteFile | src/vfs.c:158-161 | always -ENOSYS, whatever the file and data |
| Vfs.OpenFs | src/vfs.c:236-243 | NULL when the session cannot be allocated; otherwise a fresh valid session with no current directory |
| Vfs.CloseFs | src/vfs.c:245-254 | a NULL session is ignored; any other session is closed and can no longer be used |

## Behaviour of the code worth knowing

- **A resolved path keeps a trailing '/' from the input.** chdir("x/")
  stores "/x/". The separator also goes in before "." or ".." is recognised,
  so chdir(".") in "/a" stores "/a/". A stored current directory may
  therefore end with '/', and `Paths.Canonical` allows one trailing '/'.
  `PathLaws.TrailingSlashKept`, `PathLaws.DotLastEndsWithSlash` and
  `PathLaws.DotAddsSeparator` state the exact behaviour.
- **Resolving "." is not idempotent.** Resolving "." against a resolved
  path without a trailing '/' does not give that path back: it adds a '/'
  (`PathLaws.DotAddsSeparator`). What does hold is that re-resolving the
  resolved path itself changes nothing (`Paths.ResolveIdempotent`).
- **getcwd into 3 characters stores "/u".** For "/usr/lib" and a buffer of
  3 characters, the code copies the first size - 1 characters and a NUL
  (`Scenarios.GetcwdTruncates`).

## Left out

- The global semaphore is left out, because concurrency is not modelled.
  This covers `vfs_sema`, `vfs_lock`, `vfs_unlock` and `vfs_init`. Every
  call that resolves a path (`vfs_stat`, `vfs_opendir`, `vfs_open`,
  `vfs_chdir`) brackets the resolution and the provider call with
  lock/unlock, and so do `vfs_getcwd` and `vfs_closefs`. Each modelled
  method stands for one atomic call. `vfs_open` computes its write flag
  from the mode before it takes the lock; that flag depends on nothing
  shared. The `-ENOSYS` stubs take no lock.
- The provider layer (`vfsnode_*`) is code that is not part of this model.
  Its lookup and its stat, open and opendir are function parameters.
- The provider's `vfs_stat_t` output is left out. `Vfs.Session.Stat` returns
  only the provider's status.
- `vfs_read`, `vfs_eof`, `vfs_close`, `vfs_readdir` and `vfs_closedir` are
  left out. They only pass their arguments to the provider under the lock,
  so there is nothing of their own to state.
- `malloc`, `free`, `strdup` and `calloc` are reduced to an allocation
  outcome, the `allocOk` parameter.
  - Memory lifetimes are not modelled: releasing the old cwd, the path
    buffer or the session.
  - The identity of the buffer that `vfs_getcwd` returns is not modelled.
    Its two branches are the two methods `GetcwdInto` and `GetcwdDup`.
- `Vfs.CloseFs` records only that the session can no longer be used (its
  ghost `isOpen` becomes false). Freeing the session and its cwd is not
  modelled.
- `vfs_load_plugin` is left out: its body is empty.
- The C `int` write index and `size_t` lengths are unbounded integers here.
  Paths longer than `INT_MAX` are not considered.
- errno values are those of newlib: ENOENT 2, ENOMEM 12, ENOSYS 88. Only
  their distinctness matters to the model.
