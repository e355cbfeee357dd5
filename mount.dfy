/**
 * The path walk of src/sys/mount.c. The root file system and its root entry are the
 * state mount_root sets. open starts at the root for a path with a leading '/', at the
 * current process's working directory otherwise, and looks each '/'-separated component
 * up with vfs_find_entry_in in the directory the previous one named.
 *
 * Paths are the bytes of the C string before its NUL. Entries are offsets into the image,
 * and the working directory of the current process is a parameter: None when there is no
 * current process.
 */
module Mount {
  import opened CInt
  import opened Wrappers
  import opened Vfs

  const Slash: byte := 0x2F
  /** The size of open's token buffer, char token[257]. */
  const TokenSize := 257

  /** strchr(path, '/'): the index of the first slash, if any. */
  function FirstSlash(p: seq<byte>): (r: Option<nat>)
    ensures r.Some? ==> r.value < |p| && p[r.value] == Slash && Slash !in p[..r.value]
    ensures r.None? <==> Slash !in p
    decreases |p|
  {
    if |p| == 0 then None
    else if p[0] == Slash then Some(0)
    else match FirstSlash(p[1..])
      case None => None
      case Some(i) =>
        assert p[..i + 1] == [p[0]] + p[1..][..i];
        Some(i + 1)
  }

  /** The first slash is the one at i when there is none before it. */
  lemma FirstSlashAt(p: seq<byte>, i: nat)
    requires i < |p| && p[i] == Slash && Slash !in p[..i]
    ensures FirstSlash(p) == Some(i)
  {
    assert Slash in p;
  }

  /**
   * The loop of open from parent on: the text before the first slash is looked up, and the
   * walk goes on after the slash from what was found; the text after the last slash is
   * looked up and that result is the result.
   */
  function Walk(data: seq<byte>, parent: nat, path: seq<byte>, fuel: nat): (r: Lookup)
    ensures Slash !in path ==> r == FindIn(data, parent, path, fuel)
    decreases |path|
  {
    match FirstSlash(path)
    case None => FindIn(data, parent, path, fuel)
    case Some(i) =>
      match FindIn(data, parent, path[..i], fuel)
      case Found(next) => Walk(data, next, path[i + 1..], fuel)
      case Missing => Missing
      case Stuck => Stuck
  }

  /** One turn of the loop of open, for a walk that is not stuck. */
  lemma WalkStep(data: seq<byte>, parent: nat, path: seq<byte>, fuel: nat)
    requires Walk(data, parent, path, fuel) != Stuck
    ensures FirstSlash(path).None? ==> Walk(data, parent, path, fuel) == FindIn(data, parent, path, fuel)
    ensures FirstSlash(path).Some? ==>
      var i := FirstSlash(path).value;
      && FindIn(data, parent, path[..i], fuel) != Stuck
      && (FindIn(data, parent, path[..i], fuel) == Missing ==> Walk(data, parent, path, fuel) == Missing)
      && (FindIn(data, parent, path[..i], fuel).Found? ==>
            Walk(data, parent, path, fuel) == Walk(data, FindIn(data, parent, path[..i], fuel).at, path[i + 1..], fuel))
  {
  }

  /** Whether a path starts at the root: its first byte is '/'. */
  predicate Absolute(path: seq<byte>)
  {
    |path| > 0 && path[0] == Slash
  }

  /** open: the walk from the root after the leading '/', or from the working directory; Missing without a process. */
  function Opened(data: seq<byte>, root: nat, cwd: Option<nat>, path: seq<byte>, fuel: nat): (r: Lookup)
    ensures Absolute(path) ==> r == Walk(data, root, path[1..], fuel)
    ensures !Absolute(path) && cwd.None? ==> r == Missing
    ensures !Absolute(path) && cwd.Some? ==> r == Walk(data, cwd.value, path, fuel)
  {
    if Absolute(path) then Walk(data, root, path[1..], fuel)
    else if cwd.None? then Missing
    else Walk(data, cwd.value, path, fuel)
  }

  /** The components of a path: the texts between its slashes, empty ones included. */
  function Components(path: seq<byte>): (cs: seq<seq<byte>>)
    ensures |cs| >= 1
    ensures forall k :: 0 <= k < |cs| ==> Slash !in cs[k]
    decreases |path|
  {
    match FirstSlash(path)
    case None => [path]
    case Some(i) => [path[..i]] + Components(path[i + 1..])
  }

  /** The components joined back with a slash between each two. */
  function Joined(cs: seq<seq<byte>>): (p: seq<byte>)
    requires |cs| >= 1
  {
    if |cs| == 1 then cs[0] else cs[0] + [Slash] + Joined(cs[1..])
  }

  /** Splitting a path at its slashes loses nothing: joining the components gives the path back. */
  lemma {:induction false} ComponentsJoined(path: seq<byte>)
    ensures Joined(Components(path)) == path
    decreases |path|
  {
    match FirstSlash(path)
    case None =>
    case Some(i) =>
      var cs := Components(path);
      ComponentsJoined(path[i + 1..]);
      assert cs[1..] == Components(path[i + 1..]);
      assert path == path[..i] + [Slash] + path[i + 1..];
  }

  /** Joining components without slashes and splitting again gives the same components. */
  lemma {:induction false} JoinedComponents(cs: seq<seq<byte>>)
    requires |cs| >= 1 && forall k :: 0 <= k < |cs| ==> Slash !in cs[k]
    ensures Components(Joined(cs)) == cs
    decreases |cs|
  {
    if |cs| > 1 {
      var p := Joined(cs);
      var rest := Joined(cs[1..]);
      assert p == cs[0] + [Slash] + rest;
      assert p[..|cs[0]|] == cs[0];
      assert p[|cs[0]|] == Slash;
      FirstSlashAt(p, |cs[0]|);
      assert p[|cs[0]| + 1..] == rest;
      JoinedComponents(cs[1..]);
    }
  }

  /** A reference walk: the components looked up one after another, each in what the previous one found. */
  function Resolve(data: seq<byte>, parent: nat, cs: seq<seq<byte>>, fuel: nat): (r: Lookup)
    requires |cs| >= 1
    decreases |cs|
  {
    if |cs| == 1 then FindIn(data, parent, cs[0], fuel)
    else match FindIn(data, parent, cs[0], fuel)
      case Found(next) => Resolve(data, next, cs[1..], fuel)
      case Missing => Missing
      case Stuck => Stuck
  }

  /** The walk of open is the component-by-component lookup of the path's components. */
  lemma {:induction false} WalkResolves(data: seq<byte>, parent: nat, path: seq<byte>, fuel: nat)
    ensures Walk(data, parent, path, fuel) == Resolve(data, parent, Components(path), fuel)
    decreases |path|
  {
    match FirstSlash(path)
    case None =>
    case Some(i) =>
      var cs := Components(path);
      assert cs[0] == path[..i] && cs[1..] == Components(path[i + 1..]);
      match FindIn(data, parent, path[..i], fuel)
      case Found(next) =>
        WalkResolves(data, next, path[i + 1..], fuel);
      case Missing =>
      case Stuck =>
  }

  /** Once the first k+1 components end in nothing found, so does the whole walk: a missing intermediate gives nothing. */
  lemma {:induction false} ResolveStopsAtMissing(data: seq<byte>, parent: nat, cs: seq<seq<byte>>, fuel: nat, k: nat)
    requires k + 1 < |cs|
    requires Resolve(data, parent, cs[..k + 1], fuel) == Missing
    ensures Resolve(data, parent, cs, fuel) == Missing
    decreases k
  {
    if k > 0 {
      var prefix := cs[..k + 1];
      assert prefix[0] == cs[0] && prefix[1..] == cs[1..][..k];
      match FindIn(data, parent, cs[0], fuel)
      case Found(next) =>
        ResolveStopsAtMissing(data, next, cs[1..], fuel, k - 1);
      case Missing =>
      case Stuck =>
    }
  }

  /** An entry name holds at most the 256 bytes of name[256]. */
  lemma FoundNameWidth(data: seq<byte>, parent: nat, name: seq<byte>, fuel: nat)
    requires FindIn(data, parent, name, fuel).Found?
    ensures |name| <= TokenSize - 1
  {
  }

  /**
   * With the component taken whole, a component longer than any entry name is never found,
   * so a path whose first component has 257 bytes or more before a slash opens nothing.
   */
  lemma LongComponentNotFound(data: seq<byte>, parent: nat, path: seq<byte>, fuel: nat)
    requires FirstSlash(path).Some? && FirstSlash(path).value >= TokenSize
    ensures !Walk(data, parent, path, fuel).Found?
  {
    var i := FirstSlash(path).value;
    if FindIn(data, parent, path[..i], fuel).Found? {
      FoundNameWidth(data, parent, path[..i], fuel);
    }
  }

  /**
   * The copy of a component into char token[257] as open writes it: memcpy copies the
   * `len` bytes before the slash and the terminator goes to token[len], whatever len is.
   * `fits` is false when a write would land outside token; the model stops there, with
   * the bytes that fit copied.
   */
  method CopyTokenAsWritten(path: seq<byte>, len: nat, token: array<byte>) returns (fits: bool)
    requires len <= |path| && token.Length == TokenSize
    modifies token
    ensures fits <==> len < TokenSize
    ensures fits ==> token[..len + 1] == path[..len] + [0]
    ensures !fits ==> token[..] == path[..TokenSize]
  {
    var k := 0;
    while k < len && k < token.Length
      invariant k <= len && k <= token.Length
      invariant token[..k] == path[..k]
    {
      token[k] := path[k];
      k := k + 1;
    }
    if len >= token.Length {
      return false;
    }
    token[len] := 0;
    return true;
  }

  /**
   * Every path whose first component has 257 bytes or more before a slash puts the
   * slash at index 257 or later, so the copy into token overflows it: "aaa…a/b" with
   * 257 a's writes the terminator to token[257].
   */
  lemma LongComponentOverflows(component: seq<byte>, rest: seq<byte>)
    requires Slash !in component && |component| >= TokenSize
    ensures FirstSlash(component + [Slash] + rest) == Some(|component|)
    ensures |component| <= |component + [Slash] + rest|
  {
    var path := component + [Slash] + rest;
    assert path[..|component|] == component;
    FirstSlashAt(path, |component|);
  }

  /** The walk of "/" is the lookup of the empty name in the root. */
  lemma OpenedSlash(data: seq<byte>, root: nat, cwd: Option<nat>, fuel: nat)
    ensures Opened(data, root, cwd, [Slash], fuel) == FindIn(data, root, [], fuel)
  {
    assert [Slash][1..] == [];
  }

  /** The mounted root: the file system image and its root entry, as mount_root sets them. */
  class Mounted {
    var fs: Filesystem
    var root: nat

    constructor(initial: Filesystem, rootEntry: nat)
      ensures fs == initial && root == rootEntry
    {
      fs := initial;
      root := rootEntry;
    }

    /** mount_root: both are replaced. */
    method MountRoot(rootFilesystem: Filesystem, newRoot: nat)
      modifies this
      ensures fs == rootFilesystem && root == newRoot
    {
      fs := rootFilesystem;
      root := newRoot;
    }

    /** get_root_fs and get_root_dir: what mount_root set last. */
    method GetRootFs() returns (r: Filesystem)
      ensures r == fs
    {
      r := fs;
    }

    method GetRootDir() returns (r: nat)
      ensures r == root
    {
      r := root;
    }

    /**
     * open: the path walk, one component per turn of the loop; the result is the entry
     * the last component names, or None when a component is not found.
     */
    method Open(path: seq<byte>, cwd: Option<nat>, ghost fuel: nat) returns (r: Option<nat>)
      requires Opened(fs.data, root, cwd, path, fuel) != Stuck
      ensures r == Pointer(Opened(fs.data, root, cwd, path, fuel))
    {
      var parent: nat;
      var rest: seq<byte>;
      if |path| > 0 && path[0] == Slash {
        parent, rest := root, path[1..];
      } else {
        if cwd.None? {
          return None;
        }
        parent, rest := cwd.value, path;
      }
      ghost var goal := Opened(fs.data, root, cwd, path, fuel);
      while true
        invariant Walk(fs.data, parent, rest, fuel) == goal
        decreases |rest|
      {
        WalkStep(fs.data, parent, rest, fuel);
        var tokenEnd := FirstSlash(rest);
        if tokenEnd.None? {
          r := FindEntryIn(fs, parent, rest, fuel);
          return;
        }
        var token := rest[..tokenEnd.value];
        var next := FindEntryIn(fs, parent, token, fuel);
        if next.None? {
          return None;
        }
        parent, rest := next.value, rest[tokenEnd.value + 1..];
      }
    }
  }
}
