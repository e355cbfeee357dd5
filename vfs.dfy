/**
 * The read-only file system image of mishavfs/vfs.c. The image is a byte sequence: a
 * packed header, then entries of 275 bytes found by their offsets in the image. A
 * directory's target_entry is its first child and each entry's next_entry its next
 * sibling (0 ends the list); a link's target_entry is the entry it stands for.
 *
 * The C code follows offsets without bounds checks and loops forever on a cycle. Here a
 * walk that leaves the image, or takes more than `fuel` steps, is Stuck, and the methods
 * that mirror the C loops require that their walk is not Stuck.
 */
module Vfs {
  import opened CInt
  import opened Wrappers

  const Signature := 0xF3F5
  const TypeFile := 0
  const TypeDirectory := 1
  const TypeLink := 2

  /** sizeof(vfs_header_t): signature, version, label[16], size and root_entry, packed. */
  const HeaderSize := 27
  /** sizeof(vfs_entry_t): zero, name[256], offset, type, reserved, next, target and size, packed. */
  const EntrySize := 275
  /** sizeof(vfs_filesystem_t) on i386: the packed header, padding, then the 4-byte data pointer. */
  const FilesystemSize := 32

  datatype Header = Header(signature: u16, version: byte, volumeLabel: seq<byte>, size: u32, rootEntry: u32)

  /** vfs_filesystem_t: the header copied out of the image, and the image itself. */
  datatype Filesystem = Filesystem(header: Header, data: seq<byte>)

  /** The header at the start of an image, fields little-endian. */
  function HeaderOf(data: seq<byte>): (h: Header)
    requires |data| >= HeaderSize
    ensures |h.volumeLabel| == 16
  {
    Header(LE16(data, 0), data[2], data[3..19], LE32(data, 19), LE32(data, 23))
  }

  /**
   * vfs_read_filesystem: *fs always gets the image and its header; the pointer is returned
   * (ok) only for signature 0xF3F5, version 1 and a size of at least sizeof(vfs_filesystem_t).
   */
  function ReadFilesystem(data: seq<byte>): (r: (Filesystem, bool))
    requires |data| >= HeaderSize
    ensures r.0.data == data && r.0.header.rootEntry == LE32(data, 23)
    ensures r.1 <==> LE16(data, 0) == Signature && data[2] == 1 && LE32(data, 19) >= FilesystemSize
  {
    var h := HeaderOf(data);
    (Filesystem(h, data), h.signature == Signature && h.version == 1 && h.size >= FilesystemSize)
  }

  /** The bytes before the first 0, or all of them. */
  function UntilNul(b: seq<byte>): (n: seq<byte>)
    ensures |n| <= |b| && n == b[..|n|] && 0 !in n
    ensures |n| < |b| ==> b[|n|] == 0
  {
    if |b| == 0 || b[0] == 0 then [] else [b[0]] + UntilNul(b[1..])
  }

  /** The fields of vfs_entry_t the code reads; the name is the C string in name[256], as bytes. */
  datatype Entry = Entry(name: seq<byte>, offset: nat, kind: byte, next: nat, target: nat, size: nat)

  /** Whether the 275 bytes of an entry at `at` lie inside the image. */
  predicate InImage(data: seq<byte>, at: int)
  {
    0 <= at && at + EntrySize <= |data|
  }

  /** The little-endian 32-bit field at i. */
  function Field32(b: seq<byte>, i: nat): (v: nat)
    requires i + 4 <= |b|
    ensures v < 0x1_0000_0000
  {
    b[i] as nat + 0x100 * b[i + 1] as nat + 0x1_0000 * b[i + 2] as nat + 0x100_0000 * b[i + 3] as nat
  }

  /** The fields of the entry at `at`: name at +1, offset at +257, type at +261, next at +263, target at +267, size at +271. */
  function Name(data: seq<byte>, at: nat): seq<byte>
    requires InImage(data, at)
  {
    UntilNul(data[at + 1..at + 257])
  }

  function Offset(data: seq<byte>, at: nat): nat
    requires InImage(data, at)
  {
    Field32(data, at + 257)
  }

  function Kind(data: seq<byte>, at: nat): byte
    requires InImage(data, at)
  {
    data[at + 261]
  }

  function Next(data: seq<byte>, at: nat): nat
    requires InImage(data, at)
  {
    Field32(data, at + 263)
  }

  function Target(data: seq<byte>, at: nat): nat
    requires InImage(data, at)
  {
    Field32(data, at + 267)
  }

  function Size(data: seq<byte>, at: nat): nat
    requires InImage(data, at)
  {
    Field32(data, at + 271)
  }

  /** vfs_get_entry: the entry at an offset, None when it does not lie inside the image. */
  function EntryAt(data: seq<byte>, at: int): (e: Option<Entry>)
    ensures e.Some? <==> InImage(data, at)
    ensures e.Some? ==> e.value.name == Name(data, at) && e.value.kind == Kind(data, at) && e.value.next == Next(data, at)
    ensures e.Some? ==> e.value.target == Target(data, at) && e.value.offset == Offset(data, at)
  {
    if !InImage(data, at) then None
    else Some(Entry(Name(data, at), Offset(data, at), Kind(data, at), Next(data, at), Target(data, at), Size(data, at)))
  }

  /** How a walk over the image ends: at an entry, with nothing found, or not at all. */
  datatype Lookup = Found(at: nat) | Missing | Stuck

  /** The pointer the C code returns: the entry, or 0. */
  function Pointer(l: Lookup): (r: Option<nat>)
    ensures r.Some? <==> l.Found?
  {
    if l.Found? then Some(l.at) else None
  }

  /** vfs_follow_link: one step, to the target of a link; any other entry is its own result. */
  function FollowLink(data: seq<byte>, at: nat): (r: nat)
    requires InImage(data, at)
    ensures Kind(data, at) != TypeLink ==> r == at
    ensures Kind(data, at) == TypeLink ==> r == Target(data, at)
  {
    var e := EntryAt(data, at).value;
    if e.kind == TypeLink then e.target else at
  }

  /** Where vfs_follow_links ends: the first entry that is not a link, within fuel link steps. */
  function Links(data: seq<byte>, at: nat, fuel: nat): (r: Lookup)
    ensures r != Missing
    ensures r.Found? ==> InImage(data, r.at) && Kind(data, r.at) != TypeLink
    decreases fuel
  {
    if !InImage(data, at) then Stuck
    else if Kind(data, at) != TypeLink then Found(at)
    else if fuel == 0 then Stuck
    else Links(data, Target(data, at), fuel - 1)
  }

  /** A link resolves to wherever its one-step target resolves; any other entry to itself. */
  lemma FollowLinkStep(data: seq<byte>, at: nat, fuel: nat)
    requires InImage(data, at)
    ensures Kind(data, at) == TypeLink ==> Links(data, at, fuel + 1) == Links(data, FollowLink(data, at), fuel)
    ensures Kind(data, at) != TypeLink ==> Links(data, at, fuel) == Found(at)
  {
  }

  /** More fuel does not change where a walk that ends goes. */
  lemma {:induction false} LinksFuel(data: seq<byte>, at: nat, fuel: nat, more: nat)
    requires Links(data, at, fuel) != Stuck && fuel <= more
    ensures Links(data, at, more) == Links(data, at, fuel)
    decreases fuel
  {
    if Kind(data, at) == TypeLink {
      LinksFuel(data, Target(data, at), fuel - 1, more - 1);
    }
  }

  /** Following the links of a resolved entry leaves it where it is. */
  lemma LinksResolved(data: seq<byte>, at: nat, fuel: nat)
    requires Links(data, at, fuel).Found?
    ensures Links(data, Links(data, at, fuel).at, 0) == Links(data, at, fuel)
  {
  }

  /** vfs_follow_links: the loop steps through target_entry while the entry is a link. */
  method FollowLinks(fs: Filesystem, at: nat, ghost fuel: nat) returns (r: nat)
    requires Links(fs.data, at, fuel) != Stuck
    ensures Links(fs.data, at, fuel) == Found(r)
  {
    r := at;
    ghost var f := fuel;
    while EntryAt(fs.data, r).value.kind == TypeLink
      invariant Links(fs.data, r, f) == Links(fs.data, at, fuel)
      decreases f
    {
      FollowLinkStep(fs.data, r, f - 1);
      r := EntryAt(fs.data, r).value.target;
      f := f - 1;
    }
  }

  /** The scan of vfs_find_entry_in from sibling cur on: the first entry named name. */
  function Search(data: seq<byte>, cur: nat, name: seq<byte>, fuel: nat): (r: Lookup)
    ensures r.Found? ==> InImage(data, r.at) && Name(data, r.at) == name
    decreases fuel
  {
    if cur == 0 then Missing
    else if fuel == 0 || !InImage(data, cur) then Stuck
    else if Name(data, cur) == name then Found(cur)
    else Search(data, Next(data, cur), name, fuel - 1)
  }

  /** Passing over a sibling with another name moves the scan to the next one. */
  lemma SearchStep(data: seq<byte>, cur: nat, name: seq<byte>, fuel: nat)
    requires cur != 0 && fuel > 0 && InImage(data, cur) && Name(data, cur) != name
    ensures Search(data, cur, name, fuel) == Search(data, Next(data, cur), name, fuel - 1)
  {
  }

  /** The same step in the terms of vfs_get_entry, for a scan not yet stuck. */
  lemma ScanStep(data: seq<byte>, cur: nat, name: seq<byte>, fuel: nat)
    requires cur != 0 && Search(data, cur, name, fuel) != Stuck
    ensures InImage(data, cur) && fuel > 0
    ensures EntryAt(data, cur).value.name != name ==>
      Search(data, cur, name, fuel) == Search(data, EntryAt(data, cur).value.next, name, fuel - 1)
    ensures EntryAt(data, cur).value.name == name ==> Search(data, cur, name, fuel) == Found(cur)
  {
  }

  /** The sibling list from cur on, when it ends (next_entry 0) within fuel entries inside the image. */
  function Siblings(data: seq<byte>, cur: nat, fuel: nat): (s: Option<seq<nat>>)
    ensures s.Some? ==> forall k :: 0 <= k < |s.value| ==> InImage(data, s.value[k])
    decreases fuel
  {
    if cur == 0 then Some([])
    else if fuel == 0 || !InImage(data, cur) then None
    else match Siblings(data, Next(data, cur), fuel - 1)
      case None => None
      case Some(rest) => Some([cur] + rest)
  }

  /** No sibling in s is named name. */
  predicate NoneNamed(data: seq<byte>, s: seq<nat>, name: seq<byte>)
    requires forall k :: 0 <= k < |s| ==> InImage(data, s[k])
  {
    forall k :: 0 <= k < |s| ==> Name(data, s[k]) != name
  }

  /** Over a sibling list that ends, the scan does not get stuck and misses exactly when no sibling has the name. */
  lemma {:induction false} SearchMisses(data: seq<byte>, cur: nat, name: seq<byte>, fuel: nat)
    requires Siblings(data, cur, fuel).Some?
    ensures Search(data, cur, name, fuel) != Stuck
    ensures Search(data, cur, name, fuel) == Missing <==> NoneNamed(data, Siblings(data, cur, fuel).value, name)
    decreases fuel
  {
    if cur != 0 {
      var s := Siblings(data, cur, fuel).value;
      var rest := Siblings(data, Next(data, cur), fuel - 1).value;
      assert s == [cur] + rest;
      SearchMisses(data, Next(data, cur), name, fuel - 1);
      if NoneNamed(data, rest, name) && Name(data, cur) != name {
        assert NoneNamed(data, s, name) by {
          forall k | 0 <= k < |s| ensures Name(data, s[k]) != name {
            if k > 0 {
              assert s[k] == rest[k - 1];
            }
          }
        }
      }
      if NoneNamed(data, s, name) {
        assert Name(data, s[0]) != name;
        assert NoneNamed(data, rest, name) by {
          forall k | 0 <= k < |rest| ensures Name(data, rest[k]) != name {
            assert rest[k] == s[k + 1];
          }
        }
      }
    }
  }

  /** What the scan finds is a sibling, and no sibling before it has the name. */
  lemma {:induction false} SearchFindsFirst(data: seq<byte>, cur: nat, name: seq<byte>, fuel: nat)
    requires Siblings(data, cur, fuel).Some? && Search(data, cur, name, fuel).Found?
    ensures exists k :: (0 <= k < |Siblings(data, cur, fuel).value| &&
      Siblings(data, cur, fuel).value[k] == Search(data, cur, name, fuel).at &&
      NoneNamed(data, Siblings(data, cur, fuel).value[..k], name))
    decreases fuel
  {
    var s := Siblings(data, cur, fuel).value;
    var rest := Siblings(data, Next(data, cur), fuel - 1).value;
    assert s == [cur] + rest;
    if Name(data, cur) == name {
      assert s[0] == cur && s[..0] == [];
    } else {
      SearchStep(data, cur, name, fuel);
      SearchFindsFirst(data, Next(data, cur), name, fuel - 1);
      var k :| 0 <= k < |rest| && rest[k] == Search(data, cur, name, fuel).at && NoneNamed(data, rest[..k], name);
      assert s[k + 1] == rest[k];
      assert s[..k + 1] == [cur] + rest[..k];
      var before := s[..k + 1];
      assert NoneNamed(data, before, name) by {
        forall j | 0 <= j < k + 1 ensures Name(data, before[j]) != name {
          if j > 0 {
            assert before[j] == rest[..k][j - 1];
          }
        }
      }
    }
  }

  /**
   * vfs_find_entry_in: links are followed first; an entry that is not a directory, or a
   * directory without children, has nothing in it; otherwise the siblings are scanned.
   */
  function FindIn(data: seq<byte>, at: nat, name: seq<byte>, fuel: nat): (r: Lookup)
    ensures Links(data, at, fuel) == Stuck ==> r == Stuck
    ensures r.Found? ==> InImage(data, r.at) && Name(data, r.at) == name
  {
    match Links(data, at, fuel)
    case Found(d) =>
      if Kind(data, d) != TypeDirectory || Target(data, d) == 0 then Missing else Search(data, Target(data, d), name, fuel)
    case _ => Stuck
  }

  /** The entry a directory (or a link to one) holds is found among its children exactly when one has the name. */
  lemma FindInChildren(data: seq<byte>, at: nat, name: seq<byte>, fuel: nat)
    requires Links(data, at, fuel).Found?
    requires var d := Links(data, at, fuel).at; Kind(data, d) == TypeDirectory && Siblings(data, Target(data, d), fuel).Some?
    ensures var d := Links(data, at, fuel).at;
      && FindIn(data, at, name, fuel) != Stuck
      && (FindIn(data, at, name, fuel) == Missing <==> NoneNamed(data, Siblings(data, Target(data, d), fuel).value, name))
  {
    SearchMisses(data, Target(data, Links(data, at, fuel).at), name, fuel);
  }

  /** The loop of vfs_find_entry_in over next_entry, from the first child on. */
  method ScanSiblings(fs: Filesystem, first: nat, name: seq<byte>, ghost fuel: nat) returns (r: Option<nat>)
    requires Search(fs.data, first, name, fuel) != Stuck
    ensures r == Pointer(Search(fs.data, first, name, fuel))
  {
    var current := first;
    ghost var f := fuel;
    ghost var goal := Search(fs.data, first, name, fuel);
    while current != 0
      invariant Search(fs.data, current, name, f) == goal
      decreases f
    {
      var hit, next, rest := Visit(fs, current, name, f);
      if hit {
        return Some(current);
      }
      current, f := next, rest;
    }
    r := None;
  }

  /** One turn of that loop: the entry at current is read, and either it has the name or the scan moves to next_entry. */
  method Visit(fs: Filesystem, current: nat, name: seq<byte>, ghost f: nat) returns (hit: bool, next: nat, ghost rest: nat)
    requires current != 0 && Search(fs.data, current, name, f) != Stuck
    ensures rest < f
    ensures hit ==> Search(fs.data, current, name, f) == Found(current)
    ensures !hit ==> Search(fs.data, current, name, f) == Search(fs.data, next, name, rest)
  {
    rest := f - 1;
    ScanStep(fs.data, current, name, f);
    var entry := EntryAt(fs.data, current).value;
    hit, next := name == entry.name, entry.next;
  }

  /** vfs_find_entry_in: links followed, then the children of a directory scanned. */
  method FindEntryIn(fs: Filesystem, at: nat, name: seq<byte>, ghost fuel: nat) returns (r: Option<nat>)
    requires FindIn(fs.data, at, name, fuel) != Stuck
    ensures r == Pointer(FindIn(fs.data, at, name, fuel))
  {
    var dir := FollowLinks(fs, at, fuel);
    var e := EntryAt(fs.data, dir).value;
    if e.kind != TypeDirectory || e.target == 0 {
      return None;
    }
    r := ScanSiblings(fs, e.target, name, fuel);
  }

  /** vfs_find_entry: the lookup from the root entry the header names. */
  method FindEntry(fs: Filesystem, name: seq<byte>, ghost fuel: nat) returns (r: Option<nat>)
    requires FindIn(fs.data, fs.header.rootEntry, name, fuel) != Stuck
    ensures r == Pointer(FindIn(fs.data, fs.header.rootEntry, name, fuel))
  {
    r := FindEntryIn(fs, fs.header.rootEntry, name, fuel);
  }

  /** Where the content of the entry at e begins: its offset field plus the size of an entry. */
  function ContentAt(data: seq<byte>, e: nat): (p: nat)
    requires InImage(data, e)
    ensures p >= EntrySize && p - EntrySize == Offset(data, e)
  {
    EntryAt(data, e).value.offset + EntrySize
  }

  /** vfs_file_content: the content of the entry, after following its links when asked. */
  method FileContent(fs: Filesystem, at: nat, followLinks: bool, ghost fuel: nat) returns (p: nat)
    requires InImage(fs.data, at) && (followLinks ==> Links(fs.data, at, fuel) != Stuck)
    ensures !followLinks ==> p == ContentAt(fs.data, at)
    ensures followLinks ==> p == ContentAt(fs.data, Links(fs.data, at, fuel).at)
  {
    var e := at;
    if followLinks {
      e := FollowLinks(fs, at, fuel);
    }
    p := ContentAt(fs.data, e);
  }
}
