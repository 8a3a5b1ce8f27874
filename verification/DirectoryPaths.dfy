/** Canonical directory paths: finding the absolute path of a directory by walking up from it, and the cache
    of such paths. */
module DirectoryPaths {
  import opened Options

  datatype Entry = Entry(name: string, node: nat)

  datatype Inode = Directory(parent: nat, entries: seq<Entry>) | File

  datatype FileSystem = FileSystem(inodes: map<nat, Inode>, root: nat)

  datatype Error = NotFound | NotADirectory | BadValue

  datatype Result<T> = Ok(value: T) | Err(error: Error)

  predicate IsDirectory(fs: FileSystem, n: nat) {
    n in fs.inodes && fs.inodes[n].Directory?
  }

  function EntriesOf(fs: FileSystem, n: nat): seq<Entry> {
    if IsDirectory(fs, n) then fs.inodes[n].entries else []
  }

  // ----- resolving path strings -----

  predicate ProperName(name: string) {
    name != [] && '/' !in name && name != "." && name != ".."
  }

  function FindEntry(entries: seq<Entry>, name: string): Option<nat> {
    if entries == [] then None
    else if entries[0].name == name then Some(entries[0].node)
    else FindEntry(entries[1..], name)
  }

  /** One step of path resolution; there are no symbolic links here. */
  function LookUp(fs: FileSystem, n: nat, name: string): Option<nat> {
    if !IsDirectory(fs, n) then None
    else if name == "." then Some(n)
    else if name == ".." then Some(fs.inodes[n].parent)
    else FindEntry(fs.inodes[n].entries, name)
  }

  /** The length of the first component. */
  function ComponentEnd(s: string): (k: nat)
    ensures k <= |s| && (k < |s| ==> s[k] == '/')
  {
    if s == [] || s[0] == '/' then 0 else 1 + ComponentEnd(s[1..])
  }

  /** Follows a path from a node on; a slash behind a node that is no directory is an error. */
  function Follow(fs: FileSystem, n: nat, s: string): Option<nat>
    decreases |s|
  {
    if s == [] then Some(n)
    else if s[0] == '/' then
      if IsDirectory(fs, n) then Follow(fs, n, s[1..]) else None
    else
      var k := ComponentEnd(s);
      match LookUp(fs, n, s[..k])
      case None => None
      case Some(next) => Follow(fs, next, s[k..])
  }

  /** `stat`. */
  function Resolve(fs: FileSystem, cwd: nat, path: string): Option<nat> {
    if path == [] then None else Follow(fs, if path[0] == '/' then fs.root else cwd, path)
  }

  /** A path with a slash in it is followed to the slash, where there has to be a directory, and on from there. */
  lemma {:induction false} FollowSplits(fs: FileSystem, n: nat, a: string, b: string)
    ensures Follow(fs, n, a + ("/" + b)) ==
              match Follow(fs, n, a)
              case None => None
              case Some(m) => if IsDirectory(fs, m) then Follow(fs, m, b) else None
    decreases |a|
  {
    var s := a + ("/" + b);
    if a == [] {
      assert s == "/" + b && s[1..] == b;
    } else if a[0] == '/' {
      assert s[1..] == a[1..] + ("/" + b);
      FollowSplits(fs, n, a[1..], b);
    } else {
      var k := ComponentEnd(a);
      SameComponent(a, b);
      assert s[..k] == a[..k] && s[k..] == a[k..] + ("/" + b);
      var next := LookUp(fs, n, a[..k]);
      if next.Some? {
        FollowSplits(fs, next.value, a[k..], b);
      }
    }
  }

  lemma {:induction false} SameComponent(a: string, b: string)
    ensures ComponentEnd(a + ("/" + b)) == ComponentEnd(a)
  {
    if a == [] {
      assert a + ("/" + b) == "/" + b;
    } else {
      assert (a + ("/" + b))[1..] == a[1..] + ("/" + b);
      SameComponent(a[1..], b);
    }
  }

  // ----- directory trees -----

  /** Every directory but the root is entered under one name in its parent, and nowhere else; `depth` shows
      that going up leads to the root. */
  ghost predicate IsTree(fs: FileSystem, depth: map<nat, nat>) {
    && IsDirectory(fs, fs.root) && fs.inodes[fs.root].parent == fs.root
    && (forall n {:trigger fs.inodes[n].parent} :: IsDirectory(fs, n) ==>
      n in depth && IsDirectory(fs, fs.inodes[n].parent))
    && (forall n {:trigger fs.inodes[n].parent} :: IsDirectory(fs, n) && n != fs.root ==>
          fs.inodes[n].parent in depth && depth[fs.inodes[n].parent] < depth[n] && Entered(fs, n))
    && (forall n, i :: IsDirectory(fs, n) && 0 <= i < |fs.inodes[n].entries| ==>
          EntryFits(fs, n, fs.inodes[n].entries[i]))
    && (forall n, i, j :: IsDirectory(fs, n) && 0 <= i < j < |fs.inodes[n].entries| ==>
          fs.inodes[n].entries[i].name != fs.inodes[n].entries[j].name)
    && (forall n, i, j :: IsDirectory(fs, n) && 0 <= i < j < |fs.inodes[n].entries| ==>
          !IsDirectory(fs, fs.inodes[n].entries[i].node)
          || fs.inodes[n].entries[i].node != fs.inodes[n].entries[j].node)
  }

  /** The parent has an entry for the directory. */
  ghost predicate Entered(fs: FileSystem, n: nat)
    requires IsDirectory(fs, n) && IsDirectory(fs, fs.inodes[n].parent)
  {
    exists i :: 0 <= i < |EntriesOf(fs, fs.inodes[n].parent)| && EntriesOf(fs, fs.inodes[n].parent)[i].node == n
  }

  predicate EntryFits(fs: FileSystem, n: nat, e: Entry) {
    && ProperName(e.name) && e.node in fs.inodes
    && (fs.inodes[e.node].Directory? ==> fs.inodes[e.node].parent == n && e.node != fs.root)
  }

  // ----- the search for the entry of a directory -----

  /** What `readdir` lists: the entries, and `.` and `..`, in some order. */
  ghost predicate Listing(fs: FileSystem, n: nat, names: seq<string>) {
    && IsDirectory(fs, n)
    && (forall i :: 0 <= i < |fs.inodes[n].entries| ==> fs.inodes[n].entries[i].name in names)
    && (forall i :: 0 <= i < |names| ==>
          names[i] == "." || names[i] == ".." || FindEntry(fs.inodes[n].entries, names[i]).Some?)
  }

  lemma {:induction false} FindsNamed(entries: seq<Entry>, i: nat)
    requires i < |entries| && forall j, k :: 0 <= j < k < |entries| ==> entries[j].name != entries[k].name
    ensures FindEntry(entries, entries[i].name) == Some(entries[i].node)
  {
    if i > 0 {
      FindsNamed(entries[1..], i - 1);
    }
  }

  lemma {:induction false} FoundIsListed(entries: seq<Entry>, name: string) returns (i: nat)
    requires FindEntry(entries, name).Some?
    ensures i < |entries| && entries[i] == Entry(name, FindEntry(entries, name).value)
  {
    if entries[0].name == name {
      i := 0;
    } else {
      i := FoundIsListed(entries[1..], name);
      i := i + 1;
    }
  }

  // ----- the canonical path -----

  /** The place of a directory among the entries of its parent. */
  ghost function EntryOf(fs: FileSystem, depth: map<nat, nat>, n: nat): (e: Entry)
    requires IsTree(fs, depth) && IsDirectory(fs, n) && n != fs.root
    ensures e in EntriesOf(fs, fs.inodes[n].parent) && e.node == n
  {
    assert Entered(fs, n);
    var i :| 0 <= i < |EntriesOf(fs, fs.inodes[n].parent)| && EntriesOf(fs, fs.inodes[n].parent)[i].node == n;
    EntriesOf(fs, fs.inodes[n].parent)[i]
  }

  /** The names from the root down to a directory. */
  ghost function Names(fs: FileSystem, depth: map<nat, nat>, n: nat): seq<string>
    requires IsTree(fs, depth) && IsDirectory(fs, n)
    decreases depth[n]
  {
    if n == fs.root then [] else Names(fs, depth, fs.inodes[n].parent) + [EntryOf(fs, depth, n).name]
  }

  /** A path string from names: a lone slash for the root. */
  function Join(names: seq<string>): string {
    if names == [] then "/"
    else if |names| == 1 then "/" + names[0]
    else Join(names[..|names| - 1]) + "/" + names[|names| - 1]
  }

  ghost function CanonicalPath(fs: FileSystem, depth: map<nat, nat>, n: nat): string
    requires IsTree(fs, depth) && IsDirectory(fs, n)
  {
    Join(Names(fs, depth, n))
  }

  predicate ProperNames(names: seq<string>) {
    forall i :: 0 <= i < |names| ==> ProperName(names[i])
  }

  lemma {:induction false} ComponentIsName(name: string, rest: string)
    requires '/' !in name && (rest == [] || rest[0] == '/')
    ensures ComponentEnd(name + rest) == |name|
  {
    if name == [] {
      assert name + rest == rest;
    } else {
      assert (name + rest)[1..] == name[1..] + rest;
      ComponentIsName(name[1..], rest);
    }
  }

  lemma {:induction false} FollowName(fs: FileSystem, n: nat, name: string)
    requires '/' !in name && name != []
    ensures Follow(fs, n, name) == LookUp(fs, n, name)
  {
    assert name[0] in name && name + [] == name;
    ComponentIsName(name, []);
    assert name[..|name|] == name && name[|name|..] == [];
  }

  /** Appending a slash and a component to a path that leads somewhere goes one step on. */
  lemma {:induction false} FollowAppend(fs: FileSystem, n: nat, s: string, name: string)
    requires '/' !in name && name != []
    ensures Follow(fs, n, s + ("/" + name))
         == match Follow(fs, n, s) case None => None case Some(m) => LookUp(fs, m, name)
    decreases |s|
  {
    var text := s + ("/" + name);
    if s == [] {
      assert text == "/" + name && text[1..] == name;
      FollowName(fs, n, name);
    } else if s[0] == '/' {
      assert text[1..] == s[1..] + ("/" + name);
      FollowAppend(fs, n, s[1..], name);
    } else {
      var k := ComponentEnd(s);
      ComponentOfPrefix(s, "/" + name);
      assert text[..k] == s[..k] && text[k..] == s[k..] + ("/" + name);
      match LookUp(fs, n, s[..k]) {
        case None =>
        case Some(next) => FollowAppend(fs, next, s[k..], name);
      }
    }
  }

  lemma {:induction false} ComponentOfPrefix(s: string, t: string)
    requires t != [] && t[0] == '/'
    ensures ComponentEnd(s + t) == ComponentEnd(s)
  {
    if s == [] {
      assert s + t == t;
    } else if s[0] != '/' {
      assert (s + t)[1..] == s[1..] + t;
      ComponentOfPrefix(s[1..], t);
    }
  }

  /** Steps down along names only. */
  function Descend(fs: FileSystem, n: nat, names: seq<string>): Option<nat> {
    if names == [] then Some(n)
    else
      match Descend(fs, n, names[..|names| - 1])
      case None => None
      case Some(m) => LookUp(fs, m, names[|names| - 1])
  }

  /** Resolving a joined path is going down along its names. */
  lemma {:induction false} ResolveJoined(fs: FileSystem, cwd: nat, names: seq<string>)
    requires ProperNames(names) && IsDirectory(fs, fs.root)
    ensures Resolve(fs, cwd, Join(names)) == Descend(fs, fs.root, names) && Join(names)[0] == '/'
  {
    if names == [] {
      assert "/"[1..] == [];
    } else {
      var init, last := names[..|names| - 1], names[|names| - 1];
      if init == [] {
        FollowAppend(fs, fs.root, [], last);
        assert [] + ("/" + last) == Join(names);
      } else {
        ResolveJoined(fs, cwd, init);
        FollowAppend(fs, fs.root, Join(init), last);
        assert Join(init) + ("/" + last) == Join(names);
      }
    }
  }

  /** The canonical path leads to its directory, through proper names only. */
  lemma {:induction false} NamesLead(fs: FileSystem, depth: map<nat, nat>, n: nat)
    requires IsTree(fs, depth) && IsDirectory(fs, n)
    ensures ProperNames(Names(fs, depth, n)) && Descend(fs, fs.root, Names(fs, depth, n)) == Some(n)
    decreases depth[n]
  {
    if n != fs.root {
      var parent, e := fs.inodes[n].parent, EntryOf(fs, depth, n);
      var names := Names(fs, depth, n);
      NamesLead(fs, depth, parent);
      assert names[..|names| - 1] == Names(fs, depth, parent);
      EntryIsFound(fs, depth, n);
    }
  }

  /** And it is the only such path. */
  lemma {:induction false} NamesAreUnique(fs: FileSystem, depth: map<nat, nat>, names: seq<string>, n: nat)
    requires IsTree(fs, depth) && IsDirectory(fs, n) && ProperNames(names)
    requires Descend(fs, fs.root, names) == Some(n)
    ensures names == Names(fs, depth, n)
  {
    if names != [] {
      var init, last := names[..|names| - 1], names[|names| - 1];
      var parent := Descend(fs, fs.root, init).value;
      ChildOf(fs, depth, parent, last, n);
      NamesAreUnique(fs, depth, init, parent);
      assert names == init + [last];
    }
  }

  /** A directory found under a name is no root and has the directory it was found in as its parent. */
  lemma {:induction false} ChildOf(fs: FileSystem, depth: map<nat, nat>, parent: nat, name: string, n: nat)
    requires IsTree(fs, depth) && IsDirectory(fs, n) && ProperName(name) && LookUp(fs, parent, name) == Some(n)
    ensures n != fs.root && IsDirectory(fs, parent) && fs.inodes[n].parent == parent
    ensures Names(fs, depth, n) == Names(fs, depth, parent) + [name]
  {
    var entries := EntriesOf(fs, parent);
    var i := FoundIsListed(entries, name);
    assert EntryFits(fs, parent, entries[i]);
    OnlyEntry(fs, depth, n, name);
  }

  /** The canonical path resolves to its directory from anywhere, and no other joined path does. */
  lemma {:induction false} CanonicalPathIsTheOne(fs: FileSystem, depth: map<nat, nat>, n: nat, cwd: nat,
                                                 names: seq<string>)
    requires IsTree(fs, depth) && IsDirectory(fs, n) && ProperNames(names)
    ensures Resolve(fs, cwd, CanonicalPath(fs, depth, n)) == Some(n)
    ensures Resolve(fs, cwd, Join(names)) == Some(n) <==> Join(names) == CanonicalPath(fs, depth, n)
  {
    NamesLead(fs, depth, n);
    ResolveJoined(fs, cwd, Names(fs, depth, n));
    ResolveJoined(fs, cwd, names);
    if Descend(fs, fs.root, names) == Some(n) {
      NamesAreUnique(fs, depth, names, n);
    }
  }

  // ----- normalizing -----

  lemma {:induction false} UpResolves(fs: FileSystem, cwd: nat, path: string)
    requires path != []
    ensures Resolve(fs, cwd, path + "/..")
         == match Resolve(fs, cwd, path) case None => None case Some(n) => LookUp(fs, n, "..")
  {
    assert path + "/.." == path + ("/" + "..");
    FollowAppend(fs, if path[0] == '/' then fs.root else cwd, path, "..");
  }

  /** A listed name other than the dots leads to the node of its entry. */
  lemma {:induction false} NamedEntry(fs: FileSystem, cwd: nat, path: string, parent: nat, name: string)
    requires path != [] && Resolve(fs, cwd, path) == Some(parent) && IsDirectory(fs, parent)
    requires name != [] && '/' !in name && name != "." && name != ".."
    ensures Resolve(fs, cwd, path + "/" + name) == FindEntry(EntriesOf(fs, parent), name)
  {
    assert path + ("/" + name) == path + "/" + name;
    FollowAppend(fs, if path[0] == '/' then fs.root else cwd, path, name);
  }

  lemma {:induction false} ListedIsProper(fs: FileSystem, depth: map<nat, nat>, n: nat, name: string)
    requires IsTree(fs, depth) && IsDirectory(fs, n) && FindEntry(fs.inodes[n].entries, name).Some?
    ensures ProperName(name)
  {
    var i := FoundIsListed(fs.inodes[n].entries, name);
    assert EntryFits(fs, n, fs.inodes[n].entries[i]);
  }

  lemma {:induction false} EntryIsFound(fs: FileSystem, depth: map<nat, nat>, n: nat)
    requires IsTree(fs, depth) && IsDirectory(fs, n) && n != fs.root
    ensures var e := EntryOf(fs, depth, n);
            ProperName(e.name) && FindEntry(EntriesOf(fs, fs.inodes[n].parent), e.name) == Some(n)
  {
    var parent, e := fs.inodes[n].parent, EntryOf(fs, depth, n);
    var i :| 0 <= i < |EntriesOf(fs, parent)| && EntriesOf(fs, parent)[i] == e;
    assert EntryFits(fs, parent, EntriesOf(fs, parent)[i]);
    FindsNamed(EntriesOf(fs, parent), i);
  }

  /** No other name of the parent leads to the directory. */
  lemma {:induction false} OnlyEntry(fs: FileSystem, depth: map<nat, nat>, n: nat, name: string)
    requires IsTree(fs, depth) && IsDirectory(fs, n) && n != fs.root
    requires FindEntry(EntriesOf(fs, fs.inodes[n].parent), name) == Some(n)
    ensures EntryOf(fs, depth, n).name == name
  {
    var entries, e := EntriesOf(fs, fs.inodes[n].parent), EntryOf(fs, depth, n);
    var k := FoundIsListed(entries, name);
    var j :| 0 <= j < |entries| && entries[j] == e;
    assert entries[k].node == entries[j].node && IsDirectory(fs, entries[k].node);
  }

  /** `find_dir_entry`: the first listed name that leads to the node. */
  method FindDirEntry(fs: FileSystem, cwd: nat, path: string, ref: nat, names: seq<string>, ghost parent: nat,
                      ghost depth: map<nat, nat>)
    returns (name: Option<string>)
    requires IsTree(fs, depth) && path != [] && Resolve(fs, cwd, path) == Some(parent) && Listing(fs, parent, names)
    requires IsDirectory(fs, ref) && ref != fs.root && fs.inodes[ref].parent == parent
    ensures name == Some(EntryOf(fs, depth, ref).name)
  {
    ghost var e := EntryOf(fs, depth, ref);
    ghost var entries := EntriesOf(fs, parent);
    for i := 0 to |names|
      invariant e.name in names[i..]
    {
      if names[i] != "." && names[i] != ".." {
        ListedIsProper(fs, depth, parent, names[i]);
        NamedEntry(fs, cwd, path, parent, names[i]);
        if Resolve(fs, cwd, path + "/" + names[i]) == Some(ref) {
          OnlyEntry(fs, depth, ref, names[i]);
          return Some(names[i]);
        }
      }
      EntryIsFound(fs, depth, ref);
      assert names[i..] == [names[i]] + names[i + 1..];
    }
    name := None;
  }

  /** `normalize_dir_path` for a path that leads to the directory `ref`.  `readdir` yields, for every
      directory, the names it lists. */
  method NormalizeDirPath(fs: FileSystem, cwd: nat, path: string, ref: nat, readdir: map<nat, seq<string>>,
                          ghost depth: map<nat, nat>)
    returns (r: Result<string>)
    requires IsTree(fs, depth) && path != [] && Resolve(fs, cwd, path) == Some(ref)
    requires forall n :: IsDirectory(fs, n) ==> n in readdir && Listing(fs, n, readdir[n])
    ensures r == if IsDirectory(fs, ref) then Ok(CanonicalPath(fs, depth, ref)) else Err(NotADirectory)
    decreases if ref in depth then depth[ref] else 0
  {
    UpResolves(fs, cwd, path);
    var parent := Resolve(fs, cwd, path + "/..");
    if parent.None? {
      return Err(NotADirectory);
    }
    if parent.value == ref {
      return Ok("/");
    }
    var name := FindDirEntry(fs, cwd, path + "/..", ref, readdir[parent.value], parent.value, depth);
    if name.None? {
      return Err(NotFound);
    }
    r := NormalizeDirPath(fs, cwd, path + "/..", parent.value, readdir, depth);
    if r.Err? {
      return r;
    }
    ghost var names := Names(fs, depth, ref);
    assert names[..|names| - 1] == Names(fs, depth, parent.value);
    var normalizedPath := r.value;
    JoinLength(Names(fs, depth, parent.value), fs, depth, parent.value);
    if |normalizedPath| > 1 {
      normalizedPath := normalizedPath + "/";
    }
    r := Ok(normalizedPath + name.value);
  }

  lemma {:induction false} JoinLength(names: seq<string>, fs: FileSystem, depth: map<nat, nat>, n: nat)
    requires IsTree(fs, depth) && IsDirectory(fs, n) && names == Names(fs, depth, n)
    ensures |Join(names)| > 1 <==> names != []
  {
    NamesLead(fs, depth, n);
  }

  /** `normalize_dir_path` for a path alone. */
  method NormalizePath(fs: FileSystem, cwd: nat, path: string, readdir: map<nat, seq<string>>,
                       ghost depth: map<nat, nat>)
    returns (r: Result<string>)
    requires IsTree(fs, depth)
    requires forall n :: IsDirectory(fs, n) ==> n in readdir && Listing(fs, n, readdir[n])
    ensures var n := Resolve(fs, cwd, path);
            if n.Some? && IsDirectory(fs, n.value) then r == Ok(CanonicalPath(fs, depth, n.value)) else r.Err?
  {
    var n := Resolve(fs, cwd, path);
    if n.None? {
      return Err(NotFound);
    }
    r := NormalizeDirPath(fs, cwd, path, n.value, readdir, depth);
  }

  // ----- the cache -----

  /** What asking the cache for a directory comes to, in the file system as it is at that moment. */
  function CheckedPath(fs: FileSystem, cwd: nat, paths: map<nat, string>, ref: nat): Result<string> {
    if ref !in paths then Err(NotFound)
    else
      match Resolve(fs, cwd, paths[ref])
      case None => Err(NotFound)
      case Some(n) =>
        if n != ref then Err(NotFound)
        else if !IsDirectory(fs, n) then Err(NotADirectory)
        else Ok(paths[ref])
  }

  /** The cache after that: a path that does not check is dropped. */
  function Checked(fs: FileSystem, cwd: nat, paths: map<nat, string>, ref: nat): map<nat, string> {
    if CheckedPath(fs, cwd, paths, ref).Ok? then paths else paths - {ref}
  }

  /** The cache after a path has been added for a directory. */
  ghost function Added(fs: FileSystem, depth: map<nat, nat>, cwd: nat, paths: map<nat, string>, path: string, ref: nat)
    : map<nat, string>
    requires IsTree(fs, depth)
  {
    var n := Resolve(fs, cwd, path);
    if n.Some? && IsDirectory(fs, n.value) then paths[ref := CanonicalPath(fs, depth, n.value)] else paths
  }

  ghost predicate IsJoined(path: string) {
    exists names :: ProperNames(names) && path == Join(names)
  }

  /** Every cached path is a joined one. */
  ghost predicate AllJoined(paths: map<nat, string>) {
    forall ref :: ref in paths ==> IsJoined(paths[ref])
  }

  lemma {:induction false} AddedStaysJoined(fs: FileSystem, depth: map<nat, nat>, cwd: nat, paths: map<nat, string>,
                                            path: string, ref: nat)
    requires IsTree(fs, depth) && AllJoined(paths)
    ensures AllJoined(Added(fs, depth, cwd, paths, path, ref))
  {
    var n := Resolve(fs, cwd, path);
    if n.Some? && IsDirectory(fs, n.value) {
      NamesLead(fs, depth, n.value);
      assert IsJoined(CanonicalPath(fs, depth, n.value));
    }
  }

  class DirPathMap {
    var paths: map<nat, string>

    constructor ()
      ensures paths == map[] && AllJoined(paths)
    {
      paths := map[];
    }

    /** `get_path`. */
    method GetPath(fs: FileSystem, cwd: nat, ref: Option<nat>, name: Option<string>) returns (r: Result<string>)
      modifies this
      ensures AllJoined(old(paths)) ==> AllJoined(paths)
      ensures ref.None? && name.None? ==> r == Err(BadValue)
      ensures name.Some? && (ref.None? || (name.value != [] && name.value[0] == '/')) ==> r == Ok(name.value)
      ensures ref.Some? && !(name.Some? && name.value != [] && name.value[0] == '/') ==>
        && paths == Checked(fs, cwd, old(paths), ref.value)
        && r == (match CheckedPath(fs, cwd, old(paths), ref.value)
                 case Err(e) => Err(e)
                 case Ok(path) => Ok(if name.Some? then path + "/" + name.value else path))
      ensures ref.None? || (name.Some? && name.value != [] && name.value[0] == '/') ==> paths == old(paths)
    {
      if ref.None? && name.None? {
        return Err(BadValue);
      }
      if ref.None? || (name.Some? && name.value != [] && name.value[0] == '/') {
        return Ok(name.value);
      }
      if ref.value !in paths {
        assert paths - {ref.value} == paths;
        return Err(NotFound);
      }
      var path := paths[ref.value];
      var st := Resolve(fs, cwd, path);
      if st.None? || st.value != ref.value {
        paths := paths - {ref.value};
        return Err(NotFound);
      }
      if !IsDirectory(fs, st.value) {
        paths := paths - {ref.value};
        return Err(NotADirectory);
      }
      if name.Some? {
        path := path + "/" + name.value;
      }
      r := Ok(path);
    }

    /** `add_dir_path`. */
    method AddDirPath(fs: FileSystem, cwd: nat, path: string, ref: nat, readdir: map<nat, seq<string>>,
                      ghost depth: map<nat, nat>)
      requires IsTree(fs, depth)
      requires forall n :: IsDirectory(fs, n) ==> n in readdir && Listing(fs, n, readdir[n])
      modifies this
      ensures paths == Added(fs, depth, cwd, old(paths), path, ref)
      ensures AllJoined(old(paths)) ==> AllJoined(paths)
    {
      if AllJoined(paths) {
        AddedStaysJoined(fs, depth, cwd, paths, path, ref);
      }
      var normalizedPath := NormalizePath(fs, cwd, path, readdir, depth);
      if normalizedPath.Ok? {
        paths := paths[ref := normalizedPath.value];
      }
    }
  }

  // ----- runs -----

  /** An add or a get, with the file system as it is then: between any two of them it may change in any way. */
  datatype Event =
    | Add(fs: FileSystem, depth: map<nat, nat>, cwd: nat, path: string, ref: nat)
    | Get(fs: FileSystem, cwd: nat, ref: nat)

  /** Paths are added while the file system is a directory tree. */
  ghost predicate InTrees(events: seq<Event>) {
    forall i :: 0 <= i < |events| && events[i].Add? ==> IsTree(events[i].fs, events[i].depth)
  }

  /** The cache after some adds and gets. */
  ghost function After(events: seq<Event>): map<nat, string>
    requires InTrees(events)
  {
    if events == [] then map[]
    else
      var before, e := After(events[..|events| - 1]), events[|events| - 1];
      match e
      case Add(fs, depth, cwd, path, ref) => Added(fs, depth, cwd, before, path, ref)
      case Get(fs, cwd, ref) => Checked(fs, cwd, before, ref)
  }

  lemma {:induction false} CacheStaysJoined(events: seq<Event>)
    requires InTrees(events)
    ensures AllJoined(After(events))
  {
    if events != [] {
      var init, e := events[..|events| - 1], events[|events| - 1];
      CacheStaysJoined(init);
      if e.Add? {
        AddedStaysJoined(e.fs, e.depth, e.cwd, After(init), e.path, e.ref);
      }
    }
  }

  /** Whatever has been added, asked for, renamed, moved or deleted: in the tree as it is at last, the cache gives a
      path for a directory exactly if it has that directory's canonical path, and that is the path it gives. */
  lemma {:induction false} CachedPathIsCurrent(events: seq<Event>, fs: FileSystem, depth: map<nat, nat>, cwd: nat,
                                               ref: nat)
    requires InTrees(events) && IsTree(fs, depth)
    ensures var paths, r := After(events), CheckedPath(fs, cwd, After(events), ref);
            && (r.Ok? ==> IsDirectory(fs, ref) && r.value == CanonicalPath(fs, depth, ref))
            && (r.Ok? <==> ref in paths && IsDirectory(fs, ref) && paths[ref] == CanonicalPath(fs, depth, ref))
  {
    CacheStaysJoined(events);
    var paths := After(events);
    if ref in paths && IsDirectory(fs, ref) {
      var names :| ProperNames(names) && paths[ref] == Join(names);
      CanonicalPathIsTheOne(fs, depth, ref, cwd, names);
    }
  }

  /** After an add of any path that leads to the directory, the cache gives its canonical path; an add of a path that
      leads to none changes nothing, and no add changes the paths of other directories. */
  lemma {:induction false} AddedPathIsGiven(events: seq<Event>, fs: FileSystem, depth: map<nat, nat>, cwd: nat,
                                            path: string, ref: nat)
    requires InTrees(events) && IsTree(fs, depth)
    ensures InTrees(events + [Add(fs, depth, cwd, path, ref)])
    ensures var paths, after := After(events), After(events + [Add(fs, depth, cwd, path, ref)]);
            var n := Resolve(fs, cwd, path);
            && (n == Some(ref) && IsDirectory(fs, ref) ==>
                  CheckedPath(fs, cwd, after, ref) == Ok(CanonicalPath(fs, depth, ref)))
            && (n.None? || !IsDirectory(fs, n.value) ==> after == paths)
            && forall other :: other != ref ==>
                 (other in after <==> other in paths) && (other in paths ==> after[other] == paths[other])
  {
    var all := events + [Add(fs, depth, cwd, path, ref)];
    assert all[..|events|] == events && all[|events|] == Add(fs, depth, cwd, path, ref);
    assert forall i :: 0 <= i < |events| ==> all[i] == events[i];
    if Resolve(fs, cwd, path) == Some(ref) && IsDirectory(fs, ref) {
      CachedPathIsCurrent(all, fs, depth, cwd, ref);
    }
  }

  /** A get leaves the path of its directory in the cache exactly if it is right, and those of all others. */
  lemma {:induction false} StalePathIsDropped(events: seq<Event>, fs: FileSystem, depth: map<nat, nat>, cwd: nat,
                                              ref: nat)
    requires InTrees(events) && IsTree(fs, depth)
    ensures InTrees(events + [Get(fs, cwd, ref)])
    ensures var paths, after := After(events), After(events + [Get(fs, cwd, ref)]);
            && (ref in after <==> ref in paths && IsDirectory(fs, ref) && paths[ref] == CanonicalPath(fs, depth, ref))
            && (ref in after ==> after[ref] == paths[ref])
            && forall other :: other != ref ==>
                 (other in after <==> other in paths) && (other in paths ==> after[other] == paths[other])
  {
    CachedPathIsCurrent(events, fs, depth, cwd, ref);
    assert (events + [Get(fs, cwd, ref)])[..|events|] == events;
  }
}
