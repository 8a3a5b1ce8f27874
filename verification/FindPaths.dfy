/** The paths of a base directory in all installation locations, sized exactly beforehand and packed into one
    piece of memory. */
module FindPaths {
  import opened Options

  datatype Error = BadValue | EntryNotFound | BufferOverflow | Failed(code: int)

  datatype Result<T> = Ok(value: T) | Err(error: Error)

  datatype BaseDirectory =
    | InstallationLocation | AddOns | Apps | Bin | Boot | Cache | Data | Develop | DevelopLib | Documentation | Etc
    | Fonts | Headers | Lib | Log | MediaNodes | Packages | Preferences | Servers | Settings | Sounds | Spool
    | Translators | Var | ImagePath | PackagePath

  datatype Flags = Flags(createDirectory: bool, createParentDirectory: bool, existingOnly: bool,
                         userOnly: bool, systemOnly: bool)

  /** The host file system: the error of creating a directory, if any, and which entries exist. */
  datatype Host = Host(create: string -> Option<int>, hasEntry: string -> bool)

  /** Everything a search depends on: the installation locations, the relative path of the base directory in each
      location, and the architecture, none for the primary one. */
  datatype Query = Query(locations: seq<string>, relative: nat -> Option<string>, architecture: Option<string>,
                         subPath: Option<string>, flags: Flags, host: Host)

  const HOME_INDEX: nat := 1
  const SIZE_LIMIT: nat := 0x1_0000_0000_0000_0000

  /** `size_t` arithmetic. */
  function Wrapped(x: int): (r: nat)
    ensures r < SIZE_LIMIT
  {
    x % SIZE_LIMIT
  }

  /** `get_relative_directory_path`. */
  function RelativePath(location: nat, base: BaseDirectory): Option<string> {
    match base
    case InstallationLocation => Some("")
    case AddOns => Some("/add-ons%")
    case Apps => Some("/apps")
    case Bin => Some("/bin%")
    case Boot => Some("/boot")
    case Cache => Some("/cache")
    case Data => Some("/data")
    case Develop => Some("/develop")
    case DevelopLib => Some("/develop/lib%")
    case Documentation => Some("/documentation")
    case Etc => Some("/settings/etc")
    case Fonts => Some("/data/fonts")
    case Headers => Some("/develop/headers%")
    case Lib => Some("/lib%")
    case Log => Some("/log")
    case MediaNodes => Some("/add-ons%/media")
    case Packages => Some("/packages")
    case Preferences => Some("/preferences")
    case Servers => Some("/servers")
    case Settings => Some(if location == HOME_INDEX then "/settings/global" else "/settings")
    case Sounds => Some("/data/sounds")
    case Spool => Some("/var/spool")
    case Translators => Some("/add-ons%/Translators")
    case Var => Some("/var")
    case ImagePath => None
    case PackagePath => None
  }

  // ----- the paths a search is about -----

  predicate Considered(flags: Flags, i: nat) {
    (flags.userOnly ==> i == 0 || i == 1) && (flags.systemOnly ==> i == 2 || i == 3)
  }

  /** The place of the first placeholder, or the length of the text. */
  function Placeholder(s: string): (k: nat)
    ensures k <= |s| && (k < |s| ==> s[k] == '%')
  {
    if s == [] || s[0] == '%' then 0 else 1 + Placeholder(s[1..])
  }

  /** A relative path with its placeholder replaced by the architecture. */
  function Expanded(relative: string, architecture: Option<string>): string {
    var k := Placeholder(relative);
    if k == |relative| then relative
    else relative[..k] + ((if architecture.Some? then "/" + architecture.value else "") + relative[k + 1..])
  }

  /** The first placeholder gives way to a slash and the architecture, or to nothing. */
  lemma {:induction false} ExpandedMeans(before: string, after: string, architecture: Option<string>)
    requires '%' !in before
    ensures Expanded(before, architecture) == before
    ensures Expanded(before + ("%" + after), architecture)
         == before + ((if architecture.Some? then "/" + architecture.value else "") + after)
  {
    FirstPlaceholder(before, "");
    FirstPlaceholder(before, "%" + after);
    var relative := before + ("%" + after);
    assert before + "" == before && relative[..|before|] == before && relative[|before| + 1..] == after;
  }

  lemma {:induction false} FirstPlaceholder(before: string, after: string)
    requires '%' !in before && (after == [] || after[0] == '%')
    ensures Placeholder(before + after) == |before|
  {
    if before == [] {
      assert before + after == after;
    } else {
      assert (before + after)[1..] == before[1..] + after;
      FirstPlaceholder(before[1..], after);
    }
  }

  function PathFor(q: Query, i: nat): string
    requires i < |q.locations|
  {
    var relative := q.relative(i);
    (q.locations[i] + Expanded(if relative.Some? then relative.value else "", q.architecture))
    + (if q.subPath.Some? then "/" + q.subPath.value else "")
  }

  /** The paths of the considered locations before `n`. */
  function Paths(q: Query, n: nat): seq<string>
    requires n <= |q.locations|
  {
    if n == 0 then [] else Paths(q, n - 1) + if Considered(q.flags, n - 1) then [PathFor(q, n - 1)] else []
  }

  predicate Kept(q: Query, path: string) {
    q.flags.existingOnly ==> q.host.hasEntry(path)
  }

  /** Those of them that are reported. */
  function KeptPaths(q: Query, n: nat): seq<string>
    requires n <= |q.locations|
  {
    if n == 0 then []
    else KeptPaths(q, n - 1)
         + if Considered(q.flags, n - 1) && Kept(q, PathFor(q, n - 1)) then [PathFor(q, n - 1)] else []
  }

  /** The path up to its last slash. */
  function ParentOf(path: string): string {
    if path == [] then []
    else if path[|path| - 1] == '/' then path[..|path| - 1]
    else ParentOf(path[..|path| - 1])
  }

  /** The error of creating what the flags ask for. */
  function Creation(q: Query, path: string): Option<int> {
    if q.flags.createDirectory then q.host.create(path)
    else if q.flags.createParentDirectory then q.host.create(ParentOf(path))
    else None
  }

  function FailureAt(q: Query, i: nat): Option<int>
    requires i < |q.locations|
  {
    if Considered(q.flags, i) then Creation(q, PathFor(q, i)) else None
  }

  function FirstFailure(q: Query, n: nat): Option<int>
    requires n <= |q.locations|
  {
    if n == 0 then None
    else
      match FirstFailure(q, n - 1)
      case Some(e) => Some(e)
      case None => FailureAt(q, n - 1)
  }

  /** The relative paths of the first `n` locations, where they are needed. */
  predicate Recorded(q: Query, relativePaths: seq<string>, n: nat) {
    n <= |relativePaths|
    && forall i :: 0 <= i < n && Considered(q.flags, i) ==> q.relative(i) == Some(relativePaths[i])
  }

  lemma {:induction false} RecordOneMore(q: Query, relativePaths: seq<string>, n: nat, relative: string)
    requires Recorded(q, relativePaths, n) && n < |relativePaths| && q.relative(n) == Some(relative)
    ensures Recorded(q, relativePaths[n := relative], n + 1)
  {
  }

  predicate HasRelativePaths(q: Query) {
    forall i :: 0 <= i < |q.locations| && Considered(q.flags, i) ==> q.relative(i).Some?
  }

  /** What a search comes to. */
  function Search(q: Query): Result<seq<string>>
  {
    if !HasRelativePaths(q) then Err(BadValue)
    else if FirstFailure(q, |q.locations|).Some? then Err(Failed(FirstFailure(q, |q.locations|).value))
    else if KeptPaths(q, |q.locations|) == [] then Err(EntryNotFound)
    else Ok(KeptPaths(q, |q.locations|))
  }

  // ----- what the paths are -----

  /** A path is a location, a relative path with the architecture in place of its first placeholder, and the sub-path
      if there is one. */
  lemma {:induction false} PathMeans(q: Query, i: nat, before: string, after: string)
    requires i < |q.locations| && '%' !in before
    ensures var sub := match q.subPath case None => "" case Some(s) => "/" + s;
            && (q.relative(i) == Some(before) ==> PathFor(q, i) == q.locations[i] + before + sub)
            && (q.relative(i) == Some(before + ("%" + after)) ==>
                  PathFor(q, i) == q.locations[i]
                    + (before + ((match q.architecture case None => "" case Some(a) => "/" + a) + after)) + sub)
  {
    ExpandedMeans(before, after, q.architecture);
  }

  /** The parent of a path is what stands in front of its last slash. */
  lemma {:induction false} ParentMeans(parent: string, name: string)
    requires '/' !in name
    ensures ParentOf(parent + ("/" + name)) == parent
  {
    var path := parent + ("/" + name);
    if name == [] {
      assert path[..|path| - 1] == parent;
    } else {
      assert path[..|path| - 1] == parent + ("/" + name[..|name| - 1]);
      assert path[|path| - 1] == name[|name| - 1];
      ParentMeans(parent, name[..|name| - 1]);
    }
  }

  /** The directory that the flags ask for is created, or that of the parent, or none. */
  lemma {:induction false} CreationMeans(q: Query, parent: string, name: string)
    requires '/' !in name
    ensures var path := parent + ("/" + name);
            Creation(q, path) ==
              if q.flags.createDirectory then q.host.create(path)
              else if q.flags.createParentDirectory then q.host.create(parent) else None
  {
    ParentMeans(parent, name);
  }

  function IfWanted(wanted: bool, q: Query, i: nat): seq<string>
    requires i < |q.locations|
  {
    if wanted && (q.flags.existingOnly ==> q.host.hasEntry(PathFor(q, i))) then [PathFor(q, i)] else []
  }

  function ErrorIfWanted(wanted: bool, q: Query, i: nat): Option<int>
    requires i < |q.locations|
  {
    if wanted then Creation(q, PathFor(q, i)) else None
  }

  function OrElse(first: Option<int>, second: Option<int>): Option<int> {
    if first.Some? then first else second
  }

  /** The first two locations are the user's and are wanted unless only those of the system are, and the other two the
      other way round; the paths are reported in that order, and the first error is the one that counts. */
  lemma {:induction false} WantedPlaces(q: Query)
    requires |q.locations| == 4
    ensures var user, system := !q.flags.systemOnly, !q.flags.userOnly;
            && KeptPaths(q, 4) == IfWanted(user, q, 0) + IfWanted(user, q, 1) + IfWanted(system, q, 2)
                                  + IfWanted(system, q, 3)
            && FirstFailure(q, 4) == OrElse(OrElse(ErrorIfWanted(user, q, 0), ErrorIfWanted(user, q, 1)),
                                            OrElse(ErrorIfWanted(system, q, 2), ErrorIfWanted(system, q, 3)))
            && (HasRelativePaths(q) <==>
                  && (user ==> q.relative(0).Some? && q.relative(1).Some?)
                  && (system ==> q.relative(2).Some? && q.relative(3).Some?))
  {
    var user, system := !q.flags.systemOnly, !q.flags.userOnly;
    assert KeptPaths(q, 1) == IfWanted(user, q, 0);
    assert KeptPaths(q, 2) == KeptPaths(q, 1) + IfWanted(user, q, 1);
    assert KeptPaths(q, 3) == KeptPaths(q, 2) + IfWanted(system, q, 2);
    assert KeptPaths(q, 4) == KeptPaths(q, 3) + IfWanted(system, q, 3);
    assert FirstFailure(q, 1) == ErrorIfWanted(user, q, 0);
    assert FirstFailure(q, 2) == OrElse(ErrorIfWanted(user, q, 0), ErrorIfWanted(user, q, 1));
    assert FirstFailure(q, 3) == OrElse(FirstFailure(q, 2), ErrorIfWanted(system, q, 2));
  }

  /** What a search comes to: no relative path somewhere, an error of the first directory that cannot be created,
      nothing found, or all that is wanted. */
  lemma {:induction false} SearchMeans(q: Query)
    requires |q.locations| == 4
    ensures var user, system := !q.flags.systemOnly, !q.flags.userOnly;
            var paths := IfWanted(user, q, 0) + IfWanted(user, q, 1) + IfWanted(system, q, 2) + IfWanted(system, q, 3);
            var error := OrElse(OrElse(ErrorIfWanted(user, q, 0), ErrorIfWanted(user, q, 1)),
                                OrElse(ErrorIfWanted(system, q, 2), ErrorIfWanted(system, q, 3)));
            Search(q) ==
              if (user && (q.relative(0).None? || q.relative(1).None?))
                 || (system && (q.relative(2).None? || q.relative(3).None?)) then Err(BadValue)
              else if error.Some? then Err(Failed(error.value))
              else if paths == [] then Err(EntryNotFound)
              else Ok(paths)
  {
    WantedPlaces(q);
  }

  // ----- packed strings -----

  /** Strings one behind the other, each with its NUL. */
  function Packed(paths: seq<string>): string {
    if paths == [] then [] else Packed(paths[..|paths| - 1]) + (paths[|paths| - 1] + ['\0'])
  }

  lemma {:induction false} PackedAppend(paths: seq<string>, path: string)
    ensures Packed(paths + [path]) == Packed(paths) + (path + ['\0'])
  {
    assert (paths + [path])[..|paths|] == paths;
  }

  /** The text of a C string. */
  function ReadString(memory: string): string {
    if memory == [] || memory[0] == '\0' then [] else [memory[0]] + ReadString(memory[1..])
  }

  lemma {:induction false} ReadsBack(text: string, rest: string)
    requires '\0' !in text
    ensures ReadString(text + ['\0'] + rest) == text
  {
    if text != [] {
      assert (text + ['\0'] + rest)[1..] == text[1..] + ['\0'] + rest;
      ReadsBack(text[1..], rest);
    }
  }

  /** Every packed string reads back from where it starts, whatever stands behind the packed strings. */
  lemma {:induction false} PackedReadsBack(paths: seq<string>, k: nat, rest: string)
    requires k < |paths| && '\0' !in paths[k]
    ensures |Packed(paths[..k])| <= |Packed(paths)|
    ensures ReadString((Packed(paths) + rest)[|Packed(paths[..k])|..]) == paths[k]
  {
    var init, last := paths[..|paths| - 1], paths[|paths| - 1];
    if k == |init| {
      assert (Packed(paths) + rest)[|Packed(init)|..] == last + ['\0'] + rest;
      ReadsBack(last, rest);
    } else {
      PackedReadsBack(init, k, last + ['\0'] + rest);
      assert init[..k] == paths[..k];
      assert Packed(paths) + rest == Packed(init) + (last + ['\0'] + rest);
    }
  }

  // ----- the search one location at a time -----

  predicate IsKept(q: Query, i: nat)
    requires i < |q.locations|
  {
    Considered(q.flags, i) && Kept(q, PathFor(q, i))
  }

  function TotalSize(q: Query, n: nat): nat
    requires n <= |q.locations|
  {
    if n == 0 then 0 else TotalSize(q, n - 1) + if Considered(q.flags, n - 1) then |PathFor(q, n - 1)| + 1 else 0
  }

  function KeptText(q: Query, n: nat): string
    requires n <= |q.locations|
  {
    if n == 0 then []
    else if IsKept(q, n - 1) then KeptText(q, n - 1) + (PathFor(q, n - 1) + ['\0'])
    else KeptText(q, n - 1)
  }

  function KeptStarts(q: Query, n: nat): seq<nat>
    requires n <= |q.locations|
  {
    if n == 0 then []
    else if IsKept(q, n - 1) then KeptStarts(q, n - 1) + [|KeptText(q, n - 1)|]
    else KeptStarts(q, n - 1)
  }

  /** The storage up to `at` holds what the first `n` locations have come to. */
  ghost predicate Filled(q: Query, n: nat, storage: seq<char>, at: nat)
    requires n <= |q.locations|
  {
    at == |KeptText(q, n)| <= |storage| && storage[..at] == KeptText(q, n)
  }

  lemma {:induction false} SizeIsPacked(q: Query, n: nat)
    requires n <= |q.locations|
    ensures TotalSize(q, n) == |Packed(Paths(q, n))|
  {
    if n > 0 {
      SizeIsPacked(q, n - 1);
      if Considered(q.flags, n - 1) {
        PackedAppend(Paths(q, n - 1), PathFor(q, n - 1));
      } else {
        assert Paths(q, n - 1) + [] == Paths(q, n - 1);
      }
    }
  }

  /** Every start is the place where its path begins among the packed ones. */
  predicate StartsOf(starts: seq<nat>, paths: seq<string>) {
    |starts| == |paths| && forall k :: 0 <= k < |paths| ==> starts[k] == |Packed(paths[..k])|
  }

  lemma {:induction false} OneMoreStart(starts: seq<nat>, paths: seq<string>, path: string)
    requires StartsOf(starts, paths)
    ensures StartsOf(starts + [|Packed(paths)|], paths + [path])
  {
    var all, after := paths + [path], starts + [|Packed(paths)|];
    forall k | 0 <= k < |all| ensures after[k] == |Packed(all[..k])| {
      assert all[..k] == paths[..k];
      assert k == |paths| ==> paths[..k] == paths;
    }
  }

  lemma {:induction false} TextIsPacked(q: Query, n: nat)
    requires n <= |q.locations|
    ensures KeptText(q, n) == Packed(KeptPaths(q, n)) && StartsOf(KeptStarts(q, n), KeptPaths(q, n))
  {
    if n > 0 {
      TextIsPacked(q, n - 1);
      var before, path := KeptPaths(q, n - 1), PathFor(q, n - 1);
      if IsKept(q, n - 1) {
        PackedAppend(before, path);
        OneMoreStart(KeptStarts(q, n - 1), before, path);
      } else {
        assert before + [] == before;
      }
    }
  }

  /** The reported paths never need more room than all considered ones. */
  lemma {:induction false} KeptFit(q: Query, n: nat)
    requires n <= |q.locations|
    ensures |KeptText(q, n)| <= TotalSize(q, n)
  {
    if n > 0 {
      KeptFit(q, n - 1);
    }
  }

  /** Without the flag for existing entries, all considered paths are reported. */
  lemma {:induction false} AllAreKept(q: Query, n: nat)
    requires n <= |q.locations| && !q.flags.existingOnly
    ensures KeptPaths(q, n) == Paths(q, n)
  {
    if n > 0 {
      AllAreKept(q, n - 1);
    }
  }

  lemma {:induction false} SizeGrows(q: Query, m: nat, n: nat)
    requires m <= n <= |q.locations|
    ensures TotalSize(q, m) <= TotalSize(q, n)
  {
    if m < n {
      SizeGrows(q, m, n - 1);
    }
  }

  lemma {:induction false} SizeFits(q: Query, i: nat)
    requires i < |q.locations| && Considered(q.flags, i)
    ensures TotalSize(q, i) + |PathFor(q, i)| + 1 == TotalSize(q, i + 1) <= TotalSize(q, |q.locations|)
  {
    SizeGrows(q, i + 1, |q.locations|);
  }

  /** What the size computation adds for one path, next to its NUL. */
  lemma {:induction false} PathLength(q: Query, i: nat, relative: string)
    requires i < |q.locations| && q.relative(i) == Some(relative)
    ensures |PathFor(q, i)| == |q.locations[i]| + |relative| + (if q.subPath.Some? then |q.subPath.value| + 1 else 0)
         + if Placeholder(relative) == |relative| then 0
           else (if q.architecture.Some? then |q.architecture.value| + 1 else 0) - 1
  {
  }

  // ----- the buffer a path is built in -----

  function Min(a: nat, b: nat): nat {
    if a < b then a else b
  }

  /** Two pieces of the storage that stand next to each other. */
  lemma {:induction false} Joined(s: seq<char>, from: nat, middle: nat, to: nat, left: string, right: string)
    requires from <= middle <= to <= |s| && s[from..middle] == left && s[middle..to] == right
    ensures s[from..to] == left + right
  {
  }

  /** `path_buffer`: keeps as much of the text as fits in front of a NUL, and counts all of it. */
  class PathBuffer {
    const data: array<char>
    const start: nat
    const size: nat
    var length: nat
    ghost var text: string

    ghost predicate Valid()
      reads this, data
    {
      && start + size <= data.Length && length == |text|
      && (size > 0 ==> Holds(Min(length, size - 1)))
    }

    ghost predicate Holds(n: nat)
      requires n < size && start + size <= data.Length
      reads this, data
    {
      n <= |text| && (forall k :: 0 <= k < n ==> data[start + k] == text[k]) && data[start + n] == '\0'
    }

    constructor (data: array<char>, start: nat, size: nat)
      requires start + size <= data.Length
      modifies data
      ensures Valid() && this.data == data && this.start == start && this.size == size && text == []
      ensures forall j :: 0 <= j < data.Length && !(start <= j < start + size) ==> data[j] == old(data[j])
    {
      this.data, this.start, this.size := data, start, size;
      length, text := 0, [];
      new;
      if length < size {
        data[start + length] := '\0';
      }
    }

    method Append(s: string) returns (fits: bool)
      requires Valid()
      modifies `length, `text, data
      ensures Valid() && text == old(text) + s && fits == (length < size)
      ensures forall j :: 0 <= j < data.Length && !(start <= j < start + size) ==> data[j] == old(data[j])
    {
      if |s| > 0 && length + 1 < size {
        Copy(data, start + length, s, Min(|s|, size - length - 1));
      }
      length, text := length + |s|, text + s;
      fits := length < size;
    }

    lemma {:induction false} WholeText()
      requires Valid() && length < size
      ensures data[start..start + length] == text && data[start + length] == '\0'
    {
      assert Holds(length);
    }

    /** The first characters of a text, and a NUL. */
    static method Copy(data: array<char>, at: nat, s: string, n: nat)
      requires n <= |s| && at + n < data.Length
      modifies data
      ensures forall k :: 0 <= k < n ==> data[at + k] == s[k]
      ensures data[at + n] == '\0'
      ensures forall j :: 0 <= j < data.Length && !(at <= j <= at + n) ==> data[j] == old(data[j])
    {
      forall k | 0 <= k < n {
        data[at + k] := s[k];
      }
      data[at + n] := '\0';
    }
  }

  /** Builds the path of a location in the buffer. */
  method BuildPath(q: Query, i: nat, relative: string, data: array<char>, start: nat, size: nat)
    returns (total: nat)
    requires i < |q.locations| && q.relative(i) == Some(relative) && start + size <= data.Length
    modifies data
    ensures forall j :: 0 <= j < data.Length && !(start <= j < start + size) ==> data[j] == old(data[j])
    ensures total == |PathFor(q, i)|
    ensures total < size ==> data[start..start + total] == PathFor(q, i) && data[start + total] == '\0'
  {
    var buffer := new PathBuffer(data, start, size);
    AppendPath(buffer, q, i, relative);
    total := buffer.length;
    if total < size {
      buffer.WholeText();
    }
  }

  method AppendPath(buffer: PathBuffer, q: Query, i: nat, relative: string)
    requires buffer.Valid() && buffer.text == [] && i < |q.locations| && q.relative(i) == Some(relative)
    modifies buffer`length, buffer`text, buffer.data
    ensures buffer.Valid() && buffer.text == PathFor(q, i)
    ensures var data := buffer.data;
            forall j :: 0 <= j < data.Length && !(buffer.start <= j < buffer.start + buffer.size) ==>
              data[j] == old(data[j])
  {
    var _ := buffer.Append(q.locations[i]);
    assert buffer.text == q.locations[i];
    AppendExpanded(buffer, relative, q.architecture);
    AppendComponent(buffer, q.subPath, if q.subPath.Some? then "/" + q.subPath.value else "");
  }

  /** `process_path`: builds one path in the buffer and gives its size with the NUL, or zero when the entry has to
      exist and does not. */
  method ProcessPath(q: Query, i: nat, relative: string, data: array<char>, start: nat, size: nat)
    returns (r: Result<nat>)
    requires i < |q.locations| && q.relative(i) == Some(relative) && start + size <= data.Length
    modifies data
    ensures forall j :: 0 <= j < data.Length && !(start <= j < start + size) ==> data[j] == old(data[j])
    ensures r == (
      var path := PathFor(q, i);
      if |path| >= size then Err(BufferOverflow)
      else if Creation(q, path).Some? then Err(Failed(Creation(q, path).value))
      else Ok(if Kept(q, path) then |path| + 1 else 0))
    ensures |PathFor(q, i)| < size ==> data[start..start + |PathFor(q, i)| + 1] == PathFor(q, i) + ['\0']
  {
    var total := BuildPath(q, i, relative, data, start, size);
    if total >= size {
      return Err(BufferOverflow);
    }
    assert data[start..start + total + 1] == data[start..start + total] + [data[start + total]];
    var path := data[start..start + total];
    if q.flags.createDirectory {
      var error := q.host.create(path);
      if error.Some? {
        return Err(Failed(error.value));
      }
    } else if q.flags.createParentDirectory {
      var error := q.host.create(ParentOf(path));
      if error.Some? {
        return Err(Failed(error.value));
      }
    }
    if q.flags.existingOnly {
      if !q.host.hasEntry(path) {
        return Ok(0);
      }
    }
    r := Ok(total + 1);
  }

  /** A slash and a component, if there is one. */
  method AppendComponent(buffer: PathBuffer, component: Option<string>, ghost text: string)
    requires buffer.Valid() && text == if component.Some? then "/" + component.value else ""
    modifies buffer`length, buffer`text, buffer.data
    ensures buffer.Valid() && buffer.text == old(buffer.text) + text
    ensures var data := buffer.data;
            forall j :: 0 <= j < data.Length && !(buffer.start <= j < buffer.start + buffer.size) ==>
              data[j] == old(data[j])
  {
    if component.Some? {
      var _ := buffer.Append("/");
      var _ := buffer.Append(component.value);
    } else {
      assert buffer.text + "" == buffer.text;
    }
  }

  lemma {:induction false} AppendMiddle(text: string, before: string, middle: string, after: string)
    ensures ((text + before) + middle) + after == text + (before + (middle + after))
  {
  }

  /** The relative path with the architecture in place of its placeholder. */
  method AppendExpanded(buffer: PathBuffer, relative: string, architecture: Option<string>)
    requires buffer.Valid()
    modifies buffer`length, buffer`text, buffer.data
    ensures buffer.Valid() && buffer.text == old(buffer.text) + Expanded(relative, architecture)
    ensures var data := buffer.data;
            forall j :: 0 <= j < data.Length && !(buffer.start <= j < buffer.start + buffer.size) ==>
              data[j] == old(data[j])
  {
    var k := Placeholder(relative);
    if k < |relative| {
      var _ := buffer.Append(relative[..k]);
      ghost var middle := if architecture.Some? then "/" + architecture.value else "";
      AppendComponent(buffer, architecture, middle);
      var _ := buffer.Append(relative[k + 1..]);
      AppendMiddle(old(buffer.text), relative[..k], middle, relative[k + 1..]);
    } else {
      var _ := buffer.Append(relative);
    }
  }

  // ----- the search -----

  /** A sum in wrapped steps is right when it fits in the end, even if a summand wrapped below zero or a sum
      wrapped in between. */
  lemma {:induction false} SumsWrap(total: nat, x: nat, y: int)
    ensures 0 <= total + x + y < SIZE_LIMIT ==> Wrapped(Wrapped(total + x) + Wrapped(y)) == total + x + y
    ensures total + x < SIZE_LIMIT ==> Wrapped(total + x) == total + x
  {
  }

  predicate IsSkipped(flags: Flags, i: nat) {
    (flags.userOnly && i != 0 && i != 1) || (flags.systemOnly && i != 2 && i != 3)
  }

  /** Adds the size of a path to a sum of sizes. */
  method AddSize(q: Query, i: nat, relative: string, sum: nat) returns (totalSize: nat)
    requires i < |q.locations| && q.relative(i) == Some(relative) && sum + |PathFor(q, i)| + 1 < SIZE_LIMIT
    ensures totalSize == sum + |PathFor(q, i)| + 1
  {
    var architectureSize := if q.architecture.Some? then |q.architecture.value| + 1 else 0;
    var subPathLength := if q.subPath.Some? then |q.subPath.value| + 1 else 0;
    PathLength(q, i, relative);
    SumsWrap(sum, |q.locations[i]| + |relative| + subPathLength + 1, architectureSize - 1);
    totalSize := Wrapped(sum + (|q.locations[i]| + |relative| + subPathLength + 1));
    if Placeholder(relative) < |relative| {
      totalSize := Wrapped(totalSize + Wrapped(architectureSize - 1));
    }
  }

  /** The first loop: the relative paths, and the size of all the paths. */
  method ComputeSize(q: Query, relativePaths: array<string>) returns (total: Option<nat>)
    requires relativePaths.Length == |q.locations| && TotalSize(q, |q.locations|) < SIZE_LIMIT
    modifies relativePaths
    ensures total == if HasRelativePaths(q) then Some(TotalSize(q, |q.locations|)) else None
    ensures total.Some? ==> Recorded(q, relativePaths[..], |q.locations|)
  {
    var totalSize: nat := 0;
    for i := 0 to |q.locations|
      invariant totalSize == TotalSize(q, i)
      invariant Recorded(q, relativePaths[..], i)
    {
      if IsSkipped(q.flags, i) {
        continue;
      }
      var relative := q.relative(i);
      if relative.None? {
        return None;
      }
      RecordOneMore(q, relativePaths[..], i, relative.value);
      relativePaths[i] := relative.value;
      SizeFits(q, i);
      totalSize := AddSize(q, i, relative.value, totalSize);
    }
    total := Some(totalSize);
  }

  /** However many paths were skipped, the next one fits in what is left. */
  lemma {:induction false} RoomIsLeft(q: Query, i: nat)
    requires i < |q.locations| && Considered(q.flags, i)
    ensures |KeptText(q, i)| + |PathFor(q, i)| < TotalSize(q, |q.locations|)
  {
    KeptFit(q, i);
    SizeFits(q, i);
  }

  lemma {:induction false} FailureStays(q: Query, m: nat, n: nat)
    requires m <= n <= |q.locations| && FirstFailure(q, m).Some?
    ensures FirstFailure(q, n) == FirstFailure(q, m)
  {
    if m < n {
      FailureStays(q, m, n - 1);
    }
  }

  /** Packs one path behind those before it. */
  method PackPath(q: Query, i: nat, relative: string, storage: array<char>, at: nat) returns (size: Result<nat>)
    requires i < |q.locations| && Considered(q.flags, i) && q.relative(i) == Some(relative)
    requires storage.Length == TotalSize(q, |q.locations|)
    requires Filled(q, i, storage[..], at)
    modifies storage
    ensures var error := Creation(q, PathFor(q, i));
            if error.Some? then size == Err(Failed(error.value))
            else size == Ok(if IsKept(q, i) then |PathFor(q, i)| + 1 else 0)
    ensures size.Ok? ==> Filled(q, i + 1, storage[..], at + size.value)
  {
    RoomIsLeft(q, i);
    size := ProcessPath(q, i, relative, storage, at, storage.Length - at);
    assert storage[..at] == KeptText(q, i);
    if size.Ok? && size.value > 0 {
      Joined(storage[..], 0, at, at + size.value, KeptText(q, i), PathFor(q, i) + ['\0']);
    }
  }

  /** What the first `n` locations have come to without a failure. */
  ghost predicate SoFar(q: Query, n: nat, storage: seq<char>, at: nat, starts: seq<nat>)
    requires n <= |q.locations|
  {
    FirstFailure(q, n).None? && starts == KeptStarts(q, n) && Filled(q, n, storage, at)
  }

  lemma {:induction false} NothingFromSkipped(q: Query, i: nat, storage: seq<char>, at: nat, starts: seq<nat>)
    requires i < |q.locations| && IsSkipped(q.flags, i) && SoFar(q, i, storage, at, starts)
    ensures SoFar(q, i + 1, storage, at, starts)
  {
  }

  /** The round of the loop for a location that is not skipped. */
  method PackNext(q: Query, i: nat, relative: string, storage: array<char>, at: nat, starts: seq<nat>)
    returns (r: Result<seq<nat>>, next: nat)
    requires i < |q.locations| && Considered(q.flags, i) && q.relative(i) == Some(relative)
    requires storage.Length == TotalSize(q, |q.locations|) && SoFar(q, i, storage[..], at, starts)
    modifies storage
    ensures match FirstFailure(q, i + 1)
      case Some(e) => r == Err(Failed(e))
      case None => r.Ok? && SoFar(q, i + 1, storage[..], next, r.value)
  {
    next := at;
    var size := PackPath(q, i, relative, storage, at);
    if size.Err? {
      return Err(size.error), next;
    }
    next := at + size.value;
    r := Ok(if size.value > 0 then starts + [at] else starts);
  }

  /** The second loop: the paths, packed into the storage, and where each starts. */
  method PackPaths(q: Query, relativePaths: array<string>, storage: array<char>) returns (r: Result<seq<nat>>)
    requires relativePaths.Length == |q.locations| && storage.Length == TotalSize(q, |q.locations|)
    requires Recorded(q, relativePaths[..], |q.locations|)
    modifies storage
    ensures match FirstFailure(q, |q.locations|)
      case Some(e) => r == Err(Failed(e))
      case None => r.Ok? && SoFar(q, |q.locations|, storage[..], |KeptText(q, |q.locations|)|, r.value)
  {
    r := Ok([]);
    var at: nat := 0;
    for i := 0 to |q.locations|
      invariant r.Ok? && SoFar(q, i, storage[..], at, r.value)
    {
      if IsSkipped(q.flags, i) {
        NothingFromSkipped(q, i, storage[..], at, r.value);
        continue;
      }
      r, at := PackNext(q, i, relativePaths[i], storage, at, r.value);
      if r.Err? {
        FailureStays(q, i + 1, |q.locations|);
        return;
      }
    }
  }

  /** `__find_paths_etc` for a caller of the given architecture. */
  method FindPathsEtc(locations: seq<string>, requested: Option<string>, own: string, primary: string,
                      base: BaseDirectory, subPath: Option<string>, flags: Flags, host: Host)
    returns (r: Result<seq<nat>>, storage: array<char>)
    requires |Packed(Paths(QueryFor(locations, requested, own, primary, base, subPath, flags, host),
                                    |locations|))| < SIZE_LIMIT
    ensures var q := QueryFor(locations, requested, own, primary, base, subPath, flags, host);
            match Search(q)
            case Err(e) => r == Err(e)
            case Ok(paths) =>
              && storage.Length == |Packed(Paths(q, |locations|))| && Packed(paths) <= storage[..]
              && r.Ok? && |r.value| == |paths|
              && forall k :: 0 <= k < |paths| ==> r.value[k] == |Packed(paths[..k])|
  {
    var q := QueryFor(locations, requested, own, primary, base, subPath, flags, host);
    SizeIsPacked(q, |q.locations|);
    TextIsPacked(q, |q.locations|);
    storage := new char[0];
    var relativePaths := new string[|locations|];
    var total := ComputeSize(q, relativePaths);
    if total.None? {
      return Err(BadValue), storage;
    }
    storage := new char[total.value];
    r := PackPaths(q, relativePaths, storage);
    if r.Ok? && r.value == [] {
      r := Err(EntryNotFound);
    }
  }

  /** What the arguments of a search amount to. */
  function QueryFor(locations: seq<string>, requested: Option<string>, own: string, primary: string,
                    base: BaseDirectory, subPath: Option<string>, flags: Flags, host: Host): Query {
    var architecture := if requested.Some? then requested.value else own;
    Query(locations, (i: nat) => RelativePath(i, base), if architecture == primary then None else Some(architecture),
          subPath, flags, host)
  }

  /** The architecture is left out if it is the primary one; one that is not given is the caller's own. */
  lemma {:induction false} QueryMeans(locations: seq<string>, requested: Option<string>, own: string, primary: string,
                                      base: BaseDirectory, subPath: Option<string>, flags: Flags, host: Host)
    ensures var q := QueryFor(locations, requested, own, primary, base, subPath, flags, host);
            && q.locations == locations && q.subPath == subPath && q.flags == flags && q.host == host
            && (forall i: nat :: q.relative(i) == RelativePath(i, base))
            && (requested == Some(primary) || (requested == None && own == primary) ==> q.architecture == None)
            && (requested == None && own != primary ==> q.architecture == Some(own))
            && (requested.Some? && requested.value != primary ==> q.architecture == requested)
  {
  }

  /** Every base directory but those of an image or a package has a relative path, which is the same in all locations
      but for the settings in the second one, and has a placeholder where the architecture matters. */
  lemma {:induction false} RelativePathMeans(i: nat, base: BaseDirectory)
    ensures var path := RelativePath(i, base);
            && (path.None? <==> base in {ImagePath, PackagePath})
            && (path.Some? ==> if base == InstallationLocation then path.value == "" else "/" <= path.value)
            && (path.Some? ==>
                  ('%' in path.value <==> base in {AddOns, Bin, DevelopLib, Headers, Lib, MediaNodes, Translators}))
            && (base != Settings ==> path == RelativePath(0, base))
            && (base == Settings ==> path == Some(if i == 1 then "/settings/global" else "/settings"))
  {
  }

  /** The storage of a successful search: what is read from each reported start is the path of that rank, and
      unless only existing entries were asked for, the paths of all considered locations fill the storage. */
  lemma {:induction false} StorageMeans(q: Query, storage: string, starts: seq<nat>, k: nat)
    requires Search(q).Ok? && |storage| == |Packed(Paths(q, |q.locations|))|
    requires var paths := Search(q).value;
             && Packed(paths) <= storage && |starts| == |paths|
             && forall j :: 0 <= j < |paths| ==> starts[j] == |Packed(paths[..j])|
    requires k < |starts| && '\0' !in Search(q).value[k]
    ensures starts[k] <= |storage| && ReadString(storage[starts[k]..]) == Search(q).value[k]
    ensures !q.flags.existingOnly ==> Search(q).value == Paths(q, |q.locations|) && storage == Packed(Search(q).value)
  {
    var paths := Search(q).value;
    var rest := storage[|Packed(paths)|..];
    assert storage == Packed(paths) + rest;
    PackedReadsBack(paths, k, rest);
    if !q.flags.existingOnly {
      AllAreKept(q, |q.locations|);
    }
  }
}
