/** Symbol lookup by name in the images the kernel links: the hash table walk with symbol versions, and
    the choice between two images.  The hash table is the one of the System V ABI (gABI), chapter 5,
    section "Hash Table". */
module ElfSymbols {
  import opened Options

  const SHN_UNDEF := 0
  const STN_UNDEF := 0
  const STB_LOCAL := 0
  const STB_GLOBAL := 1
  const STB_WEAK := 2
  const VER_NDX_LOCAL := 0
  const VER_NDX_GLOBAL := 1
  const VER_NDX_INITIAL := 2
  const VER_NDX_FLAG_HIDDEN := 0x8000

  /** Addresses are unsigned and wrap around. */
  const ADDRESS_SPACE := 0x1_0000_0000_0000_0000

  datatype Symbol = Symbol(name: string, value: nat, size: nat, bind: nat, kind: nat, section: nat)

  datatype Version = Version(hash: nat, name: string)

  /** An image as the loader sees it; `delta` is the distance of its text region from the addresses in the file. */
  datatype Image = Image(dynamic: bool, buckets: seq<nat>, chains: seq<nat>, syms: seq<Symbol>,
                         symbolVersions: Option<seq<nat>>, versions: seq<Version>, symbolic: bool, delta: int)

  // ----- the hash function -----

  function Top(sum: bv32): bv32 {
    sum & 0xf000_0000
  }

  function Mix(sum: bv32, top: bv32): bv32 {
    sum ^ (top >> 24)
  }

  function Clear(sum: bv32, top: bv32): bv32 {
    sum & !top
  }

  function Fold(sum: bv32): bv32 {
    Clear(if Top(sum) != 0 then Mix(sum, Top(sum)) else sum, Top(sum))
  }

  function Byte(c: char): bv32 {
    (c as int % 0x100) as bv32
  }

  function Shifted(hash: bv32, c: char): bv32 {
    (hash << 4) + Byte(c)
  }

  function HashStep(hash: bv32, c: char): bv32 {
    Fold(Shifted(hash, c))
  }

  function HashFrom(hash: bv32, name: string): bv32
    decreases name
  {
    if name == [] then hash else HashFrom(HashStep(hash, name[0]), name[1..])
  }

  function Hash(name: string): bv32 {
    HashFrom(0, name)
  }

  lemma {:induction false} FoldFits(sum: bv32)
    ensures Top(Fold(sum)) == 0
  {
  }

  /** A hash value never reaches the upper four bits, so the next shift loses nothing. */
  lemma {:induction false} HashFits(hash: bv32, name: string)
    requires Top(hash) == 0
    ensures Top(HashFrom(hash, name)) == 0
    decreases name
  {
    if name != [] {
      FoldFits(Shifted(hash, name[0]));
      HashFits(HashStep(hash, name[0]), name[1..]);
    }
  }

  lemma {:induction false} TopComesBack(sum: bv32)
    ensures (sum ^ ((sum & 0xf000_0000) >> 24)) & !(sum & 0xf000_0000)
         == (sum & 0x0fff_ffff) ^ ((sum & 0xf000_0000) >> 24)
    ensures sum & 0xf000_0000 == 0 ==>
              sum & !(sum & 0xf000_0000) == (sum & 0x0fff_ffff) ^ ((sum & 0xf000_0000) >> 24)
  {
  }

  /** One step of the hash function of the System V ABI: the upper four bits are taken off, and come back as bits 4 to
      7. */
  lemma {:induction false} FoldMeans(sum: bv32)
    ensures Fold(sum) == (sum & 0x0fff_ffff) ^ ((sum & 0xf000_0000) >> 24)
  {
    TopComesBack(sum);
  }

  lemma {:induction false} ByteMeans(c: char)
    requires 0 <= c as int < 256
    ensures Byte(c) == (c as int) as bv32
  {
    assert c as int % 0x100 == c as int;
  }

  lemma {:induction false} HashSteps(hash: bv32, name: string, c: char)
    ensures HashFrom(hash, name + [c]) == HashStep(HashFrom(hash, name), c)
    decreases name
  {
    if name == [] {
      assert [c][1..] == [] && name + [c] == [c];
    } else {
      assert (name + [c])[1..] == name[1..] + [c];
      HashSteps(HashStep(hash, name[0]), name[1..], c);
    }
  }

  /** The hash value of a name with one more character: that of the name shifted by four bits, plus the character, in 32
      bits and folded. */
  lemma {:induction false} HashOfLonger(name: string, c: char, byte: bv32)
    requires 0 <= c as int < 256 && byte == (c as int) as bv32
    ensures Hash([]) == 0
    ensures var sum := (Hash(name) << 4) + byte;
            Hash(name + [c]) == (sum & 0x0fff_ffff) ^ ((sum & 0xf000_0000) >> 24)
  {
    ByteMeans(c);
    HashSteps(0, name, c);
    FoldMeans(Shifted(Hash(name), c));
  }

  /** `elf_hash`. */
  method ElfHash(name: string) returns (hash: bv32)
    ensures hash == Hash(name)
    ensures Top(hash) == 0
  {
    hash := 0;
    for i := 0 to |name|
      invariant HashFrom(hash, name[i..]) == Hash(name)
    {
      assert name[i..][1..] == name[i + 1..];
      hash := Shifted(hash, name[i]);
      var temp := Top(hash);
      if temp != 0 {
        hash := Mix(hash, temp);
      }
      hash := Clear(hash, temp);
    }
    HashFits(0, name);
  }

  // ----- the table -----

  /** `path` is the chain from symbol `i` on, up to the end mark. */
  ghost predicate IsChain(image: Image, i: nat, path: seq<nat>)
    decreases path
  {
    if i == STN_UNDEF then path == []
    else
      && i < |image.syms| && i < |image.chains| && path != [] && path[0] == i
      && IsChain(image, image.chains[i], path[1..])
  }

  function BucketOf(image: Image, name: string): nat
    requires image.buckets != []
  {
    (Hash(name) as int) % |image.buckets|
  }

  predicate Linkable(symbol: Symbol) {
    symbol.section != SHN_UNDEF && (symbol.bind == STB_GLOBAL || symbol.bind == STB_WEAK)
  }

  ghost predicate OnItsChain(image: Image, i: nat)
    requires i < |image.syms| && image.buckets != []
  {
    forall path :: IsChain(image, image.buckets[BucketOf(image, image.syms[i].name)], path) ==> i in path
  }

  ghost predicate ChainEnds(image: Image, i: nat) {
    exists path :: IsChain(image, i, path)
  }

  /** Every chain comes to an end, every symbol that can be linked against is on the chain of its name, and
      there is a version for every symbol if there are versions at all. */
  ghost predicate WellFormed(image: Image) {
    && (forall b :: 0 <= b < |image.buckets| ==> ChainEnds(image, image.buckets[b]))
    && (image.buckets != [] ==>
          forall i :: 0 < i < |image.syms| && Linkable(image.syms[i]) ==> OnItsChain(image, i))
    && (image.symbolVersions.Some? ==>
          && |image.symbolVersions.value| == |image.syms|
          && forall i :: 0 <= i < |image.syms| ==>
            image.symbolVersions.value[i] % VER_NDX_FLAG_HIDDEN < |image.versions|)
  }

  predicate VersionsFit(image: Image, i: nat) {
    image.symbolVersions.Some? ==>
      i < |image.symbolVersions.value| && image.symbolVersions.value[i] % VER_NDX_FLAG_HIDDEN < |image.versions|
  }

  predicate Candidate(image: Image, i: nat, name: string) {
    0 < i < |image.syms| && Linkable(image.syms[i]) && image.syms[i].name == name
  }

  datatype Verdict = Take | Remember | PassOver | GiveUp

  /** What `elf_find_symbol` makes of a symbol with the right name and binding. */
  function Judge(image: Image, i: nat, version: Option<Version>, lookupDefault: bool): Verdict
    requires VersionsFit(image, i)
  {
    if image.symbolVersions.None? then
      if version.None? then Take else GiveUp
    else
      var id := image.symbolVersions.value[i];
      var index := id % VER_NDX_FLAG_HIDDEN;
      var hidden := (id / VER_NDX_FLAG_HIDDEN) % 2 == 1;
      if index == VER_NDX_LOCAL then PassOver
      else if version.Some? then
        if image.versions[index] == version.value then Take
        else if !hidden && index == VER_NDX_GLOBAL && !lookupDefault then Take
        else PassOver
      else if index == VER_NDX_GLOBAL || (!lookupDefault && index == VER_NDX_INITIAL) then Take
      else if !hidden then Remember
      else PassOver
  }

  // ----- the walk, and a scan of the whole table -----

  /** The walk down a chain, with the versioned symbols met so far. */
  function Walk(image: Image, path: seq<nat>, name: string, version: Option<Version>, lookupDefault: bool,
                remembered: seq<nat>): Option<nat>
    requires forall j :: 0 <= j < |path| ==> VersionsFit(image, path[j])
    decreases path
  {
    if path == [] then
      if |remembered| == 1 then Some(remembered[0]) else None
    else if !Candidate(image, path[0], name) then Walk(image, path[1..], name, version, lookupDefault, remembered)
    else
      match Judge(image, path[0], version, lookupDefault)
      case Take => Some(path[0])
      case GiveUp => None
      case Remember => Walk(image, path[1..], name, version, lookupDefault, remembered + [path[0]])
      case PassOver => Walk(image, path[1..], name, version, lookupDefault, remembered)
  }

  lemma {:induction false} ChainInside(image: Image, i: nat, path: seq<nat>)
    requires WellFormed(image) && IsChain(image, i, path)
    ensures forall j :: 0 <= j < |path| ==> 0 < path[j] < |image.syms| && VersionsFit(image, path[j])
    decreases path
  {
    if path != [] {
      ChainInside(image, image.chains[i], path[1..]);
      assert path == [path[0]] + path[1..];
    }
  }

  lemma {:induction false} ChainUnique(image: Image, i: nat, p: seq<nat>, q: seq<nat>)
    requires IsChain(image, i, p) && IsChain(image, i, q)
    ensures p == q
    decreases p
  {
    if i != STN_UNDEF {
      ChainUnique(image, image.chains[i], p[1..], q[1..]);
      assert p == [p[0]] + p[1..] && q == [q[0]] + q[1..];
    }
  }

  lemma {:induction false} ChainSuffix(image: Image, i: nat, path: seq<nat>, j: nat)
    requires IsChain(image, i, path) && j < |path|
    ensures IsChain(image, path[j], path[j..])
    decreases path
  {
    if j == 0 {
      assert path[0..] == path;
    } else {
      ChainSuffix(image, image.chains[i], path[1..], j - 1);
      assert path[1..][j - 1..] == path[j..];
    }
  }

  /** A chain that ends goes through no symbol twice. */
  lemma {:induction false} ChainDistinct(image: Image, i: nat, path: seq<nat>)
    requires IsChain(image, i, path)
    ensures forall j, k :: 0 <= j < k < |path| ==> path[j] != path[k]
  {
    forall j, k | 0 <= j < k < |path| ensures path[j] != path[k] {
      ChainSuffix(image, i, path, j);
      ChainSuffix(image, i, path, k);
      if path[j] == path[k] {
        ChainUnique(image, path[j], path[j..], path[k..]);
      }
    }
  }

  /** The symbols of the whole table that the lookup may return at once. */
  ghost function Taken(image: Image, name: string, version: Option<Version>, lookupDefault: bool): set<nat> {
    set i | 0 <= i < |image.syms| && Candidate(image, i, name) && VersionsFit(image, i)
            && Judge(image, i, version, lookupDefault) == Take
  }

  /** The symbols of the whole table that the lookup may return if there is just one of them. */
  ghost function Remembered(image: Image, name: string, version: Option<Version>, lookupDefault: bool): set<nat> {
    set i | 0 <= i < |image.syms| && Candidate(image, i, name) && VersionsFit(image, i)
            && Judge(image, i, version, lookupDefault) == Remember
  }

  /** A definition of that name that others may link against. */
  predicate Defines(symbol: Symbol, name: string) {
    symbol.name == name && symbol.section != 0 && symbol.bind in {1, 2}
  }

  /** The symbols that are found as soon as they are met.  Version 0 is local, 1 the base version, 2 the first real one;
      the 16th bit of a version hides it. */
  ghost function Admissible(image: Image, name: string, version: Option<Version>, lookupDefault: bool): set<nat>
    requires WellFormed(image)
  {
    set i: nat | 0 < i < |image.syms| && Defines(image.syms[i], name) &&
      match image.symbolVersions
      case None => version.None?
      case Some(ids) =>
        var index, hidden := ids[i] % 32768, (ids[i] / 32768) % 2 != 0;
        index != 0 &&
        match version
        case Some(v) => image.versions[index] == v || (index == 1 && !hidden && !lookupDefault)
        case None => index == 1 || (index == 2 && !lookupDefault)
  }

  /** The symbols that are found only if there is no other one: visible ones of other versions, if none is asked for. */
  ghost function Alternatives(image: Image, name: string, version: Option<Version>, lookupDefault: bool): set<nat>
    requires WellFormed(image)
  {
    set i: nat | 0 < i < |image.syms| && Defines(image.syms[i], name) &&
      match image.symbolVersions
      case None => false
      case Some(ids) =>
        version.None? && ids[i] % 32768 >= (if lookupDefault then 2 else 3) && (ids[i] / 32768) % 2 == 0
  }

  lemma {:induction false} ScanMeans(image: Image, name: string, version: Option<Version>, lookupDefault: bool)
    requires WellFormed(image)
    ensures Taken(image, name, version, lookupDefault) == Admissible(image, name, version, lookupDefault)
    ensures Remembered(image, name, version, lookupDefault) == Alternatives(image, name, version, lookupDefault)
  {
  }

  ghost function Members(s: seq<nat>): set<nat> {
    set x | x in s
  }

  lemma {:induction false} DistinctCount(s: seq<nat>)
    requires forall j, k :: 0 <= j < k < |s| ==> s[j] != s[k]
    ensures |Members(s)| == |s|
  {
    if s != [] {
      var init, last := s[..|s| - 1], s[|s| - 1];
      DistinctCount(init);
      assert last !in init;
      assert Members(s) == Members(init) + {last} by {
        assert s == init + [last];
      }
    }
  }

  lemma {:induction false} MembersStep(s: seq<nat>, among: set<nat>)
    requires s != []
    ensures among * Members(s) == (if s[0] in among then {s[0]} else {}) + among * Members(s[1..])
  {
    assert s == [s[0]] + s[1..];
    assert Members(s) == {s[0]} + Members(s[1..]);
  }

  lemma {:induction false} SingleMember(s: seq<nat>)
    ensures |s| == 1 ==> Members(s) == {s[0]}
  {
  }

  /** The symbols of a chain that are remembered, behind those remembered before. */
  ghost function Collected(path: seq<nat>, remember: set<nat>, remembered: seq<nat>): seq<nat> {
    if path == [] then remembered
    else Collected(path[1..], remember, if path[0] in remember then remembered + [path[0]] else remembered)
  }

  lemma {:induction false} CollectedMembers(path: seq<nat>, remember: set<nat>, remembered: seq<nat>)
    requires forall j, k :: 0 <= j < k < |path| ==> path[j] != path[k]
    requires forall j, k :: 0 <= j < k < |remembered| ==> remembered[j] != remembered[k]
    requires forall x :: x in remembered ==> x !in path
    ensures var all := Collected(path, remember, remembered);
            && (forall j, k :: 0 <= j < k < |all| ==> all[j] != all[k])
            && Members(all) == Members(remembered) + remember * Members(path)
  {
    if path != [] {
      var next := if path[0] in remember then remembered + [path[0]] else remembered;
      assert Members(next) == Members(remembered) + if path[0] in remember then {path[0]} else {};
      MembersStep(path, remember);
      CollectedMembers(path[1..], remember, next);
    }
  }

  /** The first member of a set on a chain. */
  function FirstIn(path: seq<nat>, s: set<nat>): (r: Option<nat>)
    ensures r.Some? ==> r.value in s && r.value in path
    ensures r.None? ==> forall j :: 0 <= j < |path| ==> path[j] !in s
  {
    if path == [] then None else if path[0] in s then Some(path[0]) else FirstIn(path[1..], s)
  }

  /** The walk returns the first symbol on the chain it may take, and without one the only symbol it has
      remembered. */
  lemma {:induction false} WalkMeaning(image: Image, path: seq<nat>, name: string, version: Option<Version>,
                                       lookupDefault: bool, remembered: seq<nat>)
    requires forall j :: 0 <= j < |path| ==> 0 < path[j] < |image.syms| && VersionsFit(image, path[j])
    requires image.symbolVersions.Some? || version.None?
    ensures var r := Walk(image, path, name, version, lookupDefault, remembered);
            var first := FirstIn(path, Taken(image, name, version, lookupDefault));
            var all := Collected(path, Remembered(image, name, version, lookupDefault), remembered);
            r == if first.Some? then first else if |all| == 1 then Some(all[0]) else None
    decreases path
  {
    if path != [] {
      var remember := Remembered(image, name, version, lookupDefault);
      WalkMeaning(image, path[1..], name, version, lookupDefault,
                  if path[0] in remember then remembered + [path[0]] else remembered);
    }
  }

  ghost function ChainOf(image: Image, bucket: nat): (path: seq<nat>)
    requires WellFormed(image) && bucket < |image.buckets|
    ensures IsChain(image, image.buckets[bucket], path)
    ensures forall j :: 0 <= j < |path| ==> VersionsFit(image, path[j])
  {
    assert ChainEnds(image, image.buckets[bucket]);
    var path :| IsChain(image, image.buckets[bucket], path);
    ChainInside(image, image.buckets[bucket], path);
    path
  }

  /** The outcome of `elf_find_symbol`: the index of a symbol. */
  ghost function Lookup(image: Image, name: string, version: Option<Version>, lookupDefault: bool): Option<nat>
    requires WellFormed(image)
  {
    if !image.dynamic || image.buckets == [] then None
    else Walk(image, ChainOf(image, BucketOf(image, name)), name, version, lookupDefault, [])
  }

  /** One chain is as good as the whole table: a lookup fails exactly when a scan of all symbols finds
      nothing that may be returned, and the uniqueness it counts on a chain is uniqueness in the table. */
  lemma {:induction false} LookupAgreesWithScan(image: Image, name: string, version: Option<Version>,
                                                lookupDefault: bool)
    requires WellFormed(image) && image.dynamic && image.buckets != []
    ensures var r := Lookup(image, name, version, lookupDefault);
            var admissible := Admissible(image, name, version, lookupDefault);
            var alternatives := Alternatives(image, name, version, lookupDefault);
            && (r.None? <==> admissible == {} && |alternatives| != 1)
            && (r.Some? ==> r.value in admissible || (admissible == {} && alternatives == {r.value}))
  {
    ScanMeans(image, name, version, lookupDefault);
    var bucket := BucketOf(image, name);
    var path := ChainOf(image, bucket);
    ChainInside(image, image.buckets[bucket], path);
    ChainDistinct(image, image.buckets[bucket], path);
    forall i: nat | Candidate(image, i, name) ensures i in path {
      assert OnItsChain(image, i);
    }
    if image.symbolVersions.None? && version.Some? {
      WalkGivesUp(image, path, name, version, lookupDefault);
    } else {
      WalkOfAllCandidates(image, path, name, version, lookupDefault);
    }
  }

  lemma {:induction false} WalkOfAllCandidates(image: Image, path: seq<nat>, name: string, version: Option<Version>,
                                               lookupDefault: bool)
    requires forall j :: 0 <= j < |path| ==> 0 < path[j] < |image.syms| && VersionsFit(image, path[j])
    requires forall j, k :: 0 <= j < k < |path| ==> path[j] != path[k]
    requires forall i :: 0 <= i && Candidate(image, i, name) ==> i in path
    requires image.symbolVersions.Some? || version.None?
    ensures var r := Walk(image, path, name, version, lookupDefault, []);
            var taken := Taken(image, name, version, lookupDefault);
            var remembered := Remembered(image, name, version, lookupDefault);
            && (r.None? <==> taken == {} && |remembered| != 1)
            && (r.Some? ==> r.value in taken || (taken == {} && remembered == {r.value}))
  {
    WalkMeaning(image, path, name, version, lookupDefault, []);
    var remember := Remembered(image, name, version, lookupDefault);
    var all := Collected(path, remember, []);
    CollectedMembers(path, remember, []);
    DistinctCount(all);
    SingleMember(all);
    assert Members(all) == Remembered(image, name, version, lookupDefault);
    assert Taken(image, name, version, lookupDefault) * Members(path) == Taken(image, name, version, lookupDefault);
  }

  lemma {:induction false} WalkGivesUp(image: Image, path: seq<nat>, name: string, version: Option<Version>,
                                       lookupDefault: bool)
    requires forall j :: 0 <= j < |path| ==> VersionsFit(image, path[j])
    requires image.symbolVersions.None? && version.Some?
    ensures Walk(image, path, name, version, lookupDefault, []).None?
    decreases path
  {
    if path != [] {
      WalkGivesUp(image, path[1..], name, version, lookupDefault);
    }
  }

  /** `elf_find_symbol`. */
  method ElfFindSymbol(image: Image, name: string, version: Option<Version>, lookupDefault: bool)
    returns (r: Option<nat>)
    requires WellFormed(image)
    ensures r == Lookup(image, name, version, lookupDefault)
  {
    if !image.dynamic || |image.buckets| == 0 {
      return None;
    }
    var hash := ElfHash(name);
    var bucket := hash as int % |image.buckets|;
    ghost var path, remembered: seq<nat> := ChainOf(image, bucket), [];
    var versionedSymbol, versionedSymbolCount := 0, 0;
    ChainInside(image, image.buckets[bucket], path);
    var i := image.buckets[bucket];
    while i != STN_UNDEF
      invariant IsChain(image, i, path)
      invariant forall j :: 0 <= j < |path| ==> 0 < path[j] < |image.syms| && VersionsFit(image, path[j])
      invariant Lookup(image, name, version, lookupDefault)
          == Walk(image, path, name, version, lookupDefault, remembered)
      invariant versionedSymbolCount == |remembered|
      invariant versionedSymbolCount > 0 ==> versionedSymbol == remembered[|remembered| - 1]
      decreases |path|
    {
      assert path[0] == i;
      var symbol := image.syms[i];
      if symbol.section == SHN_UNDEF || (symbol.bind != STB_GLOBAL && symbol.bind != STB_WEAK) || symbol.name != name {
        path, i := path[1..], image.chains[i];
        continue;
      }
      if image.symbolVersions.None? {
        return if version.None? then Some(i) else None;
      }
      var versionID := image.symbolVersions.value[i];
      var versionIndex := versionID % VER_NDX_FLAG_HIDDEN;
      var hidden := (versionID / VER_NDX_FLAG_HIDDEN) % 2 == 1;
      if versionIndex == VER_NDX_LOCAL {
        path, i := path[1..], image.chains[i];
        continue;
      }
      if version.Some? {
        if image.versions[versionIndex] == version.value {
          return Some(i);
        }
        if !hidden && versionIndex == VER_NDX_GLOBAL && !lookupDefault {
          return Some(i);
        }
      } else {
        if versionIndex == VER_NDX_GLOBAL || (!lookupDefault && versionIndex == VER_NDX_INITIAL) {
          return Some(i);
        }
        if !hidden {
          versionedSymbolCount := versionedSymbolCount + 1;
          versionedSymbol := i;
          remembered := remembered + [i];
        }
      }
      path, i := path[1..], image.chains[i];
    }
    r := if versionedSymbolCount == 1 then Some(versionedSymbol) else None;
  }

  // ----- resolving a reference against two images -----

  datatype Resolution = Resolved(address: nat) | MissingSymbol

  function Address(image: Image, symbol: Symbol): nat {
    (symbol.value + image.delta) % ADDRESS_SPACE
  }

  /** The version a reference asks for: none below the first real version. */
  function WantedVersion(image: Image, index: nat): Option<Version>
    requires VersionsFit(image, index)
  {
    if image.symbolVersions.None? then None
    else
      var v := image.symbolVersions.value[index] % VER_NDX_FLAG_HIDDEN;
      if v >= VER_NDX_INITIAL then Some(image.versions[v]) else None
  }

  /** A definition found in one of the two images. */
  datatype Definition = Definition(image: Image, symbol: Symbol)

  ghost function DefinitionIn(image: Image, name: string, version: Option<Version>): (d: Option<Definition>)
    requires WellFormed(image)
  {
    var r := Lookup(image, name, version, false);
    if r.Some? && r.value < |image.syms| then Some(Definition(image, image.syms[r.value])) else None
  }

  predicate IsStrong(d: Option<Definition>) {
    d.Some? && d.value.symbol.bind != STB_WEAK
  }

  /** The definition a non-local reference is bound to, given what the two images offer in search order. */
  function Choose(first: Option<Definition>, second: Option<Definition>): Option<Definition> {
    if IsStrong(first) then first
    else if IsStrong(second) then second
    else if first.Some? then first
    else second
  }

  ghost function Offers(image: Image, index: nat, shared: Image): (Option<Definition>, Option<Definition>)
    requires WellFormed(image) && WellFormed(shared) && index < |image.syms|
  {
    var name, version := image.syms[index].name, WantedVersion(image, index);
    var mine, theirs := DefinitionIn(image, name, version), DefinitionIn(shared, name, version);
    if image.symbolic then (mine, theirs) else (theirs, mine)
  }

  lemma {:induction false} LookupInside(image: Image, name: string, version: Option<Version>, lookupDefault: bool)
    requires WellFormed(image)
    ensures var r := Lookup(image, name, version, lookupDefault);
            r.Some? ==> Candidate(image, r.value, name)
  {
    if image.dynamic && image.buckets != [] {
      LookupAgreesWithScan(image, name, version, lookupDefault);
      var r := Lookup(image, name, version, lookupDefault);
      assert r.Some? ==>
        r.value in Admissible(image, name, version, lookupDefault) + Alternatives(image, name, version, lookupDefault);
    }
  }

  ghost function Resolve(image: Image, index: nat, shared: Image): Resolution
    requires WellFormed(image) && WellFormed(shared) && index < |image.syms|
  {
    var symbol := image.syms[index];
    if symbol.bind == STB_LOCAL then Resolved(Address(image, symbol))
    else
      Bind(symbol, Choose(Offers(image, index, shared).0, Offers(image, index, shared).1))
  }

  /** What becomes of a reference once the definition is chosen. */
  function Bind(symbol: Symbol, chosen: Option<Definition>): Resolution {
    match chosen
    case None => if symbol.bind == STB_WEAK then Resolved(0) else MissingSymbol
    case Some(d) => if d.symbol.kind == symbol.kind then Resolved(Address(d.image, d.symbol)) else MissingSymbol
  }

  /** `elf_resolve_symbol` for the symbol `index` of `image`. */
  method ElfResolveSymbol(image: Image, index: nat, shared: Image) returns (r: Resolution)
    requires WellFormed(image) && WellFormed(shared) && index < |image.syms|
    ensures r == Resolve(image, index, shared)
  {
    var symbol := image.syms[index];
    if symbol.bind == STB_LOCAL {
      return Resolved(Address(image, symbol));
    }
    var firstImage, secondImage := shared, image;
    if image.symbolic {
      firstImage, secondImage := secondImage, firstImage;
    }
    var versionInfo := None;
    if image.symbolVersions.Some? {
      var versionIndex := image.symbolVersions.value[index] % VER_NDX_FLAG_HIDDEN;
      if versionIndex >= VER_NDX_INITIAL {
        versionInfo := Some(image.versions[versionIndex]);
      }
    }
    var d := FindDefinition(firstImage, secondImage, symbol.name, versionInfo);
    if d.None? {
      return if symbol.bind == STB_WEAK then Resolved(0) else MissingSymbol;
    }
    if symbol.kind != d.value.symbol.kind {
      return MissingSymbol;
    }
    r := Resolved(Address(d.value.image, d.value.symbol));
  }

  /** The part of `elf_resolve_symbol` that asks the two images. */
  method FindDefinition(firstImage: Image, secondImage: Image, name: string, version: Option<Version>)
    returns (d: Option<Definition>)
    requires WellFormed(firstImage) && WellFormed(secondImage)
    ensures d == Choose(DefinitionIn(firstImage, name, version), DefinitionIn(secondImage, name, version))
  {
    d := None;
    var found := ElfFindSymbol(firstImage, name, version, false);
    LookupInside(firstImage, name, version, false);
    if found.Some? {
      d := Some(Definition(firstImage, firstImage.syms[found.value]));
    }
    if d.None? || d.value.symbol.bind == STB_WEAK {
      var second := ElfFindSymbol(secondImage, name, version, false);
      LookupInside(secondImage, name, version, false);
      if second.Some? && (d.None? || secondImage.syms[second.value].bind != STB_WEAK) {
        d := Some(Definition(secondImage, secondImage.syms[second.value]));
      }
    }
  }

  /** What an image offers is one of its linkable symbols of that name. */
  lemma {:induction false} OffersAreDefinitions(image: Image, name: string, version: Option<Version>)
    requires WellFormed(image)
    ensures var d := DefinitionIn(image, name, version);
            d.Some? ==> d.value.symbol in image.syms && Linkable(d.value.symbol) && d.value.symbol.name == name
  {
    LookupInside(image, name, version, false);
  }

  /** Two images that differ in the symbolic flag alone. */
  lemma {:induction false} SameChain(image: Image, i: nat, path: seq<nat>, flag: bool)
    ensures IsChain(image, i, path) <==> IsChain(image.(symbolic := flag), i, path)
    decreases path
  {
    if path != [] && i < |image.chains| {
      SameChain(image, image.chains[i], path[1..], flag);
    }
  }

  lemma {:induction false} SameWalk(image: Image, path: seq<nat>, name: string, version: Option<Version>,
                                    lookupDefault: bool, remembered: seq<nat>, flag: bool)
    requires forall j :: 0 <= j < |path| ==> VersionsFit(image, path[j])
    ensures Walk(image, path, name, version, lookupDefault, remembered)
         == Walk(image.(symbolic := flag), path, name, version, lookupDefault, remembered)
    decreases path
  {
    if path != [] {
      assert Candidate(image, path[0], name) == Candidate(image.(symbolic := flag), path[0], name);
      assert Judge(image, path[0], version, lookupDefault)
          == Judge(image.(symbolic := flag), path[0], version, lookupDefault);
      SameWalk(image, path[1..], name, version, lookupDefault, remembered, flag);
      SameWalk(image, path[1..], name, version, lookupDefault, remembered + [path[0]], flag);
    }
  }

  lemma {:induction false} FlagKeepsLookup(image: Image, name: string, version: Option<Version>, lookupDefault: bool,
                                           flag: bool)
    requires WellFormed(image)
    ensures WellFormed(image.(symbolic := flag))
    ensures Lookup(image, name, version, lookupDefault)
        == Lookup(image.(symbolic := flag), name, version, lookupDefault)
  {
    var other := image.(symbolic := flag);
    forall b | 0 <= b < |other.buckets| ensures ChainEnds(other, other.buckets[b]) {
      assert ChainEnds(image, image.buckets[b]);
      var path :| IsChain(image, image.buckets[b], path);
      SameChain(image, image.buckets[b], path, flag);
    }
    forall i | 0 < i < |other.syms| && Linkable(other.syms[i]) && other.buckets != [] ensures OnItsChain(other, i) {
      assert OnItsChain(image, i);
      var start := image.buckets[BucketOf(image, image.syms[i].name)];
      forall path | IsChain(other, start, path) ensures i in path {
        SameChain(image, start, path, flag);
      }
    }
    assert WellFormed(other);
    if image.dynamic && image.buckets != [] {
      var bucket := BucketOf(image, name);
      SameChain(image, image.buckets[bucket], ChainOf(other, bucket), flag);
      ChainUnique(image, image.buckets[bucket], ChainOf(image, bucket), ChainOf(other, bucket));
      SameWalk(image, ChainOf(image, bucket), name, version, lookupDefault, [], flag);
    }
  }

  /** Linking symbolically or not makes a difference for ties alone: a reference that just one of the two
      images offers a strong definition for is resolved the same way, whichever image is asked first. */
  lemma {:induction false} FlagMattersForTiesAlone(image: Image, index: nat, shared: Image, flag: bool)
    requires WellFormed(image) && WellFormed(shared) && index < |image.syms|
    requires var (first, second) := Offers(image, index, shared);
             IsStrong(first) != IsStrong(second) || first.None? || second.None? || image.syms[index].bind == STB_LOCAL
    ensures WellFormed(image.(symbolic := flag))
    ensures Resolve(image, index, shared) == Resolve(image.(symbolic := flag), index, shared)
  {
    var other, symbol := image.(symbolic := flag), image.syms[index];
    var version := WantedVersion(image, index);
    FlagKeepsLookup(image, symbol.name, version, false, flag);
    assert WantedVersion(other, index) == version;
    var mine, mine' := DefinitionIn(image, symbol.name, version), DefinitionIn(other, symbol.name, version);
    var theirs := DefinitionIn(shared, symbol.name, version);
    assert SameDefinition(mine, mine');
    BindAlike(symbol, mine, mine', theirs);
  }

  ghost predicate SameDefinition(a: Option<Definition>, b: Option<Definition>) {
    a.Some? == b.Some? && (a.Some? ==> a.value.symbol == b.value.symbol && a.value.image.delta == b.value.image.delta)
  }

  lemma {:induction false} BindAlike(symbol: Symbol, mine: Option<Definition>, mine': Option<Definition>,
                                     theirs: Option<Definition>)
    requires SameDefinition(mine, mine')
    ensures Bind(symbol, Choose(mine, theirs)) == Bind(symbol, Choose(mine', theirs))
    ensures Bind(symbol, Choose(theirs, mine)) == Bind(symbol, Choose(theirs, mine'))
    ensures IsStrong(mine) != IsStrong(theirs) || mine.None? || theirs.None? ==>
      Bind(symbol, Choose(mine, theirs)) == Bind(symbol, Choose(theirs, mine'))
  {
  }

  /** An address is that of a symbol: its value moved by the delta of its image, in 64 bits. */
  predicate IsAddressOf(address: int, image: Image, symbol: Symbol) {
    0 <= address < 0x1_0000_0000_0000_0000 && (address - symbol.value - image.delta) % 0x1_0000_0000_0000_0000 == 0
  }

  lemma {:induction false} AddressMeans(image: Image, symbol: Symbol)
    ensures IsAddressOf(Address(image, symbol), image, symbol)
  {
    var sum := symbol.value + image.delta;
    assert Address(image, symbol) - sum == -(sum / ADDRESS_SPACE) * ADDRESS_SPACE;
  }

  /** A reference is bound to that symbol, or fails if it is one of another type. */
  predicate IsBoundTo(r: Resolution, symbol: Symbol, image: Image, found: Symbol) {
    if found.kind == symbol.kind then r.Resolved? && IsAddressOf(r.address, image, found) else r == MissingSymbol
  }

  /** A local reference is to the symbol itself, whatever the other image has. */
  lemma {:induction false} LocalIsItself(image: Image, index: nat, shared: Image)
    requires WellFormed(image) && WellFormed(shared) && index < |image.syms| && image.syms[index].bind == 0
    ensures var r := Resolve(image, index, shared);
            r.Resolved? && IsAddressOf(r.address, image, image.syms[index])
  {
    AddressMeans(image, image.syms[index]);
  }

  /** A reference asks for the version it was linked with, and for none without versions or below the first real one. */
  lemma {:induction false} WantedMeans(image: Image, index: nat)
    requires VersionsFit(image, index)
    ensures var wanted := WantedVersion(image, index);
            match image.symbolVersions
            case None => wanted == None
            case Some(ids) =>
              wanted == if ids[index] % 32768 >= 2 then Some(image.versions[ids[index] % 32768]) else None
  {
  }

  /** If just one of the two images has a strong definition, the reference is bound to that one, whether the
      images are asked in one order or in the other; the same goes for the only definition at all. */
  lemma {:induction false} StrongDefinitionWins(image: Image, index: nat, shared: Image, inShared: bool)
    requires WellFormed(image) && WellFormed(shared) && index < |image.syms| && image.syms[index].bind != STB_LOCAL
    requires var name, version := image.syms[index].name, WantedVersion(image, index);
             var (has, other) := if inShared then (shared, image) else (image, shared);
             var d, d' := DefinitionIn(has, name, version), DefinitionIn(other, name, version);
             d.Some? && (d'.None? || (d.value.symbol.bind == 1 && d'.value.symbol.bind == 2))
    ensures var has := if inShared then shared else image;
            var i := Lookup(has, image.syms[index].name, WantedVersion(image, index), false);
            && i.Some? && 0 < i.value < |has.syms| && Linkable(has.syms[i.value])
            && IsBoundTo(Resolve(image, index, shared), image.syms[index], has, has.syms[i.value])
  {
    var has := if inShared then shared else image;
    LookupInside(has, image.syms[index].name, WantedVersion(image, index), false);
    var i := Lookup(has, image.syms[index].name, WantedVersion(image, index), false).value;
    AddressMeans(has, has.syms[i]);
  }

  /** A reference that is not local and resolves is weak and at 0, with no definition in either image, or has a
      definition of its name and type in one of the two images. */
  lemma {:induction false} ResolvedMeans(image: Image, index: nat, shared: Image, address: nat)
    requires WellFormed(image) && WellFormed(shared) && index < |image.syms| && image.syms[index].bind != 0
    requires Resolve(image, index, shared) == Resolved(address)
    ensures var symbol := image.syms[index];
            var (first, second) := Offers(image, index, shared);
            || (symbol.bind == 2 && address == 0 && first.None? && second.None?)
            || (exists d :: (first == Some(d) || second == Some(d))
                  && d.symbol.kind == symbol.kind && d.symbol.name == symbol.name && Linkable(d.symbol)
                  && d.symbol in d.image.syms && IsAddressOf(address, d.image, d.symbol))
  {
    var (first, second) := Offers(image, index, shared);
    OffersAreDefinitions(image, image.syms[index].name, WantedVersion(image, index));
    OffersAreDefinitions(shared, image.syms[index].name, WantedVersion(image, index));
    var chosen := Choose(first, second);
    if chosen.Some? {
      AddressMeans(chosen.value.image, chosen.value.symbol);
      assert first == Some(chosen.value) || second == Some(chosen.value);
    }
  }

  /** With two strong definitions, or two weak ones, the image that is asked first decides. */
  lemma {:induction false} TiesFollowSearchOrder(image: Image, index: nat, shared: Image)
    requires WellFormed(image) && WellFormed(shared) && index < |image.syms| && image.syms[index].bind != STB_LOCAL
    requires var (first, second) := Offers(image, index, shared);
             first.Some? && second.Some? && first.value.symbol.bind == second.value.symbol.bind
    ensures var asked := if image.symbolic then image else shared;
            var i := Lookup(asked, image.syms[index].name, WantedVersion(image, index), false);
            && i.Some? && 0 < i.value < |asked.syms| && Linkable(asked.syms[i.value])
            && IsBoundTo(Resolve(image, index, shared), image.syms[index], asked, asked.syms[i.value])
  {
    var asked := if image.symbolic then image else shared;
    LookupInside(asked, image.syms[index].name, WantedVersion(image, index), false);
    var i := Lookup(asked, image.syms[index].name, WantedVersion(image, index), false).value;
    AddressMeans(asked, asked.syms[i]);
  }

  /** A reference stays unresolved exactly when a scan of both images finds nothing to bind it to. */
  lemma {:induction false} UnresolvedMeansUndefined(image: Image, index: nat, shared: Image)
    requires WellFormed(image) && WellFormed(shared) && index < |image.syms| && image.syms[index].bind != STB_LOCAL
    ensures var name, version := image.syms[index].name, WantedVersion(image, index);
            var (first, second) := Offers(image, index, shared);
            && (NothingToBind(image, name, version) && NothingToBind(shared, name, version) <==>
                  first.None? && second.None?)
            && (first.None? && second.None? ==>
                  Resolve(image, index, shared) == if image.syms[index].bind == 2 then Resolved(0) else MissingSymbol)
  {
    var name, version := image.syms[index].name, WantedVersion(image, index);
    NothingIsOffered(image, name, version);
    NothingIsOffered(shared, name, version);
  }

  /** A scan of the symbol table finds nothing to bind a reference to; an image without a dynamic section or without
      buckets has no symbols to scan. */
  ghost predicate NothingToBind(image: Image, name: string, version: Option<Version>)
    requires WellFormed(image)
  {
    !image.dynamic || image.buckets == []
    || (Admissible(image, name, version, false) == {} && |Alternatives(image, name, version, false)| != 1)
  }

  lemma {:induction false} NothingIsOffered(image: Image, name: string, version: Option<Version>)
    requires WellFormed(image)
    ensures DefinitionIn(image, name, version).None? <==> NothingToBind(image, name, version)
  {
    if image.dynamic && image.buckets != [] {
      LookupAgreesWithScan(image, name, version, false);
      LookupInside(image, name, version, false);
    }
  }
}
