/** The kernel's table of driver settings: reference-counted handles that several loads share.  Memory
    is explicit: a handle is a number, `heap` holds the handles that are allocated, and freeing one takes
    it out of `heap`, so that nothing could be looked up through it any more. */
module SettingsHandles {
  import opened Options
  import opened SettingsText

  const B_OS_NAME_LENGTH := 32
  const MAX_SETTINGS_SIZE := 32768
  const B_SAFEMODE_DRIVER_SETTINGS := "/safemode/"

  /** `ref_count` is -1 for a handle that is neither counted nor listed; `parsed` stands for the magic. */
  datatype Handle = Handle(name: string, refCount: int, parsed: bool, text: Option<string>, contents: Contents)

  /** The parameters of a handle; or what a parser that failed has left there, pointing into a text that is freed. */
  datatype Contents = Parameters(parameters: seq<Parameter>) | Leftover

  datatype State = State(heap: map<nat, Handle>, list: seq<nat>, next: nat)

  datatype Preloaded = Preloaded(name: string, text: Option<string>)

  /** What `strlcpy` leaves of a name in the `name` field. */
  function StoredName(name: string): string {
    if |name| < B_OS_NAME_LENGTH then name else name[..B_OS_NAME_LENGTH - 1]
  }

  /** `parse_settings`; a handle without a text has no parameters. */
  function ParseHandle(text: Option<string>): Option<seq<Parameter>> {
    match text
    case None => Some([])
    case Some(s) =>
      match ParseText(s)
      case Failed(_) => None
      case Parsed(ps, _) => Some(ps)
  }

  // ----- the operations on values -----

  /** The first listed handle of that name. */
  function Find(heap: map<nat, Handle>, list: seq<nat>, name: string): (r: Option<nat>)
    ensures r.Some? ==> r.value in list && r.value in heap && heap[r.value].name == name
    ensures r.None? ==> forall i :: 0 <= i < |list| && list[i] in heap ==> heap[list[i]].name != name
  {
    if list == [] then None
    else if list[0] in heap && heap[list[0]].name == name then Some(list[0])
    else Find(heap, list[1..], name)
  }

  function Remove(list: seq<nat>, h: nat): seq<nat> {
    if list == [] then []
    else if list[0] == h then list[1..]
    else [list[0]] + Remove(list[1..], h)
  }

  function Free(s: State, h: nat): State {
    s.(heap := s.heap - {h})
  }

  function Unlist(s: State, h: nat): State {
    s.(list := Remove(s.list, h))
  }

  /** `load_driver_settings_from_file`; `file` is what could be read, and a handle without a name is not
      counted. */
  function NewFromFile(s: State, name: Option<string>, file: Option<string>): (State, Option<nat>) {
    if file.None? || !(0 < |file.value| < MAX_SETTINGS_SIZE) then (s, None)
    else
      match ParseHandle(file)
      case None => (s, None)
      case Some(ps) =>
        var handle := match name
          case Some(n) => Handle(StoredName(n), 1, true, file, Parameters(ps))
          case None => Handle("", -1, true, file, Parameters(ps));
        (s.(heap := s.heap[s.next := handle], next := s.next + 1), Some(s.next))
  }

  /** `load_driver_settings_file`. */
  function LoadFile(s: State, file: Option<string>): (State, Option<nat>) {
    NewFromFile(s, None, file)
  }

  /** Another load of a listed handle; the first one parses it. */
  function Share(s: State, h: nat): (State, Option<nat>)
    requires h in s.heap
  {
    var handle := s.heap[h].(refCount := s.heap[h].refCount + 1);
    if handle.parsed then (s.(heap := s.heap[h := handle]), Some(h))
    else
      match ParseHandle(handle.text)
      case Some(ps) => (s.(heap := s.heap[h := handle.(parsed := true, contents := Parameters(ps))]), Some(h))
      case None => (s.(heap := s.heap[h := handle.(parsed := true, text := None, contents := Leftover)]), None)
  }

  function LoadFresh(s: State, name: string, startup: bool, file: Option<string>): (State, Option<nat>) {
    if startup then (s, None)
    else
      var (s', h) := NewFromFile(s, Some(name), file);
      (if h.Some? then s'.(list := s'.list + [h.value]) else s', h)
  }

  /** `load_driver_settings` in the kernel; `boot` tells whether the boot device is there at that moment. */
  function Load(s: State, name: string, boot: bool, startup: bool, file: Option<string>): (State, Option<nat>) {
    match Find(s.heap, s.list, name)
    case None => LoadFresh(s, name, startup, file)
    case Some(h) =>
      if s.heap[h].refCount == 0 && boot then LoadFresh(Free(Unlist(s, h), h), name, startup, file)
      else Share(s, h)
  }

  /** `unload_driver_settings` on a valid handle. */
  function Unload(s: State, h: nat, boot: bool): State
    requires h in s.heap
  {
    var handle := s.heap[h];
    if !handle.parsed then s
    else if handle.refCount > 0 then
      var s' := s.(heap := s.heap[h := handle.(refCount := handle.refCount - 1)]);
      if handle.refCount == 1 && boot then Free(Unlist(s', h), h) else s'
    else Free(s, h)
  }

  function InitialHandle(p: Preloaded): Handle {
    Handle(StoredName(p.name), if StoredName(p.name) == B_SAFEMODE_DRIVER_SETTINGS then 1 else 0, false, p.text,
           Parameters([]))
  }

  /** `driver_settings_init`: the settings the boot loader passed on, not parsed yet. */
  function Init(preloaded: seq<Preloaded>): State {
    State(map h: nat | h < |preloaded| :: InitialHandle(preloaded[h]), seq(|preloaded|, h => h), |preloaded|)
  }

  lemma {:induction false} InitStep(preloaded: seq<Preloaded>, i: nat)
    requires i < |preloaded|
    ensures var s := Init(preloaded[..i]);
            Init(preloaded[..i + 1]) == State(s.heap[i := InitialHandle(preloaded[i])], s.list + [i], i + 1)
  {
  }

  // ----- runs -----

  datatype Event =
    | LoadEvent(name: string, boot: bool, startup: bool, file: Option<string>)
    | LoadFileEvent(file: Option<string>)
    | UnloadEvent(handle: nat, boot: bool)

  /** A state and its books: how many loads of a handle have not been unloaded yet, and how many of its
      references belong to no load. */
  datatype Run = Run(s: State, out: map<nat, nat>, extra: map<nat, nat>)

  function Count(books: map<nat, nat>, h: nat): nat {
    if h in books then books[h] else 0
  }

  function Book(books: map<nat, nat>, h: Option<nat>): map<nat, nat> {
    if h.None? then books else books[h.value := Count(books, h.value) + 1]
  }

  /** A load that gets no handle back although one is listed and stays listed: its text does not parse. */
  function FailedShare(s: State, name: string, boot: bool): Option<nat> {
    match Find(s.heap, s.list, name)
    case None => None
    case Some(h) =>
      if !(s.heap[h].refCount == 0 && boot) && !s.heap[h].parsed && ParseHandle(s.heap[h].text).None?
      then Some(h) else None
  }

  /** Unloads match loads. */
  predicate Legal(r: Run, e: Event) {
    e.UnloadEvent? ==> Count(r.out, e.handle) > 0
  }

  /** Unloading a handle that is not allocated has no meaning here; it never comes to that. */
  function Step(r: Run, e: Event): Run {
    match e
    case LoadEvent(name, boot, startup, file) =>
      var (s, h) := Load(r.s, name, boot, startup, file);
      Run(s, Book(r.out, h), Book(r.extra, FailedShare(r.s, name, boot)))
    case LoadFileEvent(file) =>
      var (s, h) := LoadFile(r.s, file);
      Run(s, Book(r.out, h), r.extra)
    case UnloadEvent(h, boot) =>
      if Count(r.out, h) == 0 || h !in r.s.heap then r
      else Run(Unload(r.s, h, boot), r.out[h := Count(r.out, h) - 1], r.extra)
  }

  /** A run that starts in `a`, obeys the rule for unloads, and ends in `b`. */
  ghost predicate Runs(a: Run, events: seq<Event>, b: Run)
    decreases events
  {
    if events == [] then a == b else Legal(a, events[0]) && Runs(Step(a, events[0]), events[1..], b)
  }

  ghost function InitialRun(preloaded: seq<Preloaded>): Run {
    var s := Init(preloaded);
    Run(s, map[], map h: nat | h < |preloaded| && s.heap[h].refCount == 1 :: 1)
  }

  predicate Distinct(list: seq<nat>) {
    forall i, j :: 0 <= i < j < |list| ==> list[i] != list[j]
  }

  /** The books are right about `h`: a listed handle is allocated and counts its loads and its extra
      references, and a load that has not been unloaded holds an allocated, parsed handle, which is the
      only load of it if it is not listed. */
  ghost predicate Booked(r: Run, h: nat) {
    && (h in r.s.list ==> h in r.s.heap && r.s.heap[h].refCount == Count(r.out, h) + Count(r.extra, h))
    && (Count(r.out, h) > 0 ==> h in r.s.heap && r.s.heap[h].parsed)
    && (Count(r.out, h) > 0 && h !in r.s.list ==> r.s.heap[h].refCount == -1 && Count(r.out, h) == 1)
    && (Count(r.extra, h) > 0 ==> h in r.s.list)
    && (h in r.s.heap ==> h < r.s.next)
  }

  ghost predicate Balanced(r: Run) {
    Distinct(r.s.list) && forall h: nat :: Booked(r, h)
  }

  lemma {:induction false} RemoveMembers(list: seq<nat>, h: nat, x: nat)
    requires Distinct(list)
    ensures x in Remove(list, h) <==> x in list && x != h
  {
    if list != [] {
      assert list == [list[0]] + list[1..];
      if list[0] == h {
        assert forall j :: 0 <= j < |list[1..]| ==> list[1..][j] == list[j + 1];
      } else {
        RemoveMembers(list[1..], h, x);
      }
    }
  }

  lemma {:induction false} RemoveDistinct(list: seq<nat>, h: nat)
    requires Distinct(list)
    ensures Distinct(Remove(list, h))
  {
    if list != [] && list[0] != h {
      var rest := Remove(list[1..], h);
      RemoveDistinct(list[1..], h);
      forall j | 0 <= j < |rest| ensures rest[j] != list[0] {
        RemoveMembers(list[1..], h, rest[j]);
      }
    }
  }

  lemma {:induction false} ShareBalanced(r: Run, h: nat)
    requires Balanced(r) && h in r.s.list && h in r.s.heap
    ensures var (s, res) := Share(r.s, h);
            var failed := if !r.s.heap[h].parsed && ParseHandle(r.s.heap[h].text).None? then Some(h) else None;
            Balanced(Run(s, Book(r.out, res), Book(r.extra, failed)))
  {
    var (s, res) := Share(r.s, h);
    var failed := if !r.s.heap[h].parsed && ParseHandle(r.s.heap[h].text).None? then Some(h) else None;
    var r' := Run(s, Book(r.out, res), Book(r.extra, failed));
    forall x: nat ensures Booked(r', x) {
      assert Booked(r, x);
    }
  }

  lemma {:induction false} FreshBalanced(r: Run, name: string, startup: bool, file: Option<string>)
    requires Balanced(r)
    ensures var (s, res) := LoadFresh(r.s, name, startup, file);
            Balanced(Run(s, Book(r.out, res), r.extra))
  {
    var (s, res) := LoadFresh(r.s, name, startup, file);
    assert Booked(r, r.s.next);
    forall x: nat ensures Booked(Run(s, Book(r.out, res), r.extra), x) {
      assert Booked(r, x);
    }
  }

  /** Taking an unreferenced handle out of the list and freeing it. */
  lemma {:induction false} DropBalanced(r: Run, h: nat)
    requires Balanced(r) && h in r.s.list && h in r.s.heap && r.s.heap[h].refCount == 0
    ensures Balanced(r.(s := Free(Unlist(r.s, h), h)))
  {
    RemoveDistinct(r.s.list, h);
    assert Booked(r, h);
    forall x: nat ensures Booked(r.(s := Free(Unlist(r.s, h), h)), x) {
      RemoveMembers(r.s.list, h, x);
      assert Booked(r, x);
    }
  }

  lemma {:induction false} LoadBalanced(r: Run, name: string, boot: bool, startup: bool, file: Option<string>)
    requires Balanced(r)
    ensures Balanced(Step(r, LoadEvent(name, boot, startup, file)))
  {
    var found := Find(r.s.heap, r.s.list, name);
    if found.None? {
      FreshBalanced(r, name, startup, file);
    } else if r.s.heap[found.value].refCount == 0 && boot {
      DropBalanced(r, found.value);
      FreshBalanced(r.(s := Free(Unlist(r.s, found.value), found.value)), name, startup, file);
    } else {
      ShareBalanced(r, found.value);
    }
  }

  lemma {:induction false} LoadFileBalanced(r: Run, file: Option<string>)
    requires Balanced(r)
    ensures Balanced(Step(r, LoadFileEvent(file)))
  {
    var r' := Step(r, LoadFileEvent(file));
    assert Booked(r, r.s.next);
    forall x: nat ensures Booked(r', x) {
      assert Booked(r, x);
    }
  }

  lemma {:induction false} UnloadBalanced(r: Run, h: nat, boot: bool)
    requires Balanced(r) && Legal(r, UnloadEvent(h, boot))
    ensures Balanced(Step(r, UnloadEvent(h, boot)))
  {
    var out := r.out[h := Count(r.out, h) - 1];
    assert Booked(r, h);
    if h in r.s.list {
      var handle := r.s.heap[h];
      var less := Run(r.s.(heap := r.s.heap[h := handle.(refCount := handle.refCount - 1)]), out, r.extra);
      forall x: nat ensures Booked(less, x) {
        assert Booked(r, x);
      }
      if handle.refCount == 1 && boot {
        DropBalanced(less, h);
      }
    } else {
      forall x: nat ensures Booked(Run(Free(r.s, h), out, r.extra), x) {
        assert Booked(r, x);
      }
    }
  }

  lemma {:induction false} StepBalanced(r: Run, e: Event)
    requires Balanced(r) && Legal(r, e)
    ensures Balanced(Step(r, e))
  {
    match e
    case LoadEvent(name, boot, startup, file) => LoadBalanced(r, name, boot, startup, file);
    case LoadFileEvent(file) => LoadFileBalanced(r, file);
    case UnloadEvent(h, boot) => UnloadBalanced(r, h, boot);
  }

  lemma {:induction false} InitBalanced(preloaded: seq<Preloaded>)
    ensures Balanced(InitialRun(preloaded))
  {
    var r := InitialRun(preloaded);
    forall h: nat ensures Booked(r, h) {
      if h in r.s.list {
        assert r.s.list[h] == h;
      }
      if h < |preloaded| {
        assert r.s.list[h] == h;
      }
    }
  }

  lemma {:induction false} RunBalanced(a: Run, events: seq<Event>, b: Run)
    requires Balanced(a) && Runs(a, events, b)
    ensures Balanced(b)
    decreases events
  {
    if events != [] {
      StepBalanced(a, events[0]);
      RunBalanced(Step(a, events[0]), events[1..], b);
    }
  }

  /** Whatever is loaded and unloaded, whenever the boot device appears: the reference counts are the loads
      outstanding and the extra references, and no load outstanding holds a freed handle. */
  lemma {:induction false} EveryRunIsBalanced(preloaded: seq<Preloaded>, events: seq<Event>, r: Run)
    requires Runs(InitialRun(preloaded), events, r)
    ensures forall h :: h in r.s.list ==>
              h in r.s.heap && r.s.heap[h].refCount == Count(r.out, h) + Count(r.extra, h)
    ensures forall h :: Count(r.out, h) > 0 ==> h in r.s.heap && r.s.heap[h].parsed
  {
    InitBalanced(preloaded);
    RunBalanced(InitialRun(preloaded), events, r);
    forall h: nat
      ensures h in r.s.list ==> h in r.s.heap && r.s.heap[h].refCount == Count(r.out, h) + Count(r.extra, h)
      ensures Count(r.out, h) > 0 ==> h in r.s.heap && r.s.heap[h].parsed
    {
      assert Booked(r, h);
    }
  }

  // ----- what the extra references are -----

  /** The references a preloaded handle has before it is loaded: one for the safe mode settings. */
  function FirstReferences(preloaded: seq<Preloaded>, h: nat): nat {
    if h < |preloaded| && StoredName(preloaded[h].name) == B_SAFEMODE_DRIVER_SETTINGS then 1 else 0
  }

  /** Every handle that is still to be parsed can be. */
  ghost predicate Parseable(s: State) {
    forall h: nat :: h in s.heap && !s.heap[h].parsed ==> ParseHandle(s.heap[h].text).Some?
  }

  lemma {:induction false} StepParseable(r: Run, e: Event)
    requires Balanced(r) && Parseable(r.s) && Legal(r, e)
    ensures Parseable(Step(r, e).s) && Step(r, e).extra == r.extra
  {
  }

  lemma {:induction false} RunParseable(a: Run, events: seq<Event>, b: Run)
    requires Balanced(a) && Parseable(a.s) && Runs(a, events, b)
    ensures b.extra == a.extra
    decreases events
  {
    if events != [] {
      StepParseable(a, events[0]);
      StepBalanced(a, events[0]);
      RunParseable(Step(a, events[0]), events[1..], b);
    }
  }

  /** When the preloaded settings all parse, a reference count is the number of loads outstanding, and one
      more for the preloaded safe mode settings alone. */
  lemma {:induction false} EveryRunCountsLoads(preloaded: seq<Preloaded>, events: seq<Event>, r: Run, h: nat)
    requires Runs(InitialRun(preloaded), events, r)
    requires forall i :: 0 <= i < |preloaded| ==> ParseHandle(preloaded[i].text).Some?
    requires h in r.s.list
    ensures h in r.s.heap
    ensures r.s.heap[h].refCount == Count(r.out, h) + FirstReferences(preloaded, h)
  {
    InitBalanced(preloaded);
    RunBalanced(InitialRun(preloaded), events, r);
    RunParseable(InitialRun(preloaded), events, r);
    assert Booked(r, h);
  }

  // ----- a failed parse -----

  /** What a run leaves of the preloaded settings: a handle still to be parsed is one of them, with its text and only
      its first references; and a handle has lost its parameters if its text was preloaded, does not parse and has
      been asked for, which is when a load is refused and keeps its reference. */
  ghost predicate Traced(preloaded: seq<Preloaded>, r: Run) {
    && |preloaded| <= r.s.next
    && forall h: nat :: h in r.s.heap ==> TracedHandle(preloaded, h, r.s.heap[h], Count(r.extra, h))
  }

  /** What a text says, or nothing without a text. */
  ghost predicate SettingsOf(text: Option<string>, ps: seq<Parameter>) {
    match text
    case None => ps == []
    case Some(s) => exists rest :: ParseText(s) == Parsed(ps, rest)
  }

  ghost predicate TracedHandle(preloaded: seq<Preloaded>, h: nat, handle: Handle, extra: nat) {
    var first := FirstReferences(preloaded, h);
    && (!handle.parsed ==> h < |preloaded| && extra == first)
    && (!handle.contents.Leftover? && h < |preloaded| ==> handle.text == preloaded[h].text)
    && (!handle.contents.Leftover? && handle.parsed ==> SettingsOf(handle.text, handle.contents.parameters))
    && (handle.contents.Leftover? <==> h < |preloaded| && handle.parsed && ParseHandle(preloaded[h].text).None?)
    && (handle.contents.Leftover? <==> extra > first)
  }

  lemma {:induction false} ShareTraced(preloaded: seq<Preloaded>, r: Run, h: nat)
    requires Traced(preloaded, r) && h in r.s.heap
    ensures var (s, res) := Share(r.s, h);
            var failed := if !r.s.heap[h].parsed && ParseHandle(r.s.heap[h].text).None? then Some(h) else None;
            Traced(preloaded, Run(s, Book(r.out, res), Book(r.extra, failed)))
  {
    var (s, res) := Share(r.s, h);
    var failed := if !r.s.heap[h].parsed && ParseHandle(r.s.heap[h].text).None? then Some(h) else None;
    forall x: nat | x in s.heap ensures TracedHandle(preloaded, x, s.heap[x], Count(Book(r.extra, failed), x)) {
      assert TracedHandle(preloaded, x, r.s.heap[x], Count(r.extra, x));
    }
  }

  lemma {:induction false} FileTraced(preloaded: seq<Preloaded>, r: Run, name: Option<string>, file: Option<string>)
    requires Balanced(r) && Traced(preloaded, r)
    ensures Traced(preloaded, r.(s := NewFromFile(r.s, name, file).0))
  {
    assert Booked(r, r.s.next);
  }

  lemma {:induction false} LoadTraced(preloaded: seq<Preloaded>, r: Run, name: string, boot: bool, startup: bool,
                                      file: Option<string>)
    requires Balanced(r) && Traced(preloaded, r)
    ensures Traced(preloaded, Step(r, LoadEvent(name, boot, startup, file)))
  {
    var found := Find(r.s.heap, r.s.list, name);
    if found.None? {
      FileTraced(preloaded, r, Some(name), file);
    } else if r.s.heap[found.value].refCount == 0 && boot {
      DropBalanced(r, found.value);
      FileTraced(preloaded, r.(s := Free(Unlist(r.s, found.value), found.value)), Some(name), file);
    } else {
      ShareTraced(preloaded, r, found.value);
    }
  }

  lemma {:induction false} StepTraced(preloaded: seq<Preloaded>, r: Run, e: Event)
    requires Balanced(r) && Traced(preloaded, r) && Legal(r, e)
    ensures Traced(preloaded, Step(r, e))
  {
    match e
    case LoadEvent(name, boot, startup, file) => LoadTraced(preloaded, r, name, boot, startup, file);
    case LoadFileEvent(file) => FileTraced(preloaded, r, None, file);
    case UnloadEvent(h, boot) =>
  }

  lemma {:induction false} RunTraced(preloaded: seq<Preloaded>, a: Run, events: seq<Event>, b: Run)
    requires Balanced(a) && Traced(preloaded, a) && Runs(a, events, b)
    ensures Traced(preloaded, b)
    decreases events
  {
    if events != [] {
      StepTraced(preloaded, a, events[0]);
      StepBalanced(a, events[0]);
      RunTraced(preloaded, Step(a, events[0]), events[1..], b);
    }
  }

  /** After any run, a load gives out a handle without its parameters exactly if it finds a preloaded one whose text
      does not parse and that has been asked for before; or, as a caller sees it, a preloaded one that a load has been
      refused for before. */
  lemma {:induction false} LoadGivesParameters(preloaded: seq<Preloaded>, events: seq<Event>, r: Run, name: string,
                                               boot: bool, startup: bool, file: Option<string>)
    requires Runs(InitialRun(preloaded), events, r)
    ensures var (s, given) := Load(r.s, name, boot, startup, file);
            given.Some? ==> (
              var h := given.value;
              var found := Find(r.s.heap, r.s.list, name) == Some(h);
              && h in s.heap
              && (s.heap[h].contents.Leftover? <==>
                    found && h < |preloaded| && ParseHandle(preloaded[h].text).None? && r.s.heap[h].parsed)
              && (s.heap[h].contents.Leftover? <==>
                    found && Count(r.extra, h) > FirstReferences(preloaded, h))
              && (!s.heap[h].contents.Leftover? ==> SettingsOf(s.heap[h].text, s.heap[h].contents.parameters)))
  {
    InitBalanced(preloaded);
    RunBalanced(InitialRun(preloaded), events, r);
    RunTraced(preloaded, InitialRun(preloaded), events, r);
    var found := Find(r.s.heap, r.s.list, name);
    if found.Some? && !(r.s.heap[found.value].refCount == 0 && boot) {
      ListedGivesParameters(preloaded, r, found.value);
    } else {
      FreshGivesParameters(preloaded, r, name, startup, file, found);
    }
  }

  lemma {:induction false} ListedGivesParameters(preloaded: seq<Preloaded>, r: Run, h: nat)
    requires Balanced(r) && Traced(preloaded, r) && h in r.s.heap
    ensures var (s, given) := Share(r.s, h);
            given.Some? ==>
              && given.value == h && h in s.heap
              && (s.heap[h].contents.Leftover? <==>
                    h < |preloaded| && ParseHandle(preloaded[h].text).None? && r.s.heap[h].parsed)
              && (s.heap[h].contents.Leftover? <==> Count(r.extra, h) > FirstReferences(preloaded, h))
              && (!s.heap[h].contents.Leftover? ==> SettingsOf(s.heap[h].text, s.heap[h].contents.parameters))
  {
    assert TracedHandle(preloaded, h, r.s.heap[h], Count(r.extra, h));
  }

  lemma {:induction false} FreshGivesParameters(preloaded: seq<Preloaded>, r: Run, name: string, startup: bool,
                                                file: Option<string>, found: Option<nat>)
    requires Balanced(r) && Traced(preloaded, r)
    requires found.Some? ==> found.value in r.s.list && found.value in r.s.heap && r.s.heap[found.value].refCount == 0
    ensures found.Some? ==> Count(r.extra, found.value) == 0
    ensures found.Some? && found.value < |preloaded| && ParseHandle(preloaded[found.value].text).None? ==>
              !r.s.heap[found.value].parsed
    ensures var s := if found.Some? then Free(Unlist(r.s, found.value), found.value) else r.s;
            var (s', given) := LoadFresh(s, name, startup, file);
            given.Some? ==>
              && given != found && given.value in s'.heap && !s'.heap[given.value].contents.Leftover?
              && SettingsOf(s'.heap[given.value].text, s'.heap[given.value].contents.parameters)
  {
    assert Booked(r, r.s.next);
    if found.Some? {
      var h := found.value;
      assert Booked(r, h) && TracedHandle(preloaded, h, r.s.heap[h], Count(r.extra, h));
    }
  }

  /** That does happen: preloaded settings that do not parse are refused once, and the next load gets the handle. */
  lemma {:induction false} FailedParseIsGivenOut(s: State, name: string, h: nat, boot: bool, startup: bool,
                                                 file: Option<string>)
    requires Find(s.heap, s.list, name) == Some(h) && !s.heap[h].parsed && s.heap[h].refCount >= 0
    requires ParseHandle(s.heap[h].text).None? && (s.heap[h].refCount == 0 ==> !boot)
    ensures var (s1, first) := Load(s, name, boot, startup, file);
            var (s2, second) := Load(s1, name, boot, startup, file);
            first.None? && second == Some(h) && s2.heap[h].contents.Leftover?
  {
    var s1 := Load(s, name, boot, startup, file).0;
    OtherFieldsDoNotMatter(s.heap, s.list, name, h, s1.heap[h]);
  }

  lemma {:induction false} OtherFieldsDoNotMatter(heap: map<nat, Handle>, list: seq<nat>, name: string, h: nat,
                                                  handle: Handle)
    requires h in heap && handle.name == heap[h].name
    ensures Find(heap[h := handle], list, name) == Find(heap, list, name)
  {
    if list != [] {
      OtherFieldsDoNotMatter(heap, list[1..], name, h, handle);
    }
  }

  // ----- one handle per name -----

  ghost predicate OnePerName(s: State) {
    forall x, y :: x in s.list && y in s.list && x in s.heap && y in s.heap && x != y ==>
      s.heap[x].name != s.heap[y].name
  }

  ghost predicate NameListed(s: State, name: string) {
    exists x :: x in s.list && x in s.heap && s.heap[x].name == name
  }

  lemma {:induction false} FindsListed(heap: map<nat, Handle>, list: seq<nat>, name: string, x: nat)
    requires Find(heap, list, name).None? && x in list && x in heap
    ensures heap[x].name != name
  {
    var i :| 0 <= i < |list| && list[i] == x;
  }

  /** A fresh load keeps the names apart exactly when what is stored of the name is not listed yet. */
  lemma {:induction false} FreshKeepsNames(r: Run, name: string, startup: bool, file: Option<string>)
    requires Balanced(r) && OnePerName(r.s)
    ensures var (s, h) := LoadFresh(r.s, name, startup, file);
            OnePerName(s) <==> h.None? || !NameListed(r.s, StoredName(name))
  {
    var (s, h) := LoadFresh(r.s, name, startup, file);
    if h.Some? {
      assert Booked(r, h.value);
      forall x | x in r.s.list && x in r.s.heap
        ensures x in s.list && x in s.heap && s.heap[x] == r.s.heap[x] && x != h.value
      {
        assert Booked(r, x);
      }
      assert h.value in s.list;
      if NameListed(r.s, StoredName(name)) {
        var x :| x in r.s.list && x in r.s.heap && r.s.heap[x].name == StoredName(name);
        assert s.heap[x].name == s.heap[h.value].name;
      }
    }
  }

  lemma {:induction false} UnlistKeepsNames(r: Run, h: nat)
    requires Balanced(r) && OnePerName(r.s)
    ensures OnePerName(Free(Unlist(r.s, h), h))
  {
    forall x, y | x in Remove(r.s.list, h) && y in Remove(r.s.list, h) && x in r.s.heap && y in r.s.heap && x != y
      ensures r.s.heap[x].name != r.s.heap[y].name
    {
      RemoveMembers(r.s.list, h, x);
      RemoveMembers(r.s.list, h, y);
    }
  }

  lemma {:induction false} LoadKeepsNames(r: Run, name: string, boot: bool, startup: bool, file: Option<string>)
    requires Balanced(r) && OnePerName(r.s) && |name| < B_OS_NAME_LENGTH
    ensures OnePerName(Load(r.s, name, boot, startup, file).0)
  {
    var found := Find(r.s.heap, r.s.list, name);
    if found.None? {
      forall x | x in r.s.list && x in r.s.heap ensures r.s.heap[x].name != name {
        FindsListed(r.s.heap, r.s.list, name, x);
      }
      FreshKeepsNames(r, name, startup, file);
    } else if r.s.heap[found.value].refCount == 0 && boot {
      var h := found.value;
      UnlistKeepsNames(r, h);
      DropBalanced(r, h);
      var dropped := r.(s := Free(Unlist(r.s, h), h));
      forall x | x in dropped.s.list && x in dropped.s.heap ensures dropped.s.heap[x].name != name {
        RemoveMembers(r.s.list, h, x);
      }
      FreshKeepsNames(dropped, name, startup, file);
    }
  }

  predicate ShortNames(events: seq<Event>) {
    forall i :: 0 <= i < |events| && events[i].LoadEvent? ==> |events[i].name| < B_OS_NAME_LENGTH
  }

  lemma {:induction false} StepKeepsNames(r: Run, e: Event)
    requires Balanced(r) && OnePerName(r.s) && Legal(r, e)
    requires e.LoadEvent? ==> |e.name| < B_OS_NAME_LENGTH
    ensures OnePerName(Step(r, e).s)
  {
    match e
    case LoadEvent(name, boot, startup, file) => LoadKeepsNames(r, name, boot, startup, file);
    case LoadFileEvent(file) =>
      forall x | x in r.s.list ensures x != r.s.next {
        assert Booked(r, x);
      }
    case UnloadEvent(h, boot) =>
      assert Booked(r, h);
      var handle := r.s.heap[h];
      if handle.refCount > 0 {
        var less := r.s.(heap := r.s.heap[h := handle.(refCount := handle.refCount - 1)]);
        assert OnePerName(less);
        UnloadBalanced(r, h, false);
        UnlistKeepsNames(Step(r, UnloadEvent(h, false)), h);
      }
  }

  lemma {:induction false} RunKeepsNames(a: Run, events: seq<Event>, b: Run)
    requires Balanced(a) && OnePerName(a.s) && Runs(a, events, b) && ShortNames(events)
    ensures OnePerName(b.s)
    decreases events
  {
    if events != [] {
      StepBalanced(a, events[0]);
      StepKeepsNames(a, events[0]);
      assert forall i :: 0 <= i < |events[1..]| ==> events[1..][i] == events[i + 1];
      RunKeepsNames(Step(a, events[0]), events[1..], b);
    }
  }

  /** In every run with names that fit, at most one handle per name is listed. */
  lemma {:induction false} EveryRunListsNamesOnce(preloaded: seq<Preloaded>, events: seq<Event>, r: Run)
    requires Runs(InitialRun(preloaded), events, r) && ShortNames(events)
    requires forall i, j :: 0 <= i < j < |preloaded| ==> StoredName(preloaded[i].name) != StoredName(preloaded[j].name)
    ensures OnePerName(r.s)
  {
    InitBalanced(preloaded);
    RunKeepsNames(InitialRun(preloaded), events, r);
  }

  lemma {:induction false} LongNameNotFound(heap: map<nat, Handle>, list: seq<nat>, name: string)
    requires forall x :: x in list && x in heap ==> |heap[x].name| < B_OS_NAME_LENGTH
    requires |name| >= B_OS_NAME_LENGTH
    ensures Find(heap, list, name).None?
  {
    if list != [] {
      assert list == [list[0]] + list[1..];
      LongNameNotFound(heap, list[1..], name);
    }
  }

  /** A name that does not fit is never found again: of any two loads that succeed, the second one lists a
      second handle under the name that was stored. */
  lemma {:induction false} LongNameListedTwice(r: Run, name: string, boot: bool, file: Option<string>)
    requires Balanced(r) && |name| >= B_OS_NAME_LENGTH
    requires forall x :: x in r.s.list && x in r.s.heap ==> |r.s.heap[x].name| < B_OS_NAME_LENGTH
    requires file.Some? && 0 < |file.value| < MAX_SETTINGS_SIZE && ParseHandle(file).Some?
    ensures var s1 := Load(r.s, name, boot, false, file).0;
            !OnePerName(Load(s1, name, boot, false, file).0)
  {
    LongNameNotFound(r.s.heap, r.s.list, name);
    var (s1, h1) := Load(r.s, name, boot, false, file);
    assert Booked(r, h1.value);
    forall x | x in s1.list && x in s1.heap ensures |s1.heap[x].name| < B_OS_NAME_LENGTH {
      assert Booked(r, x);
    }
    LongNameNotFound(s1.heap, s1.list, name);
    var (s2, h2) := Load(s1, name, boot, false, file);
    assert h1.value in s1.list && h1.value in s2.list && h2.value in s2.list;
    assert s2.heap[h1.value].name == s2.heap[h2.value].name;
  }

  /** Every name is one that has been stored. */
  ghost predicate NamesStored(s: State) {
    forall h: nat :: h in s.heap ==> |s.heap[h].name| < B_OS_NAME_LENGTH
  }

  lemma {:induction false} StepStoresNames(r: Run, e: Event)
    requires NamesStored(r.s) && Legal(r, e)
    ensures NamesStored(Step(r, e).s)
  {
  }

  lemma {:induction false} RunStoresNames(a: Run, events: seq<Event>, b: Run)
    requires NamesStored(a.s) && Runs(a, events, b)
    ensures NamesStored(b.s)
    decreases events
  {
    if events != [] {
      StepStoresNames(a, events[0]);
      RunStoresNames(Step(a, events[0]), events[1..], b);
    }
  }

  /** After any run that has kept the names apart, a load lists a second handle of a name exactly if it succeeds, its
      own name does not fit, and what is stored of that name is listed already. */
  lemma {:induction false} SecondHandleListed(preloaded: seq<Preloaded>, events: seq<Event>, r: Run, name: string,
                                              boot: bool, startup: bool, file: Option<string>)
    requires Runs(InitialRun(preloaded), events, r) && OnePerName(r.s)
    ensures var (s, h) := Load(r.s, name, boot, startup, file);
            OnePerName(s) <==> !(h.Some? && |name| >= B_OS_NAME_LENGTH && NameListed(r.s, StoredName(name)))
  {
    InitBalanced(preloaded);
    RunBalanced(InitialRun(preloaded), events, r);
    RunStoresNames(InitialRun(preloaded), events, r);
    if |name| < B_OS_NAME_LENGTH {
      LoadKeepsNames(r, name, boot, startup, file);
    } else {
      LongNameNotFound(r.s.heap, r.s.list, name);
      FreshKeepsNames(r, name, startup, file);
    }
  }

  // ----- the table as it is kept -----

  class KernelSettings {
    var heap: map<nat, Handle>
    var list: seq<nat>
    var next: nat

    function Now(): State
      reads this
    {
      State(heap, list, next)
    }

    /** `driver_settings_init`. */
    constructor (preloaded: seq<Preloaded>)
      ensures Now() == Init(preloaded)
    {
      heap, list, next := map[], [], 0;
      new;
      for i := 0 to |preloaded|
        invariant Now() == Init(preloaded[..i])
      {
        InitStep(preloaded, i);
        var name := StoredName(preloaded[i].name);
        var handle := Handle(name, 0, false, preloaded[i].text, Parameters([]));
        if name == B_SAFEMODE_DRIVER_SETTINGS {
          handle := handle.(refCount := 1);
        }
        heap := heap[next := handle];
        list := list + [next];
        next := next + 1;
      }
      assert preloaded[..|preloaded|] == preloaded;
    }

    /** `find_driver_settings`. */
    method FindDriverSettings(name: string) returns (h: Option<nat>)
      ensures h == Find(heap, list, name)
    {
      var i := 0;
      while i < |list|
        invariant 0 <= i <= |list|
        invariant Find(heap, list, name) == Find(heap, list[i..], name)
      {
        if list[i] in heap && heap[list[i]].name == name {
          return Some(list[i]);
        }
        i := i + 1;
      }
      h := None;
    }

    /** `list_remove_link`. */
    method RemoveLink(h: nat)
      modifies this`list
      ensures list == Remove(old(list), h)
    {
      var i := 0;
      while i < |list| && list[i] != h
        invariant 0 <= i <= |list| && list == old(list)
        invariant Remove(list, h) == list[..i] + Remove(list[i..], h)
      {
        assert list[..i + 1] == list[..i] + [list[i]];
        assert list[i..][1..] == list[i + 1..];
        AppendAssociates(list[..i], [list[i]], Remove(list[i + 1..], h));
        i := i + 1;
      }
      if i < |list| {
        assert list[i..][0] == h && Remove(list[i..], h) == list[i + 1..];
        list := list[..i] + list[i + 1..];
      } else {
        assert list[i..] == [] && list[..i] + [] == list;
      }
    }

    method LoadDriverSettingsFromFile(name: Option<string>, file: Option<string>) returns (h: Option<nat>)
      modifies this
      ensures (Now(), h) == NewFromFile(old(Now()), name, file)
    {
      h := None;
      if file.Some? && 0 < |file.value| < MAX_SETTINGS_SIZE {
        var parameters := ParseHandle(file);
        if parameters.Some? {
          var handle := Handle("", -1, true, file, Parameters(parameters.value));
          if name.Some? {
            handle := handle.(name := StoredName(name.value), refCount := 1);
          }
          heap := heap[next := handle];
          h := Some(next);
          next := next + 1;
        }
      }
    }

    /** `load_driver_settings`. */
    method LoadDriverSettings(name: string, boot: bool, startup: bool, file: Option<string>) returns (h: Option<nat>)
      modifies this
      ensures (Now(), h) == Load(old(Now()), name, boot, startup, file)
    {
      h := FindDriverSettings(name);
      if h.Some? && heap[h.value].refCount == 0 && boot {
        RemoveLink(h.value);
        heap := heap - {h.value};
      } else if h.Some? {
        var id := h.value;
        heap := heap[id := heap[id].(refCount := heap[id].refCount + 1)];
        if !heap[id].parsed {
          heap := heap[id := heap[id].(parsed := true)];
          var parameters := ParseHandle(heap[id].text);
          if parameters.Some? {
            heap := heap[id := heap[id].(contents := Parameters(parameters.value))];
          } else {
            heap := heap[id := heap[id].(text := None, contents := Leftover)];
            h := None;
          }
        }
        assert heap == old(heap)[id := heap[id]];
        return;
      }
      if startup {
        return None;
      }
      h := LoadDriverSettingsFromFile(Some(name), file);
      if h.Some? {
        list := list + [h.value];
      }
    }

    /** `unload_driver_settings`; false stands for B_BAD_VALUE. */
    method UnloadDriverSettings(handle: Option<nat>, boot: bool) returns (ok: bool)
      requires handle.Some? ==> handle.value in heap
      modifies this
      ensures ok <==> handle.Some? && old(heap)[handle.value].parsed
      ensures Now() == if handle.Some? then Unload(old(Now()), handle.value, boot) else old(Now())
    {
      if handle.None? || !heap[handle.value].parsed {
        return false;
      }
      var h, free := handle.value, true;
      if heap[h].refCount > 0 {
        heap := heap[h := heap[h].(refCount := heap[h].refCount - 1)];
        if heap[h].refCount == 0 && boot {
          RemoveLink(h);
        } else {
          free := false;
        }
      }
      if free {
        heap := heap - {h};
      }
      ok := true;
    }
  }
}
