/** What the calls on the table of driver settings do to it, said handle by handle, and where the settings come from
    that a load gives out, over every run. */
module SettingsOrigins {
  import opened Options
  import opened SettingsText
  import opened SettingsHandles

  // ----- one call -----

  /** `h` is the first handle in the list that has that name. */
  ghost predicate FirstListed(s: State, name: string, h: nat) {
    exists i: nat :: i < |s.list| && s.list[i] == h && h in s.heap && s.heap[h].name == name &&
      forall j: nat :: j < i && s.list[j] in s.heap ==> s.heap[s.list[j]].name != name
  }

  /** A load reads the file unless a listed handle has the name, and if that one is not referenced and the boot device
      is there. */
  ghost predicate FromFile(s: State, name: string, boot: bool) {
    forall h: nat :: FirstListed(s, name, h) ==> s.heap[h].refCount == 0 && boot
  }

  /** As much of a name as fits into 32 characters with a NUL. */
  predicate IsStored(stored: string, name: string) {
    stored <= name && |stored| == if |name| < 32 then |name| else 31
  }

  /** A text of 1 to 32767 characters that is a settings text. */
  ghost predicate Readable(file: Option<string>, ps: seq<Parameter>) {
    file.Some? && 1 <= |file.value| <= 32767 && SettingsOf(file, ps)
  }

  lemma {:induction false} FindIsFirst(s: State, name: string, n: nat)
    requires n <= |s.list|
    requires forall j: nat :: j < n && s.list[j] in s.heap ==> s.heap[s.list[j]].name != name
    ensures forall h: nat :: FirstListed(s, name, h) <==> Find(s.heap, s.list[n..], name) == Some(h)
    decreases |s.list| - n
  {
    if n < |s.list| {
      if s.list[n] in s.heap && s.heap[s.list[n]].name == name {
        assert FirstListed(s, name, s.list[n]);
      } else {
        FindIsFirst(s, name, n + 1);
      }
    }
  }

  lemma {:induction false} FirstIsFound(s: State, name: string)
    ensures forall h: nat :: FirstListed(s, name, h) <==> Find(s.heap, s.list, name) == Some(h)
  {
    FindIsFirst(s, name, 0);
    assert s.list[0..] == s.list;
  }

  /** Taking a handle out of the list takes its first entry out. */
  lemma {:induction false} RemoveTakesFirst(list: seq<nat>, h: nat, i: nat)
    requires i < |list| && list[i] == h && h !in list[..i]
    ensures Remove(list, h) == list[..i] + list[i + 1..]
  {
    if i > 0 {
      assert list[..i] == [list[0]] + list[1..][..i - 1] && list[1..][i..] == list[i + 1..];
      RemoveTakesFirst(list[1..], h, i - 1);
    }
  }

  lemma {:induction false} ParseIsReadable(file: Option<string>)
    ensures forall ps :: Readable(file, ps) <==>
              file.Some? && 1 <= |file.value| <= 32767 && ParseHandle(file) == Some(ps)
  {
    if file.Some? && ParseText(file.value).Parsed? {
      assert ParseText(file.value) == Parsed(ParseText(file.value).parameters, ParseText(file.value).rest);
    }
  }

  /** What is left of the table when the handle that has the name is thrown away. */
  function Cleared(s: State, name: string): State {
    match Find(s.heap, s.list, name)
    case None => s
    case Some(h) => State(s.heap - {h}, Remove(s.list, h), s.next)
  }

  /** A load that reads the file: what had the name is gone, and a file that is fine becomes a new handle with one
      reference at the end of the list. */
  lemma {:induction false} LoadFromFileMeans(s: State, name: string, boot: bool, startup: bool, file: Option<string>,
                                             ps: seq<Parameter>)
    requires FromFile(s, name, boot)
    ensures var (s', given) := Load(s, name, boot, startup, file);
            var cleared := Cleared(s, name);
            && (given.None? <==> startup || forall ps' :: !Readable(file, ps'))
            && (given.None? ==> s' == cleared)
            && (!startup && Readable(file, ps) ==>
                  exists stored :: IsStored(stored, name) && given == Some(s.next) &&
                    s' == State(cleared.heap[s.next := Handle(stored, 1, true, file, Parameters(ps))],
                                cleared.list + [s.next], s.next + 1))
  {
    FirstIsFound(s, name);
    assert Find(s.heap, s.list, name).Some? ==> FirstListed(s, name, Find(s.heap, s.list, name).value);
    assert IsStored(StoredName(name), name);
    ParseIsReadable(file);
    assert ParseHandle(file).Some? ==> ParseHandle(file) == Some(ParseHandle(file).value);
  }

  /** Any other load: the first handle of the name has one reference more and is given out, unless it is still to be
      parsed and is not a settings text, in which case it is refused and its text is gone. */
  lemma {:induction false} LoadListedMeans(s: State, name: string, boot: bool, startup: bool, file: Option<string>,
                                           h: nat)
    requires FirstListed(s, name, h) && !FromFile(s, name, boot)
    ensures var (s', given) := Load(s, name, boot, startup, file);
            var before := s.heap[h];
            h in s'.heap && s' == s.(heap := s.heap[h := s'.heap[h]])
            && var handle := s'.heap[h];
            && handle.name == before.name && handle.refCount == before.refCount + 1 && handle.parsed
            && (before.parsed ==> given == Some(h) && handle.text == before.text && handle.contents == before.contents)
            && (!before.parsed && given.Some? ==> (
                  && given == Some(h) && handle.text == before.text
                  && handle.contents.Parameters? && SettingsOf(before.text, handle.contents.parameters)))
            && (!before.parsed && given.None? ==> (
                  && handle.text == None && handle.contents == Leftover
                  && forall ps :: !SettingsOf(before.text, ps)))
  {
    FirstIsFound(s, name);
    assert Find(s.heap, s.list, name) == Some(h);
  }

  /** An unload of a handle that is parsed: one that is not counted is freed, any other one has one reference less,
      and with the last one it is taken out of the list and freed if the boot device is there. */
  lemma {:induction false} UnloadMeans(s: State, h: nat, boot: bool)
    requires h in s.heap
    ensures var count := s.heap[h].refCount;
            Unload(s, h, boot) ==
              if !s.heap[h].parsed then s
              else if count <= 0 then State(s.heap - {h}, s.list, s.next)
              else if count == 1 && boot then State(s.heap - {h}, Remove(s.list, h), s.next)
              else s.(heap := s.heap[h := s.heap[h].(refCount := count - 1)])
  {
  }

  /** At first, the preloaded settings are listed in their order, each as it is and not parsed, without a reference but
      for the safe mode settings. */
  lemma {:induction false} InitMeans(preloaded: seq<Preloaded>, i: nat)
    requires i < |preloaded|
    ensures var s := Init(preloaded);
            && |s.list| == |preloaded| == s.next && s.list[i] == i && i in s.heap
            && IsStored(s.heap[i].name, preloaded[i].name) && s.heap[i].text == preloaded[i].text
            && !s.heap[i].parsed && s.heap[i].contents == Parameters([])
            && s.heap[i].refCount == if s.heap[i].name == "/safemode/" then 1 else 0
  {
    assert IsStored(StoredName(preloaded[i].name), preloaded[i].name);
  }

  // ----- every run -----

  function Given(s: State, e: Event): Option<nat> {
    match e
    case LoadEvent(name, boot, startup, file) => Load(s, name, boot, startup, file).1
    case LoadFileEvent(file) => LoadFile(s, file).1
    case UnloadEvent(_, _) => None
  }

  /** What a call does to a run: the table is that after the call, a handle that is given out has one load more
      outstanding, one that is unloaded one less, and no other one any more or less. */
  lemma {:induction false} StepMeans(r: Run, e: Event, h: nat)
    requires Legal(r, e) && (e.UnloadEvent? ==> e.handle in r.s.heap)
    ensures Step(r, e).s ==
              match e
              case LoadEvent(name, boot, startup, file) => Load(r.s, name, boot, startup, file).0
              case LoadFileEvent(file) => LoadFile(r.s, file).0
              case UnloadEvent(handle, boot) => Unload(r.s, handle, boot)
    ensures Count(Step(r, e).out, h) ==
              Count(r.out, h) + (if Given(r.s, e) == Some(h) then 1 else 0)
              - if e.UnloadEvent? && e.handle == h then 1 else 0
  {
  }

  /** The handle has the text of the file that is loaded, and what is stored of the name it is loaded under. */
  predicate IsOfLoad(handle: Handle, e: Event) {
    match e
    case LoadEvent(name, _, _, file) => IsStored(handle.name, name) && file.Some? && handle.text == file
    case LoadFileEvent(file) => handle.name == "" && file.Some? && handle.text == file
    case UnloadEvent(_, _) => false
  }

  /** The `i`th call has read the file of `h`, which it gives out although there was no such handle before it. */
  ghost predicate MadeBy(preloaded: seq<Preloaded>, past: seq<Event>, i: nat, h: nat, handle: Handle)
    requires i < |past|
  {
    exists before: Run :: Runs(InitialRun(preloaded), past[..i], before) &&
      h !in before.s.heap && Given(before.s, past[i]) == Some(h) && IsOfLoad(handle, past[i])
  }

  /** A handle has the name and the text it was preloaded with, unless it has lost its text, or those of the load that
      has made it. */
  ghost predicate Origin(preloaded: seq<Preloaded>, past: seq<Event>, h: nat, handle: Handle) {
    if h < |preloaded| then
      IsStored(handle.name, preloaded[h].name) && (handle.contents.Leftover? || handle.text == preloaded[h].text)
    else
      !handle.contents.Leftover? && exists i: nat :: i < |past| && MadeBy(preloaded, past, i, h, handle)
  }

  ghost predicate Originated(preloaded: seq<Preloaded>, past: seq<Event>, r: Run) {
    forall h: nat :: h in r.s.heap ==> Origin(preloaded, past, h, r.s.heap[h])
  }

  lemma {:induction false} RunEnds(a: Run, events: seq<Event>, b: Run, e: Event)
    requires Runs(a, events, b) && Legal(b, e)
    ensures Runs(a, events + [e], Step(b, e))
    decreases events
  {
    if events == [] {
      assert [e][1..] == [];
      assert events + [e] == [e];
    } else {
      RunEnds(Step(a, events[0]), events[1..], b, e);
      assert (events + [e])[1..] == events[1..] + [e];
    }
  }

  /** The names of all handles stay, and their texts unless they are lost; what is new is given out, and of the file. */
  ghost predicate KeepsTexts(preloaded: seq<Preloaded>, before: State, after: State, given: Option<nat>, e: Event) {
    forall h: nat :: h in after.heap ==>
      var handle := after.heap[h];
      if h in before.heap then
        && handle.name == before.heap[h].name
        && (before.heap[h].contents.Leftover? ==> handle.contents.Leftover?)
        && (handle.contents.Leftover? ==> h < |preloaded|)
        && (handle.contents.Leftover? || handle.text == before.heap[h].text)
      else h >= |preloaded| && !handle.contents.Leftover? && given == Some(h) && IsOfLoad(handle, e)
  }

  lemma {:induction false} FileKeepsTexts(preloaded: seq<Preloaded>, before: State, s: State, name: Option<string>,
                                          file: Option<string>, e: Event)
    requires |preloaded| <= s.next && s.next !in before.heap
    requires forall h: nat :: h in s.heap ==> h in before.heap && s.heap[h] == before.heap[h]
    requires LeftoversPreloaded(preloaded, s.heap)
    requires if name.None? then e == LoadFileEvent(file)
             else e.LoadEvent? && e.name == name.value && e.file == file
    ensures var (s', given) := NewFromFile(s, name, file);
            KeepsTexts(preloaded, before, s', given, e)
  {
  }

  ghost predicate LeftoversPreloaded(preloaded: seq<Preloaded>, heap: map<nat, Handle>) {
    forall h: nat :: h in heap && heap[h].contents.Leftover? ==> h < |preloaded| && heap[h].parsed
  }

  lemma {:induction false} TracedLeftovers(preloaded: seq<Preloaded>, r: Run)
    requires Balanced(r) && Traced(preloaded, r)
    ensures LeftoversPreloaded(preloaded, r.s.heap) && |preloaded| <= r.s.next && r.s.next !in r.s.heap
    ensures forall h: nat :: h in r.s.heap && !r.s.heap[h].parsed ==> h < |preloaded|
  {
    assert Booked(r, r.s.next);
    forall h: nat | h in r.s.heap
      ensures r.s.heap[h].contents.Leftover? || !r.s.heap[h].parsed ==> h < |preloaded|
      ensures r.s.heap[h].contents.Leftover? ==> r.s.heap[h].parsed
    {
      assert TracedHandle(preloaded, h, r.s.heap[h], Count(r.extra, h));
    }
  }

  lemma {:induction false} FreshKeepsTexts(preloaded: seq<Preloaded>, before: State, s: State, e: Event)
    requires e.LoadEvent? && |preloaded| <= s.next && s.next !in before.heap
    requires forall h: nat :: h in s.heap ==> h in before.heap && s.heap[h] == before.heap[h]
    requires LeftoversPreloaded(preloaded, s.heap)
    ensures var (s', given) := LoadFresh(s, e.name, e.startup, e.file);
            KeepsTexts(preloaded, before, s', given, e)
  {
    FileKeepsTexts(preloaded, before, s, Some(e.name), e.file, e);
  }

  lemma {:induction false} ShareKeepsTexts(preloaded: seq<Preloaded>, s: State, h: nat, e: Event)
    requires h in s.heap && LeftoversPreloaded(preloaded, s.heap) && (!s.heap[h].parsed ==> h < |preloaded|)
    ensures var (s', given) := Share(s, h);
            KeepsTexts(preloaded, s, s', given, e)
  {
  }

  lemma {:induction false} LoadKeepsTexts(preloaded: seq<Preloaded>, r: Run, e: Event)
    requires Balanced(r) && Traced(preloaded, r) && e.LoadEvent?
    ensures var (s, given) := Load(r.s, e.name, e.boot, e.startup, e.file);
            KeepsTexts(preloaded, r.s, s, given, e)
  {
    TracedLeftovers(preloaded, r);
    match Find(r.s.heap, r.s.list, e.name)
    case None => FreshKeepsTexts(preloaded, r.s, r.s, e);
    case Some(h) =>
      if r.s.heap[h].refCount == 0 && e.boot {
        FreshKeepsTexts(preloaded, r.s, Free(Unlist(r.s, h), h), e);
      } else {
        ShareKeepsTexts(preloaded, r.s, h, e);
      }
  }

  lemma {:induction false} StepKeepsTexts(preloaded: seq<Preloaded>, r: Run, e: Event)
    requires Balanced(r) && Traced(preloaded, r) && Legal(r, e)
    ensures KeepsTexts(preloaded, r.s, Step(r, e).s, Given(r.s, e), e)
  {
    match e
    case LoadEvent(_, _, _, _) => LoadKeepsTexts(preloaded, r, e);
    case LoadFileEvent(file) =>
      TracedLeftovers(preloaded, r);
      FileKeepsTexts(preloaded, r.s, r.s, None, file, e);
    case UnloadEvent(h, boot) =>
      TracedLeftovers(preloaded, r);
      assert Booked(r, h);
      UnloadKeepsTexts(preloaded, r.s, h, boot);
  }

  lemma {:induction false} UnloadKeepsTexts(preloaded: seq<Preloaded>, s: State, h: nat, boot: bool)
    requires h in s.heap && LeftoversPreloaded(preloaded, s.heap)
    ensures KeepsTexts(preloaded, s, Unload(s, h, boot), None, UnloadEvent(h, boot))
  {
  }

  /** All that is known of a run: its past, its books and where its handles come from. */
  ghost predicate Known(preloaded: seq<Preloaded>, past: seq<Event>, r: Run) {
    Runs(InitialRun(preloaded), past, r) && Balanced(r) && Traced(preloaded, r) && Originated(preloaded, past, r)
  }

  lemma {:induction false} StepOriginated(preloaded: seq<Preloaded>, past: seq<Event>, r: Run, e: Event)
    requires Known(preloaded, past, r) && Legal(r, e)
    ensures Originated(preloaded, past + [e], Step(r, e))
  {
    var s, all := Step(r, e).s, past + [e];
    StepKeepsTexts(preloaded, r, e);
    forall h: nat | h in s.heap ensures Origin(preloaded, all, h, s.heap[h]) {
      if h in r.s.heap {
        OriginStays(preloaded, past, h, r.s.heap[h], s.heap[h]);
        OriginIsPast(preloaded, past, e, h, s.heap[h]);
      } else {
        assert all[..|past|] == past && all[|past|] == e;
        assert MadeBy(preloaded, all, |past|, h, s.heap[h]);
      }
    }
  }

  lemma {:induction false} OriginStays(preloaded: seq<Preloaded>, past: seq<Event>, h: nat, before: Handle,
                                       after: Handle)
    requires Origin(preloaded, past, h, before)
    requires after.name == before.name && (before.contents.Leftover? ==> after.contents.Leftover?)
    requires (after.contents.Leftover? ==> h < |preloaded|) && (after.contents.Leftover? || after.text == before.text)
    ensures Origin(preloaded, past, h, after)
  {
    if h >= |preloaded| {
      var i: nat :| i < |past| && MadeBy(preloaded, past, i, h, before);
      assert MadeBy(preloaded, past, i, h, after);
    }
  }

  lemma {:induction false} OriginIsPast(preloaded: seq<Preloaded>, past: seq<Event>, e: Event, h: nat, handle: Handle)
    requires Origin(preloaded, past, h, handle)
    ensures Origin(preloaded, past + [e], h, handle)
  {
    if h >= |preloaded| {
      var i: nat :| i < |past| && MadeBy(preloaded, past, i, h, handle);
      assert (past + [e])[..i] == past[..i] && (past + [e])[i] == past[i];
      assert MadeBy(preloaded, past + [e], i, h, handle);
    }
  }

  lemma {:induction false} StepKnown(preloaded: seq<Preloaded>, past: seq<Event>, r: Run, e: Event)
    requires Known(preloaded, past, r) && Legal(r, e)
    ensures Known(preloaded, past + [e], Step(r, e))
  {
    StepOriginated(preloaded, past, r, e);
    StepTraced(preloaded, r, e);
    StepBalanced(r, e);
    RunEnds(InitialRun(preloaded), past, r, e);
  }

  lemma {:induction false} PastGrows(past: seq<Event>, events: seq<Event>)
    requires events != []
    ensures past + events == (past + [events[0]]) + events[1..]
  {
  }

  lemma {:induction false} RunKnown(preloaded: seq<Preloaded>, past: seq<Event>, a: Run, events: seq<Event>, b: Run,
                                    all: seq<Event>)
    requires Known(preloaded, past, a) && Runs(a, events, b) && all == past + events
    ensures Known(preloaded, all, b)
    decreases events
  {
    if events == [] {
      assert all == past;
    } else {
      StepKnown(preloaded, past, a, events[0]);
      PastGrows(past, events);
      RunKnown(preloaded, past + [events[0]], Step(a, events[0]), events[1..], b, all);
    }
  }

  lemma {:induction false} EveryRunIsKnown(preloaded: seq<Preloaded>, events: seq<Event>, r: Run)
    requires Runs(InitialRun(preloaded), events, r)
    ensures Known(preloaded, events, r)
  {
    InitBalanced(preloaded);
    assert [] + events == events;
    RunKnown(preloaded, [], InitialRun(preloaded), events, r, events);
  }

  /** After any run, every handle has the name and the text of where it comes from, and its parameters are what that
      text says, unless they are lost or still to be parsed. */
  lemma {:induction false} EveryRunKeepsOrigins(preloaded: seq<Preloaded>, events: seq<Event>, r: Run, h: nat)
    requires Runs(InitialRun(preloaded), events, r) && h in r.s.heap
    ensures Origin(preloaded, events, h, r.s.heap[h])
    ensures r.s.heap[h].parsed && !r.s.heap[h].contents.Leftover? ==>
              SettingsOf(r.s.heap[h].text, r.s.heap[h].contents.parameters)
  {
    EveryRunIsKnown(preloaded, events, r);
    assert TracedHandle(preloaded, h, r.s.heap[h], Count(r.extra, h));
  }

  /** Over every run, what a load gives out is of the name asked for.  It has what the file says if the load reads it;
      otherwise what the text says it was preloaded or made with, unless those settings are lost. */
  lemma {:induction false} LoadGivesSettings(preloaded: seq<Preloaded>, events: seq<Event>, r: Run, name: string,
                                             boot: bool, startup: bool, file: Option<string>)
    requires Runs(InitialRun(preloaded), events, r)
    ensures var (s, given) := Load(r.s, name, boot, startup, file);
            given.Some? ==> (
              && given.value in s.heap
              && var handle := s.heap[given.value];
              && IsStored(handle.name, name)
              && (handle.contents.Leftover? || SettingsOf(handle.text, handle.contents.parameters))
              && if FromFile(r.s, name, boot) then
                   given.value !in r.s.heap && handle.text == file && file.Some? && !handle.contents.Leftover?
                 else FirstListed(r.s, name, given.value) && Origin(preloaded, events, given.value, handle))
  {
    LoadGivesParameters(preloaded, events, r, name, boot, startup, file);
    EveryRunIsKnown(preloaded, events, r);
    var (s, given) := Load(r.s, name, boot, startup, file);
    if given.Some? {
      if FromFile(r.s, name, boot) {
        FileIsGiven(preloaded, r, name, boot, startup, file);
      } else {
        var h: nat :| FirstListed(r.s, name, h) && !(r.s.heap[h].refCount == 0 && boot);
        LoadListedMeans(r.s, name, boot, startup, file, h);
        assert TracedHandle(preloaded, h, r.s.heap[h], Count(r.extra, h));
        ListedIsGiven(preloaded, events, r, name, h, s.heap[h]);
      }
    }
  }

  lemma {:induction false} FileIsGiven(preloaded: seq<Preloaded>, r: Run, name: string, boot: bool, startup: bool,
                                       file: Option<string>)
    requires Balanced(r) && Traced(preloaded, r) && FromFile(r.s, name, boot)
    ensures var (s, given) := Load(r.s, name, boot, startup, file);
            given.Some? ==>
              && given.value in s.heap && given.value !in r.s.heap && file.Some?
              && s.heap[given.value].text == file && !s.heap[given.value].contents.Leftover?
              && IsStored(s.heap[given.value].name, name)
  {
    TracedLeftovers(preloaded, r);
    LoadFromFileMeans(r.s, name, boot, startup, file, []);
    if Load(r.s, name, boot, startup, file).1.Some? {
      var ps :| Readable(file, ps);
      LoadFromFileMeans(r.s, name, boot, startup, file, ps);
    }
  }

  lemma {:induction false} ListedIsGiven(preloaded: seq<Preloaded>, events: seq<Event>, r: Run, name: string, h: nat,
                                         after: Handle)
    requires Known(preloaded, events, r) && FirstListed(r.s, name, h)
    requires after.name == r.s.heap[h].name
    requires r.s.heap[h].contents.Leftover? ==> after.contents.Leftover?
    requires after.contents.Leftover? || after.text == r.s.heap[h].text
    requires after.contents.Leftover? ==> h < |preloaded|
    ensures Origin(preloaded, events, h, after) && IsStored(after.name, name)
  {
    OriginStays(preloaded, events, h, r.s.heap[h], after);
  }
}
