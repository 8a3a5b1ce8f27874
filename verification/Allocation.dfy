/** The books of the tracing allocator, as values: the blocks on the list, the blocks a reallocation has
    taken off the list and not put back yet, and the two counters.  A step is a critical section, or the moment
    between the two critical sections of a reallocation at which the block moves and its old address is given back. */
module AllocationBooks {
  import opened Options

  /** A block with the size it counts for, and the size a reallocation has got for it until it is listed again. */
  datatype Block<T> = Block(id: T, size: nat, granted: Option<nat>)

  /** `window` holds the blocks between the two critical sections of a reallocation, with their old sizes. */
  datatype Books<T> = Books(listed: seq<Block<T>>, window: seq<Block<T>>, current: int, peak: int)

  datatype Event<T> =
    | Allocate(id: T, size: nat)
    | Release(id: T)
    | Detach(id: T)
    | Move(id: T, newId: T, size: nat)
    | Attach(id: T)

  function Empty<T>(): Books<T> {
    Books([], [], 0, 0)
  }

  function Sum<T>(blocks: seq<Block<T>>): nat {
    if blocks == [] then 0 else blocks[0].size + Sum(blocks[1..])
  }

  function Max(a: int, b: int): int {
    if a < b then b else a
  }

  /** The first block with that identity, or the length if there is none. */
  function Find<T(==)>(blocks: seq<Block<T>>, id: T): (k: nat)
    ensures k <= |blocks|
    ensures k < |blocks| ==> blocks[k].id == id
    ensures forall i :: 0 <= i < k ==> blocks[i].id != id
  {
    if blocks == [] || blocks[0].id == id then 0 else 1 + Find(blocks[1..], id)
  }

  function RemoveAt<T>(blocks: seq<Block<T>>, k: nat): seq<Block<T>>
    requires k < |blocks|
  {
    blocks[..k] + blocks[k + 1..]
  }

  /** `b_malloc`, and `b_calloc` with the product of its arguments. */
  function Allocated<T>(b: Books<T>, id: T, size: nat): Books<T> {
    Books([Block(id, size, None)] + b.listed, b.window, b.current + size, Max(b.peak, b.current + size))
  }

  /** `b_free` of a listed block. */
  function Released<T>(b: Books<T>, k: nat): Books<T>
    requires k < |b.listed|
  {
    b.(listed := RemoveAt(b.listed, k), current := b.current - b.listed[k].size)
  }

  /** The first critical section of `b_realloc`. */
  function Detached<T>(b: Books<T>, k: nat): Books<T>
    requires k < |b.listed|
  {
    b.(listed := RemoveAt(b.listed, k), window := [b.listed[k]] + b.window)
  }

  /** `realloc` between them: from now on the block is elsewhere, and its old address may be handed out again. */
  function Moved<T>(b: Books<T>, k: nat, newId: T, size: nat): Books<T>
    requires k < |b.window|
  {
    b.(window := b.window[k := Block(newId, b.window[k].size, Some(size))])
  }

  /** The second critical section: the block comes back, with a new size unless `realloc` has failed. */
  function Attached<T>(b: Books<T>, k: nat): Books<T>
    requires k < |b.window|
  {
    match b.window[k].granted
    case None =>
      b.(listed := [b.window[k]] + b.listed, window := RemoveAt(b.window, k))
    case Some(size) =>
      var current := b.current - b.window[k].size + size;
      Books([Block(b.window[k].id, size, None)] + b.listed, RemoveAt(b.window, k), current, Max(b.peak, current))
  }

  function Identities<T>(blocks: seq<Block<T>>): multiset<T> {
    if blocks == [] then multiset{} else multiset{blocks[0].id} + Identities(blocks[1..])
  }

  /** Everything that is listed or in a reallocation, with multiplicities. */
  function Live<T>(b: Books<T>): multiset<T> {
    Identities(b.listed) + Identities(b.window)
  }

  ghost predicate NoDuplicates<T>(b: Books<T>) {
    forall x :: x in Live(b) ==> Live(b)[x] == 1
  }

  lemma {:induction false} IdentityListed<T>(blocks: seq<Block<T>>, i: nat)
    requires i < |blocks|
    ensures blocks[i].id in Identities(blocks)
  {
    if i > 0 {
      IdentityListed(blocks[1..], i - 1);
    }
  }

  lemma {:induction false} ListedTwice<T>(blocks: seq<Block<T>>, i: nat, j: nat)
    requires i < j < |blocks| && blocks[i].id == blocks[j].id
    ensures Identities(blocks)[blocks[i].id] > 1
  {
    if i == 0 {
      IdentityListed(blocks[1..], j - 1);
    } else {
      ListedTwice(blocks[1..], i - 1, j - 1);
    }
  }

  /** Without duplicates no two places, listed or in a reallocation, hold the same block. */
  lemma {:induction false} NoDuplicatesMeans<T>(b: Books<T>)
    requires NoDuplicates(b)
    ensures forall i, j :: 0 <= i < j < |b.listed| ==> b.listed[i].id != b.listed[j].id
    ensures forall i, j :: 0 <= i < j < |b.window| ==> b.window[i].id != b.window[j].id
    ensures forall i, j :: 0 <= i < |b.listed| && 0 <= j < |b.window| ==> b.listed[i].id != b.window[j].id
  {
    forall i, j | 0 <= i < j < |b.listed| ensures b.listed[i].id != b.listed[j].id {
      IdentityListed(b.listed, i);
      assert b.listed[i].id in Live(b);
      if b.listed[i].id == b.listed[j].id {
        ListedTwice(b.listed, i, j);
      }
    }
    forall i, j | 0 <= i < j < |b.window| ensures b.window[i].id != b.window[j].id {
      IdentityListed(b.window, i);
      assert b.window[i].id in Live(b);
      if b.window[i].id == b.window[j].id {
        ListedTwice(b.window, i, j);
      }
    }
    forall i, j | 0 <= i < |b.listed| && 0 <= j < |b.window| ensures b.listed[i].id != b.window[j].id {
      IdentityListed(b.listed, i);
      IdentityListed(b.window, j);
      assert b.listed[i].id in Live(b);
    }
  }

  /** Conservation: what the current counter says is on the list or in a reallocation. */
  predicate Conserved<T>(b: Books<T>) {
    b.current == Sum(b.listed) + Sum(b.window) && b.current <= b.peak
  }

  predicate Fresh<T(==)>(b: Books<T>, id: T) {
    id !in Live(b)
  }

  /** What the C library grants: an address that is in use is not handed out again.  The old address of a block
      that has moved is not in use. */
  predicate Legal<T(==)>(b: Books<T>, e: Event<T>) {
    match e
    case Allocate(id, _) => Fresh(b, id)
    case Release(_) => true
    case Detach(_) => true
    case Move(id, newId, _) => Find(b.window, id) < |b.window| && (newId == id || Fresh(b, newId))
    case Attach(id) => Find(b.window, id) < |b.window|
  }

  /** A block that is not listed cannot be freed or reallocated: nothing changes then. */
  function Step<T(==)>(b: Books<T>, e: Event<T>): Books<T> {
    match e
    case Allocate(id, size) => Allocated(b, id, size)
    case Release(id) =>
      var k := Find(b.listed, id);
      if k < |b.listed| then Released(b, k) else b
    case Detach(id) =>
      var k := Find(b.listed, id);
      if k < |b.listed| then Detached(b, k) else b
    case Move(id, newId, size) =>
      var k := Find(b.window, id);
      if k < |b.window| then Moved(b, k, newId, size) else b
    case Attach(id) =>
      var k := Find(b.window, id);
      if k < |b.window| then Attached(b, k) else b
  }

  lemma {:induction false} SizeCounted<T>(blocks: seq<Block<T>>, k: nat)
    requires k < |blocks|
    ensures blocks[k].size <= Sum(blocks)
    ensures Sum(RemoveAt(blocks, k)) == Sum(blocks) - blocks[k].size
    ensures blocks[k].id in Identities(blocks)
    ensures Identities(RemoveAt(blocks, k)) == Identities(blocks) - multiset{blocks[k].id}
  {
    SumWithout(blocks, k);
    IdentitiesWithout(blocks, k);
    Without(blocks[k].id, Identities(RemoveAt(blocks, k)));
  }

  lemma {:induction false} SumWithout<T>(blocks: seq<Block<T>>, k: nat)
    requires k < |blocks|
    ensures Sum(RemoveAt(blocks, k)) == Sum(blocks) - blocks[k].size
  {
    if k > 0 {
      SumWithout(blocks[1..], k - 1);
      assert RemoveAt(blocks, k) == [blocks[0]] + RemoveAt(blocks[1..], k - 1);
      Front(blocks[0], RemoveAt(blocks[1..], k - 1));
    } else {
      assert RemoveAt(blocks, 0) == blocks[1..];
    }
  }

  lemma {:induction false} IdentitiesWithout<T>(blocks: seq<Block<T>>, k: nat)
    requires k < |blocks|
    ensures Identities(blocks) == multiset{blocks[k].id} + Identities(RemoveAt(blocks, k))
  {
    if k > 0 {
      var rest := RemoveAt(blocks[1..], k - 1);
      IdentitiesWithout(blocks[1..], k - 1);
      assert RemoveAt(blocks, k) == [blocks[0]] + rest;
      Front(blocks[0], rest);
      Exchange(blocks[0].id, blocks[k].id, Identities(rest));
    } else {
      assert RemoveAt(blocks, 0) == blocks[1..];
    }
  }

  lemma {:induction false} Exchange<T>(x: T, y: T, rest: multiset<T>)
    ensures multiset{x} + (multiset{y} + rest) == multiset{y} + (multiset{x} + rest)
  {
  }

  lemma {:induction false} Without<T>(x: T, rest: multiset<T>)
    ensures (multiset{x} + rest) - multiset{x} == rest
  {
  }

  ghost predicate Sound<T>(b: Books<T>) {
    Conserved(b) && NoDuplicates(b)
  }

  lemma {:induction false} EmptySound<T>(b: Books<T>)
    requires b == Empty()
    ensures Sound(b)
  {
    assert Live(b) == multiset{};
  }

  lemma {:induction false} AllocatedSound<T>(b: Books<T>, id: T, size: nat)
    requires Sound(b) && Fresh(b, id)
    ensures Sound(Allocated(b, id, size))
  {
    Front(Block(id, size, None), b.listed);
    OneMore(Live(b), id);
    assert Live(Allocated(b, id, size)) == Live(b) + multiset{id};
  }

  lemma {:induction false} ReleasedSound<T>(b: Books<T>, k: nat)
    requires Sound(b) && k < |b.listed|
    ensures b.listed[k].size <= b.current && Sound(Released(b, k))
  {
    SizeCounted(b.listed, k);
    TakeOut(Identities(b.listed), Identities(b.window), b.listed[k].id);
    OneLess(Live(b), b.listed[k].id);
    assert Live(Released(b, k)) == Live(b) - multiset{b.listed[k].id};
  }

  lemma {:induction false} DetachedSound<T>(b: Books<T>, k: nat)
    requires Sound(b) && k < |b.listed|
    ensures Sound(Detached(b, k)) && Live(Detached(b, k)) == Live(b)
  {
    SizeCounted(b.listed, k);
    Front(b.listed[k], b.window);
    assert Live(Detached(b, k)) == Live(b);
  }

  lemma {:induction false} MovedSound<T>(b: Books<T>, k: nat, newId: T, size: nat)
    requires Sound(b) && k < |b.window| && (newId == b.window[k].id || Fresh(b, newId))
    ensures Sound(Moved(b, k, newId, size))
  {
    var id := b.window[k].id;
    Renamed(b.window, k, Block(newId, b.window[k].size, Some(size)));
    IdentityListed(b.window, k);
    Exchanged(b, Moved(b, k, newId, size), id, newId);
  }

  /** One identity leaves the window and another one, or the same, comes in. */
  lemma {:induction false} Exchanged<T>(b: Books<T>, after: Books<T>, id: T, newId: T)
    requires NoDuplicates(b) && id in Identities(b.window) && (newId == id || newId !in Live(b))
    requires after.listed == b.listed
    requires Identities(after.window) == (Identities(b.window) - multiset{id}) + multiset{newId}
    ensures NoDuplicates(after)
  {
    forall x | x in Live(after) ensures Live(after)[x] == 1 {
      assert Live(b)[x] == Identities(b.listed)[x] + Identities(b.window)[x];
    }
  }

  lemma {:induction false} Renamed<T>(blocks: seq<Block<T>>, k: nat, block: Block<T>)
    requires k < |blocks| && block.size == blocks[k].size
    ensures var after := blocks[k := block];
            && Sum(after) == Sum(blocks)
            && Identities(after) == (Identities(blocks) - multiset{blocks[k].id}) + multiset{block.id}
  {
    var after := blocks[k := block];
    if k == 0 {
      assert after[1..] == blocks[1..];
    } else {
      assert after[1..] == blocks[1..][k - 1 := block];
      Renamed(blocks[1..], k - 1, block);
      IdentityListed(blocks[1..], k - 1);
    }
  }

  lemma {:induction false} AttachedSound<T>(b: Books<T>, k: nat)
    requires Sound(b) && k < |b.window|
    ensures b.window[k].size <= b.current && Sound(Attached(b, k)) && Live(Attached(b, k)) == Live(b)
  {
    AttachedLive(b, k);
    SizeCounted(b.window, k);
    Front(Attached(b, k).listed[0], b.listed);
  }

  lemma {:induction false} AttachedLive<T>(b: Books<T>, k: nat)
    requires k < |b.window|
    ensures Live(Attached(b, k)) == Live(b)
  {
    var block := Attached(b, k).listed[0];
    Front(block, b.listed);
    IdentitiesWithout(b.window, k);
    Regrouped(multiset{block.id}, Identities(b.listed), Identities(RemoveAt(b.window, k)));
  }

  lemma {:induction false} Regrouped<T>(a: multiset<T>, b: multiset<T>, c: multiset<T>)
    ensures (a + b) + c == b + (a + c)
  {
  }

  lemma {:induction false} StepSound<T>(b: Books<T>, e: Event<T>)
    requires Sound(b) && Legal(b, e)
    ensures Sound(Step(b, e))
  {
    match e
    case Allocate(id, size) => AllocatedSound(b, id, size);
    case Release(id) =>
      if Find(b.listed, id) < |b.listed| {
        ReleasedSound(b, Find(b.listed, id));
      }
    case Detach(id) =>
      if Find(b.listed, id) < |b.listed| {
        DetachedSound(b, Find(b.listed, id));
      }
    case Move(id, newId, size) => MovedSound(b, Find(b.window, id), newId, size);
    case Attach(id) => AttachedSound(b, Find(b.window, id));
  }

  lemma {:induction false} Front<T>(block: Block<T>, blocks: seq<Block<T>>)
    ensures Sum([block] + blocks) == block.size + Sum(blocks)
    ensures Identities([block] + blocks) == multiset{block.id} + Identities(blocks)
  {
    assert ([block] + blocks)[1..] == blocks;
  }

  lemma {:induction false} TakeOut<T>(a: multiset<T>, b: multiset<T>, id: T)
    requires id in a
    ensures (a - multiset{id}) + b == (a + b) - multiset{id}
    ensures b + (a - multiset{id}) == (a + b) - multiset{id} && b + a == a + b
  {
  }

  lemma {:induction false} OneLess<T>(live: multiset<T>, id: T)
    requires (forall x :: x in live ==> live[x] == 1) && id in live
    ensures id !in live - multiset{id} && forall x :: x in live - multiset{id} ==> (live - multiset{id})[x] == 1
    ensures forall x :: x !in live ==> x !in live - multiset{id}
  {
  }

  lemma {:induction false} OneMore<T>(live: multiset<T>, id: T)
    requires (forall x :: x in live ==> live[x] == 1) && id !in live
    ensures forall x :: x in live + multiset{id} ==> (live + multiset{id})[x] == 1
  {
  }

  // ----- runs -----

  /** The books after some steps. */
  function After<T(==)>(b: Books<T>, events: seq<Event<T>>): Books<T>
    decreases events
  {
    if events == [] then b else After(Step(b, events[0]), events[1..])
  }

  /** The current counter after every step. */
  function Trace<T(==)>(b: Books<T>, events: seq<Event<T>>): seq<int>
    decreases events
  {
    if events == [] then [] else [Step(b, events[0]).current] + Trace(Step(b, events[0]), events[1..])
  }

  /** Every address is granted by the C library at the moment it is handed out. */
  predicate AllLegal<T(==)>(b: Books<T>, events: seq<Event<T>>)
    decreases events
  {
    events == [] || (Legal(b, events[0]) && AllLegal(Step(b, events[0]), events[1..]))
  }

  function Highest(start: int, trace: seq<int>): int
    decreases trace
  {
    if trace == [] then start else Highest(Max(start, trace[0]), trace[1..])
  }

  lemma {:induction false} HighestBounds(start: int, trace: seq<int>)
    ensures start <= Highest(start, trace) && forall i :: 0 <= i < |trace| ==> trace[i] <= Highest(start, trace)
    ensures Highest(start, trace) == start || Highest(start, trace) in trace
    decreases trace
  {
    if trace != [] {
      HighestBounds(Max(start, trace[0]), trace[1..]);
    }
  }

  lemma {:induction false} RunConserves<T>(b: Books<T>, events: seq<Event<T>>)
    requires AllLegal(b, events) && Sound(b)
    ensures Sound(After(b, events))
    ensures After(b, events).peak == Highest(b.peak, Trace(b, events))
    decreases events
  {
    if events != [] {
      var next := Step(b, events[0]);
      StepSound(b, events[0]);
      RunConserves(next, events[1..]);
      assert next.peak == Max(b.peak, next.current);
      assert Trace(b, events)[1..] == Trace(next, events[1..]);
    }
  }

  /** In every interleaving of allocations, releases and the parts of reallocations: nothing is listed twice, the
      current counter is the sum of the listed sizes and of the old sizes of the blocks in the middle of a
      reallocation, so that it never goes below zero, and the peak is the highest value it has ever had. */
  lemma {:induction false} EveryInterleavingConserves<T>(a: Books<T>, events: seq<Event<T>>, b: Books<T>,
                                                         trace: seq<int>)
    requires a.listed == [] && a.window == [] && a.current == 0 && a.peak == 0
    requires AllLegal(a, events) && b == After(a, events) && trace == Trace(a, events)
    ensures NoDuplicates(b) && b.current == Sum(b.listed) + Sum(b.window)
    ensures forall i :: 0 <= i < |trace| ==> trace[i] <= b.peak
    ensures b.peak == 0 || b.peak in trace
  {
    assert Sound(a) by {
      EmptySound(a);
    }
    RunKeepsBooks(a, events, b, trace);
  }

  lemma {:induction false} RunKeepsBooks<T>(a: Books<T>, events: seq<Event<T>>, b: Books<T>, trace: seq<int>)
    requires Sound(a) && AllLegal(a, events) && b == After(a, events) && trace == Trace(a, events)
    ensures NoDuplicates(b) && b.current == Sum(b.listed) + Sum(b.window)
    ensures forall i :: 0 <= i < |trace| ==> trace[i] <= b.peak
    ensures b.peak == a.peak || b.peak in trace
  {
    RunConserves(a, events);
    HighestBounds(a.peak, trace);
  }

  lemma {:induction false} FirstStep<T>(b: Books<T>, e: Event<T>, more: seq<Event<T>>)
    ensures After(b, [e] + more) == After(Step(b, e), more)
    ensures AllLegal(b, [e] + more) <==> Legal(b, e) && AllLegal(Step(b, e), more)
  {
    assert ([e] + more)[1..] == more;
  }

  lemma {:induction false} TwoSteps<T>(b: Books<T>, e: Event<T>, f: Event<T>)
    ensures After(b, [e, f]) == Step(Step(b, e), f)
    ensures AllLegal(b, [e, f]) <==> Legal(b, e) && Legal(Step(b, e), f)
  {
    assert [e, f] == [e] + [f] && [f] == [f] + [];
    FirstStep(b, e, [f]);
    FirstStep(Step(b, e), f, []);
  }

  lemma {:induction false} ThreeSteps<T>(b: Books<T>, e: Event<T>, f: Event<T>, g: Event<T>)
    ensures After(b, [e, f, g]) == Step(Step(Step(b, e), f), g)
    ensures AllLegal(b, [e, f, g]) <==> Legal(b, e) && Legal(Step(b, e), f) && Legal(Step(Step(b, e), f), g)
  {
    assert [e, f, g] == [e] + [f, g];
    FirstStep(b, e, [f, g]);
    TwoSteps(Step(b, e), f, g);
  }

  /** Another thread may get and list the old address of a block that has moved, before the block itself is listed
      again: the block keeps its size in the books all the time. */
  lemma {:induction false} OldAddressIsReused<T>(b: Books<T>, id: T, size: nat, newId: T, newSize: nat, other: nat)
    requires Sound(b) && b.window == [] && b.listed != [] && b.listed[0] == Block(id, size, None) && Fresh(b, newId)
    ensures AllLegal(b, [Detach(id), Move(id, newId, newSize), Allocate(id, other)])
    ensures var during := After(b, [Detach(id), Move(id, newId, newSize), Allocate(id, other)]);
            && during.listed == [Block(id, other, None)] + b.listed[1..]
            && during.window == [Block(newId, size, Some(newSize))]
            && during.current == b.current + other
  {
    var detached := Step(b, Detach(id));
    IdentityListed(b.listed, 0);
    DetachedSound(b, 0);
    assert RemoveAt(b.listed, 0) == b.listed[1..] && detached.window == [Block(id, size, None)];
    OldAddressIsFree(detached, 0, newId, newSize);
    assert Step(detached, Move(id, newId, newSize)).window == [Block(newId, size, Some(newSize))];
    ThreeSteps(b, Detach(id), Move(id, newId, newSize), Allocate(id, other));
  }

  lemma {:induction false} OldAddressIsFree<T>(b: Books<T>, k: nat, newId: T, size: nat)
    requires Sound(b) && k < |b.window| && Fresh(b, newId)
    ensures Fresh(Moved(b, k, newId, size), b.window[k].id)
  {
    var id := b.window[k].id;
    SizeCounted(b.window, k);
    Renamed(b.window, k, Block(newId, b.window[k].size, Some(size)));
    TakeOut(Identities(b.window), Identities(b.listed), id);
    OneLess(Live(b), id);
    assert Live(Moved(b, k, newId, size)) == (Live(b) - multiset{id}) + multiset{newId};
  }

  /** The other thread frees it after the block is back: either has its own size taken off. */
  lemma {:induction false} MovedBlockReturns<T>(b: Books<T>, id: T, newId: T, size: nat, other: nat, newSize: nat)
    requires b.window == [Block(newId, size, Some(newSize))] && id != newId
    requires b.listed != [] && b.listed[0] == Block(id, other, None)
    ensures AllLegal(b, [Attach(newId), Release(id)])
    ensures var after := After(b, [Attach(newId), Release(id)]);
            && after.listed == [Block(newId, newSize, None)] + b.listed[1..] && after.window == []
            && after.current == b.current - size + newSize - other
  {
    var attached := Step(b, Attach(newId));
    assert RemoveAt(b.window, 0) == [];
    assert attached.listed[1..] == b.listed && Find(attached.listed[1..], id) == 0;
    assert RemoveAt(attached.listed, 1) == [Block(newId, newSize, None)] + b.listed[1..];
    TwoSteps(b, Attach(newId), Release(id));
  }
}

/** The allocator itself: a doubly linked list of entries, and the counters. */
module Allocation {
  import opened AllocationBooks
  import opened Options

  class Entry {
    var size: nat
    var prev: Entry?
    var next: Entry?

    constructor (size: nat)
      ensures this.size == size && prev == null && next == null
    {
      this.size, prev, next := size, null, null;
    }
  }

  class Tracer {
    var head: Entry?
    var current: nat
    var peak: nat
    ghost var entries: seq<Entry>
    ghost var listed: seq<Block<Entry>>

    /** What the threads between the two critical sections of a reallocation know: their block, its old size, and the
        new size once `realloc` has succeeded. */
    var window: seq<Block<Entry>>

    /** The entry at a place of the list, null outside of it. */
    static ghost function At(list: seq<Entry>, i: int): Entry? {
      if 0 <= i < |list| then list[i] else null
    }

    /** The links of the list are those of `entries`, forwards and backwards. */
    ghost predicate Linked()
      reads `head, `entries, entries
    {
      && (forall i, j :: 0 <= i < j < |entries| ==> entries[i] != entries[j])
      && head == At(entries, 0)
      && (forall i {:trigger entries[i].next} :: 0 <= i < |entries| ==> entries[i].next == At(entries, i + 1))
      && (forall i {:trigger entries[i].prev} :: 0 <= i < |entries| ==> entries[i].prev == At(entries, i - 1))
    }

    /** `listed` records the entries with their sizes. */
    ghost predicate Recorded()
      reads `listed, `entries, entries
    {
      |listed| == |entries| && forall i :: 0 <= i < |entries| ==> listed[i] == Block(entries[i], entries[i].size, None)
    }

    ghost function Now(): Books<Entry>
      reads `listed, `window, `current, `peak
    {
      Books(listed, window, current, peak)
    }

    ghost function WindowEntries(): set<Entry>
      reads `window
    {
      set k | 0 <= k < |window| :: window[k].id
    }

    /** The header of a block in the window: no other thread touches it. */
    ghost predicate Loose()
      reads `window, WindowEntries()
    {
      forall k :: 0 <= k < |window| ==> LooseBlock(window[k])
    }

    static ghost predicate LooseBlock(block: Block<Entry>)
      reads block.id
    {
      && block.id.prev == null
      && block.id.size == match block.granted case None => block.size case Some(size) => size
    }

    /** No thread has that block in the middle of a reallocation. */
    ghost predicate Apart(entry: Entry)
      reads `window
    {
      forall k :: 0 <= k < |window| ==> window[k].id != entry
    }

    ghost predicate Lists()
      reads `head, `entries, `listed, `window, entries, WindowEntries()
    {
      Linked() && Recorded() && Loose() && forall i :: 0 <= i < |entries| ==> Apart(entries[i])
    }

    ghost predicate Valid()
      reads this, entries, WindowEntries()
    {
      Lists() && Sound(Now())
    }

    constructor ()
      ensures Valid() && Now() == Empty() && entries == []
    {
      head, current, peak, entries, listed, window := null, 0, 0, [], [], [];
      new;
      EmptyIsValid();
    }

    lemma {:induction false} EmptyIsValid()
      requires head == null && Now() == Empty() && entries == []
      ensures Valid()
    {
      assert Lists();
      EmptySound(Now());
    }

    /** Puts an entry in front of the list. */
    method Link(entry: Entry)
      requires Linked() && entry !in entries && entry.prev == null
      modifies this`head, this`entries, entry`next, entries
      ensures Linked() && entries == [entry] + old(entries) && entry.size == old(entry.size)
      ensures forall e :: e in old(entries) ==> e.size == old(e.size)
    {
      entry.next := head;
      if head != null {
        head.prev := entry;
      }
      head := entry;
      entries := [entry] + entries;
    }

    /** The search for an entry: its place in the list, or null. */
    method Search(ptr: Entry) returns (entry: Entry?, ghost k: nat)
      requires Linked() && Recorded()
      ensures k == Find(listed, ptr)
      ensures entry == null <==> Find(listed, ptr) == |entries|
      ensures entry != null ==> entry == ptr && Find(listed, ptr) < |entries| && entries[Find(listed, ptr)] == ptr
    {
      entry, k := head, 0;
      while entry != null && entry != ptr
        invariant 0 <= k <= |entries| && entry == At(entries, k)
        invariant forall i :: 0 <= i < k ==> listed[i].id != ptr
        decreases |entries| - k
      {
        assert listed[k].id == entries[k];
        entry := entry.next;
        k := k + 1;
      }
      FoundAt(listed, ptr, k);
    }

    static lemma {:induction false} FoundAt(blocks: seq<Block<Entry>>, ptr: Entry, k: nat)
      requires k <= |blocks| && forall i :: 0 <= i < k ==> blocks[i].id != ptr
      requires k < |blocks| ==> blocks[k].id == ptr
      ensures k == Find(blocks, ptr)
    {
    }

    lemma {:induction false} ListedIsFound(ptr: Entry)
      requires Recorded()
      ensures ptr in entries <==> Find(listed, ptr) < |listed|
    {
      if i :| 0 <= i < |entries| && entries[i] == ptr {
        assert listed[i].id == ptr;
      }
      if Find(listed, ptr) < |listed| {
        assert listed[Find(listed, ptr)].id == entries[Find(listed, ptr)];
      }
    }

    /** The pointers of the neighbours of a listed entry, and the head. */
    method Bypass(entry: Entry, ghost k: nat)
      requires Linked() && k < |entries| && entries[k] == entry
      modifies this`head, entries
      ensures head == if k == 0 then At(entries, 1) else old(head)
      ensures k > 0 ==> entries[k - 1].next == At(entries, k + 1)
      ensures k + 1 < |entries| ==> entries[k + 1].prev == At(entries, k - 1)
      ensures forall e :: e in entries && e != At(entries, k - 1) ==> e.next == old(e.next)
      ensures forall e :: e in entries && e != At(entries, k + 1) ==> e.prev == old(e.prev)
      ensures forall e :: e in entries ==> e.size == old(e.size)
    {
      assert entry.prev == At(entries, k - 1) && entry.next == At(entries, k + 1);
      if entry.prev != null {
        entry.prev.next := entry.next;
      }
      if entry.next != null {
        entry.next.prev := entry.prev;
      }
      if entry.prev == null {
        head := entry.next;
      }
    }

    /** The same, told place by place. */
    method BypassPlaces(entry: Entry, ghost k: nat)
      requires Linked() && k < |entries| && entries[k] == entry
      modifies this`head, entries
      ensures head == At(entries, if k == 0 then 1 else 0)
      ensures forall i {:trigger entries[i].next} :: 0 <= i < |entries| ==>
        entries[i].next == At(entries, if i == k - 1 then k + 1 else i + 1)
      ensures forall i {:trigger entries[i].prev} :: 0 <= i < |entries| ==>
        entries[i].prev == At(entries, if i == k + 1 then k - 1 else i - 1)
      ensures forall e :: e in entries ==> e.size == old(e.size)
    {
      Bypass(entry, k);
      forall i | 0 <= i < |entries| ensures entries[i].next == At(entries, if i == k - 1 then k + 1 else i + 1) {
        OtherPlace(entries, i, k - 1);
      }
      forall i | 0 <= i < |entries| ensures entries[i].prev == At(entries, if i == k + 1 then k - 1 else i - 1) {
        OtherPlace(entries, i, k + 1);
      }
    }

    static lemma {:induction false} OtherPlace(list: seq<Entry>, i: nat, j: int)
      requires i < |list| && forall i, j :: 0 <= i < j < |list| ==> list[i] != list[j]
      ensures i != j ==> list[i] != At(list, j)
    {
    }

    /** Takes a listed entry out. */
    method Unlink(entry: Entry, ghost k: nat)
      requires Linked() && k < |entries| && entries[k] == entry
      modifies this`head, this`entries, entries
      ensures Linked() && entries == old(entries)[..k] + old(entries)[k + 1..]
      ensures forall e :: e in old(entries) ==> e.size == old(e.size)
    {
      ghost var list := entries;
      BypassPlaces(entry, k);
      entries := list[..k] + list[k + 1..];
      RestDistinct(list, k);
      RestNext(list, k);
      RestPrev(list, k);
      RestAt(list, k, 0);
    }

    static lemma {:induction false} RestNext(list: seq<Entry>, k: nat)
      requires k < |list|
      requires forall i {:trigger list[i].next} :: 0 <= i < |list| ==>
        list[i].next == At(list, if i == k - 1 then k + 1 else i + 1)
      ensures var rest := list[..k] + list[k + 1..];
              forall i {:trigger rest[i].next} :: 0 <= i < |rest| ==> rest[i].next == At(rest, i + 1)
    {
      var rest := list[..k] + list[k + 1..];
      forall i | 0 <= i < |rest| ensures rest[i].next == At(rest, i + 1) {
        RestAt(list, k, i);
        RestAt(list, k, i + 1);
      }
    }

    static lemma {:induction false} RestPrev(list: seq<Entry>, k: nat)
      requires k < |list|
      requires forall i {:trigger list[i].prev} :: 0 <= i < |list| ==>
        list[i].prev == At(list, if i == k + 1 then k - 1 else i - 1)
      ensures var rest := list[..k] + list[k + 1..];
              forall i {:trigger rest[i].prev} :: 0 <= i < |rest| ==> rest[i].prev == At(rest, i - 1)
    {
      var rest := list[..k] + list[k + 1..];
      forall i | 0 <= i < |rest| ensures rest[i].prev == At(rest, i - 1) {
        RestAt(list, k, i);
        RestAt(list, k, i - 1);
      }
    }

    static lemma {:induction false} RestDistinct(list: seq<Entry>, k: nat)
      requires k < |list| && forall i, j :: 0 <= i < j < |list| ==> list[i] != list[j]
      ensures var rest := list[..k] + list[k + 1..];
              (forall i, j :: 0 <= i < j < |rest| ==> rest[i] != rest[j]) && list[k] !in rest
    {
    }

    /** The list without its place `k`. */
    static lemma {:induction false} RestAt(list: seq<Entry>, k: nat, i: int)
      requires k < |list|
      ensures At(list[..k] + list[k + 1..], i) == if i < k then At(list, i) else At(list, i + 1)
      ensures 0 <= i < |list| - 1 ==> (list[..k] + list[k + 1..])[i] == list[if i < k then i else i + 1]
    {
    }

    /** Takes an entry out of the list and out of the record of it. */
    method TakeOutOfList(entry: Entry, ghost k: nat)
      requires Lists() && k < |entries| && entries[k] == entry
      modifies this`head, this`entries, this`listed, entries
      ensures Lists() && listed == RemoveAt(old(listed), k) && Apart(entry)
      ensures entry.size == old(entry.size) && old(listed)[k].size == entry.size
      ensures entry !in entries && forall e :: e in entries ==> e in old(entries)
    {
      ghost var list, record := entries, listed;
      Unlink(entry, k);
      listed := RemoveAt(listed, k);
      assert forall i :: 0 <= i < |list| ==> record[i] == Block(list[i], list[i].size, None);
    }

    method PutOnList(entry: Entry)
      requires Lists() && entry !in entries && Apart(entry) && entry.prev == null
      modifies this`head, this`entries, this`listed, entry`next, entries
      ensures Lists() && listed == [Block(entry, entry.size, None)] + old(listed)
      ensures entries == [entry] + old(entries) && entry.size == old(entry.size)
    {
      ghost var list, record := entries, listed;
      Link(entry);
      listed := [Block(entry, entry.size, None)] + listed;
      assert forall i :: 0 <= i < |list| ==> record[i] == Block(list[i], list[i].size, None);
    }

    /** A block whose address is not in use is not on the list, and no thread is about to put it there. */
    lemma {:induction false} UnusedIsNotListed(entry: Entry)
      requires Linked() && Recorded() && Fresh(Now(), entry)
      ensures entry !in entries && Apart(entry)
    {
      if i :| 0 <= i < |entries| && entries[i] == entry {
        IdentityListed(listed, i);
      }
      forall k | 0 <= k < |window| ensures window[k].id != entry {
        IdentityListed(window, k);
      }
    }

    /** No two threads have the same block in the middle of a reallocation. */
    lemma {:induction false} WindowApart()
      requires NoDuplicates(Now())
      ensures forall j, k :: 0 <= j < |window| && 0 <= k < |window| && j != k ==> window[j].id != window[k].id
    {
      NoDuplicatesMeans(Now());
    }

    /** `b_malloc` of the block the C library hands out; `b_calloc` asks for the product of its arguments and clears
        it.  The address may be one that was used before. */
    method Malloc(entry: Entry, size: nat)
      requires Valid() && Fresh(Now(), entry)
      modifies this, entries, entry
      ensures Valid() && entries == [entry] + old(entries) && entry.size == size
      ensures Now() == Allocated(old(Now()), entry, size)
    {
      ghost var was := Now();
      UnusedIsNotListed(entry);
      PutNewOnList(entry, size);
      CountIn(size);
      AllocatedSound(was, entry, size);
    }

    method PutNewOnList(entry: Entry, size: nat)
      requires Lists() && entry !in entries && Apart(entry)
      modifies this`head, this`entries, this`listed, entry, entries
      ensures Lists() && listed == [Block(entry, size, None)] + old(listed)
      ensures entries == [entry] + old(entries) && entry.size == size
    {
      entry.size, entry.prev := size, null;
      assert Linked() && Recorded() && Loose();
      PutOnList(entry);
    }

    /** `b_free`; false stands for the abort on a pointer that is not listed. */
    method Free(ptr: Entry) returns (ok: bool)
      requires Valid()
      modifies this, entries
      ensures Valid() && ok == (Find(old(listed), ptr) < |old(listed)|)
      ensures Now() == Step(old(Now()), Release(ptr))
      ensures forall e :: e in entries ==> e in old(entries)
    {
      var entryFound, k := Search(ptr);
      ok := entryFound != null;
      if ok {
        FreeFound(ptr, k);
      }
    }

    method FreeFound(ptr: Entry, ghost k: nat)
      requires Valid() && k < |entries| && entries[k] == ptr
      modifies this, entries
      ensures Valid() && Now() == Released(old(Now()), k) && forall e :: e in entries ==> e in old(entries)
    {
      ghost var was := Now();
      TakeOutOfList(ptr, k);
      ReleasedSound(was, k);
      CountOut(ptr.size);
    }

    /** The first critical section of `b_realloc`, in which the block leaves the list and the counters stay; and, once
        the lock is given up, the clearing of its links. */
    method ReallocDetach(ptr: Entry) returns (found: bool)
      requires Valid()
      modifies this, entries
      ensures Valid() && found == (Find(old(listed), ptr) < |old(listed)|)
      ensures Now() == Step(old(Now()), Detach(ptr)) && Live(Now()) == Live(old(Now()))
      ensures found ==> ptr !in entries && window == [Block(ptr, ptr.size, None)] + old(window)
      ensures forall e :: e in entries ==> e in old(entries)
    {
      var entryFound, k := Search(ptr);
      found := entryFound != null;
      if found {
        DetachFound(ptr, k);
      }
    }

    method DetachFound(ptr: Entry, ghost k: nat)
      requires Valid() && k < |entries| && entries[k] == ptr
      modifies this, entries
      ensures Valid() && Now() == Detached(old(Now()), k) && Live(Now()) == Live(old(Now()))
      ensures ptr !in entries && window == [Block(ptr, ptr.size, None)] + old(window)
      ensures forall e :: e in entries ==> e in old(entries)
    {
      ghost var was := Now();
      TakeOutOfList(ptr, k);
      EnterWindow(ptr);
      DetachedSound(was, k);
    }

    /** Without the lock: the detached block, which only this thread can reach, loses its links. */
    method EnterWindow(entry: Entry)
      requires Lists() && entry !in entries && Apart(entry)
      modifies `window, entry`prev, entry`next
      ensures Lists() && window == [Block(entry, old(entry.size), None)] + old(window) && entry.size == old(entry.size)
    {
      entry.prev, entry.next := null, null;
      assert Linked() && Recorded() && Loose();
      window := [Block(entry, entry.size, None)] + window;
    }

    method CountIn(size: nat)
      requires Lists()
      modifies `current, `peak
      ensures Lists() && current == old(current) + size && peak == Max(old(peak), current)
    {
      current := current + size;
      if current > peak {
        peak := current;
      }
    }

    method CountOut(size: nat)
      requires Lists() && size <= current
      modifies `current
      ensures Lists() && current == old(current) - size
    {
      current := current - size;
    }

    /** `realloc`, still without the lock, for a thread with a detached block: a block that is granted has the header
        of the old one, and gets the new size.  The old address is free from here on. */
    method Reallocate(entryFound: Entry, size: nat, granted: Entry?, ghost k: nat) returns (entry: Entry)
      requires Valid() && k < |window| && window[k].id == entryFound
      requires granted != null ==> granted == entryFound || Fresh(Now(), granted)
      modifies `window, granted
      ensures Valid() && entry == (if granted != null then granted else entryFound)
      ensures Now() == if granted != null then Moved(old(Now()), k, entry, size) else old(Now())
    {
      if granted == null {
        return entryFound;
      }
      entry := granted;
      ghost var was := Now();
      WindowApart();
      if entry != entryFound {
        UnusedIsNotListed(entry);
      }
      MoveHeader(entryFound, entry, size, k);
      MovedSound(was, k, entry, size);
    }

    /** The header at the granted address, which may be the old one. */
    method MoveHeader(entryFound: Entry, entry: Entry, size: nat, ghost k: nat)
      requires Lists() && k < |window| && window[k].id == entryFound
      requires forall j :: 0 <= j < |window| && j != k ==> window[j].id != entryFound && window[j].id != entry
      requires entry !in entries
      modifies `window, entry
      ensures Lists() && window == old(window)[k := Block(entry, old(window)[k].size, Some(size))]
    {
      entry.prev, entry.next, entry.size := entryFound.prev, entryFound.next, entryFound.size;
      entry.size := size;
      assert Linked() && Recorded();
      var place := Find(window, entryFound);
      window := window[place := Block(entry, window[place].size, Some(size))];
    }

    /** The second critical section of `b_realloc`, for the block `realloc` has left; `done` if it succeeded. */
    method ReallocAttach(entry: Entry, oldSize: nat, done: bool, k: nat)
      requires Valid() && k < |window|
      requires window[k] == Block(entry, oldSize, if done then Some(entry.size) else None)
      modifies this, entries, entry
      ensures Valid() && oldSize <= old(current) && entries == [entry] + old(entries)
      ensures Now() == Attached(old(Now()), k)
    {
      ghost var was := Now();
      WindowApart();
      AttachedSound(was, k);
      LeaveWindow(k);
      PutOnList(entry);
      if done {
        CountOut(oldSize);
        CountIn(entry.size);
      }
      assert Now() == Attached(was, k);
    }

    method LeaveWindow(k: nat)
      requires Lists() && k < |window|
      requires forall j :: 0 <= j < |window| && j != k ==> window[j].id != window[k].id
      modifies `window
      ensures Lists() && window == RemoveAt(old(window), k) && Apart(old(window)[k].id)
    {
      window := RemoveAt(window, k);
    }

    // ----- all threads together -----

    /** The blocks an event reaches that are not on the list. */
    static ghost function Reached(e: Event<Entry>): set<Entry> {
      match e
      case Allocate(id, _) => {id}
      case Release(_) => {}
      case Detach(_) => {}
      case Move(_, newId, _) => {newId}
      case Attach(id) => {id}
    }

    static ghost function AllReached(events: seq<Event<Entry>>): set<Entry> {
      if events == [] then {} else Reached(events[0]) + AllReached(events[1..])
    }

    /** One event, in whatever thread. */
    method Perform(e: Event<Entry>)
      requires Valid() && Legal(Now(), e)
      modifies this, entries, Reached(e)
      ensures Valid() && Now() == Step(old(Now()), e)
      ensures forall x :: x in entries ==> x in old(entries) || x in Reached(e)
    {
      match e
      case Allocate(id, size) => Malloc(id, size);
      case Release(id) => var _ := Free(id);
      case Detach(id) => var _ := ReallocDetach(id);
      case Move(id, newId, size) => var _ := Reallocate(id, size, newId, Find(window, id));
      case Attach(id) =>
        var k := Find(window, id);
        ReallocAttach(id, window[k].size, window[k].granted.Some?, k);
    }

    /** The list, its links and the counters follow the books through every interleaving, and the counter stays what
        the listed blocks, and those in the middle of a reallocation, count for. */
    method PerformAll(events: seq<Event<Entry>>)
      requires Valid() && AllLegal(Now(), events)
      modifies this, entries, AllReached(events)
      ensures Valid() && Now() == After(old(Now()), events)
      ensures current == Sum(listed) + Sum(window)
      decreases events
    {
      if events != [] {
        Perform(events[0]);
        PerformAll(events[1..]);
      }
    }

    // ----- a whole call -----

    /** The steps of a call of `b_realloc`. */
    static ghost function ReallocSteps(listed: seq<Block<Entry>>, ptr: Entry?, size: nat,
                                       granted: Entry?): seq<Event<Entry>> {
      if ptr == null then
        if granted == null then [] else [Allocate(granted as Entry, size)]
      else
        var block: Entry := ptr;
        if size == 0 then [Release(block)]
        else if Find(listed, block) == |listed| then []
        else if granted == null then [Detach(block), Attach(block)]
        else [Detach(block), Move(block, granted as Entry, size), Attach(granted as Entry)]
    }

    /** `b_realloc` when no other thread comes between its parts; `granted` is what the C library hands out. */
    method Realloc(ptr: Entry?, size: nat, granted: Entry?) returns (r: Entry?)
      requires Valid() && (granted != null ==> granted == ptr || Fresh(Now(), granted))
      modifies this, entries, granted
      ensures Valid() && Now() == After(old(Now()), ReallocSteps(old(listed), ptr, size, granted))
      ensures r == if ptr == null || (size > 0 && ptr in old(entries)) then granted else null
    {
      if ptr == null {
        if granted != null {
          Malloc(granted, size);
        }
        return granted;
      }
      if size == 0 {
        var _ := Free(ptr);
        return null;
      }
      r := ReallocListed(ptr, size, granted);
    }

    /** The same for a block and a size that is not zero. */
    method ReallocListed(ptr: Entry, size: nat, granted: Entry?) returns (r: Entry?)
      requires Valid() && size > 0 && (granted != null ==> granted == ptr || Fresh(Now(), granted))
      modifies this, entries, granted
      ensures Valid() && Now() == After(old(Now()), ReallocSteps(old(listed), ptr, size, granted))
      ensures r == if ptr in old(entries) then granted else null
    {
      ListedIsFound(ptr);
      StepsOfRealloc(Now(), ptr, size, granted);
      var found := ReallocDetach(ptr);
      if !found {
        return null;
      }
      assert ptr in old(entries);
      ReallocDetached(ptr, size, granted);
      r := granted;
    }

    static lemma {:induction false} StepsOfRealloc(b: Books<Entry>, ptr: Entry, size: nat, granted: Entry?)
      requires size > 0
      ensures After(b, ReallocSteps(b.listed, ptr, size, granted))
           == if Find(b.listed, ptr) == |b.listed| then b
              else if granted == null then Step(Step(b, Detach(ptr)), Attach(ptr))
              else Step(Step(Step(b, Detach(ptr)), Move(ptr, granted as Entry, size)), Attach(granted as Entry))
    {
      if Find(b.listed, ptr) == |b.listed| {
        assert After(b, []) == b;
      } else if granted == null {
        TwoSteps(b, Detach(ptr), Attach(ptr));
      } else {
        ThreeSteps(b, Detach(ptr), Move(ptr, granted, size), Attach(granted));
      }
    }

    /** What follows its first critical section. */
    method ReallocDetached(ptr: Entry, size: nat, granted: Entry?)
      requires Valid() && window != [] && window[0] == Block(ptr, ptr.size, None)
      requires granted != null ==> granted == ptr || Fresh(Now(), granted)
      modifies this, entries, ptr, granted
      ensures Valid()
      ensures Now() == if granted == null then Step(old(Now()), Attach(ptr))
                       else Step(Step(old(Now()), Move(ptr, granted as Entry, size)), Attach(granted as Entry))
    {
      var oldSize := ptr.size;
      var entry := Reallocate(ptr, size, granted, 0);
      ReallocAttach(entry, oldSize, granted != null, 0);
      FromTheFront(old(Now()), ptr, entry, size);
    }

    static lemma {:induction false} FromTheFront(b: Books<Entry>, ptr: Entry, entry: Entry, size: nat)
      requires b.window != [] && b.window[0].id == ptr
      ensures Step(b, Attach(ptr)) == Attached(b, 0)
      ensures Step(Step(b, Move(ptr, entry, size)), Attach(entry)) == Attached(Moved(b, 0, entry, size), 0)
    {
    }
  }
}
