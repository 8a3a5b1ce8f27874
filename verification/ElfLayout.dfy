/** The memory layout of a kernel add-on: the address range that is reserved for all loaded segments, and
    the areas for text and data that are put into it.  All sums are taken in 64 bits, as in the code. */
module ElfLayout {

  const B_PAGE_SIZE := 4096
  const ADDRESS_SPACE := 0x1_0000_0000_0000_0000
  const SSIZE_LIMIT := 0x8000_0000_0000_0000

  type Word = x: nat | x < ADDRESS_SPACE

  /** A program header; only loaded segments (PT_LOAD) take part. */
  datatype Header = Header(load: bool, vaddr: Word, memsz: Word, readWrite: bool, executable: bool)

  datatype Region = Region(start: Word, size: Word, delta: Word)

  // ----- 64-bit arithmetic -----

  function Add(a: Word, b: Word): Word {
    if a + b < ADDRESS_SPACE then a + b else a + b - ADDRESS_SPACE
  }

  function Negative(a: Word): Word {
    if a == 0 then 0 else ADDRESS_SPACE - a
  }

  /** The value of a word as `ssize_t`. */
  function Signed(x: Word): int {
    if x < SSIZE_LIMIT then x else x - ADDRESS_SPACE
  }

  /** `ROUNDUP` to pages, whose sum may wrap. */
  function RoundUp(x: Word): (r: Word)
    ensures r == if x + B_PAGE_SIZE - 1 < ADDRESS_SPACE then Pages(x) else 0
  {
    Add(x, B_PAGE_SIZE - 1) / B_PAGE_SIZE * B_PAGE_SIZE
  }

  function RoundDown(x: Word): (r: Word)
    ensures r <= x < r + B_PAGE_SIZE && r == x - x % B_PAGE_SIZE
  {
    x / B_PAGE_SIZE * B_PAGE_SIZE
  }

  /** Rounding up to pages without limit. */
  function Pages(x: nat): (r: nat)
    ensures r % B_PAGE_SIZE == 0 && x <= r < x + B_PAGE_SIZE
  {
    (x + B_PAGE_SIZE - 1) / B_PAGE_SIZE * B_PAGE_SIZE
  }

  lemma {:induction false} PagesShift(x: nat, pages: nat)
    ensures Pages(x + pages * B_PAGE_SIZE) == Pages(x) + pages * B_PAGE_SIZE
  {
    var y := x + B_PAGE_SIZE - 1;
    assert (y + pages * B_PAGE_SIZE) / B_PAGE_SIZE == y / B_PAGE_SIZE + pages;
  }

  /** In 64 bits, rounding a sum comes to the same before and after it wraps. */
  lemma {:induction false} SumRoundsUp(a: Word, b: Word)
    ensures var p := Pages(a + b);
            RoundUp(Add(a, b)) == if p < ADDRESS_SPACE then p
                                  else if p < 2 * ADDRESS_SPACE then p - ADDRESS_SPACE else p - 2 * ADDRESS_SPACE
  {
    if a + b >= ADDRESS_SPACE {
      PagesShift(a + b - ADDRESS_SPACE, ADDRESS_SPACE / B_PAGE_SIZE);
    }
  }

  // ----- the segments -----

  /** Where a segment ends, in pages. */
  function SegmentEnd(h: Header): Word {
    RoundUp(Add(h.memsz, h.vaddr))
  }

  /** The size of the area for a segment. */
  function AreaSize(h: Header): Word {
    RoundUp(Add(h.memsz, h.vaddr % B_PAGE_SIZE))
  }

  /** The area of a segment ends where the segment does, or a whole address space further on. */
  lemma {:induction false} PagesEnd(h: Header)
    ensures var areaEnd := RoundDown(h.vaddr) + AreaSize(h);
            areaEnd == SegmentEnd(h) || areaEnd == SegmentEnd(h) + ADDRESS_SPACE
  {
    var m := h.memsz + h.vaddr % B_PAGE_SIZE;
    SumRoundsUp(h.memsz, h.vaddr % B_PAGE_SIZE);
    SumRoundsUp(h.memsz, h.vaddr);
    assert h.memsz + h.vaddr == m + h.vaddr / B_PAGE_SIZE * B_PAGE_SIZE;
    PagesShift(m, h.vaddr / B_PAGE_SIZE);
  }

  function Reserved(headers: seq<Header>): Word {
    if headers == [] then 0
    else
      var before, h := Reserved(headers[..|headers| - 1]), headers[|headers| - 1];
      if h.load && SegmentEnd(h) > before then SegmentEnd(h) else before
  }

  /** The sum of the area sizes, in a variable of type `ssize_t`. */
  function TotalSize(headers: seq<Header>): Word {
    if headers == [] then 0
    else
      var h := headers[|headers| - 1];
      if h.load then Add(TotalSize(headers[..|headers| - 1]), AreaSize(h)) else TotalSize(headers[..|headers| - 1])
  }

  function CountExecutable(headers: seq<Header>): nat {
    if headers == [] then 0
    else
      var h := headers[|headers| - 1];
      CountExecutable(headers[..|headers| - 1]) + if h.load && h.executable then 1 else 0
  }

  lemma {:induction false} ReservedCovers(headers: seq<Header>, i: nat)
    requires i < |headers| && headers[i].load
    ensures SegmentEnd(headers[i]) <= Reserved(headers)
  {
    if i < |headers| - 1 {
      ReservedCovers(headers[..|headers| - 1], i);
    }
  }

  /** No more than that is reserved: one of the segments ends there. */
  lemma {:induction false} ReservedIsAnEnd(headers: seq<Header>)
    ensures Reserved(headers) == 0
         || exists i :: 0 <= i < |headers| && headers[i].load && SegmentEnd(headers[i]) == Reserved(headers)
  {
    if headers != [] {
      var init := headers[..|headers| - 1];
      ReservedIsAnEnd(init);
      if i :| 0 <= i < |init| && init[i].load && SegmentEnd(init[i]) == Reserved(init) {
        assert headers[i] == init[i];
      }
    }
  }

  predicate LoadsCode(h: Header) {
    h.load && h.executable
  }

  lemma {:induction false} NoneIsCounted(headers: seq<Header>)
    ensures CountExecutable(headers) == 0 <==> forall j :: 0 <= j < |headers| ==> !LoadsCode(headers[j])
  {
    if headers != [] {
      NoneIsCounted(headers[..|headers| - 1]);
    }
  }

  /** Next to a segment with code there is another one exactly if more than one is counted. */
  lemma {:induction false} OthersAreCounted(headers: seq<Header>, i: nat)
    requires i < |headers| && LoadsCode(headers[i])
    ensures CountExecutable(headers) > 1 <==> exists j :: 0 <= j < |headers| && j != i && LoadsCode(headers[j])
  {
    var init := headers[..|headers| - 1];
    if i == |init| {
      NoneIsCounted(init);
      assert forall j :: 0 <= j < |init| ==> init[j] == headers[j];
    } else {
      OthersAreCounted(init, i);
      NoneIsCounted(init);
      assert forall j :: 0 <= j < |init| ==> init[j] == headers[j];
      assert LoadsCode(init[i]);
      assert LoadsCode(headers[|init|]) ==> CountExecutable(headers) > 1;
    }
  }

  // ----- the check for unused space -----

  /** The range is refused: both sides are compared as signed numbers. */
  predicate Refused(headers: seq<Header>) {
    Signed(Reserved(headers)) > Signed(Add(TotalSize(headers), 8 * 1024))
  }

  /** The sum of the area sizes without limit. */
  function UnlimitedTotal(headers: seq<Header>): nat {
    if headers == [] then 0
    else
      var h := headers[|headers| - 1];
      UnlimitedTotal(headers[..|headers| - 1]) + if h.load then AreaSize(h) else 0
  }

  lemma {:induction false} TotalFits(headers: seq<Header>)
    requires UnlimitedTotal(headers) < ADDRESS_SPACE
    ensures TotalSize(headers) == UnlimitedTotal(headers)
  {
    if headers != [] {
      TotalFits(headers[..|headers| - 1]);
    }
  }

  /** For areas of less than 2^63 bytes together, a range with much unused space is refused exactly if it is itself
      smaller than 2^63 bytes: a larger one is negative as a signed number, and passes. */
  lemma {:induction false} RefusedExactly(headers: seq<Header>)
    requires UnlimitedTotal(headers) + 8 * 1024 < SSIZE_LIMIT
    ensures Refused(headers) <==> UnlimitedTotal(headers) + 8 * 1024 < Reserved(headers) < SSIZE_LIMIT
  {
    TotalFits(headers);
  }

  // ----- the areas -----

  /** The writable segment goes into the data area, an executable one into the text area. */
  predicate IsData(h: Header, executables: nat) {
    h.load && h.readWrite && (!h.executable || executables > 1)
  }

  predicate IsText(h: Header, executables: nat) {
    h.load && h.executable && !IsData(h, executables)
  }

  /** A segment that can be written is data and one with code is text; one that is both is text if it is the only one
      with code, and data next to another one. */
  lemma {:induction false} KindsMean(headers: seq<Header>, i: nat)
    requires i < |headers|
    ensures var h := headers[i];
            var others := exists j :: 0 <= j < |headers| && j != i && headers[j].load && headers[j].executable;
            && (OfKind(h, CountExecutable(headers), true) <==> h.load && h.readWrite && (h.executable ==> others))
            && (OfKind(h, CountExecutable(headers), false) <==> h.load && h.executable && (h.readWrite ==> !others))
  {
    if LoadsCode(headers[i]) {
      OthersAreCounted(headers, i);
    }
    assert forall j :: 0 <= j < |headers| ==> (LoadsCode(headers[j]) <==> headers[j].load && headers[j].executable);
  }

  predicate OfKind(h: Header, executables: nat, data: bool) {
    if data then IsData(h, executables) else IsText(h, executables)
  }

  /** The area of a segment; the delta is negative until the base is added to it. */
  function Place(h: Header, base: Word): Region {
    Region(Add(base, RoundDown(h.vaddr)), AreaSize(h), Negative(RoundDown(h.vaddr)))
  }

  const NO_REGION := Region(0, 0, 0)

  /** The first segment of its kind that takes any room has the area, or else the last one of its kind. */
  function Chosen(headers: seq<Header>, base: Word, executables: nat, data: bool): Region {
    if headers == [] then NO_REGION
    else
      var before, h := Chosen(headers[..|headers| - 1], base, executables, data), headers[|headers| - 1];
      if before.size == 0 && OfKind(h, executables, data) then Place(h, base) else before
  }

  /** The area is that of the first segment of its kind that takes room, or of the last one if none does. */
  lemma {:induction false} ChosenIsPlaced(headers: seq<Header>, base: Word, executables: nat, data: bool)
    returns (i: nat)
    requires exists j :: 0 <= j < |headers| && OfKind(headers[j], executables, data)
    ensures i < |headers| && OfKind(headers[i], executables, data)
    ensures Chosen(headers, base, executables, data) == Place(headers[i], base)
    ensures forall j :: 0 <= j < i && OfKind(headers[j], executables, data) ==> AreaSize(headers[j]) == 0
    ensures AreaSize(headers[i]) == 0 ==> forall j :: i < j < |headers| ==> !OfKind(headers[j], executables, data)
  {
    var init, h := headers[..|headers| - 1], headers[|headers| - 1];
    i := |headers| - 1;
    if j :| 0 <= j < |headers| - 1 && OfKind(headers[j], executables, data) {
      assert init[j] == headers[j];
      var before := ChosenIsPlaced(init, base, executables, data);
      if Chosen(init, base, executables, data).size != 0 || !OfKind(h, executables, data) {
        i := before;
      }
      assert forall j :: 0 <= j < |init| ==> init[j] == headers[j];
    } else {
      NothingChosen(init, base, executables, data);
    }
  }

  lemma {:induction false} NothingChosen(headers: seq<Header>, base: Word, executables: nat, data: bool)
    requires forall j :: 0 <= j < |headers| ==> !OfKind(headers[j], executables, data)
    ensures Chosen(headers, base, executables, data) == NO_REGION
  {
    if headers != [] {
      NothingChosen(headers[..|headers| - 1], base, executables, data);
    }
  }

  datatype Layout = Layout(reserved: Word, text: Region, data: Region) | BadData

  function AddStart(r: Region): Region {
    r.(delta := Add(r.delta, r.start))
  }

  /** The first pass over the headers in `load_kernel_add_on`. */
  method MeasureSegments(headers: seq<Header>) returns (reservedSize: Word, length: Word, executableHeaderCount: nat)
    ensures reservedSize == Reserved(headers) && length == TotalSize(headers)
    ensures executableHeaderCount == CountExecutable(headers)
  {
    reservedSize, length, executableHeaderCount := 0, 0, 0;
    for i := 0 to |headers|
      invariant reservedSize == Reserved(headers[..i]) && length == TotalSize(headers[..i])
      invariant executableHeaderCount == CountExecutable(headers[..i])
    {
      assert headers[..i + 1][..i] == headers[..i];
      if !headers[i].load {
        continue;
      }
      length := Add(length, RoundUp(Add(headers[i].memsz, headers[i].vaddr % B_PAGE_SIZE)));
      var end := RoundUp(Add(headers[i].memsz, headers[i].vaddr));
      if end > reservedSize {
        reservedSize := end;
      }
      if headers[i].executable {
        executableHeaderCount := executableHeaderCount + 1;
      }
    }
    assert headers[..|headers|] == headers;
  }

  /** Both passes, with the base address that the reservation has come out at. */
  method LayOut(headers: seq<Header>, reservedAddress: Word) returns (layout: Layout)
    ensures layout.BadData? <==> Refused(headers)
    ensures layout.Layout? ==>
      var executables := CountExecutable(headers);
      && layout.reserved == Reserved(headers)
      && layout.text == AddStart(Chosen(headers, reservedAddress, executables, false))
      && layout.data == AddStart(Chosen(headers, reservedAddress, executables, true))
  {
    var reservedSize, length, executableHeaderCount := MeasureSegments(headers);
    if Signed(reservedSize) > Signed(Add(length, 8 * 1024)) {
      return BadData;
    }
    var text, data := PlaceSegments(headers, reservedAddress, executableHeaderCount);
    data := data.(delta := Add(data.delta, data.start));
    text := text.(delta := Add(text.delta, text.start));
    layout := Layout(reservedSize, text, data);
  }

  /** The second pass. */
  method PlaceSegments(headers: seq<Header>, reservedAddress: Word, executables: nat)
    returns (text: Region, data: Region)
    ensures text == Chosen(headers, reservedAddress, executables, false)
    ensures data == Chosen(headers, reservedAddress, executables, true)
  {
    data, text := NO_REGION, NO_REGION;
    for i := 0 to |headers|
      invariant text == Chosen(headers[..i], reservedAddress, executables, false)
      invariant data == Chosen(headers[..i], reservedAddress, executables, true)
    {
      assert headers[..i + 1][..i] == headers[..i];
      var h := headers[i];
      if !h.load {
        continue;
      }
      var writable := h.readWrite && (!h.executable || executables > 1);
      if writable {
        if data.size != 0 {
          continue;
        }
      } else if h.executable {
        if text.size != 0 {
          continue;
        }
      } else {
        continue;
      }
      var start := Add(reservedAddress, RoundDown(h.vaddr));
      var size := RoundUp(Add(h.memsz, h.vaddr % B_PAGE_SIZE));
      var delta := Negative(RoundDown(h.vaddr));
      if writable {
        data := Region(start, size, delta);
      } else {
        text := Region(start, size, delta);
      }
    }
    assert headers[..|headers|] == headers;
  }

  lemma {:induction false} DeltaIsBase(h: Header, base: Word)
    ensures AddStart(Place(h, base)).delta == base
  {
  }

  /** An area lies in a range of addresses. */
  predicate Inside(r: Region, base: Word, size: Word) {
    base <= r.start && r.start + r.size <= base + size
  }

  /** In a reserved range that does not run over the end of the address space: the area a kind of segment gets is
      that of one of its segments, and its delta is the base of the range, so that an address of the file maps to the
      same place through either region.  The area lies inside the range exactly if its segment does not end, as the
      64-bit sum has it, before it begins. */
  lemma {:induction false} AreasInsideReservation(headers: seq<Header>, base: Word, data: bool) returns (i: nat)
    requires base + Reserved(headers) <= ADDRESS_SPACE
    requires exists j :: 0 <= j < |headers| && OfKind(headers[j], CountExecutable(headers), data)
    ensures i < |headers| && OfKind(headers[i], CountExecutable(headers), data)
    ensures var r := AddStart(Chosen(headers, base, CountExecutable(headers), data));
            && r.delta == base && r.size == AreaSize(headers[i])
            && (r.size > 0 ==>
                 (Inside(r, base, Reserved(headers)) <==> RoundDown(headers[i].vaddr) < SegmentEnd(headers[i])))
  {
    i := ChosenIsPlaced(headers, base, CountExecutable(headers), data);
    DeltaIsBase(headers[i], base);
    ReservedCovers(headers, i);
    if AreaSize(headers[i]) > 0 {
      PlacedInside(headers[i], base, Reserved(headers));
    }
  }

  lemma {:induction false} PlacedInside(h: Header, base: Word, reserved: Word)
    requires SegmentEnd(h) <= reserved && base + reserved <= ADDRESS_SPACE && AreaSize(h) > 0
    ensures Inside(Place(h, base), base, reserved) <==> RoundDown(h.vaddr) < SegmentEnd(h)
  {
    PagesEnd(h);
  }

  /** No sum of the first pass wraps. */
  predicate NothingWraps(headers: seq<Header>) {
    forall i :: 0 <= i < |headers| && headers[i].load ==>
      headers[i].memsz + headers[i].vaddr + B_PAGE_SIZE - 1 < ADDRESS_SPACE
  }

  /** If no loaded segment ends, in pages, beyond the address space, both areas lie inside the reserved range. */
  lemma {:induction false} NothingWrapsIsEnough(headers: seq<Header>, base: Word, data: bool)
    requires base + Reserved(headers) <= ADDRESS_SPACE && NothingWraps(headers)
    requires exists j :: 0 <= j < |headers| && OfKind(headers[j], CountExecutable(headers), data)
    ensures var r := AddStart(Chosen(headers, base, CountExecutable(headers), data));
            r.size > 0 ==> Inside(r, base, Reserved(headers))
  {
    var i := AreasInsideReservation(headers, base, data);
    if AreaSize(headers[i]) > 0 {
      PagesEnd(headers[i]);
    }
  }

  /** A file whose data segment wraps over the end of the address space is accepted, and its data area is put in
      front of the reserved range. */
  lemma {:induction false} WrappedSegmentIsOutside(base: Word)
    requires B_PAGE_SIZE <= base <= ADDRESS_SPACE - B_PAGE_SIZE
    ensures var headers := [Header(true, ADDRESS_SPACE - B_PAGE_SIZE, 2 * B_PAGE_SIZE, true, false),
                            Header(true, 0, B_PAGE_SIZE, false, true)];
            && Reserved(headers) == B_PAGE_SIZE && !Refused(headers)
            && AddStart(Chosen(headers, base, CountExecutable(headers), true))
               == Region(base - B_PAGE_SIZE, 2 * B_PAGE_SIZE, base)
  {
    var data := Header(true, ADDRESS_SPACE - B_PAGE_SIZE, 2 * B_PAGE_SIZE, true, false);
    var text := Header(true, 0, B_PAGE_SIZE, false, true);
    var headers := [data, text];
    assert headers[..1] == [data] && [data][..0] == [];
    assert SegmentEnd(data) == B_PAGE_SIZE && SegmentEnd(text) == B_PAGE_SIZE;
    assert AreaSize(data) == 2 * B_PAGE_SIZE && AreaSize(text) == B_PAGE_SIZE;
    assert Reserved([data]) == B_PAGE_SIZE && TotalSize([data]) == 2 * B_PAGE_SIZE && CountExecutable([data]) == 0;
    assert Chosen([data], base, 1, true) == Place(data, base);
    DeltaIsBase(data, base);
  }
}
