/** Looking a symbol up by address: the search through the debug symbols of an image, and the one through
    the chains of its hash table. */
module ElfNearestSymbol {
  import opened ElfSymbols
  import opened Options

  const INT_MAX := 0x7fff_ffff

  /** The image around the search; `limit` is the size of its text and data together. */
  datatype Place = Place(delta: int, limit: nat, start: nat)

  /** Symbols without an address, and implausibly large ones, are not considered. */
  predicate Considered(symbol: Symbol, place: Place) {
    symbol.value != 0 && symbol.size < place.limit
  }

  /** The distance from the symbol forward to the address, in unsigned arithmetic. */
  function Distance(symbol: Symbol, place: Place, address: nat): (d: nat)
    ensures d < ADDRESS_SPACE
  {
    (address - (symbol.value + place.delta)) % ADDRESS_SPACE
  }

  predicate Covers(symbol: Symbol, place: Place, address: nat) {
    Considered(symbol, place) && Distance(symbol, place, address) < symbol.size
  }

  predicate NoneCovers(list: seq<Symbol>, place: Place, address: nat) {
    forall i :: 0 <= i < |list| ==> !Covers(list[i], place, address)
  }

  /** `k` is the first of the nearest symbols of a list; None when all of them are too far away. */
  predicate Nearest(list: seq<Symbol>, place: Place, address: nat, k: Option<nat>) {
    match k
    case None => forall i :: 0 <= i < |list| && Considered(list[i], place) ==>
      Distance(list[i], place, address) >= INT_MAX
    case Some(k) =>
      && k < |list| && Considered(list[k], place) && Distance(list[k], place, address) < INT_MAX
      && (forall i :: 0 <= i < |list| && Considered(list[i], place) ==>
            Distance(list[k], place, address) <= Distance(list[i], place, address))
      && (forall i :: 0 <= i < k && Considered(list[i], place) ==>
            Distance(list[k], place, address) < Distance(list[i], place, address))
  }

  /** What the search must come to: the first symbol that covers the address, or the nearest one in front. */
  predicate Found(list: seq<Symbol>, place: Place, address: nat, k: Option<nat>, exact: bool) {
    if exact then
      && k.Some? && k.value < |list| && Covers(list[k.value], place, address)
      && NoneCovers(list[..k.value], place, address)
    else
      NoneCovers(list, place, address) && Nearest(list, place, address, k)
  }

  /** The outcome is determined by the list. */
  lemma {:induction false} FoundIsUnique(list: seq<Symbol>, place: Place, address: nat, k: Option<nat>, exact: bool,
                                         k': Option<nat>, exact': bool)
    requires Found(list, place, address, k, exact) && Found(list, place, address, k', exact')
    ensures k == k' && exact == exact'
  {
  }

  /** The distance is how far the address lies behind the symbol, modulo 2^64. */
  lemma {:induction false} DistanceMeans(symbol: Symbol, place: Place, address: nat)
    ensures var d := Distance(symbol, place, address);
            d < 0x1_0000_0000_0000_0000 && (address - symbol.value - place.delta - d) % 0x1_0000_0000_0000_0000 == 0
  {
    var x := address - (symbol.value + place.delta);
    assert x - x % ADDRESS_SPACE == x / ADDRESS_SPACE * ADDRESS_SPACE;
  }

  /** What is found: of the symbols with an address and a size below the limit, the first one that the address is inside
      of; without one, the first of the nearest ones, if that is less than 2^31 - 1 bytes away. */
  lemma {:induction false} FoundMeans(list: seq<Symbol>, place: Place, address: nat, k: Option<nat>, exact: bool,
                                      i: nat)
    requires Found(list, place, address, k, exact)
    requires i < |list| && list[i].value > 0 && list[i].size < place.limit
    ensures k.Some? ==>
              && k.value < |list| && list[k.value].value > 0 && list[k.value].size < place.limit
              && (exact <==> Distance(list[k.value], place, address) < list[k.value].size)
    ensures k.None? ==> !exact && Distance(list[i], place, address) >= 0x7fff_ffff
    ensures Distance(list[i], place, address) < list[i].size ==> exact && k.value <= i
    ensures k.Some? && !exact ==>
              var nearest := Distance(list[k.value], place, address);
              nearest < 0x7fff_ffff && (if i < k.value then nearest < Distance(list[i], place, address)
                                        else nearest <= Distance(list[i], place, address))
  {
    if exact && i < k.value {
      assert list[..k.value][i] == list[i];
    }
  }

  /** A symbol that starts above the address is never the nearest one, unless the whole address space but
      the last two gigabytes lies in between. */
  lemma {:induction false} AboveIsFarAway(symbol: Symbol, place: Place, address: nat)
    requires 0 <= symbol.value + place.delta < ADDRESS_SPACE && address < ADDRESS_SPACE
    requires address < symbol.value + place.delta
    ensures Distance(symbol, place, address) < INT_MAX
       <==> symbol.value + place.delta - address > ADDRESS_SPACE - INT_MAX
  {
    var d := address - (symbol.value + place.delta);
    assert (d + ADDRESS_SPACE) % ADDRESS_SPACE == d % ADDRESS_SPACE;
  }

  lemma {:induction false} FoundStep(list: seq<Symbol>, symbol: Symbol, place: Place, address: nat, k: Option<nat>)
    requires Found(list, place, address, k, false)
    ensures var d := Distance(symbol, place, address);
            var best := if k.Some? then Distance(list[k.value], place, address) else INT_MAX;
            Found(list + [symbol], place, address,
                  if Considered(symbol, place) && (d < symbol.size || d < best) then Some(|list|) else k,
                  Considered(symbol, place) && d < symbol.size)
  {
    var more := list + [symbol];
    assert more[..|list|] == list;
    assert forall i :: 0 <= i < |list| ==> more[i] == list[i];
  }

  /** The search through the debug symbols. */
  method SearchDebugSymbols(symbols: seq<Symbol>, place: Place, address: nat) returns (k: Option<nat>, exactMatch: bool)
    ensures Found(symbols, place, address, k, exactMatch)
  {
    var deltaFound: nat := INT_MAX;
    exactMatch, k := false, None;
    for i := 0 to |symbols|
      invariant !exactMatch && Found(symbols[..i], place, address, k, false)
      invariant deltaFound == if k.Some? then Distance(symbols[k.value], place, address) else INT_MAX
    {
      var symbol := symbols[i];
      FoundStep(symbols[..i], symbol, place, address, k);
      assert symbols[..i + 1] == symbols[..i] + [symbol];
      if symbol.value == 0 || symbol.size >= place.limit {
        continue;
      }
      var symbolDelta := (address - (symbol.value + place.delta)) % ADDRESS_SPACE;
      if symbolDelta < symbol.size {
        exactMatch := true;
      }
      if exactMatch || symbolDelta < deltaFound {
        deltaFound, k := symbolDelta, Some(i);
        if exactMatch {
          assert forall j :: 0 <= j < i ==> symbols[..i + 1][j] == symbols[j];
          assert symbols[..i + 1][..i] == symbols[..i];
          return;
        }
      }
    }
    assert symbols[..|symbols|] == symbols;
  }

  // ----- the chains -----

  /** The symbols in the order in which the chains of the buckets are walked. */
  ghost function Enumeration(image: Image, buckets: nat): seq<nat>
    requires WellFormed(image) && buckets <= |image.buckets|
  {
    if buckets == 0 then [] else Enumeration(image, buckets - 1) + ChainOf(image, buckets - 1)
  }

  lemma {:induction false} EnumerationInside(image: Image, buckets: nat)
    requires WellFormed(image) && buckets <= |image.buckets|
    ensures forall j :: 0 <= j < |Enumeration(image, buckets)| ==> Enumeration(image, buckets)[j] < |image.syms|
  {
    if buckets > 0 {
      EnumerationInside(image, buckets - 1);
      ChainInside(image, image.buckets[buckets - 1], ChainOf(image, buckets - 1));
    }
  }

  lemma {:induction false} EnumerationExtends(image: Image, buckets: nat, all: nat)
    requires WellFormed(image) && buckets <= all <= |image.buckets|
    ensures Enumeration(image, buckets) <= Enumeration(image, all)
    decreases all
  {
    if buckets < all {
      EnumerationExtends(image, buckets, all - 1);
    }
  }

  ghost function SymbolsAt(image: Image, indices: seq<nat>): (r: seq<Symbol>)
    requires forall j :: 0 <= j < |indices| ==> indices[j] < |image.syms|
    ensures |r| == |indices|
  {
    seq(|indices|, j requires 0 <= j < |indices| => image.syms[indices[j]])
  }

  /** The search through the hash chains finds the same as a search through the symbols in chain order; it
      returns the index of the symbol. */
  method SearchHashChains(image: Image, place: Place, address: nat)
    returns (found: Option<nat>, exactMatch: bool)
    requires WellFormed(image)
    ensures var order := Enumeration(image, |image.buckets|);
            && (forall j :: 0 <= j < |order| ==> order[j] < |image.syms|)
            && exists k: Option<nat> ::
                 && Found(SymbolsAt(image, order), place, address, k, exactMatch)
                 && found == if k.Some? then Some(order[k.value]) else None
  {
    var deltaFound: nat := INT_MAX;
    found, exactMatch := None, false;
    ghost var k: Option<nat> := None;
    ghost var order := Enumeration(image, |image.buckets|);
    EnumerationInside(image, |image.buckets|);
    var i := 0;
    while i < |image.buckets|
      invariant 0 <= i <= |image.buckets| && Enumeration(image, i) <= order
      invariant Searched(image, Enumeration(image, i), place, address, k, found, deltaFound) && !exactMatch
    {
      ghost var done := Enumeration(image, i + 1);
      EnumerationExtends(image, i + 1, |image.buckets|);
      found, exactMatch, deltaFound, k := SearchChain(image, image.buckets[i], place, address, found, deltaFound,
                                                      k, Enumeration(image, i), ChainOf(image, i));
      if exactMatch {
        ExactInPrefix(image, done, order, place, address, k);
        return;
      }
      i := i + 1;
    }
  }

  /** The search through one chain, `path`, behind the symbols in `before`. */
  method SearchChain(image: Image, start: nat, place: Place, address: nat, found0: Option<nat>, deltaFound0: nat,
                     ghost k0: Option<nat>, ghost before: seq<nat>, ghost path: seq<nat>)
    returns (found: Option<nat>, exactMatch: bool, deltaFound: nat, ghost k: Option<nat>)
    requires IsChain(image, start, path)
    requires Searched(image, before, place, address, k0, found0, deltaFound0)
    ensures forall j :: 0 <= j < |before + path| ==> (before + path)[j] < |image.syms|
    ensures if exactMatch then
              && Found(SymbolsAt(image, before + path), place, address, k, true)
              && found == Some((before + path)[k.value])
            else Searched(image, before + path, place, address, k, found, deltaFound)
  {
    ChainIndices(image, start, path);
    found, exactMatch, deltaFound, k := found0, false, deltaFound0, k0;
    ghost var done, left, all := before, path, before + path;
    var j := start;
    while j != STN_UNDEF
      invariant IsChain(image, j, left) && done + left == all
      invariant Searched(image, done, place, address, k, found, deltaFound) && !exactMatch
      decreases |left|
    {
      var symbol := image.syms[j];
      FoundStep(SymbolsAt(image, done), symbol, place, address, k);
      assert SymbolsAt(image, done + [j]) == SymbolsAt(image, done) + [symbol];
      assert left == [j] + left[1..];
      assert (done + [j]) + left[1..] == done + left;
      done, left := done + [j], left[1..];
      if symbol.value != 0 && symbol.size < place.limit {
        var symbolDelta := (address - (symbol.value + place.delta)) % ADDRESS_SPACE;
        if symbolDelta < symbol.size {
          exactMatch := true;
        }
        if exactMatch || symbolDelta < deltaFound {
          deltaFound, found, k := symbolDelta, Some(j), Some(|done| - 1);
          if exactMatch {
            ExactInPrefix(image, done, all, place, address, k);
            return;
          }
        }
      }
      j := image.chains[j];
    }
    assert done == all;
  }

  lemma {:induction false} ChainIndices(image: Image, i: nat, path: seq<nat>)
    requires IsChain(image, i, path)
    ensures forall j :: 0 <= j < |path| ==> path[j] < |image.syms|
    decreases path
  {
    if path != [] {
      ChainIndices(image, image.chains[i], path[1..]);
      assert path == [path[0]] + path[1..];
    }
  }

  ghost predicate Searched(image: Image, done: seq<nat>, place: Place, address: nat, k: Option<nat>,
                           found: Option<nat>, deltaFound: nat) {
    && (forall j :: 0 <= j < |done| ==> done[j] < |image.syms|)
    && Found(SymbolsAt(image, done), place, address, k, false)
    && found == (if k.Some? then Some(done[k.value]) else None)
    && deltaFound == if k.Some? then Distance(SymbolsAt(image, done)[k.value], place, address) else INT_MAX
  }

  lemma {:induction false} ExactInPrefix(image: Image, done: seq<nat>, order: seq<nat>, place: Place, address: nat,
                                         k: Option<nat>)
    requires forall j :: 0 <= j < |order| ==> order[j] < |image.syms|
    requires done <= order
    requires Found(SymbolsAt(image, done), place, address, k, true)
    ensures Found(SymbolsAt(image, order), place, address, k, true)
  {
    assert SymbolsAt(image, done) == SymbolsAt(image, order)[..|done|];
    assert SymbolsAt(image, order)[..|done|][..k.value] == SymbolsAt(image, order)[..k.value];
  }

  ghost function OrderedSymbols(image: Image): seq<Symbol>
    requires WellFormed(image)
  {
    EnumerationInside(image, |image.buckets|);
    SymbolsAt(image, Enumeration(image, |image.buckets|))
  }

  // ----- all images -----

  datatype Region = Region(start: nat, size: nat)

  datatype Loaded = Loaded(name: string, image: Image, debugSymbols: Option<seq<Symbol>>, text: Region, data: Region)

  function PlaceOf(l: Loaded): Place {
    Place(l.image.delta, l.text.size + l.data.size, l.text.start)
  }

  /** The byte behind a region still counts as part of it. */
  predicate Reaches(r: Region, address: nat) {
    r.start <= address <= r.start + r.size
  }

  predicate MayContain(l: Loaded, address: nat) {
    Reaches(l.text, address) || Reaches(l.data, address)
  }

  /** An image is asked for every address from the start of one of its regions to the byte behind it. */
  lemma {:induction false} MayContainMeans(l: Loaded, offset: nat, address: nat)
    ensures MayContain(l, l.text.start + offset) <==> offset <= l.text.size || Reaches(l.data, l.text.start + offset)
    ensures MayContain(l, l.data.start + offset) <==> offset <= l.data.size || Reaches(l.text, l.data.start + offset)
    ensures address < l.text.start && address < l.data.start ==> !MayContain(l, address)
  {
  }

  /** `find_image_at_address`; the images in the order of their hash table. */
  method FindImageAtAddress(images: seq<Loaded>, address: nat) returns (r: Option<nat>)
    ensures match r
      case None => forall i :: 0 <= i < |images| ==> !MayContain(images[i], address)
      case Some(k) =>
        && k < |images| && MayContain(images[k], address)
        && forall i :: 0 <= i < k ==> !MayContain(images[i], address)
  {
    for i := 0 to |images|
      invariant forall j :: 0 <= j < i ==> !MayContain(images[j], address)
    {
      if MayContain(images[i], address) {
        return Some(i);
      }
    }
    r := None;
  }

  /** The symbols of an image in the order in which they are searched. */
  ghost function SearchedSymbols(l: Loaded): seq<Symbol>
    requires WellFormed(l.image)
  {
    if l.debugSymbols.Some? then l.debugSymbols.value else OrderedSymbols(l.image)
  }

  datatype Answer = Answer(base: nat, symbol: Option<Symbol>, imageName: string, exactMatch: bool)

  /** The answer for an address in an image: its name, the symbol that is reported, and the base address. */
  ghost predicate Answers(l: Loaded, address: nat, answer: Answer)
    requires WellFormed(l.image)
  {
    var list, place := SearchedSymbols(l), PlaceOf(l);
    && answer.imageName == l.name
    && (answer.exactMatch ==> (address - answer.base) % ADDRESS_SPACE < place.limit)
    && exists k: Option<nat> ::
         && Found(list, place, address, k, answer.exactMatch)
         && answer.symbol == (if k.Some? then Some(list[k.value]) else None)
         && answer.base == if k.Some? then (list[k.value].value + place.delta) % ADDRESS_SPACE else place.start
  }

  /** What an answer says, against any symbol of the image with an address and a size below that of text and data
      together: the base is the start of the text or where the reported symbol is, and no such symbol would be a
      better answer. */
  lemma {:induction false} AnswersMean(l: Loaded, address: nat, answer: Answer, i: nat)
    requires WellFormed(l.image) && Answers(l, address, answer)
    requires var list := match l.debugSymbols case Some(symbols) => symbols case None => OrderedSymbols(l.image);
             i < |list| && list[i].value > 0 && list[i].size < l.text.size + l.data.size
    ensures var list := match l.debugSymbols case Some(symbols) => symbols case None => OrderedSymbols(l.image);
            var distance := (address - list[i].value - l.image.delta) % 0x1_0000_0000_0000_0000;
            && answer.imageName == l.name
            && match answer.symbol
               case None => !answer.exactMatch && answer.base == l.text.start && distance >= 0x7fff_ffff
               case Some(symbol) =>
                 var offset := (address - answer.base) % 0x1_0000_0000_0000_0000;
                 && symbol in list && IsAddressOf(answer.base, l.image, symbol)
                 && (answer.exactMatch <==> offset < symbol.size)
                 && (answer.exactMatch || (offset <= distance && distance >= list[i].size))
  {
    var list, place := SearchedSymbols(l), PlaceOf(l);
    var k: Option<nat> :| Found(list, place, address, k, answer.exactMatch)
      && answer.symbol == (if k.Some? then Some(list[k.value]) else None)
      && answer.base == if k.Some? then (list[k.value].value + place.delta) % ADDRESS_SPACE else place.start;
    FoundMeans(list, place, address, k, answer.exactMatch, i);
    if k.Some? {
      OffsetIsDistance(l, list[k.value], address);
    }
  }

  lemma {:induction false} OffsetIsDistance(l: Loaded, symbol: Symbol, address: nat)
    ensures var base := (symbol.value + l.image.delta) % ADDRESS_SPACE;
            IsAddressOf(base, l.image, symbol)
            && (address - base) % 0x1_0000_0000_0000_0000 == Distance(symbol, PlaceOf(l), address)
  {
    SubtractWrapped(address, symbol.value + l.image.delta);
    AddressMeans(l.image, symbol);
  }

  /** `elf_debug_lookup_symbol_address`: an address in no image has no answer. */
  method LookupSymbolAddress(images: seq<Loaded>, address: nat) returns (r: Option<Answer>)
    requires forall i :: 0 <= i < |images| ==> WellFormed(images[i].image)
    ensures match r
      case None => forall i :: 0 <= i < |images| ==> !MayContain(images[i], address)
      case Some(answer) => exists k ::
        && 0 <= k < |images| && MayContain(images[k], address) && Answers(images[k], address, answer)
        && forall i :: 0 <= i < k ==> !MayContain(images[i], address)
  {
    var k := FindImageAtAddress(images, address);
    if k.None? {
      return None;
    }
    var answer := LookupInImage(images[k.value], address);
    r := Some(answer);
  }

  /** The part for the image that may contain the address. */
  method LookupInImage(l: Loaded, address: nat) returns (answer: Answer)
    requires WellFormed(l.image)
    ensures Answers(l, address, answer)
  {
    var symbol: Option<Symbol>, exactMatch, place := None, false, PlaceOf(l);
    if l.debugSymbols.Some? {
      var k;
      k, exactMatch := SearchDebugSymbols(l.debugSymbols.value, place, address);
      if k.Some? {
        symbol := Some(l.debugSymbols.value[k.value]);
      }
    } else {
      var found;
      found, exactMatch := SearchHashChains(l.image, place, address);
      if found.Some? {
        symbol := Some(l.image.syms[found.value]);
      }
    }
    var base := if symbol.Some? then (symbol.value.value + place.delta) % ADDRESS_SPACE else place.start;
    if exactMatch {
      SubtractWrapped(address, symbol.value.value + place.delta);
    }
    answer := Answer(base, symbol, l.name, exactMatch);
  }

  lemma {:induction false} SubtractWrapped(a: int, b: int)
    ensures (a - b % ADDRESS_SPACE) % ADDRESS_SPACE == (a - b) % ADDRESS_SPACE
  {
    var q, r := b / ADDRESS_SPACE, b % ADDRESS_SPACE;
    assert b == q * ADDRESS_SPACE + r;
    assert a - r == (a - b) + q * ADDRESS_SPACE;
  }
}
