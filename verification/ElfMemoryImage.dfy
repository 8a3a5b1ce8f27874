/** Images that exist in memory only: a symbol table and a packed string table that grow with every symbol
    that is added, and the two scans that find out how long the string table is. */
module ElfMemoryImage {
  import opened Options

  datatype SymbolType = STT_OBJECT | STT_FUNC

  /** `st_name` is an offset into the string table; 0 stands for no name. */
  datatype Symbol = Symbol(st_name: nat, st_value: nat, st_size: nat, kind: SymbolType)

  /** The C string at an offset. */
  function CString(strings: seq<char>, at: nat): string
    decreases |strings| - at
  {
    if at >= |strings| || strings[at] == '\0' then [] else [strings[at]] + CString(strings, at + 1)
  }

  /** The string table after symbols with these names have been added: the empty string, and every name
      with its NUL. */
  function Packed(names: seq<Option<string>>): string {
    if names == [] then ['\0']
    else
      var last := names[|names| - 1];
      Packed(names[..|names| - 1]) + (if last.Some? then last.value + ['\0'] else [])
  }

  function Offset(names: seq<Option<string>>, i: nat): nat
    requires i < |names|
  {
    if names[i].Some? then |Packed(names[..i])| else 0
  }

  /** The name a symbol has for the lookups. */
  function NameOf(name: Option<string>): string {
    if name.Some? then name.value else []
  }

  predicate ProperNames(names: seq<Option<string>>) {
    forall i :: 0 <= i < |names| && names[i].Some? ==> '\0' !in names[i].value
  }

  // ----- the packed table -----

  lemma {:induction false} PackedGrows(names: seq<Option<string>>, i: nat)
    requires i <= |names|
    ensures Packed(names[..i]) <= Packed(names) && |Packed(names)| >= 1 && Packed(names)[0] == '\0'
    decreases |names| - i
  {
    if i == |names| {
      assert names[..i] == names;
      PackedStarts(names);
    } else {
      PackedGrows(names, i + 1);
      assert names[..i + 1][..i] == names[..i];
    }
  }

  lemma {:induction false} PackedStarts(names: seq<Option<string>>)
    ensures |Packed(names)| >= 1 && Packed(names)[0] == '\0'
  {
    if names != [] {
      PackedStarts(names[..|names| - 1]);
    }
  }

  lemma {:induction false} CStringAt(s: string, at: nat, word: string)
    requires at + |word| < |s| && s[at + |word|] == '\0' && '\0' !in word
    requires forall i :: at <= i < at + |word| ==> s[i] == word[i - at]
    ensures CString(s, at) == word
    decreases |word|
  {
    if word != [] {
      assert s[at] == word[0];
      CStringAt(s, at + 1, word[1..]);
    }
  }

  /** Whatever has been added since, a name reads back from its offset. */
  lemma {:induction false} NameReadsBack(names: seq<Option<string>>, i: nat)
    requires i < |names| && ProperNames(names)
    ensures CString(Packed(names), Offset(names, i)) == NameOf(names[i])
  {
    if names[i].Some? {
      PackedGrows(names, i + 1);
      assert names[..i + 1][..i] == names[..i];
      ReadPart(Packed(names), Packed(names[..i]), names[i].value);
    } else {
      PackedStarts(names);
    }
  }

  lemma {:induction false} ReadPart(s: string, before: string, word: string)
    requires before + (word + ['\0']) <= s && '\0' !in word
    ensures CString(s, |before|) == word
  {
    var part := before + (word + ['\0']);
    assert forall k :: 0 <= k < |part| ==> s[k] == part[k];
    assert part[|before| + |word|] == '\0';
    CStringAt(s, |before|, word);
  }

  /** Names are entered further and further on, and never at offset 0. */
  lemma {:induction false} OffsetsIncrease(names: seq<Option<string>>, i: nat, j: nat)
    requires i < j < |names| && names[i].Some? && names[j].Some?
    ensures 0 < Offset(names, i) && Offset(names, i) + |names[i].value| < Offset(names, j)
  {
    PackedStarts(names[..i]);
    PackedGrows(names[..j], i + 1);
    assert names[..j][..i + 1] == names[..i + 1];
    assert names[..i + 1][..i] == names[..i];
  }

  /** The last name ends where the table ends. */
  lemma {:induction false} LastNameEnds(names: seq<Option<string>>, i: nat)
    requires i < |names| && names[i].Some? && forall j :: i < j < |names| ==> names[j].None?
    ensures |Packed(names)| == Offset(names, i) + |names[i].value| + 1
    decreases |names|
  {
    var init := names[..|names| - 1];
    if i < |names| - 1 {
      LastNameEnds(init, i);
      assert init[..i] == names[..i];
    }
  }

  lemma {:induction false} NoNamesNoStrings(names: seq<Option<string>>)
    requires forall j :: 0 <= j < |names| ==> names[j].None?
    ensures Packed(names) == ['\0']
  {
    if names != [] {
      NoNamesNoStrings(names[..|names| - 1]);
    }
  }

  // ----- the image -----

  class MemoryImage {
    var symbols: seq<Symbol>
    var strings: seq<char>
    ghost var names: seq<Option<string>>

    ghost predicate Valid()
      reads this
    {
      && |symbols| == |names| && ProperNames(names)
      && strings == Packed(names)
      && forall i :: 0 <= i < |names| ==> symbols[i].st_name == Offset(names, i)
    }

    /** `elf_create_memory_image`. */
    constructor ()
      ensures Valid() && names == [] && symbols == []
    {
      symbols, strings, names := [], ['\0'], [];
    }

    method StringLength(at: nat) returns (n: nat)
      requires at < |strings| && strings[|strings| - 1] == '\0'
      ensures n == |CString(strings, at)| && at + n < |strings|
    {
      n := 0;
      while strings[at + n] != '\0'
        invariant at + n < |strings|
        invariant |CString(strings, at)| == n + |CString(strings, at + n)|
        decreases |strings| - n
      {
        n := n + 1;
      }
    }

    lemma {:induction false} EndsWithNul()
      requires Valid()
      ensures |strings| >= 1 && strings[|strings| - 1] == '\0'
    {
      PackedEnds(names);
    }

    /** The scan backwards from the last symbol in `elf_add_memory_image_symbol`. */
    method FindStringTableSize() returns (size: nat)
      requires Valid()
      ensures size == |strings|
    {
      EndsWithNul();
      size := 1;
      var i := |symbols| - 1;
      while i >= 0
        invariant -1 <= i < |symbols| && size == 1
        invariant forall j :: i < j < |names| ==> names[j].None?
      {
        var nameIndex := symbols[i].st_name;
        if nameIndex != 0 {
          PackedGrows(names, i);
          LastNameEnds(names, i);
          NameReadsBack(names, i);
          var length := StringLength(nameIndex);
          return nameIndex + length + 1;
        }
        PackedStarts(names[..i]);
        i := i - 1;
      }
      NoNamesNoStrings(names);
    }

    /** The scan for the greatest name offset in `_user_read_kernel_image_symbols`. */
    method ReadStringTableSize() returns (size: nat)
      requires Valid()
      ensures size == |strings|
    {
      EndsWithNul();
      size := 0;
      ghost var last := -1;
      for i := 0 to |symbols|
        invariant -1 <= last < i
        invariant last >= 0 ==> names[last].Some? && size == Offset(names, last)
        invariant last == -1 ==> size == 0
        invariant forall j :: last < j < i ==> names[j].None?
      {
        if symbols[i].st_name > size {
          size := symbols[i].st_name;
          last := i;
        } else if names[i].Some? {
          PackedStarts(names[..i]);
          OffsetsIncrease(names, last, i);
        }
      }
      if last >= 0 {
        PackedGrows(names, last);
        LastNameEnds(names, last);
        NameReadsBack(names, last);
      } else {
        NoNamesNoStrings(names);
      }
      var length := StringLength(size);
      size := size + length + 1;
    }

    /** `elf_add_memory_image_symbol`. */
    method AddSymbol(name: Option<string>, address: nat, size: nat, data: bool)
      requires Valid() && (name.Some? ==> '\0' !in name.value)
      modifies this
      ensures Valid() && names == old(names) + [name]
      ensures symbols == old(symbols)
        + [Symbol(if name.Some? then |old(strings)| else 0, address, size, if data then STT_OBJECT else STT_FUNC)]
      ensures old(strings) <= strings
    {
      var stringTableSize := FindStringTableSize();
      var stringIndex := 0;
      if name.Some? {
        stringIndex := stringTableSize;
        strings := strings + (name.value + ['\0']);
      }
      symbols := symbols + [Symbol(stringIndex, address, size, if data then STT_OBJECT else STT_FUNC)];
      names := names + [name];
      assert names[..|names| - 1] == old(names);
      assert forall i :: 0 <= i < |old(names)| ==> names[..i] == old(names)[..i];
    }

    /** The part of `elf_debug_lookup_symbol` that searches an image with symbols of its own: the first symbol
        of that name with an address, which is returned; 0 when there is none.  An image without symbols is
        searched by its hash table instead: None. */
    method LookupSymbol(searchName: string) returns (found: Option<nat>)
      requires Valid()
      ensures found.None? <==> symbols == []
      ensures symbols != [] ==>
        (found == Some(0) <==>
           forall i :: 0 <= i < |names| && symbols[i].st_value > 0 ==> NameOf(names[i]) != searchName)
      ensures found.Some? && found.value > 0 ==> exists i ::
        && 0 <= i < |names| && symbols[i].st_value == found.value && NameOf(names[i]) == searchName
        && forall j :: 0 <= j < i && symbols[j].st_value > 0 ==> NameOf(names[j]) != searchName
    {
      if |symbols| == 0 {
        return None;
      }
      for i := 0 to |symbols|
        invariant forall j :: 0 <= j < i && symbols[j].st_value > 0 ==> NameOf(names[j]) != searchName
      {
        NameReadsBack(names, i);
        if symbols[i].st_value > 0 && CString(strings, symbols[i].st_name) == searchName {
          return Some(symbols[i].st_value);
        }
      }
      found := Some(0);
    }
  }

  lemma {:induction false} PackedEnds(names: seq<Option<string>>)
    ensures |Packed(names)| >= 1 && Packed(names)[|Packed(names)| - 1] == '\0'
  {
    if names != [] {
      PackedEnds(names[..|names| - 1]);
    }
  }
}
