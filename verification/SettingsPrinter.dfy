/** The printer: parameters become a sequence of pieces, and each piece is either written to the
    bounded buffer as a whole or not at all, while the needed size is counted in any case. */
module SettingsPrinter {
  import opened Options
  import opened SettingsText

  // ----- what is printed -----

  predicate NeedsQuotes(word: string) {
    exists i :: 0 <= i < |word| && (word[i] == '"' || IsWordBreak(word[i]))
  }

  function EscapeQuotes(word: string): string {
    if word == [] then []
    else (if word[0] == '"' then ['\\', '"'] else [word[0]]) + EscapeQuotes(word[1..])
  }

  function PrintWord(word: string): string {
    if NeedsQuotes(word) then "\"" + EscapeQuotes(word) + "\"" else word
  }

  function Tabs(level: nat): seq<string> {
    if level == 0 then [] else ["\t"] + Tabs(level - 1)
  }

  function Indent(level: nat, flat: bool): seq<string> {
    if flat then [] else Tabs(level)
  }

  function ValuePieces(values: seq<string>): seq<string> {
    if values == [] then [] else [" ", PrintWord(values[0])] + ValuePieces(values[1..])
  }

  function LinePieces(p: Parameter, flat: bool): seq<string> {
    [PrintWord(p.name)] + (if flat && p.values != [] then [" ="] else []) + ValuePieces(p.values)
  }

  /** The pieces of one parameter, in the order they are put. */
  function Pieces(p: Parameter, level: nat, flat: bool): seq<string>
    decreases p, 1
  {
    Indent(level, flat) + LinePieces(p, flat) + BlockPieces(p, level, flat)
  }

  function BlockPieces(p: Parameter, level: nat, flat: bool): seq<string>
    decreases p, 0
  {
    if p.parameters == [] then []
    else
      [" {"] + (if flat then [] else ["\n"])
      + ChildPieces(p.parameters, level + 1, flat)
      + Indent(level, flat) + [if flat then "}" else "}\n"]
  }

  function Separator(p: Parameter, flat: bool): seq<string> {
    if p.parameters == [] then [if flat then "; " else "\n"] else []
  }

  function ChildPieces(ps: seq<Parameter>, level: nat, flat: bool): seq<string>
    decreases ps
  {
    if ps == [] then []
    else Pieces(ps[0], level, flat) + Separator(ps[0], flat) + ChildPieces(ps[1..], level, flat)
  }

  function TopPieces(ps: seq<Parameter>, flat: bool): seq<string> {
    if ps == [] then [] else Pieces(ps[0], 0, flat) + TopPieces(ps[1..], flat)
  }

  function Flatten(pieces: seq<string>): string {
    if pieces == [] then [] else pieces[0] + Flatten(pieces[1..])
  }

  /** The whole text of the settings. */
  function SettingsString(ps: seq<Parameter>, flat: bool): string {
    Flatten(TopPieces(ps, flat))
  }

  // ----- how much of it is written -----

  /** The output so far: the text in the buffer, the space left (negative once the text is too long)
      and whether a NUL ends the text yet. */
  datatype Output = Output(text: string, left: int, terminated: bool)

  function Put(o: Output, piece: string): Output {
    if o.left - |piece| > 0 then Output(o.text + piece, o.left - |piece|, true)
    else Output(o.text, o.left - |piece|, o.terminated)
  }

  function PutAll(o: Output, pieces: seq<string>): Output
    decreases pieces
  {
    if pieces == [] then o else PutAll(Put(o, pieces[0]), pieces[1..])
  }

  lemma {:induction false} PutAllAppend(o: Output, a: seq<string>, b: seq<string>)
    ensures PutAll(o, a + b) == PutAll(PutAll(o, a), b)
    decreases a
  {
    if a == [] {
      assert a + b == b;
    } else {
      assert (a + b)[1..] == a[1..] + b;
      PutAllAppend(Put(o, a[0]), a[1..], b);
    }
  }

  lemma {:induction false} PutFew(o: Output, a: string, b: string)
    ensures PutAll(o, [a]) == Put(o, a)
    ensures PutAll(o, [a, b]) == Put(Put(o, a), b)
  {
    assert [a][1..] == [];
    assert PutAll(o, [a]) == PutAll(Put(o, a), []);
    assert [a, b][1..] == [b] && [b][1..] == [];
    assert PutAll(Put(o, a), [b]) == PutAll(Put(Put(o, a), b), []);
  }

  lemma {:induction false} FlattenAppend(a: seq<string>, b: seq<string>)
    ensures Flatten(a + b) == Flatten(a) + Flatten(b)
  {
    if a == [] {
      assert a + b == b;
    } else {
      assert (a + b)[1..] == a[1..] + b;
      FlattenAppend(a[1..], b);
    }
  }

  /** The space left accounts for every piece, written or not. */
  lemma {:induction false} PutAllCounts(o: Output, pieces: seq<string>)
    ensures PutAll(o, pieces).left == o.left - |Flatten(pieces)|
    decreases pieces
  {
    if pieces != [] {
      PutAllCounts(Put(o, pieces[0]), pieces[1..]);
    }
  }

  /** What is written is the longest run of whole pieces that stays strictly below the space there is. */
  lemma {:induction false} PutAllKeepsWholePieces(o: Output, pieces: seq<string>) returns (k: nat)
    ensures k <= |pieces| && PutAll(o, pieces).text == o.text + Flatten(pieces[..k])
    ensures k > 0 ==> |Flatten(pieces[..k])| < o.left
    ensures k > 0 || o.terminated ==> PutAll(o, pieces).terminated
    ensures k < |pieces| ==> |Flatten(pieces[..k + 1])| >= o.left
    decreases pieces
  {
    k := 0;
    assert pieces[..0] == [];
    if pieces == [] {
      assert o.text + [] == o.text;
    } else if o.left - |pieces[0]| > 0 {
      k := PutAllKeepsWholePieces(Put(o, pieces[0]), pieces[1..]);
      assert pieces[..k + 1][1..] == pieces[1..][..k];
      assert (o.text + pieces[0]) + Flatten(pieces[1..][..k]) == o.text + Flatten(pieces[..k + 1]);
      if k + 1 < |pieces| {
        assert pieces[..k + 2][1..] == pieces[1..][..k + 1];
      }
      k := k + 1;
    } else {
      NothingFits(Put(o, pieces[0]), pieces[1..]);
      assert pieces[..1] == [pieces[0]];
      assert Flatten(pieces[..1]) == pieces[0] + [];
      assert o.text + [] == o.text;
    }
  }

  lemma {:induction false} NothingFits(o: Output, pieces: seq<string>)
    requires o.left <= 0
    ensures PutAll(o, pieces).text == o.text && PutAll(o, pieces).terminated == o.terminated
    decreases pieces
  {
    if pieces != [] {
      NothingFits(Put(o, pieces[0]), pieces[1..]);
    }
  }

  /** Everything is written exactly when the text is strictly shorter than the space. */
  lemma {:induction false} WrittenInFull(pieces: seq<string>, space: int)
    requires Flatten(pieces) != []
    ensures PutAll(Output([], space, false), pieces).text == Flatten(pieces) <==> |Flatten(pieces)| < space
    ensures |Flatten(pieces)| < space ==> PutAll(Output([], space, false), pieces).terminated
  {
    var k := PutAllKeepsWholePieces(Output([], space, false), pieces);
    assert pieces[..k] + pieces[k..] == pieces;
    FlattenAppend(pieces[..k], pieces[k..]);
    if k < |pieces| {
      assert pieces[..k + 1] + pieces[k + 1..] == pieces;
      FlattenAppend(pieces[..k + 1], pieces[k + 1..]);
    } else {
      assert pieces[..k] == pieces;
    }
  }

  // ----- the printer itself -----

  /** The buffer shows the output, and the space left, if any, is inside it. */
  ghost predicate Shows(buffer: array<char>, at: nat, left: int, o: Output)
    reads buffer
  {
    && at == |o.text| && left == o.left
    && at <= buffer.Length && (left > 0 ==> at + left <= buffer.Length)
    && buffer[..at] == o.text
    && (o.terminated ==> at < buffer.Length && buffer[at] == '\0')
  }

  /** `put_chars`. */
  method PutChars(buffer: array<char>, at: nat, left: int, chars: string, ghost o: Output)
    returns (at': nat, left': int)
    requires Shows(buffer, at, left, o)
    modifies buffer
    ensures Shows(buffer, at', left', Put(o, chars))
  {
    left' := left - |chars|;
    if left' <= 0 {
      return at, left';
    }
    for i := 0 to |chars|
      invariant buffer[..at + i] == o.text + chars[..i]
    {
      buffer[at + i] := chars[i];
    }
    at' := at + |chars|;
    buffer[at'] := '\0';
  }

  /** `put_char`. */
  method PutChar(buffer: array<char>, at: nat, left: int, c: char, ghost o: Output)
    returns (at': nat, left': int)
    requires Shows(buffer, at, left, o)
    modifies buffer
    ensures Shows(buffer, at', left', Put(o, [c]))
  {
    left' := left - 1;
    if left' <= 0 {
      return at, left';
    }
    buffer[at] := c;
    buffer[at + 1] := '\0';
    at' := at + 1;
  }

  /** `put_level_space`. */
  method PutLevelSpace(buffer: array<char>, at: nat, left: int, level: nat, ghost o: Output)
    returns (at': nat, left': int)
    requires Shows(buffer, at, left, o)
    modifies buffer
    ensures Shows(buffer, at', left', PutAll(o, Tabs(level)))
  {
    at', left' := at, left;
    var n := level;
    ghost var now := o;
    while n > 0
      invariant Shows(buffer, at', left', now) && PutAll(o, Tabs(level)) == PutAll(now, Tabs(n))
    {
      at', left' := PutChar(buffer, at', left', '\t', now);
      now := Put(now, "\t");
      n := n - 1;
    }
  }

  function CountQuotes(word: string): nat {
    if word == [] then 0 else (if word[|word| - 1] == '"' then 1 else 0) + CountQuotes(word[..|word| - 1])
  }

  lemma {:induction false} EscapeQuotesAppend(word: string, c: char)
    ensures EscapeQuotes(word + [c]) == EscapeQuotes(word) + (if c == '"' then ['\\', '"'] else [c])
  {
    if word == [] {
      assert word + [c] == [c] && [c][1..] == [];
      assert (if c == '"' then ['\\', '"'] else [c]) + [] == if c == '"' then ['\\', '"'] else [c];
    } else {
      assert (word + [c])[1..] == word[1..] + [c];
      EscapeQuotesAppend(word[1..], c);
    }
  }

  lemma {:induction false} EscapedLength(word: string)
    ensures |EscapeQuotes(word)| == |word| + CountQuotes(word)
    ensures CountQuotes(word) == 0 ==> EscapeQuotes(word) == word
    ensures CountQuotes(word) == 0 <==> '"' !in word
  {
    if word != [] {
      var init, last := word[..|word| - 1], word[|word| - 1];
      assert word == init + [last];
      EscapedLength(init);
      EscapeQuotesAppend(init, last);
    }
  }

  /** The counting loop of `put_string`. */
  method MeasureWord(word: string) returns (quoted: bool, size: nat)
    ensures quoted <==> NeedsQuotes(word)
    ensures size == |PrintWord(word)|
  {
    var length, reserved, quotes := 0, 0, 0;
    while length < |word|
      invariant 0 <= length <= |word| && 0 <= reserved
      invariant quotes == CountQuotes(word[..length])
      invariant reserved > 0 <==> exists i :: 0 <= i < length && word[i] != '"' && IsWordBreak(word[i])
      invariant quotes > 0 <==> exists i :: 0 <= i < length && word[i] == '"'
    {
      assert word[..length + 1][..length] == word[..length];
      if word[length] == '"' {
        quotes := quotes + 1;
      } else if IsWordBreak(word[length]) {
        reserved := reserved + 1;
      }
      length := length + 1;
    }
    assert word[..length] == word;
    EscapedLength(word);
    quoted := reserved > 0 || quotes > 0;
    size := length + (if quoted then 2 + quotes else 0);
  }

  /** `put_string`: the word, in quotes when a quote or white space is in it. */
  method PutString(buffer: array<char>, at: nat, left: int, word: string, ghost o: Output)
    returns (at': nat, left': int)
    requires Shows(buffer, at, left, o)
    modifies buffer
    ensures Shows(buffer, at', left', Put(o, PrintWord(word)))
  {
    var quoted, size := MeasureWord(word);
    left' := left - size;
    if left' <= 0 {
      return at, left';
    }
    at' := WriteWord(buffer, at, word, quoted);
    buffer[at'] := '\0';
    assert buffer[..at'] == o.text + PrintWord(word);
  }

  /** The writing part of `put_string`. */
  method WriteWord(buffer: array<char>, at: nat, word: string, quoted: bool) returns (at': nat)
    requires at + |PrintWord(word)| <= buffer.Length && quoted == NeedsQuotes(word)
    modifies buffer
    ensures at' == at + |PrintWord(word)|
    ensures buffer[..at'] == old(buffer[..at]) + PrintWord(word)
  {
    NoQuotesInside(word);
    if !quoted {
      at' := CopyEscaped(buffer, at, word);
      return;
    }
    ghost var before := buffer[..at];
    buffer[at] := '"';
    assert buffer[..at + 1] == before + "\"";
    at' := CopyEscaped(buffer, at + 1, word);
    ghost var copied := buffer[..at'];
    buffer[at'] := '"';
    at' := at' + 1;
    assert buffer[..at'] == copied + "\"";
    InQuotes(before, EscapeQuotes(word));
  }

  lemma {:induction false} InQuotes(before: string, inside: string)
    ensures ((before + "\"") + inside) + "\"" == before + ("\"" + inside + "\"")
  {
  }

  lemma {:induction false} NoQuotesInside(word: string)
    ensures !NeedsQuotes(word) ==> EscapeQuotes(word) == word
  {
    EscapedLength(word);
  }

  /** The copying loop of `put_string`. */
  method CopyEscaped(buffer: array<char>, at: nat, word: string) returns (at': nat)
    requires at + |EscapeQuotes(word)| <= buffer.Length
    modifies buffer
    ensures at' == at + |EscapeQuotes(word)|
    ensures buffer[..at'] == old(buffer[..at]) + EscapeQuotes(word)
  {
    at' := at;
    for i := 0 to |word|
      invariant at' == at + |EscapeQuotes(word[..i])|
      invariant at' + |EscapeQuotes(word[i..])| == at + |EscapeQuotes(word)|
      invariant buffer[..at'] == old(buffer[..at]) + EscapeQuotes(word[..i])
    {
      EscapeQuotesAppend(word[..i], word[i]);
      assert word[..i + 1] == word[..i] + [word[i]];
      ghost var before := buffer[..at'];
      if word[i] == '"' {
        buffer[at'] := '\\';
        at' := at' + 1;
      }
      buffer[at'] := word[i];
      at' := at' + 1;
      assert buffer[..at'] == before + (if word[i] == '"' then ['\\', '"'] else [word[i]]);
    }
    assert word[..|word|] == word;
  }

  /** `put_parameter`. */
  method PutParameter(buffer: array<char>, at: nat, left: int, p: Parameter, level: nat, flat: bool, ghost o: Output)
    returns (at': nat, left': int)
    requires Shows(buffer, at, left, o)
    modifies buffer
    ensures Shows(buffer, at', left', PutAll(o, Pieces(p, level, flat)))
    decreases p, 1
  {
    ghost var head := Indent(level, flat) + LinePieces(p, flat);
    at', left' := PutLine(buffer, at, left, p, level, flat, o);
    ghost var now := PutAll(o, head);
    if |p.parameters| > 0 {
      at', left' := PutBlock(buffer, at', left', p, level, flat, now);
    }
    PutAllAppend(o, head, BlockPieces(p, level, flat));
  }

  /** `put_parameter` up to the opening brace. */
  method PutLine(buffer: array<char>, at: nat, left: int, p: Parameter, level: nat, flat: bool, ghost o: Output)
    returns (at': nat, left': int)
    requires Shows(buffer, at, left, o)
    modifies buffer
    ensures Shows(buffer, at', left', PutAll(o, Indent(level, flat) + LinePieces(p, flat)))
  {
    at', left' := at, left;
    if !flat {
      at', left' := PutLevelSpace(buffer, at', left', level, o);
    }
    ghost var now := PutAll(o, Indent(level, flat));
    PutAllAppend(o, Indent(level, flat), LinePieces(p, flat));
    ghost var assign := if flat && p.values != [] then [" ="] else [];
    PutAllAppend(now, [PrintWord(p.name)] + assign, ValuePieces(p.values));
    PutAllAppend(now, [PrintWord(p.name)], assign);
    PutFew(now, PrintWord(p.name), "");
    at', left' := PutString(buffer, at', left', p.name, now);
    now := Put(now, PrintWord(p.name));
    PutFew(now, " =", "");
    if flat && |p.values| > 0 {
      at', left' := PutChars(buffer, at', left', " =", now);
      now := Put(now, " =");
    }
    assert p.values[0..] == p.values;
    for i := 0 to |p.values|
      invariant Shows(buffer, at', left', now)
      invariant PutAll(o, Indent(level, flat) + LinePieces(p, flat)) == PutAll(now, ValuePieces(p.values[i..]))
    {
      at', left' := PutChar(buffer, at', left', ' ', now);
      at', left' := PutString(buffer, at', left', p.values[i], Put(now, " "));
      PutAllAppend(now, [" ", PrintWord(p.values[i])], ValuePieces(p.values[i + 1..]));
      assert p.values[i..][1..] == p.values[i + 1..];
      PutFew(now, " ", PrintWord(p.values[i]));
      now := Put(Put(now, " "), PrintWord(p.values[i]));
    }
  }

  /** `put_parameter` from the opening brace on. */
  method PutBlock(buffer: array<char>, at: nat, left: int, p: Parameter, level: nat, flat: bool, ghost o: Output)
    returns (at': nat, left': int)
    requires Shows(buffer, at, left, o) && p.parameters != []
    modifies buffer
    ensures Shows(buffer, at', left', PutAll(o, BlockPieces(p, level, flat)))
    decreases p, 0
  {
    ghost var newLine := if flat then [] else ["\n"];
    ghost var children := ChildPieces(p.parameters, level + 1, flat);
    ghost var last := if flat then "}" else "}\n";
    PutAllAppend(o, [" {"] + newLine + children + Indent(level, flat), [last]);
    PutAllAppend(o, [" {"] + newLine + children, Indent(level, flat));
    PutAllAppend(o, [" {"] + newLine, children);
    PutAllAppend(o, [" {"], newLine);
    PutFew(o, " {", "");

    at', left' := PutChars(buffer, at, left, " {", o);
    ghost var now := Put(o, " {");
    PutFew(now, "\n", "");
    if !flat {
      at', left' := PutChar(buffer, at', left', '\n', now);
      now := Put(now, "\n");
    }
    ghost var started := now;
    assert p.parameters[0..] == p.parameters;
    for i := 0 to |p.parameters|
      invariant Shows(buffer, at', left', now)
      invariant PutAll(started, children) == PutAll(now, ChildPieces(p.parameters[i..], level + 1, flat))
    {
      ghost var child, rest := p.parameters[i], p.parameters[i + 1..];
      ghost var pieces := Pieces(child, level + 1, flat);
      assert p.parameters[i..][1..] == rest;
      PutAllAppend(now, pieces + Separator(child, flat), ChildPieces(rest, level + 1, flat));
      PutAllAppend(now, pieces, Separator(child, flat));
      at', left' := PutParameter(buffer, at', left', p.parameters[i], level + 1, flat, now);
      now := PutAll(now, pieces);
      if |p.parameters[i].parameters| == 0 {
        at', left' := PutChars(buffer, at', left', if flat then "; " else "\n", now);
        PutFew(now, if flat then "; " else "\n", "");
        now := Put(now, if flat then "; " else "\n");
      }
    }
    if !flat {
      at', left' := PutLevelSpace(buffer, at', left', level, now);
    }
    now := PutAll(now, Indent(level, flat));
    PutFew(now, last, "");
    at', left' := PutChars(buffer, at', left', if flat then "}" else "}\n", now);
  }

  datatype PrintStatus = PrintOk | BufferOverflow | BadValue

  /** `get_driver_settings_string`; None stands for an invalid handle.  The reported size is the size of
      the whole text whatever fits, the buffer holds the pieces that fit, and B_OK is returned up to and
      including the exact fit. */
  method GetDriverSettingsString(settings: Option<seq<Parameter>>, buffer: array?<char>, bufferSize: int, flat: bool)
    returns (status: PrintStatus, size: int)
    requires buffer != null ==> buffer.Length == if bufferSize > 0 then bufferSize else 0
    modifies buffer
    ensures settings == None || buffer == null || bufferSize == 0 <==> status == BadValue
    ensures status == BadValue ==> size == bufferSize && (buffer != null ==> buffer[..] == old(buffer[..]))
    ensures status != BadValue ==>
      var text := SettingsString(settings.value, flat);
      var o := PutAll(Output([], bufferSize, false), TopPieces(settings.value, flat));
      && size == |text|
      && (status == PrintOk <==> |text| <= bufferSize)
      && |o.text| <= buffer.Length && buffer[..|o.text|] == o.text
      && (o.terminated ==> |o.text| < buffer.Length && buffer[|o.text|] == '\0')
  {
    if settings == None || buffer == null || bufferSize == 0 {
      return BadValue, bufferSize;
    }
    var ps := settings.value;
    var at, left := 0, bufferSize;
    ghost var o := Output([], bufferSize, false);
    ghost var now := o;
    for i := 0 to |ps|
      invariant Shows(buffer, at, left, now)
      invariant PutAll(o, TopPieces(ps, flat)) == PutAll(now, TopPieces(ps[i..], flat))
    {
      assert ps[i..][1..] == ps[i + 1..];
      PutAllAppend(now, Pieces(ps[i], 0, flat), TopPieces(ps[i + 1..], flat));
      at, left := PutParameter(buffer, at, left, ps[i], 0, flat, now);
      now := PutAll(now, Pieces(ps[i], 0, flat));
    }
    PutAllCounts(o, TopPieces(ps, flat));
    size := bufferSize - left;
    status := if left >= 0 then PrintOk else BufferOverflow;
  }

  /** B_OK promises the whole text, and the promise is broken by the exact fit alone: the last piece
      needs one byte more for its NUL, is not written, and the status does not show it. */
  lemma {:induction false} OkWithoutTheWholeText(ps: seq<Parameter>, flat: bool, bufferSize: int)
    requires SettingsString(ps, flat) != []
    ensures var text := SettingsString(ps, flat);
            var written := PutAll(Output([], bufferSize, false), TopPieces(ps, flat)).text;
            |text| <= bufferSize && written != text <==> |text| == bufferSize
  {
    WrittenInFull(TopPieces(ps, flat), bufferSize);
  }
}
