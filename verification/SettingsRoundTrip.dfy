/** Printing settings and parsing the text again: when that gives the settings back, and what it
    gives otherwise. */
module SettingsRoundTrip {
  import opened Options
  import opened SettingsCounts
  import opened SettingsPrinter
  import opened SettingsText
  import SettingsParser

  // ----- the settings that can be told apart from their text -----

  /** A word that one call of the tokenizer reads back, once it has got to its first character: the printer escapes
      quotes, but no backslashes, and knows neither single quotes nor what an equals sign or a brace means. */
  predicate StandsAlone(word: string, mode: AssignmentMode)
    requires word != []
  {
    '\\' !in word
    && (NeedsQuotes(word) || (word[0] !in {'}', '\''} && (mode == IgnoreAssignment || '=' !in word)))
  }

  /** Every word of the parameter stands alone; a name may be left out only in front of an assignment. */
  predicate AloneLine(p: Parameter, flat: bool) {
    && (if p.name == [] then flat && p.values != [] else StandsAlone(p.name, NoAssignment))
    && AloneValues(p.values, true)
  }

  predicate AloneValues(values: seq<string>, first: bool) {
    forall i :: 0 <= i < |values| ==>
      values[i] != [] && StandsAlone(values[i], if first && i == 0 then AllowAssignment else IgnoreAssignment)
  }

  /** There is something to read for every word: no word is empty, but for a name that is left out in front of an
      assignment, and no first value is made of equals signs alone. */
  predicate SpelledLine(p: Parameter, flat: bool) {
    (p.name != [] || (flat && p.values != [])) && SpelledValues(p.values, true)
  }

  predicate SpelledValues(values: seq<string>, first: bool) {
    && (forall i :: 0 <= i < |values| ==> values[i] != [])
    && (first && values != [] ==> exists i :: 0 <= i < |values[0]| && values[0][i] != '=')
  }

  predicate Spelled(ps: seq<Parameter>, flat: bool)
    decreases ps
  {
    forall i :: 0 <= i < |ps| ==> SpelledLine(ps[i], flat) && Spelled(ps[i].parameters, flat)
  }

  /** A word that is not taken for a comment or a brace. */
  predicate Visible(word: string)
    requires word != []
  {
    NeedsQuotes(word) || word[0] !in {'#', '{', '}'}
  }

  /** A comment sign in front of a name starts a comment, and in front of a value a comment sign or a brace ends the
      line, unless the assignment behind a name has announced the value. */
  predicate InPlaceLine(p: Parameter, flat: bool)
    requires AloneLine(p, flat)
  {
    && NameInPlace(p)
    && forall i :: 0 <= i < |p.values| ==> (i == 0 && flat && p.name != []) || Visible(p.values[i])
  }

  predicate NameInPlace(p: Parameter) {
    p.name != [] ==> NeedsQuotes(p.name) || p.name[0] != '#'
  }

  predicate ReadableLine(p: Parameter, flat: bool) {
    AloneLine(p, flat) && InPlaceLine(p, flat)
  }

  predicate OpensBrace(p: Parameter) {
    p.name != [] && !NeedsQuotes(p.name) && p.name[0] == '{'
  }

  /** Every word is in a place where it is not taken for something else; a brace in front of a name opens a block if a
      parameter without one is in front of it. */
  predicate Readable(ps: seq<Parameter>, flat: bool)
    decreases ps
  {
    && (forall i :: 0 <= i < |ps| ==> ReadableLine(ps[i], flat) && Readable(ps[i].parameters, flat))
    && forall j :: 0 < j < |ps| && ps[j - 1].parameters == [] ==> !OpensBrace(ps[j])
  }

  lemma {:induction false} ReadableUnfolds(ps: seq<Parameter>, flat: bool)
    requires ps != []
    ensures Readable(ps, flat)
       <==> && ReadableLine(ps[0], flat) && Readable(ps[0].parameters, flat) && Readable(ps[1..], flat)
            && (|ps| > 1 && ps[0].parameters == [] ==> !OpensBrace(ps[1]))
  {
    var rest := ps[1..];
    assert forall i :: 0 <= i < |rest| ==> rest[i] == ps[i + 1];
    if ReadableLine(ps[0], flat) && Readable(ps[0].parameters, flat) && Readable(rest, flat)
       && (|ps| > 1 && ps[0].parameters == [] ==> !OpensBrace(ps[1])) {
      forall i | 0 <= i < |ps| ensures ReadableLine(ps[i], flat) && Readable(ps[i].parameters, flat) {
        assert i > 0 ==> ps[i] == rest[i - 1];
      }
      forall j | 0 < j < |ps| && ps[j - 1].parameters == [] ensures !OpensBrace(ps[j]) {
        assert j > 1 ==> ps[j - 1] == rest[j - 2] && ps[j] == rest[j - 1];
      }
    }
  }

  /** The number of brace levels inside a parameter. */
  function Depth(p: Parameter): nat
    decreases p, 0
  {
    if p.parameters == [] then 0 else 1 + DepthOfAll(p.parameters)
  }

  function DepthOfAll(ps: seq<Parameter>): nat
    decreases ps, 1
  {
    if ps == [] then 0
    else if Depth(ps[0]) > DepthOfAll(ps[1..]) then Depth(ps[0])
    else DepthOfAll(ps[1..])
  }

  /** The printer separates parameters inside braces, but not on the top level: there only the closing
      brace of a parameter keeps it apart from the next one. */
  predicate KeptApart(ps: seq<Parameter>) {
    forall i :: 0 <= i < |ps| - 1 ==> ps[i].parameters != []
  }

  // ----- words -----

  lemma {:induction false} ReadPlain(word: string, rest: string, mode: AssignmentMode)
    requires '\\' !in word && forall i :: 0 <= i < |word| ==> !EndsWord(word[i], '\0', mode)
    requires rest == [] || (EndsWord(rest[0], '\0', mode) && rest[0] != '\\')
    ensures ReadToken(word + rest, '\0', mode) == Token(word, rest)
  {
    if word == [] {
      assert word + rest == rest;
    } else {
      DropOver(word, rest, 1);
      ReadPlain(word[1..], rest, mode);
    }
  }

  lemma {:induction false} ReadEscapedChar(c: char, more: string, mode: AssignmentMode)
    requires c != '\\'
    ensures var first := if c == '"' then ['\\', '"'] else [c];
            ReadToken(first + more, '"', mode) == Prepend([c], ReadToken(more, '"', mode))
  {
    var first := if c == '"' then ['\\', '"'] else [c];
    assert (first + more)[|first|..] == more;
  }

  lemma {:induction false} EscapedStep(word: string, tail: string, mode: AssignmentMode)
    requires word != [] && word[0] != '\\'
    ensures ReadToken(EscapeQuotes(word) + tail, '"', mode)
         == Prepend([word[0]], ReadToken(EscapeQuotes(word[1..]) + tail, '"', mode))
  {
    var first := if word[0] == '"' then ['\\', '"'] else [word[0]];
    AppendAssociates(first, EscapeQuotes(word[1..]), tail);
    ReadEscapedChar(word[0], EscapeQuotes(word[1..]) + tail, mode);
  }

  lemma {:induction false} ReadEscaped(word: string, tail: string, mode: AssignmentMode)
    requires '\\' !in word && tail != [] && tail[0] == '"'
    ensures ReadToken(EscapeQuotes(word) + tail, '"', mode) == Token(word, tail)
  {
    if word == [] {
      assert EscapeQuotes(word) + tail == tail;
    } else {
      var t := ReadToken(EscapeQuotes(word[1..]) + tail, '"', mode);
      assert t == Token(word[1..], tail) by {
        ReadEscaped(word[1..], tail, mode);
      }
      assert ReadToken(EscapeQuotes(word) + tail, '"', mode) == Prepend([word[0]], t) by {
        EscapedStep(word, tail, mode);
      }
      assert [word[0]] + word[1..] == word;
    }
  }

  lemma {:induction false} PrintedStart(word: string)
    requires word != []
    ensures PrintWord(word) != [] && !IsWordBreak(PrintWord(word)[0])
    ensures Visible(word) <==> PrintWord(word)[0] !in {'#', '{', '}'}
  {
  }

  lemma {:induction false} ReadQuoted(word: string, rest: string, mode: AssignmentMode, allowNewLine: bool)
    requires '\\' !in word && NeedsQuotes(word)
    ensures GetWord(PrintWord(word) + rest, mode, allowNewLine)
         == Word(word, Trail(rest, false).rest, Trail(rest, false).more)
  {
    var text := PrintWord(word) + rest;
    assert Skip(text, mode, allowNewLine) == Some(text);
    BehindTheQuote(word, rest);
    ReadEscaped(word, "\"" + rest, mode);
    assert ("\"" + rest)[1..] == rest;
  }

  lemma {:induction false} BehindTheQuote(word: string, rest: string)
    requires NeedsQuotes(word)
    ensures (PrintWord(word) + rest)[1..] == EscapeQuotes(word) + ("\"" + rest)
  {
    AppendAssociates("\"" + EscapeQuotes(word), "\"", rest);
    AppendAssociates("\"", EscapeQuotes(word), "\"" + rest);
  }

  /** A printed word is read back, and what stands behind it is looked at from there on, whether the
      word was quoted or not. */
  lemma {:induction false} ReadPrinted(word: string, rest: string, mode: AssignmentMode, allowNewLine: bool)
    requires word != [] && StandsAlone(word, mode) && !IsSkipped(PrintWord(word)[0], mode, allowNewLine)
    requires rest == [] || IsWordBreak(rest[0])
    ensures GetWord(PrintWord(word) + rest, mode, allowNewLine)
         == Word(word, Trail(rest, false).rest, Trail(rest, false).more)
  {
    if NeedsQuotes(word) {
      ReadQuoted(word, rest, mode, allowNewLine);
    } else {
      var text := word + rest;
      assert Skip(text, mode, allowNewLine) == Some(text);
      ReadPlain(word, rest, mode);
    }
  }

  // ----- words that are lost -----

  predicate Yields(t: Token, word: string) {
    t.Token? && t.word == word
  }

  lemma {:induction false} PrependYields(c: char, t: Token, word: string)
    ensures Yields(Prepend([c], t), [c] + word) <==> Yields(t, word)
  {
    if t.Token? {
      assert ([c] + t.word)[1..] == t.word && ([c] + word)[1..] == word;
    }
  }

  /** The first character of a token. */
  lemma {:induction false} FirstOfToken(s: string, quote: char, mode: AssignmentMode)
    ensures var t := ReadToken(s, quote, mode);
            t.Token? && t.word != [] ==>
              s != []
              && if s[0] == '\\' then |s| > 1 && t.word[0] == s[1]
                 else t.word[0] == s[0] && !EndsWord(s[0], quote, mode)
  {
  }

  /** Unquoted, or behind a single quote: a backslash and a single quote come out of the tokenizer only if a
      backslash stands in front of them, so that a text never gives itself with more of them in front. */
  lemma {:induction false} NeverGrows(u: string, v: string, rest: string, quote: char, mode: AssignmentMode)
    requires u != [] && quote in {'\0', '\''}
    requires forall i :: 0 <= i < |u| ==> u[i] == '\\' || u[i] == quote == '\''
    requires rest == [] || IsWordBreak(rest[0])
    ensures !Yields(ReadToken(v + rest, quote, mode), u + v)
    decreases |v|
  {
    if |v| > 1 && v[0] == '\\' && v[1] == u[0] {
      var more := u[1..] + v[..2];
      NeverGrows(more, v[2..], rest, quote, mode);
      DropOver(v, rest, 2);
      PrependYields(u[0], ReadToken(v[2..] + rest, quote, mode), more + v[2..]);
      assert u + v == [u[0]] + (more + v[2..]);
    } else {
      StartsWithoutIt(u[0], v, rest, quote, mode);
      assert (u + v)[0] == u[0];
    }
  }

  lemma {:induction false} StartsWithoutIt(c: char, v: string, rest: string, quote: char, mode: AssignmentMode)
    requires quote in {'\0', '\''} && (c == '\\' || c == quote == '\'')
    requires rest == [] || IsWordBreak(rest[0])
    requires |v| > 1 && v[0] == '\\' ==> v[1] != c
    ensures var t := ReadToken(v + rest, quote, mode); t.Token? && t.word != [] ==> t.word[0] != c
  {
    FirstOfToken(v + rest, quote, mode);
    if v == [] {
      assert v + rest == rest;
    } else if |v| == 1 && rest != [] {
      assert (v + rest)[1] == rest[0];
    }
  }

  lemma {:induction false} BackslashIsLost(v: string, rest: string, mode: AssignmentMode)
    requires '\\' in v && (rest == [] || IsWordBreak(rest[0]))
    ensures !Yields(ReadToken(v + rest, '\0', mode), v)
    decreases |v|
  {
    if |v| > 1 && v[0] == '\\' && v[1] == '\\' {
      NeverGrows("\\", v[2..], rest, '\0', mode);
      DropOver(v, rest, 2);
      PrependYields('\\', ReadToken(v[2..] + rest, '\0', mode), "\\" + v[2..]);
      assert v == ['\\'] + ("\\" + v[2..]);
    } else if v[0] == '\\' {
      StartsWithoutIt('\\', v, rest, '\0', mode);
    } else if !EndsWord(v[0], '\0', mode) {
      BackslashIsLost(v[1..], rest, mode);
      DropOver(v, rest, 1);
      PrependYields(v[0], ReadToken(v[1..] + rest, '\0', mode), v[1..]);
      assert v == [v[0]] + v[1..];
    }
  }

  /** The same behind a double quote, where the printer escapes the quotes in the word. */
  lemma {:induction false} EscapedNeverGrows(u: string, v: string, rest: string, mode: AssignmentMode)
    requires u != [] && forall i :: 0 <= i < |u| ==> u[i] == '\\'
    ensures !Yields(ReadToken(EscapeQuotes(v) + ("\"" + rest), '"', mode), u + v)
    decreases |v|
  {
    assert (u + v)[0] == '\\';
    FirstOfToken(EscapeQuotes(v) + ("\"" + rest), '"', mode);
    if |v| > 1 && v[0] == '\\' {
      EscapedPair(v, rest, mode);
      if v[1] == '\\' {
        var more := u[1..] + v[..2];
        EscapedNeverGrows(more, v[2..], rest, mode);
        PrependYields('\\', ReadToken(EscapeQuotes(v[2..]) + ("\"" + rest), '"', mode), more + v[2..]);
        assert u + v == ['\\'] + (more + v[2..]);
      }
    }
  }

  /** Behind a backslash in the word: another one is taken for an escaped backslash, and a quote, with the backslash
      that was to escape it gone, ends the word. */
  lemma {:induction false} EscapedPair(v: string, rest: string, mode: AssignmentMode)
    requires |v| > 1 && v[0] == '\\'
    ensures var t := ReadToken(EscapeQuotes(v) + ("\"" + rest), '"', mode);
            && (v[1] == '\\' ==> t == Prepend(['\\'], ReadToken(EscapeQuotes(v[2..]) + ("\"" + rest), '"', mode)))
            && (v[1] == '"' ==> t.Token? && t.word == "\\")
            && (v[1] != '\\' && v[1] != '"' && t.Token? ==> t.word != [] && t.word[0] == v[1])
  {
    var tail := "\"" + rest;
    var text, more := EscapeQuotes(v) + tail, EscapeQuotes(v[2..]) + tail;
    var second := if v[1] == '"' then ['\\', '"'] else [v[1]];
    assert v[1..][1..] == v[2..];
    assert EscapeQuotes(v) == ['\\'] + (second + EscapeQuotes(v[2..]));
    assert text == ['\\'] + (second + more);
    if v[1] == '"' {
      assert text[1] == '\\' && text[2..][0] == '"';
      assert ReadToken(text[2..], '"', mode) == Token([], text[2..]);
    } else {
      assert text[1] == v[1] && text[2..] == more;
    }
  }

  lemma {:induction false} EscapedBackslashIsLost(v: string, rest: string, mode: AssignmentMode)
    requires '\\' in v
    ensures !Yields(ReadToken(EscapeQuotes(v) + ("\"" + rest), '"', mode), v)
    decreases |v|
  {
    var tail := "\"" + rest;
    if v[0] == '\\' {
      FirstOfToken(EscapeQuotes(v) + tail, '"', mode);
      if |v| > 1 {
        EscapedPair(v, rest, mode);
        if v[1] == '\\' {
          EscapedNeverGrows("\\", v[2..], rest, mode);
          PrependYields('\\', ReadToken(EscapeQuotes(v[2..]) + tail, '"', mode), "\\" + v[2..]);
          assert v == ['\\'] + ("\\" + v[2..]);
        }
      }
    } else {
      EscapedStep(v, tail, mode);
      EscapedBackslashIsLost(v[1..], rest, mode);
      PrependYields(v[0], ReadToken(EscapeQuotes(v[1..]) + tail, '"', mode), v[1..]);
      assert v == [v[0]] + v[1..];
    }
  }

  /** An equals sign where it is an assignment ends the word in front of it. */
  lemma {:induction false} AssignmentCutsWord(v: string, rest: string, mode: AssignmentMode)
    requires '=' in v && '\\' !in v && mode != IgnoreAssignment
    ensures !Yields(ReadToken(v + rest, '\0', mode), v)
    decreases |v|
  {
    if !EndsWord(v[0], '\0', mode) {
      AssignmentCutsWord(v[1..], rest, mode);
      DropOver(v, rest, 1);
      PrependYields(v[0], ReadToken(v[1..] + rest, '\0', mode), v[1..]);
      assert v == [v[0]] + v[1..];
    }
  }

  lemma {:induction false} QuotedWordIsLost(word: string, rest: string, mode: AssignmentMode, allowNewLine: bool)
    requires NeedsQuotes(word) && '\\' in word
    ensures var r := GetWord(PrintWord(word) + rest, mode, allowNewLine); !(r.Word? && r.word == word)
  {
    var text := PrintWord(word) + rest;
    assert Skip(text, mode, allowNewLine) == Some(text);
    BehindTheQuote(word, rest);
    EscapedBackslashIsLost(word, rest, mode);
  }

  lemma {:induction false} PlainWordIsLost(word: string, rest: string, mode: AssignmentMode, allowNewLine: bool)
    requires word != [] && !StandsAlone(word, mode) && !NeedsQuotes(word)
    requires !IsSkipped(word[0], mode, allowNewLine) && (rest == [] || IsWordBreak(rest[0]))
    ensures var r := GetWord(PrintWord(word) + rest, mode, allowNewLine); !(r.Word? && r.word == word)
  {
    var text := word + rest;
    assert Skip(text, mode, allowNewLine) == Some(text);
    if word[0] == '\'' {
      assert text[1..] == word[1..] + rest && word == "'" + word[1..];
      NeverGrows("'", word[1..], rest, '\'', mode);
    } else if '\\' in word {
      BackslashIsLost(word, rest, mode);
    } else if '=' in word && mode != IgnoreAssignment {
      AssignmentCutsWord(word, rest, mode);
    }
  }

  /** Exactly which words one call reads back.  The first character of the printed word must not be one that is
      skipped: a hash in front of a name, or an equals sign in front of the first value. */
  lemma {:induction false} WordReadsBack(word: string, rest: string, mode: AssignmentMode, allowNewLine: bool)
    requires word != [] && !IsSkipped(PrintWord(word)[0], mode, allowNewLine) && (rest == [] || IsWordBreak(rest[0]))
    ensures var r := GetWord(PrintWord(word) + rest, mode, allowNewLine);
            && (r.Word? && r.word == word <==> StandsAlone(word, mode))
            && (StandsAlone(word, mode) ==> r == Word(word, Trail(rest, false).rest, Trail(rest, false).more))
  {
    if StandsAlone(word, mode) {
      ReadPrinted(word, rest, mode, allowNewLine);
    } else if NeedsQuotes(word) {
      QuotedWordIsLost(word, rest, mode, allowNewLine);
    } else {
      PlainWordIsLost(word, rest, mode, allowNewLine);
    }
  }

  lemma {:induction false} NextWordFollows(word: string, rest: string)
    requires word != [] && Visible(word)
    ensures Trail(" " + (PrintWord(word) + rest), false) == Trailer(PrintWord(word) + rest, true)
  {
    PrintedStart(word);
    assert (" " + (PrintWord(word) + rest))[1..] == PrintWord(word) + rest;
  }

  // ----- lines -----

  /** The text behind a line ends the line. */
  predicate EndsLine(s: string) {
    s == [] || (IsWordBreak(s[0]) && !Trail(s, false).more)
  }

  function ValuesText(values: seq<string>): string {
    Flatten(ValuePieces(values))
  }

  lemma {:induction false} ValuesTextUnfolds(values: seq<string>, after: string)
    requires values != []
    ensures ValuesText(values) + after == " " + (PrintWord(values[0]) + (ValuesText(values[1..]) + after))
  {
    var w, tail := PrintWord(values[0]), ValuePieces(values[1..]);
    assert ValuePieces(values) == [" ", w] + tail;
    assert ([" ", w] + tail)[1..] == [w] + tail && ([w] + tail)[1..] == tail;
    assert Flatten([w] + tail) == w + Flatten(tail);
    assert Flatten([" ", w] + tail) == " " + Flatten([w] + tail);
  }

  lemma {:induction false} ParsePrintedValues(values: seq<string>, after: string, name: string, before: seq<string>)
    requires values != [] && AloneValues(values, before == []) && EndsLine(after)
    requires forall i :: 0 < i < |values| ==> Visible(values[i])
    ensures ParseValues(PrintWord(values[0]) + (ValuesText(values[1..]) + after), name, before)
         == Line(name, before + values, Trail(after, false).rest)
    decreases values
  {
    var mode := if before == [] then AllowAssignment else IgnoreAssignment;
    var more := values[1..];
    var rest := ValuesText(more) + after;
    assert StandsAlone(values[0], mode);
    assert [values[0]] + more == values;
    AppendAssociates(before, [values[0]], more);
    if more == [] {
      assert rest == after;
      ReadPrinted(values[0], rest, mode, false);
    } else {
      var next := PrintWord(more[0]) + (ValuesText(more[1..]) + after);
      ValuesTextUnfolds(more, after);
      assert rest == " " + next;
      assert more[0] == values[1] && StandsAlone(more[0], IgnoreAssignment);
      NextWordFollows(more[0], ValuesText(more[1..]) + after);
      ReadPrinted(values[0], rest, mode, false);
      assert ParseValues(PrintWord(values[0]) + rest, name, before) == ParseValues(next, name, before + [values[0]]);
      ParsePrintedValues(more, after, name, before + [values[0]]);
    }
  }

  predicate Blank(s: string) {
    forall i :: 0 <= i < |s| ==> IsWordBreak(s[i])
  }

  /** Texts that are the same to a parser that looks for the next parameter. */
  predicate Same(s: string, t: string) {
    Skip(s, NoAssignment, true) == Skip(t, NoAssignment, true)
  }

  lemma {:induction false} BlanksAreSkipped(blank: string, s: string)
    requires Blank(blank)
    ensures Same(blank + s, s)
  {
    if blank == [] {
      assert blank + s == s;
    } else {
      DropOver(blank, s, 1);
      BlanksAreSkipped(blank[1..], s);
    }
  }

  lemma {:induction false} TrailDropsBlanks(s: string, newLine: bool)
    ensures Same(Trail(s, newLine).rest, s)
    ensures newLine ==> !Trail(s, newLine).more
    decreases s
  {
    if s != [] && ((IsParameterSeparator(s[0]) && !newLine) || (!IsParameterSeparator(s[0]) && IsSpace(s[0]))) {
      TrailDropsBlanks(s[1..], newLine || IsParameterSeparator(s[0]));
    }
  }

  lemma {:induction false} SameParse(s: string, t: string, level: nat)
    requires Same(s, t)
    ensures ParseLine(s) == ParseLine(t)
    ensures ParseBlock(s, level) == ParseBlock(t, level)
    ensures ParseParameters(s, level) == ParseParameters(t, level)
  {
  }

  lemma {:induction false} ContinueIsParseParameters(s: string, level: nat)
    ensures Continue(s, level) == ParseParameters(s, level)
  {
  }

  function LineText(p: Parameter, flat: bool): string {
    Flatten(LinePieces(p, flat))
  }

  lemma {:induction false} LineTextUnfolds(p: Parameter, flat: bool, after: string)
    ensures LineText(p, flat) + after
         == PrintWord(p.name) + BehindName(p, flat, after)
  {
    var name, values := PrintWord(p.name), ValuePieces(p.values);
    var assign := if flat && p.values != [] then [" ="] else [];
    assert LinePieces(p, flat) == [name] + (assign + values);
    assert ([name] + (assign + values))[1..] == assign + values;
    FlattenAppend(assign, values);
    assert Flatten([" ="]) == " =" + Flatten([" ="][1..]);
    assert LineText(p, flat) == name + (Flatten(assign) + ValuesText(p.values));
  }

  function BehindName(p: Parameter, flat: bool, after: string): string {
    (if flat && p.values != [] then " =" else "") + (ValuesText(p.values) + after)
  }

  /** The values behind a name, from the space or the equals sign in front of them on. */
  lemma {:induction false} AssignmentLeadsToValues(p: Parameter, after: string, flat: bool)
    requires p.name != [] && p.values != [] && p.values[0] != [] && (flat || Visible(p.values[0]))
    ensures var rest := BehindName(p, flat, after);
            && IsWordBreak(rest[0]) && Trail(rest, false).more
            && ParseValues(Trail(rest, false).rest, p.name, [])
               == ParseValues(PrintWord(p.values[0]) + (ValuesText(p.values[1..]) + after), p.name, [])
  {
    var values := PrintWord(p.values[0]) + (ValuesText(p.values[1..]) + after);
    ValuesTextUnfolds(p.values, after);
    if flat {
      AssignmentFollows(" " + values);
      AssignmentIsSkipped(values, p.name);
    } else {
      assert "" + (" " + values) == " " + values;
      NextWordFollows(p.values[0], ValuesText(p.values[1..]) + after);
    }
  }

  lemma {:induction false} AssignmentFollows(s: string)
    ensures Trail(" =" + s, false) == Trailer("=" + s, true)
  {
    assert (" =" + s)[1..] == "=" + s;
  }

  lemma {:induction false} AssignmentIsSkipped(s: string, name: string)
    ensures ParseValues("=" + (" " + s), name, []) == ParseValues(s, name, [])
  {
    var text := "=" + (" " + s);
    assert text[1..] == " " + s && (" " + s)[1..] == s;
    assert Skip(text, AllowAssignment, false) == Skip(s, AllowAssignment, false);
  }

  /** Reading the name of a printed parameter, whatever stands behind the parameter. */
  lemma {:induction false} ParsePrintedName(blank: string, p: Parameter, after: string, flat: bool)
    requires Blank(blank) && NameInPlace(p) && if p.name == [] then flat else StandsAlone(p.name, NoAssignment)
    requires p.values != [] && p.values[0] != [] && ((flat && p.name != []) || Visible(p.values[0]))
    ensures ParseLine(blank + (LineText(p, flat) + after))
         == ParseValues(PrintWord(p.values[0]) + (ValuesText(p.values[1..]) + after), p.name, [])
  {
    BlanksAreSkipped(blank, LineText(p, flat) + after);
    SameParse(blank + (LineText(p, flat) + after), LineText(p, flat) + after, 0);
    LineTextUnfolds(p, flat, after);
    if p.name == [] {
      NamelessLine(p, after);
    } else {
      AssignmentLeadsToValues(p, after, flat);
      ReadPrinted(p.name, BehindName(p, flat, after), NoAssignment, true);
    }
  }

  /** A parameter without a name is an assignment with an empty word in front of it. */
  lemma {:induction false} NamelessLine(p: Parameter, after: string)
    requires p.name == [] && p.values != [] && p.values[0] != [] && Visible(p.values[0])
    ensures ParseLine(PrintWord(p.name) + BehindName(p, true, after))
         == ParseValues(PrintWord(p.values[0]) + (ValuesText(p.values[1..]) + after), p.name, [])
  {
    var values := PrintWord(p.values[0]) + (ValuesText(p.values[1..]) + after);
    ValuesTextUnfolds(p.values, after);
    assert [] + BehindName(p, true, after) == [' '] + (['='] + (" " + values));
    NextWordFollows(p.values[0], ValuesText(p.values[1..]) + after);
    NamelessValues(" " + values, values);
  }

  lemma {:induction false} NamelessValues(behind: string, values: string)
    requires Trail(behind, false) == Trailer(values, true)
    ensures ParseLine([' '] + (['='] + behind)) == ParseValues(values, [], [])
  {
    EmptyWord(behind);
  }

  lemma {:induction false} EmptyWord(s: string)
    ensures GetWord([' '] + (['='] + s), NoAssignment, true) == Word([], Trail(s, false).rest, Trail(s, false).more)
  {
    var t := ['='] + s;
    assert ([' '] + t)[1..] == t;
    assert Skip([' '] + t, NoAssignment, true) == Some(t);
    assert ReadToken(t, '\0', NoAssignment) == Token([], t);
    assert t[1..] == s;
  }

  lemma {:induction false} ParsePrintedLine(blank: string, p: Parameter, after: string, flat: bool)
    requires Blank(blank) && ReadableLine(p, flat) && EndsLine(after)
    ensures ParseLine(blank + (LineText(p, flat) + after)) == Line(p.name, p.values, Trail(after, false).rest)
  {
    if p.values == [] {
      BlanksAreSkipped(blank, LineText(p, flat) + after);
      SameParse(blank + (LineText(p, flat) + after), LineText(p, flat) + after, 0);
      LineTextUnfolds(p, flat, after);
      assert "" + (ValuesText(p.values) + after) == after;
      ReadPrinted(p.name, after, NoAssignment, true);
    } else {
      ParsePrintedName(blank, p, after, flat);
      ParsePrintedValues(p.values, after, p.name, []);
      assert [] + p.values == p.values;
    }
  }

  // ----- blocks -----

  function IndentText(level: nat, flat: bool): string {
    Flatten(Indent(level, flat))
  }

  lemma {:induction false} TabsAreBlank(level: nat)
    ensures Blank(Flatten(Tabs(level)))
  {
    if level > 0 {
      TabsAreBlank(level - 1);
      assert Tabs(level)[1..] == Tabs(level - 1);
      assert Flatten(Tabs(level)) == "\t" + Flatten(Tabs(level - 1));
    }
  }

  lemma {:induction false} IndentIsBlank(level: nat, flat: bool)
    ensures Blank(IndentText(level, flat))
  {
    TabsAreBlank(level);
  }

  function LineBreak(flat: bool): string {
    if flat then "" else "\n"
  }

  function ChildrenText(ps: seq<Parameter>, level: nat, flat: bool): string {
    Flatten(ChildPieces(ps, level, flat))
  }

  /** What stands behind the line of a parameter: its block, if it has one, and then `after`. */
  function BehindLine(p: Parameter, level: nat, flat: bool, after: string): string {
    if p.parameters == [] then after
    else
      " {" + InsideBraces(p, level, flat, after)
  }

  function InsideBraces(p: Parameter, level: nat, flat: bool, after: string): string {
    LineBreak(flat) + (ChildrenText(p.parameters, level + 1, flat)
                       + (IndentText(level, flat) + ("}" + (LineBreak(flat) + after))))
  }

  lemma {:induction false} FlattenOne(a: string)
    ensures Flatten([a]) == a
  {
    assert [a][1..] == [];
    assert Flatten([a]) == a + Flatten([]);
    assert a + [] == a;
  }

  lemma {:induction false} BlockUnfolds(p: Parameter, level: nat, flat: bool, after: string)
    ensures Flatten(BlockPieces(p, level, flat)) + after == BehindLine(p, level, flat, after)
  {
    if p.parameters == [] {
      assert [] + after == after;
    } else {
      var newLine := if flat then [] else ["\n"];
      var children, indent := ChildPieces(p.parameters, level + 1, flat), Indent(level, flat);
      var close := if flat then "}" else "}\n";
      BracesFlatten(newLine, children, indent, close);
      FlattenOne("\n");
      assert close + after == "}" + (LineBreak(flat) + after);
      FiveParts(" {", Flatten(newLine), Flatten(children), Flatten(indent), close, after);
    }
  }

  lemma {:induction false} BracesFlatten(newLine: seq<string>, children: seq<string>, indent: seq<string>,
                                         close: string)
    ensures Flatten([" {"] + newLine + children + indent + [close])
         == " {" + Flatten(newLine) + Flatten(children) + Flatten(indent) + close
  {
    FlattenAppend([" {"] + newLine + children + indent, [close]);
    FlattenAppend([" {"] + newLine + children, indent);
    FlattenAppend([" {"] + newLine, children);
    FlattenAppend([" {"], newLine);
    FlattenOne(" {");
    FlattenOne(close);
  }

  lemma {:induction false} FiveParts(a: string, b: string, c: string, d: string, e: string, f: string)
    ensures (((a + b) + c) + d + e) + f == a + (b + (c + (d + (e + f))))
  {
  }

  lemma {:induction false} ParameterUnfolds(p: Parameter, level: nat, flat: bool, after: string)
    ensures Flatten(Pieces(p, level, flat)) + after
         == IndentText(level, flat) + (LineText(p, flat) + BehindLine(p, level, flat, after))
  {
    var indent, line, block := Indent(level, flat), LinePieces(p, flat), BlockPieces(p, level, flat);
    FlattenAppend(indent + line, block);
    FlattenAppend(indent, line);
    BlockUnfolds(p, level, flat, after);
    ThreeParts(Flatten(indent), Flatten(line), Flatten(block), after);
  }

  lemma {:induction false} ThreeParts(a: string, b: string, c: string, d: string)
    ensures ((a + b) + c) + d == a + (b + (c + d))
  {
  }

  function SeparatorText(p: Parameter, flat: bool): string {
    if p.parameters != [] then "" else if flat then "; " else "\n"
  }

  lemma {:induction false} ChildrenUnfold(ps: seq<Parameter>, level: nat, flat: bool, after: string)
    requires ps != []
    ensures ChildrenText(ps, level, flat) + after
         == Flatten(Pieces(ps[0], level, flat))
            + (SeparatorText(ps[0], flat) + (ChildrenText(ps[1..], level, flat) + after))
  {
    var pieces, rest := Pieces(ps[0], level, flat), ChildPieces(ps[1..], level, flat);
    FlattenAppend(pieces + Separator(ps[0], flat), rest);
    FlattenAppend(pieces, Separator(ps[0], flat));
    FlattenOne(if flat then "; " else "\n");
    ThreeParts(Flatten(pieces), Flatten(Separator(ps[0], flat)), Flatten(rest), after);
  }

  /** The text behind a parameter without a block ends its line and opens no brace. */
  predicate EndsLeaf(s: string) {
    EndsLine(s) && (Trail(s, false).rest == [] || Trail(s, false).rest[0] != '{')
  }

  /** A text that starts, white space aside, with something other than an opening brace. */
  ghost predicate StartsWithout(s: string) {
    exists blank, c, more :: Blank(blank) && !IsWordBreak(c) && c != '{' && s == blank + ([c] + more)
  }

  lemma {:induction false} TrailFindsNoBrace(blank: string, c: char, more: string, newLine: bool)
    requires Blank(blank) && !IsWordBreak(c) && c != '{'
    ensures var r := Trail(blank + ([c] + more), newLine).rest;
            r == [] || r[0] != '{'
    decreases blank
  {
    if blank == [] {
      assert blank + ([c] + more) == [c] + more;
    } else {
      DropOver(blank, ([c] + more), 1);
      TrailFindsNoBrace(blank[1..], c, more, newLine || IsParameterSeparator(blank[0]));
    }
  }

  lemma {:induction false} SeparatorEndsLeaf(separator: string, s: string)
    requires separator != [] && Blank(separator) && IsParameterSeparator(separator[0])
    requires StartsWithout(s)
    ensures EndsLeaf(separator + s)
  {
    var b, c, rest :| Blank(b) && !IsWordBreak(c) && c != '{' && s == b + ([c] + rest);
    AppendAssociates(separator, b, [c] + rest);
    TrailFindsNoBrace(separator + b, c, rest, false);
    var text := separator + s;
    assert text[0] == separator[0];
    TrailDropsBlanks(text[1..], true);
    assert Trail(text, false) == Trail(text[1..], true);
  }

  lemma {:induction false} StartsWithName(name: string, behind: string)
    requires name != []
    ensures name + behind == [name[0]] + (name[1..] + behind)
  {
  }

  lemma {:induction false} ParameterStarts(p: Parameter, level: nat, flat: bool, after: string)
    requires AloneLine(p, flat) && !OpensBrace(p)
    ensures StartsWithout(Flatten(Pieces(p, level, flat)) + after)
  {
    var behind := BehindName(p, flat, BehindLine(p, level, flat, after));
    ParameterUnfolds(p, level, flat, after);
    LineTextUnfolds(p, flat, BehindLine(p, level, flat, after));
    IndentIsBlank(level, flat);
    if p.name == [] {
      var values := ValuesText(p.values) + BehindLine(p, level, flat, after);
      assert [] + behind == " " + (['='] + values);
      AppendAssociates(IndentText(level, flat), " ", ['='] + values);
      StartsBy(IndentText(level, flat) + " ", '=', values);
    } else {
      var name := PrintWord(p.name);
      StartsWithName(name, behind);
      StartsBy(IndentText(level, flat), name[0], name[1..] + behind);
    }
  }

  lemma {:induction false} StartsBy(blank: string, c: char, more: string)
    requires Blank(blank) && !IsWordBreak(c) && c != '{'
    ensures StartsWithout(blank + ([c] + more))
  {
  }

  /** The parameter has been read, and what stands behind it is left; or it has more levels than the
      parser goes down from here. */
  predicate ReadsBack(r: BlockResult, p: Parameter, after: string, level: nat) {
    if level + Depth(p) <= MAX_SETTINGS_LEVEL then r.Block? && r.parameter == p && Same(r.rest, after)
    else r == BlockError(LinkLimit)
  }

  /** The text of a parameter parses to that parameter and leaves what stands behind it, or fails
      because the braces in it go too deep for the level it stands on. */
  lemma {:induction false} ParsePrintedBlock(blank: string, p: Parameter, printLevel: nat, flat: bool, after: string,
                                             level: nat)
    requires Blank(blank) && ReadableLine(p, flat) && Readable(p.parameters, flat) && level <= MAX_SETTINGS_LEVEL
    requires p.parameters == [] ==> EndsLeaf(after)
    ensures ReadsBack(ParseBlock(blank + (Flatten(Pieces(p, printLevel, flat)) + after), level), p, after, level)
    decreases p, 2
  {
    ParameterUnfolds(p, printLevel, flat, after);
    IndentIsBlank(printLevel, flat);
    AppendAssociates(blank, IndentText(printLevel, flat), LineText(p, flat) + BehindLine(p, printLevel, flat, after));
    if p.parameters == [] {
      ParseUnfoldedLeaf(blank + IndentText(printLevel, flat), p, printLevel, flat, after, level);
    } else {
      ParseUnfoldedBlock(blank + IndentText(printLevel, flat), p, printLevel, flat, after, level);
    }
  }

  lemma {:induction false} ParseUnfoldedLeaf(blank: string, p: Parameter, printLevel: nat, flat: bool, after: string,
                                             level: nat)
    requires Blank(blank) && ReadableLine(p, flat) && level <= MAX_SETTINGS_LEVEL
    requires p.parameters == [] && EndsLeaf(after)
    ensures ReadsBack(ParseBlock(blank + (LineText(p, flat) + BehindLine(p, printLevel, flat, after)), level),
                      p, after, level)
  {
    TrailDropsBlanks(after, false);
    ParsePrintedLine(blank, p, after, flat);
    LeafLine(blank + (LineText(p, flat) + after), p, Trail(after, false).rest, level);
  }

  lemma {:induction false} ParseUnfoldedBlock(blank: string, p: Parameter, printLevel: nat, flat: bool, after: string,
                                              level: nat)
    requires Blank(blank) && ReadableLine(p, flat) && Readable(p.parameters, flat) && level <= MAX_SETTINGS_LEVEL
    requires p.parameters != []
    ensures ReadsBack(ParseBlock(blank + (LineText(p, flat) + BehindLine(p, printLevel, flat, after)), level),
                      p, after, level)
    decreases p, 1
  {
    var inside := InsideBraces(p, printLevel, flat, after);
    BlockLine(blank, p, flat, inside);
    ParseInsideBraces(p, printLevel, flat, after, level + 1);
    BlockGoesDeeper(blank + (LineText(p, flat) + (" {" + inside)), p, inside, flat, after, level);
  }

  lemma {:induction false} BlockGoesDeeper(s: string, p: Parameter, inside: string, flat: bool, after: string,
                                           level: nat)
    requires p.parameters != [] && level <= MAX_SETTINGS_LEVEL && ParseLine(s) == Line(p.name, p.values, "{" + inside)
    requires ParseLevel(inside, level + 1)
          == if level + Depth(p) <= MAX_SETTINGS_LEVEL then Parsed(p.parameters, LineBreak(flat) + after)
             else Failed(LinkLimit)
    ensures ReadsBack(ParseBlock(s, level), p, after, level)
  {
    assert ("{" + inside)[1..] == inside;
    BlanksAreSkipped(LineBreak(flat), after);
  }

  lemma {:induction false} ParseInsideBraces(p: Parameter, printLevel: nat, flat: bool, after: string, level: nat)
    requires Readable(p.parameters, flat) && 0 < level
    ensures ParseLevel(InsideBraces(p, printLevel, flat, after), level)
         == if level + DepthOfAll(p.parameters) <= MAX_SETTINGS_LEVEL
            then Parsed(p.parameters, LineBreak(flat) + after)
            else Failed(LinkLimit)
    decreases p, 0
  {
    if level <= MAX_SETTINGS_LEVEL {
      IndentIsBlank(printLevel, flat);
      ParsePrintedChildren(LineBreak(flat), p.parameters, printLevel + 1, flat,
                           IndentText(printLevel, flat), LineBreak(flat) + after, level);
    }
  }

  lemma {:induction false} LeafLine(s: string, p: Parameter, rest: string, level: nat)
    requires p.parameters == [] && (rest == [] || rest[0] != '{')
    requires ParseLine(s) == Line(p.name, p.values, rest)
    ensures ParseBlock(s, level) == Block(p, rest)
  {
  }

  lemma {:induction false} BlockLine(blank: string, p: Parameter, flat: bool, inside: string)
    requires Blank(blank) && ReadableLine(p, flat)
    ensures ParseLine(blank + (LineText(p, flat) + (" {" + inside))) == Line(p.name, p.values, "{" + inside)
  {
    BraceFollows(inside);
    ParsePrintedLine(blank, p, " {" + inside, flat);
  }

  lemma {:induction false} BraceFollows(s: string)
    ensures Trail(" {" + s, false) == Trailer("{" + s, false) && EndsLine(" {" + s)
  {
    assert (" {" + s)[1..] == "{" + s;
  }

  /** Behind a parameter that is read back, the others are read. */
  lemma {:induction false} ParametersUnfold(s: string, p: Parameter, next: string, level: nat)
    requires ReadsBack(ParseBlock(s, level), p, next, level)
    ensures ParseParameters(s, level)
         == if level + Depth(p) <= MAX_SETTINGS_LEVEL then Cons(p, ParseParameters(next, level)) else Failed(LinkLimit)
  {
    var r := ParseBlock(s, level);
    if r.Block? {
      ContinueIsParseParameters(r.rest, level);
      SameParse(r.rest, next, level);
    }
  }

  /** The same for the parameters between two braces; `indent` stands before the closing one. */
  lemma {:induction false} ParsePrintedChildren(blank: string, ps: seq<Parameter>, printLevel: nat, flat: bool,
                                                indent: string, after: string, level: nat)
    requires Blank(blank) && Blank(indent) && Readable(ps, flat) && 0 < level <= MAX_SETTINGS_LEVEL
    ensures ParseParameters(blank + (ChildrenText(ps, printLevel, flat) + (indent + ("}" + after))), level)
         == if level + DepthOfAll(ps) <= MAX_SETTINGS_LEVEL then Parsed(ps, after) else Failed(LinkLimit)
    decreases ps, 1
  {
    var close := indent + ("}" + after);
    if ps == [] {
      assert "" + close == close;
      ParseClosingBrace(blank, indent, after, level);
    } else {
      var p, rest := ps[0], ChildrenText(ps[1..], printLevel, flat) + close;
      var separator := SeparatorText(p, flat);
      ChildrenUnfold(ps, printLevel, flat, close);
      ReadableUnfolds(ps, flat);
      NextEndsLeaf(ps, printLevel, flat, indent, after);
      ParsePrintedBlock(blank, p, printLevel, flat, separator + rest, level);
      ParsePrintedChildren(separator, ps[1..], printLevel, flat, indent, after, level);
      ParametersUnfold(blank + (Flatten(Pieces(p, printLevel, flat)) + (separator + rest)), p, separator + rest, level);
      assert [p] + ps[1..] == ps;
    }
  }

  lemma {:induction false} ParseClosingBrace(blank: string, indent: string, after: string, level: nat)
    requires Blank(blank) && Blank(indent) && 0 < level
    ensures ParseParameters(blank + (indent + ("}" + after)), level) == Parsed([], after)
  {
    AppendAssociates(blank, indent, "}" + after);
    BlanksAreSkipped(blank + indent, "}" + after);
    SameParse(blank + (indent + ("}" + after)), "}" + after, level);
    assert ("}" + after)[1..] == after;
  }

  lemma {:induction false} NextEndsLeaf(ps: seq<Parameter>, level: nat, flat: bool, indent: string, after: string)
    requires ps != [] && Blank(indent) && Readable(ps, flat)
    ensures ps[0].parameters == [] ==>
              EndsLeaf(SeparatorText(ps[0], flat) + (ChildrenText(ps[1..], level, flat) + (indent + ("}" + after))))
  {
    if ps[0].parameters == [] {
      ReadableUnfolds(ps, flat);
      RestStarts(ps[1..], level, flat, indent, after);
      SeparatorEndsLeaf(SeparatorText(ps[0], flat), ChildrenText(ps[1..], level, flat) + (indent + ("}" + after)));
    }
  }

  lemma {:induction false} RestStarts(ps: seq<Parameter>, level: nat, flat: bool, indent: string, after: string)
    requires Blank(indent) && (ps != [] ==> AloneLine(ps[0], flat) && !OpensBrace(ps[0]))
    ensures StartsWithout(ChildrenText(ps, level, flat) + (indent + ("}" + after)))
  {
    var close := indent + ("}" + after);
    if ps == [] {
      assert "" + close == indent + (['}'] + after);
    } else {
      ChildrenUnfold(ps, level, flat, close);
      ParameterStarts(ps[0], level, flat, SeparatorText(ps[0], flat) + (ChildrenText(ps[1..], level, flat) + close));
    }
  }

  lemma {:induction false} TopUnfolds(ps: seq<Parameter>, flat: bool)
    requires ps != []
    ensures SettingsString(ps, flat) == Flatten(Pieces(ps[0], 0, flat)) + SettingsString(ps[1..], flat)
  {
    FlattenAppend(Pieces(ps[0], 0, flat), TopPieces(ps[1..], flat));
  }


  // ----- where words are taken for something else -----

  /** Characters that stay in an unquoted word wherever it is read. */
  predicate Plain(s: string) {
    forall i :: 0 <= i < |s| ==> s[i] != '"' && !IsWordBreak(s[i])
  }

  /** The text behind an unquoted word on the top level: nothing, a quote, or one space and something that is seen. */
  predicate PlainEnd(s: string) {
    s == [] || s[0] == '"' || (s[0] == ' ' && |s| > 1 && !IsWordBreak(s[1]))
  }

  /** What is left behind a line that ends without a separator. */
  predicate EndsOddly(s: string) {
    s == [] || s[0] in {'#', '{', '}'}
  }

  lemma {:induction false} TrailSeesMore(s: string, end: string)
    requires Plain(s) && PlainEnd(end)
    ensures var t := Trail(s + end, false); t.more || EndsOddly(t.rest)
  {
    if s == [] {
      assert s + end == end;
    }
  }

  predicate Stops(end: string) {
    end == [] || end[0] == '"' || IsWordBreak(end[0])
  }

  ghost predicate EndsWithin(s: string, end: string, rest: string) {
    rest == end || exists j :: 0 <= j < |s| && rest == s[j..] + end
  }

  lemma {:induction false} EndsFurtherOn(s: string, n: nat, end: string, rest: string)
    requires n <= |s| && EndsWithin(s[n..], end, rest)
    ensures EndsWithin(s, end, rest)
  {
    if rest != end {
      var j :| 0 <= j < |s[n..]| && rest == s[n..][j..] + end;
      assert s[n..][j..] == s[n + j..];
    }
  }

  /** A token without breaks and quotes does not reach over them. */
  lemma {:induction false} PlainTokenEnds(s: string, end: string, quote: char, mode: AssignmentMode)
    requires Plain(s) && Stops(end) && quote in {'\0', '\''}
    ensures var t := ReadToken(s + end, quote, mode);
            t.Token? && Plain(t.word) ==> EndsWithin(s, end, t.rest)
    decreases |s|
  {
    var n := if s != [] && s[0] == '\\' then 2 else 1;
    if s == [] || |s| < n {
      PlainTokenStops(s, end, quote, mode);
    } else if n == 2 || !EndsWord(s[0], quote, mode) {
      PlainTokenEnds(s[n..], end, quote, mode);
      DropOver(s, end, n);
      assert (s + end)[0] == s[0] && (n == 2 ==> (s + end)[1] == s[1]);
      var more := ReadToken(s[n..] + end, quote, mode);
      assert ReadToken(s + end, quote, mode) == Prepend([s[n - 1]], more);
      PlainBehind(s[n - 1], more);
      if more.Token? && Plain(more.word) {
        EndsFurtherOn(s, n, end, more.rest);
      }
    } else {
      assert s + end == s[0..] + end;
    }
  }

  lemma {:induction false} PlainBehind(c: char, t: Token)
    ensures t.Token? && Plain([c] + t.word) ==> Plain(t.word)
  {
    if t.Token? && Plain([c] + t.word) {
      assert ([c] + t.word)[1..] == t.word;
      assert forall i :: 0 <= i < |t.word| ==> t.word[i] == ([c] + t.word)[i + 1];
    }
  }

  lemma {:induction false} PlainTokenStops(s: string, end: string, quote: char, mode: AssignmentMode)
    requires (s == [] || s == "\\") && Stops(end) && quote in {'\0', '\''}
    ensures var t := ReadToken(s + end, quote, mode);
            t.Token? && Plain(t.word) ==> t.rest == end
  {
    var t := ReadToken(s + end, quote, mode);
    if end != [] {
      assert (s + end)[0] == if s == [] then end[0] else '\\';
      assert s != [] ==> (s + end)[1] == end[0];
      assert t.Token? && t.word != [] ==> t.word[0] == end[0];
    }
  }

  /** The end of a word like that, and what is seen behind it. */
  lemma {:induction false} PlainBodyEnds(s: string, end: string, quote: char, mode: AssignmentMode)
    requires Plain(s) && PlainEnd(end) && quote in {'\0', '\''}
    ensures var r := ReadBody(s + end, quote, mode);
            r.Word? && Plain(r.word) ==> r.more || EndsOddly(r.rest)
  {
    PlainTokenEnds(s, end, quote, mode);
    var t := ReadToken(s + end, quote, mode);
    if t.Token? && Plain(t.word) && t.rest != [] {
      PlainTrail(s, end, t.rest, quote, mode);
    }
  }

  lemma {:induction false} PlainTrail(s: string, end: string, rest: string, quote: char, mode: AssignmentMode)
    requires Plain(s) && PlainEnd(end) && quote in {'\0', '\''}
    requires EndsWithin(s, end, rest) && rest != [] && EndsWord(rest[0], quote, mode)
    ensures var t := Trail(rest[1..], IsParameterSeparator(rest[0])); t.more || EndsOddly(t.rest)
  {
    if rest != end {
      var j :| 0 <= j < |s| && rest == s[j..] + end;
      DropOver(s[j..], end, 1);
      assert rest[0] == s[j] && s[j..][1..] == s[j + 1..];
      TrailSeesMore(s[j + 1..], end);
    }
  }

  /** The text of further parameters right behind a word of the top level. */
  ghost predicate PlainTop(s: string) {
    exists front, end :: Plain(front) && PlainEnd(end) && s == front + end
  }

  /** With such a text right behind it, an unquoted word is not read back, or the line goes on or ends oddly. */
  lemma {:induction false} PlainWordJoins(word: string, m: nat, rest: string, mode: AssignmentMode, allowNewLine: bool)
    requires m < |word| && Plain(word) && PlainTop(rest)
    requires Skip(word + rest, mode, allowNewLine) == Some(word[m..] + rest)
    ensures var r := GetWord(word + rest, mode, allowNewLine);
            r.Word? && r.word == word ==> r.more || EndsOddly(r.rest)
  {
    var front, end :| Plain(front) && PlainEnd(end) && rest == front + end;
    SettingsParser.WordBehindBlanks(word + rest, mode, allowNewLine);
    PlainSuffix(word, m);
    PlainTailEnds(word[m..], front, end, mode);
  }

  lemma {:induction false} PlainSuffix(s: string, m: nat)
    requires Plain(s) && m <= |s|
    ensures Plain(s[m..])
  {
  }

  lemma {:induction false} PlainTailEnds(s: string, front: string, end: string, mode: AssignmentMode)
    requires s != [] && Plain(s) && Plain(front) && PlainEnd(end)
    ensures var r := SettingsParser.WordFrom(s + (front + end), mode);
            r.Word? && Plain(r.word) ==> r.more || EndsOddly(r.rest)
  {
    AppendAssociates(s, front, end);
    if IsQuote(s[0]) {
      DropOver(s + front, end, 1);
      DropOver(s, front, 1);
      PlainBodyEnds(s[1..] + front, end, s[0], mode);
    } else {
      PlainBodyEnds(s + front, end, '\0', mode);
    }
  }

  lemma {:induction false} PlainTailIsShort(s: string, rest: string, mode: AssignmentMode)
    requires s != [] && Plain(s) && Stops(rest)
    ensures var r := SettingsParser.WordFrom(s + rest, mode);
            r.Word? && Plain(r.word) ==> |r.word| <= |s|
  {
    if IsQuote(s[0]) {
      DropOver(s, rest, 1);
      PlainWordIsShort(s[1..], rest, s[0], mode);
    } else {
      PlainWordIsShort(s, rest, '\0', mode);
    }
  }

  lemma {:induction false} QuotedWordJoins(word: string, rest: string, mode: AssignmentMode, allowNewLine: bool)
    requires NeedsQuotes(word) && PlainTop(rest)
    ensures var r := GetWord(PrintWord(word) + rest, mode, allowNewLine);
            r.Word? && r.word == word ==> r.more || EndsOddly(r.rest)
  {
    if '\\' in word {
      QuotedWordIsLost(word, rest, mode, allowNewLine);
    } else {
      ReadQuoted(word, rest, mode, allowNewLine);
      var front, end :| Plain(front) && PlainEnd(end) && rest == front + end;
      TrailSeesMore(front, end);
    }
  }

  /** In front of a value equals signs are skipped. */
  lemma {:induction false} EqualsAreSkipped(word: string, rest: string) returns (m: nat)
    requires exists i :: 0 <= i < |word| && word[i] != '='
    requires !NeedsQuotes(word)
    ensures m < |word| && Skip(word + rest, AllowAssignment, false) == Some(word[m..] + rest)
    ensures word[0] == '=' ==> m > 0
  {
    if word[0] == '=' {
      var i :| 0 <= i < |word| && word[i] != '=';
      assert word[1..][i - 1] != '=';
      var k := EqualsAreSkipped(word[1..], rest);
      DropOver(word, rest, 1);
      assert word[1..][k..] == word[k + 1..];
      m := k + 1;
    } else {
      assert word[0..] == word;
      m := 0;
    }
  }

  /** A first value that starts with an equals sign is read without it. */
  lemma {:induction false} EqualsAreLost(word: string, rest: string)
    requires !NeedsQuotes(word) && (exists i :: 0 <= i < |word| && word[i] != '=') && word[0] == '='
    requires rest == [] || IsWordBreak(rest[0])
    ensures var r := GetWord(PrintWord(word) + rest, AllowAssignment, false); !(r.Word? && r.word == word)
  {
    var m := EqualsAreSkipped(word, rest);
    SettingsParser.WordBehindBlanks(word + rest, AllowAssignment, false);
    PlainSuffix(word, m);
    PlainTailIsShort(word[m..], rest, AllowAssignment);
  }

  lemma {:induction false} PlainWordIsShort(s: string, end: string, quote: char, mode: AssignmentMode)
    requires Plain(s) && Stops(end) && quote in {'\0', '\''}
    ensures var r := ReadBody(s + end, quote, mode);
            r.Word? && Plain(r.word) ==> |r.word| <= |s|
  {
    PlainTokenEnds(s, end, quote, mode);
    var t := ReadToken(s + end, quote, mode);
    if t.Token? && Plain(t.word) && t.rest != end {
      var j :| 0 <= j < |s| && t.rest == s[j..] + end;
    }
  }

  function ModeOf(first: bool): AssignmentMode {
    if first then AllowAssignment else IgnoreAssignment
  }

  lemma {:induction false} ValueAlone(word: string, rest: string, first: bool)
    requires word != [] && (first ==> exists i :: 0 <= i < |word| && word[i] != '=')
    requires rest == [] || IsWordBreak(rest[0])
    requires var r := GetWord(PrintWord(word) + rest, ModeOf(first), false); r.Word? && r.word == word
    ensures StandsAlone(word, ModeOf(first))
  {
    if first && !NeedsQuotes(word) && word[0] == '=' {
      EqualsAreLost(word, rest);
    } else {
      WordReadsBack(word, rest, ModeOf(first), false);
    }
  }

  lemma {:induction false} ValueJoins(word: string, rest: string, first: bool)
    requires word != [] && (first ==> exists i :: 0 <= i < |word| && word[i] != '=') && PlainTop(rest)
    ensures var r := GetWord(PrintWord(word) + rest, ModeOf(first), false);
            r.Word? && r.word == word ==> r.more || EndsOddly(r.rest)
  {
    if NeedsQuotes(word) {
      QuotedWordJoins(word, rest, ModeOf(first), false);
    } else if first {
      var m := EqualsAreSkipped(word, rest);
      PlainWordJoins(word, m, rest, ModeOf(first), false);
    } else {
      assert word[0..] == word && Skip(word + rest, IgnoreAssignment, false) == Some(word + rest);
      PlainWordJoins(word, 0, rest, ModeOf(first), false);
    }
  }

  lemma {:induction false} HiddenWordEndsLine(word: string, rest: string)
    requires word != [] && !Visible(word)
    ensures !Trail(" " + (PrintWord(word) + rest), false).more
  {
    assert (" " + (PrintWord(word) + rest))[1..] == PrintWord(word) + rest;
  }

  /** The first of the values that are read. */
  lemma {:induction false} FirstRead(s: string, name: string, before: seq<string>, values: seq<string>)
    requires values != []
    requires var r := ParseValues(s, name, before); r.Line? && r.values == before + values
    ensures var w, r := GetWord(s, ModeOf(before == []), false), ParseValues(s, name, before);
            && w.Word? && w.word == values[0] && (w.more <==> |values| > 1)
            && if w.more then r == ParseValues(w.rest, name, before + [values[0]]) else r.rest == w.rest
  {
    var w, r := GetWord(s, ModeOf(before == []), false), ParseValues(s, name, before);
    assert r.values[|before|] == values[0];
    assert w.Word? ==> before + [w.word] <= r.values;
  }

  /** Values that are read stand alone and in their places; the last one does if it is not joined with other text, and
      if it is, the line ends oddly. */
  lemma {:induction false} ReadValuesMean(values: seq<string>, after: string, name: string, before: seq<string>)
    requires values != [] && SpelledValues(values, before == [])
    requires var r := ParseValues(PrintWord(values[0]) + (ValuesText(values[1..]) + after), name, before);
             r.Line? && r.values == before + values
    ensures forall i :: 0 < i < |values| ==> Visible(values[i])
    ensures after == [] || IsWordBreak(after[0]) ==> AloneValues(values, before == [])
    ensures PlainTop(after) ==>
              EndsOddly(ParseValues(PrintWord(values[0]) + (ValuesText(values[1..]) + after), name, before).rest)
    decreases values
  {
    var more := values[1..];
    var rest := ValuesText(more) + after;
    var s := PrintWord(values[0]) + rest;
    FirstRead(s, name, before, values);
    if more == [] {
      assert rest == after;
      if after == [] || IsWordBreak(after[0]) {
        ValueAlone(values[0], after, before == []);
      }
      if PlainTop(after) {
        ValueJoins(values[0], after, before == []);
      }
    } else {
      MoreValuesMean(values, after, name, before);
    }
  }

  lemma {:induction false} MoreValuesMean(values: seq<string>, after: string, name: string, before: seq<string>)
    requires |values| > 1 && SpelledValues(values, before == [])
    requires var r := ParseValues(PrintWord(values[0]) + (ValuesText(values[1..]) + after), name, before);
             r.Line? && r.values == before + values
    ensures forall i :: 0 < i < |values| ==> Visible(values[i])
    ensures after == [] || IsWordBreak(after[0]) ==> AloneValues(values, before == [])
    ensures PlainTop(after) ==>
              EndsOddly(ParseValues(PrintWord(values[0]) + (ValuesText(values[1..]) + after), name, before).rest)
    decreases values, 0
  {
    var more := values[1..];
    var behind := ValuesText(more[1..]) + after;
    var s := PrintWord(values[0]) + (ValuesText(more) + after);
    FirstRead(s, name, before, values);
    ValuesTextUnfolds(more, after);
    ValueAlone(values[0], " " + (PrintWord(more[0]) + behind), before == []);
    ReadPrinted(values[0], " " + (PrintWord(more[0]) + behind), ModeOf(before == []), false);
    assert more[0] == values[1] != [];
    if !Visible(more[0]) {
      HiddenWordEndsLine(more[0], behind);
    }
    NextWordFollows(more[0], behind);
    assert [values[0]] + more == values;
    AppendAssociates(before, [values[0]], more);
    assert forall i :: 0 <= i < |more| ==> more[i] == values[i + 1];
    ReadValuesMean(more, after, name, before + [values[0]]);
  }

  /** A comment sign in front of a name is lost with all that stands behind it on the line, and nothing makes up
      for it. */
  lemma {:induction false} NameIsInPlace(s: string, p: Parameter, after: string, flat: bool, rest: string)
    requires Same(s, LineText(p, flat) + after)
    requires ParseLine(s) == Line(p.name, p.values, rest) && Count('#', rest) >= Count('#', after)
    ensures NameInPlace(p)
  {
    var text := LineText(p, flat) + after;
    SameParse(s, text, 0);
    if !NameInPlace(p) {
      LineTextUnfolds(p, flat, after);
      CommentCounts('#', text);
      var t := SkipComment(text);
      if t.Some? {
        SameParse(text, t.value, 0);
        LineCounts('#', t.value);
      }
      LinePrinted('#', p, flat);
      CountAppend('#', LineText(p, flat), after);
      assert false;
    }
  }

  /** A line that is read has all its words in their places; its last one may be joined with other text, but then the
      line ends oddly. */
  lemma {:induction false} ReadLineMeans(blank: string, p: Parameter, after: string, flat: bool, rest: string)
    requires Blank(blank) && SpelledLine(p, flat)
    requires ParseLine(blank + (LineText(p, flat) + after)) == Line(p.name, p.values, rest)
    requires Count('#', rest) >= Count('#', after)
    ensures after == [] || IsWordBreak(after[0]) ==> ReadableLine(p, flat)
    ensures PlainTop(after) ==> EndsOddly(rest)
  {
    var text := LineText(p, flat) + after;
    BlanksAreSkipped(blank, text);
    SameParse(blank + text, text, 0);
    NameIsInPlace(blank + text, p, after, flat, rest);
    LineTextUnfolds(p, flat, after);
    if p.values == [] {
      assert "" + (ValuesText(p.values) + after) == after;
      LoneNameMeans(p.name, after, rest);
    } else {
      ValuedLineMeans(p, after, flat, rest);
    }
  }

  lemma {:induction false} ValuedLineMeans(p: Parameter, after: string, flat: bool, rest: string)
    requires SpelledLine(p, flat) && NameInPlace(p) && p.values != []
    requires ParseLine(LineText(p, flat) + after) == Line(p.name, p.values, rest)
    ensures after == [] || IsWordBreak(after[0]) ==> ReadableLine(p, flat)
    ensures PlainTop(after) ==> EndsOddly(rest)
  {
    NameAlone(p, after, flat, rest);
    FirstValueInPlace(p, after, flat, rest);
    assert [] + (LineText(p, flat) + after) == LineText(p, flat) + after;
    ParsePrintedName("", p, after, flat);
    assert [] + p.values == p.values;
    ReadValuesMean(p.values, after, p.name, []);
  }

  lemma {:induction false} LoneNameMeans(name: string, after: string, rest: string)
    requires name != [] && (NeedsQuotes(name) || name[0] != '#')
    requires ParseLine(PrintWord(name) + after) == Line(name, [], rest)
    ensures after == [] || IsWordBreak(after[0]) ==> StandsAlone(name, NoAssignment)
    ensures PlainTop(after) ==> EndsOddly(rest)
  {
    if after == [] || IsWordBreak(after[0]) {
      WordReadsBack(name, after, NoAssignment, true);
    }
    if PlainTop(after) {
      if NeedsQuotes(name) {
        QuotedWordJoins(name, after, NoAssignment, true);
      } else {
        assert name[0..] == name && Skip(name + after, NoAssignment, true) == Some(name + after);
        PlainWordJoins(name, 0, after, NoAssignment, true);
      }
    }
  }

  lemma {:induction false} NameAlone(p: Parameter, after: string, flat: bool, rest: string)
    requires NameInPlace(p) && p.values != [] && ParseLine(LineText(p, flat) + after) == Line(p.name, p.values, rest)
    ensures p.name != [] ==> StandsAlone(p.name, NoAssignment)
  {
    if p.name != [] {
      LineTextUnfolds(p, flat, after);
      ValuesTextUnfolds(p.values, after);
      WordReadsBack(p.name, BehindName(p, flat, after), NoAssignment, true);
    }
  }

  lemma {:induction false} FirstValueInPlace(p: Parameter, after: string, flat: bool, rest: string)
    requires SpelledLine(p, flat) && NameInPlace(p) && p.values != []
    requires p.name != [] ==> StandsAlone(p.name, NoAssignment)
    requires ParseLine(LineText(p, flat) + after) == Line(p.name, p.values, rest)
    ensures (flat && p.name != []) || Visible(p.values[0])
  {
    if !Visible(p.values[0]) && !(flat && p.name != []) {
      var behind := " " + (PrintWord(p.values[0]) + (ValuesText(p.values[1..]) + after));
      HiddenWordEndsLine(p.values[0], ValuesText(p.values[1..]) + after);
      UnannouncedText(p, flat, after);
      if p.name == [] {
        HiddenBehindNothing(behind);
      } else {
        HiddenBehindName(p.name, behind);
      }
    }
  }

  /** The text of a line whose values are not announced by an assignment behind a name. */
  lemma {:induction false} UnannouncedText(p: Parameter, flat: bool, after: string)
    requires p.values != [] && (flat <==> p.name == [])
    ensures var behind := " " + (PrintWord(p.values[0]) + (ValuesText(p.values[1..]) + after));
            LineText(p, flat) + after == if flat then [' '] + (['='] + behind) else PrintWord(p.name) + behind
  {
    LineTextUnfolds(p, flat, after);
    ValuesTextUnfolds(p.values, after);
  }

  lemma {:induction false} HiddenBehindNothing(behind: string)
    requires !Trail(behind, false).more
    ensures var r := ParseLine([' '] + (['='] + behind)); r.Line? && r.values == []
  {
    EmptyWord(behind);
  }

  lemma {:induction false} HiddenBehindName(name: string, behind: string)
    requires name != [] && StandsAlone(name, NoAssignment) && !IsSkipped(PrintWord(name)[0], NoAssignment, true)
    requires behind != [] && behind[0] == ' ' && !Trail(behind, false).more
    ensures var r := ParseLine(PrintWord(name) + behind); r.Line? && r.values == []
  {
    ReadPrinted(name, behind, NoAssignment, true);
  }

  // ----- trees that are read have all words in their places -----

  /** The text that is left has all the comment signs and braces it should. */
  predicate Kept(rest: string, after: string) {
    Count('#', rest) >= Count('#', after) && Count('{', rest) >= Count('{', after)
  }

  lemma {:induction false} BehindLineCounts(c: char, p: Parameter, level: nat, flat: bool, after: string)
    requires NotAdded(c)
    ensures Count(c, BehindLine(p, level, flat, after))
         == (if p.parameters == [] then 0 else Opening(c) + CountAll(c, p.parameters)) + Count(c, after)
  {
    BlockUnfolds(p, level, flat, after);
    BlockPrinted(c, p, level, flat);
    CountAppend(c, Flatten(BlockPieces(p, level, flat)), after);
  }

  /** The rest of the line of a block that is read. */
  lemma {:induction false} BlockReadCounts(c: char, s: string, level: nat)
    requires ParseBlock(s, level).Block?
    ensures var b, line := ParseBlock(s, level), ParseLine(s);
            && line == Line(b.parameter.name, b.parameter.values, line.rest)
            && if line.rest != [] && line.rest[0] == '{' then
                 && ParseLevel(line.rest[1..], level + 1) == Parsed(b.parameter.parameters, b.rest)
                 && Count(c, line.rest) >= Opening(c) + CountAll(c, b.parameter.parameters) + Count(c, b.rest)
               else b.parameter.parameters == [] && line.rest == b.rest
  {
    var line := ParseLine(s);
    if line.Line? && line.rest != [] && line.rest[0] == '{' && level + 1 <= MAX_SETTINGS_LEVEL {
      ParametersCount(c, line.rest[1..], level + 1);
    }
  }

  lemma {:induction false} BlockInPlace(blank: string, p: Parameter, printLevel: nat, flat: bool, after: string,
                                        level: nat, rest: string)
    requires Blank(blank) && SpelledLine(p, flat) && Spelled(p.parameters, flat) && level <= MAX_SETTINGS_LEVEL
    requires p.parameters == [] ==> after == [] || IsParameterSeparator(after[0])
    requires ParseBlock(blank + (Flatten(Pieces(p, printLevel, flat)) + after), level) == Block(p, rest)
    requires Kept(rest, after)
    ensures ReadableLine(p, flat) && Readable(p.parameters, flat) && level + Depth(p) <= MAX_SETTINGS_LEVEL
    ensures p.parameters == [] ==> EndsLeaf(after)
    decreases p, 2
  {
    ParameterUnfolds(p, printLevel, flat, after);
    IndentIsBlank(printLevel, flat);
    AppendAssociates(blank, IndentText(printLevel, flat), LineText(p, flat) + BehindLine(p, printLevel, flat, after));
    UnfoldedInPlace(blank + IndentText(printLevel, flat), p, printLevel, flat, after, level, rest);
  }

  lemma {:induction false} UnfoldedInPlace(blank: string, p: Parameter, printLevel: nat, flat: bool, after: string,
                                           level: nat, rest: string)
    requires Blank(blank) && SpelledLine(p, flat) && Spelled(p.parameters, flat) && level <= MAX_SETTINGS_LEVEL
    requires p.parameters == [] ==> after == [] || IsParameterSeparator(after[0])
    requires ParseBlock(blank + (LineText(p, flat) + BehindLine(p, printLevel, flat, after)), level) == Block(p, rest)
    requires Kept(rest, after)
    ensures ReadableLine(p, flat) && Readable(p.parameters, flat) && level + Depth(p) <= MAX_SETTINGS_LEVEL
    ensures p.parameters == [] ==> EndsLeaf(after)
    decreases p, 1
  {
    var behind := BehindLine(p, printLevel, flat, after);
    var s := blank + (LineText(p, flat) + behind);
    var line := ParseLine(s);
    BlockReadCounts('#', s, level);
    BlockReadCounts('{', s, level);
    BehindLineCounts('#', p, printLevel, flat, after);
    if p.parameters == [] {
      LeafEnds(after);
      ReadLineMeans(blank, p, behind, flat, line.rest);
      ParsePrintedLine(blank, p, behind, flat);
      TrailCounts('{', after, false);
    } else {
      BraceFollows(InsideBraces(p, printLevel, flat, after));
      ReadLineMeans(blank, p, behind, flat, line.rest);
      ParsePrintedLine(blank, p, behind, flat);
      assert line.rest[1..] == InsideBraces(p, printLevel, flat, after);
      InsideInPlace(p, printLevel, flat, after, level + 1, rest);
    }
  }

  lemma {:induction false} LeafEnds(after: string)
    requires after == [] || IsParameterSeparator(after[0])
    ensures EndsLine(after)
  {
    if after != [] {
      TrailDropsBlanks(after[1..], true);
    }
  }

  lemma {:induction false} InsideInPlace(p: Parameter, printLevel: nat, flat: bool, after: string, level: nat,
                                         rest: string)
    requires Spelled(p.parameters, flat) && 0 < level && Kept(rest, after)
    requires ParseLevel(InsideBraces(p, printLevel, flat, after), level) == Parsed(p.parameters, rest)
    ensures Readable(p.parameters, flat) && level + DepthOfAll(p.parameters) <= MAX_SETTINGS_LEVEL
    decreases p, 0
  {
    IndentIsBlank(printLevel, flat);
    BlankCounts('#', LineBreak(flat), after);
    BlankCounts('{', LineBreak(flat), after);
    ChildrenInPlace(LineBreak(flat), p.parameters, printLevel + 1, flat, IndentText(printLevel, flat),
                    LineBreak(flat) + after, level, rest);
  }

  lemma {:induction false} BlankCounts(c: char, blank: string, s: string)
    requires NotAdded(c) && Blank(blank)
    ensures Count(c, blank + s) == Count(c, s)
  {
    if blank == [] {
      assert blank + s == s;
    } else {
      DropOver(blank, s, 1);
      BlankCounts(c, blank[1..], s);
    }
  }

  lemma {:induction false} ChildrenInPlace(blank: string, ps: seq<Parameter>, printLevel: nat, flat: bool,
                                           indent: string, after: string, level: nat, rest: string)
    requires Blank(blank) && Blank(indent) && Spelled(ps, flat) && 0 < level <= MAX_SETTINGS_LEVEL && Kept(rest, after)
    requires ParseParameters(blank + (ChildrenText(ps, printLevel, flat) + (indent + ("}" + after))), level)
          == Parsed(ps, rest)
    ensures Readable(ps, flat) && level + DepthOfAll(ps) <= MAX_SETTINGS_LEVEL
    decreases ps, 1
  {
    if ps != [] {
      var p, close := ps[0], indent + ("}" + after);
      var next := SeparatorText(p, flat) + (ChildrenText(ps[1..], printLevel, flat) + close);
      ChildrenUnfold(ps, printLevel, flat, close);
      var s := blank + (Flatten(Pieces(p, printLevel, flat)) + next);
      FirstParsed(s, ps, rest, level);
      var left := ParseBlock(s, level).rest;
      NextCounts('#', left, ps, printLevel, flat, indent, after, level, rest);
      NextCounts('{', left, ps, printLevel, flat, indent, after, level, rest);
      BlockInPlace(blank, p, printLevel, flat, next, level, left);
      ParsePrintedBlock(blank, p, printLevel, flat, next, level);
      ParametersUnfold(s, p, next, level);
      OthersParsed(next, ps, rest, level);
      ChildrenInPlace(SeparatorText(p, flat), ps[1..], printLevel, flat, indent, after, level, rest);
      if |ps| > 1 && p.parameters == [] && OpensBrace(ps[1]) {
        BraceIsSeen(ps[1..], printLevel, flat, close);
        assert false;
      }
      ReadableUnfolds(ps, flat);
    }
  }

  lemma {:induction false} FirstParsed(s: string, ps: seq<Parameter>, rest: string, level: nat)
    requires ps != [] && ParseParameters(s, level) == Parsed(ps, rest)
    ensures var b := ParseBlock(s, level);
            b.Block? && b.parameter == ps[0] && Continue(b.rest, level) == Parsed(ps[1..], rest)
  {
  }

  lemma {:induction false} OthersParsed(s: string, ps: seq<Parameter>, rest: string, level: nat)
    requires ps != [] && Cons(ps[0], ParseParameters(s, level)) == Parsed(ps, rest)
    ensures ParseParameters(s, level) == Parsed(ps[1..], rest)
  {
  }

  lemma {:induction false} NextCounts(c: char, s: string, ps: seq<Parameter>, printLevel: nat, flat: bool,
                                      indent: string, after: string, level: nat, rest: string)
    requires NotAdded(c) && ps != [] && Blank(indent) && Continue(s, level) == Parsed(ps[1..], rest)
    requires Count(c, rest) >= Count(c, after)
    ensures Count(c, s) >= Count(c, SeparatorText(ps[0], flat)
                                    + (ChildrenText(ps[1..], printLevel, flat) + (indent + ("}" + after))))
  {
    ContinueCounts(c, s, level);
    BlankCounts(c, SeparatorText(ps[0], flat), ChildrenText(ps[1..], printLevel, flat) + (indent + ("}" + after)));
    CountAppend(c, ChildrenText(ps[1..], printLevel, flat), indent + ("}" + after));
    ChildrenPrinted(c, ps[1..], printLevel, flat);
    BlankCounts(c, indent, "}" + after);
    assert ("}" + after)[1..] == after;
  }

  /** Behind a parameter without a block, a brace in front of the next name is seen first. */
  lemma {:induction false} BraceIsSeen(ps: seq<Parameter>, level: nat, flat: bool, close: string)
    requires ps != [] && OpensBrace(ps[0])
    ensures !EndsLeaf((if flat then "; " else "\n") + (ChildrenText(ps, level, flat) + close))
  {
    var p := ps[0];
    var after := SeparatorText(p, flat) + (ChildrenText(ps[1..], level, flat) + close);
    ChildrenUnfold(ps, level, flat, close);
    ParameterUnfolds(p, level, flat, after);
    LineTextUnfolds(p, flat, BehindLine(p, level, flat, after));
    BraceBehindSeparator(level, flat, p.name + BehindName(p, flat, BehindLine(p, level, flat, after)));
  }

  lemma {:induction false} BraceBehindSeparator(level: nat, flat: bool, text: string)
    requires text != [] && text[0] == '{'
    ensures !EndsLeaf((if flat then "; " else "\n") + (IndentText(level, flat) + text))
  {
    IndentIsSpaces(level, flat);
    if flat {
      TrailFindsBrace(" " + IndentText(level, flat), text, true);
      var rest := (" " + IndentText(level, flat)) + text;
      assert "; " + (IndentText(level, flat) + text) == [';'] + rest && ([';'] + rest)[1..] == rest;
    } else {
      TrailFindsBrace(IndentText(level, flat), text, true);
      var rest := IndentText(level, flat) + text;
      assert (['\n'] + rest)[1..] == rest;
    }
  }

  predicate Spaces(s: string) {
    forall i :: 0 <= i < |s| ==> s[i] == ' ' || s[i] == '\t'
  }

  lemma {:induction false} IndentIsSpaces(level: nat, flat: bool)
    ensures Spaces(IndentText(level, flat))
  {
    if !flat {
      TabsAreSpaces(level);
    }
  }

  lemma {:induction false} TabsAreSpaces(level: nat)
    ensures Spaces(Flatten(Tabs(level)))
  {
    if level > 0 {
      TabsAreSpaces(level - 1);
      assert Tabs(level)[1..] == Tabs(level - 1);
      assert Flatten(Tabs(level)) == "\t" + Flatten(Tabs(level - 1));
    }
  }

  lemma {:induction false} TrailFindsBrace(spaces: string, s: string, newLine: bool)
    requires Spaces(spaces) && s != [] && s[0] == '{'
    ensures Trail(spaces + s, newLine) == Trailer(s, false)
  {
    if spaces == [] {
      assert spaces + s == s;
    } else {
      DropOver(spaces, s, 1);
      TrailFindsBrace(spaces[1..], s, newLine);
    }
  }

  // ----- the top level -----

  lemma {:induction false} TopStarts(ps: seq<Parameter>, flat: bool)
    requires ps != [] && Spelled(ps, flat)
    ensures PlainTop(SettingsString(ps, flat)) && SettingsString(ps, flat) != []
  {
    var p, after := ps[0], SettingsString(ps[1..], flat);
    var behind := BehindName(p, flat, BehindLine(p, 0, flat, after));
    TopUnfolds(ps, flat);
    ParameterUnfolds(p, 0, flat, after);
    LineTextUnfolds(p, flat, BehindLine(p, 0, flat, after));
    assert "" + (PrintWord(p.name) + behind) == PrintWord(p.name) + behind == SettingsString(ps, flat);
    assert SpelledLine(p, flat);
    if ps[1..] != [] {
      TopStarts(ps[1..], flat);
    }
    BehindNameStarts(p, flat, after);
    NameStarts(p.name, behind);
  }

  lemma {:induction false} NameStarts(name: string, behind: string)
    requires PlainTop(behind) && (name == [] ==> behind != [])
    ensures PlainTop(PrintWord(name) + behind) && PrintWord(name) + behind != []
  {
    var front, end :| Plain(front) && PlainEnd(end) && behind == front + end;
    if NeedsQuotes(name) {
      assert PrintWord(name) + behind == [] + (PrintWord(name) + behind);
    } else {
      assert name + behind == (name + front) + end;
      assert Plain(name + front);
    }
  }

  lemma {:induction false} BehindNameStarts(p: Parameter, flat: bool, after: string)
    requires SpelledLine(p, flat) && (after == [] || PlainTop(after))
    ensures var behind := BehindName(p, flat, BehindLine(p, 0, flat, after));
            PlainTop(behind) && (p.name == [] ==> behind != [])
  {
    var behind := BehindName(p, flat, BehindLine(p, 0, flat, after));
    if p.values != [] {
      ValuesTextUnfolds(p.values, BehindLine(p, 0, flat, after));
      PrintedStart(p.values[0]);
      assert behind[0] == ' ' && !IsWordBreak(behind[1]);
      PlainTopEnd(behind);
    } else {
      assert behind == BehindLine(p, 0, flat, after);
      if after == [] || p.parameters != [] {
        PlainTopEnd(behind);
      }
    }
  }

  lemma {:induction false} PlainTopEnd(s: string)
    requires PlainEnd(s)
    ensures PlainTop(s)
  {
    assert Plain([]) && s == [] + s;
  }

  lemma {:induction false} LaterCounts(c: char, s: string, ps: seq<Parameter>, flat: bool)
    requires NotAdded(c) && Continue(s, 0) == Parsed(ps, [])
    ensures Count(c, s) >= Count(c, SettingsString(ps, flat))
  {
    ContinueCounts(c, s, 0);
    SettingsPrinted(c, ps, flat);
  }

  /** A top-level parameter without a block that is not the last one is lost. */
  lemma {:induction false} LeafIsMerged(ps: seq<Parameter>, flat: bool)
    requires Spelled(ps, flat) && |ps| > 1 && ps[0].parameters == []
    ensures ParseParameters(SettingsString(ps, flat), 0) != Parsed(ps, [])
  {
    if ParseParameters(SettingsString(ps, flat), 0) == Parsed(ps, []) {
      var p, after := ps[0], SettingsString(ps[1..], flat);
      TopUnfolds(ps, flat);
      ParameterUnfolds(p, 0, flat, after);
      assert "" + (LineText(p, flat) + after) == LineText(p, flat) + after;
      var b := ParseBlock(LineText(p, flat) + after, 0);
      assert b.Block? && b.parameter == p && Continue(b.rest, 0) == Parsed(ps[1..], []);
      LaterCounts('#', b.rest, ps[1..], flat);
      LaterCounts('{', b.rest, ps[1..], flat);
      TopStarts(ps[1..], flat);
      MergedLeafReads(p, after, flat);
      SettingsPrinted('#', ps[1..], flat);
      OddEndIsTheEnd(b.rest, ps[1..]);
    }
  }

  /** If a leaf is read in spite of the text right behind it, what is left is a comment, a closing brace or nothing. */
  lemma {:induction false} MergedLeafReads(p: Parameter, after: string, flat: bool)
    requires SpelledLine(p, flat) && p.parameters == [] && PlainTop(after)
    requires var b := ParseBlock(LineText(p, flat) + after, 0); b.Block? && b.parameter == p && Kept(b.rest, after)
    ensures var rest := ParseBlock(LineText(p, flat) + after, 0).rest;
            Count('#', rest) <= Count('#', after) && (rest == [] || rest[0] in {'#', '}'})
  {
    var s := LineText(p, flat) + after;
    var line := ParseLine(s);
    BlockReadCounts('#', s, 0);
    BlockReadCounts('{', s, 0);
    assert "" + s == s;
    ReadLineMeans("", p, after, flat, line.rest);
    LeftOfLine('#', p, after, flat);
    LeftOfLine('{', p, after, flat);
  }

  lemma {:induction false} LeftOfLine(c: char, p: Parameter, after: string, flat: bool)
    requires NotAdded(c)
    requires var line := ParseLine(LineText(p, flat) + after);
             line.Line? && line.name == p.name && line.values == p.values
    ensures Count(c, ParseLine(LineText(p, flat) + after).rest) <= Count(c, after)
  {
    LineCounts(c, LineText(p, flat) + after);
    LinePrinted(c, p, flat);
    CountAppend(c, LineText(p, flat), after);
  }

  /** No more parameters come from there: behind a comment there are not as many comment signs as there should be. */
  lemma {:induction false} OddEndIsTheEnd(s: string, ps: seq<Parameter>)
    requires ps != [] && Count('#', s) <= CountAll('#', ps) && (s == [] || s[0] in {'#', '}'})
    ensures Continue(s, 0) != Parsed(ps, [])
  {
    if s != [] && s[0] == '#' {
      CommentCounts('#', s);
      var t := SkipComment(s);
      if t.Some? {
        SameParse(s, t.value, 0);
        ParametersCount('#', t.value, 0);
      } else {
        assert Skip(s, NoAssignment, true) == None;
        assert ParseBlock(s, 0) == BlockError(Overrun);
      }
    }
  }

  lemma {:induction false} ParsePrintedFirst(ps: seq<Parameter>, flat: bool)
    requires ps != [] && ReadableLine(ps[0], flat) && Readable(ps[0].parameters, flat)
    requires |ps| == 1 || ps[0].parameters != []
    ensures ParseParameters(SettingsString(ps, flat), 0)
         == if Depth(ps[0]) <= MAX_SETTINGS_LEVEL
            then Cons(ps[0], ParseParameters(SettingsString(ps[1..], flat), 0))
            else Failed(LinkLimit)
  {
    var p, after := ps[0], SettingsString(ps[1..], flat);
    TopUnfolds(ps, flat);
    ParsePrintedBlock("", p, 0, flat, after, 0);
    assert "" + (Flatten(Pieces(p, 0, flat)) + after) == SettingsString(ps, flat);
    ParametersUnfold(SettingsString(ps, flat), p, after, 0);
  }

  lemma {:induction false} KeptApartUnfolds(ps: seq<Parameter>)
    requires ps != []
    ensures KeptApart(ps) <==> (|ps| == 1 || ps[0].parameters != []) && KeptApart(ps[1..])
  {
    assert forall i :: 0 <= i < |ps| - 1 ==> ps[1..][i] == ps[i + 1];
    if |ps| > 1 && ps[0].parameters != [] && KeptApart(ps[1..]) {
      forall i | 0 <= i < |ps| - 1 ensures ps[i].parameters != [] {
        assert i > 0 ==> ps[i] == ps[1..][i - 1];
      }
    }
  }

  lemma {:induction false} FirstInPlace(ps: seq<Parameter>, flat: bool)
    requires ps != [] && Spelled(ps, flat) && ParseParameters(SettingsString(ps, flat), 0) == Parsed(ps, [])
    ensures |ps| == 1 || ps[0].parameters != []
    ensures ReadableLine(ps[0], flat) && Readable(ps[0].parameters, flat) && Depth(ps[0]) <= MAX_SETTINGS_LEVEL
  {
    var p, after := ps[0], SettingsString(ps[1..], flat);
    if |ps| > 1 && p.parameters == [] {
      LeafIsMerged(ps, flat);
      assert false;
    }
    TopUnfolds(ps, flat);
    var b := ParseBlock(SettingsString(ps, flat), 0);
    assert b.Block? && b.parameter == p && Continue(b.rest, 0) == Parsed(ps[1..], []);
    LaterCounts('#', b.rest, ps[1..], flat);
    LaterCounts('{', b.rest, ps[1..], flat);
    assert "" + (Flatten(Pieces(p, 0, flat)) + after) == SettingsString(ps, flat);
    BlockInPlace("", p, 0, flat, after, 0, b.rest);
  }

  lemma {:induction false} ReadableIsReadBack(ps: seq<Parameter>, flat: bool)
    requires Readable(ps, flat) && KeptApart(ps) && DepthOfAll(ps) <= MAX_SETTINGS_LEVEL
    ensures ParseParameters(SettingsString(ps, flat), 0) == Parsed(ps, [])
  {
    if ps != [] {
      KeptApartUnfolds(ps);
      ReadableUnfolds(ps, flat);
      ReadableIsReadBack(ps[1..], flat);
      ParsePrintedFirst(ps, flat);
      assert [ps[0]] + ps[1..] == ps;
    }
  }

  lemma {:induction false} ReadBackIsReadable(ps: seq<Parameter>, flat: bool)
    requires Spelled(ps, flat) && ParseParameters(SettingsString(ps, flat), 0) == Parsed(ps, [])
    ensures Readable(ps, flat) && KeptApart(ps) && DepthOfAll(ps) <= MAX_SETTINGS_LEVEL
  {
    if ps != [] {
      FirstInPlace(ps, flat);
      ParsePrintedFirst(ps, flat);
      OthersParsed(SettingsString(ps[1..], flat), ps, [], 0);
      ReadBackIsReadable(ps[1..], flat);
      KeptApartUnfolds(ps);
      ReadableUnfolds(ps, flat);
    }
  }

  /** Printing settings and parsing the text gives the settings back exactly when every word is in a place where it is
      not taken for something else, the printer keeps the top-level parameters apart, and no brace is nested deeper
      than the parser goes. */
  lemma {:induction false} RoundTrip(ps: seq<Parameter>, flat: bool)
    requires Spelled(ps, flat)
    ensures ParseText(SettingsString(ps, flat)) == Parsed(ps, [])
       <==> Readable(ps, flat) && KeptApart(ps) && DepthOfAll(ps) <= MAX_SETTINGS_LEVEL
  {
    if Readable(ps, flat) && KeptApart(ps) && DepthOfAll(ps) <= MAX_SETTINGS_LEVEL {
      ReadableIsReadBack(ps, flat);
    }
    if ParseParameters(SettingsString(ps, flat), 0) == Parsed(ps, []) {
      ReadBackIsReadable(ps, flat);
    }
  }

  lemma {:induction false} ReadableIsSpelled(ps: seq<Parameter>, flat: bool)
    requires Readable(ps, flat)
    ensures Spelled(ps, flat)
    decreases ps
  {
    forall i | 0 <= i < |ps| ensures SpelledLine(ps[i], flat) && Spelled(ps[i].parameters, flat) {
      assert ReadableLine(ps[i], flat);
      ReadableIsSpelled(ps[i].parameters, flat);
      if ps[i].values != [] {
        AloneIsSpelled(ps[i].values[0]);
      }
    }
  }

  lemma {:induction false} AloneIsSpelled(word: string)
    requires word != [] && StandsAlone(word, AllowAssignment)
    ensures exists i :: 0 <= i < |word| && word[i] != '='
  {
    if NeedsQuotes(word) {
      var i :| 0 <= i < |word| && (word[i] == '"' || IsWordBreak(word[i]));
      assert word[i] != '=';
    } else {
      assert word[0] != '=';
    }
  }

  /** The whole way through the buffer: settings printed into an array that is large enough and parsed in
      place in that same array read back, pointer by pointer, as the settings they were. */
  method PrintAndParse(ps: seq<Parameter>, flat: bool, buffer: array<char>)
    returns (status: SettingsParser.Status, nodes: seq<SettingsParser.Node>)
    requires ps != []
    requires Readable(ps, flat) && KeptApart(ps) && DepthOfAll(ps) <= MAX_SETTINGS_LEVEL
    requires '\0' !in SettingsString(ps, flat)
    requires |SettingsString(ps, flat)| < buffer.Length
    modifies buffer
    ensures status == SettingsParser.Ok
    ensures var end := |SettingsString(ps, flat)|;
            SettingsParser.NodesHeld(buffer[..], nodes, ps, end, end)
  {
    ReadableIsSpelled(ps, flat);
    TopStarts(ps, flat);
    WrittenInFull(TopPieces(ps, flat), buffer.Length);
    RoundTrip(ps, flat);
    var printed, size := GetDriverSettingsString(Some(ps), buffer, buffer.Length, flat);
    assert buffer[..size] == SettingsString(ps, flat);
    assert forall i :: 0 <= i < size ==> buffer[i] == SettingsString(ps, flat)[i];
    status, nodes := SettingsParser.ParseSettings(buffer, size);
  }
}
