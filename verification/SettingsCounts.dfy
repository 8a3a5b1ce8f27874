/** How often a character occurs in a text, in the settings parsed from it, and in the text printed for settings.  The
    parser makes no character up, and the printer adds neither comment signs nor braces but those of its blocks. */
module SettingsCounts {
  import opened Options
  import opened SettingsPrinter
  import opened SettingsText

  function Count(c: char, s: string): nat {
    if s == [] then 0 else (if s[0] == c then 1 else 0) + Count(c, s[1..])
  }

  /** The opening braces a block needs. */
  function Opening(c: char): nat {
    if c == '{' then 1 else 0
  }

  function CountWords(c: char, words: seq<string>): nat {
    if words == [] then 0 else Count(c, words[0]) + CountWords(c, words[1..])
  }

  function CountIn(c: char, p: Parameter): nat
    decreases p, 0
  {
    Count(c, p.name) + CountWords(c, p.values)
    + if p.parameters == [] then 0 else Opening(c) + CountAll(c, p.parameters)
  }

  function CountAll(c: char, ps: seq<Parameter>): nat
    decreases ps, 1
  {
    if ps == [] then 0 else CountIn(c, ps[0]) + CountAll(c, ps[1..])
  }

  lemma {:induction false} CountAppend(c: char, a: string, b: string)
    ensures Count(c, a + b) == Count(c, a) + Count(c, b)
  {
    if a == [] {
      assert a + b == b;
    } else {
      assert (a + b)[1..] == a[1..] + b;
      CountAppend(c, a[1..], b);
    }
  }

  // ----- what is parsed -----

  lemma {:induction false} TokenCounts(c: char, s: string, quote: char, mode: AssignmentMode)
    ensures var t := ReadToken(s, quote, mode);
            t.Token? ==> Count(c, s) >= Count(c, t.word) + Count(c, t.rest)
    decreases |s|
  {
    if |s| > 1 && s[0] == '\\' {
      TokenCounts(c, s[2..], quote, mode);
      assert s[1..][1..] == s[2..];
      PrependCounts(c, s[1], ReadToken(s[2..], quote, mode));
    } else if s != [] && s[0] != '\\' && !EndsWord(s[0], quote, mode) {
      TokenCounts(c, s[1..], quote, mode);
      PrependCounts(c, s[0], ReadToken(s[1..], quote, mode));
    }
  }

  lemma {:induction false} PrependCounts(c: char, first: char, t: Token)
    ensures t.Token? ==> Count(c, [first] + t.word) == Count(c, [first]) + Count(c, t.word)
  {
    if t.Token? {
      CountAppend(c, [first], t.word);
    }
  }

  lemma {:induction false} CommentCounts(c: char, s: string)
    ensures var r := SkipComment(s);
            r.Some? ==> Count(c, r.value) <= Count(c, s) && (s[0] == c != '\n' ==> Count(c, r.value) < Count(c, s))
  {
    if s != [] && s[0] != '\n' {
      CommentCounts(c, s[1..]);
    }
  }

  lemma {:induction false} SkipCounts(c: char, s: string, mode: AssignmentMode, allowNewLine: bool)
    ensures var r := Skip(s, mode, allowNewLine);
            r.Some? ==> Count(c, r.value) <= Count(c, s)
    decreases |s|
  {
    if s != [] && IsSkipped(s[0], mode, allowNewLine) {
      if s[0] == '#' {
        CommentCounts(c, s);
        if SkipComment(s).Some? {
          SkipCounts(c, SkipComment(s).value, mode, allowNewLine);
        }
      } else {
        SkipCounts(c, s[1..], mode, allowNewLine);
      }
    }
  }

  lemma {:induction false} TrailCounts(c: char, s: string, newLine: bool)
    ensures Count(c, Trail(s, newLine).rest) <= Count(c, s)
    decreases |s|
  {
    if s != [] && ((IsParameterSeparator(s[0]) && !newLine) || (!IsParameterSeparator(s[0]) && IsSpace(s[0]))) {
      TrailCounts(c, s[1..], newLine || IsParameterSeparator(s[0]));
    }
  }

  lemma {:induction false} BodyCounts(c: char, s: string, quote: char, mode: AssignmentMode)
    ensures var r := ReadBody(s, quote, mode);
            r.Word? ==> Count(c, s) >= Count(c, r.word) + Count(c, r.rest)
  {
    TokenCounts(c, s, quote, mode);
    var t := ReadToken(s, quote, mode);
    if t.Token? && t.rest != [] {
      TrailCounts(c, t.rest[1..], IsParameterSeparator(t.rest[0]));
    }
  }

  lemma {:induction false} WordCounts(c: char, s: string, mode: AssignmentMode, allowNewLine: bool)
    ensures var r := GetWord(s, mode, allowNewLine);
            && (r.Word? ==> Count(c, s) >= Count(c, r.word) + Count(c, r.rest))
            && (r.NoWord? ==> Count(c, s) >= Count(c, r.rest))
  {
    SkipCounts(c, s, mode, allowNewLine);
    var skipped := Skip(s, mode, allowNewLine);
    if skipped.Some? && skipped.value != [] {
      var t := skipped.value;
      BodyCounts(c, if IsQuote(t[0]) then t[1..] else t, if IsQuote(t[0]) then t[0] else '\0', mode);
    }
  }

  lemma {:induction false} ValuesCount(c: char, s: string, name: string, values: seq<string>)
    ensures var r := ParseValues(s, name, values);
            && (r.Line? ==> Count(c, s) >= CountWords(c, r.values[|values|..]) + Count(c, r.rest))
            && (r.NoLine? ==> Count(c, s) >= Count(c, r.rest))
    decreases |s|
  {
    var mode := if values == [] then AllowAssignment else IgnoreAssignment;
    WordCounts(c, s, mode, false);
    var w := GetWord(s, mode, false);
    if w.Word? {
      var more, r := values + [w.word], ParseValues(s, name, values);
      if w.more {
        ValuesCount(c, w.rest, name, more);
      }
      if r.Line? {
        assert r.values[|values|] == w.word && r.values[|values|..][1..] == r.values[|more|..];
      }
    }
  }

  lemma {:induction false} LineCounts(c: char, s: string)
    ensures var r := ParseLine(s);
            && (r.Line? ==> Count(c, s) >= Count(c, r.name) + CountWords(c, r.values) + Count(c, r.rest))
            && (r.NoLine? ==> Count(c, s) >= Count(c, r.rest))
  {
    WordCounts(c, s, NoAssignment, true);
    var w := GetWord(s, NoAssignment, true);
    if w.Word? && w.more {
      ValuesCount(c, w.rest, w.word, []);
      var r := ParseValues(w.rest, w.word, []);
      assert r.Line? ==> r.values[0..] == r.values;
    }
  }

  /** A parsed block has used up its brace and everything in it. */
  lemma {:induction false} BlockCounts(c: char, s: string, level: nat)
    ensures var r := ParseBlock(s, level);
            && (r.Block? ==> Count(c, s) >= CountIn(c, r.parameter) + Count(c, r.rest))
            && (r.NoBlock? ==> Count(c, s) >= Count(c, r.rest))
    decreases |s|, 1
  {
    LineCounts(c, s);
    var line := ParseLine(s);
    if line.Line? && line.rest != [] && line.rest[0] == '{' {
      LevelCounts(c, line.rest[1..], level + 1);
    }
  }

  lemma {:induction false} LevelCounts(c: char, s: string, level: nat)
    ensures var r := ParseLevel(s, level);
            r.Parsed? ==> Count(c, s) >= CountAll(c, r.parameters) + Count(c, r.rest)
    decreases |s|, 3
  {
    if level <= MAX_SETTINGS_LEVEL {
      ParametersCount(c, s, level);
    }
  }

  lemma {:induction false} ParametersCount(c: char, s: string, level: nat)
    ensures var r := ParseParameters(s, level);
            r.Parsed? ==> Count(c, s) >= CountAll(c, r.parameters) + Count(c, r.rest)
    decreases |s|, 2
  {
    BlockCounts(c, s, level);
    var b := ParseBlock(s, level);
    if b.Block? {
      ContinueCounts(c, b.rest, level);
      var r := Continue(b.rest, level);
      assert r.Parsed? ==> ([b.parameter] + r.parameters)[1..] == r.parameters;
    }
  }

  lemma {:induction false} ContinueCounts(c: char, s: string, level: nat)
    ensures var r := Continue(s, level);
            r.Parsed? ==> Count(c, s) >= CountAll(c, r.parameters) + Count(c, r.rest)
    decreases |s|, 4
  {
    if !LevelEnds(s) {
      ParametersCount(c, s, level);
    }
  }

  // ----- what is printed -----

  predicate NotAdded(c: char) {
    c == '#' || c == '{'
  }

  lemma {:induction false} WordPrinted(c: char, word: string)
    requires NotAdded(c)
    ensures Count(c, PrintWord(word)) == Count(c, word)
  {
    EscapePrinted(c, word);
    CountAppend(c, "\"" + EscapeQuotes(word), "\"");
    CountAppend(c, "\"", EscapeQuotes(word));
  }

  lemma {:induction false} EscapePrinted(c: char, word: string)
    requires NotAdded(c)
    ensures Count(c, EscapeQuotes(word)) == Count(c, word)
  {
    if word != [] {
      EscapePrinted(c, word[1..]);
      CountAppend(c, if word[0] == '"' then ['\\', '"'] else [word[0]], EscapeQuotes(word[1..]));
    }
  }

  lemma {:induction false} PiecesPrinted(c: char, a: seq<string>, b: seq<string>)
    ensures Count(c, Flatten(a + b)) == Count(c, Flatten(a)) + Count(c, Flatten(b))
  {
    FlattenAppend(a, b);
    CountAppend(c, Flatten(a), Flatten(b));
  }

  lemma {:induction false} OnePrinted(c: char, piece: string)
    ensures Count(c, Flatten([piece])) == Count(c, piece)
  {
    assert [piece][1..] == [] && piece + [] == piece;
    assert Flatten([piece]) == piece + Flatten([]);
  }

  lemma {:induction false} ValuesPrinted(c: char, values: seq<string>)
    requires NotAdded(c)
    ensures Count(c, Flatten(ValuePieces(values))) == CountWords(c, values)
  {
    if values != [] {
      ValuesPrinted(c, values[1..]);
      var word := PrintWord(values[0]);
      PiecesPrinted(c, [" ", word], ValuePieces(values[1..]));
      PiecesPrinted(c, [" "], [word]);
      assert [" "] + [word] == [" ", word];
      OnePrinted(c, " ");
      OnePrinted(c, word);
      WordPrinted(c, values[0]);
    }
  }

  lemma {:induction false} LinePrinted(c: char, p: Parameter, flat: bool)
    requires NotAdded(c)
    ensures Count(c, Flatten(LinePieces(p, flat))) == Count(c, p.name) + CountWords(c, p.values)
  {
    var assign := if flat && p.values != [] then [" ="] else [];
    PiecesPrinted(c, [PrintWord(p.name)] + assign, ValuePieces(p.values));
    PiecesPrinted(c, [PrintWord(p.name)], assign);
    OnePrinted(c, PrintWord(p.name));
    OnePrinted(c, " =");
    WordPrinted(c, p.name);
    ValuesPrinted(c, p.values);
  }

  lemma {:induction false} TabsPrinted(c: char, level: nat, flat: bool)
    requires NotAdded(c)
    ensures Count(c, Flatten(Tabs(level))) == 0 && Count(c, Flatten(Indent(level, flat))) == 0
  {
    if level > 0 {
      TabsPrinted(c, level - 1, flat);
      PiecesPrinted(c, ["\t"], Tabs(level - 1));
      OnePrinted(c, "\t");
    }
  }

  lemma {:induction false} ParameterPrinted(c: char, p: Parameter, level: nat, flat: bool)
    requires NotAdded(c)
    ensures Count(c, Flatten(Pieces(p, level, flat))) == CountIn(c, p)
    decreases p, 1
  {
    PiecesPrinted(c, Indent(level, flat) + LinePieces(p, flat), BlockPieces(p, level, flat));
    PiecesPrinted(c, Indent(level, flat), LinePieces(p, flat));
    TabsPrinted(c, level, flat);
    LinePrinted(c, p, flat);
    BlockPrinted(c, p, level, flat);
  }

  lemma {:induction false} BlockPrinted(c: char, p: Parameter, level: nat, flat: bool)
    requires NotAdded(c)
    ensures Count(c, Flatten(BlockPieces(p, level, flat)))
         == if p.parameters == [] then 0 else Opening(c) + CountAll(c, p.parameters)
    decreases p, 0
  {
    if p.parameters != [] {
      var newLine, close := if flat then [] else ["\n"], if flat then "}" else "}\n";
      var children, indent := ChildPieces(p.parameters, level + 1, flat), Indent(level, flat);
      FivePrinted(c, [" {"], newLine, children, indent, [close]);
      LineBreaksPrinted(c, flat);
      BracesPrinted(c);
      TabsPrinted(c, level, flat);
      ChildrenPrinted(c, p.parameters, level + 1, flat);
    }
  }

  lemma {:induction false} FivePrinted(c: char, a: seq<string>, b: seq<string>, d: seq<string>, e: seq<string>,
                                       f: seq<string>)
    ensures Count(c, Flatten(a + b + d + e + f))
         == Count(c, Flatten(a)) + Count(c, Flatten(b)) + Count(c, Flatten(d)) + Count(c, Flatten(e))
            + Count(c, Flatten(f))
  {
    PiecesPrinted(c, a + b + d + e, f);
    PiecesPrinted(c, a + b + d, e);
    PiecesPrinted(c, a + b, d);
    PiecesPrinted(c, a, b);
  }

  lemma {:induction false} LineBreaksPrinted(c: char, flat: bool)
    requires NotAdded(c)
    ensures Count(c, Flatten(if flat then [] else ["\n"])) == 0
    ensures Count(c, Flatten([if flat then "}" else "}\n"])) == 0
  {
    BracesPrinted(c);
  }

  lemma {:induction false} BracesPrinted(c: char)
    requires NotAdded(c)
    ensures Count(c, Flatten([" {"])) == Opening(c) && Count(c, Flatten(["\n"])) == 0
    ensures Count(c, Flatten(["}"])) == 0 && Count(c, Flatten(["}\n"])) == 0 && Count(c, Flatten(["; "])) == 0
  {
    OnePrinted(c, " {");
    OnePrinted(c, "\n");
    OnePrinted(c, "}");
    OnePrinted(c, "}\n");
    OnePrinted(c, "; ");
    assert " {"[1..] == "{" && "}\n"[1..] == "\n" && "; "[1..] == " ";
  }

  lemma {:induction false} ChildrenPrinted(c: char, ps: seq<Parameter>, level: nat, flat: bool)
    requires NotAdded(c)
    ensures Count(c, Flatten(ChildPieces(ps, level, flat))) == CountAll(c, ps)
    decreases ps
  {
    if ps != [] {
      ParameterPrinted(c, ps[0], level, flat);
      BracesPrinted(c);
      ChildrenPrinted(c, ps[1..], level, flat);
      PiecesPrinted(c, Pieces(ps[0], level, flat) + Separator(ps[0], flat), ChildPieces(ps[1..], level, flat));
      PiecesPrinted(c, Pieces(ps[0], level, flat), Separator(ps[0], flat));
    }
  }

  lemma {:induction false} SettingsPrinted(c: char, ps: seq<Parameter>, flat: bool)
    requires NotAdded(c)
    ensures Count(c, SettingsString(ps, flat)) == CountAll(c, ps)
  {
    if ps != [] {
      ParameterPrinted(c, ps[0], 0, flat);
      SettingsPrinted(c, ps[1..], flat);
      PiecesPrinted(c, Pieces(ps[0], 0, flat), TopPieces(ps[1..], flat));
    }
  }
}
