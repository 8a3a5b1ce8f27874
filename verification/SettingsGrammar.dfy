/** The settings language: which texts are read as which parameters, and which ones fail with which error, said in terms
    of the words of `SettingsReading`. */
module SettingsGrammar {
  import opened SettingsText
  import opened SettingsReading

  // ----- lines -----

  /** Reading `s` as the words of a line from its `i`th one on gives `words`, and `last` is what the last call yields.
      Only a name may be on another line; an equals sign ends it, is passed over in front of the first value and ends
      that one too, and belongs to any later value. */
  ghost predicate WordsRead(s: string, i: nat, words: seq<string>, last: WordResult)
    decreases words
  {
    var w := GetWord(s, match i case 0 => NoAssignment case 1 => AllowAssignment case _ => IgnoreAssignment, i == 0);
    if words == [] then !w.Word? && last == w
    else
      && w.Word? && words[0] == w.word
      && if w.more then WordsRead(w.rest, i + 1, words[1..], last) else |words| == 1 && last == w
  }

  /** A line of these words; all of it is dropped if its level ends where a value should be. */
  function LineOf(words: seq<string>, last: WordResult): LineResult
    requires last.Word? ==> words != []
  {
    match last
    case Word(_, rest, _) => Line(words[0], words[1..], rest)
    case NoWord(rest) => NoLine(rest)
    case BadWord => LineError(BadData)
    case OverrunWord => LineError(Overrun)
  }

  ghost predicate LineRead(s: string, r: LineResult) {
    exists words, last :: WordsRead(s, 0, words, last) && LineOf(words, last) == r
  }

  function WithValues(name: string, values: seq<string>, words: seq<string>, last: WordResult): LineResult {
    if last.Word? then Line(name, values + words, last.rest) else LineOf([], last)
  }

  lemma {:induction false} ValuesAreRead(s: string, name: string, values: seq<string>, words: seq<string>,
                                         last: WordResult)
    requires WordsRead(s, |values| + 1, words, last)
    ensures ParseValues(s, name, values) == WithValues(name, values, words, last)
    decreases words
  {
    var w := GetWord(s, if values == [] then AllowAssignment else IgnoreAssignment, false);
    if w.Word? {
      if w.more {
        ValuesAreRead(w.rest, name, values + [w.word], words[1..], last);
        AppendAssociates(values, [w.word], words[1..]);
      }
      assert words == [w.word] + words[1..];
    }
  }

  lemma {:induction false} ValuesHaveWords(s: string, name: string, values: seq<string>)
    returns (words: seq<string>, last: WordResult)
    ensures WordsRead(s, |values| + 1, words, last)
    decreases |s|
  {
    last := GetWord(s, if values == [] then AllowAssignment else IgnoreAssignment, false);
    words := [];
    if last.Word? {
      var word := last.word;
      if last.more {
        words, last := ValuesHaveWords(last.rest, name, values + [word]);
      }
      assert ([word] + words)[1..] == words;
      words := [word] + words;
    }
  }

  lemma {:induction false} LineIsRead(s: string, words: seq<string>, last: WordResult)
    requires WordsRead(s, 0, words, last)
    ensures ParseLine(s) == LineOf(words, last)
  {
    var w := GetWord(s, NoAssignment, true);
    if w.Word? && w.more {
      ValuesAreRead(w.rest, w.word, [], words[1..], last);
      assert [] + words[1..] == words[1..];
    }
  }

  /** A line is read as `r` exactly if it has words that make it so. */
  lemma {:induction false} ParseLineReads(s: string, r: LineResult)
    ensures ParseLine(s) == r <==> LineRead(s, r)
  {
    var w := GetWord(s, NoAssignment, true);
    var words, last := [], w;
    if w.Word? {
      if w.more {
        words, last := ValuesHaveWords(w.rest, w.word, []);
      }
      assert ([w.word] + words)[1..] == words;
      words := [w.word] + words;
    }
    assert WordsRead(s, 0, words, last);
    LineIsRead(s, words, last);
    if LineRead(s, r) {
      var words', last' :| WordsRead(s, 0, words', last') && LineOf(words', last') == r;
      LineIsRead(s, words', last');
    }
  }

  // ----- levels -----

  /** `t` is where the level ends, and `rest` is what follows: the end of the text on level 0, a brace further in. */
  predicate Closes(t: string, level: nat, rest: string) {
    if level == 0 then t == "" && rest == "" else t == "}" + rest
  }

  predicate LevelStops(s: string) {
    s == "" || s[0] == '}'
  }

  /** The text of a level, entered behind its brace, has the parameters `ps`, and `rest` follows behind its end. */
  ghost predicate LevelRead(s: string, level: nat, ps: seq<Parameter>, rest: string)
    decreases ps, 0
  {
    && level <= 8
    && if ps == [] then exists t :: LineRead(s, NoLine(t)) && Closes(t, level, rest)
       else exists u :: ParameterRead(s, level, ps[0], u) && NextRead(u, level, ps[1..], rest)
  }

  ghost predicate NextRead(u: string, level: nat, ps: seq<Parameter>, rest: string)
    decreases ps, 1
  {
    if LevelStops(u) then ps == [] && Closes(u, level, rest) else LevelRead(u, level, ps, rest)
  }

  /** A parameter is a line, with others in braces behind it or none at all. */
  ghost predicate ParameterRead(s: string, level: nat, p: Parameter, u: string)
    decreases p, 1
  {
    exists t :: LineRead(s, Line(p.name, p.values, t)) && BlockRead(t, level, p, u)
  }

  ghost predicate BlockRead(t: string, level: nat, p: Parameter, u: string)
    decreases p, 0
  {
    if t != "" && t[0] == '{' then LevelRead(t[1..], level + 1, p.parameters, u) else p.parameters == [] && u == t
  }

  lemma {:induction false} ParseBlockReads(s: string, level: nat, p: Parameter, u: string)
    ensures ParseBlock(s, level) == Block(p, u) <==> ParameterRead(s, level, p, u)
    decreases |s|, 0
  {
    forall t ensures LineRead(s, Line(p.name, p.values, t)) <==> ParseLine(s) == Line(p.name, p.values, t) {
      ParseLineReads(s, Line(p.name, p.values, t));
    }
    if ParseLine(s).Line? {
      var t := ParseLine(s).rest;
      if t != "" && t[0] == '{' {
        ParseLevelReads(t[1..], level + 1, p.parameters, u);
      }
      var parsed := Parameter(ParseLine(s).name, ParseLine(s).values, p.parameters);
      assert BlockRead(t, level, p, u) <==> ParseBlock(s, level) == Block(parsed, u);
    }
  }

  lemma {:induction false} ClosesReads(t: string, level: nat, rest: string)
    requires LevelStops(t)
    ensures CloseLevel(t, level) == Parsed([], rest) <==> Closes(t, level, rest)
  {
    assert t != "" ==> t == [t[0]] + t[1..];
    assert ("}" + rest)[1..] == rest;
  }

  /** The text of a level is read as `ps` exactly if it is made up of their lines and levels. */
  lemma {:induction false} ParseLevelReads(s: string, level: nat, ps: seq<Parameter>, rest: string)
    ensures ParseLevel(s, level) == Parsed(ps, rest) <==> LevelRead(s, level, ps, rest)
    decreases |s|, 2
  {
    FirstRead(s, level, ps);
    match ParseBlock(s, level)
    case BlockError(e) =>
    case NoBlock(t) => ClosesReads(t, level, rest);
    case Block(p, u) =>
      NextReads(u, level, if ps == [] then ps else ps[1..], rest);
      assert ps != [] ==> ps == [ps[0]] + ps[1..];
  }

  lemma {:induction false} NextReads(u: string, level: nat, ps: seq<Parameter>, rest: string)
    ensures level <= 8 ==> (Continue(u, level) == Parsed(ps, rest) <==> NextRead(u, level, ps, rest))
    decreases |u|, 3
  {
    if LevelStops(u) {
      ClosesReads(u, level, rest);
      assert CloseLevel(u, level).Parsed? ==> CloseLevel(u, level).parameters == [];
    } else {
      ParseLevelReads(u, level, ps, rest);
    }
  }

  lemma {:induction false} FirstRead(s: string, level: nat, ps: seq<Parameter>)
    ensures forall t :: LineRead(s, NoLine(t)) <==> ParseBlock(s, level) == NoBlock(t)
    ensures ps != [] ==> forall u :: ParameterRead(s, level, ps[0], u) <==> ParseBlock(s, level) == Block(ps[0], u)
    decreases |s|, 1
  {
    forall t ensures LineRead(s, NoLine(t)) <==> ParseBlock(s, level) == NoBlock(t) {
      ParseLineReads(s, NoLine(t));
    }
    if ps != [] {
      forall u ensures ParameterRead(s, level, ps[0], u) <==> ParseBlock(s, level) == Block(ps[0], u) {
        ParseBlockReads(s, level, ps[0], u);
      }
    }
  }

  // ----- errors -----

  /** Reading a level ends in an error: it is nested too deeply, one of its lines or levels fails, or it is not
      closed. */
  ghost predicate LevelFails(s: string, level: nat, e: Error)
    decreases |s|, 0
  {
    if level > 8 then e == LinkLimit
    else
      || LineRead(s, LineError(e))
      || (exists t :: LineRead(s, NoLine(t)) && LevelStops(t) && Unclosed(t, level, e))
      || (exists name, values, t :: LineRead(s, Line(name, values, t)) && |t| < |s| && BehindFails(t, level, e))
  }

  /** Behind its line: a level in braces fails or what follows it, or what follows without one. */
  ghost predicate BehindFails(t: string, level: nat, e: Error)
    decreases |t|, 3
  {
    if t != "" && t[0] == '{' then InsideFails(t[1..], level + 1, e) else NextFails(t, level, e)
  }

  ghost predicate InsideFails(s: string, level: nat, e: Error)
    requires level > 0
    decreases |s|, 2
  {
    || LevelFails(s, level, e)
    || (exists ps, u :: LevelRead(s, level, ps, u) && |u| <= |s| && NextFails(u, level - 1, e))
  }

  ghost predicate NextFails(u: string, level: nat, e: Error)
    decreases |u|, 1
  {
    if LevelStops(u) then Unclosed(u, level, e) else LevelFails(u, level, e)
  }

  /** A brace too many on level 0, or the end of the text in another one. */
  predicate Unclosed(t: string, level: nat, e: Error)
    requires LevelStops(t)
  {
    e == GeneralError && (level > 0 <==> t == "")
  }

  lemma {:induction false} ErrorOfLine(s: string, e: Error)
    ensures LineRead(s, LineError(e)) <==> ParseLine(s) == LineError(e)
    ensures forall t :: LineRead(s, NoLine(t)) <==> ParseLine(s) == NoLine(t)
    ensures forall name, values, t :: LineRead(s, Line(name, values, t)) <==> ParseLine(s) == Line(name, values, t)
  {
    ParseLineReads(s, LineError(e));
    forall t ensures LineRead(s, NoLine(t)) <==> ParseLine(s) == NoLine(t) {
      ParseLineReads(s, NoLine(t));
    }
    forall name, values, t ensures LineRead(s, Line(name, values, t)) <==> ParseLine(s) == Line(name, values, t) {
      ParseLineReads(s, Line(name, values, t));
    }
  }

  /** Reading a level fails with `e` exactly if one of its lines does, it is nested too deeply, or braces do not
      match. */
  lemma {:induction false} ParseLevelFails(s: string, level: nat, e: Error)
    ensures ParseLevel(s, level) == Failed(e) <==> LevelFails(s, level, e)
    decreases |s|, 1
  {
    ErrorOfLine(s, e);
    match ParseLine(s)
    case LineError(error) =>
      assert ParseBlock(s, level) == BlockError(error);
    case NoLine(t) =>
      assert LineRead(s, NoLine(t)) && ParseBlock(s, level) == NoBlock(t);
    case Line(name, values, t) =>
      assert LineRead(s, Line(name, values, t));
      if level <= 8 {
        BehindLineFails(s, level, e);
      }
  }

  lemma {:induction false} BehindLineFails(s: string, level: nat, e: Error)
    requires ParseLine(s).Line? && level <= 8
    ensures ParseLevel(s, level) == Failed(e) <==> BehindFails(ParseLine(s).rest, level, e)
    decreases |s|, 0
  {
    var t := ParseLine(s).rest;
    if t != "" && t[0] == '{' {
      var inside := t[1..];
      InsideLevelFails(inside, level + 1, e);
      match ParseLevel(inside, level + 1)
      case Failed(error) => assert ParseBlock(s, level) == BlockError(error);
      case Parsed(ps, u) =>
        var parsed := Parameter(ParseLine(s).name, ParseLine(s).values, ps);
        assert ParseBlock(s, level) == Block(parsed, u);
    } else {
      NextLineFails(t, level, e);
      assert ParseBlock(s, level).Block?;
    }
  }

  lemma {:induction false} InsideLevelFails(s: string, level: nat, e: Error)
    requires 0 < level <= 9
    ensures InsideFails(s, level, e) <==>
              match ParseLevel(s, level)
              case Failed(error) => error == e
              case Parsed(_, u) => Continue(u, level - 1) == Failed(e)
    decreases |s|, 3
  {
    ParseLevelFails(s, level, e);
    forall ps, u ensures LevelRead(s, level, ps, u) <==> ParseLevel(s, level) == Parsed(ps, u) {
      ParseLevelReads(s, level, ps, u);
    }
    match ParseLevel(s, level)
    case Failed(_) =>
    case Parsed(ps, u) =>
      assert LevelRead(s, level, ps, u);
      NextLineFails(u, level - 1, e);
  }

  lemma {:induction false} NextLineFails(u: string, level: nat, e: Error)
    requires level <= 8
    ensures Continue(u, level) == Failed(e) <==> NextFails(u, level, e)
    decreases |u|, 2
  {
    if !LevelStops(u) {
      ParseLevelFails(u, level, e);
    }
  }

  /** Which texts are settings, and which, and how all other texts fail. */
  lemma {:induction false} ParseTextReads(s: string, ps: seq<Parameter>, rest: string, e: Error)
    ensures ParseText(s) == Parsed(ps, rest) <==> LevelRead(s, 0, ps, rest)
    ensures ParseText(s) == Failed(e) <==> LevelFails(s, 0, e)
  {
    ParseLevelReads(s, 0, ps, rest);
    ParseLevelFails(s, 0, e);
  }
}
