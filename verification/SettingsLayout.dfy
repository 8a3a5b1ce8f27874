/** What printed settings look like: the lines of the indented style, and the one line of the flat style. */
module SettingsLayout {
  import opened SettingsText
  import opened SettingsPrinter

  // ----- words -----

  predicate IsPlain(word: string) {
    forall i :: 0 <= i < |word| ==> word[i] !in {'"', ';', ' ', '\t', '\n', '\U{0B}', '\U{0C}', '\r'}
  }

  /** A word is printed as it is, or in quotes if it has a quote, white space or a separator in it. */
  lemma {:induction false} PrintWordMeans(word: string)
    ensures PrintWord(word) == if IsPlain(word) then word else "\"" + EscapeQuotes(word) + "\""
  {
    if NeedsQuotes(word) {
      var i :| 0 <= i < |word| && (word[i] == '"' || IsWordBreak(word[i]));
      assert word[i] in {'"', ';', ' ', '\t', '\n', '\U{0B}', '\U{0C}', '\r'};
    }
  }

  /** Inside the quotes, a backslash goes in front of every quote, and nothing else changes. */
  lemma {:induction false} EscapeMeans(a: string, b: string)
    ensures EscapeQuotes(a + ("\"" + b)) == EscapeQuotes(a) + ("\\\"" + EscapeQuotes(b))
  {
    assert ("\"" + b)[1..] == b;
    EscapeAppends(a, "\"" + b);
  }

  lemma {:induction false} EscapeAppends(a: string, b: string)
    ensures EscapeQuotes(a + b) == EscapeQuotes(a) + EscapeQuotes(b)
  {
    if a == [] {
      assert a + b == b;
    } else {
      DropOver(a, b, 1);
      EscapeAppends(a[1..], b);
      AppendAssociates(if a[0] == '"' then "\\\"" else [a[0]], EscapeQuotes(a[1..]), EscapeQuotes(b));
    }
  }

  lemma {:induction false} NothingToEscape(word: string)
    requires '"' !in word
    ensures EscapeQuotes(word) == word
  {
    if word != [] {
      NothingToEscape(word[1..]);
    }
  }

  /** Words with a space between any two of them. */
  function Spaced(words: seq<string>): string {
    if words == [] then ""
    else if |words| == 1 then PrintWord(words[0])
    else PrintWord(words[0]) + (" " + Spaced(words[1..]))
  }

  // ----- the indented style -----

  function Tab(level: nat): string {
    if level == 0 then "" else "\t" + Tab(level - 1)
  }

  /** The lines of a parameter: one for its words, and, if it has parameters of its own, theirs in braces, one tab
      further in. */
  function Outline(p: Parameter, level: nat): seq<string>
    decreases p, 0
  {
    var line := Tab(level) + Spaced([p.name] + p.values);
    if p.parameters == [] then [line]
    else [line + " {"] + OutlineAll(p.parameters, level + 1) + [Tab(level) + "}"]
  }

  function OutlineAll(ps: seq<Parameter>, level: nat): seq<string>
    decreases ps
  {
    if ps == [] then [] else Outline(ps[0], level) + OutlineAll(ps[1..], level)
  }

  function Unlines(lines: seq<string>): string {
    if lines == [] then "" else lines[0] + ("\n" + Unlines(lines[1..]))
  }

  // ----- the flat style -----

  function Inline(p: Parameter): string
    decreases p, 0
  {
    PrintWord(p.name)
    + (if p.values == [] then "" else " = " + Spaced(p.values))
    + if p.parameters == [] then "" else " {" + (InlineAll(p.parameters) + "}")
  }

  /** Between braces, parameters without any of their own are followed by a semicolon. */
  function InlineAll(ps: seq<Parameter>): string
    decreases ps
  {
    if ps == [] then ""
    else Inline(ps[0]) + ((if ps[0].parameters == [] then "; " else "") + InlineAll(ps[1..]))
  }

  // ----- proofs -----

  lemma {:induction false} UnlinesAppend(a: seq<string>, b: seq<string>)
    ensures Unlines(a + b) == Unlines(a) + Unlines(b)
  {
    if a == [] {
      assert a + b == b;
    } else {
      assert (a + b)[1..] == a[1..] + b;
      UnlinesAppend(a[1..], b);
    }
  }

  lemma {:induction false} UnlinesOne(line: string)
    ensures Unlines([line]) == line + "\n"
  {
    assert [line][1..] == [];
  }

  lemma {:induction false} FlattenOne(piece: string)
    ensures Flatten([piece]) == piece
  {
    assert [piece][1..] == [];
    assert piece + [] == piece;
  }

  lemma {:induction false} FlattenTwo(a: string, b: string)
    ensures Flatten([a, b]) == a + b
  {
    assert [a, b][1..] == [b];
    FlattenOne(b);
  }

  lemma {:induction false} TabsText(level: nat)
    ensures Flatten(Tabs(level)) == Tab(level)
  {
    if level > 0 {
      TabsText(level - 1);
      assert (["\t"] + Tabs(level - 1))[1..] == Tabs(level - 1);
    }
  }

  lemma {:induction false} ValuesAreSpaced(values: seq<string>)
    requires values != []
    ensures Flatten(ValuePieces(values)) == " " + Spaced(values)
  {
    var first, rest := PrintWord(values[0]), ValuePieces(values[1..]);
    FlattenAppend([" ", first], rest);
    FlattenTwo(" ", first);
    if |values| > 1 {
      ValuesAreSpaced(values[1..]);
      AppendAssociates(" ", first, " " + Spaced(values[1..]));
    } else {
      assert " " + first + [] == " " + first;
    }
  }

  lemma {:induction false} LineIsSpaced(p: Parameter)
    ensures Flatten(LinePieces(p, false)) == Spaced([p.name] + p.values)
  {
    var name, values := [PrintWord(p.name)], ValuePieces(p.values);
    assert LinePieces(p, false) == name + values;
    FlattenAppend(name, values);
    FlattenOne(name[0]);
    assert ([p.name] + p.values)[1..] == p.values;
    if p.values != [] {
      ValuesAreSpaced(p.values);
    }
  }

  lemma {:induction false} FlatLineIsInline(p: Parameter)
    ensures Flatten(LinePieces(p, true))
         == PrintWord(p.name) + if p.values == [] then "" else " = " + Spaced(p.values)
  {
    var name, values := [PrintWord(p.name)], ValuePieces(p.values);
    FlattenOne(name[0]);
    if p.values == [] {
      assert LinePieces(p, true) == name;
    } else {
      assert LinePieces(p, true) == name + ([" ="] + values);
      FlattenAppend(name, [" ="] + values);
      FlattenAppend([" ="], values);
      FlattenOne(" =");
      ValuesAreSpaced(p.values);
      assert " =" + (" " + Spaced(p.values)) == " = " + Spaced(p.values);
    }
  }

  lemma {:induction false} ThreeParts(a: seq<string>, b: seq<string>, c: seq<string>)
    ensures Flatten(a + b + c) == Flatten(a) + (Flatten(b) + Flatten(c))
  {
    FlattenAppend(a + b, c);
    FlattenAppend(a, b);
    AppendAssociates(Flatten(a), Flatten(b), Flatten(c));
  }

  /** In the indented style a parameter is its lines, the newline behind the last one of which is left to whoever comes
      next if it has no parameters of its own. */
  lemma {:induction false} IndentedIsOutline(p: Parameter, level: nat)
    ensures Flatten(Pieces(p, level, false)) + (if p.parameters == [] then "\n" else "") == Unlines(Outline(p, level))
    decreases p, 1
  {
    var line := Tab(level) + Spaced([p.name] + p.values);
    ThreeParts(Tabs(level), LinePieces(p, false), BlockPieces(p, level, false));
    TabsText(level);
    LineIsSpaced(p);
    if p.parameters == [] {
      UnlinesOne(line);
      assert Tab(level) + (Spaced([p.name] + p.values) + []) == line;
    } else {
      BlockIsOutline(p, level, line);
      AppendAssociates(Tab(level), Spaced([p.name] + p.values), Flatten(BlockPieces(p, level, false)));
      assert Flatten(Pieces(p, level, false)) + "" == Flatten(Pieces(p, level, false));
    }
  }

  lemma {:induction false} BlockIsOutline(p: Parameter, level: nat, line: string)
    requires p.parameters != []
    ensures line + Flatten(BlockPieces(p, level, false))
         == Unlines([line + " {"] + OutlineAll(p.parameters, level + 1) + [Tab(level) + "}"])
    decreases p, 0
  {
    var children, inside := ChildPieces(p.parameters, level + 1, false), Unlines(OutlineAll(p.parameters, level + 1));
    ChildrenAreOutlines(p.parameters, level + 1);
    assert BlockPieces(p, level, false) == [" {", "\n"] + children + (Tabs(level) + ["}\n"]);
    ThreeParts([" {", "\n"], children, Tabs(level) + ["}\n"]);
    FlattenTwo(" {", "\n");
    FlattenAppend(Tabs(level), ["}\n"]);
    FlattenOne("}\n");
    TabsText(level);
    UnlinesAppend([line + " {"] + OutlineAll(p.parameters, level + 1), [Tab(level) + "}"]);
    UnlinesAppend([line + " {"], OutlineAll(p.parameters, level + 1));
    UnlinesOne(line + " {");
    UnlinesOne(Tab(level) + "}");
    BlockText(line, inside, Tab(level));
  }

  lemma {:induction false} BlockText(line: string, inside: string, tab: string)
    ensures line + ((" {" + "\n") + (inside + (tab + "}\n"))) == ((line + " {") + "\n") + inside + ((tab + "}") + "\n")
  {
  }

  lemma {:induction false} ChildrenAreOutlines(ps: seq<Parameter>, level: nat)
    ensures Flatten(ChildPieces(ps, level, false)) == Unlines(OutlineAll(ps, level))
    decreases ps
  {
    if ps != [] {
      var first, separator := Pieces(ps[0], level, false), Separator(ps[0], false);
      ThreeParts(first, separator, ChildPieces(ps[1..], level, false));
      FlattenOne("\n");
      IndentedIsOutline(ps[0], level);
      ChildrenAreOutlines(ps[1..], level);
      UnlinesAppend(Outline(ps[0], level), OutlineAll(ps[1..], level));
      AppendAssociates(Flatten(first), Flatten(separator), Unlines(OutlineAll(ps[1..], level)));
    }
  }

  /** In the flat style a parameter is one line, whatever the level. */
  lemma {:induction false} FlatIsInline(p: Parameter, level: nat)
    ensures Flatten(Pieces(p, level, true)) == Inline(p)
    decreases p, 0
  {
    FlatLineIsInline(p);
    ThreeParts([], LinePieces(p, true), BlockPieces(p, level, true));
    if p.parameters != [] {
      var children := ChildPieces(p.parameters, level + 1, true);
      ChildrenAreInline(p.parameters, level + 1);
      assert BlockPieces(p, level, true) == [" {"] + children + ["}"];
      ThreeParts([" {"], children, ["}"]);
      FlattenOne(" {");
      FlattenOne("}");
    }
  }

  lemma {:induction false} ChildrenAreInline(ps: seq<Parameter>, level: nat)
    ensures Flatten(ChildPieces(ps, level, true)) == InlineAll(ps)
    decreases ps
  {
    if ps != [] {
      ThreeParts(Pieces(ps[0], level, true), Separator(ps[0], true), ChildPieces(ps[1..], level, true));
      FlattenOne("; ");
      FlatIsInline(ps[0], level);
      ChildrenAreInline(ps[1..], level);
    }
  }

  function OutlineTop(ps: seq<Parameter>): string {
    if ps == [] then ""
    else
      (if ps[0].parameters == [] then Spaced([ps[0].name] + ps[0].values) else Unlines(Outline(ps[0], 0)))
      + OutlineTop(ps[1..])
  }

  function InlineTop(ps: seq<Parameter>): string {
    if ps == [] then "" else Inline(ps[0]) + InlineTop(ps[1..])
  }

  /** The printed settings, in either style: top-level parameters one behind the other, those without any of their own
      with nothing behind them. */
  lemma {:induction false} SettingsLookLike(ps: seq<Parameter>)
    ensures SettingsString(ps, false) == OutlineTop(ps) && SettingsString(ps, true) == InlineTop(ps)
  {
    if ps != [] {
      SettingsLookLike(ps[1..]);
      FlattenAppend(Pieces(ps[0], 0, false), TopPieces(ps[1..], false));
      FlattenAppend(Pieces(ps[0], 0, true), TopPieces(ps[1..], true));
      FlatIsInline(ps[0], 0);
      IndentedIsOutline(ps[0], 0);
      if ps[0].parameters == [] {
        var text := Spaced([ps[0].name] + ps[0].values);
        UnlinesOne("" + text);
        assert "" + text == text && (text + "\n")[..|text|] == text;
        var printed := Flatten(Pieces(ps[0], 0, false));
        assert (printed + "\n")[..|printed|] == printed;
        assert |printed + "\n"| == |text + "\n"|;
      } else {
        assert Flatten(Pieces(ps[0], 0, false)) + "" == Flatten(Pieces(ps[0], 0, false));
      }
    }
  }
}
