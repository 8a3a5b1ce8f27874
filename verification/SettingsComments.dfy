/** A comment that runs to the end of the text makes the parser step over the terminating NUL.  When
    exactly that happens in one call, and what a text must look like for it never to happen. */
module SettingsComments {
  import opened Options
  import opened SettingsText

  lemma {:induction false} SkipCommentPrefix(s: string, t: string)
    requires SkipComment(s).Some?
    ensures SkipComment(s + t) == Some(SkipComment(s).value + t)
  {
    if s[0] == '\n' {
      assert (s + t)[1..] == s[1..] + t;
    } else {
      assert (s + t)[1..] == s[1..] + t;
      SkipCommentPrefix(s[1..], t);
    }
  }

  /** Text that is skipped to its end leaves what stands behind it to be skipped. */
  lemma {:induction false} SkipPrefix(s: string, t: string, mode: AssignmentMode, allowNewLine: bool)
    requires Skip(s, mode, allowNewLine) == Some([])
    ensures Skip(s + t, mode, allowNewLine) == Skip(t, mode, allowNewLine)
    decreases |s|
  {
    if s == [] {
      assert s + t == t;
    } else if s[0] == '#' {
      SkipCommentPrefix(s, t);
      SkipPrefix(SkipComment(s).value, t, mode, allowNewLine);
    } else {
      assert (s + t)[1..] == s[1..] + t;
      SkipPrefix(s[1..], t, mode, allowNewLine);
    }
  }

  lemma {:induction false} CommentWithoutEnd(s: string)
    ensures SkipComment(s).None? <==> '\n' !in s
  {
    if s != [] && s[0] != '\n' {
      CommentWithoutEnd(s[1..]);
      assert s == [s[0]] + s[1..];
    }
  }

  /** `s` is skippable text and then a comment that no newline ends. */
  ghost predicate EndsInComment(s: string, mode: AssignmentMode) {
    exists k :: 0 <= k < |s| && s[k] == '#' && '\n' !in s[k..] && Skip(s[..k], mode, true) == Some([])
  }

  lemma {:induction false} EndsInCommentOverruns(s: string, mode: AssignmentMode)
    requires EndsInComment(s, mode)
    ensures Skip(s, mode, true).None?
  {
    var k :| 0 <= k < |s| && s[k] == '#' && '\n' !in s[k..] && Skip(s[..k], mode, true) == Some([]);
    SkipPrefix(s[..k], s[k..], mode, true);
    assert s[..k] + s[k..] == s;
    CommentWithoutEnd(s[k..]);
  }

  lemma {:induction false} CommentRightHere(s: string, mode: AssignmentMode)
    requires s != [] && s[0] == '#' && SkipComment(s).None?
    ensures EndsInComment(s, mode)
  {
    CommentWithoutEnd(s);
    assert s[0..] == s && s[..0] == [];
  }

  lemma {:induction false} OverrunEndsInComment(s: string, mode: AssignmentMode)
    requires Skip(s, mode, true).None?
    ensures EndsInComment(s, mode)
    decreases |s|
  {
    if s[0] == '#' && SkipComment(s).None? {
      CommentRightHere(s, mode);
    } else {
      var rest := if s[0] == '#' then SkipComment(s).value else s[1..];
      SkippedPart(s, mode);
      OverrunEndsInComment(rest, mode);
      CommentFurtherOn(s, |s| - |rest|, rest, mode);
    }
  }

  lemma {:induction false} CommentFurtherOn(s: string, front: nat, rest: string, mode: AssignmentMode)
    requires front <= |s| && rest == s[front..] && Skip(s[..front], mode, true) == Some([])
    requires EndsInComment(rest, mode)
    ensures EndsInComment(s, mode)
  {
    var j :| 0 <= j < |rest| && rest[j] == '#' && '\n' !in rest[j..] && Skip(rest[..j], mode, true) == Some([]);
    SkipPrefix(s[..front], rest[..j], mode, true);
    assert s[..front + j] == s[..front] + rest[..j];
    assert s[front + j..] == rest[j..];
  }

  lemma {:induction false} CommentRest(s: string)
    requires SkipComment(s).Some?
    ensures var rest := SkipComment(s).value;
            s[|s| - |rest|..] == rest && SkipComment(s[..|s| - |rest|]) == Some([])
  {
    var rest := SkipComment(s).value;
    if s[0] != '\n' {
      CommentRest(s[1..]);
      assert s[..|s| - |rest|][1..] == s[1..][..|s| - 1 - |rest|];
    } else {
      assert s[..1][1..] == [];
    }
  }

  /** One round of skipping, on its own, skips exactly the part of the text it goes over. */
  lemma {:induction false} SkippedPart(s: string, mode: AssignmentMode)
    requires s != [] && IsSkipped(s[0], mode, true) && (s[0] == '#' ==> SkipComment(s).Some?)
    ensures var rest := if s[0] == '#' then SkipComment(s).value else s[1..];
            s[|s| - |rest|..] == rest && Skip(s[..|s| - |rest|], mode, true) == Some([])
  {
    if s[0] == '#' {
      CommentRest(s);
    } else {
      assert s[..1][1..] == [];
    }
  }

  /** `get_word` leaves the text exactly when it looks for a word on any line and finds, behind skippable
      text, a comment without a newline. */
  lemma {:induction false} GetWordOverruns(s: string, mode: AssignmentMode, allowNewLine: bool)
    ensures GetWord(s, mode, allowNewLine) == OverrunWord <==> allowNewLine && EndsInComment(s, mode)
  {
    if allowNewLine {
      if EndsInComment(s, mode) {
        EndsInCommentOverruns(s, mode);
      }
      if Skip(s, mode, true).None? {
        OverrunEndsInComment(s, mode);
      }
    } else {
      OneLineNeverOverruns(s, mode);
    }
  }

  lemma {:induction false} OneLineNeverOverruns(s: string, mode: AssignmentMode)
    ensures Skip(s, mode, false).Some?
    decreases |s|
  {
    if s != [] && IsSkipped(s[0], mode, false) {
      OneLineNeverOverruns(s[1..], mode);
    }
  }

  // ----- texts whose comments all end -----

  predicate IsSuffix(t: string, s: string) {
    |t| <= |s| && s[|s| - |t|..] == t
  }

  lemma {:induction false} SuffixOfSuffix(u: string, t: string, s: string)
    requires IsSuffix(u, t) && IsSuffix(t, s)
    ensures IsSuffix(u, s)
  {
  }

  predicate CommentsEnd(s: string) {
    forall k :: 0 <= k < |s| && s[k] == '#' ==> '\n' in s[k..]
  }

  lemma {:induction false} SuffixCommentsEnd(t: string, s: string)
    requires CommentsEnd(s) && IsSuffix(t, s)
    ensures CommentsEnd(t)
  {
    forall k | 0 <= k < |t| && t[k] == '#' ensures '\n' in t[k..] {
      assert s[|s| - |t| + k] == '#';
      assert s[|s| - |t| + k..] == t[k..];
    }
  }

  lemma {:induction false} SkipSuffix(s: string, mode: AssignmentMode, allowNewLine: bool)
    requires Skip(s, mode, allowNewLine).Some?
    ensures IsSuffix(Skip(s, mode, allowNewLine).value, s)
    decreases |s|
  {
    if s != [] && IsSkipped(s[0], mode, allowNewLine) {
      if s[0] == '#' {
        CommentRest(s);
        SkipSuffix(SkipComment(s).value, mode, allowNewLine);
      } else {
        SkipSuffix(s[1..], mode, allowNewLine);
      }
    }
  }

  lemma {:induction false} TokenSuffix(s: string, quote: char, mode: AssignmentMode)
    requires ReadToken(s, quote, mode).Token?
    ensures IsSuffix(ReadToken(s, quote, mode).rest, s)
    decreases |s|
  {
    if s != [] && s[0] == '\\' {
      TokenSuffix(s[2..], quote, mode);
      SuffixOfSuffix(ReadToken(s, quote, mode).rest, s[2..], s);
    } else if s != [] && !EndsWord(s[0], quote, mode) {
      TokenSuffix(s[1..], quote, mode);
      SuffixOfSuffix(ReadToken(s, quote, mode).rest, s[1..], s);
    }
  }

  lemma {:induction false} TrailSuffix(s: string, newLine: bool)
    ensures IsSuffix(Trail(s, newLine).rest, s)
    decreases |s|
  {
    if s != [] && ((IsParameterSeparator(s[0]) && !newLine) || (!IsParameterSeparator(s[0]) && IsSpace(s[0]))) {
      TrailSuffix(s[1..], newLine || IsParameterSeparator(s[0]));
    }
  }

  lemma {:induction false} ReadBodySuffix(s: string, quote: char, mode: AssignmentMode)
    ensures ReadBody(s, quote, mode).Word? ==> IsSuffix(ReadBody(s, quote, mode).rest, s)
  {
    var token := ReadToken(s, quote, mode);
    if token.Token? {
      TokenSuffix(s, quote, mode);
      if token.rest != [] {
        var newLine := IsParameterSeparator(token.rest[0]);
        TrailSuffix(token.rest[1..], newLine);
        SuffixOfSuffix(Trail(token.rest[1..], newLine).rest, token.rest, s);
      }
    }
  }

  lemma {:induction false} GetWordSuffix(s: string, mode: AssignmentMode, allowNewLine: bool)
    ensures var r := GetWord(s, mode, allowNewLine);
            r.NoWord? || r.Word? ==> IsSuffix(r.rest, s)
  {
    if Skip(s, mode, allowNewLine).Some? {
      SkipSuffix(s, mode, allowNewLine);
      var t := Skip(s, mode, allowNewLine).value;
      if t != [] && t[0] != '}' {
        var quote := if IsQuote(t[0]) then t[0] else '\0';
        var body := if IsQuote(t[0]) then t[1..] else t;
        ReadBodySuffix(body, quote, mode);
        var r := ReadBody(body, quote, mode);
        if r.Word? {
          SuffixOfSuffix(body, t, s);
          SuffixOfSuffix(r.rest, body, s);
        }
      }
    }
  }

  lemma {:induction false} CommentsEndInWord(s: string, mode: AssignmentMode, allowNewLine: bool)
    requires CommentsEnd(s)
    ensures var r := GetWord(s, mode, allowNewLine);
            !r.OverrunWord? && (r.NoWord? || r.Word? ==> CommentsEnd(r.rest))
  {
    GetWordOverruns(s, mode, allowNewLine);
    GetWordSuffix(s, mode, allowNewLine);
    var r := GetWord(s, mode, allowNewLine);
    if r.NoWord? || r.Word? {
      SuffixCommentsEnd(r.rest, s);
    }
  }

  lemma {:induction false} CommentsEndInValues(s: string, name: string, values: seq<string>)
    requires CommentsEnd(s)
    ensures var r := ParseValues(s, name, values);
            r != LineError(Overrun) && (!r.LineError? ==> CommentsEnd(r.rest))
    decreases |s|
  {
    var mode := if values == [] then AllowAssignment else IgnoreAssignment;
    CommentsEndInWord(s, mode, false);
    var r := GetWord(s, mode, false);
    if r.Word? && r.more {
      CommentsEndInValues(r.rest, name, values + [r.word]);
    }
  }

  lemma {:induction false} CommentsEndInLine(s: string)
    requires CommentsEnd(s)
    ensures var r := ParseLine(s);
            r != LineError(Overrun) && (!r.LineError? ==> CommentsEnd(r.rest))
  {
    CommentsEndInWord(s, NoAssignment, true);
    var r := GetWord(s, NoAssignment, true);
    if r.Word? && r.more {
      CommentsEndInValues(r.rest, r.word, []);
    }
  }

  lemma {:induction false} CommentsEndInBlock(s: string, level: nat)
    requires CommentsEnd(s)
    ensures var r := ParseBlock(s, level);
            r != BlockError(Overrun) && (!r.BlockError? ==> CommentsEnd(r.rest))
    decreases |s|, 0
  {
    CommentsEndInLine(s);
    match ParseLine(s) {
      case LineError(e) =>
        assert ParseBlock(s, level) == BlockError(e);
      case NoLine(rest) =>
        assert ParseBlock(s, level) == NoBlock(rest);
      case Line(name, values, rest) =>
        if rest != [] && rest[0] == '{' {
          SuffixCommentsEnd(rest[1..], rest);
          CommentsEndInLevel(rest[1..], level + 1);
          BlockWithLevel(s, level, name, values, rest);
        } else {
          assert ParseBlock(s, level) == Block(Parameter(name, values, []), rest);
        }
    }
  }

  lemma {:induction false} BlockWithLevel(s: string, level: nat, name: string, values: seq<string>, rest: string)
    requires ParseLine(s) == Line(name, values, rest) && rest != [] && rest[0] == '{'
    ensures ParseBlock(s, level) == match ParseLevel(rest[1..], level + 1)
            case Failed(e) => BlockError(e)
            case Parsed(ps, rest') => Block(Parameter(name, values, ps), rest')
  {
  }

  lemma {:induction false} CommentsEndInLevel(s: string, level: nat)
    requires CommentsEnd(s)
    ensures var r := ParseLevel(s, level);
            r != Failed(Overrun) && (r.Parsed? ==> CommentsEnd(r.rest))
    decreases |s|, 2
  {
    if level <= MAX_SETTINGS_LEVEL {
      CommentsEndInParameters(s, level);
    }
  }

  lemma {:induction false} CommentsEndInParameters(s: string, level: nat)
    requires CommentsEnd(s)
    ensures var r := ParseParameters(s, level);
            r != Failed(Overrun) && (r.Parsed? ==> CommentsEnd(r.rest))
    decreases |s|, 1
  {
    CommentsEndInBlock(s, level);
    var block := ParseBlock(s, level);
    if !block.BlockError? {
      if block.rest != [] {
        SuffixCommentsEnd(block.rest[1..], block.rest);
      }
      if !LevelEnds(block.rest) {
        CommentsEndInParameters(block.rest, level);
      }
    }
  }

  /** A text in which every `#` has a newline behind it is never left by the parser. */
  lemma {:induction false} CommentsEndKeepsInside(s: string)
    requires CommentsEnd(s)
    ensures ParseText(s) != Failed(Overrun)
  {
    CommentsEndInLevel(s, 0);
  }

  /** So a text that a newline is added to is never left, whatever stands in it. */
  lemma {:induction false} NewlineKeepsInside(s: string)
    ensures ParseText(s + "\n") != Failed(Overrun)
  {
    var text := s + "\n";
    assert text[|text| - 1] == '\n';
    CommentsEndKeepsInside(text);
  }

  /** Without the newline the parser does leave the text, behind a well-formed parameter. */
  lemma {:induction false} OpenCommentLeavesText()
    ensures ParseText("a\n#") == Failed(Overrun)
  {
    var s := "a\n#";
    assert s[1..] == "\n#" && s[2..] == "#" && "\n#"[1..] == "#" && "#"[1..] == [];
    assert ReadToken("\n#", '\0', NoAssignment) == Token([], "\n#");
    assert ReadToken(s, '\0', NoAssignment) == Token("a", "\n#");
    assert Trail("#", true) == Trailer("#", false);
    assert GetWord(s, NoAssignment, true) == Word("a", "#", false);
    assert Skip("#", NoAssignment, true) == None;
    assert ParseParameters("#", 0) == Failed(Overrun);
  }
}
