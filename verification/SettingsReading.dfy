/** What one call of `get_word` reads, said of the characters of the text: which of them are passed over, which make up
    the word, and what has to follow for another value to be announced.  Every text fits exactly one result. */
module SettingsReading {
  import opened Options
  import opened SettingsText

  const BLANKS := {' ', '\t', '\U{0B}', '\U{0C}', '\r'}
  const SEPARATORS := {'\n', ';'}

  /** A text in its parts: what is passed over, the opening quote, the word as it is spelled, the character that ends
      it, and the space behind that. */
  datatype Shape = Shape(lead: string, open: string, raw: string, end: string, gap: string)

  predicate Ignorable(c: char, mode: AssignmentMode, newLines: bool) {
    || c in {' ', '\t'}
    || (newLines && c in BLANKS + SEPARATORS)
    || (mode == AllowAssignment && c == '=')
  }

  /** Nothing but ignorable characters and, where new lines are passed over, comments with their newlines. */
  predicate Lead(s: string, mode: AssignmentMode, newLines: bool, inComment: bool) {
    if s == [] then !inComment
    else if inComment then Lead(s[1..], mode, newLines, s[0] != '\n')
    else if newLines && s[0] == '#' then Lead(s[1..], mode, newLines, true)
    else Ignorable(s[0], mode, newLines) && Lead(s[1..], mode, newLines, false)
  }

  predicate StartsWord(s: string, mode: AssignmentMode, newLines: bool) {
    s != [] && s[0] != '}' && !Ignorable(s[0], mode, newLines) && !(newLines && s[0] == '#')
  }

  /** A quoted word ends with its quote, any other one in front of white space, a separator, or an assignment unless
      assignments are ignored. */
  predicate EndsHere(c: char, open: string, mode: AssignmentMode) {
    if open != "" then c == open[0] else c in BLANKS + SEPARATORS || (c == '=' && mode != IgnoreAssignment)
  }

  /** `raw` is `word` with a backslash in front of any characters, and of all that would end the word. */
  predicate Spells(raw: string, word: string, open: string, mode: AssignmentMode)
    decreases |raw|
  {
    if raw == [] then word == []
    else if raw[0] == '\\' then
      |raw| >= 2 && word != [] && word[0] == raw[1] && Spells(raw[2..], word[1..], open, mode)
    else
      !EndsHere(raw[0], open, mode) && word != [] && word[0] == raw[0] && Spells(raw[1..], word[1..], open, mode)
  }

  predicate Blank(s: string) {
    s == [] || (s[0] in BLANKS + SEPARATORS && Blank(s[1..]))
  }

  function Separators(gap: string): nat {
    if gap == [] then 0 else Separators(gap[1..]) + if gap[0] in SEPARATORS then 1 else 0
  }

  /** At most one separator is passed over behind a word, to find a brace or a comment; any other character is the start
      of another value if it is on the same line. */
  predicate Behind(separators: nat, rest: string, more: bool) {
    && separators <= 1
    && (more <==> separators == 0 && rest != [] && rest[0] !in {'{', '}', '#'})
    && (rest != [] && rest[0] in BLANKS + SEPARATORS ==> rest[0] in SEPARATORS && separators == 1)
  }

  /** A word that starts with a quote is a quoted one. */
  predicate Opens(open: string, body: string) {
    open in {"\"", "'"} || (open == "" && (body == [] || body[0] !in {'"', '\''}))
  }

  ghost predicate Spelled(raw: string, open: string, mode: AssignmentMode) {
    exists word :: Spells(raw, word, open, mode)
  }

  /** A quoted word without its closing quote, or a backslash with nothing behind it. */
  ghost predicate NeverEnds(open: string, raw: string, mode: AssignmentMode) {
    || (open != "" && Spelled(raw, open, mode))
    || (raw != [] && raw[|raw| - 1] == '\\' && Spelled(raw[..|raw| - 1], open, mode))
  }

  /** The parts `x` of a text behind its lead make `r` the result of a call. */
  ghost predicate FitsBody(s: string, mode: AssignmentMode, x: Shape, r: WordResult)
    requires r.Word? || r.BadWord?
  {
    match r
    case BadWord => s == x.open + x.raw && Opens(x.open, x.raw) && NeverEnds(x.open, x.raw, mode)
    case Word(word, rest, more) =>
      && s == x.open + (x.raw + (x.end + (x.gap + rest)))
      && Opens(x.open, x.raw + x.end) && Spells(x.raw, word, x.open, mode)
      && if x.end == "" then x.open == "" && x.gap == "" && rest == "" && !more
         else
           && |x.end| == 1 && EndsHere(x.end[0], x.open, mode)
           && Blank(x.gap) && Behind(Separators(x.end) + Separators(x.gap), rest, more)
  }

  ghost predicate Fits(s: string, mode: AssignmentMode, newLines: bool, x: Shape, r: WordResult) {
    && Lead(x.lead, mode, newLines, false) && x.lead <= s
    && var t := s[|x.lead|..];
       match r
       case NoWord(rest) => t == rest && (rest == [] || rest[0] == '}')
       case OverrunWord => newLines && t != [] && t[0] == '#' && '\n' !in t
       case _ => StartsWord(t, mode, newLines) && FitsBody(t, mode, x, r)
  }

  ghost predicate Reads(s: string, mode: AssignmentMode, newLines: bool, r: WordResult) {
    exists x :: Fits(s, mode, newLines, x, r)
  }

  // ----- what is passed over -----

  lemma {:induction false} LeadIsPassed(lead: string, t: string, mode: AssignmentMode, newLines: bool, inComment: bool)
    requires Lead(lead, mode, newLines, inComment)
    ensures !inComment ==> Skip(lead + t, mode, newLines) == Skip(t, mode, newLines)
    ensures inComment ==>
              && SkipComment(lead + t).Some?
              && Skip(SkipComment(lead + t).value, mode, newLines) == Skip(t, mode, newLines)
  {
    if lead == [] {
      assert lead + t == t;
    } else {
      assert (lead + t)[0] == lead[0];
      DropOver(lead, t, 1);
      LeadIsPassed(lead[1..], t, mode, newLines,
                   if inComment then lead[0] != '\n' else newLines && lead[0] == '#');
      if !inComment && newLines && lead[0] == '#' {
        assert SkipComment(lead + t) == SkipComment((lead + t)[1..]);
      }
    }
  }

  /** Whatever stands in front of a word makes no difference: blanks, assignments where they are allowed, and, where new
      lines are, all white space, separators and comments. */
  lemma {:induction false} LeadMakesNoDifference(lead: string, t: string, mode: AssignmentMode, newLines: bool)
    requires Lead(lead, mode, newLines, false)
    ensures GetWord(lead + t, mode, newLines) == GetWord(t, mode, newLines)
  {
    LeadIsPassed(lead, t, mode, newLines, false);
  }

  // ----- the word -----

  predicate Quotes(open: string, quote: char) {
    if open == "" then quote == '\0' else open == [quote] && quote in {'"', '\''}
  }

  lemma {:induction false} SameEnd(c: char, open: string, quote: char, mode: AssignmentMode)
    requires Quotes(open, quote)
    ensures EndsHere(c, open, mode) <==> EndsWord(c, quote, mode)
  {
  }

  /** The first character of a word is the first one spelled, or the one behind a backslash. */
  lemma {:induction false} SpellsFirst(raw: string, word: string, open: string, quote: char, mode: AssignmentMode)
    returns (n: nat)
    requires raw != [] && Quotes(open, quote) && Spells(raw, word, open, mode)
    ensures n == (if raw[0] == '\\' then 2 else 1) && n <= |raw| && (n == 2 || !EndsWord(raw[0], quote, mode))
    ensures word != [] && word == [raw[n - 1]] + word[1..] && Spells(raw[n..], word[1..], open, mode)
  {
    n := if raw[0] == '\\' then 2 else 1;
    SameEnd(raw[0], open, quote, mode);
  }

  lemma {:induction false} TokenUnfolds(s: string, n: nat, quote: char, mode: AssignmentMode)
    requires s != [] && n == (if s[0] == '\\' then 2 else 1) && n <= |s|
    requires n == 2 || !EndsWord(s[0], quote, mode)
    ensures ReadToken(s, quote, mode) == Prepend([s[n - 1]], ReadToken(s[n..], quote, mode))
  {
  }

  lemma {:induction false} TokenIsSpelled(raw: string, word: string, rest: string, open: string, quote: char,
                                          mode: AssignmentMode)
    requires Quotes(open, quote) && Spells(raw, word, open, mode) && (rest == [] || EndsHere(rest[0], open, mode))
    ensures ReadToken(raw + rest, quote, mode) == Token(word, rest)
    decreases |raw|
  {
    if raw == [] {
      assert raw + rest == rest;
      if rest != [] {
        SameEnd(rest[0], open, quote, mode);
      }
    } else {
      var n := SpellsFirst(raw, word, open, quote, mode);
      TokenIsSpelled(raw[n..], word[1..], rest, open, quote, mode);
      DropOver(raw, rest, n);
      TokenUnfolds(raw + rest, n, quote, mode);
    }
  }

  lemma {:induction false} TokenDangles(raw: string, word: string, open: string, quote: char, mode: AssignmentMode)
    requires Quotes(open, quote) && Spells(raw, word, open, mode)
    ensures ReadToken(raw + "\\", quote, mode) == Dangling
    decreases |raw|
  {
    if raw == [] {
      assert raw + "\\" == "\\";
    } else {
      var n := SpellsFirst(raw, word, open, quote, mode);
      TokenDangles(raw[n..], word[1..], open, quote, mode);
      DropOver(raw, "\\", n);
      TokenUnfolds(raw + "\\", n, quote, mode);
    }
  }

  lemma {:induction false} SpellsMore(front: string, raw: string, word: string, open: string, mode: AssignmentMode)
    requires Spells(raw, word, open, mode)
    requires if |front| == 2 then front[0] == '\\'
             else |front| == 1 && front[0] != '\\' && !EndsHere(front[0], open, mode)
    ensures Spells(front + raw, [front[|front| - 1]] + word, open, mode)
  {
    assert (front + raw)[|front|..] == raw;
    assert ([front[|front| - 1]] + word)[1..] == word;
  }

  /** Conversely, the text is the word as it is spelled, and what is left; or a backslash is left at its end. */
  lemma {:induction false} TokenSpells(s: string, open: string, quote: char, mode: AssignmentMode)
    returns (raw: string, word: string)
    requires Quotes(open, quote)
    ensures Spells(raw, word, open, mode)
    ensures match ReadToken(s, quote, mode)
            case Token(read, rest) => read == word && s == raw + rest && (rest == [] || EndsHere(rest[0], open, mode))
            case Dangling => s == raw + "\\"
    decreases |s|
  {
    if s == [] || s == "\\" || (s[0] != '\\' && EndsHere(s[0], open, mode)) {
      raw, word := [], [];
    } else {
      var n := if s[0] == '\\' then 2 else 1;
      raw, word := TokenSpells(s[n..], open, quote, mode);
      SpellsMore(s[..n], raw, word, open, mode);
      TokenUnfolds(s, n, quote, mode);
      assert s == s[..n] + s[n..];
      var t := ReadToken(s[n..], quote, mode);
      AppendAssociates(s[..n], raw, if t.Token? then t.rest else "\\");
      raw, word := s[..n] + raw, [s[n - 1]] + word;
    }
  }

  // ----- what follows -----

  predicate PassedOver(c: char, newLine: bool) {
    c in BLANKS + SEPARATORS && !(newLine && c in SEPARATORS)
  }

  lemma {:induction false} TrailStep(s: string, newLine: bool)
    ensures s != [] && PassedOver(s[0], newLine) ==> Trail(s, newLine) == Trail(s[1..], newLine || s[0] in SEPARATORS)
    ensures s == [] || !PassedOver(s[0], newLine) ==>
              Trail(s, newLine).rest == s && Behind(if newLine then 1 else 0, s, Trail(s, newLine).more)
  {
  }

  lemma {:induction false} TrailPasses(gap: string, rest: string, newLine: bool, more: bool)
    requires Blank(gap) && Behind(Separators(gap) + if newLine then 1 else 0, rest, more)
    ensures Trail(gap + rest, newLine) == Trailer(rest, more)
  {
    TrailStep(gap + rest, newLine);
    if gap == [] {
      assert gap + rest == rest;
    } else {
      DropOver(gap, rest, 1);
      TrailPasses(gap[1..], rest, newLine || gap[0] in SEPARATORS, more);
    }
  }

  lemma {:induction false} SeparatorsOfOne(c: char)
    ensures Separators([c]) == if c in SEPARATORS then 1 else 0
  {
    assert [c][1..] == [];
  }

  lemma {:induction false} BlankStep(c: char, gap: string)
    requires c in BLANKS + SEPARATORS && Blank(gap)
    ensures Blank([c] + gap) && Separators([c] + gap) == Separators(gap) + if c in SEPARATORS then 1 else 0
  {
    assert ([c] + gap)[1..] == gap;
  }

  lemma {:induction false} TrailFinds(s: string, newLine: bool) returns (gap: string)
    ensures Blank(gap) && s == gap + Trail(s, newLine).rest
    ensures Behind(Separators(gap) + if newLine then 1 else 0, Trail(s, newLine).rest, Trail(s, newLine).more)
  {
    TrailStep(s, newLine);
    gap := [];
    if s != [] && PassedOver(s[0], newLine) {
      gap := TrailFinds(s[1..], newLine || s[0] in SEPARATORS);
      BlankStep(s[0], gap);
      AppendAssociates([s[0]], gap, Trail(s, newLine).rest);
      gap := [s[0]] + gap;
    }
  }

  // ----- one call -----

  function QuoteOf(open: string): char {
    if open == "" then '\0' else open[0]
  }

  lemma {:induction false} WordIsRead(x: Shape, word: string, rest: string, more: bool, mode: AssignmentMode)
    requires FitsBody(x.open + (x.raw + (x.end + (x.gap + rest))), mode, x, Word(word, rest, more))
    ensures ReadBody(x.raw + (x.end + (x.gap + rest)), QuoteOf(x.open), mode) == Word(word, rest, more)
  {
    var quote, after := QuoteOf(x.open), x.end + (x.gap + rest);
    TokenIsSpelled(x.raw, word, after, x.open, quote, mode);
    if x.end != "" {
      assert after[1..] == x.gap + rest && x.end == [x.end[0]];
      SeparatorsOfOne(x.end[0]);
      TrailPasses(x.gap, rest, x.end[0] in SEPARATORS, more);
    }
  }

  lemma {:induction false} BadWordIsRead(x: Shape, mode: AssignmentMode)
    requires Opens(x.open, x.raw) && NeverEnds(x.open, x.raw, mode)
    ensures ReadBody(x.raw, QuoteOf(x.open), mode) == BadWord
  {
    var quote := QuoteOf(x.open);
    if x.open != "" && Spelled(x.raw, x.open, mode) {
      var word :| Spells(x.raw, word, x.open, mode);
      TokenIsSpelled(x.raw, word, "", x.open, quote, mode);
      assert x.raw + "" == x.raw;
    } else {
      var word :| Spells(x.raw[..|x.raw| - 1], word, x.open, mode);
      TokenDangles(x.raw[..|x.raw| - 1], word, x.open, quote, mode);
      assert x.raw == x.raw[..|x.raw| - 1] + "\\";
    }
  }

  lemma {:induction false} WordStarts(s: string, open: string, body: string, mode: AssignmentMode, newLines: bool)
    requires StartsWord(s, mode, newLines) && s == open + body && Opens(open, body)
    ensures GetWord(s, mode, newLines) == ReadBody(body, QuoteOf(open), mode)
  {
    assert !IsSkipped(s[0], mode, newLines);
    if open == "" {
      assert body == s && !IsQuote(s[0]);
    } else {
      assert s[0] == open[0] && IsQuote(s[0]) && s[1..] == body;
    }
  }

  /** What is read behind the lead. */
  lemma {:induction false} BodyIsRead(s: string, mode: AssignmentMode, newLines: bool, x: Shape, r: WordResult)
    requires StartsWord(s, mode, newLines) && (r.Word? || r.BadWord?) && FitsBody(s, mode, x, r)
    ensures GetWord(s, mode, newLines) == r
  {
    match r
    case BadWord =>
      WordStarts(s, x.open, x.raw, mode, newLines);
      BadWordIsRead(x, mode);
    case Word(word, rest, more) =>
      var after := x.end + (x.gap + rest);
      assert x.raw + x.end != [] ==> (x.raw + after)[0] == (x.raw + x.end)[0];
      WordStarts(s, x.open, x.raw + after, mode, newLines);
      WordIsRead(x, word, rest, more, mode);
  }

  lemma {:induction false} CommentIsNotLeft(s: string)
    requires '\n' !in s
    ensures SkipComment(s).None?
  {
    if s != [] {
      CommentIsNotLeft(s[1..]);
    }
  }

  lemma {:induction false} FitIsRead(s: string, mode: AssignmentMode, newLines: bool, x: Shape, r: WordResult)
    requires Fits(s, mode, newLines, x, r)
    ensures GetWord(s, mode, newLines) == r
  {
    var t := s[|x.lead|..];
    assert s == x.lead + t;
    LeadMakesNoDifference(x.lead, t, mode, newLines);
    match r
    case NoWord(_) =>
    case OverrunWord => CommentIsNotLeft(t);
    case _ => BodyIsRead(t, mode, newLines, x, r);
  }

  // ----- every text -----

  /** What is skipped is the lead of the text, and what is left starts a word or ends a level; or it is a comment
      without a newline. */
  lemma {:induction false} SkippedIsLead(s: string, mode: AssignmentMode, newLines: bool)
    returns (lead: string, t: string)
    ensures s == lead + t && Lead(lead, mode, newLines, false)
    ensures match Skip(s, mode, newLines)
            case Some(rest) => rest == t && (t == [] || t[0] == '}' || StartsWord(t, mode, newLines))
            case None => newLines && t != [] && t[0] == '#' && '\n' !in t
    decreases |s|
  {
    if s == [] || !IsSkipped(s[0], mode, newLines) {
      lead, t := [], s;
    } else if s[0] == '#' {
      var comment := CommentIsLead(s, mode, newLines);
      if SkipComment(s).None? {
        lead, t := [], s;
      } else {
        lead, t := SkippedIsLead(SkipComment(s).value, mode, newLines);
        LeadsJoin(comment, lead, mode, newLines, false);
        AppendAssociates(comment, lead, t);
        lead := comment + lead;
      }
    } else {
      lead, t := SkippedIsLead(s[1..], mode, newLines);
      AppendAssociates([s[0]], lead, t);
      lead := [s[0]] + lead;
    }
  }

  lemma {:induction false} LeadsJoin(a: string, b: string, mode: AssignmentMode, newLines: bool, inComment: bool)
    requires Lead(a, mode, newLines, inComment) && Lead(b, mode, newLines, false)
    ensures Lead(a + b, mode, newLines, inComment)
  {
    if a == [] {
      assert a + b == b;
    } else {
      DropOver(a, b, 1);
      LeadsJoin(a[1..], b, mode, newLines, if inComment then a[0] != '\n' else newLines && a[0] == '#');
    }
  }

  lemma {:induction false} CommentIsLead(s: string, mode: AssignmentMode, newLines: bool) returns (comment: string)
    ensures match SkipComment(s)
            case Some(t) =>
              s == comment + t && Lead(comment, mode, newLines, true)
              && (newLines && s[0] == '#' ==> Lead(comment, mode, newLines, false))
            case None => '\n' !in s
  {
    if s != [] && s[0] != '\n' {
      comment := CommentIsLead(s[1..], mode, newLines);
      comment := [s[0]] + comment;
    } else {
      comment := s[..if s == [] then 0 else 1];
    }
  }

  lemma {:induction false} BodyFits(open: string, body: string, mode: AssignmentMode) returns (x: Shape)
    requires Opens(open, body)
    ensures x.lead == [] && FitsBody(open + body, mode, x, ReadBody(body, QuoteOf(open), mode))
  {
    var raw, word := TokenSpells(body, open, QuoteOf(open), mode);
    match ReadToken(body, QuoteOf(open), mode)
    case Dangling =>
      x := Shape([], open, body, [], []);
      DanglingFits(open, raw, word, mode);
    case Token(_, rest) =>
      if rest == [] {
        x := Shape([], open, raw, [], []);
        EndFits(open, raw, word, mode);
      } else {
        x := WordFits(open, raw, word, rest, mode);
      }
  }

  lemma {:induction false} DanglingFits(open: string, raw: string, word: string, mode: AssignmentMode)
    requires Opens(open, raw + "\\") && Spells(raw, word, open, mode)
    ensures FitsBody(open + (raw + "\\"), mode, Shape([], open, raw + "\\", [], []), BadWord)
  {
    assert (raw + "\\")[..|raw|] == raw;
  }

  lemma {:induction false} EndFits(open: string, raw: string, word: string, mode: AssignmentMode)
    requires Opens(open, raw) && Spells(raw, word, open, mode)
    ensures FitsBody(open + raw, mode, Shape([], open, raw, [], []),
                     if open == "" then Word(word, [], false) else BadWord)
  {
    assert raw + ([] + ([] + [])) == raw && raw + [] == raw;
  }

  lemma {:induction false} WordFits(open: string, raw: string, word: string, rest: string, mode: AssignmentMode)
    returns (x: Shape)
    requires rest != [] && EndsHere(rest[0], open, mode) && Opens(open, raw + rest) && Spells(raw, word, open, mode)
    ensures var t := Trail(rest[1..], IsParameterSeparator(rest[0]));
            x.lead == [] && FitsBody(open + (raw + rest), mode, x, Word(word, t.rest, t.more))
  {
    var gap := TrailFinds(rest[1..], rest[0] in SEPARATORS);
    x := Shape([], open, raw, [rest[0]], gap);
    SeparatorsOfOne(rest[0]);
    assert rest == [rest[0]] + rest[1..];
    assert (x.raw + x.end)[0] == (x.raw + rest)[0];
  }

  lemma {:induction false} EveryTextFits(s: string, mode: AssignmentMode, newLines: bool)
    ensures Reads(s, mode, newLines, GetWord(s, mode, newLines))
  {
    var lead, t := SkippedIsLead(s, mode, newLines);
    LeadMakesNoDifference(lead, t, mode, newLines);
    var x := Shape([], [], [], [], []);
    if StartsWord(t, mode, newLines) {
      var open := if t[0] in {'"', '\''} then [t[0]] else [];
      assert t == open + t[|open|..];
      WordStarts(t, open, t[|open|..], mode, newLines);
      x := BodyFits(open, t[|open|..], mode);
    }
    assert t == s[|lead|..];
    assert Fits(s, mode, newLines, x.(lead := lead), GetWord(s, mode, newLines));
  }

  /** A call yields `r` exactly if the text has parts that make it so. */
  lemma {:induction false} GetWordReads(s: string, mode: AssignmentMode, newLines: bool, r: WordResult)
    ensures GetWord(s, mode, newLines) == r <==> Reads(s, mode, newLines, r)
  {
    EveryTextFits(s, mode, newLines);
    if Reads(s, mode, newLines, r) {
      var x :| Fits(s, mode, newLines, x, r);
      FitIsRead(s, mode, newLines, x, r);
    }
  }
}
