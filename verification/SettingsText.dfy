/** The driver settings language, as values: what one call of `get_word` yields on the text that is
    left, and what the parser makes of a whole text.  A text is the C string without its terminating
    NUL, and every rest is a suffix of the text it came from. */
module SettingsText {
  import opened Options

  const MAX_SETTINGS_LEVEL := 8

  datatype AssignmentMode = NoAssignment | AllowAssignment | IgnoreAssignment

  /** `isspace` in the C locale: tab, newline, vertical tab, form feed, carriage return and space. */
  predicate IsSpace(c: char) {
    c == ' ' || '\t' <= c <= '\r'
  }

  predicate IsParameterSeparator(c: char) {
    c == '\n' || c == ';'
  }

  predicate IsWordBreak(c: char) {
    IsSpace(c) || IsParameterSeparator(c)
  }

  predicate IsQuote(c: char) {
    c == '"' || c == '\''
  }

  /** The characters skipped before a word. */
  predicate IsSkipped(c: char, mode: AssignmentMode, allowNewLine: bool) {
    || (allowNewLine && (IsWordBreak(c) || c == '#'))
    || (!allowNewLine && (c == '\t' || c == ' '))
    || (mode == AllowAssignment && c == '=')
  }

  /** The characters that end a word; `quote` is NUL for an unquoted word. */
  predicate EndsWord(c: char, quote: char, mode: AssignmentMode) {
    if quote == '\0' then IsWordBreak(c) || (mode != IgnoreAssignment && c == '=') else c == quote
  }

  lemma {:induction false} AppendAssociates<T>(a: seq<T>, b: seq<T>, c: seq<T>)
    ensures a + (b + c) == (a + b) + c
  {
  }

  lemma {:induction false} DropOver<T>(a: seq<T>, b: seq<T>, n: nat)
    requires n <= |a|
    ensures (a + b)[n..] == a[n..] + b
  {
  }

  // ----- one word -----

  /** The text behind the comment `s` starts in, or None when no newline ends the comment: the
      program then steps over the terminating NUL. */
  function SkipComment(s: string): (r: Option<string>)
    ensures r.Some? ==> |r.value| < |s|
  {
    if s == [] then None
    else if s[0] == '\n' then Some(s[1..])
    else SkipComment(s[1..])
  }

  function Skip(s: string, mode: AssignmentMode, allowNewLine: bool): (r: Option<string>)
    ensures r.Some? ==> |r.value| <= |s|
    ensures r.Some? && r.value != [] ==> !IsSkipped(r.value[0], mode, allowNewLine)
    decreases |s|
  {
    if s == [] || !IsSkipped(s[0], mode, allowNewLine) then Some(s)
    else if s[0] == '#' then
      match SkipComment(s)
      case None => None
      case Some(rest) => Skip(rest, mode, allowNewLine)
    else Skip(s[1..], mode, allowNewLine)
  }

  datatype Token = Token(word: string, rest: string) | Dangling

  function Prepend(prefix: string, t: Token): Token {
    match t
    case Dangling => Dangling
    case Token(word, rest) => Token(prefix + word, rest)
  }

  /** The unescaped word at the front of `s` and the text from the character that ended it on;
      Dangling when the text ends in the middle of an escape. */
  function ReadToken(s: string, quote: char, mode: AssignmentMode): (t: Token)
    ensures t.Token? ==> |t.rest| <= |s|
    ensures t.Token? && t.rest != [] ==> EndsWord(t.rest[0], quote, mode)
    ensures t.Token? ==> |t.word| <= |s| - |t.rest|
    decreases |s|
  {
    if s == [] then Token([], [])
    else if s[0] == '\\' then
      if |s| == 1 then Dangling else Prepend([s[1]], ReadToken(s[2..], quote, mode))
    else if EndsWord(s[0], quote, mode) then Token([], s)
    else Prepend([s[0]], ReadToken(s[1..], quote, mode))
  }

  datatype Trailer = Trailer(rest: string, more: bool)

  /** Looks behind a word for the next thing on the line; `more` announces another value. */
  function Trail(s: string, newLine: bool): (t: Trailer)
    ensures |t.rest| <= |s|
    ensures t.more ==> t.rest != [] && !IsWordBreak(t.rest[0]) && t.rest[0] !in {'{', '}', '#'}
    decreases |s|
  {
    if s == [] then Trailer(s, false)
    else if IsParameterSeparator(s[0]) then
      if newLine then Trailer(s, false) else Trail(s[1..], true)
    else if s[0] in {'{', '}', '#'} then Trailer(s, false)
    else if !IsSpace(s[0]) then Trailer(s, !newLine)
    else Trail(s[1..], newLine)
  }

  datatype WordResult =
    | NoWord(rest: string)
    | Word(word: string, rest: string, more: bool)
    | BadWord
    | OverrunWord

  function GetWord(s: string, mode: AssignmentMode, allowNewLine: bool): (r: WordResult)
    ensures r.NoWord? ==> |r.rest| <= |s| && (r.rest == [] || r.rest[0] == '}')
    ensures r.Word? ==> |r.rest| < |s| && (r.more ==> r.rest != [])
  {
    match Skip(s, mode, allowNewLine)
    case None => OverrunWord
    case Some(t) =>
      if t == [] || t[0] == '}' then NoWord(t)
      else
        var quote := if IsQuote(t[0]) then t[0] else '\0';
        var body := if IsQuote(t[0]) then t[1..] else t;
        ReadBody(body, quote, mode)
  }

  /** The word that starts right here, behind the opening quote if there is one. */
  function ReadBody(s: string, quote: char, mode: AssignmentMode): (r: WordResult)
    ensures !r.NoWord? && !r.OverrunWord?
    ensures r.Word? ==> |r.rest| <= |s| && (r.more ==> r.rest != [])
    ensures r.Word? && s != [] ==> |r.rest| < |s|
  {
    match ReadToken(s, quote, mode)
    case Dangling => BadWord
    case Token(word, rest) =>
      if rest == [] then
        if quote != '\0' then BadWord else Word(word, [], false)
      else
        var t := Trail(rest[1..], IsParameterSeparator(rest[0]));
        Word(word, t.rest, t.more)
  }

  // ----- parameters -----

  datatype Parameter = Parameter(name: string, values: seq<string>, parameters: seq<Parameter>)

  datatype Error = BadData | LinkLimit | GeneralError | Overrun

  datatype LineResult =
    | Line(name: string, values: seq<string>, rest: string)
    | NoLine(rest: string)
    | LineError(error: Error)

  /** The values behind a name.  A missing value (an assignment with nothing behind it) drops the
      whole parameter, as the status of the last word is the status of the line. */
  function ParseValues(s: string, name: string, values: seq<string>): (r: LineResult)
    ensures r.Line? ==> |r.rest| < |s| || (s == [] && r.rest == [])
    ensures r.NoLine? ==> |r.rest| <= |s| && (r.rest == [] || r.rest[0] == '}')
    ensures r.Line? ==> r.name == name && values < r.values
    decreases |s|
  {
    match GetWord(s, if values == [] then AllowAssignment else IgnoreAssignment, false)
    case OverrunWord => LineError(Overrun)
    case BadWord => LineError(BadData)
    case NoWord(rest) => NoLine(rest)
    case Word(word, rest, more) =>
      if more then ParseValues(rest, name, values + [word]) else Line(name, values + [word], rest)
  }

  function ParseLine(s: string): (r: LineResult)
    ensures r.Line? ==> |r.rest| < |s|
    ensures r.NoLine? ==> |r.rest| <= |s| && (r.rest == [] || r.rest[0] == '}')
  {
    match GetWord(s, NoAssignment, true)
    case OverrunWord => LineError(Overrun)
    case BadWord => LineError(BadData)
    case NoWord(rest) => NoLine(rest)
    case Word(word, rest, more) => if more then ParseValues(rest, word, []) else Line(word, [], rest)
  }

  datatype ParseResult =
    | Parsed(parameters: seq<Parameter>, rest: string)
    | Failed(error: Error)

  function Cons(p: Parameter, r: ParseResult): ParseResult {
    match r
    case Failed(_) => r
    case Parsed(ps, rest) => Parsed([p] + ps, rest)
  }

  /** One brace level, entered behind its opening brace (level 0: at the start of the text). */
  function ParseLevel(s: string, level: nat): (r: ParseResult)
    ensures r.Parsed? ==> |r.rest| <= |s|
    decreases |s|, 3
  {
    if level > MAX_SETTINGS_LEVEL then Failed(LinkLimit) else ParseParameters(s, level)
  }

  datatype BlockResult =
    | Block(parameter: Parameter, rest: string)
    | NoBlock(rest: string)
    | BlockError(error: Error)

  /** One parameter, with the level in braces behind it if there is one. */
  function ParseBlock(s: string, level: nat): (r: BlockResult)
    ensures r.Block? ==> |r.rest| < |s|
    ensures r.NoBlock? ==> |r.rest| <= |s| && LevelEnds(r.rest)
    decreases |s|, 1
  {
    match ParseLine(s)
    case LineError(e) => BlockError(e)
    case NoLine(rest) => NoBlock(rest)
    case Line(name, values, rest) =>
      if rest != [] && rest[0] == '{' then
        match ParseLevel(rest[1..], level + 1)
        case Failed(e) => BlockError(e)
        case Parsed(ps, rest') => Block(Parameter(name, values, ps), rest')
      else
        Block(Parameter(name, values, []), rest)
  }

  function ParseParameters(s: string, level: nat): (r: ParseResult)
    ensures r.Parsed? ==> |r.rest| <= |s|
    decreases |s|, 2
  {
    match ParseBlock(s, level)
    case BlockError(e) => Failed(e)
    case NoBlock(rest) => CloseLevel(rest, level)
    case Block(p, rest) => Cons(p, Continue(rest, level))
  }

  predicate LevelEnds(s: string) {
    s == [] || s[0] == '}'
  }

  /** The end of a level: a closing brace below level 0, the end of the text on level 0. */
  function CloseLevel(s: string, level: nat): (r: ParseResult)
    requires LevelEnds(s)
    ensures r.Parsed? ==> |r.rest| <= |s| && r.parameters == []
  {
    if s != [] && level > 0 then Parsed([], s[1..])
    else if s == [] && level == 0 then Parsed([], [])
    else Failed(GeneralError)
  }

  function Continue(s: string, level: nat): (r: ParseResult)
    ensures r.Parsed? ==> |r.rest| <= |s|
    decreases |s|, 4
  {
    if LevelEnds(s) then CloseLevel(s, level) else ParseParameters(s, level)
  }

  /** `parse_settings` on a text. */
  function ParseText(s: string): ParseResult {
    ParseLevel(s, 0)
  }
}
