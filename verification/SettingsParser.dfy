/** The parser as it runs: it overwrites the text buffer in place, and names and values are
    pointers into that buffer.  Every method is proved against the value-level `SettingsText`. */
module SettingsParser {
  import opened Options
  import opened SettingsText

  const NULL := -1

  datatype Status = Ok | ContinueParameter | NoParameter | Failure(error: Error)

  /** From `pos` on, the buffer holds untouched text up to the terminating NUL at `end`. */
  ghost predicate TextAt(buffer: array<char>, pos: nat, end: nat)
    reads buffer
  {
    && pos <= end < buffer.Length
    && buffer[end] == '\0'
    && forall i :: pos <= i < end ==> buffer[i] != '\0'
  }

  /** `strcpy` from `at` would copy exactly `word`. */
  ghost predicate WordAt(s: seq<char>, at: int, word: string) {
    && 0 <= at
    && at + |word| < |s|
    && (forall i :: at <= i < at + |word| ==> s[i] == word[i - at])
    && s[at + |word|] == '\0'
    && '\0' !in word
  }

  /** The word at `at` is out of reach of a parser that goes on at `pos`. */
  ghost predicate Settled(at: int, word: string, pos: nat, end: nat) {
    at + |word| < pos || (pos == end && at + |word| == end)
  }

  /** Nothing but `[from..to)` has changed. */
  twostate predicate OnlyChanged(buffer: array<char>, from: nat, to: nat)
    reads buffer
  {
    forall i :: 0 <= i < buffer.Length && !(from <= i < to) ==> buffer[i] == old(buffer[i])
  }

  // ----- get_word, phase by phase -----

  /** The loop over a comment, up to its newline. */
  method SkipToNewLine(buffer: array<char>, start: nat, ghost end: nat) returns (pos: nat)
    requires TextAt(buffer, start, end)
    ensures start <= pos <= end
    ensures match SkipComment(buffer[start..end])
      case None => buffer[pos] == '\0'
      case Some(rest) => buffer[pos] == '\n' && rest == buffer[pos + 1..end]
  {
    pos := start;
    while buffer[pos] != '\0' && buffer[pos] != '\n'
      invariant start <= pos <= end
      invariant SkipComment(buffer[start..end]) == SkipComment(buffer[pos..end])
      decreases end - pos
    {
      assert buffer[pos..end][1..] == buffer[pos + 1..end];
      pos := pos + 1;
    }
    assert pos < end ==> buffer[pos..end][1..] == buffer[pos + 1..end];
  }

  method SkipBlanks(buffer: array<char>, start: nat, mode: AssignmentMode, allowNewLine: bool, ghost end: nat)
    returns (pos: nat, overrun: bool)
    requires TextAt(buffer, start, end)
    ensures match Skip(buffer[start..end], mode, allowNewLine)
      case None => overrun
      case Some(rest) => !overrun && start <= pos <= end && rest == buffer[pos..end]
  {
    pos := start;
    while buffer[pos] != '\0' && IsSkipped(buffer[pos], mode, allowNewLine)
      invariant start <= pos <= end
      invariant Skip(buffer[start..end], mode, allowNewLine) == Skip(buffer[pos..end], mode, allowNewLine)
      decreases end - pos
    {
      assert buffer[pos..end][1..] == buffer[pos + 1..end];
      if buffer[pos] == '#' {
        pos := SkipToNewLine(buffer, pos, end);
        if buffer[pos] == '\0' {
          return pos, true;
        }
      }
      pos := pos + 1;
    }
    overrun := false;
  }

  /** The place in a text at which the token from `at` on ends, or None when it is dangling. */
  ghost function TokenEnd(s: string, at: nat, quote: char, mode: AssignmentMode): (r: Option<nat>)
    requires at <= |s|
    ensures r.Some? ==> at <= r.value <= |s|
    decreases |s| - at
  {
    if at == |s| then Some(at)
    else if s[at] == '\\' then if at + 1 == |s| then None else TokenEnd(s, at + 2, quote, mode)
    else if EndsWord(s[at], quote, mode) then Some(at)
    else TokenEnd(s, at + 1, quote, mode)
  }

  lemma {:induction false} TokenEndsThere(s: string, at: nat, quote: char, mode: AssignmentMode)
    requires at <= |s|
    ensures match ReadToken(s[at..], quote, mode)
      case Dangling => TokenEnd(s, at, quote, mode).None?
      case Token(_, rest) =>
        TokenEnd(s, at, quote, mode) == Some(|s| - |rest|) && rest == s[|s| - |rest|..]
    decreases |s| - at
  {
    if at + 1 < |s| && s[at] == '\\' {
      TokenEndsThere(s, at + 2, quote, mode);
      assert s[at..][2..] == s[at + 2..];
    } else if at < |s| && s[at] != '\\' && !EndsWord(s[at], quote, mode) {
      TokenEndsThere(s, at + 1, quote, mode);
      assert s[at..][1..] == s[at + 1..];
    }
  }

  method ScanWord(buffer: array<char>, start: nat, quote: char, mode: AssignmentMode, ghost end: nat)
    returns (pos: nat, escaped: nat, charEscaped: bool)
    requires TextAt(buffer, start, end)
    ensures start <= pos <= end
    ensures match ReadToken(buffer[start..end], quote, mode)
      case Dangling => pos == end && charEscaped
      case Token(word, rest) => !charEscaped && rest == buffer[pos..end]
    ensures escaped == 0 ==> forall i :: start <= i < pos ==> buffer[i] != '\\'
  {
    ghost var s := buffer[..end];
    assert s[start..] == buffer[start..end];
    TokenEndsThere(s, start, quote, mode);
    pos, escaped, charEscaped := ScanTo(buffer, start, quote, mode, end, s);
    assert s[pos..] == buffer[pos..end];
  }

  /** The loop of it. */
  method ScanTo(buffer: array<char>, start: nat, quote: char, mode: AssignmentMode, ghost end: nat, ghost s: string)
    returns (pos: nat, escaped: nat, charEscaped: bool)
    requires TextAt(buffer, start, end) && s == buffer[..end]
    ensures start <= pos <= end
    ensures match TokenEnd(s, start, quote, mode)
      case None => pos == end && charEscaped
      case Some(place) => pos == place && !charEscaped
    ensures escaped == 0 ==> forall i :: start <= i < pos ==> buffer[i] != '\\'
  {
    pos, escaped, charEscaped := start, 0, false;
    while buffer[pos] != '\0'
      invariant start <= pos <= end && (charEscaped ==> start < pos && s[pos - 1] == '\\')
      invariant TokenEnd(s, start, quote, mode) == TokenEnd(s, if charEscaped then pos - 1 else pos, quote, mode)
      invariant escaped == 0 ==> !charEscaped && forall i :: start <= i < pos ==> buffer[i] != '\\'
      decreases end - pos
    {
      if charEscaped {
        charEscaped := false;
      } else if buffer[pos] == '\\' {
        charEscaped := true;
        escaped := escaped + 1;
      } else if EndsWord(buffer[pos], quote, mode) {
        break;
      }
      pos := pos + 1;
    }
  }

  /** What is left of a raw word once every backslash that escapes a character is dropped. */
  function Unescape(raw: string): (word: string)
    ensures |word| <= |raw|
  {
    if raw == [] then []
    else if raw[0] == '\\' && |raw| > 1 then [raw[1]] + Unescape(raw[2..])
    else [raw[0]] + Unescape(raw[1..])
  }

  /** No backslash of `raw` is left without a character to escape. */
  predicate Complete(raw: string) {
    if raw == [] then true
    else if raw[0] == '\\' then |raw| > 1 && Complete(raw[2..])
    else Complete(raw[1..])
  }

  lemma {:induction false} TokenIsUnescapedText(s: string, quote: char, mode: AssignmentMode)
    requires ReadToken(s, quote, mode).Token?
    ensures var t := ReadToken(s, quote, mode);
            var raw := s[..|s| - |t.rest|];
            Complete(raw) && t.word == Unescape(raw)
    decreases |s|
  {
    if s != [] && (s[0] == '\\' || !EndsWord(s[0], quote, mode)) {
      var n, k := if s[0] == '\\' then 2 else 1, |s| - |ReadToken(s, quote, mode).rest|;
      TokenIsUnescapedText(s[n..], quote, mode);
      TakeDrop(s, k, n);
      UnescapeStep(s[..k], n);
    }
  }

  lemma {:induction false} UnescapeStep(raw: string, n: nat)
    requires raw != [] && n == (if raw[0] == '\\' then 2 else 1) && n <= |raw|
    ensures Unescape(raw) == [raw[n - 1]] + Unescape(raw[n..]) && (Complete(raw) <==> Complete(raw[n..]))
  {
  }

  lemma {:induction false} TakeDrop<T>(s: seq<T>, k: nat, j: nat)
    requires j <= k <= |s|
    ensures s[..k][j..] == s[j..][..k - j]
  {
  }

  /** Where the character that starts at a place is found: behind the backslash that escapes it, if there is one. */
  function Source(s: seq<char>, at: nat): nat {
    if at < |s| && s[at] == '\\' then at + 1 else at
  }

  lemma {:induction false} RawStep(s: seq<char>, start: nat, pos: nat)
    requires start < pos < |s| && Complete(s[start..pos])
    ensures var from := Source(s, start);
            && from < pos && Complete(s[from + 1..pos])
            && Unescape(s[start..pos]) == [s[from]] + Unescape(s[from + 1..pos])
  {
    var raw := s[start..pos];
    assert raw[0] == s[start] && raw[1..] == s[start + 1..pos] && (raw[0] == '\\' ==> raw[2..] == s[start + 2..pos]);
  }

  lemma {:induction false} NothingToUnescape(raw: string)
    requires forall i :: 0 <= i < |raw| ==> raw[i] != '\\'
    ensures Unescape(raw) == raw
  {
    if raw != [] {
      NothingToUnescape(raw[1..]);
    }
  }

  /** Between two rounds of the loop: `done` characters of the word stand at its start, and the buffer from `word` on,
      as it was, holds the others.  In the last round the NUL moves. */
  ghost predicate Moving(s: seq<char>, now: seq<char>, start: nat, pos: nat, word: nat, all: string, done: nat) {
    && |now| == |s| && pos < |s| && now[pos] == s[pos] == '\0' && done <= |all| && start + done <= word <= pos + 1
    && (forall i :: 0 <= i < |s| && (i < start || word <= i) ==> now[i] == s[i])
    && (forall i :: start <= i < start + done ==> now[i] == all[i - start])
    && if word <= pos then Complete(s[word..pos]) && Unescape(s[word..pos]) == all[done..]
       else done == |all| && start + done <= pos && now[start + done] == '\0'
  }

  lemma {:induction false} OneMoved(s: seq<char>, now: seq<char>, start: nat, pos: nat, word: nat, all: string,
                                    done: nat)
    requires Moving(s, now, start, pos, word, all, done) && word <= pos
    ensures var from := Source(now, word);
            && from <= pos
            && Moving(s, now[start + done := now[from]], start, pos, from + 1, all,
                      if word < pos then done + 1 else done)
  {
    if word < pos {
      RawStep(s, word, pos);
      assert all[done] == s[Source(s, word)] && all[done + 1..] == Unescape(s[Source(s, word) + 1..pos]);
    }
  }

  /** Moves the characters of the word `[start..pos)` and its NUL down over the backslashes. */
  method RemoveEscapes(buffer: array<char>, start: nat, pos: nat)
    requires start <= pos < buffer.Length && buffer[pos] == '\0'
    requires Complete(buffer[start..pos])
    modifies buffer
    ensures OnlyChanged(buffer, start, pos)
    ensures var w := Unescape(old(buffer[start..pos]));
            forall i :: start <= i < start + |w| ==> buffer[i] == w[i - start]
    ensures buffer[start + |Unescape(old(buffer[start..pos]))|] == '\0'
  {
    ghost var s := buffer[..];
    assert s[start..pos] == buffer[start..pos];
    MoveWord(buffer, start, pos, Unescape(s[start..pos]));
  }

  /** The loop of it. */
  method MoveWord(buffer: array<char>, start: nat, pos: nat, ghost all: string)
    requires Moving(buffer[..], buffer[..], start, pos, start, all, 0) && start <= pos
    modifies buffer
    ensures Moving(old(buffer[..]), buffer[..], start, pos, pos + 1, all, |all|)
  {
    ghost var s, done: nat := buffer[..], 0;
    var word: nat, offset := start, 0;
    while word <= pos
      invariant Moving(s, buffer[..], start, pos, word, all, done)
      invariant offset <= 0 && (word <= pos ==> word + offset == start + done)
    {
      ghost var before, from := buffer[..], Source(buffer[..], word);
      OneMoved(s, before, start, pos, word, all, done);
      ghost var done' := if word < pos then done + 1 else done;
      word, offset := MoveDown(buffer, word, offset);
      assert word == from + 1 && buffer[..] == before[start + done := before[from]];
      done := done';
    }
  }

  /** Moves one character down, and steps over the backslash in front of it. */
  method MoveDown(buffer: array<char>, at: nat, shift: int) returns (word: nat, offset: int)
    requires 0 <= at + shift && shift <= 0
    requires at < buffer.Length && (buffer[at] == '\\' ==> at + 1 < buffer.Length)
    modifies buffer
    ensures var from := Source(old(buffer[..]), at);
            && word == from + 1 && word + offset == at + shift + 1
            && buffer[..] == old(buffer[..])[at + shift := old(buffer[..])[from]]
  {
    word, offset := at, shift;
    if buffer[word] == '\\' {
      offset := offset - 1;
      word := word + 1;
    }
    buffer[word + offset] := buffer[word];
    word := word + 1;
  }

  method FindNext(buffer: array<char>, start: nat, startsLine: bool, ghost end: nat)
    returns (pos: nat, status: Status)
    requires TextAt(buffer, start, end)
    ensures start <= pos <= end
    ensures var t := Trail(buffer[start..end], startsLine);
            t.rest == buffer[pos..end] && status == (if t.more then ContinueParameter else Ok)
  {
    pos := start;
    var newLine := startsLine;
    while true
      invariant start <= pos <= end
      invariant Trail(buffer[start..end], startsLine) == Trail(buffer[pos..end], newLine)
      decreases end - pos
    {
      if buffer[pos] == '\0' {
        return pos, Ok;
      }
      if IsParameterSeparator(buffer[pos]) {
        if newLine {
          return pos, Ok;
        }
        newLine := true;
      } else if buffer[pos] == '{' || buffer[pos] == '}' || buffer[pos] == '#' {
        return pos, Ok;
      } else if !IsSpace(buffer[pos]) {
        return pos, if newLine then Ok else ContinueParameter;
      }
      assert buffer[pos..end][1..] == buffer[pos + 1..end];
      pos := pos + 1;
    }
  }

  /** The buffer after a word has been read: the word at `word`, `rest` untouched behind `pos`. */
  twostate predicate WordRead(buffer: array<char>, word: int, w: string, rest: string, pos: nat, end: nat)
    reads buffer
  {
    && 0 <= word && OnlyChanged(buffer, word, pos)
    && TextAt(buffer, pos, end) && rest == buffer[pos..end]
    && WordAt(buffer[..], word, w) && Settled(word, w, pos, end)
  }

  /** Cuts the raw word `[word..pos)` off with a NUL and unescapes it. */
  method TerminateWord(buffer: array<char>, word: nat, pos: nat, escaped: nat, ghost end: nat)
    requires word <= pos && TextAt(buffer, pos, end)
    requires Complete(buffer[word..pos]) && '\0' !in Unescape(buffer[word..pos])
    requires escaped == 0 ==> forall i :: word <= i < pos ==> buffer[i] != '\\'
    modifies buffer
    ensures OnlyChanged(buffer, word, pos + 1)
    ensures buffer[pos] == '\0'
    ensures pos < end ==> TextAt(buffer, pos + 1, end)
    ensures WordAt(buffer[..], word, Unescape(old(buffer[word..pos])))
  {
    buffer[pos] := '\0';
    assert buffer[word..pos] == old(buffer[word..pos]);
    if escaped > 0 {
      RemoveEscapes(buffer, word, pos);
    } else {
      NothingToUnescape(buffer[word..pos]);
    }
  }

  /** Ends the raw word `[word..pos)` and looks for what comes behind it. */
  method FinishWord(buffer: array<char>, word: nat, pos: nat, escaped: nat, ghost w: string, ghost rest: string,
                    ghost end: nat)
    returns (status: Status, next: nat)
    requires TextAt(buffer, pos, end) && word <= pos && rest == buffer[pos..end]
    requires Complete(buffer[word..pos]) && w == Unescape(buffer[word..pos]) && '\0' !in w
    requires escaped == 0 ==> forall i :: word <= i < pos ==> buffer[i] != '\\'
    modifies buffer
    ensures word <= next <= end
    ensures rest == [] ==> status == Ok && WordRead(buffer, word, w, [], next, end)
    ensures rest != [] ==>
      var t := Trail(rest[1..], IsParameterSeparator(rest[0]));
      status == (if t.more then ContinueParameter else Ok) && WordRead(buffer, word, w, t.rest, next, end)
  {
    var isEnd := buffer[pos] == '\0';
    var newLine := IsParameterSeparator(buffer[pos]) || isEnd;
    TerminateWord(buffer, word, pos, escaped, end);
    if isEnd {
      return Ok, pos;
    }
    assert buffer[pos + 1..end] == rest[1..];
    next, status := FindNext(buffer, pos + 1, newLine, end);
  }

  /** The part of `get_word` from the first character of the word on. */
  method TakeWord(buffer: array<char>, word: nat, quoted: char, mode: AssignmentMode, ghost end: nat)
    returns (status: Status, pos: nat)
    requires TextAt(buffer, word, end)
    modifies buffer
    ensures match ReadBody(old(buffer[word..end]), quoted, mode)
      case Word(w, rest, more) =>
        && word <= pos <= end
        && status == (if more then ContinueParameter else Ok)
        && WordRead(buffer, word, w, rest, pos, end)
      case _ => status == Failure(BadData) && pos == word && buffer[..] == old(buffer[..])
  {
    var escaped, charEscaped;
    pos, escaped, charEscaped := ScanWord(buffer, word, quoted, mode, end);
    if (quoted != '\0' && buffer[pos] != quoted) || charEscaped {
      return Failure(BadData), word;
    }
    RawWord(buffer[word..end], pos - word, quoted, mode);
    assert buffer[word..end][..pos - word] == buffer[word..pos];
    status, pos := FinishWord(buffer, word, pos, escaped, Unescape(buffer[word..pos]), buffer[pos..end], end);
  }

  /** The first `n` characters are the raw word. */
  lemma {:induction false} RawWord(s: string, n: nat, quoted: char, mode: AssignmentMode)
    requires n <= |s| && '\0' !in s && ReadToken(s, quoted, mode).Token?
    requires |ReadToken(s, quoted, mode).rest| == |s| - n
    ensures Complete(s[..n]) && ReadToken(s, quoted, mode).word == Unescape(s[..n]) && '\0' !in Unescape(s[..n])
  {
    TokenIsUnescapedText(s, quoted, mode);
    UnescapeKeepsNoNul(s[..n]);
  }

  lemma {:induction false} UnescapeKeepsNoNul(raw: string)
    requires '\0' !in raw
    ensures '\0' !in Unescape(raw)
  {
    if raw != [] {
      UnescapeKeepsNoNul(if raw[0] == '\\' && |raw| > 1 then raw[2..] else raw[1..]);
    }
  }

  /** What `get_word` makes of the text behind what it has skipped. */
  function WordFrom(t: string, mode: AssignmentMode): WordResult {
    if t == [] || t[0] == '}' then NoWord(t)
    else if IsQuote(t[0]) then ReadBody(t[1..], t[0], mode)
    else ReadBody(t, '\0', mode)
  }

  lemma {:induction false} WordBehindBlanks(s: string, mode: AssignmentMode, allowNewLine: bool)
    ensures var skipped := Skip(s, mode, allowNewLine);
            GetWord(s, mode, allowNewLine) == if skipped.None? then OverrunWord else WordFrom(skipped.value, mode)
  {
  }

  /** The part of `get_word` behind what it skips. */
  method ReadFrom(buffer: array<char>, start: nat, mode: AssignmentMode, ghost end: nat)
    returns (status: Status, pos: nat, word: int)
    requires TextAt(buffer, start, end)
    modifies buffer
    ensures match WordFrom(old(buffer[start..end]), mode)
      case NoWord(rest) =>
        && start <= pos <= end && status == NoParameter && rest == buffer[pos..end]
        && word == NULL && buffer[..] == old(buffer[..])
      case Word(w, rest, more) =>
        && start <= word <= pos <= end && status == (if more then ContinueParameter else Ok)
        && WordRead(buffer, word, w, rest, pos, end)
      case _ => status == Failure(BadData) && buffer[..] == old(buffer[..])
  {
    pos := start;
    if buffer[pos] == '}' || buffer[pos] == '\0' {
      return NoParameter, pos, NULL;
    }
    assert buffer[pos..end][1..] == buffer[pos + 1..end];
    var quoted := '\0';
    if buffer[pos] == '"' || buffer[pos] == '\'' {
      quoted := buffer[pos];
      pos := pos + 1;
    }
    word := pos;
    status, pos := TakeWord(buffer, word, quoted, mode, end);
  }

  /** `get_word`.  The word is left in the buffer behind the place the call started at, the text
      behind the new position is untouched, and so is everything before the old one. */
  method ReadWord(buffer: array<char>, start: nat, mode: AssignmentMode, allowNewLine: bool, ghost end: nat)
    returns (status: Status, pos: nat, word: int)
    requires TextAt(buffer, start, end)
    modifies buffer
    ensures match GetWord(old(buffer[start..end]), mode, allowNewLine)
      case NoWord(rest) =>
        && start <= pos <= end && status == NoParameter && rest == buffer[pos..end]
        && word == NULL && buffer[..] == old(buffer[..])
      case Word(w, rest, more) =>
        && start <= word <= pos <= end && status == (if more then ContinueParameter else Ok)
        && WordRead(buffer, word, w, rest, pos, end)
      case BadWord => status == Failure(BadData) && pos == start && buffer[..] == old(buffer[..])
      case OverrunWord => status == Failure(Overrun) && pos == start && buffer[..] == old(buffer[..])
  {
    WordBehindBlanks(buffer[start..end], mode, allowNewLine);
    var overrun;
    pos, overrun := SkipBlanks(buffer, start, mode, allowNewLine, end);
    if overrun {
      return Failure(Overrun), start, NULL;
    }
    status, pos, word := ReadFrom(buffer, pos, mode, end);
    if status.Failure? {
      pos := start;
    }
  }

  // ----- parameters -----

  /** `struct driver_parameter`: pointers into the buffer, and the nested parameters. */
  datatype Node = Node(name: int, values: seq<int>, parameters: seq<Node>)

  ghost predicate WordHeld(s: seq<char>, at: int, word: string, pos: nat, end: nat) {
    WordAt(s, at, word) && Settled(at, word, pos, end)
  }

  ghost predicate ValuesHeld(s: seq<char>, values: seq<int>, words: seq<string>, pos: nat, end: nat) {
    && |values| == |words|
    && forall i :: 0 <= i < |values| ==> WordHeld(s, values[i], words[i], pos, end)
  }

  /** The node's pointers read back as the parameter, and a parser that goes on at `pos` will not
      touch any of it. */
  ghost predicate NodeHeld(s: seq<char>, node: Node, p: Parameter, pos: nat, end: nat)
    decreases node
  {
    && WordHeld(s, node.name, p.name, pos, end)
    && ValuesHeld(s, node.values, p.values, pos, end)
    && NodesHeld(s, node.parameters, p.parameters, pos, end)
  }

  ghost predicate NodesHeld(s: seq<char>, nodes: seq<Node>, ps: seq<Parameter>, pos: nat, end: nat)
    decreases nodes
  {
    && |nodes| == |ps|
    && forall i :: 0 <= i < |nodes| ==> NodeHeld(s, nodes[i], ps[i], pos, end)
  }

  /** Two states of the buffer that differ at most in `[from..to)`. */
  ghost predicate Agree(s: seq<char>, t: seq<char>, from: nat, to: nat) {
    && |s| == |t|
    && forall i :: 0 <= i < |s| && !(from <= i < to) ==> s[i] == t[i]
  }

  lemma {:induction false} NodesStay(s: seq<char>, t: seq<char>, nodes: seq<Node>, ps: seq<Parameter>,
                                     pos: nat, pos': nat, end: nat)
    requires NodesHeld(s, nodes, ps, pos, end)
    requires pos <= pos' <= end < |s| && Agree(s, t, pos, pos')
    ensures NodesHeld(t, nodes, ps, pos', end)
    decreases nodes
  {
    forall i | 0 <= i < |nodes| ensures NodeHeld(t, nodes[i], ps[i], pos', end) {
      NodesStay(s, t, nodes[i].parameters, ps[i].parameters, pos, pos', end);
    }
  }

  lemma {:induction false} WordStays(s: seq<char>, t: seq<char>, at: int, w: string, pos: nat, pos': nat, end: nat)
    requires WordHeld(s, at, w, pos, end)
    requires pos <= pos' <= end < |s| && Agree(s, t, pos, pos')
    ensures WordHeld(t, at, w, pos', end)
  {
  }

  lemma {:induction false} ValuesStay(s: seq<char>, t: seq<char>, values: seq<int>, words: seq<string>,
                   pos: nat, pos': nat, end: nat)
    requires ValuesHeld(s, values, words, pos, end)
    requires pos <= pos' <= end < |s| && Agree(s, t, pos, pos')
    ensures ValuesHeld(t, values, words, pos', end)
  {
    forall i | 0 <= i < |values| ensures WordHeld(t, values[i], words[i], pos', end) {
      WordStays(s, t, values[i], words[i], pos, pos', end);
    }
  }

  lemma {:induction false} LineStays(before: seq<char>, now: seq<char>, name: int, w: string, values: seq<int>,
                                     words: seq<string>, at: nat, pos: nat, end: nat)
    requires at <= pos <= end < |before| && Agree(before, now, at, pos)
    requires WordHeld(before, name, w, at, end) && ValuesHeld(before, values, words, at, end)
    ensures WordHeld(now, name, w, pos, end) && ValuesHeld(now, values, words, pos, end)
  {
    WordStays(before, now, name, w, at, pos, end);
    ValuesStay(before, now, values, words, at, pos, end);
  }

  /** The loop of `parse_parameter`, entered when a value follows the name. */
  method ReadValues(buffer: array<char>, start: nat, name: int, ghost w: string, ghost end: nat)
    returns (status: Status, pos: nat, values: seq<int>)
    requires TextAt(buffer, start, end) && WordHeld(buffer[..], name, w, start, end)
    modifies buffer
    ensures start <= pos <= end && TextAt(buffer, pos, end) && OnlyChanged(buffer, start, pos)
    ensures match ParseValues(old(buffer[start..end]), w, [])
      case Line(_, words, rest) =>
        && status == Ok && rest == buffer[pos..end]
        && WordHeld(buffer[..], name, w, pos, end) && ValuesHeld(buffer[..], values, words, pos, end)
      case NoLine(rest) => status == NoParameter && rest == buffer[pos..end]
      case LineError(e) => status == Failure(e)
  {
    ghost var line, words: seq<string> := ParseValues(buffer[start..end], w, []), [];
    status, pos, values := ContinueParameter, start, [];
    while status == ContinueParameter
      invariant start <= pos <= end && TextAt(buffer, pos, end) && OnlyChanged(buffer, start, pos)
      invariant LineSoFar(line, status, w, words, buffer[pos..end])
      invariant status == ContinueParameter || status == Ok ==>
        WordHeld(buffer[..], name, w, pos, end) && ValuesHeld(buffer[..], values, words, pos, end)
      decreases end - pos, status == ContinueParameter
    {
      status, pos, values, words := ReadValue(buffer, pos, name, w, values, words, line, end);
    }
  }

  /** What the status of the last word says about the line. */
  ghost predicate LineSoFar(line: LineResult, status: Status, w: string, words: seq<string>, rest: string) {
    match status
    case ContinueParameter => line == ParseValues(rest, w, words)
    case Ok => line == Line(w, words, rest)
    case NoParameter => line == NoLine(rest)
    case Failure(e) => line == LineError(e)
  }

  /** One round of that loop. */
  method ReadValue(buffer: array<char>, start: nat, name: int, ghost w: string, values: seq<int>,
                   ghost words: seq<string>, ghost line: LineResult, ghost end: nat)
    returns (status: Status, pos: nat, values': seq<int>, ghost words': seq<string>)
    requires TextAt(buffer, start, end) && LineSoFar(line, ContinueParameter, w, words, buffer[start..end])
    requires WordHeld(buffer[..], name, w, start, end) && ValuesHeld(buffer[..], values, words, start, end)
    modifies buffer
    ensures start <= pos <= end && TextAt(buffer, pos, end) && OnlyChanged(buffer, start, pos)
    ensures LineSoFar(line, status, w, words', buffer[pos..end])
    ensures status == ContinueParameter ==> start < pos
    ensures status == ContinueParameter || status == Ok ==>
      WordHeld(buffer[..], name, w, pos, end) && ValuesHeld(buffer[..], values', words', pos, end)
  {
    ghost var before := buffer[..];
    var mode := if |values| == 0 then AllowAssignment else IgnoreAssignment;
    ghost var step := GetWord(buffer[start..end], mode, false);
    var value;
    status, pos, value := ReadWord(buffer, start, mode, false, end);
    values', words' := values + [value], words;
    if step.Word? {
      assert Agree(before, buffer[..], start, pos);
      LineStays(before, buffer[..], name, w, values, words, start, pos, end);
      words' := words + [step.word];
    }
  }

  /** `parse_parameter`: a name and its values. */
  method ReadLine(buffer: array<char>, start: nat, ghost end: nat)
    returns (status: Status, pos: nat, node: Node)
    requires TextAt(buffer, start, end)
    modifies buffer
    ensures start <= pos <= end && TextAt(buffer, pos, end) && OnlyChanged(buffer, start, pos)
    ensures match ParseLine(old(buffer[start..end]))
      case Line(name, values, rest) =>
        && status == Ok && rest == buffer[pos..end]
        && NodeHeld(buffer[..], node, Parameter(name, values, []), pos, end)
      case NoLine(rest) => status == NoParameter && rest == buffer[pos..end]
      case LineError(e) => status == Failure(e)
  {
    ghost var first := GetWord(buffer[start..end], NoAssignment, true);
    var name;
    status, pos, name := ReadWord(buffer, start, NoAssignment, true, end);
    var values: seq<int> := [];
    if status == ContinueParameter {
      status, pos, values := ReadValues(buffer, pos, name, first.word, end);
    }
    node := Node(name, values, []);
  }

  function PrependAll(ps: seq<Parameter>, r: ParseResult): ParseResult {
    match r
    case Failed(_) => r
    case Parsed(qs, rest) => Parsed(ps + qs, rest)
  }

  lemma {:induction false} PrependOneMore(ps: seq<Parameter>, p: Parameter, r: ParseResult)
    ensures PrependAll(ps, Cons(p, r)) == PrependAll(ps + [p], r)
  {
    if r.Parsed? {
      assert ps + ([p] + r.parameters) == (ps + [p]) + r.parameters;
    }
  }

  lemma {:induction false} NothingMore(ps: seq<Parameter>, s: string, level: nat)
    requires LevelEnds(s)
    ensures PrependAll(ps, CloseLevel(s, level)) ==
            if s != [] && level > 0 then Parsed(ps, s[1..])
            else if s == [] && level == 0 then Parsed(ps, [])
            else Failed(GeneralError)
  {
    assert ps + [] == ps;
  }

  /** What a level has come to: its nodes so far, and the untouched text from `pos` on. */
  ghost predicate LevelState(was: seq<char>, now: seq<char>, start: nat, nodes: seq<Node>, ps: seq<Parameter>,
                             pos: nat, end: nat)
  {
    && start <= pos <= end < |now| && now[end] == '\0' && (forall i :: pos <= i < end ==> now[i] != '\0')
    && Agree(was, now, start, pos)
    && NodesHeld(now, nodes, ps, pos, end)
  }

  /** The finished level: on level 0 the position has gone one past the terminating NUL. */
  ghost predicate LevelRead(was: seq<char>, now: seq<char>, start: nat, level: nat, nodes: seq<Node>,
                            ps: seq<Parameter>, rest: string, pos: nat, end: nat)
  {
    if level == 0 then
      pos == end + 1 && rest == [] && LevelState(was, now, start, nodes, ps, end, end)
    else
      LevelState(was, now, start, nodes, ps, pos, end) && rest == now[pos..end]
  }

  /** What reading a level results in. */
  ghost predicate LevelDone(was: seq<char>, now: seq<char>, start: nat, level: nat, status: Status, nodes: seq<Node>,
                            r: ParseResult, pos: nat, end: nat)
  {
    match r
    case Failed(e) => status == Failure(e)
    case Parsed(ps, rest) => status == Ok && LevelRead(was, now, start, level, nodes, ps, rest, pos, end)
  }

  lemma {:induction false} LevelCloses(was: seq<char>, now: seq<char>, start: nat, level: nat, nodes: seq<Node>,
                                       ps: seq<Parameter>, pos: nat, end: nat)
    requires LevelState(was, now, start, nodes, ps, pos, end)
    requires if level == 0 then pos == end else pos < end
    ensures LevelRead(was, now, start, level, nodes, ps, if level == 0 then [] else now[pos..end][1..], pos + 1, end)
  {
    if level > 0 {
      NodesStay(now, now, nodes, ps, pos, pos + 1, end);
      assert now[pos..end][1..] == now[pos + 1..end];
    }
  }

  /** What the character behind a parameter means for the level: it is closed, in error or goes on. */
  ghost predicate GoesOn(was: seq<char>, now: seq<char>, start: nat, level: nat, nodes: seq<Node>, ps: seq<Parameter>,
                         pos: nat, end: nat, r: ParseResult)
    requires pos <= end < |now|
  {
    if now[pos] != '}' && now[pos] != '\0' then r == PrependAll(ps, ParseParameters(now[pos..end], level))
    else if (now[pos] == '}') == (level > 0) then LevelDone(was, now, start, level, Ok, nodes, r, pos + 1, end)
    else LevelDone(was, now, start, level, Failure(GeneralError), nodes, r, pos, end)
  }

  lemma {:induction false} LevelGoesOn(was: seq<char>, now: seq<char>, start: nat, level: nat, nodes: seq<Node>,
                                       ps: seq<Parameter>, pos: nat, end: nat)
    requires LevelState(was, now, start, nodes, ps, pos, end)
    ensures GoesOn(was, now, start, level, nodes, ps, pos, end, PrependAll(ps, Continue(now[pos..end], level)))
  {
    if pos == end || now[pos] == '}' {
      NothingMore(ps, now[pos..end], level);
      if (now[pos] == '}') == (level > 0) {
        LevelCloses(was, now, start, level, nodes, ps, pos, end);
      }
    }
  }

  /** `parse_parameters`, entered behind the opening brace. */
  method ReadLevel(buffer: array<char>, start: nat, level: nat, ghost end: nat)
    returns (status: Status, pos: nat, nodes: seq<Node>)
    requires TextAt(buffer, start, end)
    modifies buffer
    ensures LevelDone(old(buffer[..]), buffer[..], start, level, status, nodes,
                      ParseLevel(old(buffer[start..end]), level), pos, end)
    decreases end - start, 4
  {
    if level > MAX_SETTINGS_LEVEL {
      return Failure(LinkLimit), start, [];
    }
    status, pos, nodes := ReadParameters(buffer, start, level, end);
  }

  /** The loop of `parse_parameters`. */
  method ReadParameters(buffer: array<char>, start: nat, level: nat, ghost end: nat)
    returns (status: Status, pos: nat, nodes: seq<Node>)
    requires TextAt(buffer, start, end)
    modifies buffer
    ensures LevelDone(old(buffer[..]), buffer[..], start, level, status, nodes,
                      ParseParameters(old(buffer[start..end]), level), pos, end)
    decreases end - start, 3
  {
    status, pos, nodes := Ok, start, [];
    ghost var was, result := buffer[..], ParseParameters(buffer[start..end], level);
    ghost var ps: seq<Parameter> := [];
    var more := true;
    while more
      invariant more ==> TextAt(buffer, pos, end) && LevelState(was, buffer[..], start, nodes, ps, pos, end)
      invariant more ==> result == PrependAll(ps, ParseParameters(buffer[pos..end], level))
      invariant !more ==> LevelDone(was, buffer[..], start, level, status, nodes, result, pos, end)
      decreases more, end - pos
    {
      more, status, pos, nodes, ps := ReadRound(buffer, pos, level, nodes, ps, was, result, start, end);
    }
  }

  /** One round of that loop. */
  method ReadRound(buffer: array<char>, start: nat, level: nat, nodes: seq<Node>, ghost ps: seq<Parameter>,
                   ghost was: seq<char>, ghost result: ParseResult, ghost first: nat, ghost end: nat)
    returns (more: bool, status: Status, pos: nat, nodes': seq<Node>, ghost ps': seq<Parameter>)
    requires TextAt(buffer, start, end) && LevelState(was, buffer[..], first, nodes, ps, start, end)
    requires result == PrependAll(ps, ParseParameters(buffer[start..end], level))
    modifies buffer
    ensures more ==>
      && start < pos && TextAt(buffer, pos, end) && LevelState(was, buffer[..], first, nodes', ps', pos, end)
      && result == PrependAll(ps', ParseParameters(buffer[pos..end], level))
    ensures !more ==> LevelDone(was, buffer[..], first, level, status, nodes', result, pos, end)
    decreases end - start, 2
  {
    more, status := false, Ok;
    status, pos, nodes', ps' := ReadNext(buffer, start, level, nodes, ps, was, first, end);
    if status.Failure? {
      return;
    }
    if (buffer[pos] == '}' && level > 0) || (buffer[pos] == '\0' && level == 0) {
      status, pos := Ok, pos + 1;
      return;
    }
    if buffer[pos] == '}' || buffer[pos] == '\0' {
      status := Failure(GeneralError);
      return;
    }
    more := true;
  }

  /** One round of the loop of `parse_parameters`, up to the checks for the end of the level. */
  method ReadNext(buffer: array<char>, start: nat, level: nat, nodes: seq<Node>, ghost ps: seq<Parameter>,
                  ghost was: seq<char>, ghost first: nat, ghost end: nat)
    returns (status: Status, pos: nat, nodes': seq<Node>, ghost ps': seq<Parameter>)
    requires TextAt(buffer, start, end) && first <= start && LevelState(was, buffer[..], first, nodes, ps, start, end)
    modifies buffer
    ensures status.Failure? ==>
              PrependAll(ps, ParseParameters(old(buffer[start..end]), level)) == Failed(status.error)
    ensures !status.Failure? ==>
              && LevelState(was, buffer[..], first, nodes', ps', pos, end)
              && GoesOn(was, buffer[..], first, level, nodes', ps', pos, end,
                        PrependAll(ps, ParseParameters(old(buffer[start..end]), level)))
              && (start < pos || buffer[pos] == '\0' || buffer[pos] == '}')
    decreases end - start, 1
  {
    ghost var before := buffer[..];
    ghost var block := ParseBlock(buffer[start..end], level);
    var node;
    nodes', ps' := nodes, ps;
    status, pos, node := ReadBlock(buffer, start, level, end);
    if status.Failure? {
      return;
    }
    NodesStay(before, buffer[..], nodes, ps, start, pos, end);
    if status != NoParameter {
      PrependOneMore(ps, block.parameter, Continue(buffer[pos..end], level));
      nodes' := nodes + [node];
      ps' := ps + [block.parameter];
    }
    LevelGoesOn(was, buffer[..], first, level, nodes', ps', pos, end);
  }

  /** The part of `parse_parameters` that reads one parameter, going a level deeper if a brace opens. */
  method ReadBlock(buffer: array<char>, start: nat, level: nat, ghost end: nat)
    returns (status: Status, pos: nat, node: Node)
    requires TextAt(buffer, start, end)
    modifies buffer
    ensures match ParseBlock(old(buffer[start..end]), level)
      case Block(p, rest) =>
        && status == Ok && start < pos && TextAt(buffer, pos, end) && OnlyChanged(buffer, start, pos)
        && rest == buffer[pos..end] && NodeHeld(buffer[..], node, p, pos, end)
      case NoBlock(rest) =>
        && status == NoParameter && start <= pos && TextAt(buffer, pos, end) && OnlyChanged(buffer, start, pos)
        && rest == buffer[pos..end]
      case BlockError(e) => status == Failure(e)
    decreases end - start, 0
  {
    ghost var line := ParseLine(buffer[start..end]);
    status, pos, node := ReadLine(buffer, start, end);
    if status == Ok && buffer[pos] == '{' {
      status, pos, node := ReadChildren(buffer, pos, level, node, Parameter(line.name, line.values, []), end);
    }
  }

  /** The step of `parse_parameters` that goes a level deeper, for the parameter just read. */
  method ReadChildren(buffer: array<char>, start: nat, level: nat, leaf: Node, ghost p: Parameter, ghost end: nat)
    returns (status: Status, pos: nat, node: Node)
    requires TextAt(buffer, start, end) && buffer[start] == '{'
    requires NodeHeld(buffer[..], leaf, p, start, end) && p.parameters == []
    modifies buffer
    ensures match ParseLevel(old(buffer[start..end])[1..], level + 1)
      case Failed(e) => status == Failure(e)
      case Parsed(ps, rest) =>
        && status == Ok && start < pos && TextAt(buffer, pos, end) && OnlyChanged(buffer, start, pos)
        && rest == buffer[pos..end] && NodeHeld(buffer[..], node, p.(parameters := ps), pos, end)
    decreases end - start
  {
    ghost var before := buffer[..];
    var nodes;
    status, pos, nodes := ReadLevel(buffer, start + 1, level + 1, end);
    node := leaf.(parameters := nodes);
    if !status.Failure? {
      assert Agree(before, buffer[..], start, pos);
      WordStays(before, buffer[..], leaf.name, p.name, start, pos, end);
      ValuesStay(before, buffer[..], leaf.values, p.values, start, pos, end);
    }
  }

  /** `parse_settings` on a NUL-terminated text: the parser fails as the value-level parser does, and
      otherwise the pointers it leaves behind read back, in the final buffer, as that parser's tree. */
  method ParseSettings(buffer: array<char>, ghost end: nat) returns (status: Status, nodes: seq<Node>)
    requires TextAt(buffer, 0, end)
    modifies buffer
    ensures match ParseText(old(buffer[..end]))
      case Failed(e) => status == Failure(e)
      case Parsed(ps, _) => status == Ok && NodesHeld(buffer[..], nodes, ps, end, end)
    ensures forall i :: end <= i < buffer.Length && status == Ok ==> buffer[i] == old(buffer[i])
  {
    var pos;
    assert buffer[0..end] == buffer[..end];
    status, pos, nodes := ReadLevel(buffer, 0, 0, end);
  }
}
