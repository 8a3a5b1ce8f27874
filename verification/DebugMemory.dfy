/** Reading and writing the memory of a debugged team through its debug nub, which serves any part of a request. */
module DebugMemory {
  import opened Options

  datatype Error = BadValue | Nub(code: int)

  /** A count of bytes, or what is returned as a negative number. */
  datatype Result = Ok(value: nat) | Err(error: Error)

  /** The nub's reply to a request: an error, or how many bytes it served. */
  datatype Reply = Failed(code: int) | Served(count: nat)

  const MAX_READ_WRITE: nat := 1024
  const PORT_GONE: int := -1

  /** Remote memory; what no one ever wrote reads as zero. */
  type Memory = map<nat, char>

  function At(memory: Memory, address: nat): char {
    if address in memory then memory[address] else '\0'
  }

  /** The outcome of a request for some bytes when the replies come in the given order: no message holds more than
      the maximum, the nub serves at least one byte and no more than asked for, and its port may be gone. */
  function Ask(replies: seq<Reply>, call: nat, size: nat): (reply: Reply)
    requires size > 0
    ensures reply.Served? ==> 0 < reply.count <= size && reply.count <= MAX_READ_WRITE
  {
    var most := if size < MAX_READ_WRITE then size else MAX_READ_WRITE;
    if call >= |replies| then Failed(PORT_GONE)
    else
      match replies[call]
      case Failed(code) => Failed(code)
      case Served(n) => Served(if n == 0 then 1 else if n < most then n else most)
  }

  // ----- a whole transfer -----

  /** How far a transfer gets, and the error that ended it, if one did. */
  datatype Run = Run(count: nat, error: Option<int>)

  function Transfer(replies: seq<Reply>, call: nat, size: nat): (run: Run)
    ensures run.count <= size && (run.error.None? <==> run.count == size)
    decreases size
  {
    if size == 0 then Run(0, None)
    else
      match Ask(replies, call, size)
      case Failed(code) => Run(0, Some(code))
      case Served(n) => After(n, Transfer(replies, call + 1, size - n))
  }

  /** A transfer that began with the given number of bytes. */
  function After(count: nat, rest: Run): Run {
    Run(count + rest.count, rest.error)
  }

  /** Whatever was transferred counts; the error shows only when nothing was. */
  function ResultOf(run: Run): Result {
    if run.count == 0 && run.error.Some? then Err(Nub(run.error.value)) else Ok(run.count)
  }

  ghost predicate AllAccessible(accessible: nat -> bool, from: nat, to: nat) {
    forall a: nat :: from <= a < to ==> accessible(a)
  }

  /** The replies are those of a nub that fails, with the same error, where the memory is not accessible and nowhere
      else, and serves accessible bytes only. */
  ghost predicate Follows(replies: seq<Reply>, accessible: nat -> bool, error: int, call: nat, address: nat, size: nat)
    decreases size
  {
    size > 0 ==>
      match Ask(replies, call, size)
      case Failed(code) => !accessible(address) && code == error
      case Served(n) =>
        AllAccessible(accessible, address, address + n)
        && Follows(replies, accessible, error, call + 1, address + n, size - n)
  }

  /** The number of accessible bytes from an address on. */
  function AccessiblePrefix(accessible: nat -> bool, address: nat, size: nat): (n: nat)
    ensures n <= size
    decreases size
  {
    if size == 0 || !accessible(address) then 0 else 1 + AccessiblePrefix(accessible, address + 1, size - 1)
  }

  lemma {:induction false} PrefixIsAccessible(accessible: nat -> bool, address: nat, size: nat)
    ensures var n := AccessiblePrefix(accessible, address, size);
            AllAccessible(accessible, address, address + n) && (n < size ==> !accessible(address + n))
    decreases size
  {
    if size > 0 && accessible(address) {
      PrefixIsAccessible(accessible, address + 1, size - 1);
    }
  }

  /** However the nub cuts the transfer into pieces, it gets exactly as far as the memory is accessible. */
  lemma {:induction false} PiecesDoNotMatter(replies: seq<Reply>, accessible: nat -> bool, error: int, call: nat,
                                             address: nat, size: nat)
    requires Follows(replies, accessible, error, call, address, size)
    ensures var n := AccessiblePrefix(accessible, address, size);
            Transfer(replies, call, size) == Run(n, if n == size then None else Some(error))
    decreases size
  {
    if size > 0 {
      var reply := Ask(replies, call, size);
      if reply.Served? {
        PiecesDoNotMatter(replies, accessible, error, call + 1, address + reply.count, size - reply.count);
        PrefixSplits(accessible, address, reply.count, size);
      }
    }
  }

  lemma {:induction false} PrefixSplits(accessible: nat -> bool, address: nat, n: nat, size: nat)
    requires n <= size && AllAccessible(accessible, address, address + n)
    ensures AccessiblePrefix(accessible, address, size) == n + AccessiblePrefix(accessible, address + n, size - n)
    decreases n
  {
    if n > 0 {
      PrefixSplits(accessible, address + 1, n - 1, size - 1);
    }
  }

  // ----- strings -----

  /** `strnlen`. */
  function StringLength(s: seq<char>): (n: nat)
    ensures n <= |s|
  {
    if s == [] || s[0] == '\0' then 0 else 1 + StringLength(s[1..])
  }

  lemma {:induction false} FirstNul(s: seq<char>)
    ensures '\0' !in s[..StringLength(s)] && (StringLength(s) < |s| ==> s[StringLength(s)] == '\0')
  {
    if s != [] && s[0] != '\0' {
      FirstNul(s[1..]);
      assert s[..StringLength(s)] == [s[0]] + s[1..][..StringLength(s[1..])];
    }
  }

  /** How far a string in memory goes within the given number of bytes. */
  function LengthInMemory(memory: Memory, address: nat, n: nat): (k: nat)
    ensures k <= n
    decreases n
  {
    if n == 0 || At(memory, address) == '\0' then 0 else 1 + LengthInMemory(memory, address + 1, n - 1)
  }

  /** The first NUL within reach is where the string ends. */
  lemma {:induction false} StringEnds(memory: Memory, address: nat, k: nat, n: nat)
    requires k <= n && (k < n ==> At(memory, address + k) == '\0')
    requires forall a: nat :: address <= a < address + k ==> At(memory, a) != '\0'
    ensures LengthInMemory(memory, address, n) == k
    decreases n
  {
    if k > 0 {
      StringEnds(memory, address + 1, k - 1, n - 1);
    }
  }

  /** How reading a string ends: with its NUL, or like the transfer, with the buffer full or an error. */
  datatype StringRun = StringRun(count: nat, ended: bool, error: Option<int>)

  function StringRead(replies: seq<Reply>, memory: Memory, address: nat, size: nat): StringRun {
    StringIn(Transfer(replies, 0, size), memory, address)
  }

  function StringIn(run: Run, memory: Memory, address: nat): StringRun {
    var k := LengthInMemory(memory, address, run.count);
    if k < run.count then StringRun(k, true, None) else StringRun(k, false, run.error)
  }

  /** However the nub cuts the transfer into pieces, reading a string stops at its NUL, at the end of the buffer or
      where the memory is not accessible, whichever comes first. */
  lemma {:induction false} StringPiecesDoNotMatter(replies: seq<Reply>, accessible: nat -> bool, error: int,
                                                   memory: Memory, address: nat, size: nat)
    requires Follows(replies, accessible, error, 0, address, size)
    ensures var n := AccessiblePrefix(accessible, address, size);
            var k := LengthInMemory(memory, address, n);
            StringRead(replies, memory, address, size)
            == StringRun(k, k < n, if k < n || n == size then None else Some(error))
  {
    PiecesDoNotMatter(replies, accessible, error, 0, address, size);
  }

  /** What is returned: the error if the first byte is not accessible, and otherwise how many bytes have been
      transferred, or how long the string is, even if an error has ended it. */
  lemma {:induction false} FirstByteDecides(replies: seq<Reply>, accessible: nat -> bool, error: int, memory: Memory,
                                            address: nat, size: nat)
    requires Follows(replies, accessible, error, 0, address, size)
    ensures var n := AccessiblePrefix(accessible, address, size);
            var text := StringRead(replies, memory, address, size);
            var failed := size > 0 && !accessible(address);
            && ResultOf(Transfer(replies, 0, size)) == (if failed then Err(Nub(error)) else Ok(n))
            && ResultOf(Run(text.count, text.error))
               == (if failed then Err(Nub(error)) else Ok(LengthInMemory(memory, address, n)))
  {
    PiecesDoNotMatter(replies, accessible, error, 0, address, size);
  }

  // ----- reading -----

  /** The buffer `s` after `n` bytes from an address on have arrived in it at a place, and nothing else changed. */
  predicate Arrived(s: seq<char>, now: seq<char>, at: nat, memory: Memory, address: nat, n: nat) {
    && |now| == |s|
    && forall j :: 0 <= j < |now| ==> now[j] == if at <= j < at + n then At(memory, address + (j - at)) else s[j]
  }

  /** One round of a transfer loop. */
  lemma {:induction false} Round(replies: seq<Reply>, whole: Run, sum: nat, call: nat, left: nat)
    requires left > 0 && whole == After(sum, Transfer(replies, call, left))
    ensures whole == match Ask(replies, call, left)
            case Failed(code) => Run(sum, Some(code))
            case Served(n) => After(sum + n, Transfer(replies, call + 1, left - n))
  {
  }

  /** `debug_read_memory_partial` with an attached context. */
  method ReadMemoryPartial(replies: seq<Reply>, memory: Memory, call: nat, address: nat, buffer: array<char>, at: nat,
                           size: nat)
    returns (r: Result)
    requires at + size <= buffer.Length
    modifies buffer
    ensures r == if size == 0 then Ok(0) else
      match Ask(replies, call, size) case Failed(code) => Err(Nub(code)) case Served(n) => Ok(n)
    ensures r.Ok? ==> r.value <= size && (size > 0 ==> r.value > 0)
    ensures Arrived(old(buffer[..]), buffer[..], at, memory, address, if r.Ok? then r.value else 0)
  {
    if size == 0 {
      return Ok(0);
    }
    match Ask(replies, call, size) {
      case Failed(code) =>
        r := Err(Nub(code));
      case Served(n) =>
        forall j | at <= j < at + n {
          buffer[j] := At(memory, address + (j - at));
        }
        r := Ok(n);
    }
  }

  /** `debug_read_memory` with an attached context. */
  method ReadMemory(replies: seq<Reply>, memory: Memory, address: nat, buffer: array?<char>, at: nat, size: nat)
    returns (r: Result)
    requires buffer != null ==> at + size <= buffer.Length
    modifies buffer
    ensures address == 0 || buffer == null ==> r == Err(BadValue)
    ensures address == 0 && buffer != null ==> buffer[..] == old(buffer[..])
    ensures address != 0 && buffer != null ==>
      var run := Transfer(replies, 0, size);
      r == ResultOf(run) && Arrived(old(buffer[..]), buffer[..], at, memory, address, run.count)
  {
    if address == 0 || buffer == null {
      return Err(BadValue);
    }
    if size == 0 {
      return Ok(0);
    }
    var from, sumRead: nat, left: nat, call: nat := address, 0, size, 0;
    ghost var s, whole := buffer[..], Transfer(replies, 0, size);
    while left > 0
      invariant sumRead + left == size && from == address + sumRead
      invariant Arrived(s, buffer[..], at, memory, address, sumRead)
      invariant whole == After(sumRead, Transfer(replies, call, left))
      decreases left
    {
      Round(replies, whole, sumRead, call, left);
      var bytesRead := ReadMemoryPartial(replies, memory, call, from, buffer, at + sumRead, left);
      call := call + 1;
      if bytesRead.Err? {
        return if sumRead > 0 then Ok(sumRead) else bytesRead;
      }
      from := from + bytesRead.value;
      sumRead := sumRead + bytesRead.value;
      left := left - bytesRead.value;
    }
    r := Ok(sumRead);
  }

  /** The buffer has, at a place, the first `k` characters of the string in memory. */
  predicate HoldsText(now: seq<char>, at: nat, memory: Memory, address: nat, k: nat) {
    at + k <= |now| && forall j :: at <= j < at + k ==> now[j] == At(memory, address + (j - at)) && now[j] != '\0'
  }

  /** And a NUL behind them. */
  predicate HoldsString(now: seq<char>, at: nat, memory: Memory, address: nat, k: nat) {
    HoldsText(now, at, memory, address, k) && at + k < |now| && now[at + k] == '\0'
  }

  /** The string as far as it goes, with a NUL, and the result that says so. */
  predicate StringArrived(whole: Run, memory: Memory, address: nat, size: nat, r: Result, now: seq<char>, at: nat)
    requires size > 0
  {
    var run := StringIn(whole, memory, address);
    && r == ResultOf(Run(run.count, run.error))
    && HoldsString(now, at, memory, address, if run.count == size then size - 1 else run.count)
  }

  predicate SameOutside(s: seq<char>, now: seq<char>, from: nat, to: nat) {
    |now| == |s| && forall j :: 0 <= j < |now| && !(from <= j < to) ==> now[j] == s[j]
  }

  /** `debug_read_string` with an attached context. */
  method ReadString(replies: seq<Reply>, memory: Memory, address: nat, buffer: array?<char>, at: nat, size: nat)
    returns (r: Result)
    requires buffer != null ==> at + size <= buffer.Length
    modifies buffer
    ensures address == 0 || buffer == null || size == 0 ==> r == Err(BadValue)
    ensures buffer != null && (address == 0 || size == 0) ==> buffer[..] == old(buffer[..])
    ensures address != 0 && buffer != null && size > 0 ==>
      var run := StringRead(replies, memory, address, size);
      && r == ResultOf(Run(run.count, run.error))
      && HoldsString(buffer[..], at, memory, address, if run.count == size then size - 1 else run.count)
      && SameOutside(old(buffer[..]), buffer[..], at, at + size)
  {
    if address == 0 || buffer == null || size == 0 {
      return Err(BadValue);
    }
    r := ReadStringPieces(replies, memory, address, buffer, at, size);
  }

  /** The characters read so far, none of them a NUL, and what is left of the transfer. */
  ghost predicate Reading(replies: seq<Reply>, whole: Run, memory: Memory, address: nat, size: nat, now: seq<char>,
                          at: nat, sum: nat, call: nat)
  {
    && sum <= size && HoldsText(now, at, memory, address, sum)
    && whole == After(sum, Transfer(replies, call, size - sum))
  }

  lemma {:induction false} ReadToTheEnd(replies: seq<Reply>, whole: Run, memory: Memory, address: nat, size: nat,
                                        now: seq<char>, at: nat, call: nat)
    requires Reading(replies, whole, memory, address, size, now, at, size, call)
    ensures HoldsText(now, at, memory, address, size) && whole == Run(size, None)
  {
  }

  /** The loop of `debug_read_string` and what follows it. */
  method ReadStringPieces(replies: seq<Reply>, memory: Memory, address: nat, buffer: array<char>, at: nat, size: nat)
    returns (r: Result)
    requires at + size <= buffer.Length && size > 0
    modifies buffer
    ensures StringArrived(Transfer(replies, 0, size), memory, address, size, r, buffer[..], at)
    ensures SameOutside(old(buffer[..]), buffer[..], at, at + size)
  {
    var sumRead: nat, left: nat, call: nat := 0, size, 0;
    ghost var s, whole := buffer[..], Transfer(replies, 0, size);
    while left > 0
      invariant sumRead + left == size
      invariant Reading(replies, whole, memory, address, size, buffer[..], at, sumRead, call)
      invariant SameOutside(s, buffer[..], at, at + size)
      decreases left
    {
      var done, bytesRead;
      done, r, bytesRead := ReadStringPiece(replies, memory, address, buffer, at, size, sumRead, call, whole);
      if done {
        return;
      }
      call, sumRead, left := call + 1, sumRead + bytesRead, left - bytesRead;
    }
    ReadToTheEnd(replies, whole, memory, address, size, buffer[..], at, call);
    EndText(whole, memory, address, buffer, at, size, size, size - 1, Ok(sumRead));
    r := Ok(sumRead);
  }

  /** One round of the loop; `done` when the string or the transfer has ended. */
  method ReadStringPiece(replies: seq<Reply>, memory: Memory, address: nat, buffer: array<char>, at: nat, size: nat,
                         sumRead: nat, call: nat, ghost whole: Run)
    returns (done: bool, r: Result, bytesRead: nat)
    requires at + size <= buffer.Length && sumRead < size
    requires Reading(replies, whole, memory, address, size, buffer[..], at, sumRead, call)
    modifies buffer
    ensures if done then StringArrived(whole, memory, address, size, r, buffer[..], at)
            else bytesRead > 0
                 && Reading(replies, whole, memory, address, size, buffer[..], at, sumRead + bytesRead, call + 1)
    ensures SameOutside(old(buffer[..]), buffer[..], at, at + size)
  {
    Round(replies, whole, sumRead, call, size - sumRead);
    var chunkSize;
    r, chunkSize := ReadChunk(replies, memory, call, address, buffer, at, size, sumRead);
    if r.Err? {
      r := if sumRead > 0 then Ok(sumRead) else r;
      EndText(whole, memory, address, buffer, at, size, sumRead, sumRead, r);
      return true, r, 0;
    }
    if chunkSize < r.value {
      TextEnds(whole, buffer[..], at, memory, address, sumRead + chunkSize);
      return true, Ok(sumRead + chunkSize), 0;
    }
    done, bytesRead := false, r.value;
  }

  /** Puts a NUL behind or over text in the buffer. */
  method Terminate(buffer: array<char>, at: nat, memory: Memory, address: nat, k: nat, ghost n: nat)
    requires HoldsText(buffer[..], at, memory, address, n) && k <= n && at + k < buffer.Length
    modifies buffer
    ensures HoldsString(buffer[..], at, memory, address, k)
    ensures SameOutside(old(buffer[..]), buffer[..], at + k, at + k + 1)
  {
    buffer[at + k] := '\0';
  }

  /** Ends a string that has no NUL in memory, where the transfer ended or on the last place of the buffer. */
  method EndText(ghost whole: Run, memory: Memory, address: nat, buffer: array<char>, at: nat, size: nat,
                 ghost sum: nat, k: nat, ghost r: Result)
    requires at + size <= buffer.Length && sum == whole.count
    requires HoldsText(buffer[..], at, memory, address, sum) && k == (if sum == size then size - 1 else sum) < size
    requires r == ResultOf(whole)
    modifies buffer
    ensures StringArrived(whole, memory, address, size, r, buffer[..], at)
    ensures SameOutside(old(buffer[..]), buffer[..], at, at + size)
  {
    TextEnds(whole, buffer[..], at, memory, address, sum);
    Terminate(buffer, at, memory, address, k, sum);
  }

  /** Text in the buffer up to a NUL or to the end of what can be read is the string in memory. */
  lemma {:induction false} TextEnds(whole: Run, now: seq<char>, at: nat, memory: Memory, address: nat, k: nat)
    requires HoldsText(now, at, memory, address, k)
    requires k <= whole.count && (k < whole.count ==> At(memory, address + k) == '\0')
    ensures StringIn(whole, memory, address)
         == StringRun(k, k < whole.count, if k < whole.count then None else whole.error)
  {
    forall a: nat | address <= a < address + k ensures At(memory, a) != '\0' {
      assert now[at + (a - address)] == At(memory, address + (at + (a - address) - at));
    }
    StringEnds(memory, address, k, whole.count);
  }

  /** A partial read behind `sum` characters that are in the buffer already, and how many characters of the string
      are in what it read. */
  method ReadChunk(replies: seq<Reply>, memory: Memory, call: nat, address: nat, buffer: array<char>, at: nat,
                   size: nat, sum: nat)
    returns (r: Result, chunkSize: nat)
    requires at + size <= buffer.Length && sum < size
    requires HoldsText(buffer[..], at, memory, address, sum)
    modifies buffer
    ensures r == match Ask(replies, call, size - sum) case Failed(code) => Err(Nub(code)) case Served(n) => Ok(n)
    ensures r.Ok? ==> 0 < r.value <= size - sum && chunkSize <= r.value
    ensures r.Err? ==> chunkSize == 0
    ensures HoldsText(buffer[..], at, memory, address, sum + chunkSize)
    ensures r.Ok? && chunkSize < r.value ==>
      buffer[at + (sum + chunkSize)] == '\0' == At(memory, address + (sum + chunkSize))
    ensures SameOutside(old(buffer[..]), buffer[..], at, at + size)
  {
    r := ReadMemoryPartial(replies, memory, call, address + sum, buffer, at + sum, size - sum);
    chunkSize := 0;
    if r.Ok? {
      ghost var chunk, now := buffer[at + sum..at + sum + r.value], buffer[..];
      chunkSize := StringLength(buffer[at + sum..at + sum + r.value]);
      ChunkText(old(buffer[..]), now, at, memory, address, sum, r.value, chunk);
    }
  }

  lemma {:induction false} ChunkText(was: seq<char>, now: seq<char>, at: nat, memory: Memory, address: nat, sum: nat,
                                     n: nat, chunk: seq<char>)
    requires HoldsText(was, at, memory, address, sum) && Arrived(was, now, at + sum, memory, address + sum, n)
    requires at + sum + n <= |now| && chunk == now[at + sum..at + sum + n]
    ensures var k := StringLength(chunk);
            && HoldsText(now, at, memory, address, sum + k)
            && (k < n ==> now[at + (sum + k)] == '\0' == At(memory, address + (sum + k)))
  {
    FirstNul(chunk);
    forall j | at + sum <= j < at + sum + n ensures now[j] == chunk[j - (at + sum)] == At(memory, address + (j - at)) {
      assert address + sum + (j - (at + sum)) == address + (j - at);
    }
    var k := StringLength(chunk);
    forall j | at + sum <= j < at + (sum + k) ensures now[j] != '\0' {
      assert chunk[..k][j - (at + sum)] != '\0';
    }
    if k < n {
      assert now[at + (sum + k)] == chunk[k];
    }
  }

  // ----- writing -----

  /** `debug_write_memory_partial` with an attached context: the nub writes the bytes it reports. */
  method WriteMemoryPartial(replies: seq<Reply>, memory: Memory, call: nat, address: nat, data: seq<char>)
    returns (r: Result, written: Memory)
    ensures r == if data == [] then Ok(0) else
      match Ask(replies, call, |data|) case Failed(code) => Err(Nub(code)) case Served(n) => Ok(n)
    ensures r.Ok? ==> r.value <= |data| && (data != [] ==> r.value > 0)
    ensures Overwritten(memory, written, address, data, if r.Ok? then r.value else 0)
  {
    written := memory;
    if data == [] {
      return Ok(0), written;
    }
    match Ask(replies, call, |data|) {
      case Failed(code) =>
        r := Err(Nub(code));
      case Served(n) =>
        written := Put(memory, address, data[..n]);
        PutMeans(memory, address, data[..n]);
        r := Ok(n);
    }
  }

  function Put(memory: Memory, address: nat, data: seq<char>): Memory
    decreases |data|
  {
    if data == [] then memory else Put(memory[address := data[0]], address + 1, data[1..])
  }

  lemma {:induction false} PutMeans(memory: Memory, address: nat, data: seq<char>)
    ensures Overwritten(memory, Put(memory, address, data), address, data, |data|)
    decreases |data|
  {
    if data != [] {
      PutMeans(memory[address := data[0]], address + 1, data[1..]);
    }
  }

  /** The first `n` bytes of the data have been written to memory from an address on, and nothing else changed. */
  ghost predicate Overwritten(memory: Memory, now: Memory, address: nat, data: seq<char>, n: nat) {
    && n <= |data|
    && forall a: nat {:trigger At(now, a)} ::
         At(now, a) == if address <= a < address + n then data[a - address] else At(memory, a)
  }

  lemma {:induction false} WrittenTwice(memory: Memory, first: Memory, second: Memory, address: nat, data: seq<char>,
                                        m: nat, n: nat)
    requires m + n <= |data| && Overwritten(memory, first, address, data, m)
    requires Overwritten(first, second, address + m, data[m..], n)
    ensures Overwritten(memory, second, address, data, m + n)
  {
    forall a: nat
      ensures At(second, a) == if address <= a < address + (m + n) then data[a - address] else At(memory, a)
    {
      assert At(first, a) == if address <= a < address + m then data[a - address] else At(memory, a);
    }
  }

  /** `debug_write_memory` with an attached context. */
  method WriteMemory(replies: seq<Reply>, memory: Memory, address: nat, data: seq<char>)
    returns (r: Result, written: Memory)
    ensures address == 0 ==> r == Err(BadValue) && written == memory
    ensures address != 0 ==>
      var run := Transfer(replies, 0, |data|);
      r == ResultOf(run) && Overwritten(memory, written, address, data, run.count)
  {
    written := memory;
    if address == 0 {
      return Err(BadValue), written;
    }
    if data == [] {
      return Ok(0), written;
    }
    var to, sumWritten: nat, left: nat, call: nat := address, 0, |data|, 0;
    ghost var whole := Transfer(replies, 0, |data|);
    while left > 0
      invariant sumWritten + left == |data| && to == address + sumWritten
      invariant Overwritten(memory, written, address, data, sumWritten)
      invariant whole == After(sumWritten, Transfer(replies, call, left))
      decreases left
    {
      Round(replies, whole, sumWritten, call, left);
      var bytesWritten, next := WriteMemoryPartial(replies, written, call, to, data[sumWritten..]);
      call := call + 1;
      WrittenTwice(memory, written, next, address, data, sumWritten,
                   if bytesWritten.Ok? then bytesWritten.value else 0);
      written := next;
      if bytesWritten.Err? {
        return if sumWritten > 0 then Ok(sumWritten) else bytesWritten, written;
      }
      to := to + bytesWritten.value;
      sumWritten := sumWritten + bytesWritten.value;
      left := left - bytesWritten.value;
    }
    r := Ok(sumWritten);
  }

  /** Reading back what was written: when both requests are answered by where the memory is accessible, the write
      and the read get equally far, whatever pieces either is cut into, and what comes back is what was written. */
  lemma {:induction false} ReadsBack(accessible: nat -> bool, error: int, writing: seq<Reply>, reading: seq<Reply>,
                                     memory: Memory, written: Memory, address: nat, data: seq<char>,
                                     s: seq<char>, now: seq<char>, at: nat)
    requires Follows(writing, accessible, error, 0, address, |data|)
    requires Follows(reading, accessible, error, 0, address, |data|)
    requires Overwritten(memory, written, address, data, Transfer(writing, 0, |data|).count)
    requires at + |data| <= |s| && Arrived(s, now, at, written, address, Transfer(reading, 0, |data|).count)
    ensures Transfer(reading, 0, |data|) == Transfer(writing, 0, |data|)
    ensures var n := AccessiblePrefix(accessible, address, |data|);
            now == s[..at] + data[..n] + s[at + n..]
  {
    PiecesDoNotMatter(writing, accessible, error, 0, address, |data|);
    PiecesDoNotMatter(reading, accessible, error, 0, address, |data|);
  }
}
