/**
 * The stream classes that carry text between pipeline stages. Each class is a value; an
 * operation returns the next state with its result. Characters are indexed one `char` per
 * position.
 */
module Streams {
  import opened Wrappers
  import opened Strings

  // ---------------------------------------------------------------------------
  // StringInputStream

  datatype StringInput = StringInput(data: string, position: nat)

  function NewStringInput(data: string): StringInput {
    StringInput(data, 0)
  }

  /** The position never passes the end of the data. */
  predicate InputValid(s: StringInput) {
    s.position <= |s.data|
  }

  /** `read`: the next character, or None (null) once the data is used up. */
  function Read(s: StringInput): (r: (StringInput, Option<char>))
    ensures r.0.data == s.data
    ensures InputValid(s) ==> InputValid(r.0)
    ensures r.1.None? <==> s.position >= |s.data|
    ensures r.1.Some? ==> r.1.value == s.data[s.position] && r.0.position == s.position + 1
    ensures r.1.None? ==> r.0 == s
  {
    if s.position >= |s.data| then (s, None)
    else (s.(position := s.position + 1), Some(s.data[s.position]))
  }

  /** `readAll`: the unread suffix; the stream is exhausted afterwards. */
  function ReadAll(s: StringInput): (r: (StringInput, string))
    ensures r.0 == StringInput(s.data, |s.data|)
    ensures InputValid(s) ==> s.data == s.data[..s.position] + r.1
    ensures !InputValid(s) ==> r.1 == ""
  {
    (s.(position := |s.data|), if s.position <= |s.data| then s.data[s.position..] else "")
  }

  /** `k` calls of `read` in a row, with their results in order. */
  function ReadTimes(s: StringInput, k: nat): (r: (StringInput, seq<Option<char>>))
    ensures |r.1| == k
    decreases k
  {
    if k == 0 then (s, [])
    else
      var (s1, c) := Read(s);
      var (s2, cs) := ReadTimes(s1, k - 1);
      (s2, [c] + cs)
  }

  /** Reading yields the characters in order, then null forever. */
  lemma {:induction false} ReadInOrder(s: StringInput, k: nat)
    requires InputValid(s)
    ensures var (s', cs) := ReadTimes(s, k);
      var n := if s.position + k <= |s.data| then k else |s.data| - s.position;
      && |cs| == k
      && (forall i :: 0 <= i < n ==> cs[i] == Some(s.data[s.position + i]))
      && (forall i :: n <= i < k ==> cs[i].None?)
      && s'.position == s.position + n
    decreases k
  {
    if k > 0 {
      var (s1, c) := Read(s);
      ReadInOrder(s1, k - 1);
      var (s2, cs) := ReadTimes(s1, k - 1);
      if s.position >= |s.data| {
        assert s1 == s;
      }
    }
  }

  /** After `readAll`, `read` returns null and `readAll` returns the empty string. */
  lemma ReadAllExhausts(s: StringInput)
    ensures var s' := ReadAll(s).0; Read(s').1.None? && ReadAll(s').1 == ""
  {
  }

  // ---------------------------------------------------------------------------
  // StringOutputStream

  datatype StringOutput = StringOutput(buffer: seq<string>, closed: bool)

  const NewStringOutput := StringOutput([], false)

  /** The concatenation of a list of chunks (`join('')`). */
  function Concat(parts: seq<string>): string {
    Join(parts, "")
  }

  lemma ConcatAppend(parts: seq<string>, x: string)
    ensures Concat(parts + [x]) == Concat(parts) + x
  {
    if |parts| == 0 {
      assert parts + [x] == [x];
    } else {
      JoinAppend(parts, x, "");
    }
  }

  lemma {:induction false} ConcatCons(x: string, parts: seq<string>)
    ensures Concat([x] + parts) == x + Concat(parts)
  {
    if |parts| > 0 {
      JoinCons(x, parts, "");
    } else {
      assert [x] + parts == [x];
    }
  }

  /** `write`: rejected once the stream is closed. */
  function Write(s: StringOutput, data: string): (r: Result<StringOutput>)
    ensures s.closed <==> r == Err("Stream is closed")
    ensures r.Ok? ==> !r.value.closed && r.value.buffer == s.buffer + [data]
  {
    if s.closed then Err("Stream is closed") else Ok(s.(buffer := s.buffer + [data]))
  }

  function Close(s: StringOutput): StringOutput {
    s.(closed := true)
  }

  function GetOutput(s: StringOutput): string {
    Concat(s.buffer)
  }

  /** `clear` empties the buffer and does not reopen a closed stream. */
  function Clear(s: StringOutput): (r: StringOutput)
    ensures GetOutput(r) == "" && r.closed == s.closed
  {
    s.(buffer := [])
  }

  /** A run of writes, stopping at the first failure. */
  function WriteEach(s: StringOutput, chunks: seq<string>): Result<StringOutput>
    decreases |chunks|
  {
    if |chunks| == 0 then Ok(s)
    else match Write(s, chunks[0])
      case Err(e) => Err(e)
      case Ok(s1) => WriteEach(s1, chunks[1..])
  }

  /** The output is the concatenation of all writes, in order. */
  lemma {:induction false} WriteEachOutput(s: StringOutput, chunks: seq<string>)
    requires !s.closed
    ensures WriteEach(s, chunks).Ok?
    ensures GetOutput(WriteEach(s, chunks).value) == GetOutput(s) + Concat(chunks)
    decreases |chunks|
  {
    if |chunks| == 0 {
      assert Concat(chunks) == "";
    } else {
      var s1 := Write(s, chunks[0]).value;
      ConcatAppend(s.buffer, chunks[0]);
      WriteEachOutput(s1, chunks[1..]);
      ConcatCons(chunks[0], chunks[1..]);
      HeadTail(chunks);
    }
  }

  /** Every write after `close` fails, even after `clear`. */
  lemma WriteAfterClose(s: StringOutput, data: string)
    ensures Write(Close(s), data) == Err("Stream is closed")
    ensures Write(Clear(Close(s)), data) == Err("Stream is closed")
  {
  }

  // ---------------------------------------------------------------------------
  // PipeStream, without waiting readers

  datatype Pipe = Pipe(buffer: seq<string>, position: nat, closed: bool)

  const NewPipe := Pipe([], 0, false)

  predicate PipeValid(p: Pipe) {
    p.position <= |p.buffer|
  }

  /** What a `read` on the pipe does now: a chunk, end of stream, or waiting for a writer. */
  datatype PipeRead = Chunk(data: string) | EndOfStream | WouldWait

  function PipeWrite(p: Pipe, data: string): (r: Result<Pipe>)
    ensures p.closed <==> r == Err("Stream is closed")
    ensures r.Ok? ==> r.value == p.(buffer := p.buffer + [data])
  {
    if p.closed then Err("Stream is closed") else Ok(p.(buffer := p.buffer + [data]))
  }

  function PipeReadNext(p: Pipe): (r: (Pipe, PipeRead))
    ensures PipeValid(p) ==> PipeValid(r.0)
    ensures r.1.Chunk? <==> p.position < |p.buffer|
    ensures r.1.Chunk? ==> r.1.data == p.buffer[p.position] && r.0 == p.(position := p.position + 1)
    ensures r.1 == EndOfStream <==> p.position >= |p.buffer| && p.closed
    ensures !r.1.Chunk? ==> r.0 == p
  {
    if p.position < |p.buffer| then (p.(position := p.position + 1), Chunk(p.buffer[p.position]))
    else if p.closed then (p, EndOfStream)
    else (p, WouldWait)
  }

  /** `readAll`: takes the unread chunks at once; on an open pipe the caller then waits for
      `close` before receiving them (`completes` is false). */
  function PipeReadAll(p: Pipe): (r: (Pipe, string, bool))
    ensures r.0 == p.(position := |p.buffer|)
    ensures PipeValid(p) ==> r.1 == Concat(p.buffer[p.position..])
    ensures r.2 == p.closed
  {
    (p.(position := |p.buffer|), if p.position <= |p.buffer| then Concat(p.buffer[p.position..]) else "", p.closed)
  }

  function PipeClose(p: Pipe): Pipe {
    p.(closed := true)
  }

  function PipeReadTimes(p: Pipe, k: nat): (r: (Pipe, seq<PipeRead>))
    ensures |r.1| == k
    decreases k
  {
    if k == 0 then (p, [])
    else
      var (p1, c) := PipeReadNext(p);
      var (p2, cs) := PipeReadTimes(p1, k - 1);
      (p2, [c] + cs)
  }

  /** After `close`, reads return the unread chunks in order and then end of stream. */
  lemma {:induction false} PipeClosedReads(p: Pipe, k: nat)
    requires PipeValid(p) && p.closed
    ensures var (p', cs) := PipeReadTimes(p, k);
      var n := if p.position + k <= |p.buffer| then k else |p.buffer| - p.position;
      && |cs| == k
      && (forall i :: 0 <= i < n ==> cs[i] == Chunk(p.buffer[p.position + i]))
      && (forall i :: n <= i < k ==> cs[i] == EndOfStream)
    decreases k
  {
    if k > 0 {
      var (p1, c) := PipeReadNext(p);
      PipeClosedReads(p1, k - 1);
    }
  }

  /** Chunks written to an open pipe are delivered in order; closing makes writes fail. */
  lemma PipeWriteThenClose(p: Pipe, data: string)
    requires PipeValid(p) && !p.closed
    ensures var p1 := PipeWrite(p, data).value;
      && PipeReadAll(PipeClose(p1)).1 == Concat(p.buffer[p.position..]) + data
      && PipeWrite(PipeClose(p1), data) == Err("Stream is closed")
  {
    var p1 := PipeWrite(p, data).value;
    assert p1.buffer[p.position..] == p.buffer[p.position..] + [data];
    ConcatAppend(p.buffer[p.position..], data);
  }

  // ---------------------------------------------------------------------------
  // EmptyInputStream

  datatype EmptyInput = EmptyInput

  function EmptyRead(e: EmptyInput): Option<char> {
    None
  }

  function EmptyReadAll(e: EmptyInput): string {
    ""
  }

  /** The empty stream reads exactly like a string stream over "" at any point. */
  lemma EmptyIsEmptyString(e: EmptyInput, k: nat)
    ensures var s := NewStringInput("");
      && EmptyRead(e) == Read(s).1
      && EmptyReadAll(e) == ReadAll(s).1
      && forall i :: 0 <= i < k ==> ReadTimes(s, k).1[i] == EmptyRead(e)
  {
    ReadInOrder(NewStringInput(""), k);
  }
}
