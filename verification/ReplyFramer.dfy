/** The framing of dna_helper.c: replies come in reads of any size, and are cut into
    lines in a buffer of fixed size. */
module ReplyFramer {

  const BUFFER_SIZE := 2048
  const NEWLINE := '\n'

  // ----- what is promised -----

  /** The complete lines of a stream, each with its newline, and what follows the last. */
  function Lines(stream: string): seq<string>
  {
    if stream == [] then []
    else
      var n := |stream| - 1;
      if stream[n] == NEWLINE then Lines(stream[..n]) + [Pending(stream[..n]) + [NEWLINE]] else Lines(stream[..n])
  }

  function Pending(stream: string): string
  {
    if stream == [] || stream[|stream| - 1] == NEWLINE then []
    else Pending(stream[..|stream| - 1]) + [stream[|stream| - 1]]
  }

  function Join(lines: seq<string>): string
  {
    if lines == [] then [] else Join(lines[..|lines| - 1]) + lines[|lines| - 1]
  }

  predicate IsLine(line: string)
  {
    line != [] && line[|line| - 1] == NEWLINE && NEWLINE !in line[..|line| - 1]
  }

  lemma {:induction false} PendingIsPlain(stream: string)
    ensures NEWLINE !in Pending(stream)
  {
    if stream != [] {
      PendingIsPlain(stream[..|stream| - 1]);
    }
  }

  lemma {:induction false} LinesAreLines(stream: string)
    ensures forall line :: line in Lines(stream) ==> IsLine(line)
  {
    if stream != [] {
      var n := |stream| - 1;
      LinesAreLines(stream[..n]);
      PendingIsPlain(stream[..n]);
      var line := Pending(stream[..n]) + [NEWLINE];
      assert line[..|line| - 1] == Pending(stream[..n]);
    }
  }

  /** Lines and rest make up the stream. */
  lemma {:induction false} LinesMakeStream(stream: string)
    ensures Join(Lines(stream)) + Pending(stream) == stream
  {
    if stream != [] {
      var n := |stream| - 1;
      var lines, rest := Lines(stream[..n]), Pending(stream[..n]);
      LinesMakeStream(stream[..n]);
      assert stream == stream[..n] + [stream[n]];
      if stream[n] == NEWLINE {
        assert (lines + [rest + [NEWLINE]])[..|lines|] == lines;
        assert Join(Lines(stream)) == Join(lines) + (rest + [NEWLINE]);
        assert Join(lines) + (rest + [NEWLINE]) == (Join(lines) + rest) + [NEWLINE];
      } else {
        assert Join(lines) + (rest + [stream[n]]) == (Join(lines) + rest) + [stream[n]];
      }
    }
  }

  /** The lines that fit the buffer. */
  function Short(lines: seq<string>): seq<string>
  {
    if lines == [] then []
    else
      var last := lines[|lines| - 1];
      Short(lines[..|lines| - 1]) + if |last| <= 2048 then [last] else []
  }

  lemma {:induction false} NoNewline(stream: string, chunk: string)
    requires NEWLINE !in chunk
    ensures Lines(stream + chunk) == Lines(stream) && Pending(stream + chunk) == Pending(stream) + chunk
  {
    if chunk == [] {
      assert stream + chunk == stream && Pending(stream) + [] == Pending(stream);
    } else {
      var n := |chunk| - 1;
      assert (stream + chunk)[..|stream + chunk| - 1] == stream + chunk[..n];
      NoNewline(stream, chunk[..n]);
      assert (Pending(stream) + chunk[..n]) + [chunk[n]] == Pending(stream) + chunk;
    }
  }

  lemma OneLine(stream: string, chunk: string)
    requires NEWLINE !in chunk
    ensures Pending(stream + chunk + [NEWLINE]) == []
    ensures Lines(stream + chunk + [NEWLINE]) == Lines(stream) + [Pending(stream) + chunk + [NEWLINE]]
  {
    NoNewline(stream, chunk);
    var s := stream + chunk + [NEWLINE];
    assert s[..|s| - 1] == stream + chunk;
  }

  lemma ShortAppend(lines: seq<string>, line: string)
    ensures Short(lines + [line]) == Short(lines) + if |line| <= BUFFER_SIZE then [line] else []
  {
  }

  // ----- the framer -----

  class Framer {
    const buffer: array<char>
    var used: nat
    var discarding: bool
    /** Everything read so far, and the lines handed on. */
    ghost var stream: string
    ghost var handled: seq<string>

    /** The buffer holds what is left of the unfinished line after whole buffers of it
        have been thrown away. */
    ghost predicate Valid()
      reads this, buffer
    {
      && buffer.Length == BUFFER_SIZE && used < BUFFER_SIZE
      && handled == Short(Lines(stream))
      && Remainder(Pending(stream), buffer[..used], discarding)
    }

    constructor ()
      ensures Valid() && stream == [] && handled == [] && fresh(buffer)
    {
      buffer := new char[BUFFER_SIZE];
      used, discarding, stream, handled := 0, false, [], [];
    }

    /** For the output of another process. */
    method Empty()
      requires Valid()
      modifies this
      ensures Valid() && stream == [] && handled == []
    {
      used, discarding, stream, handled := 0, false, [], [];
      assert buffer[..0] == [];
    }

    /** Find the next newline from `from` on. */
    method Newline(from: nat, to: nat) returns (found: bool, at: nat)
      requires from <= to <= buffer.Length
      ensures found ==> from <= at < to && buffer[at] == NEWLINE && NEWLINE !in buffer[from..at]
      ensures !found ==> NEWLINE !in buffer[from..to]
    {
      at := from;
      while at < to
        invariant from <= at <= to && NEWLINE !in buffer[from..at]
      {
        if buffer[at] == NEWLINE {
          return true, at;
        }
        at := at + 1;
      }
      found := false;
    }
  
    /** Copy what has been read behind what is there. */
    method Fill(chunk: string)
      requires used + |chunk| <= buffer.Length
      modifies buffer
      ensures buffer[..used + |chunk|] == old(buffer[..used]) + chunk
    {
      for i := 0 to |chunk|
        invariant buffer[..used] == old(buffer[..used])
        invariant buffer[used..used + i] == chunk[..i]
      {
        buffer[used + i] := chunk[i];
        assert buffer[used..used + i + 1] == buffer[used..used + i] + [chunk[i]];
      }
      assert buffer[..used + |chunk|] == buffer[..used] + buffer[used..used + |chunk|];
    }

    /** Move what follows `from` to the front. */
    method MoveDown(from: nat)
      requires from <= used <= buffer.Length
      modifies this`used, buffer
      ensures used == old(used) - from && buffer[..used] == old(buffer[from..used])
    {
      var len := used - from;
      for i := 0 to len
        invariant forall j :: 0 <= j < i ==> buffer[j] == old(buffer[from + j])
        invariant forall j :: i <= j < buffer.Length ==> buffer[j] == old(buffer[j])
      {
        buffer[i] := buffer[from + i];
      }
      used := len;
    }

    /** The line that ends at `nl` and starts at `bufp`. */
    method TakeLine(bufp: nat, readp: nat, nl: nat, ghost rest: string) returns (lines: seq<string>)
      requires bufp <= readp <= nl < used <= BUFFER_SIZE == buffer.Length
      requires buffer[nl] == NEWLINE && NEWLINE !in buffer[readp..nl] && buffer[bufp..readp] == rest
      requires handled == Short(Lines(stream)) && Remainder(Pending(stream), rest, discarding)
      modifies this`stream, this`handled, this`discarding
      ensures stream == old(stream) + buffer[readp..nl + 1] && Pending(stream) == [] && !discarding
      ensures handled == Short(Lines(stream)) == old(handled) + lines
    {
      hide Short, Lines, Pending, Remainder;
      ghost var piece := buffer[readp..nl];
      OneLine(stream, piece);
      ShortAppend(Lines(stream), Pending(stream) + piece + [NEWLINE]);
      LineInBuffer(Pending(stream), rest, piece, discarding);
      var line := buffer[bufp..nl + 1];
      assert line == rest + piece + [NEWLINE];
      assert buffer[readp..nl + 1] == piece + [NEWLINE];
      assert stream + (piece + [NEWLINE]) == stream + piece + [NEWLINE];
      lines := [];
      if discarding {
        discarding := false;
      } else {
        lines := [line];
      }
      stream, handled := stream + (piece + [NEWLINE]), handled + lines;
    }

    static lemma SameSlice(buffer: array<char>, text: string, lo: nat, hi: nat)
      requires lo <= hi <= |text| <= buffer.Length && buffer[..|text|] == text
      ensures buffer[lo..hi] == text[lo..hi]
    {
      assert forall i :: 0 <= i < |text| ==> buffer[i] == buffer[..|text|][i];
    }

    /** Take the next complete line, if there is one; `text` is the used part of the buffer. */
    method CutOne(bufp: nat, readp: nat, ghost text: string, ghost rest: string)
      returns (found: bool, lines: seq<string>, next: nat)
      requires bufp <= readp <= used == |text| <= BUFFER_SIZE == buffer.Length && buffer[..used] == text
      requires text[bufp..readp] == rest
      requires handled == Short(Lines(stream)) && Remainder(Pending(stream), rest, discarding)
      modifies this`stream, this`handled, this`discarding
      ensures found ==> readp < next <= used && stream == old(stream) + text[readp..next]
      ensures found ==> Pending(stream) == [] && !discarding && handled == Short(Lines(stream)) == old(handled) + lines
      ensures !found ==> NEWLINE !in text[readp..] && unchanged(this)
    {
      hide Short, Lines, Pending, Remainder;
      var nl;
      found, nl := Newline(readp, used);
      lines, next := [], nl + 1;
      if found {
        SameSlice(buffer, text, bufp, readp);
        SameSlice(buffer, text, readp, nl + 1);
        lines := TakeLine(bufp, readp, nl, rest);
      } else {
        SameSlice(buffer, text, readp, used);
      }
    }

    /** Take all lines that are complete, from the first newline at or after `from` on. */
    method Cut(from: nat, ghost text: string) returns (lines: seq<string>, bufp: nat)
      requires from <= used == |text| <= BUFFER_SIZE == buffer.Length && buffer[..used] == text
      requires handled == Short(Lines(stream)) && Remainder(Pending(stream), text[..from], discarding)
      modifies this`stream, this`handled, this`discarding
      ensures bufp <= used && stream == old(stream) + text[from..]
      ensures handled == Short(Lines(stream)) == old(handled) + lines
      ensures bufp == 0 ==> discarding == old(discarding) && Pending(stream) == old(Pending(stream)) + text[from..]
      ensures bufp != 0 ==> !discarding && Pending(stream) == text[bufp..]
    {
      hide Short, Lines, Pending, Remainder;
      lines, bufp := [], 0;
      var readp := from;
      ghost var rest := text[..from];
      var found := true;
      while found
        invariant from <= readp <= used && bufp <= readp && text[bufp..readp] == rest
        invariant stream == old(stream) + text[from..readp] && Remainder(Pending(stream), rest, discarding)
        invariant handled == Short(Lines(stream)) == old(handled) + lines
        invariant bufp == 0 ==> readp == from && discarding == old(discarding) && stream == old(stream)
        invariant bufp != 0 ==> bufp == readp && !discarding && Pending(stream) == []
        invariant !found ==> NEWLINE !in text[readp..]
        decreases used - readp, found
      {
        var more, next;
        found, more, next := CutOne(bufp, readp, text, rest);
        if found {
          lines := lines + more;
          Slices(old(stream), text, from, readp, next);
          readp, bufp, rest := next, next, [];
          Nothing();
        }
      }
      NoNewline(stream, text[readp..]);
      Slices(old(stream), text, from, readp, used);
      stream := stream + text[readp..];
    }

    lemma Slices(stream: string, text: string, from: nat, mid: nat, to: nat)
      requires from <= mid <= to <= |text|
      ensures (stream + text[from..mid]) + text[mid..to] == stream + text[from..to]
      ensures to == |text| ==> text[mid..to] == text[mid..] && text[from..to] == text[from..]
    {
    }

    lemma Nothing()
      ensures Remainder([], [], false)
    {
    }

    /** monitor_replies: one read, whose complete lines are handed on unless they are too
        long. */
    method Receive(chunk: string) returns (lines: seq<string>)
      requires Valid() && used + |chunk| <= BUFFER_SIZE
      modifies this, buffer
      ensures Valid() && stream == old(stream) + chunk && handled == old(handled) + lines
    {
      hide Short, Lines, Pending;
      ghost var rest, pending := buffer[..used], Pending(stream);
      var from := used;
      Fill(chunk);
      used := used + |chunk|;
      ghost var text := rest + chunk;
      assert text[..from] == rest && text[from..] == chunk;
      var bufp;
      lines, bufp := Cut(from, text);
      if bufp != 0 {
        MoveDown(bufp);
      } else {
        Accumulates(pending, rest, chunk, discarding);
        if used >= BUFFER_SIZE {
          used, discarding := 0, true;
        }
      }
    }
  }

  lemma Accumulates(pending: string, rest: string, chunk: string, discarding: bool)
    requires Remainder(pending, rest, discarding) && |rest| + |chunk| <= BUFFER_SIZE
    ensures if |rest| + |chunk| == BUFFER_SIZE then Remainder(pending + chunk, [], true)
            else Remainder(pending + chunk, rest + chunk, discarding)
  {
  }

  /** `rest` is what a buffer keeps of `pending` when it is emptied each time it is full. */
  ghost predicate Remainder(pending: string, rest: string, discarding: bool)
  {
    && |rest| < BUFFER_SIZE && |rest| <= |pending| && rest == pending[|pending| - |rest|..]
    && (|pending| - |rest|) % BUFFER_SIZE == 0
    && (discarding <==> |rest| < |pending|)
  }

  /** At a newline the buffer holds the whole line, or the end of one that is too long. */
  lemma LineInBuffer(pending: string, rest: string, piece: string, discarding: bool)
    requires Remainder(pending, rest, discarding) && |rest| + |piece| < BUFFER_SIZE
    ensures var line := pending + piece + [NEWLINE];
            if discarding then |line| > BUFFER_SIZE else |line| <= BUFFER_SIZE && line == rest + piece + [NEWLINE]
  {
  }

  /** A stream that arrives in reads of these sizes, each cut off at the room that is left:
      whatever the sizes, exactly its short lines are handed on. */
  method FrameAll(input: string, sizes: seq<nat>) returns (lines: seq<string>, read: nat)
    ensures read <= |input| && lines == Short(Lines(input[..read]))
  {
    hide Short, Lines, Pending;
    var framer := new Framer();
    lines, read := [], 0;
    for i := 0 to |sizes|
      invariant framer.Valid() && fresh(framer) && fresh(framer.buffer)
      invariant read <= |input| && framer.stream == input[..read] && framer.handled == lines
    {
      var n := sizes[i];
      if n > BUFFER_SIZE - framer.used {
        n := BUFFER_SIZE - framer.used;
      }
      if n > |input| - read {
        n := |input| - read;
      }
      var more := framer.Receive(input[read..read + n]);
      lines := lines + more;
      assert input[..read] + input[read..read + n] == input[..read + n];
      read := read + n;
    }
  }
}
