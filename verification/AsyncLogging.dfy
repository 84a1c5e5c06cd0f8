/** A fixed-size buffer of characters. */
module FixedBuffers {
  const LARGE_BUFFER := 4000 * 1000

  // What a buffer holds, as a value.
  datatype Buffer = Buffer(text: string) {
    function Avail(): int {
      LARGE_BUFFER - |text|
    }

    // What does not fit is dropped whole, and so is what would fill the buffer exactly.
    function Append(line: string): Buffer {
      if Avail() > |line| then Buffer(text + line) else this
    }

    function Reset(): Buffer {
      EMPTY
    }
  }

  const EMPTY := Buffer([])

  // The buffer itself: an array, of which the first `cur` characters are in use.
  class FixedBuffer {
    const data: array<char>
    var cur: nat

    ghost predicate Valid()
      reads this
    {
      cur <= data.Length == LARGE_BUFFER
    }

    ghost function Value(): Buffer
      requires Valid()
      reads this, data
    {
      Buffer(data[..cur])
    }

    constructor ()
      ensures Valid() && fresh(data) && Value() == EMPTY
    {
      data := new char[LARGE_BUFFER];
      cur := 0;
    }

    function Avail(): (r: int)
      requires Valid()
      reads this, data
      ensures r == Value().Avail()
    {
      data.Length - cur
    }

    method Append(line: string)
      requires Valid()
      modifies this`cur, data
      ensures Valid() && Value() == old(Value()).Append(line)
    {
      if Avail() > |line| {
        forall k | 0 <= k < |line| {
          data[cur + k] := line[k];
        }
        cur := cur + |line|;
        assert data[..cur] == old(data[..cur]) + line;
      }
    }

    method Reset()
      requires Valid()
      modifies this`cur
      ensures Valid() && Value() == old(Value()).Reset()
    {
      cur := 0;
    }
  }
}

/**
 * Double-buffered logging.  Any number of threads call Append, which runs under the mutex.  The
 * background thread alternates Swap, which also runs under the mutex, and Write, which touches only
 * what belongs to that thread; so every interleaving is a sequence of calls of the three.
 *
 * Each buffer has one owner at a time, so a buffer is modelled by its value, and one that has been
 * moved away by None.
 */
module AsyncLogging {
  import opened Common
  import opened FixedBuffers

  // The text in a list of buffers.
  ghost function Text(buffers: seq<Buffer>): string {
    if buffers == [] then [] else buffers[0].text + Text(buffers[1..])
  }

  lemma {:induction false} TextAppend(bs: seq<Buffer>, cs: seq<Buffer>)
    ensures Text(bs + cs) == Text(bs) + Text(cs)
  {
    if bs == [] {
      assert bs + cs == cs;
    } else {
      TextAppend(bs[1..], cs);
      assert (bs + cs)[1..] == bs[1..] + cs;
      assert bs[0].text + (Text(bs[1..]) + Text(cs)) == bs[0].text + Text(bs[1..]) + Text(cs);
    }
  }

  lemma {:induction false} TextOne(b: Buffer)
    ensures Text([b]) == b.text
  {
    assert [b][1..] == [];
    assert b.text + [] == b.text;
  }

  lemma {:induction false} TextPush(bs: seq<Buffer>, b: Buffer)
    ensures Text(bs + [b]) == Text(bs) + b.text
  {
    TextAppend(bs, [b]);
    TextOne(b);
  }

  // A batch of more buffers than this is cut down to its first two.
  const MAX_BATCH := 25

  function Written(batch: seq<Buffer>): seq<Buffer> {
    if |batch| > MAX_BATCH then batch[..2] else batch
  }

  // The text is no shorter without the buffers that are cut off, and longer if the first of those is not empty.
  lemma {:induction false} WrittenIsLess(batch: seq<Buffer>)
    ensures |Text(Written(batch))| <= |Text(batch)|
    ensures |batch| > MAX_BATCH && NoneEmpty(batch[..|batch| - 1]) ==> |Text(Written(batch))| < |Text(batch)|
  {
    if |batch| > MAX_BATCH {
      TextAppend(batch[..2], batch[2..]);
      assert batch == batch[..2] + batch[2..];
      assert batch[..|batch| - 1][2] == batch[2] == batch[2..][0];
    }
  }

  ghost predicate NoneEmpty(buffers: seq<Buffer>) {
    forall k | 0 <= k < |buffers| :: buffers[k].text != []
  }

  class AsyncLogging {
    var current: Buffer
    var next: Option<Buffer>
    var buffers: seq<Buffer>
    // The background thread's own.
    var newBuffer1: Option<Buffer>
    var newBuffer2: Option<Buffer>
    var toWrite: seq<Buffer>
    var output: string  // what the log file has been given
    ghost var lines: string  // what of that came from buffers

    // The spare buffers are empty; the front end's can be missing only when a full buffer waits, and
    // the back end's second only when the batch has another buffer to give back.
    ghost predicate Valid()
      reads this
    {
      && |current.text| < LARGE_BUFFER
      && (next.None? ==> buffers != [])
      && (forall b | b in {next, newBuffer1, newBuffer2} :: b.Some? ==> b.value == EMPTY)
      && (if toWrite == [] then newBuffer1.Some? && newBuffer2.Some?
          else newBuffer1.None? && (newBuffer2.None? ==> |toWrite| >= 2))
    }

    // Written, in the batch, in full buffers, and in the current one.
    ghost function Everything(): string
      reads this
    {
      output + (Text(toWrite) + (Text(buffers) + current.text))
    }

    // The same without the messages that tell of dropped buffers.
    ghost function Lines(): string
      reads this
    {
      lines + (Text(toWrite) + (Text(buffers) + current.text))
    }

    // No full buffer is empty.
    ghost predicate Filled()
      reads this
    {
      NoneEmpty(buffers) && (toWrite != [] ==> NoneEmpty(toWrite[..|toWrite| - 1]))
    }

    constructor ()
      ensures Valid() && Everything() == Lines() == [] && toWrite == [] && Filled()
    {
      current, next, buffers := EMPTY, Some(EMPTY), [];
      newBuffer1, newBuffer2, toWrite, output, lines := Some(EMPTY), Some(EMPTY), [], [], [];
    }

    // A line as long as a buffer is lost.
    method Append(line: string)
      requires Valid()
      modifies this
      ensures Valid()
      ensures Everything() == old(Everything()) + if |line| < LARGE_BUFFER then line else []
      ensures Lines() == old(Lines()) + if |line| < LARGE_BUFFER then line else []
      ensures old(Filled()) && |line| < LARGE_BUFFER ==> Filled()
      ensures toWrite == old(toWrite) && output == old(output) && lines == old(lines)
      ensures newBuffer1 == old(newBuffer1) && newBuffer2 == old(newBuffer2)
      ensures if old(current.Avail()) > |line|
              then buffers == old(buffers) && next == old(next) && current == old(current).Append(line)
              else buffers == old(buffers) + [old(current)] && next == None && current == EMPTY.Append(line)
    {
      ghost var kept := if |line| < LARGE_BUFFER then line else [];
      if current.Avail() > |line| {
        current := current.Append(line);
      } else {
        TextPush(buffers, current);
        buffers := buffers + [current];
        if next != None {
          current := next.value;
          next := None;
        } else {
          current := EMPTY;
        }
        current := current.Append(line);
        assert current.text == kept;
      }
      assert Text(buffers) + current.text == old(Text(buffers) + current.text) + kept;
      Regroup(output, Text(toWrite), old(Text(buffers) + current.text), kept);
      Regroup(lines, Text(toWrite), old(Text(buffers) + current.text), kept);
    }

    lemma {:induction false} Regroup(a: string, b: string, c: string, d: string)
      ensures a + (b + (c + d)) == a + (b + c) + d
    {
      assert b + (c + d) == b + c + d;
    }

    // The back end's critical section.  It takes whatever there is, after waiting for it a while.
    method Swap()
      requires Valid() && toWrite == []
      modifies this
      ensures Valid() && toWrite != [] && output == old(output)
      ensures toWrite == old(buffers) + [old(current)] && buffers == [] && current == EMPTY
      ensures next == Some(EMPTY) && newBuffer1 == None && (newBuffer2 == None <==> old(next) == None)
      ensures Everything() == old(Everything()) && Lines() == old(Lines()) && lines == old(lines)
      ensures old(Filled()) ==> Filled()
    {
      TextPush(buffers, current);
      assert old(Text(toWrite)) == [];
      buffers := buffers + [current];
      buffers, toWrite := toWrite, buffers;
      current, newBuffer1 := newBuffer1.value, None;
      if next == None {
        next, newBuffer2 := newBuffer2, None;
      }
      assert [] + Text(toWrite) == Text(toWrite) == Text(toWrite) + ([] + []);
    }

    // Appends the batch to the log file, without what is dropped of it.
    method WriteBatch(dropMessage: string)
      modifies `output, `lines, `toWrite
      ensures toWrite == Written(old(toWrite)) && lines == old(lines) + Text(toWrite)
      ensures output == old(output) + (if |old(toWrite)| > MAX_BATCH then dropMessage else []) + Text(toWrite)
    {
      if |toWrite| > 25 {
        output := output + dropMessage;
        toWrite := toWrite[..2];
      }
      ghost var before := output;
      assert toWrite[..0] == [] && before + [] == before;
      for i := 0 to |toWrite|
        invariant toWrite == Written(old(toWrite)) && lines == old(lines)
        invariant output == before + Text(toWrite[..i])
      {
        TextPush(toWrite[..i], toWrite[i]);
        assert toWrite[..i + 1] == toWrite[..i] + [toWrite[i]];
        assert before + (Text(toWrite[..i]) + toWrite[i].text) == before + Text(toWrite[..i]) + toWrite[i].text;
        output := output + toWrite[i].text;
      }
      assert toWrite[..|toWrite|] == toWrite;
      lines := lines + Text(toWrite);
    }

    method Write(dropMessage: string)
      requires Valid() && toWrite != []
      modifies `output, `lines, `toWrite, `newBuffer1, `newBuffer2
      ensures Valid() && toWrite == []
      ensures output == old(output) + (if |old(toWrite)| > MAX_BATCH then dropMessage else []) + Text(Written(old(toWrite)))
      ensures lines == old(lines) + Text(Written(old(toWrite)))
      ensures |old(toWrite)| <= MAX_BATCH ==> Everything() == old(Everything()) && Lines() == old(Lines())
      ensures |old(toWrite)| > MAX_BATCH && old(Filled()) ==> |Lines()| < |old(Lines())|
      ensures |Lines()| <= |old(Lines())| && (old(Filled()) ==> Filled())
    {
      hide NoneEmpty, Text;
      WriteBatch(dropMessage);
      ghost var batch := toWrite;
      if |toWrite| > 2 {
        toWrite := toWrite[..2];
      }
      if newBuffer1 == None {
        assert toWrite != [];
        newBuffer1 := Some(toWrite[|toWrite| - 1].Reset());
        toWrite := toWrite[..|toWrite| - 1];
      }
      if newBuffer2 == None {
        assert toWrite != [];
        newBuffer2 := Some(toWrite[|toWrite| - 1].Reset());
        toWrite := toWrite[..|toWrite| - 1];
      }
      toWrite := [];
      assert Text(toWrite) == [] by { NoText(); }
      WrittenIsLess(old(toWrite));
      RegroupWritten(old(output), Text(batch), Text(buffers) + current.text);
      RegroupWritten(old(lines), Text(batch), Text(buffers) + current.text);
    }

    lemma {:induction false} NoText()
      ensures Text([]) == []
    {
    }

    lemma {:induction false} RegroupWritten(a: string, b: string, c: string)
      ensures a + (b + c) == a + [] + b + ([] + c)
    {
      assert a + (b + c) == a + b + c;
      assert a + [] == a && [] + c == c;
    }
  }

  // ---------------------------------------------------------------- every interleaving

  datatype Event = Line(line: string) | SwapEvent | WriteEvent(dropMessage: string)

  // The back end alternates between its two parts.
  ghost predicate Alternates(events: seq<Event>, writing: bool) {
    events != [] ==>
      match events[0]
      case Line(_) => Alternates(events[1..], writing)
      case SwapEvent => !writing && Alternates(events[1..], true)
      case WriteEvent(_) => writing && Alternates(events[1..], false)
  }

  // The text an event adds to the log.
  function Kept(event: Event): string {
    if event.Line? && |event.line| < LARGE_BUFFER then event.line else []
  }

  // The lines that are shorter than a buffer, one behind the other.
  lemma {:induction false} LoggedIs(line: string, message: string, rest: seq<Event>)
    ensures Logged([Line(line)] + rest) == if |line| < 4_000_000 then line + Logged(rest) else Logged(rest)
    ensures Logged([SwapEvent] + rest) == Logged([WriteEvent(message)] + rest) == Logged(rest)
    ensures Logged([]) == ""
  {
    assert forall e: Event :: ([e] + rest)[1..] == rest;
  }

  ghost predicate Short(event: Event) {
    event.Line? ==> |event.line| < LARGE_BUFFER
  }

  ghost function Logged(events: seq<Event>): string {
    if events == [] then [] else Kept(events[0]) + Logged(events[1..])
  }

  // Whether some batch outgrows the limit, from a current buffer, a number of full ones and a batch of some size.
  ghost predicate Outgrows(current: Buffer, full: nat, batch: nat, events: seq<Event>)
    decreases |events|
  {
    events != [] &&
    match events[0]
    case Line(line) =>
      if current.Avail() > |line| then Outgrows(current.Append(line), full, batch, events[1..])
      else Outgrows(EMPTY.Append(line), full + 1, batch, events[1..])
    case SwapEvent => Outgrows(EMPTY, 0, full + 1, events[1..])
    case WriteEvent(_) => batch > MAX_BATCH || Outgrows(current, full, 0, events[1..])
  }

  // dropped: whether this event wrote a batch that had outgrown the limit.
  method React(log: AsyncLogging, event: Event, ghost rest: seq<Event>) returns (dropped: bool)
    requires log.Valid()
    requires (event.SwapEvent? ==> log.toWrite == []) && (event.WriteEvent? ==> log.toWrite != [])
    modifies log
    ensures log.Valid() && (log.toWrite != [] <==> event.SwapEvent? || (event.Line? && old(log.toWrite) != []))
    ensures dropped <==> event.WriteEvent? && |old(log.toWrite)| > 25
    ensures old(Outgrows(log.current, |log.buffers|, |log.toWrite|, [event] + rest)) ==
            (dropped || Outgrows(log.current, |log.buffers|, |log.toWrite|, rest))
    ensures !dropped ==> log.Everything() == old(log.Everything()) + Kept(event) && log.Lines() == old(log.Lines()) + Kept(event)
    ensures |log.Lines()| <= |old(log.Lines()) + Kept(event)|
    ensures Short(event) && old(log.Filled()) ==> log.Filled() && (dropped ==> |log.Lines()| < |old(log.Lines()) + Kept(event)|)
  {
    hide Text, AsyncLogging.Filled;
    ghost var before, lines := log.Everything(), log.Lines();
    assert before + [] == before && lines + [] == lines;
    assert ([event] + rest)[1..] == rest;
    dropped := event.WriteEvent? && |log.toWrite| > MAX_BATCH;
    match event {
      case Line(line) => log.Append(line);
      case SwapEvent => log.Swap();
      case WriteEvent(dropMessage) => log.Write(dropMessage);
    }
  }

  // A batch is cut down exactly when one outgrows the limit; if none does, every line is in the log
  // once and in order.  If one does, and no line is as long as a buffer, some of their text is gone.
  method Interleave(log: AsyncLogging, events: seq<Event>) returns (dropped: bool)
    requires log.Valid() && Alternates(events, log.toWrite != [])
    modifies log
    ensures log.Valid()
    ensures dropped <==> old(Outgrows(log.current, |log.buffers|, |log.toWrite|, events))
    ensures !dropped ==> log.Everything() == old(log.Everything()) + Logged(events)
    ensures old(log.Filled()) && (forall e | e in events :: Short(e)) ==>
              (log.Lines() == old(log.Lines()) + Logged(events) <==> !dropped)
  {
    hide AsyncLogging.Everything, AsyncLogging.Lines, AsyncLogging.Valid, AsyncLogging.Filled, Kept, Outgrows, Short;
    assert events[0..] == events;
    dropped := false;
    for i := 0 to |events|
      invariant log.Valid() && Alternates(events[i..], log.toWrite != [])
      invariant old(Outgrows(log.current, |log.buffers|, |log.toWrite|, events)) ==
                (dropped || Outgrows(log.current, |log.buffers|, |log.toWrite|, events[i..]))
      invariant !dropped ==> log.Everything() + Logged(events[i..]) == old(log.Everything()) + Logged(events)
      invariant !dropped ==> log.Lines() + Logged(events[i..]) == old(log.Lines()) + Logged(events)
      invariant |log.Lines()| + |Logged(events[i..])| <= |old(log.Lines()) + Logged(events)|
      invariant old(log.Filled()) && (forall e | e in events :: Short(e)) ==>
                  log.Filled() && (dropped ==> |log.Lines()| + |Logged(events[i..])| < |old(log.Lines()) + Logged(events)|)
    {
      ghost var before, lines := log.Everything(), log.Lines();
      assert events[i..][1..] == events[i + 1..] && events[i..] == [events[i]] + events[i + 1..];
      Associate(before, Kept(events[i]), Logged(events[i + 1..]));
      Associate(lines, Kept(events[i]), Logged(events[i + 1..]));
      assert events[i] in events;
      var full := React(log, events[i], events[i + 1..]);
      dropped := dropped || full;
    }
    assert events[|events|..] == [];
    NothingOutgrows(log.current, |log.buffers|, |log.toWrite|);
    assert log.Everything() + [] == log.Everything() && log.Lines() + [] == log.Lines();
  }

  lemma {:induction false} NothingOutgrows(current: Buffer, full: nat, batch: nat)
    ensures !Outgrows(current, full, batch, [])
  {}
}
