/**
 * Line framing on the client socket: `read_line` pulls one byte per `read`
 * call until a newline, the end of the stream or a full buffer.
 */
module LineReader {
  import opened Wire

  /**
   * What one `read(fd, &c, 1)` call yields: a byte, an interrupted call
   * (`EINTR`) or any other error. A stream whose events are used up reads as
   * end of file (`read` returns 0).
   */
  datatype ReadEvent = Data(c: Byte) | Interrupted | Failed

  /** The outcome of one `read_line`: the bytes stored in the buffer, or -1. */
  datatype LineResult = Line(bytes: seq<Byte>) | ReadError

  /** Puts `prefix` in front of a line that was read; an error stays an error. */
  function Prepended(prefix: seq<Byte>, r: (LineResult, seq<ReadEvent>)): (LineResult, seq<ReadEvent>)
  {
    match r.0
    case Line(bytes) => (Line(prefix + bytes), r.1)
    case ReadError => r
  }

  lemma PrependedTwice(p: seq<Byte>, q: seq<Byte>, r: (LineResult, seq<ReadEvent>))
    ensures Prepended(p, Prepended(q, r)) == Prepended(p + q, r)
  {
    if r.0.Line? {
      assert p + (q + r.0.bytes) == (p + q) + r.0.bytes;
    }
  }

  /** One call of `read` inside `read_line`, seen from the line read so far. */
  lemma ReadStep(done: seq<Byte>, input: seq<ReadEvent>, room: nat)
    requires input != [] && room > 0
    ensures match input[0]
      case Interrupted => ReadFrom(input, room) == ReadFrom(input[1..], room)
      case Failed => Prepended(done, ReadFrom(input, room)) == (ReadError, input[1..])
      case Data(c) =>
        Prepended(done, ReadFrom(input, room)) ==
          if c == NL then (Line(done + [c]), input[1..])
          else Prepended(done + [c], ReadFrom(input[1..], room - 1))
  {
    if input[0].Data? && input[0].c != NL {
      PrependedTwice(done, [input[0].c], ReadFrom(input[1..], room - 1));
    }
  }

  /**
   * `read_line` with `room` = maxlen - 1 bytes of space: the result and the
   * events left unread.
   */
  function ReadFrom(input: seq<ReadEvent>, room: nat): (r: (LineResult, seq<ReadEvent>))
    ensures |r.1| <= |input|
  {
    if room == 0 || input == [] then (Line([]), input)
    else match input[0]
      case Interrupted => ReadFrom(input[1..], room)
      case Failed => (ReadError, input[1..])
      case Data(c) =>
        if c == NL then (Line([c]), input[1..])
        else Prepended([c], ReadFrom(input[1..], room - 1))
  }

  /** The bytes carried by a run of read events, in order. */
  function DataOf(events: seq<ReadEvent>): seq<Byte>
  {
    if events == [] then []
    else (if events[0].Data? then [events[0].c] else []) + DataOf(events[1..])
  }

  /** The stream delivering `bytes` one by one, with no interruption. */
  function Events(bytes: seq<Byte>): (e: seq<ReadEvent>)
    ensures |e| == |bytes| && forall i :: 0 <= i < |bytes| ==> e[i] == Data(bytes[i])
  {
    seq(|bytes|, i requires 0 <= i < |bytes| => Data(bytes[i]))
  }

  /**
   * A line holds at most `room` bytes and a newline only as its last byte;
   * reading stops at a newline, at the end of the stream or when the room
   * is used up.
   */
  lemma {:induction false} LineFraming(input: seq<ReadEvent>, room: nat)
    ensures var (res, rest) := ReadFrom(input, room);
      res.Line? ==>
        && |res.bytes| <= room
        && (forall i :: 0 <= i < |res.bytes| - 1 ==> res.bytes[i] != NL)
        && (|res.bytes| == room || rest == [] || (res.bytes != [] && res.bytes[|res.bytes| - 1] == NL))
  {
    if room != 0 && input != [] {
      match input[0]
      case Interrupted => LineFraming(input[1..], room);
      case Failed =>
      case Data(c) =>
        if c != NL {
          LineFraming(input[1..], room - 1);
        }
    }
  }

  /** `read_line` consumes a prefix of the stream and leaves the rest unread. */
  lemma {:induction false} ReadLeavesSuffix(input: seq<ReadEvent>, room: nat)
    ensures var rest := ReadFrom(input, room).1;
      input[..|input| - |rest|] + rest == input
  {
    var rest := ReadFrom(input, room).1;
    if room != 0 && input != [] && !input[0].Failed? && !(input[0].Data? && input[0].c == NL) {
      ReadLeavesSuffix(input[1..], if input[0].Data? then room - 1 else room);
      assert input[1..][..|input| - 1 - |rest|] + rest == input[1..];
      assert input[..|input| - |rest|] == [input[0]] + input[1..][..|input| - 1 - |rest|];
    }
  }

  /**
   * The events `read_line` consumes: it yields a line exactly when none of
   * them is an error, and the line is the data they carry; -1 comes only
   * from a failed read, which is the last one made.
   */
  lemma {:induction false} LineIsReadData(input: seq<ReadEvent>, room: nat)
    ensures var (res, rest) := ReadFrom(input, room);
      var used := input[..|input| - |rest|];
      && (res.Line? <==> Failed !in used)
      && (res.Line? ==> res.bytes == DataOf(used))
      && (res.ReadError? ==> used != [] && used[|used| - 1] == Failed)
  {
    if room != 0 && input != [] {
      var (res, rest) := ReadFrom(input, room);
      var used := input[..|input| - |rest|];
      var (res', rest') := ReadFrom(input[1..], if input[0].Data? then room - 1 else room);
      match input[0]
      case Interrupted =>
        LineIsReadData(input[1..], room);
        assert used == [input[0]] + input[1..][..|input| - 1 - |rest|];
      case Failed =>
        assert used == [Failed];
      case Data(c) =>
        if c == NL {
          assert used == [input[0]];
          assert DataOf(used) == [c] + DataOf([]);
        } else {
          LineIsReadData(input[1..], room - 1);
          assert used == [input[0]] + input[1..][..|input| - 1 - |rest|];
        }
    }
  }

  /** A line the peer sent whole, newline last, is read back exactly and nothing after it is consumed. */
  lemma {:induction false} ReadsSentLine(line: seq<Byte>, rest: seq<ReadEvent>, room: nat)
    requires line != [] && line[|line| - 1] == NL
    requires forall i :: 0 <= i < |line| - 1 ==> line[i] != NL
    requires |line| <= room
    ensures ReadFrom(Events(line) + rest, room) == (Line(line), rest)
  {
    var input := Events(line) + rest;
    assert input[0] == Data(line[0]);
    if |line| > 1 {
      assert input[1..] == Events(line[1..]) + rest;
      ReadsSentLine(line[1..], rest, room - 1);
      assert [line[0]] + line[1..] == line;
    } else {
      assert input[1..] == rest && line == [NL];
    }
  }

  /**
   * A longer line is cut after `room` bytes, with no newline: the bytes
   * after the cut stay unread and open the next line.
   */
  lemma {:induction false} LongLineIsSplit(bytes: seq<Byte>, rest: seq<ReadEvent>, room: nat)
    requires room <= |bytes|
    requires forall i :: 0 <= i < room ==> bytes[i] != NL
    ensures ReadFrom(Events(bytes) + rest, room) == (Line(bytes[..room]), Events(bytes[room..]) + rest)
  {
    var input := Events(bytes) + rest;
    if room == 0 {
      assert input == Events(bytes[room..]) + rest;
    } else {
      assert input[0] == Data(bytes[0]);
      assert input[1..] == Events(bytes[1..]) + rest;
      LongLineIsSplit(bytes[1..], rest, room - 1);
      assert bytes[1..][room - 1..] == bytes[room..];
      assert [bytes[0]] + bytes[1..][..room - 1] == bytes[..room];
    }
  }

  /** The client socket: the read events still to come and the bytes written so far. */
  class Connection {
    var incoming: seq<ReadEvent>
    var outgoing: seq<Byte>

    constructor (input: seq<ReadEvent>)
      ensures incoming == input && outgoing == []
    {
      incoming := input;
      outgoing := [];
    }

    /** `write_all`: every byte reaches the peer, in order. */
    method WriteAll(bytes: seq<Byte>)
      modifies this
      ensures incoming == old(incoming)
      ensures outgoing == old(outgoing) + bytes
    {
      outgoing := outgoing + bytes;
    }
  }

  /**
   * `read_line(fd, buf, buf.Length)`: stores the line in `buf`, terminates
   * it with a NUL and returns its length, or returns -1 on a read error.
   */
  method ReadLine(conn: Connection, buf: array<Byte>) returns (n: int)
    requires buf.Length >= 1
    modifies conn, buf
    ensures conn.outgoing == old(conn.outgoing)
    ensures conn.incoming == ReadFrom(old(conn.incoming), buf.Length - 1).1
    ensures match ReadFrom(old(conn.incoming), buf.Length - 1).0
      case ReadError => n == -1
      case Line(bytes) => 0 <= n < buf.Length && n == |bytes| && buf[..n] == bytes && buf[n] == NUL
  {
    ghost var room := buf.Length - 1;
    var input := conn.incoming;
    ghost var input0 := input;
    var count := 0;
    assert buf[..count] == [];
    match ReadFrom(input, room) {
      case (Line(bytes), _) => assert [] + bytes == bytes;
      case _ =>
    }
    while count + 1 < buf.Length
      invariant 0 <= count < buf.Length
      invariant ReadFrom(input0, room) == Prepended(buf[..count], ReadFrom(input, room - count))
      invariant conn.outgoing == old(conn.outgoing)
      decreases |input|
    {
      if input == [] {
        break;
      }
      ReadStep(buf[..count], input, room - count);
      ghost var done := buf[..count];
      var event := input[0];
      input := input[1..];
      match event
      case Interrupted =>
      case Failed =>
        conn.incoming := input;
        return -1;
      case Data(c) =>
        buf[count] := c;
        assert buf[..count + 1] == done + [c];
        count := count + 1;
        if c == NL {
          break;
        }
    }
    assert buf[..count] + [] == buf[..count];
    ghost var line := buf[..count];
    assert ReadFrom(input0, room) == (Line(line), input);
    buf[count] := NUL;
    assert buf[..count] == line;
    conn.incoming := input;
    return count;
  }
}
