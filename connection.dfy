/** The per-connection task of src/main.rs: read one control byte and six
    code bytes, drop the connection on a short read, a control byte other than
    SOH or code bytes that are not UTF-8, otherwise log the command and write
    the server's response; repeat.

    The socket is the sequence of bytes the peer sends, read from a cursor.
    What the task does is a trace of events: each log attempt and each write.
    The clock readings, the outcome of each log write and the peer's address
    come from `Env`, indexed by the number of the accepted message. */
module Connection {
  import opened Utf8
  import opened Responses

  /** One CSV row of the audit log: `[time, source_ip, code]`. */
  datatype Record = Record(time: string, sourceIp: string, code: string)

  datatype Event =
    | Logged(record: Record)     // the row was written to the log
    | LogFailed(record: Record)  // writing the row failed and was reported on stderr
    | Wrote(bytes: seq<byte>)    // the bytes handed to `write_all`

  /** Why the task returned. */
  datatype Close = ShortRead | NotSoh | InvalidUtf8

  /** What the outside world supplies: the peer's address, the RFC 3339 time
      `log` reads and the time `build_header` reads for message `i`, and whether
      writing log row `i` succeeds. */
  datatype Env = Env(
    sourceIp: string,
    logClock: nat -> string,
    headerClock: nat -> string,
    logWrites: nat -> bool)

  /** What the loop makes of the next message on the stream: the code it
      accepts, or why it drops the connection. */
  datatype Outcome = Accepted(code: string) | Closed(reason: Close)

  /** The codes of the messages a stream carries, in order, and why reading
      stops after them. */
  datatype Framing = Framing(codes: seq<string>, reason: Close)

  /** `log`: builds the row and writes it; a failed write is reported and
      otherwise ignored. */
  function Log(now: string, sourceIp: string, code: string, written: bool): (e: Event)
    ensures e.Logged? || e.LogFailed?
    ensures e.record == Record(now, sourceIp, code)
    ensures e.Logged? <==> written
  {
    var record := Record(now, sourceIp, code);
    if written then Logged(record) else LogFailed(record)
  }

  /** One message is a control byte and six code bytes. Too few bytes is a
      short read; the control byte is checked only after the code bytes have
      been read, then the code bytes must be UTF-8. */
  function FirstMessage(input: seq<byte>): (m: Outcome)
    ensures m.Accepted? ==> |input| >= 7
  {
    if |input| < 7 then Closed(ShortRead)
    else if input[0] != SOH then Closed(NotSoh)
    else match FromUtf8(input[1..7])
      case None => Closed(InvalidUtf8)
      case Some(code) => Accepted(code)
  }

  /** How the loop splits `input` into messages. */
  function Frames(input: seq<byte>): Framing
    decreases |input|
  {
    match FirstMessage(input)
    case Closed(reason) => Framing([], reason)
    case Accepted(code) =>
      var rest := Frames(input[7..]);
      Framing([code] + rest.codes, rest.reason)
  }

  /** The two events of accepted message `i`: its log row, then its response. */
  function Step(server: Server, env: Env, i: nat, code: string): seq<Event>
  {
    [Log(env.logClock(i), env.sourceIp, code, env.logWrites(i)),
     Wrote(Response(server, code, env.headerClock(i)))]
  }

  /** The events of a connection that accepts `codes`, in order. */
  function Session(server: Server, codes: seq<string>, env: Env): seq<Event>
    decreases |codes|
  {
    if codes == [] then []
    else
      var i := |codes| - 1;
      Session(server, codes[..i], env) + Step(server, env, i, codes[i])
  }

  /** The bytes written to the socket, in order. */
  function Written(trace: seq<Event>): seq<byte>
  {
    if trace == [] then []
    else (if trace[0].Wrote? then trace[0].bytes else []) + Written(trace[1..])
  }

  /** The rows the log writer accepted, in order. A row is accepted when
      `write_record` succeeds; the `flush` after it can still fail unnoticed. */
  function LogFile(trace: seq<Event>): seq<Record>
  {
    if trace == [] then []
    else (if trace[0].Logged? then [trace[0].record] else []) + LogFile(trace[1..])
  }

  /** The responses to `codes`, one after another. */
  function Replies(server: Server, codes: seq<string>, clock: nat -> string): seq<byte>
    decreases |codes|
  {
    if codes == [] then []
    else
      var i := |codes| - 1;
      Replies(server, codes[..i], clock) + Response(server, codes[i], clock(i))
  }

  /** The seven bytes a client sends for `code`. */
  function Request(code: string): seq<byte>
  {
    [SOH] + ToUtf8(code)
  }

  /** The requests for `codes`, one after another. */
  function Requests(codes: seq<string>): seq<byte>
  {
    if codes == [] then [] else Request(codes[0]) + Requests(codes[1..])
  }

  lemma AcceptedMessage(input: seq<byte>)
    requires FirstMessage(input).Accepted?
    ensures |input| >= 7 && input[0] == SOH
    ensures FromUtf8(input[1..7]) == Some(FirstMessage(input).code)
    ensures Frames(input).codes == [FirstMessage(input).code] + Frames(input[7..]).codes
  {
  }

  /** Accepted message `i` is the seven bytes at offset `7 * i`: SOH and the
      UTF-8 encoding of the code. */
  lemma {:induction false} FramesAt(input: seq<byte>, i: nat)
    requires i < |Frames(input).codes|
    ensures 7 * i + 7 <= |input|
    ensures input[7 * i] == SOH
    ensures ToUtf8(Frames(input).codes[i]) == input[7 * i + 1..7 * i + 7]
    decreases i
  {
    if i == 0 {
      AcceptedMessage(input);
      Utf8Exact(input[1..7], Frames(input).codes[0]);
    } else {
      var tail := input[7..];
      assert FirstMessage(input).Accepted?;
      var f, g := Frames(input).codes, Frames(tail).codes;
      assert f == [FirstMessage(input).code] + g by {
        AcceptedMessage(input);
      }
      assert f[i] == g[i - 1];
      FramesAt(tail, i - 1);
      assert tail[7 * (i - 1)] == input[7 * i];
      assert tail[7 * (i - 1) + 1..7 * (i - 1) + 7] == input[7 * i + 1..7 * i + 7];
    }
  }

  /** The message after the accepted ones is the one that ended the
      connection, and it is ill-formed in exactly the way `reason` says. */
  lemma {:induction false} FramesStop(input: seq<byte>)
    ensures var f := Frames(input); var n := 7 * |f.codes|;
      n <= |input| && FirstMessage(input[n..]) == Closed(f.reason)
    ensures var f := Frames(input); var n := 7 * |f.codes|;
      (f.reason == ShortRead <==> |input| - n < 7) &&
      (f.reason == NotSoh <==> |input| - n >= 7 && input[n] != SOH) &&
      (f.reason == InvalidUtf8 <==>
        |input| - n >= 7 && input[n] == SOH && FromUtf8(input[n + 1..n + 7]).None?)
    decreases |input|
  {
    var f := Frames(input);
    if FirstMessage(input).Accepted? {
      FramesStop(input[7..]);
      var n := 7 * |f.codes|;
      assert input[7..][n - 7..] == input[n..];
    } else {
      assert input[0..] == input;
    }
    var n := 7 * |f.codes|;
    var tail := input[n..];
    if |tail| >= 7 {
      assert tail[0] == input[n] && tail[1..7] == input[n + 1..n + 7];
    }
  }

  /** A request for a code of six UTF-8 bytes is accepted as that code. */
  lemma RequestAccepted(code: string, more: seq<byte>)
    requires |ToUtf8(code)| == 6
    ensures FirstMessage(Request(code) + more) == Accepted(code)
    ensures (Request(code) + more)[7..] == more
  {
    var input := Request(code) + more;
    assert input[1..7] == ToUtf8(code);
    FromToUtf8(code);
  }

  /** One request in front of a stream adds its code in front of the stream's
      codes and leaves the reason reading stops unchanged. */
  lemma RequestFramed(code: string, more: seq<byte>)
    requires |ToUtf8(code)| == 6
    ensures Frames(Request(code) + more) == Framing([code] + Frames(more).codes, Frames(more).reason)
  {
    RequestAccepted(code, more);
  }

  /** A client's requests come back out of the framing as the codes it sent,
      whatever follows them, provided each code is six bytes of UTF-8. */
  lemma {:induction false} FramesOfRequests(codes: seq<string>, rest: seq<byte>)
    requires forall i :: 0 <= i < |codes| ==> |ToUtf8(codes[i])| == 6
    ensures Frames(Requests(codes) + rest) == Framing(codes + Frames(rest).codes, Frames(rest).reason)
  {
    if codes == [] {
      assert Requests(codes) + rest == rest;
    } else {
      var more := Requests(codes[1..]) + rest;
      var after := Frames(rest);
      assert Frames(more) == Framing(codes[1..] + after.codes, after.reason) by {
        FramesOfRequests(codes[1..], rest);
      }
      assert Requests(codes) + rest == Request(codes[0]) + more;
      assert Frames(Request(codes[0]) + more) == Framing([codes[0]] + Frames(more).codes, after.reason) by {
        RequestFramed(codes[0], more);
      }
      assert [codes[0]] + (codes[1..] + after.codes) == codes + after.codes;
    }
  }

  /** Session grows by one step per accepted code. */
  lemma SessionSnoc(server: Server, codes: seq<string>, code: string, env: Env)
    ensures Session(server, codes + [code], env) == Session(server, codes, env) + Step(server, env, |codes|, code)
  {
    assert (codes + [code])[..|codes|] == codes;
  }

  /** Accepting the message at `pos` moves the framing of the rest of the
      stream seven bytes on. */
  lemma FramesAdvance(input: seq<byte>, pos: nat)
    requires pos <= |input| && FirstMessage(input[pos..]).Accepted?
    ensures pos + 7 <= |input|
    ensures Frames(input[pos..]).codes == [FirstMessage(input[pos..]).code] + Frames(input[pos + 7..]).codes
    ensures Frames(input[pos..]).reason == Frames(input[pos + 7..]).reason
  {
    assert input[pos..][7..] == input[pos + 7..];
  }

  /** Every accepted message `i` gives two events, in this order: the log
      attempt for its code, then the write of its response. */
  lemma {:induction false} SessionAt(server: Server, codes: seq<string>, env: Env, i: nat)
    requires i < |codes|
    ensures |Session(server, codes, env)| == 2 * |codes|
    ensures Session(server, codes, env)[2 * i] ==
      Log(env.logClock(i), env.sourceIp, codes[i], env.logWrites(i))
    ensures Session(server, codes, env)[2 * i + 1] ==
      Wrote(Response(server, codes[i], env.headerClock(i)))
    decreases |codes|
  {
    var n := |codes| - 1;
    if i < n {
      SessionAt(server, codes[..n], env, i);
    } else if n > 0 {
      SessionAt(server, codes[..n], env, 0);
    }
  }

  lemma {:induction false} WrittenAppend(a: seq<Event>, b: seq<Event>)
    ensures Written(a + b) == Written(a) + Written(b)
  {
    if a == [] {
      assert a + b == b;
    } else {
      assert (a + b)[0] == a[0] && (a + b)[1..] == a[1..] + b;
      WrittenAppend(a[1..], b);
    }
  }

  /** The bytes a connection writes are the responses to its accepted codes,
      one after another and nothing else. */
  lemma {:induction false} WrittenSession(server: Server, codes: seq<string>, env: Env)
    ensures Written(Session(server, codes, env)) == Replies(server, codes, env.headerClock)
    decreases |codes|
  {
    if codes != [] {
      var n := |codes| - 1;
      WrittenSession(server, codes[..n], env);
      var step := Step(server, env, n, codes[n]);
      WrittenAppend(Session(server, codes[..n], env), step);
      assert step[0].Logged? || step[0].LogFailed?;
      assert Written(step[1..][1..]) == [];
      assert Written(step[1..]) == Response(server, codes[n], env.headerClock(n));
    }
  }

  /** A failed log write changes nothing on the wire: the bytes written are
      the same whatever each log write does. */
  lemma LogOutcomeIrrelevant(server: Server, codes: seq<string>, env: Env, writes: nat -> bool)
    ensures Written(Session(server, codes, env)) == Written(Session(server, codes, env.(logWrites := writes)))
  {
    WrittenSession(server, codes, env);
    WrittenSession(server, codes, env.(logWrites := writes));
  }

  lemma {:induction false} LogFileAppend(a: seq<Event>, b: seq<Event>)
    ensures LogFile(a + b) == LogFile(a) + LogFile(b)
  {
    if a == [] {
      assert a + b == b;
    } else {
      assert (a + b)[0] == a[0] && (a + b)[1..] == a[1..] + b;
      LogFileAppend(a[1..], b);
    }
  }

  /** When every `write_record` succeeds the log writer has accepted exactly
      one row per accepted message, in order: its time, the peer's address and
      its code. */
  lemma {:induction false} LogFileSession(server: Server, codes: seq<string>, env: Env)
    requires forall i :: env.logWrites(i)
    ensures |LogFile(Session(server, codes, env))| == |codes|
    ensures forall i :: 0 <= i < |codes| ==>
      LogFile(Session(server, codes, env))[i] == Record(env.logClock(i), env.sourceIp, codes[i])
    decreases |codes|
  {
    if codes != [] {
      var n := |codes| - 1;
      LogFileSession(server, codes[..n], env);
      var step := Step(server, env, n, codes[n]);
      LogFileAppend(Session(server, codes[..n], env), step);
      assert step[0] == Logged(Record(env.logClock(n), env.sourceIp, codes[n]));
      assert LogFile(step[1..][1..]) == [];
      assert LogFile(step[1..]) == [];
    }
  }

  /** A connection that answered anything has last written CR CR ETX. */
  lemma RepliesEndWithTrailer(server: Server, codes: seq<string>, clock: nat -> string)
    requires codes != []
    ensures var w := Replies(server, codes, clock); |w| >= 13 && w[|w| - 3..] == TRAILER
  {
    var n := |codes| - 1;
    var r := Response(server, codes[n], clock(n));
    if codes[n] == INVENTORY_CODE {
      HeaderFraming(server, codes[n], clock(n));
    }
    assert r[|r| - 3..] == TRAILER;
  }

  /** A rejected code does not end the connection: a report request, then a
      lone SOH, gets one 13-byte rejection before the short read ends it. */
  lemma ExampleRejectionKeepsConnection(server: Server, env: Env)
    ensures Frames(Request("I20200") + [SOH]) == Framing(["I20200"], ShortRead)
    ensures Written(Session(server, ["I20200"], env)) == UNRECOGNIZED + [CR, CR, ETX]
  {
    AsciiBytes("I20200");
    FramesOfRequests(["I20200"], [SOH]);
    assert Requests(["I20200"]) == Request("I20200");
    WrittenSession(server, ["I20200"], env);
    assert ["I20200"][..0] == [];
  }

  /** Seven bytes that do not start with SOH end the connection with nothing
      accepted, even when the rest spells the inventory code. */
  lemma ExampleNotSoh()
    ensures Frames([0x02] + ToUtf8("I20100")) == Framing([], NotSoh)
  {
    AsciiBytes("I20100");
  }

  /** Fewer than seven bytes are a short read whatever the first one is: the
      control byte is not looked at before the code bytes have arrived. */
  lemma ExampleControlCheckedLate()
    ensures Frames([0x02, 0x49]) == Framing([], ShortRead)
  {
  }

  /** A code field holding a byte that never occurs in UTF-8 ends the
      connection. */
  lemma ExampleInvalidUtf8()
    ensures Frames([SOH, 0x49, 0x32, 0x30, 0x31, 0x30, 0xFF]) == Framing([], InvalidUtf8)
  {
    var code: seq<byte> := [0x49, 0x32, 0x30, 0x31, 0x30, 0xFF];
    assert [SOH, 0x49, 0x32, 0x30, 0x31, 0x30, 0xFF][1..7] == code;
    assert code[5..] == [0xFF];
    assert FromUtf8([0xFF]) == None;
  }

  /** The code field is taken whole: "I2010X" is not read as the inventory code
      plus a selector but as an unknown code, which is rejected. */
  lemma ExampleCodeTakenWhole(server: Server, env: Env)
    ensures Frames(Request("I2010X")).codes == ["I2010X"]
    ensures Written(Session(server, ["I2010X"], env)) == UNRECOGNIZED + [CR, CR, ETX]
  {
    AsciiBytes("I2010X");
    FramesOfRequests(["I2010X"], []);
    assert Requests(["I2010X"]) + [] == Request("I2010X");
    WrittenSession(server, ["I2010X"], env);
    assert ["I2010X"][..0] == [];
  }

  /** `read_exact` on the stream from `pos`: fills `buf` and moves past it, or
      fails when fewer bytes remain, consuming them into the front of `buf`. */
  method ReadExact(input: seq<byte>, pos: nat, buf: array<byte>) returns (ok: bool, next: nat)
    requires pos <= |input|
    modifies buf
    ensures ok <==> pos + buf.Length <= |input|
    ensures ok ==> next == pos + buf.Length && buf[..] == input[pos..next]
    ensures !ok ==> next == |input| && buf[..next - pos] == input[pos..]
  {
    var i := 0;
    while i < buf.Length && pos + i < |input|
      invariant 0 <= i <= buf.Length && pos + i <= |input|
      invariant buf[..i] == input[pos..pos + i]
    {
      buf[i] := input[pos + i];
      i := i + 1;
    }
    ok := i == buf.Length;
    next := pos + i;
  }

  /** The reads and checks at the top of the loop: `read_exact` into the
      one-byte `control` and the six-byte `raw_code`, then the SOH check, then
      `str::from_utf8`. */
  method ReadMessage(input: seq<byte>, pos: nat, control: array<byte>, rawCode: array<byte>)
    returns (outcome: Outcome, next: nat)
    requires pos <= |input| && control.Length == 1 && rawCode.Length == 6 && control != rawCode
    modifies control, rawCode
    ensures outcome == FirstMessage(input[pos..])
    ensures outcome.Accepted? ==> next == pos + 7
  {
    var ok;
    ok, next := ReadExact(input, pos, control);
    if !ok {
      return Closed(ShortRead), next;
    }
    ok, next := ReadExact(input, next, rawCode);
    if !ok {
      return Closed(ShortRead), next;
    }
    var msg := input[pos..];
    assert msg[0] == control[0] && msg[1..7] == rawCode[..];
    if control[0] != SOH {
      return Closed(NotSoh), next;
    }
    var decoded := FromUtf8(rawCode[..]);
    if decoded.None? {
      return Closed(InvalidUtf8), next;
    }
    return Accepted(decoded.value), next;
  }

  /** The task spawned for one connection. */
  method Serve(server: Server, input: seq<byte>, env: Env) returns (trace: seq<Event>, reason: Close)
    ensures trace == Session(server, Frames(input).codes, env)
    ensures reason == Frames(input).reason
  {
    var control := new byte[1];
    var rawCode := new byte[6];
    var pos := 0;
    var accepted: seq<string> := [];
    trace := [];
    while true
      invariant pos == 7 * |accepted| <= |input|
      invariant Frames(input).codes == accepted + Frames(input[pos..]).codes
      invariant Frames(input).reason == Frames(input[pos..]).reason
      invariant trace == Session(server, accepted, env)
      decreases |input| - pos
    {
      var start := pos;
      var outcome;
      outcome, pos := ReadMessage(input, pos, control, rawCode);
      if outcome.Closed? {
        assert Frames(input[start..]) == Framing([], outcome.reason);
        assert accepted + [] == accepted;
        reason := outcome.reason;
        return;
      }
      var code := outcome.code;
      var later := Frames(input[pos..]);
      assert Frames(input[start..]) == Framing([code] + later.codes, later.reason) by {
        FramesAdvance(input, start);
      }
      var i := |accepted|;
      trace := trace + [Log(env.logClock(i), env.sourceIp, code, env.logWrites(i))];
      var reply := Resp(server, code, env.headerClock(i));
      trace := trace + [Wrote(reply)];
      assert trace == Session(server, accepted + [code], env) by {
        SessionSnoc(server, accepted, code, env);
      }
      assert accepted + ([code] + later.codes) == (accepted + [code]) + later.codes;
      accepted := accepted + [code];
    }
  }
}
