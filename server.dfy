/** The response side of the gauge emulator (src/server.rs): the fixed
    rejection reply, the header block and the response to one 6-character
    function code. */
module Responses {
  import opened Utf8

  const SOH: byte := 0x01
  const ETX: byte := 0x03
  const LF: byte := 0x0A
  const CR: byte := 0x0D

  /** `<SOH>9999FF1B<ETX>`: "9999" says the command was not understood and
      "FF1B" is a fixed checksum of the preceding `<SOH>9999`. */
  const UNRECOGNIZED: seq<byte> := [SOH, 57, 57, 57, 57, 70, 70, 49, 66, ETX]

  /** What `resp` puts after every response body. */
  const TRAILER: seq<byte> := [CR, CR, ETX]

  /** The only function code with a real answer: in-tank inventory. */
  const INVENTORY_CODE: string := "I20100"

  /** A server is never changed after construction (`resp` and `build_header`
      borrow it shared), so it is a value: the four station header lines and
      `inventory`, the bytes `payload_i20100` renders from the tanks and the
      temperature-compensation reference. */
  datatype Server = Server(
    headerL1: string,
    headerL2: string,
    headerL3: string,
    headerL4: string,
    inventory: seq<byte>)

  /** `[&str]::join`: the parts with `sep` between neighbours. */
  function Join(parts: seq<string>, sep: string): string
  {
    if |parts| == 0 then ""
    else if |parts| == 1 then parts[0]
    else parts[0] + sep + Join(parts[1..], sep)
  }

  /** The parts `build_header` joins, without the final empty one: SOH, the
      code, the timestamp, a blank line and the four header lines. */
  function HeaderParts(server: Server, code: string, timestamp: string): seq<string>
  {
    [[SOH as char], code, timestamp, "",
     server.headerL1, server.headerL2, server.headerL3, server.headerL4]
  }

  /** `build_header`: the header parts and a final empty part, joined with CRLF
      and taken as UTF-8 bytes. The clock reading is the parameter
      `timestamp`. */
  function BuildHeader(server: Server, code: string, timestamp: string): seq<byte>
  {
    ToUtf8(Join(HeaderParts(server, code, timestamp) + [""], "\r\n"))
  }

  /** What `resp` returns for `code`, stated in one piece. */
  function Response(server: Server, code: string, timestamp: string): seq<byte>
  {
    if code == INVENTORY_CODE
    then BuildHeader(server, code, timestamp) + [CR, LF] + server.inventory + TRAILER
    else UNRECOGNIZED + TRAILER
  }

  /** `resp`: grows the header into the reply, replaces it with the rejection
      for every code but the inventory code, and appends CR CR ETX. */
  method Resp(server: Server, code: string, timestamp: string) returns (resp: seq<byte>)
    ensures resp == Response(server, code, timestamp)
    ensures |resp| >= 3 && resp[|resp| - 3..] == TRAILER
  {
    resp := BuildHeader(server, code, timestamp);
    resp := resp + [CR];
    resp := resp + [LF];
    if code == INVENTORY_CODE {
      resp := resp + server.inventory;
    } else if code == "I20200" {        // delivery report
      resp := UNRECOGNIZED;
    } else if code == "I20300" {        // in-tank leak detect report
      resp := UNRECOGNIZED;
    } else if code == "I20400" {        // shift report
      resp := UNRECOGNIZED;
    } else if code == "I20500" {        // in-tank status report
      resp := UNRECOGNIZED;
    } else if code == "S60200" {        // set tank product label
      resp := UNRECOGNIZED;
    } else {
      resp := UNRECOGNIZED;
    }
    resp := resp + [CR];
    resp := resp + [CR];
    resp := resp + [ETX];
  }

  /** The rejection is SOH, the ASCII text "9999FF1B" and ETX: ten bytes. */
  lemma UnrecognizedSpelling()
    ensures UNRECOGNIZED == [SOH] + ToUtf8("9999FF1B") + [ETX]
    ensures |UNRECOGNIZED| == 10
  {
    AsciiBytes("9999FF1B");
  }

  /** Each part followed by CR LF, all in order. */
  function Lines(ls: seq<seq<byte>>): seq<byte>
  {
    if ls == [] then [] else ls[0] + [CR, LF] + Lines(ls[1..])
  }

  /** The UTF-8 bytes of each string. */
  function EachToUtf8(ps: seq<string>): (r: seq<seq<byte>>)
    ensures |r| == |ps|
  {
    seq(|ps|, i requires 0 <= i < |ps| => ToUtf8(ps[i]))
  }

  lemma {:induction false} ToUtf8JoinCons(p: string, rest: seq<string>, sep: string)
    requires rest != []
    ensures ToUtf8(Join([p] + rest, sep)) == ToUtf8(p) + ToUtf8(sep) + ToUtf8(Join(rest, sep))
  {
    assert ([p] + rest)[1..] == rest;
    ToUtf8Append(p + sep, Join(rest, sep));
    ToUtf8Append(p, sep);
  }

  /** Joining with CRLF when the last part is empty ends every other part with
      CR LF. */
  lemma {:induction false} JoinAsLines(ps: seq<string>)
    ensures ToUtf8(Join(ps + [""], "\r\n")) == Lines(EachToUtf8(ps))
  {
    if ps == [] {
      assert ps + [""] == [""];
    } else {
      assert ps + [""] == [ps[0]] + (ps[1..] + [""]);
      ToUtf8JoinCons(ps[0], ps[1..] + [""], "\r\n");
      JoinAsLines(ps[1..]);
      assert ToUtf8("\r\n") == [CR, LF];
      assert EachToUtf8(ps)[1..] == EachToUtf8(ps[1..]);
    }
  }

  /** Line `k` sits after the lines before it and is followed by CR LF and the
      lines after it. */
  lemma {:induction false} LinesSplit(ls: seq<seq<byte>>, k: nat)
    requires k < |ls|
    ensures Lines(ls) == Lines(ls[..k]) + ls[k] + [CR, LF] + Lines(ls[k + 1..])
  {
    if k == 0 {
      assert ls[..0] == [];
    } else {
      LinesSplit(ls[1..], k - 1);
      assert ls[1..][..k - 1] == ls[1..k] && ls[1..][k - 1] == ls[k] && ls[1..][k..] == ls[k + 1..];
      assert ls[..k][0] == ls[0] && ls[..k][1..] == ls[1..k];
    }
  }

  /** The header block is eight lines, each ended by CR LF: SOH, the code, the
      timestamp, an empty line and the four header lines. */
  lemma HeaderLayout(server: Server, code: string, timestamp: string)
    ensures BuildHeader(server, code, timestamp) ==
      Lines([[SOH], ToUtf8(code), ToUtf8(timestamp), [],
             ToUtf8(server.headerL1), ToUtf8(server.headerL2),
             ToUtf8(server.headerL3), ToUtf8(server.headerL4)])
  {
    var ps := HeaderParts(server, code, timestamp);
    var ls: seq<seq<byte>> := [[SOH], ToUtf8(code), ToUtf8(timestamp), [],
               ToUtf8(server.headerL1), ToUtf8(server.headerL2),
               ToUtf8(server.headerL3), ToUtf8(server.headerL4)];
    JoinAsLines(ps);
    assert ToUtf8([SOH as char]) == [SOH] by {
      assert [SOH as char][1..] == [];
    }
    assert ToUtf8("") == [];
    assert EachToUtf8(ps) == ls by {
      forall i | 0 <= i < 8
        ensures EachToUtf8(ps)[i] == ls[i]
      {
      }
    }
  }

  /** Lines before the last, the last, and its CR LF. */
  lemma {:induction false} LinesSnoc(ls: seq<seq<byte>>)
    requires ls != []
    ensures Lines(ls) == Lines(ls[..|ls| - 1]) + ls[|ls| - 1] + [CR, LF]
  {
    LinesSplit(ls, |ls| - 1);
    assert |ls[|ls|..]| == 0;
  }

  /** A block of lines starts with its first two lines, each followed by
      CR LF. */
  lemma LinesStart(ls: seq<seq<byte>>)
    requires |ls| >= 2
    ensures var h, n := Lines(ls), |ls[0]| + |ls[1]| + 4;
      |h| >= n && h[..n] == ls[0] + [CR, LF] + ls[1] + [CR, LF]
  {
    var tail := Lines(ls[2..]);
    assert Lines(ls[1..]) == ls[1] + [CR, LF] + tail by {
      assert ls[1..][0] == ls[1] && ls[1..][1..] == ls[2..];
    }
    assert Lines(ls) == (ls[0] + [CR, LF] + ls[1] + [CR, LF]) + tail;
  }

  /** A block of lines whose first two lines are SOH and `c`. */
  lemma LinesFraming(ls: seq<seq<byte>>, c: seq<byte>)
    requires |ls| >= 2 && ls[0] == [SOH] && ls[1] == c
    ensures var h := Lines(ls);
      |h| >= |c| + 5 && h[..|c| + 5] == [SOH, CR, LF] + c + [CR, LF] && h[|h| - 2..] == [CR, LF]
  {
    var h := Lines(ls);
    LinesStart(ls);
    assert ls[0] + [CR, LF] + ls[1] + [CR, LF] == [SOH, CR, LF] + c + [CR, LF];
    assert h[|h| - 2..] == [CR, LF] by {
      LinesSnoc(ls);
    }
  }

  /** The header block starts with SOH CR LF, the code's bytes and CR LF, and
      ends with CR LF. */
  lemma HeaderFraming(server: Server, code: string, timestamp: string)
    ensures var h, c := BuildHeader(server, code, timestamp), ToUtf8(code);
      |h| >= |c| + 5 && h[..|c| + 5] == [SOH, CR, LF] + c + [CR, LF] && h[|h| - 2..] == [CR, LF]
  {
    var ls: seq<seq<byte>> := [[SOH], ToUtf8(code), ToUtf8(timestamp), [],
                  ToUtf8(server.headerL1), ToUtf8(server.headerL2),
                  ToUtf8(server.headerL3), ToUtf8(server.headerL4)];
    HeaderLayout(server, code, timestamp);
    LinesFraming(ls, ToUtf8(code));
  }

  /** The inventory reply: the header block, CR LF, the table, CR CR ETX. */
  lemma InventoryLayout(server: Server, timestamp: string)
    ensures Response(server, INVENTORY_CODE, timestamp) ==
      Lines([[SOH], [73, 50, 48, 49, 48, 48], ToUtf8(timestamp), [],
             ToUtf8(server.headerL1), ToUtf8(server.headerL2),
             ToUtf8(server.headerL3), ToUtf8(server.headerL4)])
      + [CR, LF] + server.inventory + [CR, CR, ETX]
  {
    var ls: seq<seq<byte>> := [[SOH], [73, 50, 48, 49, 48, 48], ToUtf8(timestamp), [],
             ToUtf8(server.headerL1), ToUtf8(server.headerL2),
             ToUtf8(server.headerL3), ToUtf8(server.headerL4)];
    assert BuildHeader(server, INVENTORY_CODE, timestamp) == Lines(ls) by {
      HeaderLayout(server, INVENTORY_CODE, timestamp);
      assert ToUtf8(INVENTORY_CODE) == [73, 50, 48, 49, 48, 48] by {
        AsciiBytes(INVENTORY_CODE);
      }
    }
  }

  /** Every code but the inventory code, the reserved report codes included,
      gets the 13 bytes of the rejection plus the trailer, whatever the header
      lines, the tanks and the clock say. */
  lemma UnknownCodeResponse(s1: Server, s2: Server, code: string, t1: string, t2: string)
    requires code != INVENTORY_CODE
    ensures Response(s1, code, t1) == UNRECOGNIZED + [CR, CR, ETX]
    ensures Response(s1, code, t1) == Response(s2, code, t2)
    ensures |Response(s1, code, t1)| == 13
  {
  }

  /** The report codes reserved in the dispatch (delivery, leak detect, shift,
      status, product label) answer exactly as an unknown code does. */
  lemma ReservedCodesRejected(server: Server, code: string, timestamp: string)
    requires code in ["I20200", "I20300", "I20400", "I20500", "S60200"]
    ensures Response(server, code, timestamp) == Response(server, "??????", timestamp)
  {
  }

  /** A client can tell the two replies apart by their second byte: CR for the
      inventory reply, '9' for the rejection. */
  lemma RepliesDistinguishable(server: Server, code: string, t1: string, t2: string)
    requires code != INVENTORY_CODE
    ensures Response(server, INVENTORY_CODE, t1)[1] == CR
    ensures Response(server, code, t2)[1] == 57
    ensures Response(server, INVENTORY_CODE, t1) != Response(server, code, t2)
  {
    HeaderFraming(server, INVENTORY_CODE, t1);
  }

  /** The inventory reply carries the header lines, then the table, in order:
      each sits at the offset the lines before it determine. */
  lemma InventoryContainsTable(server: Server, timestamp: string)
    ensures var r := Response(server, INVENTORY_CODE, timestamp);
      |r| == |BuildHeader(server, INVENTORY_CODE, timestamp)| + 2 + |server.inventory| + 3 &&
      r[|r| - 3 - |server.inventory|..|r| - 3] == server.inventory
  {
  }
}
