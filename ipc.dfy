/** The dump server of src/ipc.rs: a client sends one line, `Request: <n>\n`
    or `Stop\n`, and the server answers with the dump of the n-th item in key
    order, or with an error line. Sockets are abstract: a connection is what
    the client sent, and the dump of a range is a given function. */
module Ipc {
  import opened Strings
  import opened Items

  const MSG_REQUEST: string := "Request: "
  const MSG_STOP: string := "Stop\n"
  const MALFORMED: string := "Error: Malformed Message Expected:\nRequest: idx\n"
  const READ_FAILED: string := "Failed to read from client"
  const DUMP_FAILED: string := "Unexpected Error while dumping"

  function NotFound(index: nat): string {
    "Error: the requested index " + NatToString(index) + " is not found\n"
  }

  /** `NameTypeSupport::query()`: which socket names the platform offers. */
  datatype NameTypeSupport = OnlyPaths | OnlyNamespaced | Both

  /** `get_address` for the process id `pid`. */
  function GetAddress(pid: nat, support: NameTypeSupport): string {
    match support
    case OnlyPaths => "/tmp/cargo_show_asm/server" + NatToString(pid) + ".sock"
    case _ => "@cargo_show_asm.server" + NatToString(pid) + ".sock"
  }

  /** If `pre + x + post == pre + y + post` then `x == y`. */
  lemma StripAround(pre: string, x: string, y: string, post: string)
    requires pre + x + post == pre + y + post
    ensures x == y
  {
    var a, b := pre + x + post, pre + y + post;
    assert |x| == |y|;
    assert x == a[|pre|..|pre| + |x|];
    assert y == b[|pre|..|pre| + |y|];
  }

  /** Distinct processes listen on distinct addresses, in both forms. */
  lemma GetAddressInjective(p: nat, q: nat, support: NameTypeSupport)
    requires GetAddress(p, support) == GetAddress(q, support)
    ensures p == q
  {
    if support == OnlyPaths {
      StripAround("/tmp/cargo_show_asm/server", NatToString(p), NatToString(q), ".sock");
    } else {
      StripAround("@cargo_show_asm.server", NatToString(p), NatToString(q), ".sock");
    }
    NatToStringInjective(p, q);
  }

  /** What one connection delivers to `read_line`: the text, or None when
      reading fails. */
  type Received = Option<string>

  /** `BufRead::read_line`: everything up to and including the first
      newline, or all of it when there is none. */
  function ReadLine(s: string): (r: string)
    ensures StartsWith(s, r)
    ensures r == s || (|r| > 0 && r[|r| - 1] == '\n')
    ensures forall j :: 0 <= j < |r| - 1 ==> r[j] != '\n'
  {
    match Find(s, "\n")
    case Some(i) =>
      assert forall j :: 0 <= j < i ==> s[j] != '\n' by {
        forall j | 0 <= j < i ensures s[j] != '\n' {
          assert !OccursAt(s, "\n", j);
          assert s[j..j + 1] == [s[j]];
        }
      }
      assert s[i..i + 1] == "\n";
      s[..i + 1]
    case None =>
      assert forall j :: 0 <= j < |s| ==> s[j] != '\n' by {
        forall j | 0 <= j < |s| ensures s[j] != '\n' {
          assert !OccursAt(s, "\n", j);
          assert s[j..j + 1] == [s[j]];
        }
      }
      s
  }

  datatype Directive = Continue | Stop

  /** The dump of a range written to the connection; `failed` when writing
      it failed part way. */
  datatype Dumped = Dumped(text: string, failed: bool)

  /** What `handle_request` writes back and what it returns. */
  datatype Handled = Handled(reply: string, outcome: Result<Directive, string>)

  /** The index a request line asks for. */
  function RequestIndex(line: string): Option<nat> {
    match SplitOnce(Trim(line), MSG_REQUEST)
    case Some((_, msg)) => ParseUsize(msg)
    case None => None
  }

  /** `handle_request` */
  function HandleRequest(received: Received, items: ItemMap, dump: Range -> Dumped): (h: Handled)
    ensures h.outcome == Ok(Stop) <==> received.Some? && ReadLine(received.value) == MSG_STOP
    ensures h.outcome == Ok(Stop) ==> h.reply == []
    ensures h.outcome == Ok(Continue) ==>
      received.Some? &&
      var ix := RequestIndex(ReadLine(received.value));
      ix.Some? && ix.value < |items| && h.reply == dump(items[ix.value].1).text
    ensures h.outcome.Err? && received.Some? && ReadLine(received.value) != MSG_STOP ==>
      match RequestIndex(ReadLine(received.value))
      case None => h.outcome.error == MALFORMED && h.reply == MALFORMED
      case Some(ix) => ix >= |items| ==> h.outcome.error == NotFound(ix) && h.reply == NotFound(ix)
  {
    match received
    case None => Handled([], Err(READ_FAILED))
    case Some(text) =>
      var buffer := ReadLine(text);
      if buffer == MSG_STOP then Handled([], Ok(Stop))
      else match RequestIndex(buffer)
        case None => Handled(MALFORMED, Err(MALFORMED))
        case Some(index) =>
          if index >= |items| then Handled(NotFound(index), Err(NotFound(index)))
          else
            var d := dump(items[index].1);
            if d.failed then Handled(d.text, Err(DUMP_FAILED)) else Handled(d.text, Ok(Continue))
  }

  /** Only the exact line `Stop\n` stops the server: without the newline, or
      with a carriage return before it, the line is a malformed request. */
  lemma StopNeedsExactLine(items: ItemMap, dump: Range -> Dumped)
    ensures HandleRequest(Some("Stop"), items, dump) == Handled(MALFORMED, Err(MALFORMED))
    ensures HandleRequest(Some("Stop\r\n"), items, dump) == Handled(MALFORMED, Err(MALFORMED))
  {
    StopWithoutNewline(items, dump);
    StopWithCarriageReturn(items, dump);
  }

  lemma StopWithoutNewline(items: ItemMap, dump: Range -> Dumped)
    ensures HandleRequest(Some("Stop"), items, dump) == Handled(MALFORMED, Err(MALFORMED))
  {
    assert "Stop"[..0] == [];
    NoRequestIn("Stop");
    assert Trim("Stop") == "Stop";
  }

  lemma StopWithCarriageReturn(items: ItemMap, dump: Range -> Dumped)
    ensures HandleRequest(Some("Stop\r\n"), items, dump) == Handled(MALFORMED, Err(MALFORMED))
  {
    var crlf := "Stop\r\n";
    ReadLineWhole(crlf);
    assert RequestIndex(crlf) == None by {
      TrimCrLf("Stop");
      NoRequestIn("Stop");
      assert Trim("Stop") == "Stop";
    }
  }

  /** A text whose only newline is its last character is read whole. */
  lemma ReadLineWhole(s: string)
    requires |s| > 0 && s[|s| - 1] == '\n'
    requires forall j :: 0 <= j < |s| - 1 ==> s[j] != '\n'
    ensures ReadLine(s) == s
  {
  }

  /** A word followed by `\r\n` trims back to the word. */
  lemma TrimCrLf(w: string)
    requires |w| > 0 && !IsWhitespace(w[0]) && !IsWhitespace(w[|w| - 1])
    ensures Trim(w + "\r\n") == w
  {
    var wr := w + ['\r'];
    var s := wr + ['\n'];
    assert s == w + "\r\n";
    assert TrimStart(s) == s by {
      assert s[0] == w[0];
      assert LeadingWhitespace(s) == 0;
    }
    calc {
      Trim(s);
      TrimEnd(s);
      { TrimEndSnoc(wr, '\n'); }
      TrimEnd(wr);
      { TrimEndSnoc(w, '\r'); }
      TrimEnd(w);
      w;
    }
  }

  /** Trailing whitespace does not survive `trim_end`. */
  lemma TrimEndSnoc(s: string, c: char)
    requires IsWhitespace(c)
    ensures TrimEnd(s + [c]) == TrimEnd(s)
  {
    assert (s + [c])[..|s|] == s;
  }

  /** A text shorter than `Request: ` holds no request. */
  lemma NoRequestIn(s: string)
    requires |s| < |MSG_REQUEST| && Trim(s) == s
    ensures RequestIndex(s) == None
  {
  }

  // ---------------------------------------------------------------------
  // The client

  /** The line `start_client` writes: `Request: <select>\n`. */
  function ClientRequest(select: nat): string {
    MSG_REQUEST + NatToString(select) + "\n"
  }

  /** The server reads back exactly the index the client asked for. */
  lemma ClientRequestRoundTrip(select: nat)
    requires select <= USIZE_MAX
    ensures ReadLine(ClientRequest(select)) == ClientRequest(select)
    ensures ReadLine(ClientRequest(select)) != MSG_STOP
    ensures RequestIndex(ClientRequest(select)) == Some(select)
  {
    var digits := NatToString(select);
    var line := ClientRequest(select);
    var body := MSG_REQUEST + digits;
    assert line == body + "\n";
    ClientReadLine(digits);
    assert line[0] == 'R';
    ClientTrim(body);
    ClientSplit(digits);
    ParseNatToString(select);
  }

  /** A request line holds a single newline, at its end. */
  lemma ClientReadLine(digits: string)
    requires AllDigits(digits)
    ensures ReadLine(MSG_REQUEST + digits + "\n") == MSG_REQUEST + digits + "\n"
  {
    var line := MSG_REQUEST + digits + "\n";
    forall j: nat | j < |line| - 1 ensures !OccursAt(line, "\n", j) {
      assert line[j..j + 1] == [line[j]];
      if j < |MSG_REQUEST| { assert line[j] == MSG_REQUEST[j]; }
      else { assert line[j] == digits[j - |MSG_REQUEST|]; }
    }
    assert OccursAt(line, "\n", |line| - 1);
    assert line[..|line|] == line;
  }

  /** Trimming a request line drops just its newline. */
  lemma ClientTrim(body: string)
    requires |body| > 0 && body[0] == 'R' && IsDigit(body[|body| - 1])
    ensures Trim(body + "\n") == body
  {
    var line := body + "\n";
    assert LeadingWhitespace(line) == 0;
    assert line[..|line| - 1] == body;
    assert TrimEnd(body) == body;
  }

  lemma ClientSplit(digits: string)
    ensures SplitOnce(MSG_REQUEST + digits, MSG_REQUEST) == Some(([], digits))
  {
    var body := MSG_REQUEST + digits;
    assert OccursAt(body, MSG_REQUEST, 0);
    assert body[|MSG_REQUEST|..] == digits;
  }

  /** A request sent by the client is answered with the dump of the item it
      selected, or with the not-found error when there is no such item. */
  lemma ClientServerRoundTrip(select: nat, items: ItemMap, dump: Range -> Dumped)
    requires select <= USIZE_MAX
    ensures var h := HandleRequest(Some(ClientRequest(select)), items, dump);
      if select < |items| then
        h.reply == dump(items[select].1).text &&
        h.outcome == (if dump(items[select].1).failed then Err(DUMP_FAILED) else Ok(Continue))
      else h == Handled(NotFound(select), Err(NotFound(select)))
  {
    ClientRequestRoundTrip(select);
  }

  // ---------------------------------------------------------------------
  // The server loop

  /** An incoming connection: failed to connect, or what it delivered. */
  datatype Connection = ConnectFailed(error: string) | Accepted(received: Received)

  /** The server's effect so far: replies written, in order; lines printed to
      standard error; and whether it has stopped. */
  datatype ServerState = ServerState(replies: seq<string>, log: seq<string>, stopped: bool)

  function ServeOne(items: ItemMap, dump: Range -> Dumped, st: ServerState, c: Connection): ServerState {
    match c
    case ConnectFailed(e) => st.(log := st.log + ["Incoming connection failed: " + e])
    case Accepted(r) =>
      var h := HandleRequest(r, items, dump);
      match h.outcome
      case Ok(Continue) => st.(replies := st.replies + [h.reply])
      case Ok(Stop) => st.(replies := st.replies + [h.reply], stopped := true)
      case Err(e) => st.(replies := st.replies + [h.reply], log := st.log + [e])
  }

  /** `start_server` over the connections in the order they arrive. */
  function Serve(items: ItemMap, dump: Range -> Dumped, conns: seq<Connection>): ServerState {
    if conns == [] then ServerState([], [], false)
    else
      var st := Serve(items, dump, conns[..|conns| - 1]);
      if st.stopped then st else ServeOne(items, dump, st, conns[|conns| - 1])
  }

  predicate IsStop(items: ItemMap, dump: Range -> Dumped, c: Connection) {
    c.Accepted? && HandleRequest(c.received, items, dump).outcome == Ok(Stop)
  }

  lemma ServeSnoc(items: ItemMap, dump: Range -> Dumped, conns: seq<Connection>, k: nat)
    requires k < |conns|
    ensures var st := Serve(items, dump, conns[..k]);
      Serve(items, dump, conns[..k + 1]) == if st.stopped then st else ServeOne(items, dump, st, conns[k])
  {
    assert conns[..k + 1][..k] == conns[..k];
  }

  /** The serving loop: it goes on after every answer and every error, and
      leaves only on `Stop`. The line buffer is cleared before each
      connection, so no text carries over: each request is read afresh by
      `HandleRequest`. */
  method StartServer(items: ItemMap, dump: Range -> Dumped, conns: seq<Connection>)
    returns (replies: seq<string>, log: seq<string>)
    ensures Serve(items, dump, conns) == ServerState(replies, log, Serve(items, dump, conns).stopped)
  {
    replies, log := [], [];
    var k := 0;
    while k < |conns|
      invariant k <= |conns|
      invariant Serve(items, dump, conns[..k]) == ServerState(replies, log, false)
      decreases |conns| - k
    {
      var conn := conns[k];
      ServeSnoc(items, dump, conns, k);
      k := k + 1;
      match conn {
        case ConnectFailed(e) =>
          log := log + ["Incoming connection failed: " + e];
          continue;
        case Accepted(received) =>
          var h := HandleRequest(received, items, dump);
          replies := replies + [h.reply];
          match h.outcome {
            case Ok(Continue) =>
              continue;
            case Ok(Stop) =>
              ServeAfterStop(items, dump, conns, k);
              return;
            case Err(e) =>
              log := log + [e];
              continue;
          }
      }
    }
    assert conns[..k] == conns;
  }

  /** Once stopped, the server handles nothing more. */
  lemma {:induction false} ServeAfterStop(items: ItemMap, dump: Range -> Dumped, conns: seq<Connection>, k: nat)
    requires 0 < k <= |conns| && Serve(items, dump, conns[..k]).stopped
    ensures Serve(items, dump, conns) == Serve(items, dump, conns[..k])
    decreases |conns| - k
  {
    if k < |conns| {
      ServeSnoc(items, dump, conns, k);
      ServeAfterStop(items, dump, conns, k + 1);
    } else {
      assert conns[..k] == conns;
    }
  }

  lemma ServeOneStops(items: ItemMap, dump: Range -> Dumped, st: ServerState, c: Connection)
    requires !st.stopped
    ensures ServeOne(items, dump, st, c).stopped <==> IsStop(items, dump, c)
  {
    if c.Accepted? {
      var h := HandleRequest(c.received, items, dump);
      match h.outcome {
        case Ok(d) =>
          assert ServeOne(items, dump, st, c).stopped == (d == Stop);
        case Err(_) =>
          assert !ServeOne(items, dump, st, c).stopped;
      }
    }
  }

  /** The server stops exactly when some connection sent `Stop\n`. */
  lemma {:induction false} ServeStopsOnlyOnStop(items: ItemMap, dump: Range -> Dumped, conns: seq<Connection>)
    ensures Serve(items, dump, conns).stopped <==> exists i :: 0 <= i < |conns| && IsStop(items, dump, conns[i])
  {
    if conns != [] {
      var init := conns[..|conns| - 1];
      var last := conns[|conns| - 1];
      ServeStopsOnlyOnStop(items, dump, init);
      var st := Serve(items, dump, init);
      if !st.stopped { ServeOneStops(items, dump, st, last); }
      var before := exists i :: 0 <= i < |init| && IsStop(items, dump, init[i]);
      if before {
        var i :| 0 <= i < |init| && IsStop(items, dump, init[i]);
        assert conns[i] == init[i];
      } else if IsStop(items, dump, last) {
        assert IsStop(items, dump, conns[|conns| - 1]);
      } else {
        forall i | 0 <= i < |conns| ensures !IsStop(items, dump, conns[i]) {
          if i < |init| { assert init[i] == conns[i]; }
        }
      }
    }
  }

  /** Until it stops, the server answers every accepted connection, errors
      included, and logs one line per failed connection and per error. */
  lemma {:induction false} ServeAnswersAll(items: ItemMap, dump: Range -> Dumped, conns: seq<Connection>)
    requires !Serve(items, dump, conns).stopped
    ensures |Serve(items, dump, conns).replies| == |AcceptedOnly(conns)|
    ensures |Serve(items, dump, conns).replies| + |Serve(items, dump, conns).log| >= |conns|
  {
    if conns != [] {
      ServeAnswersAll(items, dump, conns[..|conns| - 1]);
    }
  }

  /** The connections that were accepted. */
  function AcceptedOnly(conns: seq<Connection>): seq<Connection> {
    if conns == [] then []
    else
      var last := conns[|conns| - 1];
      AcceptedOnly(conns[..|conns| - 1]) + (if last.Accepted? then [last] else [])
  }
}
