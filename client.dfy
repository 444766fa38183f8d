/** The connection side of the main activity: `connectToDevice`, the read
    loop of `listenForLines` around the line framer, and `sendLine`. Each
    operation runs to completion before the next starts; the socket is an
    outcome given as a parameter. */
module Client {
  import opened Options
  import opened Framing
  import opened Commands
  import opened LineReader

  /** A paired device; its name may be null, its address never is. */
  datatype Device = Device(name: Option<string>, address: string)

  /** One opened RFCOMM socket: the device it leads to and the ordinal of
      the successful connect that opened it (1 for the first). */
  datatype Link = Link(device: Device, ordinal: nat)

  /** How a connect attempt ends: creating or connecting the socket throws
      an IOException (whose message may be null), or the socket opens and
      `read` delivers these decoded chunks, in order, before it returns 0 or
      less, throws, or the socket stops being connected. */
  datatype Attempt = Refused(message: Option<string>) | Opened(chunks: seq<string>)

  /** How `write` and `flush` on the output stream end. */
  datatype WriteOutcome = Written | WriteFailed(message: Option<string>)

  /** One frame written to the output stream of a socket. */
  datatype Write = Write(link: Link, data: string)

  /** A Kotlin string template shows a null exception message as "null". */
  function Message(m: Option<string>): (text: string)
    ensures m == Some(text) || (m.None? && text == "null")
  {
    if m.Some? then m.value else "null"
  }

  /** The device as the connecting status names it: `dev.name ?: dev.address`. */
  function DisplayName(dev: Device): (shown: string)
    ensures dev.name == Some(shown) || (dev.name.None? && shown == dev.address)
  {
    if dev.name.Some? then dev.name.value else dev.address
  }

  function ConnectingStatus(dev: Device): string {
    "Connecting to " + DisplayName(dev) + "..."
  }

  function FailedStatus(m: Option<string>): string {
    "Connect failed: " + Message(m)
  }

  /** Everything one connect attempt shows on screen, in order. */
  function SessionEvents(dev: Device, attempt: Attempt): (r: seq<Event>)
    ensures |r| >= 2 && r[0] == Status(ConnectingStatus(dev))
    ensures attempt.Refused? ==> r == [Status(ConnectingStatus(dev)), Status(FailedStatus(attempt.message))]
    ensures attempt.Opened? ==> r[1] == Status("Connected") && r[|r| - 1] == Status("Disconnected")
  {
    [Status(ConnectingStatus(dev))]
    + match attempt
      case Refused(m) => [Status(FailedStatus(m))]
      case Opened(chunks) =>
        [Status("Connected")] + FeedChunks(Fresh, chunks).emitted + [Status("Disconnected")]
  }

  /** A refused connect shows the attempt and the failure and nothing else:
      never "Connected", nothing read, no "Disconnected". */
  lemma RefusedSession(dev: Device, m: Option<string>)
    ensures var r := SessionEvents(dev, Refused(m));
      r == [Status(ConnectingStatus(dev)), Status(FailedStatus(m))]
      && Status("Connected") !in r && Status("Disconnected") !in r
      && forall k :: 0 <= k < |r| ==> r[k].Status?
  {
  }

  /** An opened connect shows the attempt, "Connected", one event per line
      feed read, each the trimmed and classified line, and "Disconnected"
      last; how the stream was cut into reads makes no difference. */
  lemma OpenedSession(dev: Device, chunks: seq<string>)
    ensures var r := SessionEvents(dev, Opened(chunks));
      var framed := FeedAll(Fresh, Flatten(chunks)).emitted;
      |r| == 3 + Count('\n', Flatten(chunks))
      && r[0] == Status(ConnectingStatus(dev))
      && r[1] == Status("Connected")
      && r[2..|r| - 1] == framed
      && r[|r| - 1] == Status("Disconnected")
  {
    FeedChunksFlatten(Fresh, chunks);
    FeedAllCount(Fresh, Flatten(chunks));
    var r := SessionEvents(dev, Opened(chunks));
    var framed := FeedAll(Fresh, Flatten(chunks)).emitted;
    assert r == [Status(ConnectingStatus(dev)), Status("Connected")] + framed + [Status("Disconnected")];
  }

  /** The main activity's connection state and what it has done so far. */
  class RemoteClient {
    /** `socket`, `out` and `in`: null until a connect succeeds. */
    var socket: Option<Link>
    var out: Option<Link>
    var input: Option<Link>
    /** Every update of `txtStatus` and `txtEnv`, in order. */
    var screen: seq<Event>
    /** Every frame written to an output stream, in order. */
    var sent: seq<Write>
    /** How many connects have succeeded: what tells one socket from the next. */
    var connects: nat
    /** The sockets opened by successful connects, in order. */
    ghost var links: seq<Link>

    /** The three handles always come from the same socket, the one the
        latest successful connect opened, and are null before any. */
    ghost predicate Valid()
      reads this
    {
      connects == |links|
      && (forall k :: 0 <= k < |links| ==> links[k].ordinal == k + 1)
      && (if links == [] then socket.None? else socket == Some(links[|links| - 1]))
      && out == socket && input == socket
    }

    constructor ()
      ensures Valid()
      ensures socket.None? && out.None? && input.None?
      ensures screen == [] && sent == [] && links == []
    {
      socket, out, input := None, None, None;
      screen, sent := [], [];
      connects, links := 0, [];
    }

    /** `connectToDevice`: the handles are assigned only once the socket
        has connected; a failed connect leaves them as they were. */
    method ConnectToDevice(dev: Device, attempt: Attempt)
      requires Valid()
      modifies this
      ensures Valid()
      ensures screen == old(screen) + SessionEvents(dev, attempt)
      ensures sent == old(sent)
      ensures attempt.Refused? ==>
        socket == old(socket) && out == old(out) && input == old(input) && links == old(links)
      ensures attempt.Opened? ==>
        var link := Link(dev, |old(links)| + 1);
        links == old(links) + [link] && socket == Some(link) && out == Some(link) && input == Some(link)
    {
      screen := screen + [Status(ConnectingStatus(dev))];
      match attempt
      case Refused(m) =>
        screen := screen + [Status(FailedStatus(m))];
      case Opened(chunks) =>
        var link := Link(dev, connects + 1);
        connects := connects + 1;
        socket := Some(link);
        out := Some(link);
        input := Some(link);
        links := links + [link];
        screen := screen + [Status("Connected")];
        ListenForLines(chunks);
    }

    /** `listenForLines`: one buffer for the whole session, every chunk read
        fed through it in order, then "Disconnected". */
    method ListenForLines(chunks: seq<string>)
      requires Valid()
      modifies this`screen
      ensures Valid()
      ensures input.None? ==> screen == old(screen)
      ensures input.Some? ==>
        screen == old(screen) + FeedChunks(Fresh, chunks).emitted + [Status("Disconnected")]
    {
      if input.None? {
        return;
      }
      var framer := new LineFramer();
      for i := 0 to |chunks|
        invariant framer.Valid() && fresh(framer)
        invariant framer.buf == FeedChunks(Fresh, chunks[..i]).pending
        invariant screen == old(screen) + FeedChunks(Fresh, chunks[..i]).emitted
      {
        var before := FeedChunks(Fresh, chunks[..i]);
        var events := framer.Feed(chunks[i]);
        screen := screen + events;
        FeedAllAppends(before, chunks[i]);
        assert chunks[..i + 1][..i] == chunks[..i];
      }
      assert chunks[..|chunks|] == chunks;
      screen := screen + [Status("Disconnected")];
    }

    /** `sendLine`: with no output stream nothing happens; otherwise the
        line and a line feed are written, or a failed write is reported. */
    method SendLine(line: string, outcome: WriteOutcome)
      requires Valid()
      modifies this`screen, this`sent
      ensures Valid()
      ensures out.None? ==> screen == old(screen) && sent == old(sent)
      ensures out.Some? && outcome.Written? ==>
        sent == old(sent) + [Write(out.value, FrameLine(line))] && screen == old(screen)
      ensures out.Some? && outcome.WriteFailed? ==>
        sent == old(sent) && screen == old(screen) + [Status("Send failed: " + Message(outcome.message))]
    {
      if out.None? {
        return;
      }
      match outcome
      case Written =>
        sent := sent + [Write(out.value, FrameLine(line))];
      case WriteFailed(m) =>
        screen := screen + [Status("Send failed: " + Message(m))];
    }

    /** A button of the main screen: its fixed command through `sendLine`. */
    method Press(c: Command, outcome: WriteOutcome)
      requires Valid()
      modifies this`screen, this`sent
      ensures Valid()
      ensures out.None? ==> screen == old(screen) && sent == old(sent)
      ensures out.Some? && outcome.Written? ==>
        sent == old(sent) + [Write(out.value, CommandText(c) + "\n")] && screen == old(screen)
      ensures out.Some? && outcome.WriteFailed? ==>
        sent == old(sent) && screen == old(screen) + [Status("Send failed: " + Message(outcome.message))]
    {
      SendLine(CommandText(c), outcome);
    }
  }
}
