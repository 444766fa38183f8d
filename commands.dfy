/** The outbound half of the line protocol: the six commands the buttons
    send and the frame `sendLine` builds around a line. */
module Commands {
  import opened Text
  import opened Options
  import opened Framing

  /** The buttons of the main screen, each bound to one fixed command. */
  datatype Command = Auth | LightOn | LightOff | DoorOpen | DoorClose | ReadEnv

  /** The line a button hands to `sendLine`; the PIN is fixed at 1234. */
  function CommandText(c: Command): (line: string)
    ensures |line| > 0 && line[0] != '{'
  {
    match c
    case Auth => "AUTH 1234"
    case LightOn => "LIGHT ON"
    case LightOff => "LIGHT OFF"
    case DoorOpen => "DOOR OPEN"
    case DoorClose => "DOOR CLOSE"
    case ReadEnv => "READ ENV"
  }

  /** Reads a command line back: the inverse of CommandText. */
  function CommandOf(line: string): (r: Option<Command>)
    ensures r.Some? ==> CommandText(r.value) == line
  {
    if line == "AUTH 1234" then Some(Auth)
    else if line == "LIGHT ON" then Some(LightOn)
    else if line == "LIGHT OFF" then Some(LightOff)
    else if line == "DOOR OPEN" then Some(DoorOpen)
    else if line == "DOOR CLOSE" then Some(DoorClose)
    else if line == "READ ENV" then Some(ReadEnv)
    else None
  }

  /** Every command is recognised again from its line, so no two commands
      share a line. */
  lemma CommandRoundTrip(c: Command)
    ensures CommandOf(CommandText(c)) == Some(c)
  {
  }

  lemma CommandTextInjective(c: Command, d: Command)
    requires CommandText(c) == CommandText(d)
    ensures c == d
  {
  }

  /** A command line is a single line with nothing to trim: it holds no line
      break and starts and ends with a letter or digit. */
  lemma CommandTextClean(c: Command)
    ensures NoLineBreaks(CommandText(c)) && Unpadded(CommandText(c))
  {
  }

  /** The frame `sendLine` writes: the line and one line feed. */
  function FrameLine(line: string): (frame: string)
    ensures |frame| == |line| + 1 && frame[..|line|] == line && frame[|line|] == '\n'
  {
    line + "\n"
  }

  /** The frame is read back as the line by a line framer of the same
      protocol: whatever was pending, one event carrying the trimmed pending
      text and line, and nothing left buffered. */
  lemma FrameLineDecodes(st: FrameState, line: string)
    requires NoLineBreaks(line)
    ensures FeedAll(st, FrameLine(line)) == FrameState(st.emitted + [Emit(st.pending + line)], [])
  {
    FeedAllLine(st, line);
    RemoveCRUnchanged(line);
  }

  /** A command frame read from a fresh framer yields exactly the command,
      as a status line. */
  lemma CommandFrameDecodes(c: Command)
    ensures FeedAll(Fresh, FrameLine(CommandText(c))) == FrameState([Status(CommandText(c))], [])
  {
    var line := CommandText(c);
    CommandTextClean(c);
    FrameLineDecodes(Fresh, line);
    assert [] + line == line;
    TrimUnpadded(line);
  }
}
