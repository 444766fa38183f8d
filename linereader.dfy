/** The framer as `listenForLines` runs it: a `StringBuilder` that the scan
    over each decoded chunk updates in place. */
module LineReader {
  import opened Text
  import opened Framing

  class LineFramer {
    /** The characters received since the last line feed. */
    var buf: string

    ghost predicate Valid()
      reads this
    {
      NoLineBreaks(buf)
    }

    constructor ()
      ensures Valid() && buf == []
    {
      buf := [];
    }

    /** Scans one decoded chunk, returning the events it completes in the
        order their line feeds occur. */
    method Feed(chunk: string) returns (events: seq<Event>)
      requires Valid()
      modifies this
      ensures Valid()
      ensures FrameState(events, buf) == FeedAll(FrameState([], old(buf)), chunk)
    {
      events := [];
      for i := 0 to |chunk|
        invariant FrameState(events, buf) == FeedAll(FrameState([], old(buf)), chunk[..i])
      {
        var ch := chunk[i];
        if ch == '\n' {
          var line := Trim(buf);
          buf := [];
          events := events + [Classify(line)];
        } else if ch != '\r' {
          buf := buf + [ch];
        }
        assert chunk[..i + 1][..i] == chunk[..i];
      }
      assert chunk[..|chunk|] == chunk;
      FeedAllClean(FrameState([], old(buf)), chunk);
    }
  }
}
