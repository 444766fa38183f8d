/** The inbound half of the line protocol: the body of `listenForLines`.
    Decoded characters are scanned one at a time against a buffer that
    survives between reads; a line feed emits the trimmed buffer as an event
    and clears it, a carriage return is dropped, any other character is
    appended. */
module Framing {
  import opened Text

  /** What the read loop hands to the screen: `txtStatus` or `txtEnv`. */
  datatype Event = Status(text: string) | Environment(text: string)

  /** Events emitted so far and the unterminated characters still buffered. */
  datatype FrameState = FrameState(emitted: seq<Event>, pending: string)

  const Fresh := FrameState([], [])

  predicate NoLineBreaks(s: string) {
    '\n' !in s && '\r' !in s
  }

  /** `line.startsWith("{")` routes a line to the environment view; every
      other line, the empty one included, is a status line. */
  function Classify(line: string): (e: Event)
    ensures e.text == line
    ensures e.Environment? <==> (|line| > 0 && line[0] == '{')
  {
    if |line| > 0 && line[0] == '{' then Environment(line) else Status(line)
  }

  /** The event a terminated line produces. */
  function Emit(line: string): (e: Event)
    ensures e.text == Trim(line) && Unpadded(e.text)
    ensures e.Environment? <==> (|e.text| > 0 && e.text[0] == '{')
  {
    Classify(Trim(line))
  }

  /** One iteration of the `for (ch in s)` loop. */
  function Step(st: FrameState, ch: char): (r: FrameState)
    ensures |r.emitted| == |st.emitted| + (if ch == '\n' then 1 else 0)
    ensures r.emitted[..|st.emitted|] == st.emitted
    ensures ch == '\n' ==> r.pending == []
    ensures ch != '\n' ==> r.pending == st.pending + (if ch == '\r' then [] else [ch])
  {
    if ch == '\n' then FrameState(st.emitted + [Emit(st.pending)], [])
    else if ch == '\r' then st
    else FrameState(st.emitted, st.pending + [ch])
  }

  /** The whole `for` loop over one decoded chunk. */
  function FeedAll(st: FrameState, chunk: string): (r: FrameState)
    ensures |st.emitted| <= |r.emitted| && r.emitted[..|st.emitted|] == st.emitted
    decreases |chunk|
  {
    if chunk == [] then st
    else Step(FeedAll(st, chunk[..|chunk| - 1]), chunk[|chunk| - 1])
  }

  /** The `while` read loop: every chunk read, in order, through one buffer. */
  function FeedChunks(st: FrameState, chunks: seq<string>): (r: FrameState)
    ensures |st.emitted| <= |r.emitted| && r.emitted[..|st.emitted|] == st.emitted
    decreases |chunks|
  {
    if chunks == [] then st
    else FeedAll(FeedChunks(st, chunks[..|chunks| - 1]), chunks[|chunks| - 1])
  }

  // ---------------------------------------------------------------------
  // Reference definitions, independent of the scanning loop

  /** Number of occurrences of `x` in `s`. */
  function Count(x: char, s: string): nat
    decreases |s|
  {
    if s == [] then 0
    else Count(x, s[..|s| - 1]) + (if s[|s| - 1] == x then 1 else 0)
  }

  /** `s` with every carriage return removed. */
  function RemoveCR(s: string): (r: string)
    ensures '\r' !in r
    ensures '\n' in r <==> '\n' in s
    decreases |s|
  {
    if s == [] then []
    else RemoveCR(s[..|s| - 1]) + (if s[|s| - 1] == '\r' then [] else [s[|s| - 1]])
  }

  /** The pieces of `s` between line feeds: one more piece than `s` has line feeds. */
  function Split(s: string): (r: seq<string>)
    ensures |r| >= 1
    ensures forall k :: 0 <= k < |r| ==> '\n' !in r[k]
    decreases |s|
  {
    if s == [] then [[]]
    else if s[0] == '\n' then [[]] + Split(s[1..])
    else var rest := Split(s[1..]); [[s[0]] + rest[0]] + rest[1..]
  }

  /** The inverse of Split: the pieces glued back together with line feeds. */
  function Join(pieces: seq<string>): string
    decreases |pieces|
  {
    if |pieces| <= 1 then (if pieces == [] then [] else pieces[0])
    else pieces[0] + "\n" + Join(pieces[1..])
  }

  /** The events for a list of terminated lines, in order. */
  function EmitAll(lines: seq<string>): (r: seq<Event>)
    ensures |r| == |lines|
    ensures forall k :: 0 <= k < |lines| ==> r[k] == Emit(lines[k])
    decreases |lines|
  {
    if lines == [] then []
    else EmitAll(lines[..|lines| - 1]) + [Emit(lines[|lines| - 1])]
  }

  /** All chunks of a read loop, concatenated. */
  function Flatten(chunks: seq<string>): string
    decreases |chunks|
  {
    if chunks == [] then [] else Flatten(chunks[..|chunks| - 1]) + chunks[|chunks| - 1]
  }

  // ---------------------------------------------------------------------
  // Properties of the reference definitions

  lemma {:induction false} SplitJoin(s: string)
    ensures Join(Split(s)) == s
    decreases |s|
  {
    if s != [] {
      SplitJoin(s[1..]);
      var rest := Split(s[1..]);
      if s[0] == '\n' {
        assert ([[]] + rest)[1..] == rest;
      } else {
        var r := [[s[0]] + rest[0]] + rest[1..];
        if |rest| > 1 {
          assert r[1..] == rest[1..];
          assert Join(rest) == rest[0] + "\n" + Join(rest[1..]);
        }
      }
    }
  }

  lemma {:induction false} SplitUnbroken(s: string)
    requires '\n' !in s
    ensures Split(s) == [s]
    decreases |s|
  {
    if s != [] {
      assert '\n' !in s[1..] by { assert forall k :: 0 <= k < |s[1..]| ==> s[1..][k] == s[k + 1]; }
      SplitUnbroken(s[1..]);
      assert s[0] != '\n';
      assert [s[0]] + s[1..] == s;
    }
  }

  /** `pieces` with `x` added to its last piece. */
  function AppendToLast(pieces: seq<string>, x: char): (r: seq<string>)
    requires |pieces| >= 1
    ensures |r| == |pieces|
  {
    pieces[..|pieces| - 1] + [pieces[|pieces| - 1] + [x]]
  }

  /** `pieces` with `c` put in front of its first piece. */
  function PrependToFirst(c: char, pieces: seq<string>): (r: seq<string>)
    requires |pieces| >= 1
    ensures |r| == |pieces|
  {
    [[c] + pieces[0]] + pieces[1..]
  }

  lemma AppendToLastCons(h: string, pieces: seq<string>, x: char)
    requires |pieces| >= 1
    ensures AppendToLast([h] + pieces, x) == [h] + AppendToLast(pieces, x)
  {
  }

  lemma PrependAppend(c: char, pieces: seq<string>, x: char)
    requires |pieces| >= 1
    ensures PrependToFirst(c, AppendToLast(pieces, x)) == AppendToLast(PrependToFirst(c, pieces), x)
  {
    var n := |pieces|;
    if n == 1 {
      assert ([c] + pieces[0]) + [x] == [c] + (pieces[0] + [x]);
    } else {
      var a := AppendToLast(pieces, x);
      assert a[0] == pieces[0];
      assert a[1..] == pieces[1..n - 1] + [pieces[n - 1] + [x]];
      var b := PrependToFirst(c, pieces);
      assert b[..n - 1] == [[c] + pieces[0]] + pieces[1..n - 1];
      assert b[n - 1] == pieces[n - 1];
    }
  }

  lemma PrependSnocEmpty(c: char, pieces: seq<string>)
    requires |pieces| >= 1
    ensures PrependToFirst(c, pieces + [[]]) == PrependToFirst(c, pieces) + [[]]
  {
  }

  /** Split, extended by one character at the end: a line feed opens a new
      empty piece, anything else grows the last piece. */
  lemma {:induction false} SplitSnoc(s: string, x: char)
    ensures Split(s + [x]) == if x == '\n' then Split(s) + [[]] else AppendToLast(Split(s), x)
    decreases |s|
  {
    if s == [] {
      assert [] + [x] == [x];
      assert [x][0] == x && [x][1..] == [];
      assert Split([]) == [[]];
      if x != '\n' {
        assert Split([x]) == [[x] + []] + [];
        assert AppendToLast([[]], x) == [[] + [x]];
        assert [x] + [] == [] + [x];
      }
    } else {
      var t := s[1..];
      assert (s + [x])[1..] == t + [x];
      assert (s + [x])[0] == s[0];
      SplitSnoc(t, x);
      var p := Split(t);
      if s[0] == '\n' {
        assert Split(s) == [[]] + p;
        assert Split(s + [x]) == [[]] + Split(t + [x]);
        if x != '\n' {
          AppendToLastCons([], p, x);
        }
      } else {
        assert Split(s) == PrependToFirst(s[0], p);
        assert Split(s + [x]) == PrependToFirst(s[0], Split(t + [x]));
        if x == '\n' {
          PrependSnocEmpty(s[0], p);
        } else {
          PrependAppend(s[0], p, x);
        }
      }
    }
  }

  lemma {:induction false} SplitCount(s: string)
    ensures |Split(s)| == Count('\n', s) + 1
    decreases |s|
  {
    if s != [] {
      var init := s[..|s| - 1];
      assert s == init + [s[|s| - 1]];
      SplitCount(init);
      SplitSnoc(init, s[|s| - 1]);
    }
  }

  lemma {:induction false} RemoveCRUnchanged(s: string)
    requires '\r' !in s
    ensures RemoveCR(s) == s
    decreases |s|
  {
    if s != [] {
      assert s == s[..|s| - 1] + [s[|s| - 1]];
      RemoveCRUnchanged(s[..|s| - 1]);
    }
  }

  lemma {:induction false} RemoveCRConcat(a: string, b: string)
    ensures RemoveCR(a + b) == RemoveCR(a) + RemoveCR(b)
    decreases |b|
  {
    if b == [] {
      assert a + b == a;
    } else {
      assert (a + b)[..|a + b| - 1] == a + b[..|b| - 1];
      RemoveCRConcat(a, b[..|b| - 1]);
    }
  }

  lemma {:induction false} CountConcat(x: char, a: string, b: string)
    ensures Count(x, a + b) == Count(x, a) + Count(x, b)
    decreases |b|
  {
    if b == [] {
      assert a + b == a;
    } else {
      assert (a + b)[..|a + b| - 1] == a + b[..|b| - 1];
      CountConcat(x, a, b[..|b| - 1]);
    }
  }

  // ---------------------------------------------------------------------
  // Properties of the framer

  /** Chunk-boundary independence: splitting the input anywhere changes
      neither the events nor the buffer. */
  lemma {:induction false} FeedAllConcat(st: FrameState, a: string, b: string)
    ensures FeedAll(st, a + b) == FeedAll(FeedAll(st, a), b)
    decreases |b|
  {
    if b == [] {
      assert a + b == a;
    } else {
      assert (a + b)[..|a + b| - 1] == a + b[..|b| - 1];
      FeedAllConcat(st, a, b[..|b| - 1]);
    }
  }

  /** The framer only appends: earlier events are handed on untouched, and
      what it adds depends on the buffer alone. */
  lemma {:induction false} FeedAllAppends(st: FrameState, chunk: string)
    ensures var r := FeedAll(FrameState([], st.pending), chunk);
      FeedAll(st, chunk) == FrameState(st.emitted + r.emitted, r.pending)
    decreases |chunk|
  {
    if chunk != [] {
      FeedAllAppends(st, chunk[..|chunk| - 1]);
    }
  }

  /** Exactly one event per line feed in the chunk. */
  lemma {:induction false} FeedAllCount(st: FrameState, chunk: string)
    ensures |FeedAll(st, chunk).emitted| == |st.emitted| + Count('\n', chunk)
    decreases |chunk|
  {
    if chunk != [] {
      FeedAllCount(st, chunk[..|chunk| - 1]);
    }
  }

  /** The buffer never holds a line feed or a carriage return, and no emitted
      line does either. */
  lemma {:induction false} FeedAllClean(st: FrameState, chunk: string)
    requires NoLineBreaks(st.pending)
    ensures NoLineBreaks(FeedAll(st, chunk).pending)
    ensures var r := FeedAll(st, chunk).emitted;
      |st.emitted| <= |r| && r[..|st.emitted|] == st.emitted
      && forall k :: |st.emitted| <= k < |r| ==> NoLineBreaks(r[k].text)
    decreases |chunk|
  {
    if chunk != [] {
      var before := FeedAll(st, chunk[..|chunk| - 1]);
      FeedAllClean(st, chunk[..|chunk| - 1]);
      if chunk[|chunk| - 1] == '\n' {
        var line := Trim(before.pending);
        forall c | c in line ensures c != '\n' && c != '\r' {
          TrimChars(before.pending, c);
        }
      }
    }
  }

  /** Without a line feed the chunk only grows the buffer, minus its carriage returns. */
  lemma {:induction false} FeedAllUnterminated(st: FrameState, chunk: string)
    requires '\n' !in chunk
    ensures FeedAll(st, chunk) == FrameState(st.emitted, st.pending + RemoveCR(chunk))
    decreases |chunk|
  {
    if chunk != [] {
      var init := chunk[..|chunk| - 1];
      assert '\n' !in init by { assert forall k :: 0 <= k < |init| ==> init[k] == chunk[k]; }
      FeedAllUnterminated(st, init);
    }
  }

  /** After a chunk whose last line feed is followed by `tail`, the buffer is
      `tail` without its carriage returns. */
  lemma FeedAllPendingTail(st: FrameState, head: string, tail: string)
    requires '\n' !in tail
    ensures FeedAll(st, head + "\n" + tail).pending == RemoveCR(tail)
  {
    FeedAllConcat(st, head + "\n", tail);
    FeedAllConcat(st, head, "\n");
    assert FeedAll(FeedAll(st, head), "\n").pending == [] by {
      assert "\n"[..0] == [];
    }
    FeedAllUnterminated(FeedAll(st, head + "\n"), tail);
  }

  /** A line terminated by a line feed, fed behind a buffer, emits the trim
      of buffer and line together and leaves the buffer empty. */
  lemma FeedAllLine(st: FrameState, line: string)
    requires '\n' !in line
    ensures FeedAll(st, line + "\n")
         == FrameState(st.emitted + [Emit(st.pending + RemoveCR(line))], [])
  {
    FeedAllConcat(st, line, "\n");
    FeedAllUnterminated(st, line);
    assert "\n"[..0] == [];
  }

  /** Two line feeds in a row emit an empty status line. */
  lemma FeedAllEmptyLine(st: FrameState)
    ensures FeedAll(st, "\n\n")
         == FrameState(st.emitted + [Emit(st.pending), Status([])], [])
  {
    assert "\n\n"[..1] == "\n";
    assert "\n"[..0] == [];
    TrimUnpadded([]);
  }

  /** `st` is what the framer holds after the text `text` (carriage returns
      already removed), on top of the events `es`: every piece of `text` but the
      last has been emitted, and the last piece is buffered. */
  ghost predicate AgreesWithSplit(es: seq<Event>, text: string, st: FrameState) {
    var pieces := Split(text);
    st.emitted == es + EmitAll(pieces[..|pieces| - 1]) && st.pending == pieces[|pieces| - 1]
  }

  lemma AgreesAfterLineFeed(es: seq<Event>, text: string, st: FrameState)
    requires AgreesWithSplit(es, text, st)
    ensures AgreesWithSplit(es, text + ['\n'], Step(st, '\n'))
  {
    SplitSnoc(text, '\n');
    var p := Split(text);
    var q := p + [[]];
    assert q[..|q| - 1] == p;
    assert EmitAll(p) == EmitAll(p[..|p| - 1]) + [Emit(p[|p| - 1])];
  }

  lemma AgreesAfterChar(es: seq<Event>, text: string, st: FrameState, x: char)
    requires x != '\n' && x != '\r'
    requires AgreesWithSplit(es, text, st)
    ensures AgreesWithSplit(es, text + [x], Step(st, x))
  {
    SplitSnoc(text, x);
    var p := Split(text);
    var q := AppendToLast(p, x);
    assert q[..|q| - 1] == p[..|p| - 1];
  }

  /** The framer against the reference: with `pieces` the Split of the
      buffer followed by the chunk without carriage returns, every piece but
      the last is emitted, trimmed and classified, in order, and the last
      piece is what stays buffered. */
  lemma {:induction false} FeedAllMatchesSplit(st: FrameState, chunk: string)
    requires '\n' !in st.pending
    ensures AgreesWithSplit(st.emitted, st.pending + RemoveCR(chunk), FeedAll(st, chunk))
    decreases |chunk|
  {
    if chunk == [] {
      assert st.pending + [] == st.pending;
      SplitUnbroken(st.pending);
    } else {
      var init, x := chunk[..|chunk| - 1], chunk[|chunk| - 1];
      FeedAllMatchesSplit(st, init);
      var text := st.pending + RemoveCR(init);
      if x == '\n' {
        assert st.pending + RemoveCR(chunk) == text + [x];
        AgreesAfterLineFeed(st.emitted, text, FeedAll(st, init));
      } else if x == '\r' {
        assert st.pending + RemoveCR(chunk) == text;
      } else {
        assert st.pending + RemoveCR(chunk) == text + [x];
        AgreesAfterChar(st.emitted, text, FeedAll(st, init), x);
      }
    }
  }

  /** The read loop over many chunks equals one feed of their concatenation. */
  lemma {:induction false} FeedChunksFlatten(st: FrameState, chunks: seq<string>)
    ensures FeedChunks(st, chunks) == FeedAll(st, Flatten(chunks))
    decreases |chunks|
  {
    if chunks != [] {
      var init := chunks[..|chunks| - 1];
      FeedChunksFlatten(st, init);
      FeedAllConcat(st, Flatten(init), chunks[|chunks| - 1]);
    }
  }

  /** A trailing carriage return is all that RemoveCR drops from a clean line. */
  lemma RemoveTrailingCR(line: string)
    requires NoLineBreaks(line)
    ensures RemoveCR(line + "\r") == line
  {
    RemoveCRConcat(line, "\r");
    RemoveCRUnchanged(line);
    assert RemoveCR("\r") == [] by { assert "\r"[..0] == []; }
  }

  /** A CR LF terminated line from a fresh start emits just that line. */
  lemma CrLfLine(line: string)
    requires NoLineBreaks(line)
    ensures FeedAll(Fresh, (line + "\r") + "\n") == FrameState([Emit(line)], [])
  {
    var withCr := line + "\r";
    assert '\n' !in withCr;
    FeedAllLine(Fresh, withCr);
    RemoveTrailingCR(line);
    assert [] + RemoveCR(withCr) == line;
  }

  /** Two lines from a fresh start, the first ended by CR LF and the second
      by LF alone, give exactly their two events. */
  lemma TwoLines(first: string, second: string)
    requires NoLineBreaks(first) && NoLineBreaks(second)
    ensures FeedAll(Fresh, first + "\r\n" + second + "\n") == FrameState([Emit(first), Emit(second)], [])
  {
    assert first + "\r\n" + second + "\n" == ((first + "\r") + "\n") + (second + "\n");
    FeedAllConcat(Fresh, (first + "\r") + "\n", second + "\n");
    CrLfLine(first);
    var mid := FrameState([Emit(first)], []);
    FeedAllLine(mid, second);
    RemoveCRUnchanged(second);
    assert mid.pending + RemoveCR(second) == second;
  }

  /** A status line ended by CR LF and then an environment report ended by
      LF, from a fresh start, are shown as exactly those two events. */
  lemma StatusThenReport(stream: string, status: string, report: string)
    requires NoLineBreaks(status) && Unpadded(status) && NoLineBreaks(report) && Unpadded(report)
    requires |status| > 0 && status[0] != '{' && |report| > 0 && report[0] == '{'
    requires stream == status + "\r\n" + report + "\n"
    ensures FeedAll(Fresh, stream) == FrameState([Status(status), Environment(report)], [])
  {
    TwoLines(status, report);
    TrimUnpadded(status);
    TrimUnpadded(report);
  }

  /** The device's sample stream: "Connected" ended by CR LF, then the
      environment report {"temp":21}. */
  lemma SampleStream(stream: string, status: string, report: string)
    requires status == "Connected" && report == "{\"temp\":21}"
    requires stream == status + "\r\n" + report + "\n"
    ensures FeedAll(Fresh, stream) == FrameState([Status(status), Environment(report)], [])
  {
    assert NoLineBreaks(status) && Unpadded(status) by {
      assert forall k :: 0 <= k < |status| ==> 'A' <= status[k] <= 'z';
    }
    assert NoLineBreaks(report) && Unpadded(report) by {
      assert forall k :: 0 <= k < |report| ==> ' ' < report[k] <= '}';
    }
    StatusThenReport(stream, status, report);
  }
}
