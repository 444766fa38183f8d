# Smart-home remote: line-protocol client

A model of the protocol core of the Android remote control in
`mobile-app/android-kotlin/app/src/main/java/com/example/smarthome/MainActivity.kt`. The app talks to a home-automation controller (light, door lock,
environment sensor) over a Bluetooth serial link, using a protocol of
newline-terminated text lines. The model covers three parts:

- **Line framer and classifier** (`listenForLines`). A buffer that persists
  across reads is scanned one character at a time. A line feed emits the
  trimmed buffer and clears it. A carriage return is dropped. Any other
  character is appended. A line that starts with `{` is an environment
  report. Every other line is a status line, the empty line included.
  - `Framing` gives the loop as a specification (`Step`, `FeedAll`,
    `FeedChunks`) and proves its properties.
  - It also proves the loop against an independent reference, `Split`,
    which cuts the text at its line feeds.
  - `LineReader.LineFramer` is the `StringBuilder` as a class. Its
    `Feed` method is the `for` loop, proved against `FeedAll`.
- **Outbound framing** (`sendLine` and the six button commands).
  - `Commands` holds the commands, their lines and the frame `line + "\n"`.
  - It also proves that a framer of the same protocol reads each frame back
    as the line.
- **Connection state** (`connectToDevice`). `Client.RemoteClient` holds
  `socket`, `out` and `in`, the screen updates and the frames written.
  - A connect attempt is an outcome given as a parameter: the socket was
    refused with a message, or it opened and delivered a finite list of
    decoded chunks.
  - The end of that list stands for `read` returning 0 or less, throwing,
    or the socket no longer being connected.

Whitespace for `trim()` is the set of Kotlin's `Char.isWhitespace` on
the JVM (`Character.isWhitespace` or `Character.isSpaceChar`), written
out in `Text.IsWhitespace`. This set is an assumption of the model.

How the code behaves where a reader might expect otherwise:
- An empty line (two line feeds in a row) is emitted as an empty status line.
- Every carriage return is dropped, wherever it appears in the line, not
  only at the end.
- Nothing is ever closed or cleared. After "Disconnected", `socket`, `out`
  and `in` still hold the old socket. A failed connect leaves the handles
  of an earlier session in place. A new connect does not close the old
  socket first.
- The lifecycle "Disconnected" is shown exactly once, as the last event of
  a session. A device line that reads "Disconnected" (or "Connected") is an
  ordinary status line and looks the same on screen.

## Model

| member | source | states |
|---|---|---|
| Text.Trim | mobile-app/android-kotlin/app/src/main/java/com/example/smarthome/MainActivity.kt:120 | the result has no whitespace at either end and is no longer than the input |
| Text.TrimIsSlice | mobile-app/android-kotlin/app/src/main/java/com/example/smarthome/MainActivity.kt:120 | the input is a whitespace prefix, then the trimmed text, then a whitespace suffix |
| Text.TrimUnique | mobile-app/android-kotlin/app/src/main/java/com/example/smarthome/MainActivity.kt:120 | whatever whitespace surrounds a middle with no whitespace at its ends, trimming returns exactly that middle |
| Text.TrimChars | mobile-app/android-kotlin/app/src/main/java/com/example/smarthome/MainActivity.kt:120 | trimming introduces no character that was not in the line |
| Text.TrimUnpadded | mobile-app/android-kotlin/app/src/main/java/com/example/smarthome/MainActivity.kt:120 | a line with no whitespace at its ends is returned unchanged |
| Text.TrimIdempotent | mobile-app/android-kotlin/app/src/main/java/com/example/smarthome/MainActivity.kt:120 | trimming twice is the same as trimming once |
| Framing.Classify | mobile-app/android-kotlin/app/src/main/java/com/example/smarthome/MainActivity.kt:122-126 | the event carries the line unchanged; it is an environment report if and only if the line is non-empty and starts with `{`; otherwise (the empty line too) it is a status line |
| Framing.Emit | mobile-app/android-kotlin/app/src/main/java/com/example/smarthome/MainActivity.kt:120-126 | a terminated line becomes one event whose text is the trimmed line, with no whitespace at either end, and which is an environment report exactly when that text starts with `{` |
| Framing.Step | mobile-app/android-kotlin/app/src/main/java/com/example/smarthome/MainActivity.kt:118-129 | one character of the scan: a line feed adds exactly one event and empties the buffer; a carriage return changes nothing; any other character is appended to the buffer; earlier events are never changed |
| Framing.FeedAll | mobile-app/android-kotlin/app/src/main/java/com/example/smarthome/MainActivity.kt:118-130 | the scan over a chunk keeps every event emitted before it, in place, and only adds after them |
| Framing.FeedChunks | mobile-app/android-kotlin/app/src/main/java/com/example/smarthome/MainActivity.kt:114-131 | the read loop over a list of chunks keeps every earlier event, in place, and only adds after them |
| Framing.FeedAllConcat | mobile-app/android-kotlin/app/src/main/java/com/example/smarthome/MainActivity.kt:112-130 | feeding `a + b` gives the same events and buffer as feeding `a` and then `b` |
| Framing.FeedChunksFlatten | mobile-app/android-kotlin/app/src/main/java/com/example/smarthome/MainActivity.kt:112-131 | the read loop over any list of chunks equals one feed of their concatenation |
| Framing.FeedAllAppends | mobile-app/android-kotlin/app/src/main/java/com/example/smarthome/MainActivity.kt:118-130 | a feed keeps the earlier events unchanged and appends events that depend only on the buffer and the chunk |
| Framing.FeedAllCount | mobile-app/android-kotlin/app/src/main/java/com/example/smarthome/MainActivity.kt:118-126 | a feed emits exactly one event per line feed in the chunk |
| Framing.FeedAllClean | mobile-app/android-kotlin/app/src/main/java/com/example/smarthome/MainActivity.kt:119-121 | starting from a buffer with no line breaks, the buffer never holds a line feed or carriage return, and no new event's text does |
| Framing.FeedAllUnterminated | mobile-app/android-kotlin/app/src/main/java/com/example/smarthome/MainActivity.kt:127-128 | a chunk with no line feed emits nothing and grows the buffer by the chunk with its carriage returns removed |
| Framing.FeedAllPendingTail | mobile-app/android-kotlin/app/src/main/java/com/example/smarthome/MainActivity.kt:119-128 | after a chunk whose last line feed is followed by `tail`, the buffer is `tail` with carriage returns removed |
| Framing.FeedAllLine | mobile-app/android-kotlin/app/src/main/java/com/example/smarthome/MainActivity.kt:119-126 | a line ended by a line feed emits one event, the trim of buffer plus line without carriage returns, and empties the buffer |
| Framing.FeedAllEmptyLine | mobile-app/android-kotlin/app/src/main/java/com/example/smarthome/MainActivity.kt:119-126 | two line feeds in a row emit the pending line and then an empty status line |
| Framing.FeedAllMatchesSplit | mobile-app/android-kotlin/app/src/main/java/com/example/smarthome/MainActivity.kt:118-130 | against the reference `Split` of buffer plus chunk (without carriage returns): every piece but the last is emitted, trimmed and classified, in order, and the last piece stays buffered |
| Framing.SplitJoin | mobile-app/android-kotlin/app/src/main/java/com/example/smarthome/MainActivity.kt:118-121 | the reference split loses nothing: joining the pieces with line feeds gives back the text |
| Framing.SplitSnoc | mobile-app/android-kotlin/app/src/main/java/com/example/smarthome/MainActivity.kt:118-121 | one more character extends the reference split: a line feed opens a new piece, anything else grows the last piece |
| Framing.SplitCount | mobile-app/android-kotlin/app/src/main/java/com/example/smarthome/MainActivity.kt:118-121 | the reference split has one more piece than the text has line feeds |
| Framing.SplitUnbroken | mobile-app/android-kotlin/app/src/main/java/com/example/smarthome/MainActivity.kt:127-128 | a text with no line feed is a single piece |
| Framing.RemoveCR | mobile-app/android-kotlin/app/src/main/java/com/example/smarthome/MainActivity.kt:127 | the result has no carriage return, and holds a line feed exactly when the input does |
| Framing.RemoveCRConcat | mobile-app/android-kotlin/app/src/main/java/com/example/smarthome/MainActivity.kt:127 | removing carriage returns distributes over concatenation, so it can be done chunk by chunk |
| Framing.RemoveCRUnchanged | mobile-app/android-kotlin/app/src/main/java/com/example/smarthome/MainActivity.kt:127 | a text without carriage returns is unchanged |
| Framing.CountConcat | mobile-app/android-kotlin/app/src/main/java/com/example/smarthome/MainActivity.kt:118-119 | line feeds in `a + b` are those in `a` plus those in `b` |
| Framing.EmitAll | mobile-app/android-kotlin/app/src/main/java/com/example/smarthome/MainActivity.kt:119-126 | one event per line, in order, each the trimmed and classified line |
| Framing.RemoveTrailingCR | mobile-app/android-kotlin/app/src/main/java/com/example/smarthome/MainActivity.kt:127 | a line followed by a carriage return reads as the line alone |
| Framing.CrLfLine | mobile-app/android-kotlin/app/src/main/java/com/example/smarthome/MainActivity.kt:118-128 | a line ended by CR LF, from a fresh buffer, emits just that line |
| Framing.TwoLines | mobile-app/android-kotlin/app/src/main/java/com/example/smarthome/MainActivity.kt:118-130 | a CR LF line and a LF line, from a fresh buffer, emit exactly their two events and leave the buffer empty |
| Framing.StatusThenReport | mobile-app/android-kotlin/app/src/main/java/com/example/smarthome/MainActivity.kt:118-130 | a status line ended by CR LF and a `{` line ended by LF, from a fresh buffer, give exactly a status event and an environment event carrying those lines |
| Framing.SampleStream | mobile-app/android-kotlin/app/src/main/java/com/example/smarthome/MainActivity.kt:118-130 | the stream `Connected\r\n{"temp":21}\n` gives a status "Connected" and the environment report `{"temp":21}` |
| LineReader.LineFramer.constructor | mobile-app/android-kotlin/app/src/main/java/com/example/smarthome/MainActivity.kt:112 | a new buffer is empty |
| LineReader.LineFramer.Feed | mobile-app/android-kotlin/app/src/main/java/com/example/smarthome/MainActivity.kt:118-130 | the loop over a chunk returns the events and leaves the buffer exactly as `FeedAll` specifies, and the buffer keeps holding no line breaks |
| Commands.CommandText | mobile-app/android-kotlin/app/src/main/java/com/example/smarthome/MainActivity.kt:42-47 | each button's line is non-empty and does not start with `{` |
| Commands.CommandOf | mobile-app/android-kotlin/app/src/main/java/com/example/smarthome/MainActivity.kt:42-47 | a recognised line is exactly the text of the command it names |
| Commands.CommandRoundTrip | mobile-app/android-kotlin/app/src/main/java/com/example/smarthome/MainActivity.kt:42-47 | every command's line is recognised as that command again |
| Commands.CommandTextInjective | mobile-app/android-kotlin/app/src/main/java/com/example/smarthome/MainActivity.kt:42-47 | no two buttons send the same line |
| Commands.CommandTextClean | mobile-app/android-kotlin/app/src/main/java/com/example/smarthome/MainActivity.kt:42-47 | a command line has no line break and nothing to trim |
| Commands.FrameLine | mobile-app/android-kotlin/app/src/main/java/com/example/smarthome/MainActivity.kt:139 | the frame is the line followed by exactly one line feed |
| Commands.FrameLineDecodes | mobile-app/android-kotlin/app/src/main/java/com/example/smarthome/MainActivity.kt:139 | a framer of the same protocol reads a frame back as one event for the line, leaving nothing buffered |
| Commands.CommandFrameDecodes | mobile-app/android-kotlin/app/src/main/java/com/example/smarthome/MainActivity.kt:42-47 | each command's frame, read by a fresh framer, gives exactly one status line carrying the command |
| Client.RefusedSession | mobile-app/android-kotlin/app/src/main/java/com/example/smarthome/MainActivity.kt:96-105 | a refused connect shows "Connecting to …" and "Connect failed: …" only, never "Connected", no framed line and no "Disconnected" |
| Client.OpenedSession | mobile-app/android-kotlin/app/src/main/java/com/example/smarthome/MainActivity.kt:96-132 | an opened connect shows "Connecting to …", "Connected", one framed event per line feed read, and "Disconnected" last; how the stream was cut into reads does not matter |
| Client.SessionEvents | mobile-app/android-kotlin/app/src/main/java/com/example/smarthome/MainActivity.kt:96-132 | a connect attempt shows "Connecting to …" first; a refused one shows only that and "Connect failed: …"; an opened one shows "Connected" second and "Disconnected" last |
| Client.Message | mobile-app/android-kotlin/app/src/main/java/com/example/smarthome/MainActivity.kt:105 | the text of an exception message, or "null" when the message is null, as the string template prints it |
| Client.DisplayName | mobile-app/android-kotlin/app/src/main/java/com/example/smarthome/MainActivity.kt:96 | the device name when it is not null, and the device address otherwise |
| Client.RemoteClient.constructor | mobile-app/android-kotlin/app/src/main/java/com/example/smarthome/MainActivity.kt:27-29 | the socket, output and input streams start out null |
| Client.RemoteClient.ConnectToDevice | mobile-app/android-kotlin/app/src/main/java/com/example/smarthome/MainActivity.kt:93-108 | the screen gets the session's events; the handles are set to the new socket only on success, and a failure leaves them as they were |
| Client.RemoteClient.ListenForLines | mobile-app/android-kotlin/app/src/main/java/com/example/smarthome/MainActivity.kt:110-133 | without an input stream nothing happens; otherwise the screen gets the read loop's events through one buffer, then "Disconnected" |
| Client.RemoteClient.SendLine | mobile-app/android-kotlin/app/src/main/java/com/example/smarthome/MainActivity.kt:135-145 | with no output stream nothing is written and nothing is shown; otherwise exactly `line + "\n"` is written, or a failed write shows "Send failed: …" and writes nothing |
| Client.RemoteClient.Press | mobile-app/android-kotlin/app/src/main/java/com/example/smarthome/MainActivity.kt:42-47 | a button sends exactly its command and a line feed when an output stream is open, shows "Send failed: …" and writes nothing when the write fails, and does nothing when no stream is open |

## Left out

- Permission checks, the SDK-version branches, the device-selection dialog,
  alerts and the view wiring in `onCreate`: Android platform and UI calls.
- Creating and connecting the RFCOMM socket, and the SPP UUID: Bluetooth I/O.
  The model takes only the outcome, refused with a message or opened with
  the chunks it delivers.
- The `thread { … }` of connect and send, and `runOnUiThread`: each
  operation runs to completion, in order. A send can therefore not
  interleave with a running read loop, and screen updates are recorded in
  the order they are posted.
- Decoding each read of up to 256 bytes as UTF-8: chunks are sequences of
  characters. Per-read decoding also garbles a multi-byte character split
  across two reads, and turns malformed bytes into replacement characters.
  So chunk-boundary independence holds at the character level only.
  Frames are written as characters. The six commands are ASCII, so their
  bytes are the same as their characters.
- Client.RemoteClient.SendLine: a failed `write` or `flush` is modelled as
  writing nothing, whereas the stream may have taken part of the frame.
- Text.IsWhitespace: the whitespace set of `trim()` is written out by hand,
  as an assumption.
- The screen is a log of every update to `txtStatus` and `txtEnv`. What
  each view shows is the latest update of its kind.
