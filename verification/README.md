# Pebble colours client: a Dafny model

This project models the logic at the centre of the Android client that
displays a colour streamed by a small TCP server. The server sends two kinds of
command:

- an **absolute** command: opcode 2, then r, g and b as unsigned bytes;
- a **relative** command: any other opcode (the server uses 1), then three
  deltas of two bytes each.

The client does four things with them:

- It **decodes** one command per iteration of its read loop.
- It **logs** every command in a list, newest first. An absolute arrival
  deselects all earlier entries. Every arrival is logged as selected, and a
  click on an entry flips that entry's selection.
- It **recomputes** the colour shown in its header by folding the selected
  entries oldest first. The fold starts from (127, 127, 127). A selected
  absolute entry replaces the colour. A selected relative entry adds its deltas
  modulo 255, using Java's truncating `%` and then adding 255 to a negative
  remainder.
- It posts a **`null`** to the user-interface thread when the stream ends or
  fails, and the header then shows the connection-error message.

The modules follow that structure:

- `JavaInt` holds the Java integer semantics the client relies on:
  - the signed `byte` that `readByte` returns;
  - its sign extension to a 32-bit `int`, modelled with bit-vectors;
  - the expression `hi << 8 | lo` on two such bytes;
  - the truncating remainder.
- `Commands` holds the logged command (the client's `RGBObject`) and the colour.
- `Decoder` is the read loop's body, together with the server's encoder, against
  which the round-trip lemmas are stated.
- `CommandLog` covers arrival, deselection and the click toggle.
- `Aggregator` is `calculateAndUpdateCurrentValues`. It contains the Java loop as
  a method and a recursive reference fold.
- `Session` covers:
  - the client thread's whole loop, as the sequence of posts it makes;
  - the user-interface thread handling those posts, and the user's clicks on
    the list, in order;
  - the server's own colour tracking, which the client's header follows as
    long as the user does not click.

The relative decoding does not do what the comment at line 163 of
`MainActivity.java` says ("16-bit signed int's"). Both bytes are read with
`readByte`, so both are sign-extended before the shift and the or. As a result,
a low byte of 0x80 or more overwrites the high byte with ones. The model keeps
the code's arithmetic:

- `Decoder.DeltaRoundTrip` characterises exactly which 16-bit deltas survive
  the encoding and decoding.
- `Decoder.DeltaMisdecoded` shows that a delta of 128 arrives as -128.
- The server only sends deltas in [-10, 10], and every delta in that range
  decodes exactly (`Decoder.ServerDeltasDecodeExactly`).

## Model

| member | source | states |
|---|---|---|
| JavaInt.Signed | colors/src/main/java/com/jathusan/pebble/colors/MainActivity.java:160 | `readByte` yields the byte's bits read as a signed value in [-128, 127]. It is the unsigned value or that value minus 256, and it is negative exactly when the top bit is set. |
| JavaInt.SignExtend | colors/src/main/java/com/jathusan/pebble/colors/MainActivity.java:164 | Widening a `byte` to a 32-bit `int` by sign extension keeps its signed value. |
| JavaInt.ToInt | colors/src/main/java/com/jathusan/pebble/colors/MainActivity.java:164-166 | The integer a 32-bit Java `int` holds, read as two's complement, lies in [-2^31, 2^31 - 1]. |
| JavaInt.ShiftOr | colors/src/main/java/com/jathusan/pebble/colors/MainActivity.java:164-166 | Definition of `(hi << 8) OR lo` on the sign-extended bytes, as 32-bit bit-vector operations; its value is stated by JavaInt.ShiftOrIsClosedForm. |
| JavaInt.ShiftOrValue | colors/src/main/java/com/jathusan/pebble/colors/MainActivity.java:164-166 | A relative channel always lies in [-32768, 32767]. When the low byte has its top bit set, the channel lies in [-128, -1]. |
| JavaInt.ShiftOrIsClosedForm | colors/src/main/java/com/jathusan/pebble/colors/MainActivity.java:164-166 | The 32-bit `int` that `(hi << 8) OR lo` computes on two sign-extended bytes holds `signed(hi) * 256 + lo` when `lo < 0x80`, and `lo - 256` otherwise. |
| JavaInt.Rem | colors/src/main/java/com/jathusan/pebble/colors/MainActivity.java:234 | Java's `%`: the dividend equals quotient times divisor plus remainder. The remainder takes the dividend's sign and is smaller in magnitude than the divisor. |
| JavaInt.RemCorrectedIsMod | colors/src/main/java/com/jathusan/pebble/colors/MainActivity.java:234-238 | Adding the divisor to a negative Java remainder gives the Euclidean remainder. |
| Decoder.ReadByte | colors/src/main/java/com/jathusan/pebble/colors/MainActivity.java:164 | `readByte` fails exactly at end of stream; otherwise it yields the first byte and leaves the rest of the stream. |
| Decoder.ReadUnsignedByte | colors/src/main/java/com/jathusan/pebble/colors/MainActivity.java:169-171 | `readUnsignedByte` succeeds exactly when a byte is left. It yields that byte as a value in [0, 255] and consumes exactly one byte. |
| Decoder.ReadShiftOr | colors/src/main/java/com/jathusan/pebble/colors/MainActivity.java:164-166 | Two `readByte` calls combined by a shift and a bitwise or succeed exactly when two bytes are left. They yield the closed-form value and consume exactly two bytes. |
| Decoder.Decode | colors/src/main/java/com/jathusan/pebble/colors/MainActivity.java:158-172 | No command results exactly when the stream is shorter than the frame: 1 + 3 bytes for opcode 2, 1 + 6 otherwise. Otherwise the command is absolute exactly when the opcode is 2, exactly the frame is consumed, and the command is unselected and within the decodable ranges. |
| Decoder.DecodeValues | colors/src/main/java/com/jathusan/pebble/colors/MainActivity.java:162-171 | An absolute command's channels are the three bytes after the opcode, read unsigned. A relative command's channels are the three `(hi << 8) OR lo` pairs after the opcode. |
| Decoder.DecodeConsumes | colors/src/main/java/com/jathusan/pebble/colors/MainActivity.java:160-172 | Every decoded command consumes at least four bytes, so the read loop progresses. |
| Decoder.EncodeAbsolute | server.py:42 | The server's absolute command is four bytes and starts with opcode 2. |
| Decoder.EncodeRelative | server.py:37 | The server's relative command is seven bytes and starts with opcode 1. |
| Decoder.Int16RoundTrip | server.py:37 | The 16-bit big-endian packing of a delta, read back as a signed 16-bit pair, gives the delta. |
| Decoder.ShiftOrAgreesWithInt16 | colors/src/main/java/com/jathusan/pebble/colors/MainActivity.java:163-166 | The client's channel equals the 16-bit signed reading of the pair exactly when the low byte is below 0x80 or the high byte is 0xFF. |
| Decoder.DeltaRoundTrip | colors/src/main/java/com/jathusan/pebble/colors/MainActivity.java:163-166 | A 16-bit delta is decoded as itself exactly when its low byte is below 0x80, or when it lies in [-256, -1]. |
| Decoder.DeltaMisdecoded | colors/src/main/java/com/jathusan/pebble/colors/MainActivity.java:163-164 | The delta 128 is packed as bytes 0x00, 0x80 and decoded as -128. |
| Decoder.AbsoluteRoundTrip | colors/src/main/java/com/jathusan/pebble/colors/MainActivity.java:158-172 | An encoded absolute colour followed by any bytes decodes to that colour, absolute and unselected. The following bytes are left unread. |
| Decoder.RelativeRoundTrip | colors/src/main/java/com/jathusan/pebble/colors/MainActivity.java:158-172 | An encoded relative command whose deltas decode exactly decodes to those deltas, relative and unselected. The following bytes are left unread. |
| Decoder.ServerDeltasDecodeExactly | server.py:31-33 | Every delta the server draws, in [-10, 10], decodes exactly. |
| CommandLog.ClearAllSelected | colors/src/main/java/com/jathusan/pebble/colors/MainActivity.java:258-262 | Every entry is deselected. The log's length, and each entry's kind and values, are unchanged. |
| CommandLog.Receive | colors/src/main/java/com/jathusan/pebble/colors/MainActivity.java:205-213 | The log grows by one, with the new command selected at index 0. Older entries keep their content and order, one place further back. They keep their selection when the command is relative and are all deselected when it is absolute. |
| CommandLog.Toggle | colors/src/main/java/com/jathusan/pebble/colors/MainActivity.java:77-83 | A click flips the clicked entry's selection only. Its content, every other entry and the length are unchanged. |
| CommandLog.ToggleTwice | colors/src/main/java/com/jathusan/pebble/colors/MainActivity.java:77-83 | Two clicks on the same entry restore the log. |
| CommandLog.ArrivalsAtFront | colors/src/main/java/com/jathusan/pebble/colors/MainActivity.java:213 | After a run of arrivals, entry i holds the content of the i-th newest arrival. |
| CommandLog.EarlierEntriesKept | colors/src/main/java/com/jathusan/pebble/colors/MainActivity.java:205-213 | After a run of arrivals, the earlier entries follow the new ones with their content and order unchanged. |
| CommandLog.SelectionOfArrival | colors/src/main/java/com/jathusan/pebble/colors/MainActivity.java:205-213 | After a run of arrivals, a newly logged entry is selected exactly when no newer entry is absolute. |
| CommandLog.SelectionOfEarlierEntry | colors/src/main/java/com/jathusan/pebble/colors/MainActivity.java:205-208 | After a run of arrivals, an earlier entry keeps its selection exactly when every arrival was relative. Otherwise it is deselected. |
| Aggregator.ChannelStep | colors/src/main/java/com/jathusan/pebble/colors/MainActivity.java:234-248 | One relative channel step, Java remainder then correction, equals the Euclidean `(cur + delta) mod 255` and lies in [0, 254]. |
| Aggregator.Apply | colors/src/main/java/com/jathusan/pebble/colors/MainActivity.java:228-249 | A selected relative entry moves every channel to `(cur + delta) mod 255`, so each channel lies in [0, 254]. |
| Aggregator.Replay | colors/src/main/java/com/jathusan/pebble/colors/MainActivity.java:221-251 | Definition of the fold from a starting colour, oldest entry first; its properties are stated by Aggregator.ReplaySplit, Aggregator.Around, Aggregator.ReplayWithin and Aggregator.CalculateCurrentValues. |
| Aggregator.Recompute | colors/src/main/java/com/jathusan/pebble/colors/MainActivity.java:221-251 | Definition of the shown colour as the fold from (127, 127, 127); its properties are stated by Aggregator.RecomputeWithin, Aggregator.AbsoluteArrivalResets and Aggregator.RelativeArrival. |
| Aggregator.CalculateCurrentValues | colors/src/main/java/com/jathusan/pebble/colors/MainActivity.java:221-251 | The Java loop, running from the last index down to 0, computes exactly the recursive oldest-first fold from (127, 127, 127). |
| Aggregator.ReplayWithin | colors/src/main/java/com/jathusan/pebble/colors/MainActivity.java:226-249 | Starting in [0, 255] and folding decodable entries, every channel stays in [0, 255]. |
| Aggregator.RecomputeWithin | colors/src/main/java/com/jathusan/pebble/colors/MainActivity.java:221-251 | The colour shown for a log of decoded commands lies in [0, 255]. |
| Aggregator.StepSumsFitInt | colors/src/main/java/com/jathusan/pebble/colors/MainActivity.java:234-244 | While the colour is in [0, 255], the sum of a channel and a decoded delta fits a 32-bit Java `int`, so Java's addition does not wrap. |
| Aggregator.ReplayNothingSelected | colors/src/main/java/com/jathusan/pebble/colors/MainActivity.java:226-228 | A fold over entries that are all unselected leaves its start unchanged. |
| Aggregator.RecomputeNothingSelected | colors/src/main/java/com/jathusan/pebble/colors/MainActivity.java:222-228 | With nothing selected the header shows (127, 127, 127). |
| Aggregator.NewestRelativeBelowModulus | colors/src/main/java/com/jathusan/pebble/colors/MainActivity.java:233-248 | When the newest selected entry is relative, every channel lies in [0, 254]. |
| Aggregator.ReplaySplit | colors/src/main/java/com/jathusan/pebble/colors/MainActivity.java:226 | The fold runs oldest first: folding a log is folding its older part, then its newer part. |
| Aggregator.Around | colors/src/main/java/com/jathusan/pebble/colors/MainActivity.java:226-227 | The fold around entry p is everything older than p, then p, then everything newer. |
| Aggregator.DropUnselected | colors/src/main/java/com/jathusan/pebble/colors/MainActivity.java:228 | An unselected entry contributes nothing. In particular, a deselected absolute entry does not reset the colour. |
| Aggregator.ResetByAbsolute | colors/src/main/java/com/jathusan/pebble/colors/MainActivity.java:229-232 | A selected absolute entry makes every older entry irrelevant, and the fold restarts from its values. |
| Aggregator.ToggleRecompute | colors/src/main/java/com/jathusan/pebble/colors/MainActivity.java:77-86 | A click changes only the clicked entry's contribution to the shown colour. |
| Aggregator.DeselectRemovesContribution | colors/src/main/java/com/jathusan/pebble/colors/MainActivity.java:80-86 | Deselecting an entry shows the colour of the log without that entry. |
| Aggregator.AbsoluteArrivalResets | colors/src/main/java/com/jathusan/pebble/colors/MainActivity.java:205-217 | Immediately after an absolute command arrives, the header shows its values. |
| Aggregator.RelativeArrival | colors/src/main/java/com/jathusan/pebble/colors/MainActivity.java:210-217 | A relative arrival applies one relative step to the colour shown before it. |
| Aggregator.RecomputeAfterArrivals | colors/src/main/java/com/jathusan/pebble/colors/MainActivity.java:198-217 | After a run of arrivals, recomputing the whole log equals folding the arrivals in order from the colour shown before them. |
| Aggregator.WorkedExample | colors/src/main/java/com/jathusan/pebble/colors/MainActivity.java:226-248 | Absolute (100, 100, 100) then relative (10, 10, 10) shows (110, 110, 110). |
| Aggregator.NegativeWraps | colors/src/main/java/com/jathusan/pebble/colors/MainActivity.java:234-238 | A channel of 2 with a delta of -5 becomes 252. |
| Session.ClientPosts | colors/src/main/java/com/jathusan/pebble/colors/MainActivity.java:151-185 | The client thread posts decoded, unselected commands, then exactly one `null` when the stream ends, whether at a command boundary or part way through a command. |
| Session.PostsOfStream | colors/src/main/java/com/jathusan/pebble/colors/MainActivity.java:151-185 | The posts are the stream's commands in order, followed by `null`. |
| Session.Handle | colors/src/main/java/com/jathusan/pebble/colors/MainActivity.java:198-217 | Definition of one user-interface event: a `null` post shows the connection error and keeps the log; a command is received and the colour recomputed; a click on a row (`onItemClick`, lines 75-87) toggles it and recomputes. Its properties are stated by Session.HandleCommands, Session.ClickChangesOneContribution and Session.AbsoluteResynchronises. |
| Session.HandleAll | colors/src/main/java/com/jathusan/pebble/colors/MainActivity.java:198-217 | Definition of the events handled one by one in the order they occur; its properties are stated by Session.HandleSplit, Session.HandleCommands and Session.SessionEnd. |
| Session.ClickChangesOneContribution | colors/src/main/java/com/jathusan/pebble/colors/MainActivity.java:75-87 | A click on row p toggles exactly that row, and the header shows the colour in which only that row's contribution has changed. |
| Session.AbsoluteResynchronises | colors/src/main/java/com/jathusan/pebble/colors/MainActivity.java:205-217 | Whatever clicks came before, an absolute command makes the header show its own values. |
| Session.ReceiveThenAll | colors/src/main/java/com/jathusan/pebble/colors/MainActivity.java:213 | Receiving one command and then a run of others is the same as receiving them all in order. |
| Session.HandleCommands | colors/src/main/java/com/jathusan/pebble/colors/MainActivity.java:198-217 | After the user-interface thread handles posted commands, the log has received them all, and the header shows the log's recomputed colour. |
| Session.SessionEnd | colors/src/main/java/com/jathusan/pebble/colors/MainActivity.java:182-202 | At the end of a connection the log holds every command of the stream, newest first, and the header shows the connection error. |
| Session.HeaderAfterCommands | colors/src/main/java/com/jathusan/pebble/colors/MainActivity.java:176-217 | After the first k commands are handled, the header shows the arrival-order fold of those k commands from (127, 127, 127). It is stated for the client thread's posts alone, with no click handled in between. |
| Session.Encode | server.py:37-42 | A server command occupies 4 bytes if it is absolute and 7 if it is relative. |
| Session.EncodeRoundTrip | server.py:30-42 | Every command the server sends decodes to itself and leaves the following bytes unread. |
| Session.DecodeEncodeAll | server.py:29-45 | The client decodes exactly the sequence of commands the server sent. |
| Session.ArrivalsTrackServer | server.py:30-41 | The client's arrival-order fold equals the server's own colour tracking: `(r + dr) % 255` for a relative command, and the drawn values for an absolute one. |
| Session.ServerColor | server.py:25-43 | Definition of the server's tracking: `(r + dr) % 255` per channel for a relative command, the drawn values for an absolute one; its properties are stated by Session.ArrivalsTrackServer. |
| Session.ClientShowsServerColor | server.py:25-43 | Whenever the client has handled the first k commands the server sent, and no click came in between, its header shows the colour the server printed after the k-th. |
| Session.ClickDepartsFromServer | colors/src/main/java/com/jathusan/pebble/colors/MainActivity.java:75-87 | A click between two arrivals breaks that tracking: deselecting the first of two relative (1, 1, 1) commands shows 128 per channel while the server prints 129. |

## Left out

- Socket set-up, the `isInterrupted` loop condition and `onStop`'s interrupt
  and close are concurrency and I/O. The read loop is modelled as running
  until the stream ends. An interrupted thread, which closes the socket
  without posting `null`, is not modelled.
- The model assumes each read sees the next byte of the stream. The client
  builds a new buffered reader on every iteration, which in Java can drop bytes
  already read ahead. That buffering is an I/O artefact and is not modelled.
- A failed connection, such as an unknown host, throws before any byte is read.
  It posts the same single `null` as an empty stream, and is modelled as one.
- The `Handler` that carries posts between threads is modelled as handling them
  in the order they were posted.
- List rendering (`notifyDataSetChanged`, `RGBArrayAdapter.java`), the toast,
  keyboard and view visibility are user interface and are left out.
- The header text is left out. It is modelled as the colour it shows, or as the
  connection-error message.
- `RGBObject` is not part of this model. It is represented by the `Command`
  datatype. A freshly decoded command is taken to be unselected, since the user
  interface thread is what selects it.
- Session.HeaderAfterCommands: holds for the client thread's posts alone. A
  click handled between two posts changes the log, and the header no longer
  follows the fold of the commands (`Session.ClickDepartsFromServer`).
- Session.ClientShowsServerColor: the header follows the server only while the
  user does not click. After a click it departs from the server until the next
  absolute command (`Session.AbsoluteResynchronises`).
- CommandLog.Toggle: requires a position inside the log. The list view only
  reports clicks on rows that exist.
- Aggregator.ChannelStep: adds with unbounded integers, not 32-bit Java `int`.
  For decoded commands the sum cannot overflow: the running channel stays in
  [0, 255] (`Aggregator.ReplayWithin`) and a delta lies in [-32768, 32767],
  so every sum fits a Java `int` (`Aggregator.StepSumsFitInt`).
- Aggregator.CalculateCurrentValues: uses unbounded integers for the same
  reason.
- Session.ServerColor: the server's random choice between command kinds, its
  random values, `time.sleep` and its handling of a closed connection are left
  out. The server is modelled only by the commands it sends and the colour it
  prints. Python's `%` with a positive divisor is the Euclidean remainder.
