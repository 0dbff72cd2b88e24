# Webcam streamer: framing, hand-off slot and link state machines

This project models `main.py`, the peer-to-peer webcam streamer. A
`WebcamStreamer` runs three activities that share one `running` flag:

- an inbound link. It accepts one peer and reads length-prefixed messages
  from it, each a 4-byte big-endian length followed by that many payload
  bytes. Every decoded frame goes into a capacity-1 queue that drops the
  oldest frame.
- an outbound link. It connects to the other peer, retrying while the
  connection is refused. It then captures frames and sends each one framed
  the same way.
- the display loop. It shows the frame in the queue, if there is one, and
  polls the keyboard for `q`.

The Dafny modules follow that structure:

- `Wrappers`: `Option` and `Result`.
- `Framing`: the `>L` length field (`Pack32`/`Unpack32`) and the message
  encoder (`Encode`). `Parse` is the specification of the receiver: it
  splits a byte stream into its whole messages and the bytes left over.
  Lemmas prove the round trip, exact consumption, chunking independence and
  zero-length messages.
- `Decoder`: the class `StreamDecoder`. It holds the retained buffer `data`
  and the phase `NeedLength` or `NeedPayload(L)`. `Feed` appends one recv
  result and hands out the payloads it completes. It is proved against
  `Parse` of everything fed so far.
- `Handoff`: the class `Slot`, modelling `Queue(maxsize=1)` used with
  drop-oldest puts and non-blocking takes.
- `Streamer`: the class `WebcamStreamer` and the entry point.

The three threads are not modelled as concurrent code. Each one is a method
driven by a trace. A trace lists the results of that thread's own blocking
calls, in order: recv results, connect outcomes, capture-and-send
outcomes, or arrivals and key codes. `StopRequested` entries between those
results stand for another thread clearing `running`. Frames and payloads
are opaque byte sequences, because pickling is not modelled.

## Model

| member | source | states |
|---|---|---|
| Framing.Pack32 | main.py:143 | `struct.pack(">L", n)` gives 4 bytes, and unpacking them gives back n, for every n below 2^32 |
| Framing.Unpack32 | main.py:87 | the number read from a 4-byte length field is below 2^32 |
| Framing.Pack32Unpack32 | main.py:85-87 | every 4-byte length field is the packing of the number it holds, so packing and unpacking are inverse bijections |
| Framing.Encode | main.py:140-146 | encoding succeeds exactly when the payload is shorter than 2^32 bytes; the message is 4 bytes longer than the payload, its length field holds the payload length and the payload follows unchanged; longer payloads give `LengthOutOfRange` (struct.error) |
| Framing.EncodeAll | main.py:132-146 | the bytes written for a list of frames: nothing for no frames, at least 4 header bytes per frame, and the stream starts with the first frame's length field |
| Framing.EncodeAllSnoc | main.py:132-146 | sending one more frame appends exactly that frame's message to the bytes already written |
| Framing.Parse | main.py:79-94 | what the receiver keeps after taking off every whole message never holds a whole message, and is no longer than the input |
| Framing.ParseConsumesExactly | main.py:85-94 | each message taken off uses exactly its 4 length bytes and the L payload bytes they announce; the stream equals the messages re-encoded followed by the retained rest |
| Framing.ParseMessage | main.py:82-94 | decoding encode(p) followed by rest yields p first and then whatever rest yields; rest is retained as it is |
| Framing.ParseEncodeAll | main.py:82-94 | round trip: messages sent back to back and followed by any bytes are decoded in order, and the trailing bytes are handled as if alone |
| Framing.ParseEncodeAllExactly | main.py:82-94 | decoding the encodings of a list of payloads yields exactly that list and leaves nothing |
| Framing.ParseAppend | main.py:82-91 | chunking: the messages of s + t are those of s followed by those of s's leftover joined to t, so only the leftover needs to be kept between reads |
| Framing.ZeroLengthMessage | main.py:90-94 | a length field of 0 is legal: it yields the empty payload and decoding continues right after the 4 bytes |
| Decoder.StreamDecoder.constructor | main.py:76-77 | an empty buffer waiting for a length field, consistent with an empty stream |
| Decoder.StreamDecoder.Feed | main.py:79-94 | appending a chunk keeps the decoder valid; it returns exactly the whole messages of the retained bytes followed by the chunk, and the total handed out stays equal to the messages of everything fed |
| Decoder.CanStep | main.py:82-91 | the inner loop conditions: when the length loop may not proceed, no whole message is buffered; while waiting for a payload of L bytes, a step is possible exactly when the length field and the buffer hold a whole message |
| Decoder.LengthStep | main.py:85-87 | taking the length field off the buffer loses no information about the unconsumed bytes |
| Decoder.PayloadStep | main.py:93-94 | taking a complete payload off hands out exactly that payload and keeps the bytes after it |
| Decoder.Blocked | main.py:82-91 | when neither inner loop may proceed, the unconsumed bytes hold no whole message |
| Decoder.DecodeChunks | main.py:76-94 | feeding any split of a stream into chunks yields the messages of the whole stream; for the encodings of p1..pn it yields exactly p1..pn |
| Handoff.Slot.constructor | main.py:27 | the queue starts empty |
| Handoff.Slot.Full | main.py:100 | reports whether a frame is held |
| Handoff.Slot.Put | main.py:100-102 | after a drop-oldest put, the slot holds exactly the new frame; a held frame is discarded and the put never blocks |
| Handoff.Slot.TryTake | main.py:159-160 | an empty slot yields nothing and stays empty; a full one yields its frame and becomes empty |
| Handoff.DropOldest | main.py:100-102 | Put(a); Put(b) with no take between: the next take returns b, never a, and the slot is then empty |
| Handoff.Held | main.py:27 | the slot's contents, as a sequence, never hold more than one frame |
| Handoff.SubsequenceExtend | main.py:100-102 | offering one more frame keeps the shown-frames order a subsequence, whether the new frame is shown or not |
| Handoff.SubsequenceDropLast | main.py:100-102 | discarding the held frame keeps what was shown a subsequence of what was offered |
| Streamer.CheckPorts | main.py:186-188 | a configuration is accepted exactly when the two ports differ; equal ports are rejected with `PortsEqual` |
| Streamer.Release | main.py:42-48 | after cleanup nothing is open; a handle that was never created or was already released is left as it was, so cleanup is idempotent |
| Streamer.WebcamStreamer.constructor | main.py:13-27 | a streamer whose camera opened starts not running, with no socket, an empty queue and both links idle |
| Streamer.WebcamStreamer.Start | main.py:50-52 | start sets `running`, which is the only place it becomes true |
| Streamer.WebcamStreamer.Cleanup | main.py:40-48 | releases exactly the open camera, the created sockets and the window |
| Streamer.WebcamStreamer.SignalHandler | main.py:33-38 | on SIGINT or SIGTERM, `running` is false and every handle is released as cleanup releases it: open ones are closed, and ones never created stay absent |
| Streamer.WebcamStreamer.ReceiveFrames | main.py:65-111 | the frames put into the queue are a prefix of the messages in the bytes received, and all of them while no stop was seen; after a stop, every frame decoded before the stop is put, and at most one more; the queue ends holding the last frame put; the link closes only on a lost connection or after a stop followed by exactly one more put, and an early end closes it too; it reads nothing past the first lost connection, and the put after a stop completes the message of the last recv it made, so it reads nothing past that one either; after a stop, as long as no extra frame was put, no further message has been decoded, so the first message completed after a stop is always put; if not running at the start, nothing is read |
| Streamer.WebcamStreamer.ReceiveMessages | main.py:79-110 | the outer loop ends only when the connection is lost, when exactly one frame was put after a stop, or when the trace runs out, and ends at that event: no lost connection comes before the last event read, and the put after a stop completes a message of that last recv; after a stop, a message is decoded only if it is put |
| Streamer.WebcamStreamer.ReceiveEvent | main.py:79-109 | one recv result or one stop preserves the receive invariant, and the queue holds the newest frame put |
| Streamer.ReceiveStop | main.py:79 | a stop clears the flag and records how many frames had been decoded at that point |
| Streamer.ReceiveLost | main.py:104-109 | a reset or error ends the loop with what has been put so far |
| Streamer.ReceiveChunk | main.py:82-102 | a chunk extends the stream, and its frames are all put while running, or only the first after a stop |
| Streamer.ReceiveStopEnds | main.py:79-94 | after a stop the link keeps reading, and nothing new is decoded until the recv that completes the one last message |
| Streamer.ReceiveLostEnds | main.py:104-109 | a lost connection is the last event the link reads |
| Streamer.ReceiveChunkEnds | main.py:82-102 | after a stop, the recv whose bytes complete a message is the last event the link reads |
| Streamer.ReceiveOutcome | main.py:79-111 | when the loop ends, the frames put are the messages decoded before the trace's first stop plus at most one more; a loop that ended early ended on a lost connection or on the one put after a stop, and that was the last event it read; after a stop, a message is decoded only if it is put |
| Streamer.WebcamStreamer.PutFrames | main.py:79-102 | the frames completed by one recv are put in order, each after dropping the held one; `running` is checked after each put, so once it is false only one frame is put |
| Streamer.WebcamStreamer.Connect | main.py:113-130 | refusals keep the link `Connecting` while running; the loop leaves attempts unused only after a success or an error, never after a refusal; any other error clears `running` and closes the link without streaming; `Streaming` holds exactly when a success followed refusals only; a stop at the loop head closes it |
| Streamer.WebcamStreamer.StreamFrames | main.py:132-153 | the bytes written are exactly the framing of the frames reported sent, which are the first captures of the trace, all delivered; a capture failure, a failed pack or a failed send ends the loop after at most one more capture; the link keeps streaming only while running and not failed |
| Streamer.WebcamStreamer.StreamEvent | main.py:133-153 | one capture-and-send cycle, or one stop, preserves the streaming invariant and appends to the wire exactly the framing of the frame sent |
| Streamer.StreamHalt | main.py:135-137 | a stop, a failed capture or a failed send adds nothing to the frames sent |
| Streamer.Delivers | main.py:134-146 | a capture cycle delivers only a captured frame whose send succeeded, and such a frame is delivered exactly when its length field can be packed |
| Streamer.StreamSent | main.py:140-146 | a delivered capture joins the frames sent, in trace order |
| Streamer.WebcamStreamer.SendFrames | main.py:113-153 | the connect phase as in Connect, and a connect loop that ended without a success leaves the link `Closed` and `running` false, or still `Connecting`; frames are sent only after a success that followed refusals only, and then they are the first captures of the trace, all delivered, ending at the first capture that is not; the wire carries exactly their framing, which decodes back to them; `running` is never set by the sender |
| Streamer.WebcamStreamer.DisplayFrames | main.py:155-172 | the loop runs until the first stop or `q` key, and a loop that stopped ended on that event; the frames shown and the slot are exactly those of the reference display `Replay`, so the frames shown are a subsequence of the frames offered (the held one, then those put), none invented, repeated or reordered; if not running on entry, it reads nothing and shows nothing; while running the camera and sockets are untouched, and once it has stopped each of them is released by cleanup |
| Streamer.WebcamStreamer.DisplayEvent | main.py:157-166 | one exact step: a put leaves the slot holding the new frame and shows nothing; a key poll shows the held frame, if any, opening the window for it, and empties the slot; a stop changes neither; `running` stays true exactly when the event is neither a stop nor the quit key |
| Streamer.ReplayInOrder | main.py:157-160 | the reference display never invents, repeats or reorders a frame: what it showed, then what it still holds, is a subsequence of the frames offered |
| Streamer.DisplayStep | main.py:155-166 | one event consumed while running moves the display as the reference step does, and halts on a stop or the quit key |
| Streamer.DisplayOutcome | main.py:155-172 | when the loop ends, the frames shown are a subsequence of the frames offered |
| Streamer.IsQuitKey | main.py:164 | the quit test on the low byte of the key code: the -1 of "no key" never quits, and a plain key code quits exactly when it is `q` |
| Streamer.Launch | main.py:177-196 | equal ports are refused with `PortsEqual` before anything is constructed; a camera that does not open makes construction fail with `CameraUnavailable`; otherwise a fresh running streamer with the given configuration and no socket yet |
| Streamer.BackToBack | main.py:82-102 | two messages arriving in one chunk before the display takes anything: the take yields the second frame, and the slot is then empty |
| Streamer.TwoMessages | main.py:82-94 | the bytes of two messages sent back to back decode to exactly those two payloads |

## Left out

- Pickling (`pickle.dumps`/`pickle.loads`) is not modelled. A frame is its payload bytes, and an unpickling error counts as a lost connection.
- OpenCV is not modelled: capture, `imshow`, `waitKey` and `destroyAllWindows` are trace entries or handle flags. Exceptions raised by the display are not modelled.
- Socket calls are not modelled: `setsockopt`, `bind`, `listen` and `accept` always succeed. Only the results of recv, connect and sendall appear in the traces.
- A `sendall` that fails may already have written part of the message. The model adds nothing to the wire on a failed send.
- An empty recv result (end of stream) makes the source's inner loops read forever. The model treats an empty chunk as one such turn: it changes nothing and the link keeps waiting. It does not claim that the link ever notices end of stream.
- Threads, signal delivery and the interleaving of the three activities are reduced to per-thread traces. A stop happens only between two blocking calls, so a stop that lands between two puts of the same recv result is not modelled separately.
- `time.sleep` pacing and retry backoff, log messages, `sys.exit` and `__del__` are not modelled. The command-line parsing is not modelled beyond the resulting `Config` and its defaults.
- Streamer.WebcamStreamer.ReceiveFrames: a stop that lands between a put and the next check of `running` (main.py:79) makes the source close the connection without another put. In the trace model a stop always lands during a recv, so the model always puts one more frame after a stop before closing and cannot produce that outcome.
- Handoff.Slot.Put: the source's put is a `full()` test followed by `get_nowait()` and `put()` (main.py:100-102), which is not atomic. The display's `get_nowait()` (main.py:159-160) can empty the queue in between; the receiver's `get_nowait()` then raises `queue.Empty`, which main.py:107-109 catches, ending the inbound link. The model's put is atomic and never fails.
- Streamer.WebcamStreamer.DisplayEvent: the display's `empty()` test and its `get_nowait()` (main.py:159-160) are not atomic either. The receiver's drop of the held frame (main.py:101) can empty the queue in between; `get_nowait()` then raises `queue.Empty`, which main.py:168-170 catches, ending the display loop with `running` still true, after which cleanup runs. The model's take is atomic and never fails.
- The `mpmserver` TypeScript files (Express routes, Prisma user registration) are not part of this model.
