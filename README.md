# Multiplayer car game client: receive-side model

This project models the core of the game client `client/client.py`. It covers
four parts:

- The `Client` object's fields and the receive loop. The loop appends each chunk
  read from the session socket to a buffer, splits off every newline-terminated
  record in stream order, and applies each decoded record to the client's local
  mirror of the game: its own id, the last player snapshot, and a skin index and
  a heading for every player id seen.
- The input record sent once per frame.
- The step of the main loop that turns held arrow keys into a movement delta and
  a heading.
- The pure functions that specify the above, with the lemmas that relate them.

The files:

- `wire.dfy` (`Wire`): bytes and newline framing. `Lines` and `Tail` give the
  records and the leftover bytes of a stream. `Frame` is their inverse.
- `mirror.dfy` (`Mirror`): the decoded messages (`Msg`) and the mirror (`View`).
  `Dispatch` is the effect of one message as a pure function, and the mirror's
  invariant is `Wf`.
- `input.dfy` (`Input`): the bytes of the `{"dx": …, "dy": …}` record as
  `json.dumps` writes them with its default separators. It also has a reader of
  that exact form, used as the record's inverse.
- `controls.dfy` (`Controls`): the key-to-delta step as a pure function.
- `client.dfy` (`Session`): `class Client` holds the source's fields. Its
  methods do the buffering loop and the handling of welcome and state records,
  and each is proved against the functions above.

JSON decoding is a library call. It appears as a parameter
`decode: seq<byte> -> Msg`, so every result holds for any decoder.

`Msg.Malformed` stands for any record whose handling raises before it is
applied: bytes that are not valid UTF-8 (`line.decode()` at
`client/client.py:110` raises `UnicodeDecodeError`), text that `json.loads`
rejects, JSON that is not an object (`msg["type"]` at line 112 raises
`TypeError`), or an object that lacks a key the handler indexes. The source catches only connection errors at
`client/client.py:125`. So such a record raises out of the receive loop and ends
the reader thread, while `running` stays true. The field `reading` records
whether the receive loop is still running.

Three behaviours of the code are worth stating outright, since a reader might
expect otherwise:

- A second `welcome` is not ignored. It overwrites the id and gives that id the
  skin numbered by the ids seen so far (`client/client.py:112-115`;
  `Mirror.RepeatedWelcomeReassignsSkin`).
- A record that does not decode is not skipped. `json.loads` or a missing key
  raises at `client/client.py:110-119`, the handler at line 125 does not catch
  it, and the receive loop ends at that record; no later record is handled
  (`Session.Client.OnData`, `Session.Client.Drain`).
- `if client.id:` at line 171 treats id 0 like no id at all, so a client assigned
  id 0 never moves (`Controls.IdZeroNeverMoves`).

## Model

| member | source | states |
|---|---|---|
| Wire.Lines | client/client.py:108-109 | the records of a stream: no record holds a newline, and there are no more records than bytes |
| Wire.Tail | client/client.py:108-109 | the bytes kept in the buffer: a suffix of the stream with no newline |
| Wire.IndexOf | client/client.py:108-109 | the split point is a newline and no earlier byte is one |
| Wire.SplitIsLossless | client/client.py:107-109 | the split records, each re-terminated, followed by the kept tail, are exactly the stream; no record and not the tail holds a newline |
| Wire.SplitOfFramed | client/client.py:107-109 | newline-free records, terminated, then any bytes, split back into exactly those records in order, then the split of the rest |
| Wire.SplitOfUnterminated | client/client.py:108 | a buffer with no newline yields no record and is kept whole |
| Wire.ChunkingIsIrrelevant | client/client.py:97-109 | splitting a stream chunk by chunk, keeping the tail between chunks, yields the same records and tail as splitting it all at once |
| Mirror.Admit | client/client.py:119-122 | an id already seen leaves the mirror as it is; an unseen id gets skin `len(skins) % 4` and heading 0 and every seen id keeps its skin; id and player list untouched |
| Mirror.AdmitAll | client/client.py:118-122 | admitting a snapshot's entries in list order leaves the id and player list alone and only adds skins |
| Mirror.Dispatch | client/client.py:112-123 | the id becomes a welcome's id and is otherwise unchanged; the player list becomes a snapshot's list and is otherwise unchanged; no skin key is dropped |
| Mirror.DispatchAll | client/client.py:108-123 | messages handled in stream order: without a welcome the id is unchanged, without a snapshot the player list is unchanged, and skin keys only grow |
| Mirror.WelcomeEffect | client/client.py:112-115 | a welcome sets the id, gives that id skin `len(skins) % 4` and heading 0, adds only that key, and leaves every other id's skin and heading and the player list as they were |
| Mirror.RepeatedWelcomeReassignsSkin | client/client.py:112-115 | a second welcome for the same id is not ignored: id 7 moves from skin 0 to skin 2 |
| Mirror.AdmitAllKeys | client/client.py:117-122 | a snapshot adds exactly its ids to the skins and exactly its ids not seen before to the headings; the id and player list are untouched |
| Mirror.AdmitAllKeepsSeen | client/client.py:118-122 | ids already seen keep their skin and heading |
| Mirror.AdmitAllNewHeading | client/client.py:120-122 | every id a snapshot introduces gets heading 0 |
| Mirror.AdmitFreshInOrder | client/client.py:118-122 | distinct unseen ids get consecutive skins (mod 4) in list order, counting from the number of ids already seen, and the skin map grows by one per id |
| Mirror.AdmitFreshStep | client/client.py:118-122 | the last entry of a snapshot of fresh ids gets the next skin after those before it |
| Mirror.AdmitAllKeepsWf | client/client.py:117-122 | admitting a snapshot keeps every skin in [0, 4) and the skin and heading maps on the same ids |
| Mirror.DispatchKeepsWf | client/client.py:112-123 | every message keeps the mirror's invariant: skins in [0, 4) (four car images), skins and headings on the same ids, the own id has a skin |
| Mirror.DispatchOnlyAdds | client/client.py:112-123 | message handling never removes an id from skins or headings, and changes no skin but that of a welcomed id |
| Mirror.DispatchAllKeepsWf | client/client.py:108-123 | any sequence of messages keeps the invariant and only adds ids |
| Mirror.DispatchAllAppend | client/client.py:108-123 | the mirror depends only on the order of messages, not on how they were grouped |
| Mirror.OtherChangesNothing | client/client.py:112-123 | a record of any other type, or one that does not decode, leaves the mirror unchanged |
| Input.Digits | client/client.py:136 | the decimal digits of a natural number: at least one, all digits, with a leading zero only for 0 |
| Input.DecimalText | client/client.py:136 | an integer as JSON writes it: non-empty, starting with a minus sign exactly when negative, and free of newline, comma and closing brace |
| Input.InputBody | client/client.py:136 | the JSON body starts with the `{"dx": ` key, ends with `}`, and holds no newline |
| Input.InputRecord | client/client.py:136 | the input record ends in a newline and holds no other |
| Input.InputIsOneRecord | client/client.py:136 | framing the input record yields exactly one record, its JSON body, and nothing left over |
| Input.InputRoundTrip | client/client.py:136 | reading the body back yields exactly the deltas it was written from |
| Input.DecimalRoundTrip | client/client.py:136 | the decimal text of any integer reads back as that integer |
| Input.DigitsRoundTrip | client/client.py:136 | the digits of a natural number read back as that number |
| Controls.Steer | client/client.py:171-183 | with no truthy id nothing moves; otherwise right beats left, down beats up, each by 5, and the heading is that of the last held key in the order left, right, up, down |
| Controls.IdZeroNeverMoves | client/client.py:171 | a client whose id is 0 never moves or turns |
| Controls.SteerIsOneStep | client/client.py:165-183 | each delta is -5, 0 or 5, and a heading is set exactly when the id is truthy and some arrow key is held |
| Session.SplitStep | client/client.py:108-109 | splitting off the first record moves it and its terminator from the buffer to the records without changing the stream they make up |
| Session.ChunkStep | client/client.py:107-123 | handling the first records of one more chunk after all those of the stream so far is handling the same first records of the longer stream; all of the chunk's records give all of the longer stream's |
| Session.Client.constructor | client/client.py:82-89 | a new client is running, has no id, no players and empty skin and heading maps |
| Session.Client.Connect | client/client.py:91-97 | the receive loop starts with an empty buffer and leaves the mirror unchanged |
| Session.Client.Handle | client/client.py:112-123 | applying one message to the fields is exactly `Dispatch` on the mirror; the buffer and flags are untouched |
| Session.Client.OnError | client/client.py:125-132 | a connection error inside the receive loop stops the client and the loop; with no receive loop left nothing changes; the mirror is kept either way |
| Session.Client.OnData | client/client.py:98-123 | a stopped client or a dead receive loop processes nothing; an empty read stops the client; otherwise the records split off, re-terminated, followed by the new buffer are the old buffer plus the data, they are the stream's first records, the mirror is their messages dispatched in order, and reading goes on exactly when all of them decode: then every complete record was taken and the buffer is the stream's tail, else the last record taken is the first that does not decode |
| Session.Client.Drain | client/client.py:108-123 | the inner loop: the same split, dispatch and stop at the first record that does not decode, for the buffer as it stands |
| Session.Client.Receive | client/client.py:96-132 | over successive reads the mirror is always the handled records dispatched in order, and these are the stream's first records: while reading goes on, and after the server closes the connection, they are all its complete records whatever the chunk boundaries and the buffer is its tail; after a record that does not decode, they end at that record. The loop stops where the source does: no read before the last one was empty, the client stops running exactly when the last read was empty, a record that does not decode and ends the loop came from the last chunk read, and chunks are left unread only once reading has ended |
| Session.Client.ReceiveChunk | client/client.py:98-123 | one pass of the receive loop keeps the stream-wide account: what held for the stream read so far holds for that stream extended by the chunk; the client stops running exactly on an empty chunk, which also ends reading; a record that does not decode and ends reading lies past every complete record of the stream read before the chunk |
| Session.Client.HandleKeys | client/client.py:165-185 | the held keys set the own heading as `Steer` says, nothing else in the mirror changes, and the record sent is the input record of `Steer`'s deltas |

## Left out

- `discover_rooms` (UDP broadcast, wall-clock timeout) is not modelled. It is network I/O and timing.
- Sockets, `connect`'s daemon thread, `recv`, `sendall` and `close` are not modelled. Received bytes are the chunk arguments of `OnData`/`Receive`; the sent record is `HandleKeys`'s result. The `try`/`except` around `sendall` swallows all errors and changes no state.
- Concurrency is not modelled. The reader thread and the main loop share `players`, `id` and the maps without locks; the model runs them one at a time.
- JSON decoding is not modelled. `json.loads` is the `decode` parameter. `Input.ParseInput` reads only the client's own record format and is not a general JSON reader.
- A malformed record is one `Malformed` message. A `state` record whose players list breaks part way through (a player without `"id"`) would, in the source, admit the entries before the bad one and then end the reader. The model treats the whole record as malformed and applies none of it.
- Player records keep only `id`, `x` and `y`. Skins are indices into the four car images, not the images themselves.
- pygame is not modelled: asset loading, the road, sprite rotation and blitting, the event loop, `clock.tick` and the lane arithmetic. These are rendering.
- The window-close handling and the final `client.running = False` after the main loop are not modelled. They are UI and end the program.
- `Session.Client.Connect` models a single call. Calling `connect` twice would start two reader threads on one client.
- The server (`run_server`) is not part of this model.
- `Session.Client.Receive` stops when its chunk sequence runs out. A finite sequence of reads stands for the source's unbounded loop.
