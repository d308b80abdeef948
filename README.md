# MusicService of DiscordMusicBot, modelled in Dafny

DiscordMusicBot plays audio from a URL into a Discord voice channel. Its core
is `MusicService`. The service keeps two dictionaries keyed by guild id. One
maps each guild to the audio client it joined with. The other maps each guild
to the cancellation source of its current playback. A new `play` on a guild
cancels the playback that is running and starts a new one: the new track
preempts the old. `stop` cancels the running playback. Each playback is a
background task. The task pipes yt-dlp into ffmpeg and reads signed 16-bit
little-endian stereo PCM at 48 kHz. It cuts the stream into 3840-byte blocks
(960 samples × 2 channels × 2 bytes). Each block becomes 1920 16-bit samples
and goes to an Opus encoder. Every non-empty packet is written to the voice
stream.

The project has four files:

- `pcm.dfy` (module `Pcm`): the frame geometry constants, and the
  reinterpretation of a block of s16le bytes as 16-bit samples, with both
  round trips proved.
- `framing.dfy` (module `Framing`): the read/slice/encode/write loop of
  `InternalPlayAsync`. It is a method over a 3840-byte `buffer` and a
  4000-byte `outBuffer`. It is proved against specification functions
  (`LeadingFull`, `Frames`, `Written`), and lemmas about those functions give
  the frame count, the frame bounds and the partial-block policy.
  - The byte stream is a sequence of read results, each at most 3840 bytes;
    reading past the end gives 0 bytes.
  - The encoder is a function parameter, bounded by the 4000-byte scratch
    buffer. Opus keeps state between calls, so the encoder sees the whole
    history of blocks fed so far.
  - Cancellation is `CancelledAfter(n)`: n writes go through and the next
    `WriteAsync` throws, which ends the loop through the catch at the end of
    the method.
- `sessions.dfy` (module `Sessions`): the service state as a value
  (`Registry`), with one step function per operation (`JoinStep`, `PlayStep`,
  `StopStep`). It has the invariant `Inv`. Its lemmas state preemption, stop,
  idempotence, isolation between guilds, and "at most one live playback per
  guild".
  - Cancellation sources are numbered handles with a set of cancelled ones.
  - The tasks started by `PlayAsync` are recorded in `launched`.
- `music_service.dfy` (module `Service`): the class `MusicService`. Its
  fields are the two maps, the cancelled set and the handle counter, plus a
  ghost record of started tasks. `JoinChannel`, `Play` and `Stop` update them
  in place. Their contracts tie the new state to the step functions, keep the
  invariant, and say what happens to the caller's guild and that every other
  guild is untouched.

The step functions `Sessions.JoinStep`, `Sessions.PlayStep` and
`Sessions.StopStep` have no rows of their own in the table below: the rows of
`Service.MusicService.JoinChannel`, `Play` and `Stop` cover them, since each
method ensures `State() == XStep(old(State()), ...)`, and the `Sessions`
lemmas state their properties.

A playback task started with handle `h` sees its token cancelled exactly when
`h` is in the service's cancelled set. In `StreamFrames`, that moment is the
`Cancellation` argument.

## Model

| member | source | states |
|---|---|---|
| `Pcm.DecodeIsTwosComplement` | DiscordMusicBot/Services/MusicService.cs:134-135 | a byte pair read as a sample gives the 16-bit value congruent to lo + 256·hi modulo 2^16, which is negative exactly when the high byte's sign bit is set (s16le, as ffmpeg is asked for at line 101) |
| `Pcm.SampleAt` | DiscordMusicBot/Services/MusicService.cs:134-135 | sample i of a block is built from bytes 2i (low) and 2i+1 (high) |
| `Pcm.BytesToSamples` | DiscordMusicBot/Services/MusicService.cs:134-135 | an even byte string gives half as many samples |
| `Pcm.BytesRoundTrip` | DiscordMusicBot/Services/MusicService.cs:134-135 | the block copy loses nothing: writing the samples back as s16le gives the bytes that were read |
| `Pcm.SamplesRoundTrip` | DiscordMusicBot/Services/MusicService.cs:134-135 | every sample sequence is the reading of the s16le bytes that store it; together with `Pcm.BytesRoundTrip` this makes the reinterpretation a bijection, so each sample sequence comes from exactly one byte string |
| `Framing.LeadingFull` | DiscordMusicBot/Services/MusicService.cs:129-132 | the number of blocks the loop encodes: all reads before it are full 3840-byte blocks, and the read at that index (if any) is short or empty |
| `Framing.LeadingFullUnique` | DiscordMusicBot/Services/MusicService.cs:129-132 | the loop stops exactly at the first read shorter than a block |
| `Framing.PacketAt` | DiscordMusicBot/Services/MusicService.cs:137 | the i-th encode call sees blocks 0..i in read order, the current one last |
| `Framing.NonEmptyMembers` | DiscordMusicBot/Services/MusicService.cs:138-141 | only packets the encoder produced, and only non-empty ones, are written |
| `Framing.NonEmptyConcat` | DiscordMusicBot/Services/MusicService.cs:138-141 | dropping empty packets keeps order and distributes over concatenation |
| `Framing.TrailingReadsIgnored` | DiscordMusicBot/Services/MusicService.cs:129-132 | once a short read has happened, nothing read after it changes what is written |
| `Framing.WrittenFramesBounded` | DiscordMusicBot/Services/MusicService.cs:124-141 | every frame written is non-empty and at most 4000 bytes, the size of the scratch buffer |
| `Framing.OneFramePerFullBlock` | DiscordMusicBot/Services/MusicService.cs:129-141 | with an encoder that always yields a packet and no cancellation, one frame is written per full block before the first short read |
| `Framing.FrameCountIsFloor` | DiscordMusicBot/Services/MusicService.cs:122-141 | when all reads but the last are full blocks, the frames written number floor(total bytes / 3840): the partial block is dropped, not padded |
| `Framing.CancelledWrites` | DiscordMusicBot/Services/MusicService.cs:140-146 | a write refused after cancellation leaves exactly the first n frames in the sink |
| `Framing.LeadingFullOfConcat` | DiscordMusicBot/Services/MusicService.cs:129-132 | reads that come after the first short read do not move the point where the loop stops |
| `Framing.EndsAtShortRead` | DiscordMusicBot/Services/MusicService.cs:129-132 | when the loop meets a short or empty read without having been cancelled, the sink already holds everything the stream would ever get written |
| `Framing.NextBlock` | DiscordMusicBot/Services/MusicService.cs:134-141 | taking in one more full block appends its samples to the encoder's history and its packet, when non-empty, to the frames |
| `Framing.ReadInto` | DiscordMusicBot/Services/MusicService.cs:129 | a read returns at most 3840 bytes, the number it returns is the length of that read, and those bytes land at the front of the block buffer (a full read fills it) |
| `Framing.CopyToFront` | DiscordMusicBot/Services/MusicService.cs:129 | a read or an encode fills the front of its buffer and leaves the rest as it was |
| `Framing.StreamFrames` | DiscordMusicBot/Services/MusicService.cs:119-147 | the loop writes exactly `Written(chunks, encode, cancel)`; it ends as cancelled if and only if the token was cancelled before all frames were written, and at end of stream if and only if the first short read returned 0 bytes; uncancelled, the encoder is called once per full block before the first short read |
| `Framing.ShortReadEndsStream` | DiscordMusicBot/Services/MusicService.cs:129-132 | as written: a whole block that arrives as two short reads before end of stream produces no frame, although the stream holds floor(3840/3840) = 1 block |
| `Framing.FilledFrameCount` | DiscordMusicBot/Services/MusicService.cs:122-132 | corrected: when blocks are filled before encoding, the frames written number floor(bytes before end of stream / 3840), however the reads split the bytes |
| `Framing.FilledAgreesOnWholeBlocks` | DiscordMusicBot/Services/MusicService.cs:129-132 | the corrected framing writes the same frames as the loop as written when every read is a whole block |
| `Sessions.InitialInv` | DiscordMusicBot/Services/MusicService.cs:14-15 | the empty dictionaries satisfy the service invariant |
| `Sessions.JoinKeepsInv` | DiscordMusicBot/Services/MusicService.cs:22-37 | joining keeps the invariant |
| `Sessions.PlayKeepsInv` | DiscordMusicBot/Services/MusicService.cs:39-64 | playing keeps the invariant: stored handles are uncancelled and distinct, each task has its own handle, and a task with an uncancelled handle is its guild's current playback |
| `Sessions.StopKeepsInv` | DiscordMusicBot/Services/MusicService.cs:66-75 | stopping keeps the invariant |
| `Sessions.AtMostOneLive` | DiscordMusicBot/Services/MusicService.cs:44-51 | in any reachable state, a guild has at most one playback task whose token is not cancelled, and its handle is the one stored for the guild |
| `Sessions.PlayWithoutClient` | DiscordMusicBot/Services/MusicService.cs:41-42 | playing on a guild with no client changes nothing; its running playback is neither cancelled nor replaced |
| `Sessions.PlayPreempts` | DiscordMusicBot/Services/MusicService.cs:44-63 | playing on a connected guild cancels its previous handle, stores a handle that no earlier task or cancellation used, leaves it uncancelled, starts one task on the guild's client with that handle, and makes that task the guild's only live one |
| `Sessions.StopCancels` | DiscordMusicBot/Services/MusicService.cs:66-75 | stopping cancels and removes the guild's handle, after which no task of the guild is live; without a handle it changes nothing |
| `Sessions.StopIdempotent` | DiscordMusicBot/Services/MusicService.cs:66-75 | stopping twice is stopping once |
| `Sessions.JoinIsolated` | DiscordMusicBot/Services/MusicService.cs:31 | joining changes no other guild's client, handle, handle status or live tasks |
| `Sessions.PlayIsolated` | DiscordMusicBot/Services/MusicService.cs:41-51 | playing changes no other guild's client, handle, handle status or live tasks |
| `Sessions.StopIsolated` | DiscordMusicBot/Services/MusicService.cs:68-72 | stopping changes no other guild's client, handle, handle status or live tasks |
| `Service.MusicService.constructor` | DiscordMusicBot/Services/MusicService.cs:14-20 | a new service has no clients, no handles and satisfies the invariant |
| `Service.MusicService.JoinChannel` | DiscordMusicBot/Services/MusicService.cs:22-37 | a null channel or a connect that throws leaves the object unchanged; otherwise the guild's client becomes the new one, replacing any earlier one; playback state and other guilds are untouched |
| `Service.MusicService.Play` | DiscordMusicBot/Services/MusicService.cs:39-64 | without a client nothing changes; otherwise the previous handle is cancelled, the stored handle is freshly created and uncancelled, the clients are untouched, and no other guild is affected |
| `Service.MusicService.Stop` | DiscordMusicBot/Services/MusicService.cs:66-75 | the guild has no handle afterwards; the one it had is cancelled; without one nothing changes; no other guild is affected |
| `Service.StopTwice` | DiscordMusicBot/Services/MusicService.cs:66-75 | two stops in a row leave the service as one stop does |

## Findings

| source | as written | input that shows it | evidently intended | confidence | as-written member | corrected member |
|---|---|---|---|---|---|---|
| DiscordMusicBot/Services/MusicService.cs:129-132 | any read shorter than 3840 bytes is taken as the end of the track. `Stream.Read` on ffmpeg's stdout pipe may return fewer bytes than asked before the end of the stream. | the pipe delivers a block as two reads of 1920 bytes and then returns 0: the stream holds one whole block, but no frame is written and playback ends | keep reading into the buffer until 3840 bytes have arrived or a read returns 0, so that every whole block before end of stream is encoded | medium, not executed | `Framing.ShortReadEndsStream` | `Framing.FilledFrameCount` |

The method `Framing.StreamFrames` models the loop as written. The corrected
framing is `Framing.FilledFrames`, and it agrees with the loop whenever reads
return whole blocks (`Framing.FilledAgreesOnWholeBlocks`).

## What the service does not do

There is no track queue, and no pause, resume, skip, queue listing or status
message. `play` preempts the running track and `stop` only cancels it
(MusicService.cs:39-75). Nothing is flushed after the loop
(MusicService.cs:126-142).

## Left out

- The yt-dlp → ffmpeg subprocess pipeline and the stream copy between them (MusicService.cs:81-117): external processes. The PCM they deliver is the sequence of read results given to `StreamFrames`. A read that throws ends the loop like a read of 0 bytes, except for the outcome reported; that case is not modelled separately.
- The Opus encoder itself and its bitrate setting (MusicService.cs:119-120, 137): a foreign codec. It is a function parameter whose only assumed property is the 4000-byte bound.
- The Discord voice API: `ConnectAsync` is the `connect` parameter of `JoinChannel`. The audio client is an opaque value. `CreateOpusStream`, `WriteAsync` and stream disposal are the sink sequence.
- Host byte order: `Buffer.BlockCopy` copies in the machine's byte order. The model takes a little-endian host, which matches the s16le that ffmpeg produces.
- Concurrency: `Task.Run` (MusicService.cs:53-63) runs playback in the background, and the dictionaries are not synchronised. Each service call is one atomic step. A started task is recorded in `launched` and runs separately as `StreamFrames`, with its token's cancellation as an input.
- The token passed to `Task.Run` itself (MusicService.cs:63): a task cancelled before it starts never runs. The model treats that like a cancellation before the first write.
- `KeepAliveSilenceAsync` (MusicService.cs:150-175): it uses the wall clock, delays and the codec. Its cancellation source (line 29) is never stored, so nothing can cancel it.
- Console logging and the catch-all handlers. The model keeps their effect only: state unchanged after a failed connect, and the loop ends after a refused write.
- Framing.StreamFrames: when cancelled, the number of encoder calls is only bounded by the number of full blocks, not given exactly. It is one more than the index of the block whose packet was refused.
- `Bot.cs`, `Program.cs` and `CommandHandler.cs`: host start-up, token loading and command routing. `MusicModule.cs` holds thin command wrappers that reply with fixed strings. None of them is part of this model.
