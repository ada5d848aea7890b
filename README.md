# Command serialisation of the go-redis OpenTracing hook

This project models the part of the OpenTracing hook for go-redis that has its
own logic: how commands are turned into the text that is attached to tracing
spans.

- `appendCmd` appends one command to a byte buffer. Its arguments are written
  in order, separated by single spaces. Each argument's rendering is measured
  from its own start and cut to 64 bytes plus `"..."` when longer. A command
  error adds `": "` and the error message.
- `BeforeProcess` appends the command to a buffer made with
  `make([]byte, 32)`. That buffer has length 32, not capacity 32, so the
  `redis.cmd` tag starts with 32 zero bytes. The model keeps this as written.
- `BeforeProcessPipeline` serialises the commands at indices 0 to 100, one
  per line. At the same time it collects up to 10 distinct full names in
  first-seen order, using a `seen` set. It names the span `"pipeline "` plus
  those names joined by spaces, and tags it with the uncapped command count.

Layout:

- `bytes.dfy` (module `Bytes`): the byte type, `Join` (the separator join
  used by both loops and by `strings.Join`) and `Split`, with round-trip
  lemmas in both directions.
- `unique.dfy` (module `Unique`): `Dedup`, which gives distinct elements in
  first-occurrence order, with its properties.
- `hook.dfy` (module `Hook`): commands and spans, the specification functions
  `ArgSegment`, `CmdText`, `PipelineText` and `UniqueNames`, the three
  imperative operations proved against them, and lemmas stating what the tags
  contain.

Go strings and byte slices are both `Bytes` (`seq<byte>`). The external
`String` conversion is the identity. A command is its full name, its
arguments as already-rendered byte strings, and an optional error message.
A started span is returned as a record of its operation name and the tag
values the hook sets.

On the pipeline cap, the code's check `i > 100` processes indices 0 to 100,
which is 101 commands, not 100. The model keeps this boundary exactly.

## Model

| member | source | states |
|---|---|---|
| `Hook.ArgSegment` | hook.go:97-101 | An argument's segment is at most 64 + 3 bytes. It starts with the first min(len, 64) bytes of the rendering. A rendering of at most 64 bytes (exactly 64 included) is kept whole. A longer one becomes 64 bytes followed by `"..."`. Every byte of the segment comes from the rendering or is a `'.'`. |
| `Hook.ErrSuffix` | hook.go:104-107 | Defines what the command's error adds. Without an error it adds nothing, and an empty suffix means there was no error. With an error it adds exactly `": "` followed by the message. |
| `Hook.CmdText` | hook.go:89-110 | Defines the bytes `appendCmd` appends for a command: the argument segments joined by single spaces, then the error suffix. It begins with the first argument's segment. A space follows that segment when there is a second argument. It always ends with the error suffix. With no arguments it is just the error suffix. |
| `Hook.TruncateStep` | hook.go:97-101 | Re-slicing the buffer to `start + 64` and appending `"..."` leaves the bytes before `start` unchanged. The bytes from `start` on are then exactly the argument's segment. |
| `Hook.AppendArgStep` | hook.go:92-101 | One turn of the argument loop adds a space (except before the first argument) and then the argument's segment. This extends the joined segments by one. |
| `Hook.AppendCmd` | hook.go:89-110 | The result is the incoming buffer followed by the command's serialisation. So the buffer is an unchanged prefix, and what is appended depends only on the command. |
| `Hook.CmdTextErrorSuffix` | hook.go:104-107 | With an error, the serialisation is the error-free one followed by `": "` and the message. Without an error, it is just the joined segments. No arguments and no error gives an empty serialisation. |
| `Hook.CmdTextSpaceSeparated` | hook.go:92-101 | For a command with at least one argument, if no argument segment contains a space (bytes cut off after the 64th are not considered) and there is no error, splitting the serialisation at spaces gives back exactly one segment per argument, in order. So the separators are single spaces, with none before the first segment. |
| `Hook.CmdTextBound` | hook.go:90-101 | A command's serialisation is at most 68 bytes per argument plus its error suffix. |
| `Hook.Zeros` | hook.go:30 | `make([]byte, n)` is n bytes, all zero. |
| `Hook.BeforeProcess` | hook.go:28-38 | The span is named after the command's full name. `db.system` is `"redis"`. `redis.cmd` is 32 zero bytes followed by the command's serialisation. |
| `Hook.Processed` | hook.go:55-58 | The loop handles the first min(len(cmds), 101) commands, which are a prefix of the pipeline. |
| `Hook.PipelineText` | hook.go:53-63 | Defines the `redis.cmds` tag: the serialisations of the commands at indices 0 to 100, joined by `'\n'`. It is empty for an empty pipeline. It begins with the first command's serialisation, and a newline follows that when there is a second command. |
| `Hook.UniqueNames` | hook.go:65-73 | Defines `unqNames`: the first min(10, number of distinct names) distinct full names of the processed commands, in first-occurrence order. They are distinct and form a prefix of the deduplicated names. An empty pipeline has no names. |
| `Hook.PipelineSpanName` | hook.go:76 | Defines the pipeline span's name: `"pipeline "` and then the names joined by single spaces. With no names it is exactly `"pipeline "`. With at least one name, none of them containing a space, splitting what follows the prefix at spaces gives the names back. |
| `Hook.NameCollectStep` | hook.go:65-73 | One turn of the loop's name collection keeps `unqNames` equal to the first distinct names seen so far, distinct and at most 10, and keeps `seen` equal to the set of them. The turn is skipped at 10 names, and otherwise appends the name when `seen` lacks it. |
| `Hook.PipelineBufferStep` | hook.go:60-63 | One turn of the loop's serialisation: a newline unless it is the first command, then the command's serialisation. This extends the newline-joined serialisations by one. |
| `Hook.PipelineLoopExit` | hook.go:55-76 | When the loop stops, with indices 0 to 100 or all commands handled, its buffer is `redis.cmds` and its names are the span's names. `"pipeline "` plus those names joined by spaces is the span name. |
| `Hook.UniqueNamesStep` | hook.go:65-73 | One step of name collection. Once 10 names are held, nothing changes. Before that, a name not already held is appended, and a seen name is skipped. |
| `Hook.BeforeProcessPipeline` | hook.go:45-82 | `redis.cmds` is the processed commands' serialisations joined by `'\n'`. The span name is `"pipeline "` plus the unique names joined by spaces. `redis.num_cmd` is `len(cmds)`, not the capped count. An empty pipeline gives the name `"pipeline "` and an empty tag. The loop invariants keep `unqNames` distinct and at most 10 long, and keep `seen` equal to the set of `unqNames`. |
| `Hook.PipelineTextLines` | hook.go:53-63 | For a pipeline with at least one command, if no serialisation contains a newline, splitting `redis.cmds` at newlines gives exactly one line per processed command, min(len(cmds), 101) lines in all, each that command's serialisation. |
| `Hook.PipelineIgnoresTail` | hook.go:55-58 | Commands after index 100 change neither `redis.cmds` nor the span's names. |
| `Hook.UniqueNamesGrow` | hook.go:65-73 | Adding commands at the end of a pipeline never reorders or removes names already collected. It can only add names after them. |
| `Hook.UniqueNamesProperties` | hook.go:65-73 | Each of the span's names is the full name of a processed command, and they appear in first-occurrence order. While fewer than 10 are held, every processed command's name is among them. (That they are distinct, at most 10 and a prefix of the distinct names is in `Hook.UniqueNames`.) |
| `Hook.ExampleThreeArgs` | hook.go:92-101 | Three arguments of at most 64 bytes and no error serialise to the arguments with a single space between neighbours. |
| `Hook.ExampleGet` | hook.go:92-101 | `GET` and an argument of at most 64 bytes, with no error, serialise to `GET`, a space and the argument. |
| `Hook.ExampleSet` | hook.go:89-110 | Arguments `SET`, `key`, `value` with no error serialise to `SET key value`. |
| `Hook.ExampleUniqueNames` | hook.go:65-73 | For the pipeline `GET a`, `GET b`, the only collected name is `GET`. |
| `Hook.ExamplePipelineName` | hook.go:65-76 | For the pipeline `GET a`, `GET b`, the span is named `pipeline GET`. |
| `Hook.ExamplePipelineText` | hook.go:53-63 | For the pipeline `GET a`, `GET b`, `redis.cmds` is `GET a\nGET b`. |
| `Bytes.Join` | hook.go:76 | Go's `strings.Join`, which also gives the output of the separator loops at hook.go:60-62 and hook.go:93-95. No pieces give nothing. One piece gives that piece. With two or more, the result is longer than the first piece, and the byte right after the first piece is the separator. |
| `Bytes.JoinPrefix` | hook.go:76 | A join with at least one piece begins with the first piece. |
| `Bytes.JoinStep` | hook.go:93-101 | One turn of a separator-before-all-but-the-first loop: the separator unless no piece was written yet, then the new piece. This turns the buffer's join into the join of the longer list. |
| `Bytes.JoinSnoc` | hook.go:60-63 | Appending a separator and then a new piece to a joined buffer gives the join of the longer list. With no earlier pieces, no separator is written. |
| `Bytes.SplitJoin` | hook.go:76 | Splitting a join of separator-free pieces gives back the pieces. |
| `Bytes.JoinSplit` | hook.go:76 | Joining the pieces of a split gives back the original bytes. |
| `Bytes.Split` | hook.go:76 | A split always has at least one piece. |
| `Bytes.JoinBound` | hook.go:92-101 | Pieces of at most m bytes join to at most m + 1 bytes per piece. |
| `Unique.Dedup` | hook.go:69-73 | The deduplicated sequence has no repeats and holds exactly the elements of its input. |
| `Unique.DedupSnoc` | hook.go:69-73 | A new element is appended exactly when it is not already held. |
| `Unique.DedupExtends` | hook.go:65-73 | Later elements never reorder or remove names already collected. Deduplicating a prefix gives a prefix. |
| `Unique.DedupFirstSeenOrder` | hook.go:69-73 | Deduplicated elements come in the order of their first occurrence in the input. |
| `Unique.Take` | hook.go:65-67 | Taking n elements gives a prefix of length at most n. A sequence already that short is kept whole. A longer one gives exactly its first n elements. |
| `Unique.FirstIndex` | hook.go:70 | Gives the position of an element's first occurrence. |

## Left out

- Tracer calls: `StartSpanFromContextWithTracer`, `SetTag` and the
  `context.Context` values are left out. They are external tracing calls with
  no local logic. Each Before hook returns its span's name and tags as a
  record, and its always-nil error is omitted.
- `AfterProcess` and `AfterProcessPipeline` are left out. They only call
  `Finish` on the span from the context and return nil.
- `NewHook` and `NewHookWithTracer` are left out. They only look up the
  global tracer or wrap a given one. The hook's `Tracker` field is therefore
  not modelled.
- `AppendArg` and `String` are helpers defined in another file of the
  package and are not modelled. An argument is given as its finished
  rendering, added to the buffer by concatenation. `String` is the identity.
- Only `FullName`, `Args` and `Err` of the `redis.Cmder` interface are
  modelled. `Err` becomes an optional message.
- Go slice capacity and aliasing are not modelled. The buffers are immutable
  values, so the capacity hint of `make([]byte, 0, 32*len(cmds))` and the
  in-place overwrite that `append(b[:start+lenLimit], ...)` does in the
  backing array do not appear. Neither changes the bytes produced.
- The `seen` map of type `map[string]struct{}` is a set of names, since only
  its keys are used.
- Hook.CmdTextSpaceSeparated: the round trip needs at least one argument and
  argument segments without spaces, meaning the first 64 bytes of each
  rendering. With a space inside a segment, the separators cannot be told
  apart from the argument's own bytes. With no arguments the serialisation is
  empty, and splitting it gives one empty piece, not zero.
- Hook.PipelineTextLines: the round trip likewise needs at least one command
  and serialisations without newlines. An empty pipeline's empty tag splits
  into one empty line.
- Hook.PipelineSpanName: the split round trip needs at least one name and
  names without spaces. A name holding a space splits into several pieces,
  and with no names the empty text after the prefix splits into one empty
  piece.
