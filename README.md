# redis-health: the health verdict, in Dafny

This project models how the redis-health probe decides whether a Redis
server is healthy (`redis.go`). There are two parts.

- **Parsing the `INFO` reply** (`parseKeyValue`). The text is cut into
  lines at `"\r\n"`. Lines that start with `#` (section headers) are
  skipped. Every other line that `strings.Split` cuts at `:` into exactly
  two pieces writes `key -> value` into a map, so a later line overwrites
  an earlier one with the same key.
- **The verdict** (`CheckHealth`). The checks run in a fixed order:
  1. a failed ping;
  2. a failed `INFO` fetch;
  3. `loading` equal to `"1"`;
  4. `master_sync_in_progress` equal to `"1"`;
  5. `master_link_status` present with a value other than `"up"`.

  The first check that trips decides the verdict. If none trips, the
  server is healthy.

Files:

- `gostrings.dfy`
  - module `Wrappers`: an Option type.
  - module `GoStrings`: the functions of Go's `strings` package that the
    parser calls (`HasPrefix`, and `Split` with a non-empty separator),
    and `Index`, on which `Split` is built. Also `Join`, which undoes
    `Split`.
  - Proved about `Split`: `Join` undoes it, no piece contains the
    separator, a one-character separator gives one more piece than it has
    occurrences, and, for separators that cannot overlap themselves
    (`":"` and `"\r\n"`), `Split` is the only such cut.
- `infoparser.dfy`, module `InfoParser`
  - `ParseKeyValue`: the loop of `parseKeyValue`, as a method.
  - `ParseLines` / `Parse`: the function it is proved against.
  - `LastWriteWins`: a description of the result that does not mention
    the loop. It says the keys are those of the kept lines, and each key
    holds the value of the last kept line that sets it. `Parse` meets it,
    and it fixes the map uniquely.
- `health.dfy`, module `RedisHealth`
  - `Policy`: the checks on the parsed map.
  - `HealthVerdict`: the whole decision, as a function of the ping reply
    and the `INFO` reply.
  - `CheckHealth`: the early-return code of `CheckHealth` in redis.go, as a method. It calls
    `ParseKeyValue` and is proved equal to `HealthVerdict`.

The two client calls are inputs:

- `PingReply` is either `Pong` or `PingError(cause)`.
- `InfoReply` is either `InfoText(raw)` or `InfoError(cause)`.

The verdict is the datatype `Verdict`, with these constructors:
`Healthy`, `PingFailed`, `InfoFailed`, `Loading`, `Syncing`, `LinkDown`.

Go strings are byte strings; here they are `seq<char>`. Every separator
the parser uses (`"\r\n"`, `":"`, `"#"`) is ASCII, so cutting bytes and
cutting characters give the same pieces.

The parser splits each line at EVERY `:`, not only at the first one. A
line with two or more colons is therefore dropped, not cut at its first
colon. The model follows the code here (`ColonCountNeutral`, `EntryKept`).

## Model

| member | source | states |
|---|---|---|
| GoStrings.HasPrefix | redis.go:81 | Go's `strings.HasPrefix`: the text starts with the prefix; what it means for a line is stated by `InfoParser.EntryKept` and `InfoParser.HeaderLineNeutral` |
| GoStrings.IndexFrom | redis.go:79 | the leftmost occurrence of the separator at or after a position: it occurs there, nowhere between the position and there, and `None` means it occurs nowhere at or after the position |
| GoStrings.Index | redis.go:79 | Go's `strings.Index`: the leftmost occurrence of the separator, and `None` exactly when the text does not contain it |
| GoStrings.Split | redis.go:79 | `strings.Split` with a non-empty separator always gives at least one piece; that `""` gives `[""]` is `GoStrings.SplitWithoutSeparator` |
| GoStrings.SplitWithoutSeparator | redis.go:79 | text that does not contain the separator, `""` among it, splits into the one piece that is the text itself |
| GoStrings.SplitJoin | redis.go:79 | joining the pieces of a split with the separator gives back the text, and no piece contains the separator |
| GoStrings.SplitCharCount | redis.go:85-86 | splitting at a one-character separator gives exactly one more piece than the text has occurrences of it |
| GoStrings.SplitUnique | redis.go:85 | for a separator that cannot overlap itself, `Split` is the only way to cut the text into separator-free pieces that join back to it |
| GoStrings.SplitAround | redis.go:79 | for a separator that cannot overlap itself (such as `"\r\n"`), splitting `a + sep + b` gives the pieces of `a` followed by the pieces of `b` |
| InfoParser.Entry | redis.go:81-90 | what one line contributes: nothing for a header or a line that does not split into two pieces at `:`, otherwise the pair; its meaning is stated by `InfoParser.EntryKept`, `InfoParser.EntryShape` and `InfoParser.EntryOf` |
| InfoParser.Apply | redis.go:90 | one step of the loop: a kept line writes its key, overwriting the old value; what this does to one key is `InfoParser.ApplyKey` |
| InfoParser.ParseLines | redis.go:80-91 | the loop as a fold over the lines, first to last; it meets the last-write-wins description (`InfoParser.ParseLinesLastWriteWins`) and is the only map that does (`InfoParser.LastWriteWinsUnique`) |
| InfoParser.Lines | redis.go:79 | the lines are the pieces of `strings.Split(str, "\r\n")`; they join back to the reply (`GoStrings.SplitJoin`) |
| InfoParser.Parse | redis.go:76-94 | the map `parseKeyValue` returns; the loop computes it (`InfoParser.ParseKeyValue`) |
| InfoParser.ParseKeyValue | redis.go:76-94 | the loop over the lines returns `Parse(str)`, and the result meets the last-write-wins description |
| InfoParser.EntryKept | redis.go:81-88 | a line is kept if and only if it does not start with `#` and contains exactly one `:` |
| InfoParser.EntryShape | redis.go:85-90 | a kept line is exactly key, `:`, value; neither part contains `:`, and nothing is trimmed |
| InfoParser.EntryOf | redis.go:81-90 | conversely, `k:v` with no `:` in `k` or `v`, and with `k` not starting with `#`, is kept as the pair (k, v) |
| InfoParser.ParseLinesAppend | redis.go:80-91 | parsing two runs of lines gives the union of their maps, with the later run winning on shared keys |
| InfoParser.DroppedLineNeutral | redis.go:80-91 | removing a line that is not kept, anywhere in the input, leaves the result unchanged |
| InfoParser.HeaderLineNeutral | redis.go:81-83 | a line starting with `#` never adds an entry, even one with exactly one `:` |
| InfoParser.ColonCountNeutral | redis.go:85-88 | a line with zero colons, or two or more, never adds an entry |
| InfoParser.ParseLinesHasKeys | redis.go:85-90 | the key of every kept line is in the result |
| InfoParser.ApplyKey | redis.go:90 | a line that sets `k` writes its value; any other line leaves whether `k` is present, and its value, unchanged |
| InfoParser.LastSetter | redis.go:80-91 | for each key of the result, the index of a kept line that sets it to its value, with no later line setting it |
| InfoParser.ParseLinesLastValue | redis.go:90 | every key of the result holds the value of a kept line that sets it, and no later line sets it (last write wins) |
| InfoParser.ParseLinesLastWriteWins | redis.go:80-91 | the parsed map meets the last-write-wins description |
| InfoParser.LastWriteWinsUnique | redis.go:80-91 | any map meeting the last-write-wins description equals the parsed map |
| InfoParser.ParsedKeyOrigin | redis.go:79-90 | each key of the parsed reply is the text before the only `:` of one of its lines, and its value is the text after it |
| InfoParser.EmptyReply | redis.go:77-79 | the empty reply parses to the empty map |
| InfoParser.NothingKept | redis.go:77-93 | a reply whose lines are all headers or do not have exactly one `:` parses to the empty map |
| InfoParser.ParseAround | redis.go:79-91 | the text on either side of a `"\r\n"` is parsed independently, and the right side wins on shared keys |
| InfoParser.ParseOneLine | redis.go:79-91 | text that does not contain `"\r\n"` is a single line, and is parsed as that line alone |
| InfoParser.LastLineWins | redis.go:90 | a final kept line overrides whatever the reply said about its key before |
| InfoParser.LastLineOverrides | redis.go:90 | a final line `k:v` (no `:` in `k` or `v`, `k` not starting with `#`, no `"\r\n"` in either) turns the earlier map `m` into `m[k := v]` |
| InfoParser.ParseSingle | redis.go:85-90 | one line `k:v` (no `:` in `k` or `v`, `k` not starting with `#`, no `"\r\n"` in either) parses to `map[k := v]` |
| InfoParser.TrailingLineBreak | redis.go:79-88 | a trailing `"\r\n"` adds only an empty line, which changes nothing |
| InfoParser.NoTrimming | redis.go:85-90 | `key : value` gives the key `"key "` and the value `" value"` |
| RedisHealth.IsLoading | redis.go:57 | `loading` is present and `"1"`; `RedisHealth.LoadingFirst` says it decides the verdict |
| RedisHealth.IsSyncing | redis.go:62 | `master_sync_in_progress` is present and `"1"`; `RedisHealth.SyncingSecond` says when it decides the verdict |
| RedisHealth.IsLinkDown | redis.go:67 | `master_link_status` is present and not `"up"`; `RedisHealth.LinkDownThird` says when it decides the verdict |
| RedisHealth.Policy | redis.go:56-73 | the map checks never produce a connectivity verdict |
| RedisHealth.HealthVerdict | redis.go:37-74 | the whole decision on the two client replies; the method `RedisHealth.CheckHealth` returns it, and `RedisHealth.PingFailureDecides`, `RedisHealth.InfoFailureDecides` and `RedisHealth.ConnectivityVerdicts` state its connectivity cases |
| RedisHealth.CheckHealth | redis.go:37-74 | the early-return code, built on `ParseKeyValue`, returns `HealthVerdict`; it returns nil exactly when the ping succeeded, the fetch succeeded and the map checks pass |
| RedisHealth.PingFailureDecides | redis.go:41-44 | a failed ping gives the ping error, whatever the `INFO` reply is |
| RedisHealth.InfoFailureDecides | redis.go:47-51 | after a good ping, a failed fetch gives the info error, and no map check is made |
| RedisHealth.ConnectivityVerdicts | redis.go:41-51 | the ping error occurs if and only if the ping failed; the info error occurs if and only if the ping succeeded and the fetch failed |
| RedisHealth.LoadingFirst | redis.go:57-59 | the loading error occurs if and only if `loading` is `"1"`, whatever the other fields are |
| RedisHealth.SyncingSecond | redis.go:62-64 | the syncing error occurs if and only if `loading` is not `"1"` and `master_sync_in_progress` is `"1"` |
| RedisHealth.LinkDownThird | redis.go:67-69 | the link error occurs if and only if the two earlier checks pass and `master_link_status` is present and not `"up"` |
| RedisHealth.HealthyOtherwise | redis.go:67-73 | healthy if and only if no check trips; an absent `master_link_status` passes |
| RedisHealth.TrailingLoadingLine | redis.go:57-59 | a reply ending in `"\r\nloading:1"` gives the loading error, whatever came before |
| RedisHealth.NothingKeptIsHealthy | redis.go:54-73 | a reply with no kept line is healthy |
| RedisHealth.HeaderAndTwoFields | redis.go:76-94 | a header that adds nothing, then two lines `k1:v1` and `k2:v2` (no `:` in the parts, no header key, no line break), each ended by `"\r\n"`, parse to `map[k1 := v1][k2 := v2]` |
| RedisHealth.HealthyReplicaParse | redis.go:76-94 | `"# comment\r\nloading:0\r\nmaster_link_status:up\r\n"` parses to `{loading: "0", master_link_status: "up"}` |
| RedisHealth.HealthyReplica | redis.go:54-73 | that reply is healthy |
| RedisHealth.LoadingReplyParse | redis.go:76-94 | `"loading:1\r\n"` parses to `{loading: "1"}` |
| RedisHealth.LoadingReply | redis.go:57-59 | the reply `"loading:1\r\n"` gives the loading error |

## Left out

- main.go is not part of this model. It reads flags and environment
  variables, serves HTTP, and watches for a signal to shut down with a
  30-second deadline. All of that is I/O, concurrency and timing.
- The go-redis client is left out. `NewRedisHealthChecker`, `Ping`,
  `Info`, and the one-second dial, read and write timeouts
  (redis.go:19-34, 41, 47) are foreign network calls. Only their
  outcomes are modelled, as the inputs `PingReply` and `InfoReply`.
- Logging through `log.Logger` (redis.go:38, 42, 49, 71) is a side effect
  that does not affect the verdict.
- The error texts built with `pkg/errors` are not modelled. Each failure
  reason is a constructor of `Verdict`; the ping and fetch errors carry
  the client's cause as a string.
- The `health.Handler` aggregation (main.go:38-39) belongs to an external
  library.
- PingFailureDecides: `CheckHealth` never calls `Info` after a failed ping.
  The model cannot observe call order, because both replies are inputs.
  It states instead that the verdict does not depend on the `INFO`
  reply.
