# Attachment chooser, uptime line and Shazam reply — a Dafny model

This project models the three pieces of logic in a Discord bot's audio and
utility commands that do more than call other services:

- **`selectAttachment`** (`src/reuseables/selectAttachment.ts`): given the
  attachments of a message, it returns `null` for none and the attachment
  itself for one. For several it shows a chooser with one button per
  attachment, in rows of at most five, and returns a promise. The promise
  settles once: on the first press by the invoking user (that attachment),
  on an idle stop (`"idle"`), or on any other stop (`null`). The promise's
  `resolve` is one-shot, and the model keeps that: `Session.Resolve` only
  acts on a pending status. The later `resolve(null)` calls in `onStop`
  therefore have no effect. The collector is a class (`Session`) with a
  status, a listening flag and the log of message edits. Presses and stops
  arrive as a sequence of `Event`s, and `SelectAttachment` runs that
  sequence. `Decide` is an independent reference: the first decisive event
  settles the outcome. The event loop is proved to agree with it.
- **`getFormattedUptime`** (`src/commands/utils/ping.ts`): whole seconds of
  uptime are split into 30-day months, days, hours, minutes and seconds.
  Zero units are dropped, and the rest are rendered as `{value}{unit}` and
  joined with single spaces. Months and minutes share the suffix `m`.
- **Shazam reply** (`src/commands/audio/shazam.ts`, inside
  `ShazamCommand.run`): the embed colour taken from `joecolor`, the six
  metadata fields and their `"Unknown"` filter, the Explicit mark, the cover
  fallback, the Apple Music URL, and the link buttons chosen in
  configuration order and chunked into rows of five. The recognised track,
  the link resolver's answer code and the song's links by platform are
  input records.

The row chunking loop appears in both `selectAttachment.ts` and
`shazam.ts`, and is modelled once in module `Rows`. Decimal rendering of
numbers (`${i}`) is in module `Decimal`, with its parser. `Array.join` and
its inverse split are in module `Text`.

The outcomes of `selectAttachment` are exactly the values the code produces:
- A single attachment and a chosen attachment are both returned as the
  attachment value itself.
- An idle timeout settles the promise to the string `"idle"`.
- A stop for any reason other than idle, with no earlier press, settles the
  promise to `null`.
- The idle timer belongs to the framework, so the model does not cancel a
  timer. A stopped collector delivers no more events.

## Model

| member | source | states |
|---|---|---|
| `SelectAttachment.SelectAttachment` | src/reuseables/selectAttachment.ts:11-85 | no attachment gives `null` and one gives that attachment, each with no chooser and no edit; for two or more the chooser rows are the chunked buttons, the outcome is the first decisive event's (`SelectAttachment.Decide`, the reference definition), and the edits are exactly the one matching the outcome |
| `SelectAttachment.BuildButtons` | src/reuseables/selectAttachment.ts:17-24 | the loop yields the chooser's buttons, button i for attachment i |
| `SelectAttachment.ButtonsWellFormed` | src/reuseables/selectAttachment.ts:19-24 | exactly n buttons; button i is labelled "{i+1}. {filename}", and its custom id parses back to i; the custom ids are pairwise distinct |
| `SelectAttachment.CustomIdRoundTrip` | src/reuseables/selectAttachment.ts:23 | the custom id "selectAttachment:{i}" parses back to i |
| `SelectAttachment.HandlerIndex` | src/reuseables/selectAttachment.ts:68-69 | a press reaches the first handler registered under its id, or none if no handler has that id |
| `SelectAttachment.HandlerOfButton` | src/reuseables/selectAttachment.ts:68-69 | a press on button i reaches the handler for attachment i |
| `SelectAttachment.DecideAppend` | src/reuseables/selectAttachment.ts:44-85 | once `Decide` has settled the outcome, later events do not change it |
| `SelectAttachment.FirstPressWins` | src/reuseables/selectAttachment.ts:69-72 | the invoker's first press on button i before any stop settles to attachment i, whatever follows |
| `SelectAttachment.IdleStopGivesIdle` | src/reuseables/selectAttachment.ts:47-62 | an idle stop with no earlier press settles to "idle", not `null`, even if a press comes later |
| `SelectAttachment.OthersIgnored` | src/reuseables/selectAttachment.ts:46 | dropping the presses of every other user leaves the outcome unchanged |
| `SelectAttachment.Session.constructor` | src/reuseables/selectAttachment.ts:44-69 | a new session is pending, listening, has no edits, and has one handler per attachment |
| `SelectAttachment.Session.Resolve` | src/reuseables/selectAttachment.ts:44 | only the first resolve settles the status; later calls change nothing |
| `SelectAttachment.Session.OnStop` | src/reuseables/selectAttachment.ts:47-63 | an idle stop adds the timeout edit and settles to "idle"; any other stop settles to `null` only if still pending |
| `SelectAttachment.Session.Stop` | src/reuseables/selectAttachment.ts:47-64 | a stop settles a pending session as `Decide` says and keeps the invariant (listening iff pending; edits match the outcome) |
| `SelectAttachment.Session.Press` | src/reuseables/selectAttachment.ts:68-83 | a press by the invoker on a registered button settles a pending session to its attachment and leaves exactly one edit; a press by anyone else changes nothing |
| `Rows.ChunkRows` | src/reuseables/selectAttachment.ts:26-32 | the `slice(i, i + 5)` loop yields `Chunks` of its input |
| `Rows.ChunksPartition` | src/reuseables/selectAttachment.ts:28-32 | rows concatenate back to the buttons in order; each row has 1 to 5 buttons and only the last may be shorter; there are ceil(n/5) rows |
| `Rows.ChunksUnique` | src/commands/audio/shazam.ts:120-124 | any grouping with those row shapes is the one the loop builds |
| `Decimal.Show` | src/reuseables/selectAttachment.ts:21 | a number renders as a non-empty string of digits, one digit exactly below 10, with no leading zero |
| `Decimal.ParseShow` | src/reuseables/selectAttachment.ts:23 | parsing a rendered number gives it back |
| `Decimal.ShowInjective` | src/reuseables/selectAttachment.ts:23 | different numbers render differently |
| `Text.SplitJoin` | src/commands/utils/ping.ts:70 | splitting `Text.Join` (the `join(' ')` step) of space-free parts at the separator gives the parts back |
| `Text.JoinEmpty` | src/commands/utils/ping.ts:70 | a join of non-empty parts is empty exactly when there are no parts |
| `Ping.TimeUnits` | src/commands/utils/ping.ts:59-65 | five units with suffixes m, d, h, m, s; days < 30, hours < 24, minutes < 60, seconds < 60; months·2592000 + days·86400 + hours·3600 + minutes·60 + seconds = s |
| `Ping.DecompositionUnique` | src/commands/utils/ping.ts:60-64 | any values within those bounds that add up to s are the displayed ones |
| `Ping.Positive` | src/commands/utils/ping.ts:68 | keeps exactly the non-zero units, and only units from its input |
| `Ping.PositiveAppend` | src/commands/utils/ping.ts:68 | the filter keeps order and multiplicity: it distributes over concatenation |
| `Ping.PositiveOfFive` | src/commands/utils/ping.ts:67-68 | on five units the filter keeps each non-zero unit once, in its original position order |
| `Ping.RenderedWords` | src/commands/utils/ping.ts:69 | `Ping.Render` (the `map` step) renders each unit as "{value}{unit}", non-empty and without spaces |
| `Ping.PositiveEmpty` | src/commands/utils/ping.ts:68 | nothing survives the filter exactly when every unit is zero |
| `Ping.AllZeroAtZero` | src/commands/utils/ping.ts:60-64 | every unit is zero exactly when the uptime is under one second |
| `Ping.UptimeWords` | src/commands/utils/ping.ts:67-70 | the joined line is empty exactly when the uptime is under one second; otherwise splitting it at spaces gives back the rendered non-zero units |
| `Ping.FormatUptime` | src/commands/utils/ping.ts:56-71 | the line is empty exactly when the uptime is under one second; otherwise its space-separated words are "{value}{unit}" for each non-zero unit, in month, day, hour, minute, second order, each once |
| `Ping.MonthAndMinuteCollide` | src/commands/utils/ping.ts:60-63 | 2592000 s and 60 s both display as "1m", so the line is not injective |
| `Shazam.FirstMatch` | src/commands/audio/shazam.ts:59 | finds the leftmost `b:` followed by six hex digits, or reports that there is none |
| `Shazam.Colour` | src/commands/audio/shazam.ts:56-63 | with a match, the colour is "#" plus the six digits after the leftmost match; otherwise it is the configured default |
| `Shazam.ColourShape` | src/commands/audio/shazam.ts:59-61 | a matched colour is "#" followed by six hex digits |
| `Shazam.ColourIgnoresSuffix` | src/commands/audio/shazam.ts:59 | text after a match does not change the colour |
| `Shazam.FindMeta` | src/commands/audio/shazam.ts:66 | finds the first metadata item with the wanted title, or none when no item has it |
| `Shazam.ExplicitMark` | src/commands/audio/shazam.ts:71 | undefined gives ❔, true gives ✅, false gives ❌ (each both ways), and the mark is never "Unknown" |
| `Shazam.Fields` | src/commands/audio/shazam.ts:65-72 | fails exactly when the track has no sections; otherwise six inline fields named Album, Released, Genre, Label, ISRC and Explicit, in that order |
| `Shazam.FieldShown` | src/commands/audio/shazam.ts:66-73 | each of the first five fields is shown exactly when its source value is present, non-empty and not "Unknown", and then shows that value; the source value is `Shazam.FieldSource`, which reads the first section's metadata with `Shazam.MetaText`, and `Shazam.OrUnknown` supplies the fallback |
| `Shazam.FilterKnown` | src/commands/audio/shazam.ts:73 | keeps exactly the fields whose value is not "Unknown" |
| `Shazam.FilterKnownAppend` | src/commands/audio/shazam.ts:73 | the filter keeps the original order (it distributes over concatenation) |
| `Shazam.ExplicitAlwaysShown` | src/commands/audio/shazam.ts:65-73 | 1 to 6 fields are shown, and the Explicit field is always the last one shown |
| `Shazam.Cover` | src/commands/audio/shazam.ts:83 | the cover is `coverarthq` when that is truthy and `coverart` otherwise |
| `Shazam.FindOpenIn` | src/commands/audio/shazam.ts:90 | finds the first option captioned "OPEN IN", or none |
| `Shazam.AppleUrl` | src/commands/audio/shazam.ts:90 | no "OPEN IN" option gives no URL; a URL comes from the first "OPEN IN" option and is its first qualifying action's uri; no URL means every action of that option has a non-Apple uri; a failure means the search of that option reached an action without a uri before any qualifying one |
| `Shazam.FindAppleAction` | src/commands/audio/shazam.ts:90 | finds the first action whose uri contains music.apple.com and not /subscribe; absent if no action qualifies; fails at the first action without a uri that the search reaches |
| `Shazam.SelectLinksAppend` | src/commands/audio/shazam.ts:105-116 | buttons follow configuration order (selection distributes over concatenation) |
| `Shazam.SelectLinksExact` | src/commands/audio/shazam.ts:105-116 | `Shazam.SelectLinks` gives a button exactly for each configured platform that has a link, with its emoji and URL; one per platform exactly when all are present |
| `Shazam.LinkButtons` | src/commands/audio/shazam.ts:103-116 | the button loop yields `SelectLinks` of the configuration and the links |
| `Shazam.LinkRows` | src/commands/audio/shazam.ts:118-124 | the rows hold the link buttons in order, in ceil(n/5) well-shaped rows, and zero buttons give zero rows |
| `Shazam.ShapeTrack` | src/commands/audio/shazam.ts:55-129 | fails when the first section is missing, the images are missing, an action reached without a uri, or the resolver cannot resolve the song, and succeeds otherwise; on success it has the colour, the filtered fields and the cover; it has components exactly when an Apple URL was found, and those are the link buttons in well-shaped rows |

## Left out

- Downloading the attachment, the temporary file and its removal (src/commands/audio/shazam.ts:37-49) are I/O. The model starts from the recognised track.
- `node-shazam` recognition (src/commands/audio/shazam.ts:46-47) is a foreign library. Its result is the `Track` input, so the error thrown when there is no result at all (src/commands/audio/shazam.ts:50-52) is not modelled.
- The Odesli and song.link requests (src/commands/audio/shazam.ts:93-101) are network calls. The model takes their results as inputs: the resolver's `code` and the song's URL per platform key. The `id` and `provider` passed between the two requests are not modelled.
- The branch for a result without a `track` (src/commands/audio/shazam.ts:130-143) is not modelled. It builds an unfiltered two-field embed.
- The checks before recognition (src/commands/audio/shazam.ts:31-35) are left out. The error handler (src/commands/audio/shazam.ts:146-157) is left out too; it only renders an error embed. Faults are returned as `Fault` values.
- Embed titles, footers, button styles and the builder classes are not rendered. The chooser's message edits are kept only as title, description and component list. Configuration values (colours, timeout, the platform emoji table) are parameters.
- The emoji table is a sequence in file order. `Object.entries` lists integer-like keys first; platform keys are names, so this does not apply.
- The idle timer and the real delivery of interactions are framework behaviour. Presses and stops are an abstract event sequence, and an idle expiry is a stop with reason "idle". Whether other users' presses reset the idle timer is not modelled.
- `Session.Press`: the reason that `collector.stop()` passes to `onStop` comes from the framework. The model uses a fixed reason other than "idle", and that is all the source depends on.
- The `console.log` of the chosen attachment (src/reuseables/selectAttachment.ts:70) is logging output and is not modelled.
- `Shazam.ShapeTrack`: the reads of `genres` (src/commands/audio/shazam.ts:68), `hub` (src/commands/audio/shazam.ts:71 and :90), `hub.options` and the found option's `actions` (src/commands/audio/shazam.ts:90) and `linksByPlatform` (src/commands/audio/shazam.ts:106) are taken as always present. The `TypeError` each would raise on a missing value is not modelled; only the four `Fault`s are.
- Failures of message edits are not modelled. Neither are concurrent sessions for the same message.
- `src/commands/audio/waveform.ts`, `src/commands/audio/spectogram.ts` and `src/index.ts` are ffmpeg calls, file handling and client start-up.
- The other ping fields (src/commands/utils/ping.ts:19-38) are gateway latency, load average and memory. They are OS calls and floating-point values.
- `Ping.FormatUptime` takes whole seconds, ⌊`process.uptime()`⌋. For non-negative x, `Math.floor(x / k)` and `Math.floor(x % k)` agree with the same operations on ⌊x⌋, so nothing is lost.
