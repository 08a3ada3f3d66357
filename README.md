# YouBike station info: selection and Slack reply

A model of the two route handlers of a small Next.js service that shows live
YouBike bicycle-share availability for two stations in New Taipei.

- `GET /api/youbike` (module `Stations`, `stations.dfy`) keeps the upstream
  records whose raw station name `sna` is a key of a fixed two-entry table and
  rewrites each kept record as `{sna: friendly name, bikesAvailable: sbi,
  parkingAvailable: bemp, lastUpdated: mday}`, in input order.
- `POST /api/slack/youbike` (module `SlackYoubike`, `slack_reply.dfy`) turns
  that station list into a Slack reply: an ephemeral "not found" text when the
  list is empty, otherwise an `in_channel` message with three blocks per
  station (a section with name, counts and a shared image accessory, a context
  block with the formatted update time, a divider). Its `formatTimestamp`
  renders `YYYYMMDDHHMMSS` as `YYYY-MM-DD HH:MM:SS`.

Both handlers are pure apart from their HTTP calls, so the model is datatypes,
functions and lemmas. The decoded upstream list, the station list and the
image URL are parameters. The lookup table is a `map<string, string>`; the
selection functions take any table, and `SelectTargets` applies them to the
handler's own table.

`formatTimestamp` is modelled on every string, not only 14-character ones:
`JsSubstring` follows JavaScript's `substring`, which clamps both bounds to the
string's length.

The table is keyed on the raw display name `sna`. The counts are used as
delivered, with no name normalisation or number parsing. Each station gets its
own context block with its own update time.

## Model

| member | source | states |
|---|---|---|
| `Stations.TargetStations` | src/app/api/youbike/route.ts:17-20 | no contract: the constant's value is the model, the two raw names mapped to their friendly names |
| `Stations.IsTarget` | src/app/api/youbike/route.ts:23-25 | no contract: the body is the model, the filter's test that the raw name is one of the table's keys |
| `Stations.FilterTargets` | src/app/api/youbike/route.ts:22-25 | the filter never lengthens the list, and every record it keeps has a raw name that is a table key |
| `Stations.FilterMembership` | src/app/api/youbike/route.ts:22-25 | a record is in the filtered list if and only if it is in the input and its raw name is a table key |
| `Stations.ToStation` | src/app/api/youbike/route.ts:26-31 | a rewritten record's name is one of the table's friendly names |
| `Stations.MapToStations` | src/app/api/youbike/route.ts:26-31 | the map step keeps the length, and every output name is a table value |
| `Stations.Select` | src/app/api/youbike/route.ts:22-31 | output is no longer than input, and every output name is a table value |
| `Stations.SelectTargets` | src/app/api/youbike/route.ts:17-31 | with the handler's table, every output name is "泰博科技" or "捷運新北產業園區", and output is no longer than input |
| `Stations.TargetValues` | src/app/api/youbike/route.ts:17-20 | the table's values are exactly the two friendly names, and no two raw names share a friendly name |
| `Stations.KeptIndices` | src/app/api/youbike/route.ts:22-25 | reference selection: strictly increasing positions of records whose raw name is a key, including every such position |
| `Stations.FilterLength` | src/app/api/youbike/route.ts:22-25 | on every suffix, the filter keeps one record per kept position |
| `Stations.FilterAtIndex` | src/app/api/youbike/route.ts:22-25 | on every suffix, the `j`-th filtered record is the record at the `j`-th kept position |
| `Stations.MapAt` | src/app/api/youbike/route.ts:26-31 | the map step rewrites record `j` into station `j` |
| `Stations.SelectAt` | src/app/api/youbike/route.ts:22-31 | on every suffix, the selection equals the kept records, rewritten one by one, in order |
| `Stations.SelectCharacterisation` | src/app/api/youbike/route.ts:17-31 | record `i` is kept if and only if its `sna` is a key; kept records keep their relative order; output `j` has `table[sna]` as its name and copies `sbi`, `bemp`, `mday` unchanged |
| `Stations.SelectEmpty` | src/app/api/youbike/route.ts:22-31 | empty input gives empty output |
| `Stations.SelectCounts` | src/app/api/youbike/route.ts:22-31 | no deduplication: a friendly name occurs once per input record whose raw name maps to it |
| `Stations.CountMappedInjective` | src/app/api/youbike/route.ts:17-20 | when a raw name is the only key with its friendly name, the records mapped to that name are exactly those with that raw name |
| `Stations.SelectTargetsCounts` | src/app/api/youbike/route.ts:17-31 | for each table key `k`, the number of outputs named `TargetStations[k]` is the number of inputs with `sna == k` |
| `SlackYoubike.JsSubstring` | src/app/api/slack/youbike/route.ts:55-60 | JavaScript `substring` for `0 <= start <= end`: its length is the distance between the clamped bounds, and for in-range bounds it is exactly the slice between them |
| `SlackYoubike.FormatTimestamp` | src/app/api/slack/youbike/route.ts:54-62 | output length is `min(len, 14) + 5`; for 14 characters, `-` at 4 and 7, a space at 10, `:` at 13 and 16 |
| `SlackYoubike.FormatTimestampComponents` | src/app/api/slack/youbike/route.ts:55-61 | the output's six components are `ts[0..4]`, `ts[4..6]`, `ts[6..8]`, `ts[8..10]`, `ts[10..12]`, `ts[12..14]` |
| `SlackYoubike.FormatTimestampIgnoresTail` | src/app/api/slack/youbike/route.ts:55-60 | characters after the fourteenth do not affect the output |
| `SlackYoubike.FormatTimestampExample` | src/app/api/slack/youbike/route.ts:54-62 | "20240115093045" formats as "2024-01-15 09:30:45" |
| `SlackYoubike.StripSeparators` | src/app/api/slack/youbike/route.ts:61 | removing the five separator positions from a 19-character string leaves 14 characters |
| `SlackYoubike.FormatThenStrip` | src/app/api/slack/youbike/route.ts:54-62 | round trip: stripping the separators from the formatted 14-character timestamp gives the timestamp back |
| `SlackYoubike.StripThenFormat` | src/app/api/slack/youbike/route.ts:54-62 | the other direction: formatting a stripped `YYYY-MM-DD HH:MM:SS` string gives it back, so formatting is a bijection |
| `SlackYoubike.NotFoundText` | src/app/api/slack/youbike/route.ts:17 | no contract: the constant's value is the model, the not-found text of the ephemeral reply |
| `SlackYoubike.StationBlocks` | src/app/api/slack/youbike/route.ts:23-46 | no contract: the body is the model, the `flatMap` callback's section, context and divider for one station; `BuildBlocksAt` states what they carry |
| `SlackYoubike.BuildBlocks` | src/app/api/slack/youbike/route.ts:23-46 | the flat-map gives exactly three blocks per station |
| `SlackYoubike.BuildBlocksAtIndex` | src/app/api/slack/youbike/route.ts:23-46 | the three blocks starting at position `3i` are the blocks of station `i` |
| `SlackYoubike.BuildBlocksAt` | src/app/api/slack/youbike/route.ts:23-46 | for every station `i`: block `3i` is its section with its name, bikes and parking counts and the image URL, block `3i+1` is the context with its formatted time, block `3i+2` is a divider; so station order is kept |
| `SlackYoubike.BuildBlocksImage` | src/app/api/slack/youbike/route.ts:21-34 | every section's accessory carries the one image URL computed before the flat-map |
| `SlackYoubike.MakeReply` | src/app/api/slack/youbike/route.ts:14-51 | the reply is ephemeral with the fixed not-found text if and only if the list is empty; otherwise it is `in_channel` with `3n` blocks laid out per station and one shared image URL |
| `SlackYoubike.ReplyFromUpstream` | src/app/api/slack/youbike/route.ts:11-19 | with selection and reply put together, the reply is "not found" exactly when no upstream record's raw name is a table key |

## Left out

- The HTTP fetches and `res.json()` decoding in both handlers: network I/O. The decoded list is a parameter.
- SlackYoubike.ReplyFromUpstream: assumes that the Slack handler's fetch of `/api/youbike` and its `response.json()` return exactly the list that `SelectTargets` produced; the JSON round trip between the two handlers is not modelled.
- An upstream body that is not an array of records, on which `data.filter` would throw, is outside the model: the decoded input is always a sequence of records.
- `NextResponse.json` serialisation and the request and response objects: framework calls with no logic of their own.
- `process.env.BASE_URL` and the image URL built from it: environment configuration. The URL is an opaque string parameter.
- The mrkdwn text of a section (emoji, bold markers, the Chinese labels), the image's `alt_text`, and the `更新時間：` prefix of the context text: presentation. Blocks carry their content fields only.
- Upstream `sbi` and `bemp` are JavaScript numbers; they are modelled as unbounded integers. Fractional or non-numeric values from the decoded JSON are not modelled.
- SlackYoubike.JsSubstring: only bounds with `0 <= start <= end` are modelled, because `formatTimestamp` only passes such constants; JavaScript's clamping of negative bounds and swapping of reversed ones is not modelled.
- JavaScript strings are UTF-16; the model's strings are sequences of Unicode characters. All literals here and the timestamp digits lie in the Basic Multilingual Plane, where the two agree.
