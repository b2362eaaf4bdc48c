# stress-opa core, modelled in Dafny

`stress-opa` is a small load generator for an Open Policy Agent server. It
builds a pool of synthetic policy inputs whose paths and users carry random
version-4 UUIDs. Ten workers post randomly picked inputs to the server. One
aggregator goroutine collects each response's client-measured total latency
and server-reported timings into histograms, and every ten seconds it prints
one row of throughput and latency percentiles under a fixed header.

The Dafny project models the deterministic core of `main.go`:

- `uuid.dfy` (module `Uuid`) covers `uuid4`. The sixteen random octets are a
  parameter. The version and variant bits are stamped into octets 6 and 8,
  and the result is printed as the lower-case 8-4-4-4-12 hexadecimal text. A
  parser is given as the text form's inverse, and the round trip and
  injectivity are proved both ways.
- `inputs.dfy` (module `Inputs`) covers `generateInputs` and `pickInput`.
  Every `crypto/rand` read and every `math/rand` index is a parameter: a list
  of sixteen-octet draws per pool and one index triple per input.
- `aggregator.dfy` (module `Aggregator`) covers the `select` loop as a state
  machine. A window holds the request count, the histograms and the time of
  the last tick. Histograms are the sequences of samples they received, in
  arrival order, because the percentile computation belongs to the metrics
  library.
  - A record feeds the total to `cli`, every server timing to the histogram
    of its own name, and the sum of the timings to `opa`.
  - A tick reports the window and starts a fresh one.
  - Go visits the timing map in an unspecified order. That order is an
    explicit parameter, and the result is proved not to depend on it.
  - The code feeds a server timing named `cli` or `opa` into that fixed
    histogram as a second sample. The model keeps this, and the count
    lemmas say exactly when it happens.
- `display.dfy` (module `Display`) covers `printHeader` and `printRow` as
  functions that build the printed text. It also covers the row a tick
  fills.
  - A field is the value left-aligned and padded with spaces to 14
    characters, then one space.
  - A separator is as many dashes as the key has UTF-8 bytes, which is what
    Go's `len` counts.
  - A key missing from the row is printed as `<nil>`, which is how Go's `%v`
    prints a nil interface value. So the output shows `<nil>` for it, not
    an empty cell.
- `wrappers.dfy` (module `Wrappers`) holds the `Option` type.

## Model

| member | source | states |
|---|---|---|
| Uuid.SetVariant | main.go:181 | the octet's two top bits become `10` (so it lies in 0x80..0xBF) and its six low bits are kept |
| Uuid.SetVersion | main.go:182 | the octet's high nibble becomes 4 and its low nibble is kept |
| Uuid.Stamp | main.go:181-182 | octet 6 carries version 4, octet 8 carries the RFC 4122 variant, the other fourteen octets are unchanged |
| Uuid.StampIdempotent | main.go:181-182 | stamping an already stamped identifier changes nothing |
| Uuid.StampFixesExactlyVersion4 | main.go:181-182 | stamping leaves a sixteen-octet value unchanged if and only if it already has version 4 and variant `10` |
| Uuid.Hex | main.go:183 | `%x` of a byte slice is two lower-case hexadecimal digits per octet, high nibble first, at positions 2i and 2i+1 |
| Uuid.Format | main.go:183 | the text is 36 characters with hyphens at 8, 13, 18 and 23 and hex digits elsewhere, and each octet's two digits sit at its group-adjusted position |
| Uuid.Uuid4 | main.go:175-184 | every identifier is well formed, shows version digit `4` at position 14 and one of `8`, `9`, `a`, `b` at position 19 |
| Uuid.Parse | main.go:183 | reading succeeds exactly on well-formed text, and the octets read print back as that same text |
| Uuid.ParseFormat | main.go:183 | reading the printed text of any sixteen octets gives those octets back |
| Uuid.FormatInjective | main.go:183 | two octet sequences print the same text if and only if they are equal |
| Uuid.Uuid4SameText | main.go:181-183 | two draws give the same identifier if and only if they agree after stamping |
| Uuid.Uuid4IgnoresVersionBits | main.go:182 | two different draws that differ only in a version bit of octet 6 give the same identifier |
| Inputs.PathPool | main.go:26-31 | one path per draw, each `["resources", id]` with a well-formed version-4 identifier |
| Inputs.UserPool | main.go:33-35 | one user per draw, each a well-formed version-4 identifier |
| Inputs.PoolIdentifiersParse | main.go:29-35 | every pool identifier reads back as the stamped draw it was printed from |
| Inputs.Draw | main.go:40-45 | the input a pick builds takes its method, path and user from the respective pools |
| Inputs.GenerateInputs | main.go:23-49 | `n` inputs, input i being exactly what pick i selects from pools of 10000 paths and 1000 users; every method is one of the five, every path a resource path, every user a well-formed identifier |
| Inputs.PickInput | main.go:19-21 | a draw yields an element of the pool, and yields nothing exactly when the pool is empty |
| Inputs.PickInputReachesAll | main.go:19-21 | every element of the pool is returned by some index |
| Aggregator.Samples | main.go:155 | a histogram name never used reads as no samples, a used one as exactly the samples it received, as `m.Histogram` creating on first use gives |
| Aggregator.Update | main.go:155 | updating a histogram appends the sample to that name's samples, registers the name and leaves every other name's samples alone |
| Aggregator.SumOver | main.go:156-159 | the loop's `ns` is its running total: nothing before the first label, then each step adds the value of the label visited last |
| Aggregator.UpdateLabels | main.go:157-160 | the loop over the timings appends each timing to its own name's histogram, once, and adds all of them to the running sum |
| Aggregator.Record | main.go:154-162 | a record raises the count by one, appends the total to `cli` before any timing named `cli`, and the timing sum to `opa` after any timing named `opa`, appends every other timing to its name, and registers exactly those names |
| Aggregator.SumOverIsMapSum | main.go:156-160 | the loop's sum, in any iteration order, equals the order-free sum of the map's values |
| Aggregator.RecordOrderIndependent | main.go:157-160 | two iteration orders of the same timing map give the same window |
| Aggregator.Fresh | main.go:123-125 | a fresh window has count 0, no samples and the given start time |
| Aggregator.Tick | main.go:128-152 | a tick reports the count, the time since the last tick and the `cli` and `opa` samples, then resets count and histograms and moves the start time to now |
| Aggregator.TickTwice | main.go:128-152 | a tick right after a tick reports zero requests and empty histograms, and leaves a fresh window |
| Aggregator.Step | main.go:126-163 | a record prints nothing and raises the count; a tick prints a row for the old count and starts a fresh window |
| Aggregator.Run | main.go:126-164 | records alone raise the count by their number and keep the start time; events ending in a tick leave the fresh window that tick started |
| Aggregator.Reports | main.go:126-164 | exactly one printed row per tick, so none exactly when no tick happens, and a leading tick prints the starting window's count, elapsed time and samples |
| Aggregator.ReportsAppend | main.go:126-164 | a further record prints nothing, and a further tick prints one more row: the report of the window the earlier events built up |
| Aggregator.RecordSampleCount | main.go:154-162 | a record adds one sample to each fixed histogram and one to the histogram of every name it carries |
| Aggregator.SampleCountsBetweenTicks | main.go:154-162 | without ticks nothing is printed, the count rises by the number of records, and each histogram grows by its fixed share plus the records carrying its name |
| Aggregator.ClientSamplesMatchCount | main.go:154-162 | from a reset, when no timing is named `cli`, the client histogram holds exactly one sample per counted request |
| Aggregator.RunFromTick | main.go:148-152 | the window after a tick depends only on the events since that tick |
| Aggregator.ClientSamplesMatchCountSinceTick | main.go:148-162 | whatever came before the last tick, the client histogram and the request count agree when no later timing is named `cli` |
| Aggregator.FixedSamplesBetweenTicks | main.go:154-161 | when no timing is named `cli` or `opa`, the client histogram receives exactly the totals and the server histogram exactly the per-record sums, in arrival order |
| Aggregator.UniformServerTiming | main.go:154-162 | after records that each carry a single server timing `eval`, counted from a reset, the server histogram is `eval` once per request and the client histogram is the list of totals |
| Display.Repeat | main.go:90 | `strings.Repeat` of one character gives n copies of it |
| Display.Pad | main.go:86 | `%-14s` keeps the text and appends spaces up to 14 characters; longer text is kept whole |
| Display.Field | main.go:86 | a field is the padded text followed by one space, so it is 15 characters when the text fits |
| Display.Line | main.go:85-87 | a line of fields has no newline when no cell has one, and is 15 characters per cell when all cells fit |
| Display.LineAllColumns | main.go:85-87 | when all cells fit, the line is 15 characters per cell and every cell i occupies columns 15i to 15(i+1) |
| Display.LineColumns | main.go:85-87 | when all cells fit, cell i occupies exactly columns 15i to 15(i+1) |
| Display.Utf8Length | main.go:90 | the byte length is at least the character count, and equal to it exactly for ASCII text |
| Display.Rule | main.go:90 | a separator has one character per UTF-8 byte of its key, and every one of them is a dash |
| Display.Header | main.go:84-93 | the header is the names line, a newline, the separators line, a newline; with newline-free names those two are its only newlines; with names of at most 14 bytes, name i fills columns 15i to 15(i+1) of the first line and its dashes the same columns of the second |
| Display.RuleFieldWidth | main.go:86-91 | a separator field is as wide as its key's field if and only if the key is ASCII or at most 14 bytes long |
| Display.AsciiHeaderLinesAgree | main.go:84-93 | for ASCII keys the separators line is as long as the names line |
| Display.HeaderColumns | main.go:84-93 | for keys of at most 14 bytes, key i and its dashes both occupy columns 15i to 15(i+1) |
| Display.Cell | main.go:97 | a key present in the row shows its value, a missing key shows `<nil>`, and a cell never brings a newline the row's values lack |
| Display.Cells | main.go:96-98 | one cell per key, cell i showing key i |
| Display.Row | main.go:95-100 | a row ends in its only newline when the values have none; the text before it is the line of the keys' cells; when every cell fits, key i's value or `<nil>` fills columns 15i to 15(i+1) |
| Display.StatisticKey | main.go:144 | a row key is two characters longer than its histogram name and statistic together |
| Display.StatisticKeyInjective | main.go:144 | within one histogram, different statistics give different row keys |
| Display.StatisticKeyPairInjective | main.go:142-144 | over the four statistics a tick reads, a row key determines both its histogram and its statistic |
| Display.PutStatistics | main.go:143-145 | the inner loop adds exactly the keys of the histogram's statistics, stores each statistic's value under its key and leaves every other key's value unchanged |
| Display.PutHistograms | main.go:140-146 | the outer loop adds exactly the statistic keys of every histogram and leaves every other key's value unchanged |
| Display.PutHistogramsValues | main.go:140-146 | after the outer loop, every statistic of every visited histogram is stored under its key with that statistic's value, even when a name is visited twice |
| Display.TickRow | main.go:134-146 | the row holds `rps` and the statistic keys of `cli` and `opa`, nothing else, and its `rps` entry is the rps value |
| Display.TickRowKeys | main.go:134-146 | the row's keys are exactly `rps` and the four statistics of `cli` and of `opa`, each spelled `h(stat)` |
| Display.TickRowEntries | main.go:134-146 | the row holds exactly nine keys: `rps`, and the four statistics of `cli` and of `opa`, each under `h(stat)` with that statistic's value |
| Display.TickRowCells | main.go:134-148 | printed under the header's keys, the row's cells are the rps value and then the eight statistic values, in header order |
| Display.TickRowMatchesHeader | main.go:134-148 | the row a tick fills has exactly the header's keys, so the printed line shows the nine values in header order and never `<nil>` |

## Left out

- The HTTP exchange in `run` (main.go:56-82) is left out: the JSON encoding, the POST, the status check and the decoding. The model starts from the `result` value a worker sends. At main.go:78 the worker overwrites `Total` with its own measured time, so `Measurement.total` is that measured time.
- The workers, the channel, the ten-second ticker and the `select` scheduling are left out. Their interleaving becomes the event sequence given to `Aggregator.Run`.
- `crypto/rand` and `math/rand` become parameters: sixteen-octet draws and index triples. The panic on a short secure read (main.go:177-180) is excluded by requiring draws of sixteen octets.
- Inputs.PickInput: `mathrand.Intn` panics on an empty pool. This is modelled as `None`, and any index is accepted there.
- `generateInputs` with a negative `n` would panic in `make`. The `nat` parameter excludes it.
- The throughput figure is left out. It is the count divided by the elapsed nanoseconds, scaled to a per-second rate in floating point and truncated to a 64-bit integer (main.go:132); this is not modelled, and the report carries the count and elapsed time it is computed from.
- The percentile values are left out, because the metrics library (mean, 90%, 99%, 99.9%) is not part of this model. `Display.TickRow` takes the rendered statistic values as a parameter.
- `%v` rendering of `time.Duration` and `int64` is left out; row values arrive as already rendered strings.
- Aggregator.Record: `ns` and the samples are unbounded integers. The int64 wrap-around of the Go sum is not modelled.
- Aggregator.Tick: the elapsed time is an unbounded integer difference. The int64 nanosecond conversion of `now.Sub(tLast)` is not modelled.
- Uuid.Parse: accepts lower-case digits only, which is what `%x` prints. It is the inverse of the printer, not a general RFC 4122 reader, which would also accept upper case.
- Display.StatisticKey: its own contract gives only the key's length; what the key determines is stated by Display.StatisticKeyInjective and Display.StatisticKeyPairInjective, and the keys a tick stores are spelled out by Display.TickRowKeys.
- Display.Pad: Go pads by counted runes and the model by Dafny characters (Unicode scalar values). These agree for valid strings; invalid UTF-8 byte sequences are not modelled.
