# ethexporter core in Dafny

A model of the core of `main.go` of ethexporter, a small Prometheus exporter
that watches a list of Ethereum addresses:

- the loader `OpenAddressesFromEnv`, which scans the process environment for
  `ethaddr_<name>=<address>` entries and appends one `Watching` record per
  valid address to the global watch list, failing when none qualifies;
- the per-address update `UpdateAddressMetrics` and one pass of the refresh
  loop in `main`, which updates every record of a copy of the watch list and
  then stores the pass's duration and record count;
- the `/metrics` handler `MetricsHttp`, which renders seven labelled lines per
  record and five aggregate lines;
- the rule that picks the refresh interval from `SLEEP_SECONDS`.

Modules:

- `Options` — the `Option` type.
- `Seqs` — generic facts about sequences: `Flatten` of a sequence of chunks
  and where each chunk lands in it.
- `Strings` — the Go library functions the core relies on, as stated
  definitions: `strings.SplitN(s, "=", 2)` (`SplitFirst`),
  `strings.TrimSpace` with the `unicode.IsSpace` set, ASCII `strings.ToLower`
  and the case-insensitive prefix test (`HasPrefixFold`),
  `common.IsHexAddress`, `strconv.Atoi` with the 64-bit range, and `%d`
  (`Decimal`).
- `Watch` — the `Watching` class (fields updated in place), its value
  `Record`, the five chain reads of one update as a `Fetch`, the update rule
  `Applied`, the method `UpdateAddressMetrics` proved against it, and
  `UpdateAll`, the sequential body of one refresh pass.
- `Loader` — `Candidate` and `Entries`: which records a listing of `KEY=VALUE`
  strings yields under a prefix, and the scan of one entry (`ScanEntry`).
- `Metrics` — `Exposition`: the exact lines of one scrape of a table.
- `Exporter` — the class `Exporter` holding the globals `allWatching`,
  `prefix`, `loadSeconds` and `totalLoaded`, with `OpenAddressesFromEnv`,
  `Sweep` and `MetricsHttp` as methods, and the function `SleepSeconds`.

The class invariant `Valid` says that no record object is listed twice and
that every record is well formed: its address is a hex address and its
contract flag is exactly "code size > 0". The loader, the sweep and the
constructor keep it.

Behaviour of `main.go` the model keeps:

- An update writes every field, and always stamps `LastUpdated` with the
  current time, even when all five reads failed (main.go:85-92). A failed read
  resets its field to the zero value (empty balance text, nonce 0).
- A failed code read resets `IsContract` to false and `CodeSize` to 0; it does
  not keep the earlier values (main.go:80-83, main.go:90-91).
- `common.IsHexAddress` needs exactly 40 hex digits after an optional `0x`;
  an entry whose value is shorter or longer is skipped by the loader.

## Model

| member | source | states |
|---|---|---|
| Watch.Watching.constructor | main.go:164-169 | a new record holds the given name and address, balances "0", both nonces 0, not a contract, code size 0 and time 0 |
| Watch.UpdateAddressMetrics | main.go:54-94 | the record afterwards is `Applied(old value, reads, now)`: each field is its read value or that field's zero value, the contract flag is "code non-empty", the code size is the code length, the time is `now`, name and address unchanged |
| Watch.AppliedKeepsIdentity | main.go:85-92 | an update never changes name or address, and always sets the last-update time to `now` |
| Watch.AppliedForgetsPrior | main.go:60-92 | the result of an update does not depend on the record's earlier readings, only on its name, address, the reads and the time |
| Watch.AppliedFieldsIndependent | main.go:65-83 | each field depends on its own read only: two updates whose reads agree on one field agree on that field |
| Watch.AppliedBlanksFailures | main.go:60-83 | a failed read leaves the zero value of its field: empty balance text, nonce 0, not a contract and code size 0 |
| Watch.AppliedWellFormed | main.go:80-83 | after an update the contract flag is true exactly when the code size is positive, and the code size is the fetched code length or 0 |
| Watch.AppliedIdempotent | main.go:85-92 | repeating an update with the same reads and time changes nothing further |
| Watch.AllWellFormedAt | main.go:28-38 | a table is well formed exactly when each of its rows is |
| Watch.SweepKeepsWellFormed | main.go:225-233 | a pass that applies an update to every row keeps every row well formed |
| Watch.UpdateAll | main.go:220-233 | every record of the snapshot is updated exactly once, with its own reads and time, from its value before the pass; a well-formed table stays well formed |
| Strings.SplitFirstSpec | main.go:153-156 | splitting at `=` fails exactly when there is no `=`; otherwise the key is `=`-free and key, `=`, value rebuild the entry |
| Strings.SplitFirstAt | main.go:153-157 | an entry whose key has no `=` splits into that key and the whole rest, which may contain `=` |
| Strings.TrimSpaceSpec | main.go:158 | trimming keeps a slice of the value such that only white space lies outside it and it neither starts nor ends with white space |
| Strings.HasPrefixFoldLower | main.go:150-159 | the character-wise case-insensitive prefix test is the same as lower-casing both sides and testing the prefix |
| Strings.HexAddressIsTrimmed | main.go:158-163 | a valid hex address has no surrounding white space, so a stored address is its own trimmed form |
| Strings.Atoi | main.go:196 | a successful parse comes from non-empty text and yields a value in the 64-bit signed range |
| Strings.AtoiDecimal | main.go:196 | the integer parser reads back the decimal text of every 64-bit integer |
| Loader.EffectivePrefix | main.go:147-149 | the prefix used is never empty: the configured one when set, "ethaddr_" otherwise |
| Loader.ScanEntry | main.go:153-163 | the loop body for one entry accepts it exactly when `Candidate` does, and then yields that candidate's name and a valid hex address |
| Loader.CandidateOfEntry | main.go:153-169 | an entry `key=value` is kept exactly when the key starts with the prefix ignoring case and the trimmed value is a hex address; the record is named by the key after the prefix, in its own case, with the trimmed value as address and initial readings |
| Loader.CandidateNeedsSeparator | main.go:153-156 | an entry without `=` is skipped |
| Loader.EntriesSnoc | main.go:152-172 | scanning one more entry appends that entry's record, if it has one, to the records loaded so far |
| Loader.EntriesAppend | main.go:152-173 | loading a listing split in two loads the first part's records followed by the second part's, so kept entries stay in listing order |
| Loader.EntriesEmpty | main.go:152-176 | nothing is loaded exactly when every entry of the listing is skipped |
| Loader.EntriesWellFormed | main.go:163-169 | every loaded record is well formed, has initial readings and a trimmed address, and no more records are loaded than there are entries |
| Exporter.Exporter.constructor | main.go:18-26 | the state before loading: an empty watch list, the metric prefix, no sweep recorded yet |
| Exporter.Exporter.AppendWatching | main.go:164-171 | appends one new record with initial readings at the end of the watch list and keeps the class invariant |
| Exporter.Exporter.LoadEntry | main.go:153-172 | one loop iteration grows the table by exactly what loading that entry adds and keeps the earlier records |
| Exporter.Exporter.LoadAll | main.go:150-173 | the scan of the whole listing appends `Entries(environ, p)` after the old records, keeps the class invariant and returns how many records it appended |
| Exporter.Exporter.OpenAddressesFromEnv | main.go:146-178 | with an empty prefix defaulting to "ethaddr_", the table becomes the old table followed by `Entries(environ, prefix)` in listing order, earlier records and the other globals are untouched, and the call fails with the effective prefix exactly when nothing was appended, which is exactly when no entry qualifies |
| Exporter.Exporter.Sweep | main.go:212-238 | the watch list keeps its records and order, each record becomes `Applied` of its old value with its own reads and time, the recorded duration is the pass's and the recorded count equals the number of records; the class invariant holds |
| Metrics.OrZero | main.go:111-123 | a balance line never carries empty text: an empty balance is written "0", any other is written as it is |
| Metrics.LabelledEndsWith | main.go:111-132 | every per-address line ends in a space followed by exactly the value written |
| Metrics.BlockValues | main.go:111-132 | a record's is_contract line ends in " 1" when it is a contract and in " 0" otherwise; its balance lines end in a space and the balance text, or "0" when that is empty |
| Metrics.ExpositionRecordLines | main.go:110-133 | in a scrape, line `7*i+4` ends in " 1" exactly when record `i` is a contract (else in " 0"), and lines `7*i` and `7*i+1` end in a space and the record's balance and pending balance, "0" when empty |
| Metrics.CountsPartition | main.go:126-132 | every record is counted once, as a contract or as an externally owned account, so the two totals add up to the number of records |
| Metrics.ContractCountZero | main.go:126-132 | the contract total is 0 exactly when no record is a contract, and the EOA total is 0 exactly when every record is |
| Metrics.BlocksLayout | main.go:110-136 | the per-record lines are 7 per record, and record `i` owns lines `7*i` to `7*i+6`, in table order |
| Metrics.ExpositionShape | main.go:110-143 | a scrape has `7n+5` lines; line `7i+k` is line `k` of record `i`'s block; the last five are the totals, whose contract and EOA counts add up to `n`, and the last line carries `n` |
| Exporter.Exporter.RenderRecord | main.go:111-135 | the seven lines written for one record are its block: balances ("0" when empty), nonces, contract flag as 1 or 0, code size and update time, in that order |
| Exporter.Exporter.RenderTable | main.go:110-133 | the per-record lines are the blocks of the table in order, and the contract and EOA counts are those of the table |
| Exporter.Exporter.MetricsHttp | main.go:103-144 | the body written is the lines of `Exposition` of the current table joined by newlines plus a final newline; the handler changes nothing |
| Exporter.SleepSeconds | main.go:194-199 | the interval is positive; it is the parsed value when `SLEEP_SECONDS` parses as an integer greater than 0, and 15 otherwise, including when it is unset or empty |
| Exporter.SleepSecondsPositive | main.go:194-199 | configuring any positive 64-bit count written in decimal yields that interval |
| Exporter.SleepSecondsNonPositive | main.go:194-199 | configuring zero or a negative count yields the default 15 |

## Left out

- `ToEther`, `GetEthBalance` and the `big.Float` balance text: floating point. A fetched balance arrives as the text the conversion produced, and the model treats it as opaque text.
- The `total` balance sum in `MetricsHttp` (main.go:105, main.go:115-117): floating point, and it is never written to the output.
- `time.Since(t1).Seconds()` and its `%0.2f` rendering: floating point. The model keeps `loadSeconds` as the already formatted text and `Sweep` takes it as a parameter.
- Concurrency: the goroutine per record, the semaphore of 8, the `WaitGroup` and the `RWMutex`. The sweep runs the updates one after another in snapshot order, and scrapes that interleave with a pass are not modelled.
- The chain client and its 5-second timeout: each update receives the outcome of its five reads as a `Fetch`, with None for a failed read. `ConnectionToGeth` and `common.HexToAddress` are not modelled.
- `os.Environ`, `os.Getenv`, `os.Exit`, `panic` and the HTTP listener: the environment listing and the `SLEEP_SECONDS` text are parameters, and the body `MetricsHttp` returns stands for what it writes.
- `time.Now` and `time.Sleep`: each update receives its time as a parameter. The endless refresh loop and the sleeping are not modelled; `SleepSeconds` only computes the interval.
- The checks for the required `RPC` and `PORT` settings in `main` (main.go:180-191): plain configuration with process exit.
- `fmt.Printf` progress messages and the text of the loader's error: the error is modelled as `NoAddressesFound` carrying the effective prefix.
- Text is modelled as sequences of characters, not UTF-8 bytes, and `strings.ToLower` only maps ASCII letters. With the "ethaddr_" prefix, slicing the key after the prefix by characters agrees with Go's slicing by bytes.
- `totalLoaded` is an unbounded integer rather than `int64`, and `CodeSize` a natural number rather than `int`; a list length never reaches either bound.
- Exporter.Exporter.OpenAddressesFromEnv: states that the appended records are distinct objects (through `Valid`), not that they are newly allocated.
- Exporter.Exporter.Sweep: writes `loadSeconds` and `totalLoaded` before updating the records rather than after; with the updates run sequentially nothing can observe the order, and the final state is the same.
