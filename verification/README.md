# Spent-address snapshot loader and false-positive estimator, in Dafny

This project models the core of a small Go batch job. The job reads a decompressed
ledger snapshot. It collects the spent addresses into a cuckoo filter and into an
exact reference set. Then it estimates how often the filter reports false positives.

- `big_endian.dfy` (`BigEndian`) covers how `binary.Read(r, binary.BigEndian, &v)` reads
  `int32`, `int64` and `uint64`. It gives the unsigned and two's-complement readings of a
  byte string and their inverse encoders.
- `filter.dfy` (`Filter`) holds the cuckoo filter as an abstract state `F`:
  - `Insert` is a parameter `(F, Bytes) -> (bool, F)`. It may fail, and a failed insert
    still yields a state.
  - `Lookup` is an uninterpreted parameter `(F, Bytes) -> bool`.
  - `InsertAll` is the reference fold: "these items, inserted one by one, in order".
- `snapshot.dfy` (`Snapshot`) is the loader `LoadSnapshotFromFile`. It is a pure
  `Decode` over the byte stream:
  - header;
  - solid entry points and seen milestones, which are read and dropped;
  - ledger entries, which go into an identifier → balance map;
  - spent addresses, which go into the filter and the reference set.

  The filter and the reference set are process-wide variables in the program, so `Decode`
  returns them beside the result. A failed load therefore shows what it had already inserted.
  The hash-to-trytes encoder is a parameter `Bytes -> Option<string>`.
- `snapshot_facts.dfy` (`SnapshotFacts`) holds the properties of `Decode`:
  - exact byte consumption;
  - success exactly on complete streams whose ledger hashes the encoder accepts and whose
    spent records the filter accepts;
  - truncation errors, tagged by section, with the partial filter and reference-set state;
  - last-wins ledger map;
  - one insert per spent record, in order;
  - independence from trailing bytes;
  - non-positive counts.
- `scenario.dfy` (`SnapshotScenario`) is a concrete stream with one ledger record and one
  spent address.
- `estimator.dfy` (`Estimator`) is the loop in `main` that counts `skippedDup` and
  `falsePositive` over a sequence of candidates.

Bytes are integers `0..255` (`BigEndian.Byte`). A stream is a `seq<Byte>`.

The model follows the code as written:
- Declared counts are never checked. A negative count makes its loop run zero times (`Iterations`).
- The header's errors are not tagged by the program. Here they carry the section `HeaderFields`.
- `hash[:81]` panics when the encoder returns fewer than 81 characters. Here that is the error
  `IdentifierTooShort`.
- A failed filter insert panics. Here that is the error `CapacityReached`. The reference set
  does not receive that record.
- "No false negatives" is not assumed. The program's only check of it is commented out
  (main.go:62-75).

## Model

| member | source | states |
|---|---|---|
| BigEndian.ToNat | main.go:198 | an 8-byte big-endian field is read as an unsigned value below 256^8 (the `uint64` balance) |
| BigEndian.ToInt | main.go:129-157 | a signed field is read as a value in the two's-complement range of its width |
| BigEndian.ToNatFromNat | main.go:198 | reading the big-endian encoding of n gives n back |
| BigEndian.FromNatToNat | main.go:198 | encoding what was read gives the same bytes back, so distinct byte strings read as distinct values |
| BigEndian.SignBit | main.go:129-157 | a signed field is negative exactly when the top bit of its first byte is set |
| BigEndian.IntRoundTrip | main.go:129-157 | reading the two's-complement encoding of x gives x back |
| BigEndian.BytesRoundTrip | main.go:129-157 | re-encoding a signed reading gives back the original bytes |
| Filter.InsertAllFailurePersists | main.go:217-218 | once one insert has failed, the load cannot recover with more inserts |
| Snapshot.DecodeHeader | main.go:114-157 | succeeds exactly when 77 bytes are present and the encoder accepts the coordinator hash; the fields sit at offsets 0, 49, 53, 61, 65, 69 and 73 in that order, read as big-endian two's complement; on failure the error is an encoding error when the hash was rejected and a truncation otherwise |
| Snapshot.SkipIndexed | main.go:159-186 | the solid-entry-point and seen-milestone loops succeed exactly when 53·n bytes remain, end exactly 53·n bytes later, and otherwise fail as truncated in their own section |
| Snapshot.LoadLedger | main.go:188-208 | the ledger loop ends exactly 57·n bytes later; it fails only as truncated, as an encoding error or on a too-short identifier; with an encoder that accepts every hash it succeeds exactly when 57·n bytes remain, and fails only as truncated |
| Snapshot.LoadSpent | main.go:211-221 | the spent loop ends exactly 49·n bytes later; it fails only as truncated (then fewer than 49·n bytes remained) or on a refused insert; the reference set only grows |
| Snapshot.DecodePrefix | main.go:114-208 | the ledger section ends at 77 + 53·C1 + 53·C2 + 57·C3, inside the stream |
| Snapshot.Decode | main.go:99-226 | a successful load consumes exactly 77 + 53·C1 + 53·C2 + 57·C3 + 49·C4 bytes, never more than the stream holds, with non-positive counts contributing 0; a failure before the spent section leaves the filter and the reference set untouched |
| SnapshotFacts.HeaderRoundTrip | main.go:114-157 | the header decoder inverts the header layout, whatever bytes follow |
| SnapshotFacts.LoadLedgerSucceedsIff | main.go:189-208 | for any encoder, the ledger loop succeeds exactly when all its records are present and the encoder turns each record's hash into at least 81 characters |
| SnapshotFacts.LoadLedgerLastWins | main.go:188-208 | for any encoder, a successful ledger loop keeps every record's 81-character identifier as a key, with the balance of the last record that has that identifier |
| SnapshotFacts.DecodeLedgerLastWins | main.go:188-208 | for any encoder, after a successful load every ledger hash was accepted, the ledger's keys are exactly the identifiers of all ledger records, and a repeated identifier holds the last record's balance |
| SnapshotFacts.LoadSpentComplete | main.go:211-221 | a completed spent loop has sent each record to Insert exactly once, in stream order, and its reference set is the set of those records; with the whole section present, it completes exactly when every insert succeeds |
| SnapshotFacts.LoadSpentTruncated | main.go:212-216 | when the stream ends inside record k, the loop fails as truncated, and the filter and the reference set hold exactly records 0..k-1 |
| SnapshotFacts.DecodeSpentState | main.go:211-221 | after a successful load, the filter is the result of one Insert per spent record, in stream order; the reference set is exactly the set of spent records, each key being its own record's bytes (no buffer is shared between records) |
| SnapshotFacts.DecodeSucceedsIff | main.go:114-221 | given a complete header and an encoder that accepts every hash, the load succeeds exactly when the stream is as long as the header says and the filter accepts every spent record |
| SnapshotFacts.DecodeTruncatedBeforeLedger | main.go:159-186 | for any encoder, a stream whose header decodes but which ends inside the solid-entry-point or seen-milestone section fails as truncated in that section; the filter and the reference set are untouched |
| SnapshotFacts.DecodeTruncatedInLedger | main.go:188-201 | a stream that ends inside ledger record k, after k records whose hashes the encoder accepts, fails as truncated in the ledger section; the filter and the reference set are untouched |
| SnapshotFacts.DecodeTruncatedBeforeSpent | main.go:159-208 | with an encoder that accepts every hash, a stream that ends before the spent section fails as truncated, tagged with the section it ends in; the filter and the reference set are untouched |
| SnapshotFacts.DecodeTruncatedInSpent | main.go:211-221 | for any encoder, a stream whose header, skipped sections and ledger load but which ends inside spent record k fails as truncated in the spent section; the filter and the reference set hold exactly the k records fully read |
| SnapshotFacts.DecodeIgnoresTrailing | main.go:114-221 | once the header decodes and the stream reaches its declared end, bytes after the spent section change neither the outcome nor the filter nor the reference set |
| SnapshotFacts.NonPositiveCountsReadNothing | main.go:159-221 | when all four counts are zero or negative, no loop runs: 77 bytes consumed, empty ledger, filter and reference set as they were |
| SnapshotScenario.OneLedgerOneSpentHeader | main.go:139-157 | the example header's counts read as 0, 0, 1 and 1, so the spent section starts at byte 134 and the stream ends at byte 183 |
| SnapshotScenario.OneLedgerOneSpentSpent | main.go:211-221 | the example stream loads all 183 bytes; the reference set is {all-zero hash}, and the filter got exactly one insert of it |
| SnapshotScenario.OneLedgerOneSpentLedger | main.go:188-208 | the example stream's ledger holds exactly one entry: the all-zero hash's identifier, with balance 100 |
| Estimator.Estimate | main.go:79-94 | every candidate is either skipped as a duplicate or queried, once (`skippedDup` + queries = N); `skippedDup` counts the candidates in the reference set; Lookup receives exactly the other candidates, in order, and never a reference-set member; `falsePositive` counts the queried candidates the filter claims; `falsePositive` + `skippedDup` ≤ N |
| Estimator.UnseenMembers | main.go:86-90 | a candidate reaches Lookup exactly when it is not in the reference set |
| Estimator.ExactFilterHasNoFalsePositives | main.go:86-92 | if the filter answered exactly for the reference set, `falsePositive` would be 0: true members never reach the count |

## Left out

- Opening the file and setting up gzip (main.go:102-112), and the error when decompression
  cannot start. The model's input is the decompressed stream.
- The header hash is read with one `gzipReader.Read` (main.go:115). In Go that read may return
  fewer than 49 bytes without an error. The model reads exactly 49 bytes and fails only when
  fewer remain.
- The cuckoo filter's internals: `NewFilter(100000000)`, `Insert`, `Lookup`, `Encode` and
  `Count`. The filter is an abstract state `F` with an initial value `f0`. Its capacity is
  only visible through inserts that fail.
- Writing the encoded filter to `cuckoo.filter` (main.go:57). This is file I/O.
- `trinary.BytesToTrytes` is a foreign encoder. It is the `Encoder` parameter, and no
  property of its output is assumed beyond what each lemma requires.
- `crypto/rand` (main.go:83). The candidates are an input sequence. The false-positive rate
  and its statistical bound are not modelled. The program only prints the two counters.
- `BytesToString` and `StringToBytes` (main.go:28-45) convert without copying. In the model
  they are the identity: the reference set is keyed directly by byte sequences.
- Printing, timing, the hardcoded paths and the trial count (main.go:19-22, 48-60, 77, 93-96).
- The process ending on `panic`. Panics are error values of `Decode`.
- SnapshotFacts.DecodeTruncatedBeforeSpent: stated only for an encoder that accepts every
  hash. For other encoders, SnapshotFacts.DecodeTruncatedBeforeLedger covers the two skipped
  sections, and SnapshotFacts.DecodeTruncatedInLedger covers a ledger whose complete records
  are all accepted. A stream that ends after a rejected ledger hash fails as an encoding error
  instead.
- SnapshotFacts.DecodeSucceedsIff: stated only for an encoder that accepts every 49-byte hash.
  With a rejecting encoder, the load can also fail on an encoding error.
