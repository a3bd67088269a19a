/** The snapshot loader: one pass over the decompressed stream, with no
    delimiters and no length prefixes, in the fixed order

      header | solid entry points | seen milestones | ledger entries | spent addresses

    Ledger records fill an identifier -> balance map; spent-address records
    go into the membership filter and into an exact reference set. The
    stream is a byte sequence and the loader returns where it stopped, so
    the number of bytes it consumes can be stated. */
module Snapshot {
  import opened Wrappers
  import opened BigEndian
  import Filter

  const HashSize: nat := 49
  const Int32Size: nat := 4
  const Int64Size: nat := 8
  /** hash, milestone index, timestamp and four counts */
  const HeaderSize: nat := 77
  /** hash followed by an int32 milestone index */
  const IndexedRecordSize: nat := 53
  /** hash followed by a uint64 balance */
  const LedgerRecordSize: nat := 57
  /** a bare hash */
  const SpentRecordSize: nat := 49
  /** length of the textual address identifier kept as ledger key */
  const IdentifierLength: nat := 81

  datatype Section =
    | HeaderFields
    | SolidEntryPoints
    | SeenMilestones
    | LedgerEntries
    | SpentAddresses

  datatype Error =
    | Truncated(section: Section)    // the stream ended inside a field
    | Encoding(section: Section)     // the hash-to-trytes encoder rejected a hash
    | IdentifierTooShort             // slicing an identifier to 81 characters would panic
    | CapacityReached                // the filter refused an insert

  datatype Header = Header(
    coordinator: Bytes,
    milestoneIndex: Int32,
    milestoneTimestamp: Int64,
    solidEntryPointsCount: Int32,
    seenMilestonesCount: Int32,
    ledgerEntriesCount: Int32,
    spentAddressesCount: Int32)

  datatype Snapshot = Snapshot(header: Header, ledger: map<string, Uint64>, consumed: nat)

  /** The outcome of a load together with the filter and the reference set.
      Both are process-wide in the program, so they keep whatever was
      inserted before a failure. */
  datatype Load<F> = Load(result: Result<Snapshot, Error>, filter: F, spent: set<Bytes>)

  /** The foreign hash-to-trytes encoder; None when it rejects the bytes. */
  type Encoder = Bytes -> Option<string>

  /** An encoder that accepts every hash and yields a full identifier. */
  ghost predicate ValidEncoder(enc: Encoder) {
    forall b: Bytes :: |b| == HashSize ==> enc(b).Some? && |enc(b).value| >= IdentifierLength
  }

  /** The encoder turns this hash into at least a full identifier. */
  predicate Accepts(enc: Encoder, hash: Bytes) {
    enc(hash).Some? && |enc(hash).value| >= IdentifierLength
  }

  /** How often `for i := 0; i < count; i++` runs. */
  function Iterations(count: int): nat
  {
    if count < 0 then 0 else count
  }

  // Section boundaries implied by a header

  function SeenMilestonesOffset(h: Header): nat {
    HeaderSize + IndexedRecordSize * Iterations(h.solidEntryPointsCount)
  }

  function LedgerOffset(h: Header): nat {
    SeenMilestonesOffset(h) + IndexedRecordSize * Iterations(h.seenMilestonesCount)
  }

  function SpentOffset(h: Header): nat {
    LedgerOffset(h) + LedgerRecordSize * Iterations(h.ledgerEntriesCount)
  }

  /** Total length of a well-formed stream described by h. */
  function EncodedSize(h: Header): nat {
    SpentOffset(h) + SpentRecordSize * Iterations(h.spentAddressesCount)
  }

  /** The section that holds the first incomplete field of a stream of
      `len` bytes that is shorter than `EncodedSize(h)`. */
  function SectionAt(h: Header, len: nat): Section {
    if len < HeaderSize then HeaderFields
    else if len < SeenMilestonesOffset(h) then SolidEntryPoints
    else if len < LedgerOffset(h) then SeenMilestones
    else if len < SpentOffset(h) then LedgerEntries
    else SpentAddresses
  }

  // Records located by their index inside a section starting at `base`

  function LedgerHashAt(s: Bytes, base: nat, j: nat): Bytes
    requires base + LedgerRecordSize * (j + 1) <= |s|
  {
    var p := base + LedgerRecordSize * j;
    s[p..p + HashSize]
  }

  function LedgerBalanceAt(s: Bytes, base: nat, j: nat): Uint64
    requires base + LedgerRecordSize * (j + 1) <= |s|
  {
    var p := base + LedgerRecordSize * j + HashSize;
    ReadUint64(s[p..p + Int64Size])
  }

  /** The map key of ledger record j under an encoder that accepts it. */
  function LedgerKeyAt(enc: Encoder, s: Bytes, base: nat, j: nat): string
    requires base + LedgerRecordSize * (j + 1) <= |s|
    requires Accepts(enc, LedgerHashAt(s, base, j))
  {
    enc(LedgerHashAt(s, base, j)).value[..IdentifierLength]
  }

  /** The first k spent-address records of a section starting at `base`. */
  function SpentRecords(s: Bytes, base: nat, k: nat): (r: seq<Bytes>)
    requires base + SpentRecordSize * k <= |s|
    ensures |r| == k
  {
    seq(k, j requires 0 <= j < k => s[base + SpentRecordSize * j..base + SpentRecordSize * (j + 1)])
  }

  // The decoder

  /** The header laid out as the loader reads it; the inverse of
      DecodeHeader. */
  function EncodeHeader(h: Header): (b: Bytes)
    requires |h.coordinator| == HashSize
    ensures |b| == HeaderSize
  {
    h.coordinator + FromInt(h.milestoneIndex, 4) + FromInt(h.milestoneTimestamp, 8)
    + FromInt(h.solidEntryPointsCount, 4) + FromInt(h.seenMilestonesCount, 4)
    + FromInt(h.ledgerEntriesCount, 4) + FromInt(h.spentAddressesCount, 4)
  }

  /** A read of `n` bytes at `pos`, failing when the stream ends first. */
  function Read(s: Bytes, pos: nat, n: nat, section: Section): Result<Bytes, Error>
  {
    if pos + n <= |s| then Success(s[pos..pos + n]) else Failure(Truncated(section))
  }

  /** The header: coordinator hash, milestone index, milestone timestamp and
      the four counts, read one after another. The coordinator hash must be
      accepted by the encoder although its encoding is thrown away. */
  function DecodeHeader(enc: Encoder, s: Bytes): (r: Result<Header, Error>)
    ensures r.Success? <==> HeaderSize <= |s| && enc(s[..HashSize]).Some?
    ensures r.Success? ==>
      && r.value.coordinator == s[0..49]
      && r.value.milestoneIndex == ToInt(s[49..53])
      && r.value.milestoneTimestamp == ToInt(s[53..61])
      && r.value.solidEntryPointsCount == ToInt(s[61..65])
      && r.value.seenMilestonesCount == ToInt(s[65..69])
      && r.value.ledgerEntriesCount == ToInt(s[69..73])
      && r.value.spentAddressesCount == ToInt(s[73..77])
    ensures r.Failure? ==>
      r.error == (if HashSize <= |s| && enc(s[..HashSize]).None? then Encoding(HeaderFields) else Truncated(HeaderFields))
  {
    var hash :- Read(s, 0, HashSize, HeaderFields);
    if enc(hash).None? then Failure(Encoding(HeaderFields))
    else
      var p := HashSize;
      var index :- Read(s, p, Int32Size, HeaderFields);
      var p := p + Int32Size;
      var timestamp :- Read(s, p, Int64Size, HeaderFields);
      var p := p + Int64Size;
      var solid :- Read(s, p, Int32Size, HeaderFields);
      var p := p + Int32Size;
      var seen :- Read(s, p, Int32Size, HeaderFields);
      var p := p + Int32Size;
      var ledger :- Read(s, p, Int32Size, HeaderFields);
      var p := p + Int32Size;
      var spent :- Read(s, p, Int32Size, HeaderFields);
      Success(Header(hash, ReadInt32(index), ReadInt64(timestamp),
                     ReadInt32(solid), ReadInt32(seen), ReadInt32(ledger), ReadInt32(spent)))
  }

  /** Records i..n-1 of a section of (hash, int32) records: read and dropped.
      Returns the position after the section. */
  function SkipIndexed(s: Bytes, base: nat, i: nat, n: nat, section: Section): (r: Result<nat, Error>)
    requires i <= n && base + IndexedRecordSize * i <= |s|
    ensures r.Success? <==> base + IndexedRecordSize * n <= |s|
    ensures r.Success? ==> r.value == base + IndexedRecordSize * n
    ensures r.Failure? ==> r.error == Truncated(section)
    decreases n - i
  {
    if i == n then Success(base + IndexedRecordSize * n)
    else
      var p := base + IndexedRecordSize * i;
      var hash :- Read(s, p, HashSize, section);
      var index :- Read(s, p + HashSize, Int32Size, section);
      SkipIndexed(s, base, i + 1, n, section)
  }

  /** Ledger records i..n-1 stored into `ledger`, a later record overwriting
      an earlier one with the same identifier. Returns the map and the
      position after the section. */
  function LoadLedger(enc: Encoder, s: Bytes, base: nat, i: nat, n: nat, ledger: map<string, Uint64>)
    : (r: Result<(map<string, Uint64>, nat), Error>)
    requires i <= n && base + LedgerRecordSize * i <= |s|
    ensures r.Success? ==> r.value.1 == base + LedgerRecordSize * n <= |s|
    ensures r.Failure? ==> r.error in {Truncated(LedgerEntries), Encoding(LedgerEntries), IdentifierTooShort}
    ensures ValidEncoder(enc) ==> (r.Success? <==> base + LedgerRecordSize * n <= |s|)
    ensures ValidEncoder(enc) && r.Failure? ==> r.error == Truncated(LedgerEntries)
    decreases n - i
  {
    if i == n then Success((ledger, base + LedgerRecordSize * n))
    else
      var p := base + LedgerRecordSize * i;
      var hash :- Read(s, p, HashSize, LedgerEntries);
      var balance :- Read(s, p + HashSize, Int64Size, LedgerEntries);
      var id := enc(hash);
      if id.None? then Failure(Encoding(LedgerEntries))
      else if |id.value| < IdentifierLength then Failure(IdentifierTooShort)
      else LoadLedger(enc, s, base, i + 1, n, ledger[id.value[..IdentifierLength] := ReadUint64(balance)])
  }

  /** What the spent-address loop leaves behind: where it stopped (or why it
      failed), the filter and the reference set. */
  datatype SpentLoad<F> = SpentLoad(outcome: Result<nat, Error>, filter: F, spent: set<Bytes>)

  /** Spent-address records i..n-1, each read into a buffer of its own,
      inserted into the filter and then added to the reference set. A failed
      insert aborts before the record reaches the reference set. */
  function LoadSpent<F>(insert: Filter.Inserter<F>, s: Bytes, base: nat, i: nat, n: nat, filter: F, spent: set<Bytes>)
    : (r: SpentLoad<F>)
    requires i <= n && base + SpentRecordSize * i <= |s|
    ensures r.outcome.Success? ==> r.outcome.value == base + SpentRecordSize * n <= |s|
    ensures r.outcome.Failure? ==> r.outcome.error in {Truncated(SpentAddresses), CapacityReached}
    ensures r.outcome == Failure(Truncated(SpentAddresses)) ==> |s| < base + SpentRecordSize * n
    ensures spent <= r.spent
    decreases n - i
  {
    if i == n then SpentLoad(Success(base + SpentRecordSize * n), filter, spent)
    else
      var p := base + SpentRecordSize * i;
      match Read(s, p, HashSize, SpentAddresses)
      case Failure(e) => SpentLoad(Failure(e), filter, spent)
      case Success(record) =>
        var (stored, filter') := insert(filter, record);
        if !stored then SpentLoad(Failure(CapacityReached), filter', spent)
        else LoadSpent(insert, s, base, i + 1, n, filter', spent + {record})
  }

  /** Everything before the spent addresses: header, the two skipped
      sections and the ledger. */
  datatype Prefix = Prefix(header: Header, ledger: map<string, Uint64>, cursor: nat)

  function DecodePrefix(enc: Encoder, s: Bytes): (r: Result<Prefix, Error>)
    ensures r.Success? ==> DecodeHeader(enc, s) == Success(r.value.header)
    ensures r.Success? ==> r.value.cursor == SpentOffset(r.value.header) <= |s|
  {
    var h :- DecodeHeader(enc, s);
    var seenStart :- SkipIndexed(s, HeaderSize, 0, Iterations(h.solidEntryPointsCount), SolidEntryPoints);
    var ledgerStart :- SkipIndexed(s, seenStart, 0, Iterations(h.seenMilestonesCount), SeenMilestones);
    var ledger :- LoadLedger(enc, s, ledgerStart, 0, Iterations(h.ledgerEntriesCount), map[]);
    Success(Prefix(h, ledger.0, ledger.1))
  }

  /** The whole load, starting from the empty reference set and the freshly
      made filter `f0`. On success the snapshot records the number of bytes
      consumed: 77 + 53*C1 + 53*C2 + 57*C3 + 49*C4 for the declared counts
      C1..C4, a non-positive count contributing nothing. */
  function Decode<F>(enc: Encoder, insert: Filter.Inserter<F>, f0: F, s: Bytes): (r: Load<F>)
    ensures r.result.Success? ==>
      && DecodeHeader(enc, s) == Success(r.result.value.header)
      && r.result.value.consumed == EncodedSize(r.result.value.header) <= |s|
      && r.result.value.consumed
         == 77 + 53 * Iterations(r.result.value.header.solidEntryPointsCount)
               + 53 * Iterations(r.result.value.header.seenMilestonesCount)
               + 57 * Iterations(r.result.value.header.ledgerEntriesCount)
               + 49 * Iterations(r.result.value.header.spentAddressesCount)
    ensures r.result.Failure? && r.result.error != CapacityReached && r.result.error != Truncated(SpentAddresses)
            ==> r.filter == f0 && r.spent == {}
  {
    match DecodePrefix(enc, s)
    case Failure(e) => Load(Failure(e), f0, {})
    case Success(pre) =>
      var spent := LoadSpent(insert, s, pre.cursor, 0, Iterations(pre.header.spentAddressesCount), f0, {});
      match spent.outcome
      case Failure(e) => Load(Failure(e), spent.filter, spent.spent)
      case Success(end) => Load(Success(Snapshot(pre.header, pre.ledger, end)), spent.filter, spent.spent)
  }
}
