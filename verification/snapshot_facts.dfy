/** Properties of the snapshot loader: what a successful load builds, how
    much of the stream it reads, and what a truncated stream leaves in the
    filter and the reference set. */
module SnapshotFacts {
  import opened Wrappers
  import opened BigEndian
  import Filter
  import opened Snapshot

  // ---------------------------------------------------------------------
  // Header: fixed order, big-endian, two's complement.

  /** Decoding the header layout of h gives h back, whatever follows it. */
  lemma HeaderRoundTrip(enc: Encoder, h: Header, rest: Bytes)
    requires |h.coordinator| == HashSize && enc(h.coordinator).Some?
    ensures DecodeHeader(enc, EncodeHeader(h) + rest) == Success(h)
  {
    var s := EncodeHeader(h) + rest;
    BaseOfWidths();
    assert s[..49] == s[0..49] == h.coordinator;
    assert s[49..53] == FromInt(h.milestoneIndex, 4);
    assert s[53..61] == FromInt(h.milestoneTimestamp, 8);
    assert s[61..65] == FromInt(h.solidEntryPointsCount, 4);
    assert s[65..69] == FromInt(h.seenMilestonesCount, 4);
    assert s[69..73] == FromInt(h.ledgerEntriesCount, 4);
    assert s[73..77] == FromInt(h.spentAddressesCount, 4);
    IntRoundTrip(h.milestoneIndex, 4);
    IntRoundTrip(h.milestoneTimestamp, 8);
    IntRoundTrip(h.solidEntryPointsCount, 4);
    IntRoundTrip(h.seenMilestonesCount, 4);
    IntRoundTrip(h.ledgerEntriesCount, 4);
    IntRoundTrip(h.spentAddressesCount, 4);
  }

  // ---------------------------------------------------------------------
  // Ledger map: every record's identifier is a key, and the last record
  // with that identifier supplies the balance.

  /** The encoder accepts the hash of each of the first k ledger records. */
  predicate LedgerAccepted(enc: Encoder, s: Bytes, base: nat, k: nat)
    requires base + LedgerRecordSize * k <= |s|
  {
    forall j :: 0 <= j < k ==> Accepts(enc, LedgerHashAt(s, base, j))
  }

  ghost predicate LastWins(enc: Encoder, s: Bytes, base: nat, k: nat, ledger: map<string, Uint64>)
    requires base + LedgerRecordSize * k <= |s| && LedgerAccepted(enc, s, base, k)
  {
    && (forall j :: 0 <= j < k ==> LedgerKeyAt(enc, s, base, j) in ledger)
    && (forall id :: id in ledger ==> exists j :: 0 <= j < k && LastAt(enc, s, base, k, ledger, id, j))
  }

  /** Record j is the last of the first k records with identifier id, and
      the ledger holds its balance under id. */
  ghost predicate LastAt(enc: Encoder, s: Bytes, base: nat, k: nat, ledger: map<string, Uint64>, id: string, j: nat)
    requires j < k && base + LedgerRecordSize * k <= |s| && LedgerAccepted(enc, s, base, k)
  {
    && LedgerKeyAt(enc, s, base, j) == id
    && id in ledger && ledger[id] == LedgerBalanceAt(s, base, j)
    && forall j' :: j < j' < k ==> LedgerKeyAt(enc, s, base, j') != id
  }

  /** An older record stays the last one for its identifier when the next
      record carries a different identifier. */
  lemma LastAtExtends(enc: Encoder, s: Bytes, base: nat, i: nat, ledger: map<string, Uint64>,
                      next: map<string, Uint64>, id: string, j: nat)
    requires j < i && base + LedgerRecordSize * (i + 1) <= |s| && LedgerAccepted(enc, s, base, i + 1)
    requires LastAt(enc, s, base, i, ledger, id, j)
    requires LedgerKeyAt(enc, s, base, i) != id && id in next && next[id] == ledger[id]
    ensures LastAt(enc, s, base, i + 1, next, id, j)
  {
  }

  /** One step of the ledger loop keeps LastWins. */
  lemma LastWinsStep(enc: Encoder, s: Bytes, base: nat, i: nat, ledger: map<string, Uint64>)
    requires base + LedgerRecordSize * (i + 1) <= |s| && LedgerAccepted(enc, s, base, i + 1)
    requires LastWins(enc, s, base, i, ledger)
    ensures LastWins(enc, s, base, i + 1,
                     ledger[LedgerKeyAt(enc, s, base, i) := LedgerBalanceAt(s, base, i)])
  {
    var key := LedgerKeyAt(enc, s, base, i);
    var next := ledger[key := LedgerBalanceAt(s, base, i)];
    var k := i + 1;
    forall j | 0 <= j < k
      ensures LedgerKeyAt(enc, s, base, j) in next
    {
      if j < i {
        assert LedgerKeyAt(enc, s, base, j) in ledger;
      }
    }
    forall id | id in next
      ensures exists j :: 0 <= j < k && LastAt(enc, s, base, k, next, id, j)
    {
      if id == key {
        assert LastAt(enc, s, base, k, next, id, i);
      } else {
        var j :| 0 <= j < i && LastAt(enc, s, base, i, ledger, id, j);
        LastAtExtends(enc, s, base, i, ledger, next, id, j);
      }
    }
  }

  /** One turn of the ledger loop on a complete record whose hash the
      encoder accepts stores that record's balance under its key. */
  lemma LoadLedgerStep(enc: Encoder, s: Bytes, base: nat, i: nat, n: nat, ledger: map<string, Uint64>)
    requires i < n && base + LedgerRecordSize * (i + 1) <= |s|
    requires Accepts(enc, LedgerHashAt(s, base, i))
    ensures LoadLedger(enc, s, base, i, n, ledger)
            == LoadLedger(enc, s, base, i + 1, n, ledger[LedgerKeyAt(enc, s, base, i) := LedgerBalanceAt(s, base, i)])
  {
    var p := base + LedgerRecordSize * i;
    var hash := s[p..p + HashSize];
    assert hash == LedgerHashAt(s, base, i);
  }

  /** A turn of the ledger loop that gets past record i read it whole and
      had its hash accepted. */
  lemma LoadLedgerPassed(enc: Encoder, s: Bytes, base: nat, i: nat, n: nat, ledger: map<string, Uint64>)
    requires i < n && base + LedgerRecordSize * i <= |s|
    requires LoadLedger(enc, s, base, i, n, ledger).Success?
    ensures base + LedgerRecordSize * (i + 1) <= |s|
    ensures Accepts(enc, LedgerHashAt(s, base, i))
  {
    var p := base + LedgerRecordSize * i;
    assert p + HashSize + Int64Size <= |s|;
    assert s[p..p + HashSize] == LedgerHashAt(s, base, i);
  }

  /** The ledger loop succeeds exactly when its records are all present
      and the encoder accepts each of their hashes. */
  lemma {:induction false} LoadLedgerSucceedsIff(enc: Encoder, s: Bytes, base: nat, i: nat, n: nat, ledger: map<string, Uint64>)
    requires i <= n && base + LedgerRecordSize * i <= |s|
    requires LedgerAccepted(enc, s, base, i)
    ensures LoadLedger(enc, s, base, i, n, ledger).Success?
            <==> base + LedgerRecordSize * n <= |s| && LedgerAccepted(enc, s, base, n)
    decreases n - i
  {
    if i < n {
      if base + LedgerRecordSize * (i + 1) <= |s| && Accepts(enc, LedgerHashAt(s, base, i)) {
        var next := ledger[LedgerKeyAt(enc, s, base, i) := LedgerBalanceAt(s, base, i)];
        LoadLedgerStep(enc, s, base, i, n, ledger);
        assert LedgerAccepted(enc, s, base, i + 1);
        LoadLedgerSucceedsIff(enc, s, base, i + 1, n, next);
      } else if LoadLedger(enc, s, base, i, n, ledger).Success? {
        LoadLedgerPassed(enc, s, base, i, n, ledger);
      }
    }
  }

  /** A successful ledger loop builds a map in which the last record wins. */
  lemma {:induction false} LoadLedgerLastWins(enc: Encoder, s: Bytes, base: nat, i: nat, n: nat, ledger: map<string, Uint64>)
    requires i <= n && base + LedgerRecordSize * i <= |s|
    requires LedgerAccepted(enc, s, base, i) && LastWins(enc, s, base, i, ledger)
    requires LoadLedger(enc, s, base, i, n, ledger).Success?
    ensures LedgerAccepted(enc, s, base, n)
    ensures LastWins(enc, s, base, n, LoadLedger(enc, s, base, i, n, ledger).value.0)
    decreases n - i
  {
    if i == n {
      assert LoadLedger(enc, s, base, i, n, ledger).value.0 == ledger;
    } else {
      LoadLedgerPassed(enc, s, base, i, n, ledger);
      var next := ledger[LedgerKeyAt(enc, s, base, i) := LedgerBalanceAt(s, base, i)];
      LoadLedgerStep(enc, s, base, i, n, ledger);
      assert LedgerAccepted(enc, s, base, i + 1);
      LastWinsStep(enc, s, base, i, ledger);
      LoadLedgerLastWins(enc, s, base, i + 1, n, next);
    }
  }

  /** Where the ledger loop stops on a stream that ends inside record k,
      the earlier records being accepted. */
  lemma {:induction false} LoadLedgerTruncated(enc: Encoder, s: Bytes, base: nat, i: nat, k: nat, n: nat, ledger: map<string, Uint64>)
    requires i <= k < n
    requires base + LedgerRecordSize * k <= |s| < base + LedgerRecordSize * (k + 1)
    requires LedgerAccepted(enc, s, base, k)
    ensures LoadLedger(enc, s, base, i, n, ledger) == Failure(Truncated(LedgerEntries))
    decreases k - i
  {
    if i < k {
      LoadLedgerStep(enc, s, base, i, n, ledger);
      LoadLedgerTruncated(enc, s, base, i + 1, k, n,
                          ledger[LedgerKeyAt(enc, s, base, i) := LedgerBalanceAt(s, base, i)]);
    }
  }

  /** DecodePrefix with every section start resolved to its offset. */
  lemma DecodePrefixSections(enc: Encoder, s: Bytes)
    requires DecodeHeader(enc, s).Success?
    ensures var h := DecodeHeader(enc, s).value;
      var r := DecodePrefix(enc, s);
      && (r.Success? <==>
            LedgerOffset(h) <= |s|
            && LoadLedger(enc, s, LedgerOffset(h), 0, Iterations(h.ledgerEntriesCount), map[]).Success?)
      && (r.Success? ==>
            && r.value.header == h
            && LoadLedger(enc, s, LedgerOffset(h), 0, Iterations(h.ledgerEntriesCount), map[])
               == Success((r.value.ledger, SpentOffset(h))))
      && (r.Failure? ==>
            r.error == if |s| < SeenMilestonesOffset(h) then Truncated(SolidEntryPoints)
                       else if |s| < LedgerOffset(h) then Truncated(SeenMilestones)
                       else LoadLedger(enc, s, LedgerOffset(h), 0, Iterations(h.ledgerEntriesCount), map[]).error)
  {
    var h := DecodeHeader(enc, s).value;
    var solid := SkipIndexed(s, HeaderSize, 0, Iterations(h.solidEntryPointsCount), SolidEntryPoints);
    if solid.Success? {
      assert solid.value == SeenMilestonesOffset(h);
      var seen := SkipIndexed(s, SeenMilestonesOffset(h), 0, Iterations(h.seenMilestonesCount), SeenMilestones);
      if seen.Success? {
        assert seen.value == LedgerOffset(h);
        var ledger := LoadLedger(enc, s, LedgerOffset(h), 0, Iterations(h.ledgerEntriesCount), map[]);
        if ledger.Success? {
          assert DecodePrefix(enc, s) == Success(Prefix(h, ledger.value.0, ledger.value.1));
        }
      }
    }
  }

  /** A successful Decode, section by section. */
  lemma DecodeSections<F>(enc: Encoder, insert: Filter.Inserter<F>, f0: F, s: Bytes)
    requires Decode(enc, insert, f0, s).result.Success?
    ensures var r := Decode(enc, insert, f0, s);
      var h := r.result.value.header;
      && DecodeHeader(enc, s) == Success(h)
      && EncodedSize(h) <= |s|
      && LoadLedger(enc, s, LedgerOffset(h), 0, Iterations(h.ledgerEntriesCount), map[])
         == Success((r.result.value.ledger, SpentOffset(h)))
      && LoadSpent(insert, s, SpentOffset(h), 0, Iterations(h.spentAddressesCount), f0, {})
         == SpentLoad(Success(EncodedSize(h)), r.filter, r.spent)
  {
    var r := Decode(enc, insert, f0, s);
    var pre := DecodePrefix(enc, s).value;
    var h := pre.header;
    var spent := LoadSpent(insert, s, pre.cursor, 0, Iterations(h.spentAddressesCount), f0, {});
    assert spent.outcome.Success?;
    assert r == Load(Success(Snapshot(h, pre.ledger, spent.outcome.value)), spent.filter, spent.spent);
    DecodePrefixSections(enc, s);
  }

  /** After a successful load the ledger's keys are exactly the identifiers
      of the ledger records, each holding the balance of the last record
      with that identifier. */
  lemma DecodeLedgerLastWins<F>(enc: Encoder, insert: Filter.Inserter<F>, f0: F, s: Bytes)
    requires Decode(enc, insert, f0, s).result.Success?
    ensures var snap := Decode(enc, insert, f0, s).result.value;
      && SpentOffset(snap.header) <= |s|
      && LedgerAccepted(enc, s, LedgerOffset(snap.header), Iterations(snap.header.ledgerEntriesCount))
      && LastWins(enc, s, LedgerOffset(snap.header), Iterations(snap.header.ledgerEntriesCount), snap.ledger)
  {
    var r := Decode(enc, insert, f0, s);
    var h := r.result.value.header;
    DecodeSections(enc, insert, f0, s);
    LoadLedgerLastWins(enc, s, LedgerOffset(h), 0, Iterations(h.ledgerEntriesCount), map[]);
  }

  // ---------------------------------------------------------------------
  // Spent addresses: the filter saw one insert per record, in stream
  // order, and the reference set holds exactly the records read.

  lemma SpentRecordsPrefix(s: Bytes, base: nat, j: nat, k: nat)
    requires j <= k && base + SpentRecordSize * k <= |s|
    ensures SpentRecords(s, base, k)[..j] == SpentRecords(s, base, j)
  {
  }

  /** The state the spent-address loop holds after its first i records. */
  ghost predicate SpentStateAfter<F>(insert: Filter.Inserter<F>, f0: F, s: Bytes, base: nat, i: nat, filter: F, spent: set<Bytes>)
    requires base + SpentRecordSize * i <= |s|
  {
    && Filter.InsertAll(insert, f0, SpentRecords(s, base, i)) == Some(filter)
    && spent == Filter.Members(SpentRecords(s, base, i))
  }

  /** Reading and storing record i moves the state from i to i + 1 records. */
  lemma SpentStep<F>(insert: Filter.Inserter<F>, f0: F, s: Bytes, base: nat, i: nat, filter: F, spent: set<Bytes>)
    requires base + SpentRecordSize * (i + 1) <= |s|
    requires SpentStateAfter(insert, f0, s, base, i, filter, spent)
    ensures var p := base + SpentRecordSize * i;
      var record := s[p..p + HashSize];
      var (stored, filter') := insert(filter, record);
      && (stored ==> SpentStateAfter(insert, f0, s, base, i + 1, filter', spent + {record}))
      && (!stored ==> Filter.InsertAll(insert, f0, SpentRecords(s, base, i + 1)).None?)
  {
    var records := SpentRecords(s, base, i + 1);
    SpentRecordsPrefix(s, base, i, i + 1);
    assert records == SpentRecords(s, base, i) + [records[i]];
  }

  /** A spent-address loop that completes has inserted every record, in
      order, and holds every record in the reference set; with the whole
      section present it completes exactly when every insert succeeds. */
  lemma {:induction false} LoadSpentComplete<F>(insert: Filter.Inserter<F>, f0: F, s: Bytes, base: nat, i: nat, n: nat, filter: F, spent: set<Bytes>)
    requires i <= n && base + SpentRecordSize * i <= |s|
    requires SpentStateAfter(insert, f0, s, base, i, filter, spent)
    ensures var r := LoadSpent(insert, s, base, i, n, filter, spent);
      r.outcome.Success? ==> SpentStateAfter(insert, f0, s, base, n, r.filter, r.spent)
    ensures base + SpentRecordSize * n <= |s| ==>
      (LoadSpent(insert, s, base, i, n, filter, spent).outcome.Success?
       <==> Filter.InsertAll(insert, f0, SpentRecords(s, base, n)).Some?)
    decreases n - i
  {
    if i < n && base + SpentRecordSize * (i + 1) <= |s| {
      var p := base + SpentRecordSize * i;
      var record := s[p..p + HashSize];
      var (stored, filter') := insert(filter, record);
      SpentStep(insert, f0, s, base, i, filter, spent);
      if stored {
        LoadSpentComplete(insert, f0, s, base, i + 1, n, filter', spent + {record});
      } else if base + SpentRecordSize * n <= |s| {
        SpentRecordsPrefix(s, base, i + 1, n);
        Filter.InsertAllFailurePersists(insert, f0, SpentRecords(s, base, n), i + 1);
      }
    }
  }

  /** When the stream ends inside record k, the loop fails as truncated and
      leaves exactly records 0..k-1 in the filter and the reference set. */
  lemma {:induction false} LoadSpentTruncated<F>(insert: Filter.Inserter<F>, f0: F, s: Bytes, base: nat, i: nat, k: nat, n: nat, filter: F, spent: set<Bytes>)
    requires i <= k < n
    requires base + SpentRecordSize * k <= |s| < base + SpentRecordSize * (k + 1)
    requires Filter.InsertAll(insert, f0, SpentRecords(s, base, k)).Some?
    requires SpentStateAfter(insert, f0, s, base, i, filter, spent)
    ensures var r := LoadSpent(insert, s, base, i, n, filter, spent);
      && r.outcome == Failure(Truncated(SpentAddresses))
      && SpentStateAfter(insert, f0, s, base, k, r.filter, r.spent)
    decreases k - i
  {
    if i < k {
      var p := base + SpentRecordSize * i;
      var record := s[p..p + HashSize];
      var (stored, filter') := insert(filter, record);
      SpentStep(insert, f0, s, base, i, filter, spent);
      if !stored {
        SpentRecordsPrefix(s, base, i + 1, k);
        Filter.InsertAllFailurePersists(insert, f0, SpentRecords(s, base, k), i + 1);
        assert false;
      }
      LoadSpentTruncated(insert, f0, s, base, i + 1, k, n, filter', spent + {record});
    }
  }

  /** After a successful load the filter has received one insert per
      spent-address record, in stream order, and the reference set is the
      set of those records. Every key is the bytes of its own record: no
      record's key is overwritten by a later one. */
  lemma DecodeSpentState<F>(enc: Encoder, insert: Filter.Inserter<F>, f0: F, s: Bytes)
    requires Decode(enc, insert, f0, s).result.Success?
    ensures var r := Decode(enc, insert, f0, s);
      var h := r.result.value.header;
      && EncodedSize(h) <= |s|
      && SpentStateAfter(insert, f0, s, SpentOffset(h), Iterations(h.spentAddressesCount), r.filter, r.spent)
  {
    var pre := DecodePrefix(enc, s).value;
    assert SpentRecords(s, pre.cursor, 0) == [];
    LoadSpentComplete(insert, f0, s, pre.cursor, 0, Iterations(pre.header.spentAddressesCount), f0, {});
  }

  // ---------------------------------------------------------------------
  // How much of the stream the load needs, and what happens when it is
  // shorter.

  /** With an encoder that accepts every hash, a stream with a complete
      header loads exactly when it is at least as long as the header says
      and the filter accepts every spent-address record. */
  lemma DecodeSucceedsIff<F>(enc: Encoder, insert: Filter.Inserter<F>, f0: F, s: Bytes)
    requires ValidEncoder(enc)
    requires HeaderSize <= |s|
    ensures DecodeHeader(enc, s).Success?
    ensures var h := DecodeHeader(enc, s).value;
      Decode(enc, insert, f0, s).result.Success? <==>
        && EncodedSize(h) <= |s|
        && Filter.InsertAll(insert, f0, SpentRecords(s, SpentOffset(h), Iterations(h.spentAddressesCount))).Some?
  {
    assert |s[..HashSize]| == HashSize;
    var h := DecodeHeader(enc, s).value;
    if SpentOffset(h) <= |s| {
      var pre := DecodePrefix(enc, s).value;
      assert SpentRecords(s, pre.cursor, 0) == [];
      LoadSpentComplete(insert, f0, s, pre.cursor, 0, Iterations(h.spentAddressesCount), f0, {});
    }
  }

  /** A stream that ends inside the solid-entry-point or seen-milestone
      section fails as truncated in that section, whatever the encoder,
      and has not touched the filter or the reference set. */
  lemma DecodeTruncatedBeforeLedger<F>(enc: Encoder, insert: Filter.Inserter<F>, f0: F, s: Bytes)
    requires DecodeHeader(enc, s).Success?
    requires |s| < LedgerOffset(DecodeHeader(enc, s).value)
    ensures var h := DecodeHeader(enc, s).value;
      && Decode(enc, insert, f0, s) == Load(Failure(Truncated(SectionAt(h, |s|))), f0, {})
      && SectionAt(h, |s|) in {SolidEntryPoints, SeenMilestones}
  {
    DecodePrefixSections(enc, s);
  }

  /** A stream that ends inside ledger record k, after k records whose
      hashes the encoder accepts, fails as truncated in the ledger section
      and has not touched the filter or the reference set. */
  lemma DecodeTruncatedInLedger<F>(enc: Encoder, insert: Filter.Inserter<F>, f0: F, s: Bytes, k: nat)
    requires DecodeHeader(enc, s).Success?
    requires var h := DecodeHeader(enc, s).value;
      && k < Iterations(h.ledgerEntriesCount)
      && LedgerOffset(h) + LedgerRecordSize * k <= |s| < LedgerOffset(h) + LedgerRecordSize * (k + 1)
      && LedgerAccepted(enc, s, LedgerOffset(h), k)
    ensures var h := DecodeHeader(enc, s).value;
      && Decode(enc, insert, f0, s) == Load(Failure(Truncated(LedgerEntries)), f0, {})
      && SectionAt(h, |s|) == LedgerEntries
  {
    var h := DecodeHeader(enc, s).value;
    DecodePrefixSections(enc, s);
    LoadLedgerTruncated(enc, s, LedgerOffset(h), 0, k, Iterations(h.ledgerEntriesCount), map[]);
  }

  /** With an encoder that accepts every hash, a stream that ends before
      the spent-address section fails, tagged with the section it ends in,
      and has not touched the filter or the reference set. */
  lemma DecodeTruncatedBeforeSpent<F>(enc: Encoder, insert: Filter.Inserter<F>, f0: F, s: Bytes)
    requires ValidEncoder(enc)
    requires DecodeHeader(enc, s).Success?
    requires |s| < SpentOffset(DecodeHeader(enc, s).value)
    ensures Decode(enc, insert, f0, s)
            == Load(Failure(Truncated(SectionAt(DecodeHeader(enc, s).value, |s|))), f0, {})
  {
    DecodePrefixSections(enc, s);
    var pre := DecodePrefix(enc, s);
    assert pre.Failure?;
    assert Decode(enc, insert, f0, s) == Load(Failure(pre.error), f0, {});
  }

  /** A stream that ends inside spent-address record k, after a complete
      prefix, fails as truncated; the filter and the reference set then
      hold exactly records 0..k-1. */
  lemma DecodeTruncatedInSpent<F>(enc: Encoder, insert: Filter.Inserter<F>, f0: F, s: Bytes, k: nat)
    requires DecodePrefix(enc, s).Success?
    requires var h := DecodePrefix(enc, s).value.header;
      && k < Iterations(h.spentAddressesCount)
      && SpentOffset(h) + SpentRecordSize * k <= |s| < SpentOffset(h) + SpentRecordSize * (k + 1)
      && Filter.InsertAll(insert, f0, SpentRecords(s, SpentOffset(h), k)).Some?
    ensures var h := DecodePrefix(enc, s).value.header;
      var r := Decode(enc, insert, f0, s);
      && r.result == Failure(Truncated(SpentAddresses))
      && SectionAt(h, |s|) == SpentAddresses
      && SpentStateAfter(insert, f0, s, SpentOffset(h), k, r.filter, r.spent)
  {
    var h := DecodePrefix(enc, s).value.header;
    var base := SpentOffset(h);
    assert SpentRecords(s, base, 0) == [];
    LoadSpentTruncated(insert, f0, s, base, 0, k, Iterations(h.spentAddressesCount), f0, {});
  }

  // ---------------------------------------------------------------------
  // The load never looks past the spent-address section.

  lemma ReadIgnoresTrailing(s: Bytes, t: Bytes, pos: nat, n: nat, section: Section)
    requires pos + n <= |s|
    ensures Read(s + t, pos, n, section) == Read(s, pos, n, section)
  {
    assert (s + t)[pos..pos + n] == s[pos..pos + n];
  }

  lemma {:induction false} SkipIgnoresTrailing(s: Bytes, t: Bytes, base: nat, i: nat, n: nat, section: Section)
    requires i <= n && base + IndexedRecordSize * n <= |s|
    ensures SkipIndexed(s + t, base, i, n, section) == SkipIndexed(s, base, i, n, section)
    decreases n - i
  {
    if i < n {
      var p := base + IndexedRecordSize * i;
      ReadIgnoresTrailing(s, t, p, HashSize, section);
      ReadIgnoresTrailing(s, t, p + HashSize, Int32Size, section);
      SkipIgnoresTrailing(s, t, base, i + 1, n, section);
    }
  }

  lemma {:induction false} LedgerIgnoresTrailing(enc: Encoder, s: Bytes, t: Bytes, base: nat, i: nat, n: nat, ledger: map<string, Uint64>)
    requires i <= n && base + LedgerRecordSize * n <= |s|
    ensures LoadLedger(enc, s + t, base, i, n, ledger) == LoadLedger(enc, s, base, i, n, ledger)
    decreases n - i
  {
    if i < n {
      var p := base + LedgerRecordSize * i;
      ReadIgnoresTrailing(s, t, p, HashSize, LedgerEntries);
      ReadIgnoresTrailing(s, t, p + HashSize, Int64Size, LedgerEntries);
      var id := enc(s[p..p + HashSize]);
      if id.Some? && |id.value| >= IdentifierLength {
        var balance := ReadUint64(s[p + HashSize..p + HashSize + Int64Size]);
        LedgerIgnoresTrailing(enc, s, t, base, i + 1, n, ledger[id.value[..IdentifierLength] := balance]);
      }
    }
  }

  lemma {:induction false} SpentIgnoresTrailing<F>(insert: Filter.Inserter<F>, s: Bytes, t: Bytes, base: nat, i: nat, n: nat, filter: F, spent: set<Bytes>)
    requires i <= n && base + SpentRecordSize * n <= |s|
    ensures LoadSpent(insert, s + t, base, i, n, filter, spent) == LoadSpent(insert, s, base, i, n, filter, spent)
    decreases n - i
  {
    if i < n {
      var p := base + SpentRecordSize * i;
      ReadIgnoresTrailing(s, t, p, HashSize, SpentAddresses);
      var record := s[p..p + HashSize];
      var (stored, filter') := insert(filter, record);
      if stored {
        SpentIgnoresTrailing(insert, s, t, base, i + 1, n, filter', spent + {record});
      }
    }
  }

  lemma HeaderIgnoresTrailing(enc: Encoder, s: Bytes, t: Bytes)
    requires HeaderSize <= |s|
    ensures DecodeHeader(enc, s + t) == DecodeHeader(enc, s)
  {
    assert (s + t)[..HashSize] == s[..HashSize];
    ReadIgnoresTrailing(s, t, 0, HashSize, HeaderFields);
    ReadIgnoresTrailing(s, t, 49, 4, HeaderFields);
    ReadIgnoresTrailing(s, t, 53, 8, HeaderFields);
    ReadIgnoresTrailing(s, t, 61, 4, HeaderFields);
    ReadIgnoresTrailing(s, t, 65, 4, HeaderFields);
    ReadIgnoresTrailing(s, t, 69, 4, HeaderFields);
    ReadIgnoresTrailing(s, t, 73, 4, HeaderFields);
  }

  lemma PrefixIgnoresTrailing(enc: Encoder, s: Bytes, t: Bytes)
    requires DecodeHeader(enc, s).Success?
    requires SpentOffset(DecodeHeader(enc, s).value) <= |s|
    ensures DecodePrefix(enc, s + t) == DecodePrefix(enc, s)
  {
    var h := DecodeHeader(enc, s).value;
    HeaderIgnoresTrailing(enc, s, t);
    SkipIgnoresTrailing(s, t, HeaderSize, 0, Iterations(h.solidEntryPointsCount), SolidEntryPoints);
    SkipIgnoresTrailing(s, t, SeenMilestonesOffset(h), 0, Iterations(h.seenMilestonesCount), SeenMilestones);
    LedgerIgnoresTrailing(enc, s, t, LedgerOffset(h), 0, Iterations(h.ledgerEntriesCount), map[]);
    DecodePrefixSections(enc, s);
    DecodePrefixSections(enc, s + t);
  }

  /** Bytes after the spent-address section change nothing: the outcome,
      the filter and the reference set depend only on the first
      EncodedSize(h) bytes. */
  lemma DecodeIgnoresTrailing<F>(enc: Encoder, insert: Filter.Inserter<F>, f0: F, s: Bytes, t: Bytes)
    requires DecodeHeader(enc, s).Success?
    requires EncodedSize(DecodeHeader(enc, s).value) <= |s|
    ensures Decode(enc, insert, f0, s + t) == Decode(enc, insert, f0, s)
  {
    var h := DecodeHeader(enc, s).value;
    PrefixIgnoresTrailing(enc, s, t);
    var pre := DecodePrefix(enc, s);
    if pre.Success? {
      SpentIgnoresTrailing(insert, s, t, SpentOffset(h), 0, Iterations(h.spentAddressesCount), f0, {});
    }
  }

  // ---------------------------------------------------------------------
  // Non-positive counts.

  /** When every declared count is zero or negative, no loop runs: the load
      reads only the header, builds an empty ledger and leaves the filter
      and the reference set as they were. */
  lemma NonPositiveCountsReadNothing<F>(enc: Encoder, insert: Filter.Inserter<F>, f0: F, s: Bytes)
    requires DecodeHeader(enc, s).Success?
    requires var h := DecodeHeader(enc, s).value;
      && h.solidEntryPointsCount <= 0 && h.seenMilestonesCount <= 0
      && h.ledgerEntriesCount <= 0 && h.spentAddressesCount <= 0
    ensures Decode(enc, insert, f0, s)
            == Load(Success(Snapshot(DecodeHeader(enc, s).value, map[], HeaderSize)), f0, {})
  {
  }
}
