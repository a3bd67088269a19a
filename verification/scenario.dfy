/** A concrete stream: no solid entry points, no seen milestones, one ledger
    record (all-zero hash, balance 100) and one spent address (all-zero
    hash). */
module SnapshotScenario {
  import opened BigEndian
  import Filter
  import opened Snapshot
  import opened SnapshotFacts

  function Zeros(n: nat): (z: Bytes)
    ensures |z| == n && forall i :: 0 <= i < n ==> z[i] == 0
  {
    seq(n, _ => 0)
  }

  /** header | ledger record | spent record */
  function OneLedgerOneSpent(): (s: Bytes)
    ensures |s| == 183
  {
    Zeros(HashSize) + [0, 0, 0, 7] + Zeros(8) + [0, 0, 0, 0] + [0, 0, 0, 0] + [0, 0, 0, 1] + [0, 0, 0, 1]
    + Zeros(HashSize) + [0, 0, 0, 0, 0, 0, 0, 100]
    + Zeros(HashSize)
  }

  /** Leading zero bytes add nothing to a big-endian value. */
  lemma {:induction false} ToNatOfZeroPrefix(b: Bytes, k: nat)
    requires k <= |b| && forall i :: 0 <= i < k ==> b[i] == 0
    ensures ToNat(b) == ToNat(b[k..])
    decreases k
  {
    if k > 0 {
      ToNatLeading(b);
      assert ToNat(b) == ToNat(b[1..]);
      assert b[1..][k - 1..] == b[k..];
      ToNatOfZeroPrefix(b[1..], k - 1);
    }
  }

  lemma SmallValue(b: Bytes)
    requires |b| > 0 && b[|b| - 1] < 0x80
    requires forall i :: 0 <= i < |b| - 1 ==> b[i] == 0
    ensures ToNat(b) == b[|b| - 1]
    ensures ToInt(b) == b[|b| - 1]
  {
    ToNatOfZeroPrefix(b, |b| - 1);
    var last := b[|b| - 1..];
    assert ToNat(last) == ToNat(last[..0]) * 256 + last[0];
    if |b| > 1 {
      assert Half(|b|) == 128 * Base(|b| - 1) >= 128;
    }
  }

  lemma OneLedgerOneSpentHeader(enc: Encoder)
    requires ValidEncoder(enc)
    ensures var r := DecodeHeader(enc, OneLedgerOneSpent());
      && r.Success?
      && r.value.solidEntryPointsCount == 0 && r.value.seenMilestonesCount == 0
      && r.value.ledgerEntriesCount == 1 && r.value.spentAddressesCount == 1
      && SpentOffset(r.value) == 134 && EncodedSize(r.value) == 183
  {
    var s := OneLedgerOneSpent();
    assert s[..HashSize] == Zeros(HashSize);
    assert |Zeros(HashSize)| == HashSize;
    assert s[61..65] == [0, 0, 0, 0];
    assert s[65..69] == [0, 0, 0, 0];
    assert s[69..73] == [0, 0, 0, 1];
    assert s[73..77] == [0, 0, 0, 1];
    SmallValue(s[61..65]);
    SmallValue(s[65..69]);
    SmallValue(s[69..73]);
    SmallValue(s[73..77]);
  }

  lemma OneLedgerOneSpentRecords(enc: Encoder)
    requires ValidEncoder(enc)
    ensures var s := OneLedgerOneSpent();
      && SpentRecords(s, 134, 1) == [Zeros(HashSize)]
      && LedgerKeyAt(enc, s, 77, 0) == enc(Zeros(HashSize)).value[..IdentifierLength]
      && LedgerBalanceAt(s, 77, 0) == 100
  {
    var s := OneLedgerOneSpent();
    assert s[134..183] == Zeros(HashSize);
    assert LedgerHashAt(s, 77, 0) == s[77..126] == Zeros(HashSize);
    assert s[126..134] == [0, 0, 0, 0, 0, 0, 0, 100];
    SmallValue(s[126..134]);
  }

  /** The stream above loads: one insert into the filter, one reference-set
      entry, all 183 bytes consumed. */
  lemma OneLedgerOneSpentSpent<F>(enc: Encoder, insert: Filter.Inserter<F>, f0: F)
    requires ValidEncoder(enc)
    requires insert(f0, Zeros(HashSize)).0
    ensures var r := Decode(enc, insert, f0, OneLedgerOneSpent());
      && r.result.Success?
      && r.result.value.consumed == 183
      && r.spent == {Zeros(HashSize)}
      && r.filter == insert(f0, Zeros(HashSize)).1
  {
    var s := OneLedgerOneSpent();
    OneLedgerOneSpentHeader(enc);
    OneLedgerOneSpentRecords(enc);
    var records := SpentRecords(s, 134, 1);
    assert records[..0] == [];
    assert Filter.Members(records) == {Zeros(HashSize)};
    DecodeSucceedsIff(enc, insert, f0, s);
    DecodeSpentState(enc, insert, f0, s);
  }

  /** A last-wins map over the single ledger record of the stream above. */
  lemma OneRecordLedger(enc: Encoder, ledger: map<string, Uint64>)
    requires ValidEncoder(enc)
    requires LedgerAccepted(enc, OneLedgerOneSpent(), 77, 1)
    requires LastWins(enc, OneLedgerOneSpent(), 77, 1, ledger)
    ensures ledger == map[enc(Zeros(HashSize)).value[..IdentifierLength] := 100]
  {
    var s := OneLedgerOneSpent();
    OneLedgerOneSpentRecords(enc);
    var key := LedgerKeyAt(enc, s, 77, 0);
    assert key in ledger;
    forall id | id in ledger
      ensures id == key && ledger[id] == 100
    {
      var j :| 0 <= j < 1 && LastAt(enc, s, 77, 1, ledger, id, j);
    }
  }

  /** The ledger of the stream above holds one entry worth 100. */
  lemma OneLedgerOneSpentLedger<F>(enc: Encoder, insert: Filter.Inserter<F>, f0: F)
    requires ValidEncoder(enc)
    requires insert(f0, Zeros(HashSize)).0
    ensures var r := Decode(enc, insert, f0, OneLedgerOneSpent());
      && r.result.Success?
      && r.result.value.ledger == map[enc(Zeros(HashSize)).value[..IdentifierLength] := 100]
  {
    var s := OneLedgerOneSpent();
    OneLedgerOneSpentHeader(enc);
    OneLedgerOneSpentSpent(enc, insert, f0);
    DecodeLedgerLastWins(enc, insert, f0, s);
    OneRecordLedger(enc, Decode(enc, insert, f0, s).result.value.ledger);
  }
}
