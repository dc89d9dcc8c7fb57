/**
 * The Nubank OFX importer: the same statement scanner as the Itaú importer,
 * four leaf values per aggregate, `external_id` straight from FITID and a
 * `tx_id` hashed from it or, when it is blank, from a composite key. Also the
 * ledger merge as this importer's `append_to_ledger` writes it, which reads
 * the old `tx_id` column back without a string dtype.
 */
module NubankImport {
  import opened Wrappers
  import opened Text
  import opened Ofx
  import opened Coerce
  import opened Ledger
  import opened Canon

  /** The leaf values `_parse_ofx_sgml` collects from one aggregate. */
  datatype RawRow = RawRow(dtposted: string, trnamt: string, memo: string, fitid: string)

  datatype ImportError = EmptyStatement

  const Bank := "nubank"

  /** The raw row of one aggregate; MEMO falls back to NAME when it is empty. */
  function RawOf(b: string): (r: RawRow)
    ensures r.memo == "" <==> Tag(b, "memo") == "" && Tag(b, "name") == ""
    ensures Tag(b, "memo") != "" ==> r.memo == Tag(b, "memo")
    ensures Tag(b, "memo") == "" ==> r.memo == Tag(b, "name")
    ensures r.dtposted == Tag(b, "dtposted") && r.trnamt == Tag(b, "trnamt") && r.fitid == Tag(b, "fitid")
  {
    var memo := Tag(b, "memo");
    RawRow(Tag(b, "dtposted"), Tag(b, "trnamt"), if memo != "" then memo else Tag(b, "name"), Tag(b, "fitid"))
  }

  /** One raw row per aggregate, in order. */
  function RawRowsOf(blocks: seq<string>): (rows: seq<RawRow>)
    ensures |rows| == |blocks|
  {
    if blocks == [] then [] else RawRowsOf(blocks[..|blocks| - 1]) + [RawOf(blocks[|blocks| - 1])]
  }

  /** The raw rows of a statement, one per aggregate, in file order. */
  function RawRows(text: string): (rows: seq<RawRow>)
    ensures |rows| == |Blocks(text)|
  {
    RawRowsOf(Blocks(text))
  }

  /** The `i`-th raw row is read from the `i`-th aggregate. */
  lemma {:induction false} RawRowsOfIndex(blocks: seq<string>, i: nat)
    requires i < |blocks|
    ensures RawRowsOf(blocks)[i] == RawOf(blocks[i])
    decreases |blocks|
  {
    if i < |blocks| - 1 {
      RawRowsOfIndex(blocks[..|blocks| - 1], i);
    }
  }

  /** Reading one more aggregate appends its raw row. */
  lemma RawRowsOfSnoc(blocks: seq<string>, i: nat)
    requires i < |blocks|
    ensures RawRowsOf(blocks[..i + 1]) == RawRowsOf(blocks[..i]) + [RawOf(blocks[i])]
  {
    assert blocks[..i + 1][..i] == blocks[..i];
  }

  /** `_parse_ofx_sgml`: a loop over the aggregates appending one raw row each. */
  method ParseOfx(text: string) returns (rows: seq<RawRow>)
    ensures rows == RawRows(text)
  {
    var blocks := Blocks(text);
    rows := [];
    for i := 0 to |blocks|
      invariant rows == RawRowsOf(blocks[..i])
    {
      RawRowsOfSnoc(blocks, i);
      rows := rows + [RawOf(blocks[i])];
    }
    assert blocks[..|blocks|] == blocks;
  }

  /** The coerced columns of one raw row; `external_id` is the stripped FITID, possibly blank. */
  function CoerceRow(raw: RawRow): Coerced {
    Coerced(CoerceDate(raw.dtposted), Strip(raw.memo), CoerceAmount(raw.trnamt), Strip(raw.fitid))
  }

  function CoerceRows(raws: seq<RawRow>): (cs: seq<Coerced>)
    ensures |cs| == |raws|
  {
    seq(|raws|, i requires 0 <= i < |raws| => CoerceRow(raws[i]))
  }

  /** The hash key: `external_id`, or the composite key when it is blank. */
  function KeyOf(fmt: KeyFormat, t: Txn): (key: string)
    ensures key != ""
    ensures key == t.externalId || key == CompositeKey(fmt, t.date, t.description, t.amount, Bank)
  {
    if t.externalId == "" then CompositeKey(fmt, t.date, t.description, t.amount, Bank) else t.externalId
  }

  function WithId(fmt: KeyFormat, t: Txn): Txn {
    t.(txId := TxId(fmt, KeyOf(fmt, t)))
  }

  /** The rows `import_nubank_ofx` returns for the given raw rows. */
  function Canonical(raws: seq<RawRow>, fileName: string, fmt: KeyFormat): (rows: seq<Txn>)
    ensures |rows| == |Staged(CoerceRows(raws), Bank, fileName)|
  {
    var s := Staged(CoerceRows(raws), Bank, fileName);
    seq(|s|, i requires 0 <= i < |s| => WithId(fmt, s[i]))
  }

  /** `import_nubank_ofx`: an error when the statement has no aggregate, else the canonical rows. */
  function ImportSpec(text: string, fileName: string, fmt: KeyFormat): (r: Result<seq<Txn>, ImportError>)
    ensures r.Failure? <==> Blocks(text) == []
    ensures r.Success? ==> |r.value| <= |Blocks(text)|
  {
    var raws := RawRows(text);
    if raws == [] then Failure(EmptyStatement) else Success(Canonical(raws, fileName, fmt))
  }

  /** The column assignments of `import_nubank_ofx`: every column is computed element-wise. */
  method CoerceColumns(raws: seq<RawRow>) returns (cs: seq<Coerced>)
    ensures cs == CoerceRows(raws)
  {
    var ext := seq(|raws|, i requires 0 <= i < |raws| => Strip(raws[i].fitid));
    var dates := seq(|raws|, i requires 0 <= i < |raws| => CoerceDate(raws[i].dtposted));
    var amounts := seq(|raws|, i requires 0 <= i < |raws| => CoerceAmount(raws[i].trnamt));
    cs := seq(|raws|, i requires 0 <= i < |raws| => Coerced(dates[i], Strip(raws[i].memo), amounts[i], ext[i]));
  }

  /** The key column, overwritten in place where the reference is blank, hashed into `tx_id`. */
  method AssignIds(out: seq<Txn>, fmt: KeyFormat) returns (rows: seq<Txn>)
    ensures |rows| == |out|
    ensures forall i :: 0 <= i < |out| ==> rows[i] == WithId(fmt, out[i])
  {
    var key := seq(|out|, i requires 0 <= i < |out| => out[i].externalId);
    for i := 0 to |out|
      invariant |key| == |out|
      invariant forall k :: 0 <= k < i ==> key[k] == KeyOf(fmt, out[k])
      invariant forall k :: i <= k < |out| ==> key[k] == out[k].externalId
    {
      if key[i] == "" {
        key := key[i := CompositeKey(fmt, out[i].date, out[i].description, out[i].amount, Bank)];
      }
    }
    rows := [];
    for i := 0 to |out|
      invariant |rows| == i
      invariant forall k :: 0 <= k < i ==> rows[k] == WithId(fmt, out[k])
    {
      rows := rows + [out[i].(txId := TxId(fmt, key[i]))];
    }
  }

  /** `import_nubank_ofx`: parse, reject an empty statement, coerce, drop, key and hash. */
  method Import(text: string, fileName: string, fmt: KeyFormat) returns (res: Result<seq<Txn>, ImportError>)
    ensures res == ImportSpec(text, fileName, fmt)
  {
    var raws := ParseOfx(text);
    if raws == [] {
      return Failure(EmptyStatement);
    }
    var cs := CoerceColumns(raws);
    var out := DropNa(cs, Bank, fileName);
    var rows := AssignIds(out, fmt);
    assert rows == Canonical(raws, fileName, fmt);
    return Success(rows);
  }

  /**
   * The import followed by this importer's own `append_to_ledger`; a failed
   * import leaves the ledger untouched.
   */
  method ImportInto(ledger: LedgerFile, text: string, fileName: string, fmt: KeyFormat) returns (res: Result<seq<Txn>, ImportError>)
    modifies ledger
    ensures res == ImportSpec(text, fileName, fmt)
    ensures res.Failure? ==> ledger.rows == old(ledger.rows)
    ensures res.Success? ==> ledger.rows == Some(MergeAsWritten(old(ledger.rows), res.value))
  {
    res := Import(text, fileName, fmt);
    if res.Success? {
      AppendAsWritten(ledger, res.value);
    }
  }

  /** The import fails exactly when no start tag of the statement is followed by an end tag. */
  lemma ImportFailsIff(text: string, fileName: string, fmt: KeyFormat)
    ensures ImportSpec(text, fileName, fmt).Failure? <==> NoPairFrom(text, 0)
  {
    NoBlocksIff(text);
  }

  /** A row survives exactly when its date and its amount coerce, and then carries them, the stripped memo and the stripped FITID. */
  lemma StageOf(raw: RawRow, fileName: string)
    ensures Survives(CoerceRow(raw)) <==> CoerceDate(raw.dtposted).Some? && CoerceAmount(raw.trnamt).Some?
    ensures Survives(CoerceRow(raw)) ==>
      var t := Stage(CoerceRow(raw), Bank, fileName).value;
      |raw.dtposted| >= 8 && raw.dtposted[..8] == Stamp(t.date) &&
      CoerceAmount(raw.trnamt) == Some(t.amount) &&
      t.description == Strip(raw.memo) && t.externalId == Strip(raw.fitid)
  {
  }

  /** FITID is the key exactly when it is not blank; the composite key is never written back. */
  lemma KeyIsReferenceIff(fmt: KeyFormat, raw: RawRow, fileName: string)
    requires Survives(CoerceRow(raw))
    ensures var t := WithId(fmt, Stage(CoerceRow(raw), Bank, fileName).value);
      t.externalId == Strip(raw.fitid) &&
      (KeyOf(fmt, t) == t.externalId <==> Strip(raw.fitid) != "") &&
      (Strip(raw.fitid) == "" ==> KeyOf(fmt, t) == CompositeKey(fmt, t.date, t.description, t.amount, Bank))
  {
    var t := WithId(fmt, Stage(CoerceRow(raw), Bank, fileName).value);
    if t.externalId == "" {
      assert |KeyOf(fmt, t)| >= 3 + |Bank|;
    }
  }

  /** Rows with the same key get the same `tx_id`, wherever and whenever they are imported. */
  lemma SameKeySameTxId(fmt: KeyFormat, s: Txn, t: Txn)
    requires KeyOf(fmt, s) == KeyOf(fmt, t)
    ensures WithId(fmt, s).txId == WithId(fmt, t).txId
  {
  }

  /*
   * The merge as this importer's `append_to_ledger` writes it: the ledger
   * file is read back with no dtype, so a `tx_id` column of digit strings
   * comes back as numbers, while the new rows carry strings. A number never
   * equals a string, so `drop_duplicates` never matches an old row with a
   * new one.
   */

  /** A `tx_id` cell after `read_csv`: a number when the whole column parses as integers, else text. */
  datatype IdCell = Num(n: nat) | Str(s: string)

  /**
   * `read_csv` infers an integer column exactly when every cell is a non-empty
   * digit string whose value fits the unsigned 64-bit range.
   */
  predicate NumericColumn(rows: seq<Txn>) {
    forall i :: 0 <= i < |rows| ==>
      rows[i].txId != [] && AllDigits(rows[i].txId) && DigitsValue(rows[i].txId) < 0x1_0000_0000_0000_0000
  }

  /** The `tx_id` cells of the ledger file as read back. */
  function ReadIdCells(rows: seq<Txn>): (cells: seq<IdCell>)
    ensures |cells| == |rows|
    ensures NumericColumn(rows) ==> forall i :: 0 <= i < |rows| ==> cells[i] == Num(DigitsValue(rows[i].txId))
    ensures !NumericColumn(rows) ==> forall i :: 0 <= i < |rows| ==> cells[i] == Str(rows[i].txId)
  {
    if NumericColumn(rows) then seq(|rows|, i requires 0 <= i < |rows| => Num(DigitsValue(rows[i].txId)))
    else seq(|rows|, i requires 0 <= i < |rows| => Str(rows[i].txId))
  }

  /** The `tx_id` cells of the new rows, which are strings. */
  function StrCells(rows: seq<Txn>): (cells: seq<IdCell>)
    ensures |cells| == |rows| && forall i :: 0 <= i < |rows| ==> cells[i] == Str(rows[i].txId)
  {
    seq(|rows|, i requires 0 <= i < |rows| => Str(rows[i].txId))
  }

  /** `drop_duplicates(keep="first")` on a column of cells; the rows may be the cells themselves. */
  function KeepFirstCells<T>(rows: seq<T>, cells: seq<IdCell>, seen: set<IdCell>): (kept: seq<T>)
    requires |cells| == |rows|
    ensures |kept| <= |rows|
    ensures rows != [] && cells[0] !in seen ==> kept != [] && kept[0] == rows[0]
  {
    if rows == [] then []
    else if cells[0] in seen then KeepFirstCells(rows[1..], cells[1..], seen)
    else [rows[0]] + KeepFirstCells(rows[1..], cells[1..], seen + {cells[0]})
  }

  /** `append_to_ledger` of the Nubank importer, as written. */
  function MergeAsWritten(existing: Option<seq<Txn>>, batch: seq<Txn>): (merged: seq<Txn>)
    ensures |merged| <= |Contents(existing)| + |batch|
    ensures Contents(existing) != [] ==> merged != [] && merged[0] == Contents(existing)[0]
  {
    match existing
    case None => KeepFirst(batch)
    case Some(prior) => KeepFirstCells(prior + batch, ReadIdCells(prior) + StrCells(batch), {})
  }

  function CellSet(cells: seq<IdCell>): set<IdCell> {
    set c | c in cells
  }

  /** Keep-first on cells of a concatenation: the first part, then the second part against the first part's cells. */
  lemma {:induction false} KeepFirstCellsAppend<T>(a: seq<T>, b: seq<T>, ca: seq<IdCell>, cb: seq<IdCell>, seen: set<IdCell>)
    requires |ca| == |a| && |cb| == |b|
    ensures KeepFirstCells(a + b, ca + cb, seen) == KeepFirstCells(a, ca, seen) + KeepFirstCells(b, cb, seen + CellSet(ca))
    decreases |a|
  {
    if a == [] {
      assert a + b == b && ca + cb == cb;
      assert seen + CellSet(ca) == seen;
    } else {
      assert (a + b)[0] == a[0] && (a + b)[1..] == a[1..] + b;
      assert (ca + cb)[0] == ca[0] && (ca + cb)[1..] == ca[1..] + cb;
      assert ca == [ca[0]] + ca[1..];
      assert CellSet(ca) == {ca[0]} + CellSet(ca[1..]);
      if ca[0] in seen {
        KeepFirstCellsAppend(a[1..], b, ca[1..], cb, seen);
        assert seen + CellSet(ca[1..]) == seen + CellSet(ca);
      } else {
        KeepFirstCellsAppend(a[1..], b, ca[1..], cb, seen + {ca[0]});
        assert seen + {ca[0]} + CellSet(ca[1..]) == seen + CellSet(ca);
      }
    }
  }

  /**
   * Reference definition of keep-first on cells: walking from the end, a row
   * stays exactly when its cell was not seen and no earlier row has that cell.
   */
  function FirstCellOccurrences(rows: seq<Txn>, cells: seq<IdCell>, seen: set<IdCell>): seq<Txn>
    requires |cells| == |rows|
  {
    if rows == [] then []
    else
      var n := |rows| - 1;
      FirstCellOccurrences(rows[..n], cells[..n], seen) +
        (if cells[n] in seen || cells[n] in cells[..n] then [] else [rows[n]])
  }

  /** The dedup on cells keeps each row whose cell occurs first there, and no other. */
  lemma {:induction false} KeepFirstCellsIsFirstOccurrences(rows: seq<Txn>, cells: seq<IdCell>, seen: set<IdCell>)
    requires |cells| == |rows|
    ensures KeepFirstCells(rows, cells, seen) == FirstCellOccurrences(rows, cells, seen)
    decreases |rows|
  {
    if rows != [] {
      var n := |rows| - 1;
      assert rows == rows[..n] + [rows[n]];
      assert cells == cells[..n] + [cells[n]];
      KeepFirstCellsAppend(rows[..n], [rows[n]], cells[..n], [cells[n]], seen);
      KeepFirstCellsIsFirstOccurrences(rows[..n], cells[..n], seen);
      assert cells[n] in CellSet(cells[..n]) <==> cells[n] in cells[..n];
    }
  }

  /** The cells that survive are pairwise distinct, and they are exactly the cells not seen before. */
  lemma {:induction false} KeptCellsDistinct(cells: seq<IdCell>, seen: set<IdCell>)
    ensures var kept := KeepFirstCells(cells, cells, seen);
      (forall i, j :: 0 <= i < j < |kept| ==> kept[i] != kept[j]) &&
      CellSet(kept) == CellSet(cells) - seen
    decreases |cells|
  {
    if cells != [] {
      var rest := cells[1..];
      assert cells == [cells[0]] + rest;
      assert CellSet(cells) == {cells[0]} + CellSet(rest);
      if cells[0] in seen {
        KeptCellsDistinct(rest, seen);
      } else {
        var s' := seen + {cells[0]};
        KeptCellsDistinct(rest, s');
        var tail := KeepFirstCells(rest, rest, s');
        var kept := [cells[0]] + tail;
        assert CellSet(kept) == {cells[0]} + CellSet(tail);
        forall i, j | 0 <= i < j < |kept| ensures kept[i] != kept[j] {
          assert kept[j] == tail[j - 1] && kept[j] in CellSet(tail);
          if i > 0 {
            assert kept[i] == tail[i - 1];
          }
        }
      }
    }
  }

  function StrSet(ids: set<string>): set<IdCell> {
    set id | id in ids :: Str(id)
  }

  /** On string cells, keep-first on the cells is keep-first on the `tx_id`s. */
  lemma {:induction false} KeepFirstCellsOfStrings(rows: seq<Txn>, seenCells: set<IdCell>, seen: set<string>)
    requires forall id :: Str(id) in seenCells <==> id in seen
    ensures KeepFirstCells(rows, StrCells(rows), seenCells) == KeepFirstFrom(rows, seen)
    decreases |rows|
  {
    if rows != [] {
      var cells := StrCells(rows);
      assert cells[0] == Str(rows[0].txId);
      assert cells[1..] == StrCells(rows[1..]);
      if rows[0].txId in seen {
        KeepFirstCellsOfStrings(rows[1..], seenCells, seen);
      } else {
        KeepFirstCellsOfStrings(rows[1..], seenCells + {cells[0]}, seen + {rows[0].txId});
      }
    }
  }

  /**
   * When the stored `tx_id`s read back as strings, the merge as written is
   * the string-keyed merge.
   */
  lemma MergeAsWrittenOfStrings(existing: Option<seq<Txn>>, batch: seq<Txn>)
    requires existing.Some? ==> !NumericColumn(existing.value)
    ensures MergeAsWritten(existing, batch) == Merge(existing, batch)
  {
    if existing.Some? {
      var prior := existing.value;
      assert ReadIdCells(prior) + StrCells(batch) == StrCells(prior + batch);
      KeepFirstCellsOfStrings(prior + batch, {}, {});
    }
  }

  /** Old rows come first; a new row survives only when no old cell and no earlier new row has its cell. */
  lemma MergeAsWrittenOldFirst(prior: seq<Txn>, batch: seq<Txn>)
    ensures MergeAsWritten(Some(prior), batch) ==
      KeepFirstCells(prior, ReadIdCells(prior), {}) + KeepFirstCells(batch, StrCells(batch), CellSet(ReadIdCells(prior)))
  {
    KeepFirstCellsAppend(prior, batch, ReadIdCells(prior), StrCells(batch), {});
    assert {} + CellSet(ReadIdCells(prior)) == CellSet(ReadIdCells(prior));
  }

  /**
   * When the stored ids read back as numbers, no new row is ever recognised
   * as old: the batch is only deduplicated against itself.
   */
  lemma MergeAsWrittenOfNumbers(prior: seq<Txn>, batch: seq<Txn>)
    requires NumericColumn(prior)
    ensures MergeAsWritten(Some(prior), batch) == KeepFirstCells(prior, ReadIdCells(prior), {}) + KeepFirst(batch)
  {
    MergeAsWrittenOldFirst(prior, batch);
    var cells := ReadIdCells(prior);
    forall id ensures Str(id) !in CellSet(cells) {
    }
    KeepFirstCellsOfStrings(batch, CellSet(cells), {});
  }

  /** The dedup loop over the cells as read: one pass with a set of cells already kept. */
  method DedupCells(rows: seq<Txn>, cells: seq<IdCell>) returns (kept: seq<Txn>)
    requires |cells| == |rows|
    ensures kept == KeepFirstCells(rows, cells, {})
  {
    var seen: set<IdCell> := {};
    kept := [];
    for i := 0 to |rows|
      invariant kept + KeepFirstCells(rows[i..], cells[i..], seen) == KeepFirstCells(rows, cells, {})
    {
      assert rows[i..][0] == rows[i] && rows[i..][1..] == rows[i + 1..];
      assert cells[i..][0] == cells[i] && cells[i..][1..] == cells[i + 1..];
      if cells[i] !in seen {
        kept := kept + [rows[i]];
        seen := seen + {cells[i]};
      }
    }
    assert rows[|rows|..] == [];
  }

  /** `append_to_ledger` of the Nubank importer: read back, concatenate, dedup on the cells, write. */
  method AppendAsWritten(ledger: LedgerFile, batch: seq<Txn>)
    modifies ledger
    ensures ledger.rows == Some(MergeAsWritten(old(ledger.rows), batch))
  {
    var kept;
    match ledger.rows {
      case None =>
        kept := Dedup(batch);
      case Some(prior) =>
        kept := DedupCells(prior + batch, ReadIdCells(prior) + StrCells(batch));
    }
    ledger.rows := Some(kept);
  }

  /** A `tx_id` in the form `str(uint64)` gives: digits without a leading zero, below 2^64. */
  predicate IsDecimalId(id: string) {
    id != [] && AllDigits(id) && id == DecimalString(DigitsValue(id)) && DigitsValue(id) < 0x1_0000_0000_0000_0000
  }

  lemma TxIdIsDecimal(fmt: KeyFormat, key: string)
    ensures IsDecimalId(TxId(fmt, key))
  {
  }

  /** Distinct decimal ids are read back as distinct numbers. */
  lemma DecimalIdsDistinct(a: string, b: string)
    requires IsDecimalId(a) && IsDecimalId(b) && a != b
    ensures DigitsValue(a) != DigitsValue(b)
  {
  }

  /** Cells that are pairwise distinct and not yet seen are all kept. */
  lemma {:induction false} KeepFirstCellsOfDistinct(rows: seq<Txn>, cells: seq<IdCell>, seen: set<IdCell>)
    requires |cells| == |rows|
    requires forall i, j :: 0 <= i < j < |cells| ==> cells[i] != cells[j]
    requires forall i :: 0 <= i < |cells| ==> cells[i] !in seen
    ensures KeepFirstCells(rows, cells, seen) == rows
    decreases |rows|
  {
    if rows != [] {
      var rest, restCells := rows[1..], cells[1..];
      forall i | 0 <= i < |restCells| ensures restCells[i] !in seen + {cells[0]} {
        assert restCells[i] == cells[i + 1];
      }
      forall i, j | 0 <= i < j < |restCells| ensures restCells[i] != restCells[j] {
        assert restCells[i] == cells[i + 1] && restCells[j] == cells[j + 1];
      }
      KeepFirstCellsOfDistinct(rest, restCells, seen + {cells[0]});
      assert rows == [rows[0]] + rest;
    }
  }

  /** A ledger's numeric cells followed by the same rows' string cells are pairwise distinct. */
  lemma ReimportCellsDistinct(rows: seq<Txn>)
    requires UniqueIds(rows)
    requires forall i :: 0 <= i < |rows| ==> IsDecimalId(rows[i].txId)
    ensures var cells := ReadIdCells(rows) + StrCells(rows);
      forall i, j :: 0 <= i < j < |cells| ==> cells[i] != cells[j]
  {
    var cells := ReadIdCells(rows) + StrCells(rows);
    assert NumericColumn(rows);
    forall i, j | 0 <= i < j < |cells| ensures cells[i] != cells[j] {
      if j < |rows| {
        DecimalIdsDistinct(rows[i].txId, rows[j].txId);
      } else if i >= |rows| {
        assert cells[i] == Str(rows[i - |rows|].txId) && cells[j] == Str(rows[j - |rows|].txId);
      }
    }
  }

  /**
   * Re-importing a statement whose rows are already in the ledger duplicates
   * every row as written, where the string-keyed merge leaves the ledger as it
   * was.
   */
  lemma ReimportDuplicates(rows: seq<Txn>)
    requires UniqueIds(rows)
    requires forall i :: 0 <= i < |rows| ==> IsDecimalId(rows[i].txId)
    ensures MergeAsWritten(Some(rows), rows) == rows + rows
    ensures Merge(Some(rows), rows) == rows
  {
    ReimportCellsDistinct(rows);
    KeepFirstCellsOfDistinct(rows + rows, ReadIdCells(rows) + StrCells(rows), {});
    MergeKeepsExisting(rows, rows);
    KeepFirstFromAllSeen(rows, IdSet(rows));
    assert rows + [] == rows;
  }
}
