/**
 * The Itaú OFX importer: one raw row per statement-transaction aggregate,
 * canonicalised into ledger rows with an `external_id` that falls back from
 * FITID to `REFNUM|CHECKNUM`, and a `tx_id` hashed from that reference or,
 * when it is blank or degenerate, from a composite key.
 */
module ItauImport {
  import opened Wrappers
  import opened Text
  import opened Ofx
  import opened Coerce
  import opened Ledger
  import opened Canon

  /** The leaf values `_parse_ofx_sgml` collects from one aggregate. */
  datatype RawRow = RawRow(dtposted: string, trnamt: string, memo: string, fitid: string, checknum: string, refnum: string)

  datatype ImportError = EmptyStatement

  const Bank := "itau"

  /** The raw row of one aggregate; MEMO falls back to NAME when it is empty. */
  function RawOf(b: string): (r: RawRow)
    ensures r.memo == "" <==> Tag(b, "memo") == "" && Tag(b, "name") == ""
    ensures Tag(b, "memo") != "" ==> r.memo == Tag(b, "memo")
    ensures Tag(b, "memo") == "" ==> r.memo == Tag(b, "name")
    ensures r.dtposted == Tag(b, "dtposted") && r.trnamt == Tag(b, "trnamt") && r.fitid == Tag(b, "fitid") && r.checknum == Tag(b, "checknum") && r.refnum == Tag(b, "refnum")
  {
    var memo := Tag(b, "memo");
    RawRow(Tag(b, "dtposted"), Tag(b, "trnamt"), if memo != "" then memo else Tag(b, "name"),
           Tag(b, "fitid"), Tag(b, "checknum"), Tag(b, "refnum"))
  }

  /** One raw row per aggregate, in order. */
  function RawRowsOf(blocks: seq<string>): (rows: seq<RawRow>)
    ensures |rows| == |blocks|
  {
    if blocks == [] then [] else RawRowsOf(blocks[..|blocks| - 1]) + [RawOf(blocks[|blocks| - 1])]
  }

  /** The raw rows of a statement, one per aggregate, in file order. */
  function RawRows(text: string): (rows: seq<RawRow>)
    ensures |rows| == |Blocks(text)|
  {
    RawRowsOf(Blocks(text))
  }

  /** The `i`-th raw row is read from the `i`-th aggregate. */
  lemma {:induction false} RawRowsOfIndex(blocks: seq<string>, i: nat)
    requires i < |blocks|
    ensures RawRowsOf(blocks)[i] == RawOf(blocks[i])
    decreases |blocks|
  {
    if i < |blocks| - 1 {
      RawRowsOfIndex(blocks[..|blocks| - 1], i);
    }
  }

  /** Reading one more aggregate appends its raw row. */
  lemma RawRowsOfSnoc(blocks: seq<string>, i: nat)
    requires i < |blocks|
    ensures RawRowsOf(blocks[..i + 1]) == RawRowsOf(blocks[..i]) + [RawOf(blocks[i])]
  {
    assert blocks[..i + 1][..i] == blocks[..i];
  }

  /** `_parse_ofx_sgml`: a loop over the aggregates appending one raw row each. */
  method ParseOfx(text: string) returns (rows: seq<RawRow>)
    ensures rows == RawRows(text)
  {
    var blocks := Blocks(text);
    rows := [];
    for i := 0 to |blocks|
      invariant rows == RawRowsOf(blocks[..i])
    {
      RawRowsOfSnoc(blocks, i);
      rows := rows + [RawOf(blocks[i])];
    }
    assert blocks[..|blocks|] == blocks;
  }

  /** `external_id`: FITID when it is not blank, else `REFNUM|CHECKNUM`. */
  function ExternalId(raw: RawRow): (id: string)
    ensures id != ""
    ensures id == Strip(raw.fitid) || (Strip(raw.fitid) == "" && '|' in id)
  {
    var fitid := Strip(raw.fitid);
    if fitid != "" then fitid else Strip(raw.refnum) + "|" + Strip(raw.checknum)
  }

  /** The coerced columns of one raw row; `None` is the `NaT`/`NaN` of a field that does not coerce. */
  function CoerceRow(raw: RawRow): Coerced {
    Coerced(CoerceDate(raw.dtposted), Strip(raw.memo), CoerceAmount(raw.trnamt), ExternalId(raw))
  }

  function CoerceRows(raws: seq<RawRow>): (cs: seq<Coerced>)
    ensures |cs| == |raws|
  {
    seq(|raws|, i requires 0 <= i < |raws| => CoerceRow(raws[i]))
  }

  /** The hash key: `external_id`, or the composite key when it is `""` or `"|"`. */
  function KeyOf(fmt: KeyFormat, t: Txn): (key: string)
    ensures key != "" && key != "|"
    ensures key == t.externalId || key == CompositeKey(fmt, t.date, t.description, t.amount, Bank)
  {
    if t.externalId == "" || t.externalId == "|" then CompositeKey(fmt, t.date, t.description, t.amount, Bank)
    else t.externalId
  }

  function WithId(fmt: KeyFormat, t: Txn): Txn {
    t.(txId := TxId(fmt, KeyOf(fmt, t)))
  }

  /** The rows `import_itau_ofx` returns for the given raw rows. */
  function Canonical(raws: seq<RawRow>, fileName: string, fmt: KeyFormat): (rows: seq<Txn>)
    ensures |rows| == |Staged(CoerceRows(raws), Bank, fileName)|
  {
    var s := Staged(CoerceRows(raws), Bank, fileName);
    seq(|s|, i requires 0 <= i < |s| => WithId(fmt, s[i]))
  }

  /** `import_itau_ofx`: an error when the statement has no aggregate, else the canonical rows. */
  function ImportSpec(text: string, fileName: string, fmt: KeyFormat): (r: Result<seq<Txn>, ImportError>)
    ensures r.Failure? <==> Blocks(text) == []
    ensures r.Success? ==> |r.value| <= |Blocks(text)|
  {
    var raws := RawRows(text);
    if raws == [] then Failure(EmptyStatement) else Success(Canonical(raws, fileName, fmt))
  }

  /**
   * The column assignments of `import_itau_ofx`: `external_id` is filled from
   * FITID and overwritten in place where blank; date and amount are coerced
   * element-wise.
   */
  method CoerceColumns(raws: seq<RawRow>) returns (cs: seq<Coerced>)
    ensures cs == CoerceRows(raws)
  {
    var ext := seq(|raws|, i requires 0 <= i < |raws| => Strip(raws[i].fitid));
    for i := 0 to |raws|
      invariant |ext| == |raws|
      invariant forall k :: 0 <= k < i ==> ext[k] == ExternalId(raws[k])
      invariant forall k :: i <= k < |raws| ==> ext[k] == Strip(raws[k].fitid)
    {
      if ext[i] == "" {
        ext := ext[i := Strip(raws[i].refnum) + "|" + Strip(raws[i].checknum)];
      }
    }
    var dates := seq(|raws|, i requires 0 <= i < |raws| => CoerceDate(raws[i].dtposted));
    var amounts := seq(|raws|, i requires 0 <= i < |raws| => CoerceAmount(raws[i].trnamt));
    cs := seq(|raws|, i requires 0 <= i < |raws| => Coerced(dates[i], Strip(raws[i].memo), amounts[i], ext[i]));
  }

  /** The key column, overwritten in place where the reference is blank or degenerate, hashed into `tx_id`. */
  method AssignIds(out: seq<Txn>, fmt: KeyFormat) returns (rows: seq<Txn>)
    ensures |rows| == |out|
    ensures forall i :: 0 <= i < |out| ==> rows[i] == WithId(fmt, out[i])
  {
    var key := seq(|out|, i requires 0 <= i < |out| => out[i].externalId);
    for i := 0 to |out|
      invariant |key| == |out|
      invariant forall k :: 0 <= k < i ==> key[k] == KeyOf(fmt, out[k])
      invariant forall k :: i <= k < |out| ==> key[k] == out[k].externalId
    {
      if key[i] == "" || key[i] == "|" {
        key := key[i := CompositeKey(fmt, out[i].date, out[i].description, out[i].amount, Bank)];
      }
    }
    rows := [];
    for i := 0 to |out|
      invariant |rows| == i
      invariant forall k :: 0 <= k < i ==> rows[k] == WithId(fmt, out[k])
    {
      rows := rows + [out[i].(txId := TxId(fmt, key[i]))];
    }
  }

  /** `import_itau_ofx`: parse, reject an empty statement, coerce, drop, key and hash. */
  method Import(text: string, fileName: string, fmt: KeyFormat) returns (res: Result<seq<Txn>, ImportError>)
    ensures res == ImportSpec(text, fileName, fmt)
  {
    var raws := ParseOfx(text);
    if raws == [] {
      return Failure(EmptyStatement);
    }
    var cs := CoerceColumns(raws);
    var out := DropNa(cs, Bank, fileName);
    var rows := AssignIds(out, fmt);
    assert rows == Canonical(raws, fileName, fmt);
    return Success(rows);
  }

  /** The import followed by the ledger merge; a failed import leaves the ledger untouched. */
  method ImportInto(ledger: LedgerFile, text: string, fileName: string, fmt: KeyFormat) returns (res: Result<seq<Txn>, ImportError>)
    modifies ledger
    ensures res == ImportSpec(text, fileName, fmt)
    ensures res.Failure? ==> ledger.rows == old(ledger.rows)
    ensures res.Success? ==> ledger.rows == Some(Merge(old(ledger.rows), res.value))
  {
    res := Import(text, fileName, fmt);
    if res.Success? {
      ledger.Append(res.value);
    }
  }

  /** The import fails exactly when no start tag of the statement is followed by an end tag. */
  lemma ImportFailsIff(text: string, fileName: string, fmt: KeyFormat)
    ensures ImportSpec(text, fileName, fmt).Failure? <==> NoPairFrom(text, 0)
  {
    NoBlocksIff(text);
  }

  /** A row survives exactly when its date and its amount coerce, and then carries them, the stripped memo and the fallback reference. */
  lemma StageOf(raw: RawRow, fileName: string)
    ensures Survives(CoerceRow(raw)) <==> CoerceDate(raw.dtposted).Some? && CoerceAmount(raw.trnamt).Some?
    ensures Survives(CoerceRow(raw)) ==>
      var t := Stage(CoerceRow(raw), Bank, fileName).value;
      |raw.dtposted| >= 8 && raw.dtposted[..8] == Stamp(t.date) &&
      CoerceAmount(raw.trnamt) == Some(t.amount) &&
      t.description == Strip(raw.memo) && t.externalId == ExternalId(raw)
  {
  }

  /** `external_id` is never blank: FITID, or a string containing the `|` separator. */
  lemma ExternalIdNotEmpty(raw: RawRow)
    ensures ExternalId(raw) != ""
  {
    if Strip(raw.fitid) == "" {
      assert |Strip(raw.refnum) + "|" + Strip(raw.checknum)| >= 1;
    }
  }

  /**
   * `external_id` is the degenerate `"|"` exactly when FITID strips to `"|"`
   * or FITID, REFNUM and CHECKNUM are all blank.
   */
  lemma ExternalIdDegenerateIff(raw: RawRow)
    ensures ExternalId(raw) == "|" <==>
      Strip(raw.fitid) == "|" || (Strip(raw.fitid) == "" && Strip(raw.refnum) == "" && Strip(raw.checknum) == "")
  {
    if Strip(raw.fitid) == "" && ExternalId(raw) == "|" {
      assert |Strip(raw.refnum)| + 1 + |Strip(raw.checknum)| == 1;
    }
  }

  /** The reference is the key unless it is degenerate; the composite key is never written back. */
  lemma KeyIsReferenceIff(fmt: KeyFormat, raw: RawRow, fileName: string)
    requires Survives(CoerceRow(raw))
    ensures var t := WithId(fmt, Stage(CoerceRow(raw), Bank, fileName).value);
      t.externalId == ExternalId(raw) &&
      (KeyOf(fmt, t) == t.externalId <==>
        !(Strip(raw.fitid) == "|" || (Strip(raw.fitid) == "" && Strip(raw.refnum) == "" && Strip(raw.checknum) == ""))) &&
      (KeyOf(fmt, t) != t.externalId ==> KeyOf(fmt, t) == CompositeKey(fmt, t.date, t.description, t.amount, Bank))
  {
    ExternalIdNotEmpty(raw);
    ExternalIdDegenerateIff(raw);
    var t := WithId(fmt, Stage(CoerceRow(raw), Bank, fileName).value);
    if t.externalId == "|" {
      assert |KeyOf(fmt, t)| >= 3 + |Bank|;
    }
  }

  /** Rows with the same key get the same `tx_id`, wherever and whenever they are imported. */
  lemma SameKeySameTxId(fmt: KeyFormat, s: Txn, t: Txn)
    requires KeyOf(fmt, s) == KeyOf(fmt, t)
    ensures WithId(fmt, s).txId == WithId(fmt, t).txId
  {
  }

  lemma ExampleFitid(fitid: string)
    requires fitid == "ABC123"
    ensures Strip(fitid) == "ABC123"
  {
  }

  /** Example: a block dated 2024-01-15 of -45.90 with FITID `ABC123` becomes an expense keyed by its FITID. */
  lemma FitidExample(fmt: KeyFormat, raw: RawRow, fileName: string)
    requires raw.dtposted == "20240115120000[-03:EST]" && raw.trnamt == "-45.90" && raw.fitid == "ABC123"
    ensures Survives(CoerceRow(raw))
    ensures var t := WithId(fmt, Stage(CoerceRow(raw), Bank, fileName).value);
      t.date == Date(2024, 1, 15) && t.amount == Decimal(-4590, 2) && t.kind == Expense &&
      t.externalId == "ABC123" && t.txId == TxId(fmt, "ABC123")
  {
    ExampleFitid(raw.fitid);
    CoerceDateExample();
    CoerceAmountExample();
  }

  lemma ExampleReferences(raw: RawRow)
    requires raw.fitid == "" && raw.refnum == "R1" && raw.checknum == "C1"
    ensures ExternalId(raw) == "R1|C1"
  {
    assert Strip(raw.fitid) == "";
    assert Strip(raw.refnum) == "R1";
    assert Strip(raw.checknum) == "C1";
  }

  /** Example: with a blank FITID and references `R1`, `C1` the key material is `R1|C1`. */
  lemma FallbackExample(fmt: KeyFormat, raw: RawRow, fileName: string)
    requires Survives(CoerceRow(raw))
    requires raw.fitid == "" && raw.refnum == "R1" && raw.checknum == "C1"
    ensures var t := WithId(fmt, Stage(CoerceRow(raw), Bank, fileName).value);
      t.externalId == "R1|C1" && KeyOf(fmt, t) == "R1|C1"
  {
    ExampleReferences(raw);
  }
}
