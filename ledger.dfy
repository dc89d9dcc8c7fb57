/**
 * The canonical transaction record, its identity (`tx_id`), and the ledger
 * merge of `append_to_ledger`: prior rows followed by the new batch,
 * deduplicated by `tx_id` keeping the first occurrence.
 */
module Ledger {
  import opened Wrappers
  import opened Text
  import opened Coerce

  /** The four transaction types; the importers only produce the first two. */
  datatype TxType = Expense | Income | Transfer | Investment

  /** One ledger row. `category`/`subcategory` are `None` where the cell is missing. */
  datatype Txn = Txn(
    date: Date,
    description: string,
    amount: Decimal,
    source: string,
    externalId: string,
    fileName: string,
    kind: TxType,
    txId: string,
    category: Option<string>,
    subcategory: Option<string>)

  /** Type from sign: negative amounts are expenses, everything else (zero included) is income. */
  function KindOf(amount: Decimal): (k: TxType)
    ensures k == Expense <==> amount.mantissa < 0
    ensures k == Income <==> amount.mantissa >= 0
  {
    if amount.mantissa < 0 then Expense else Income
  }

  /** An unsigned 64-bit value, the range of `hash_pandas_object(...).astype("uint64")`. */
  type U64 = n: nat | n < 0x1_0000_0000_0000_0000

  /**
   * The pieces of the identity derivation that the model takes as given:
   * `str(Timestamp)`, `str(float)` and the 64-bit hash of a key string.
   */
  datatype KeyFormat = KeyFormat(date: Date -> string, amount: Decimal -> string, hash: string -> U64)

  /** `tx_id`: the decimal string of the key's 64-bit hash. */
  function TxId(fmt: KeyFormat, key: string): (id: string)
    ensures id != [] && AllDigits(id) && (|id| > 1 ==> id[0] != '0')
    ensures DigitsValue(id) == fmt.hash(key)
  {
    DecimalString(fmt.hash(key))
  }

  /** Two keys get the same `tx_id` exactly when their hashes agree; in particular equal keys agree. */
  lemma TxIdSameIff(fmt: KeyFormat, k1: string, k2: string)
    ensures TxId(fmt, k1) == TxId(fmt, k2) <==> fmt.hash(k1) == fmt.hash(k2)
  {
    if TxId(fmt, k1) == TxId(fmt, k2) {
      assert DigitsValue(TxId(fmt, k1)) == DigitsValue(TxId(fmt, k2));
    }
  }

  /** The fallback key `date|description|amount|<bank>`. */
  function CompositeKey(fmt: KeyFormat, date: Date, description: string, amount: Decimal, bank: string): (key: string)
    ensures |key| >= 3 + |bank| && key[|key| - |bank| - 1 ..] == "|" + bank
  {
    fmt.date(date) + "|" + description + "|" + fmt.amount(amount) + "|" + bank
  }

  function IdSet(rows: seq<Txn>): set<string> {
    set t | t in rows :: t.txId
  }

  /** No two rows share a `tx_id`. */
  ghost predicate UniqueIds(rows: seq<Txn>) {
    forall i, j :: 0 <= i < j < |rows| ==> rows[i].txId != rows[j].txId
  }

  /** Dedup from the front, skipping every row whose `tx_id` is in `seen` or was kept earlier. */
  function KeepFirstFrom(rows: seq<Txn>, seen: set<string>): (kept: seq<Txn>)
    ensures |kept| <= |rows|
    ensures forall t :: t in kept ==> t in rows && t.txId !in seen
  {
    if rows == [] then []
    else if rows[0].txId in seen then KeepFirstFrom(rows[1..], seen)
    else [rows[0]] + KeepFirstFrom(rows[1..], seen + {rows[0].txId})
  }

  /** `drop_duplicates(subset=["tx_id"], keep="first")`. */
  function KeepFirst(rows: seq<Txn>): (kept: seq<Txn>)
    ensures |kept| <= |rows|
    ensures rows != [] ==> kept != [] && kept[0] == rows[0]
  {
    KeepFirstFrom(rows, {})
  }

  /**
   * Reference definition of keep-first: walking from the end, a row stays
   * exactly when no earlier row has its `tx_id`.
   */
  function FirstOccurrences(rows: seq<Txn>): seq<Txn> {
    if rows == [] then []
    else
      var init := rows[..|rows| - 1];
      FirstOccurrences(init) + (if rows[|rows| - 1].txId in IdSet(init) then [] else [rows[|rows| - 1]])
  }

  lemma IdSetAppend(a: seq<Txn>, b: seq<Txn>)
    ensures IdSet(a + b) == IdSet(a) + IdSet(b)
  {
    forall id | id in IdSet(a + b) ensures id in IdSet(a) + IdSet(b) {
      var t :| t in a + b && t.txId == id;
      assert t in a || t in b;
    }
    forall id | id in IdSet(a) + IdSet(b) ensures id in IdSet(a + b) {
      if id in IdSet(a) {
        var t :| t in a && t.txId == id;
        assert t in a + b;
      } else {
        var t :| t in b && t.txId == id;
        assert t in a + b;
      }
    }
  }

  lemma IdSetCons(a: seq<Txn>)
    requires a != []
    ensures IdSet(a) == {a[0].txId} + IdSet(a[1..])
  {
    IdSetAppend([a[0]], a[1..]);
    assert [a[0]] + a[1..] == a;
  }

  lemma {:induction false} KeepFirstFromAppend(a: seq<Txn>, b: seq<Txn>, seen: set<string>)
    ensures KeepFirstFrom(a + b, seen) == KeepFirstFrom(a, seen) + KeepFirstFrom(b, seen + IdSet(a))
    decreases |a|
  {
    if a == [] {
      assert a + b == b;
      assert seen + IdSet(a) == seen;
    } else {
      var x, r := a[0], a[1..];
      assert (a + b)[0] == x && (a + b)[1..] == r + b;
      IdSetCons(a);
      if x.txId in seen {
        KeepFirstFromAppend(r, b, seen);
        assert seen + IdSet(r) == seen + IdSet(a);
      } else {
        var s' := seen + {x.txId};
        KeepFirstFromAppend(r, b, s');
        assert s' + IdSet(r) == seen + IdSet(a);
        calc {
          KeepFirstFrom(a + b, seen);
          [x] + KeepFirstFrom(r + b, s');
          [x] + (KeepFirstFrom(r, s') + KeepFirstFrom(b, seen + IdSet(a)));
          ([x] + KeepFirstFrom(r, s')) + KeepFirstFrom(b, seen + IdSet(a));
        }
      }
    }
  }

  /** The loop-free dedup agrees with the reference definition of keep-first. */
  lemma {:induction false} KeepFirstIsFirstOccurrences(rows: seq<Txn>)
    ensures KeepFirst(rows) == FirstOccurrences(rows)
    decreases |rows|
  {
    if rows != [] {
      var init := rows[..|rows| - 1];
      var last := rows[|rows| - 1];
      assert rows == init + [last];
      KeepFirstFromAppend(init, [last], {});
      KeepFirstIsFirstOccurrences(init);
      assert {} + IdSet(init) == IdSet(init);
      assert [last][1..] == [];
    }
  }

  /** What keep-first keeps: unique ids, none of them already seen, and every unseen id of the input. */
  lemma {:induction false} KeepFirstFromIds(rows: seq<Txn>, seen: set<string>)
    ensures UniqueIds(KeepFirstFrom(rows, seen))
    ensures IdSet(KeepFirstFrom(rows, seen)) == IdSet(rows) - seen
    decreases |rows|
  {
    if rows != [] {
      var rest := rows[1..];
      assert rows == [rows[0]] + rest;
      IdSetAppend([rows[0]], rest);
      if rows[0].txId in seen {
        KeepFirstFromIds(rest, seen);
      } else {
        var s' := seen + {rows[0].txId};
        KeepFirstFromIds(rest, s');
        var tail := KeepFirstFrom(rest, s');
        var kept := [rows[0]] + tail;
        IdSetAppend([rows[0]], tail);
        forall i, j | 0 <= i < j < |kept| ensures kept[i].txId != kept[j].txId {
          assert kept[j] == tail[j - 1];
          if i > 0 {
            assert kept[i] == tail[i - 1];
          }
        }
      }
    }
  }

  /** Rows with unique, unseen ids pass through unchanged. */
  lemma {:induction false} KeepFirstFromOfUnique(rows: seq<Txn>, seen: set<string>)
    requires UniqueIds(rows) && IdSet(rows) !! seen
    ensures KeepFirstFrom(rows, seen) == rows
    decreases |rows|
  {
    if rows != [] {
      var rest := rows[1..];
      assert rows == [rows[0]] + rest;
      IdSetAppend([rows[0]], rest);
      assert rows[0].txId !in seen;
      forall t | t in rest ensures t.txId != rows[0].txId {
        var j :| 0 <= j < |rest| && rest[j] == t;
        assert rows[j + 1] == t;
      }
      KeepFirstFromOfUnique(rest, seen + {rows[0].txId});
    }
  }

  /** Rows whose ids were all seen contribute nothing. */
  lemma {:induction false} KeepFirstFromAllSeen(rows: seq<Txn>, seen: set<string>)
    requires IdSet(rows) <= seen
    ensures KeepFirstFrom(rows, seen) == []
    decreases |rows|
  {
    if rows != [] {
      assert rows[0] in rows;
      assert IdSet(rows[1..]) <= IdSet(rows);
      KeepFirstFromAllSeen(rows[1..], seen);
    }
  }

  /** The merged ledger: prior rows (when the ledger exists) followed by the batch, keep-first by `tx_id`. */
  function Merge(existing: Option<seq<Txn>>, batch: seq<Txn>): (merged: seq<Txn>)
    ensures |merged| <= |Contents(existing)| + |batch|
    ensures Contents(existing) != [] ==> merged != [] && merged[0] == Contents(existing)[0]
  {
    match existing
    case None => KeepFirst(batch)
    case Some(prior) => KeepFirst(prior + batch)
  }

  function Contents(existing: Option<seq<Txn>>): seq<Txn> {
    if existing.Some? then existing.value else []
  }

  /** Old rows come first; a new row survives only when no prior row (and no earlier new row) has its id. */
  lemma MergeOldFirst(prior: seq<Txn>, batch: seq<Txn>)
    ensures Merge(Some(prior), batch) == KeepFirst(prior) + KeepFirstFrom(batch, IdSet(prior))
  {
    KeepFirstFromAppend(prior, batch, {});
    assert {} + IdSet(prior) == IdSet(prior);
  }

  /** An existing ledger with unique ids is kept verbatim: existing rows always win. */
  lemma MergeKeepsExisting(prior: seq<Txn>, batch: seq<Txn>)
    requires UniqueIds(prior)
    ensures Merge(Some(prior), batch) == prior + KeepFirstFrom(batch, IdSet(prior))
  {
    MergeOldFirst(prior, batch);
    KeepFirstFromOfUnique(prior, {});
  }

  /** The merged ledger has unique ids, and exactly the ids of the prior rows and the batch. */
  lemma MergeIds(existing: Option<seq<Txn>>, batch: seq<Txn>)
    ensures UniqueIds(Merge(existing, batch))
    ensures IdSet(Merge(existing, batch)) == IdSet(Contents(existing)) + IdSet(batch)
  {
    var all := Contents(existing) + batch;
    assert existing.None? ==> all == batch;
    KeepFirstFromIds(all, {});
    IdSetAppend(Contents(existing), batch);
  }

  /** Merging the same batch a second time changes nothing. */
  lemma MergeIdempotent(existing: Option<seq<Txn>>, batch: seq<Txn>)
    ensures Merge(Some(Merge(existing, batch)), batch) == Merge(existing, batch)
  {
    var m := Merge(existing, batch);
    MergeIds(existing, batch);
    MergeKeepsExisting(m, batch);
    KeepFirstFromAllSeen(batch, IdSet(m));
    assert m + [] == m;
  }

  /** The dedup loop of `append_to_ledger`: one pass with a set of ids already kept. */
  method Dedup(rows: seq<Txn>) returns (kept: seq<Txn>)
    ensures kept == KeepFirst(rows)
  {
    var seen: set<string> := {};
    kept := [];
    for i := 0 to |rows|
      invariant kept + KeepFirstFrom(rows[i..], seen) == KeepFirst(rows)
    {
      assert rows[i..][0] == rows[i] && rows[i..][1..] == rows[i + 1..];
      if rows[i].txId !in seen {
        kept := kept + [rows[i]];
        seen := seen + {rows[i].txId};
      }
    }
    assert rows[|rows|..] == [];
  }

  /** The ledger file: absent (`None`) until the first import writes it. */
  class LedgerFile {
    var rows: Option<seq<Txn>>

    constructor(existing: Option<seq<Txn>>)
      ensures rows == existing
    {
      rows := existing;
    }

    /** `append_to_ledger`: concatenate, dedup keep-first, write back. */
    method Append(batch: seq<Txn>)
      modifies this
      ensures rows == Some(Merge(old(rows), batch))
    {
      var combined := Contents(rows) + batch;
      assert rows.None? ==> combined == batch;
      var kept := Dedup(combined);
      rows := Some(kept);
    }
  }
}
