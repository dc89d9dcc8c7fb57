/**
 * The part both OFX importers share once the raw rows are read: the coerced
 * columns of a row, `dropna` on date and amount, and the `type` column.
 */
module Canon {
  import opened Wrappers
  import opened Coerce
  import opened Ledger

  /** The columns an importer builds for one row, before `dropna`. */
  datatype Coerced = Coerced(date: Option<Date>, description: string, amount: Option<Decimal>, externalId: string)

  /** A row survives `dropna` exactly when both its date and its amount coerced. */
  predicate Survives(c: Coerced) {
    c.date.Some? && c.amount.Some?
  }

  /** The canonical row before its `tx_id` is assigned; `None` when `dropna` removes it. */
  function Stage(c: Coerced, bank: string, fileName: string): (r: Option<Txn>)
    ensures r.Some? <==> Survives(c)
    ensures r.Some? ==> (r.value.date == c.date.value && r.value.amount == c.amount.value &&
      r.value.description == c.description && r.value.externalId == c.externalId)
    ensures r.Some? ==> (r.value.source == bank && r.value.fileName == fileName &&
      r.value.category.None? && r.value.subcategory.None? && r.value.kind == KindOf(r.value.amount))
  {
    match (c.date, c.amount)
    case (Some(date), Some(amount)) =>
      Some(Txn(date, c.description, amount, bank, c.externalId, fileName, KindOf(amount), "", None, None))
    case _ => None
  }

  /** The surviving canonical rows, in input order. */
  function Staged(cs: seq<Coerced>, bank: string, fileName: string): (rows: seq<Txn>)
    ensures |rows| <= |cs|
  {
    if cs == [] then []
    else
      Staged(cs[..|cs| - 1], bank, fileName) +
        match Stage(cs[|cs| - 1], bank, fileName)
        case None => []
        case Some(t) => [t]
  }

  /** `dropna(subset=["date", "amount"])` followed by the `type` column. */
  method DropNa(cs: seq<Coerced>, bank: string, fileName: string) returns (out: seq<Txn>)
    ensures out == Staged(cs, bank, fileName)
  {
    out := [];
    for i := 0 to |cs|
      invariant out == Staged(cs[..i], bank, fileName)
    {
      assert cs[..i + 1][..i] == cs[..i];
      var c := cs[i];
      if c.date.Some? && c.amount.Some? {
        out := out + [Txn(c.date.value, c.description, c.amount.value, bank, c.externalId, fileName, KindOf(c.amount.value), "", None, None)];
      }
    }
    assert cs[..|cs|] == cs;
  }

  /** Each row is kept or dropped on its own, and the order of rows is kept. */
  lemma {:induction false} StagedAppend(a: seq<Coerced>, b: seq<Coerced>, bank: string, fileName: string)
    ensures Staged(a + b, bank, fileName) == Staged(a, bank, fileName) + Staged(b, bank, fileName)
    decreases |b|
  {
    if b == [] {
      assert a + b == a;
    } else {
      var init := b[..|b| - 1];
      assert (a + b)[..|a + b| - 1] == a + init;
      assert (a + b)[|a + b| - 1] == b[|b| - 1];
      StagedAppend(a, init, bank, fileName);
    }
  }

  /** Every surviving row is a row of this bank and file with no category yet, typed by its sign. */
  lemma {:induction false} StagedRows(cs: seq<Coerced>, bank: string, fileName: string)
    ensures forall t :: t in Staged(cs, bank, fileName) ==>
      t.source == bank && t.fileName == fileName && t.category.None? && t.subcategory.None? &&
      (t.kind == Expense <==> t.amount.mantissa < 0) && (t.kind == Income <==> t.amount.mantissa >= 0) &&
      exists c :: c in cs && Stage(c, bank, fileName) == Some(t)
    decreases |cs|
  {
    if cs != [] {
      var init := cs[..|cs| - 1];
      StagedRows(init, bank, fileName);
      assert forall c :: c in init ==> c in cs;
    }
  }

  /** Nothing survives exactly when no row has both a date and an amount. */
  lemma {:induction false} StagedEmptyIff(cs: seq<Coerced>, bank: string, fileName: string)
    ensures Staged(cs, bank, fileName) == [] <==> forall i :: 0 <= i < |cs| ==> !Survives(cs[i])
    decreases |cs|
  {
    if cs != [] {
      var init := cs[..|cs| - 1];
      StagedEmptyIff(init, bank, fileName);
      assert forall i :: 0 <= i < |init| ==> init[i] == cs[i];
    }
  }

}
