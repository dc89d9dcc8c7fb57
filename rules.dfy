/**
 * Rule compilation and application: priorities are coerced and sorted, each
 * rule is tried in priority order, and a rule only categorises transactions
 * whose category is still a default, so the first matching rule decides a
 * transaction once and for all.
 */
module Rules {
  import opened Wrappers
  import opened Text
  import opened Coerce
  import opened Ledger

  /** A cell of the rule table: its column is absent, it is empty (NaN), or it holds text. */
  datatype Cell = Missing | Blank | Text(s: string)

  /** One row of the rule table as read. */
  datatype RuleRow = RuleRow(pattern: Cell, priority: Cell, category: Cell, subcategory: Cell, typeHint: Cell)

  /** The rule table; the `pattern` and `priority` columns are the ones `load_rules` indexes directly. */
  datatype RuleTable = RuleTable(hasPattern: bool, hasPriority: bool, rows: seq<RuleRow>)

  /** A compiled rule: an integer priority and the pattern text; the other cells are read when applied. */
  datatype Rule = Rule(priority: int, pattern: string, category: Cell, subcategory: Cell, typeHint: Cell)

  datatype ConfigError = MissingColumn(name: string) | BadPattern

  const DefaultPriority := 9999
  const Uncategorized := "Uncategorized"

  /** `astype(int)` of a decimal: truncation toward zero. */
  function Truncate(d: Decimal): (n: int)
    ensures d.mantissa >= 0 ==> 0 <= n && n * Pow10(d.scale) <= d.mantissa < (n + 1) * Pow10(d.scale)
    ensures d.mantissa < 0 ==> n <= 0 && -n * Pow10(d.scale) <= -d.mantissa < (-n + 1) * Pow10(d.scale)
  {
    var p := Pow10(d.scale);
    if d.mantissa >= 0 then
      DivMod(d.mantissa, p);
      d.mantissa / p
    else
      DivMod(-d.mantissa, p);
      -((-d.mantissa) / p)
  }

  /**
   * `astype(int)` to int64 from an integer column: a value of the unsigned
   * 64-bit range at or above 2^63 (a `uint64` column) wraps around to a
   * negative one. Values outside both ranges are kept as they are.
   */
  function ToInt64(n: int): (m: int)
    ensures m % 0x1_0000_0000_0000_0000 == n % 0x1_0000_0000_0000_0000
    ensures -0x8000_0000_0000_0000 <= n < 0x1_0000_0000_0000_0000 ==> -0x8000_0000_0000_0000 <= m < 0x8000_0000_0000_0000
    ensures -0x8000_0000_0000_0000 <= n < 0x8000_0000_0000_0000 ==> m == n
  {
    if 0x8000_0000_0000_0000 <= n < 0x1_0000_0000_0000_0000 then n - 0x1_0000_0000_0000_0000 else n
  }

  /** `to_numeric(errors="coerce").fillna(9999).astype(int)` on one cell. */
  function PriorityOf(c: Cell): (p: int)
    ensures p == DefaultPriority || (c.Text? && CoerceAmount(c.s).Some?)
  {
    match c
    case Text(s) =>
      (match CoerceAmount(s)
       case Some(d) => ToInt64(Truncate(d))
       case None => DefaultPriority)
    case _ => DefaultPriority
  }

  /** An empty cell and a cell that is not a number both get the default priority. */
  lemma PriorityOfDefault(c: Cell)
    requires c.Blank? || c.Missing? || (c.Text? && CoerceAmount(c.s).None?)
    ensures PriorityOf(c) == DefaultPriority
  {
  }

  /** An integer written in the table is its own priority, in the range float64 holds exactly. */
  lemma PriorityOfInteger(n: int)
    requires -0x20_0000_0000_0000 < n < 0x20_0000_0000_0000
    ensures PriorityOf(Text(FormatDecimal(Decimal(n, 0)))) == n
  {
    CoerceAmountOfFormat(Decimal(n, 0));
    assert Pow10(0) == 1;
  }

  /** A priority from 2^63 up to 2^64 wraps around to a negative one, so that rule sorts before the others. */
  lemma PriorityOfUnsignedWraps(n: int)
    requires 0x8000_0000_0000_0000 <= n < 0x1_0000_0000_0000_0000
    ensures PriorityOf(Text(FormatDecimal(Decimal(n, 0)))) == n - 0x1_0000_0000_0000_0000 < 0
  {
    CoerceAmountOfFormat(Decimal(n, 0));
    assert Pow10(0) == 1;
  }

  /** `astype(str)` of the pattern cell: an empty cell becomes the text `nan`. */
  function PatternText(c: Cell): string {
    match c
    case Text(s) => s
    case Blank => "nan"
    case Missing => ""
  }

  function LoadRow(row: RuleRow): Rule {
    Rule(PriorityOf(row.priority), PatternText(row.pattern), row.category, row.subcategory, row.typeHint)
  }

  function LoadRows(rows: seq<RuleRow>): (rules: seq<Rule>)
    ensures |rules| == |rows|
  {
    seq(|rows|, i requires 0 <= i < |rows| => LoadRow(rows[i]))
  }

  predicate SortedByPriority(rules: seq<Rule>) {
    forall i, j :: 0 <= i < j < |rules| ==> rules[i].priority <= rules[j].priority
  }

  /** Inserts `r` before the first rule of a strictly larger priority. */
  function Insert(r: Rule, rules: seq<Rule>): (out: seq<Rule>)
    ensures multiset(out) == multiset(rules) + multiset{r}
  {
    if rules == [] then [r]
    else if r.priority < rules[0].priority then [r] + rules
    else
      assert rules == [rules[0]] + rules[1..];
      [rules[0]] + Insert(r, rules[1..])
  }

  /** Inserting into a sorted list keeps it sorted. */
  lemma {:induction false} InsertSorted(r: Rule, rules: seq<Rule>)
    requires SortedByPriority(rules)
    ensures SortedByPriority(Insert(r, rules))
  {
    if rules != [] && r.priority >= rules[0].priority {
      var rest := Insert(r, rules[1..]);
      InsertSorted(r, rules[1..]);
      forall k | 0 <= k < |rest| ensures rules[0].priority <= rest[k].priority {
        assert rest[k] in multiset(rules[1..]) + multiset{r};
        if rest[k] != r {
          assert rest[k] in rules[1..];
        }
      }
    }
  }

  /** `sort_values("priority")`: ascending priority, same rules. */
  function SortByPriority(rules: seq<Rule>): (out: seq<Rule>)
    ensures SortedByPriority(out)
    ensures multiset(out) == multiset(rules)
  {
    if rules == [] then []
    else
      assert rules == [rules[0]] + rules[1..];
      InsertSorted(rules[0], SortByPriority(rules[1..]));
      Insert(rules[0], SortByPriority(rules[1..]))
  }

  predicate AllCompile(rules: seq<Rule>, compiles: string -> bool) {
    forall i :: 0 <= i < |rules| ==> compiles(rules[i].pattern)
  }

  /**
   * `load_rules`: coerce priorities, sort ascending, compile every pattern
   * case-insensitively; `compiles` says whether `re.compile` accepts a pattern.
   */
  function LoadRules(table: RuleTable, compiles: string -> bool): (r: Result<seq<Rule>, ConfigError>)
    ensures r.Success? ==> SortedByPriority(r.value) && multiset(r.value) == multiset(LoadRows(table.rows))
    ensures r.Success? ==> AllCompile(r.value, compiles)
    ensures r.Failure? <==>
      !table.hasPriority || !table.hasPattern ||
      exists i :: 0 <= i < |table.rows| && !compiles(PatternText(table.rows[i].pattern))
  {
    if !table.hasPriority then Failure(MissingColumn("priority"))
    else if !table.hasPattern then Failure(MissingColumn("pattern"))
    else
      var loaded := LoadRows(table.rows);
      var rules := SortByPriority(loaded);
      SortedCompileIff(loaded, rules, compiles);
      LoadedCompileIff(table.rows, compiles);
      if AllCompile(rules, compiles) then Success(rules) else Failure(BadPattern)
  }

  lemma LoadedCompileIff(rows: seq<RuleRow>, compiles: string -> bool)
    ensures AllCompile(LoadRows(rows), compiles) <==> forall i :: 0 <= i < |rows| ==> compiles(PatternText(rows[i].pattern))
  {
    var loaded := LoadRows(rows);
    assert forall i :: 0 <= i < |rows| ==> loaded[i].pattern == PatternText(rows[i].pattern);
  }

  lemma SortedCompileIff(loaded: seq<Rule>, rules: seq<Rule>, compiles: string -> bool)
    requires multiset(rules) == multiset(loaded)
    ensures AllCompile(rules, compiles) <==> AllCompile(loaded, compiles)
  {
    if !AllCompile(loaded, compiles) {
      var i :| 0 <= i < |loaded| && !compiles(loaded[i].pattern);
      assert loaded[i] in multiset(rules);
    }
    if !AllCompile(rules, compiles) {
      var i :| 0 <= i < |rules| && !compiles(rules[i].pattern);
      assert rules[i] in multiset(loaded);
    }
  }

  /**
   * How a rule cell is read. `AsWritten` is `str(cell)` as `apply_rules` does
   * it: an empty cell is NaN and reads as `nan`. `Intended` reads an empty
   * cell as the empty text, so that a blank category skips the rule and a
   * blank subcategory falls back to the category.
   */
  datatype CellReading = AsWritten | Intended

  /** `str(r.get(col, ""))`: an absent column is "", an empty cell depends on the reading. */
  function CellText(how: CellReading, c: Cell): string {
    match c
    case Text(s) => s
    case Blank => if how == AsWritten then "nan" else ""
    case Missing => ""
  }

  /** The stripped category a rule assigns; blank means the rule is skipped. */
  function Category(how: CellReading, r: Rule): string {
    Strip(CellText(how, r.category))
  }

  /** The subcategory a rule assigns: its own when not blank, else its category. */
  function Subcategory(how: CellReading, r: Rule): string {
    var sub := Strip(CellText(how, r.subcategory));
    if sub != "" then sub else Category(how, r)
  }

  /** The type a hint names, when it names one of the four types. */
  function HintType(hint: string): (k: Option<TxType>)
    ensures k == Some(Expense) <==> hint == "expense"
    ensures k == Some(Income) <==> hint == "income"
    ensures k == Some(Transfer) <==> hint == "transfer"
    ensures k == Some(Investment) <==> hint == "investment"
  {
    if hint == "expense" then Some(Expense)
    else if hint == "income" then Some(Income)
    else if hint == "transfer" then Some(Transfer)
    else if hint == "investment" then Some(Investment)
    else None
  }

  /** The stripped, lower-cased type hint of a rule. */
  function Hint(how: CellReading, r: Rule): string {
    Lower(Strip(CellText(how, r.typeHint)))
  }

  predicate Applicable(how: CellReading, r: Rule) {
    Category(how, r) != ""
  }

  /** A transaction may be categorised while its category is `Uncategorized`, empty or missing. */
  predicate Eligible(category: Option<string>): (open: bool)
    ensures category == Some(Uncategorized) ==> open
    ensures category.Some? && category.value != "" && category.value != Uncategorized ==> !open
  {
    category.None? || category.value == Uncategorized || category.value == ""
  }

  /** The rule applies to the transaction: not skipped, its pattern found in the description, still eligible. */
  predicate Fires(how: CellReading, t: Txn, r: Rule, matches: (string, string) -> bool) {
    Applicable(how, r) && matches(r.pattern, t.description) && Eligible(t.category)
  }

  /** What a firing rule writes: category, subcategory, and the type when the hint names one. */
  function Assign(how: CellReading, t: Txn, r: Rule): Txn {
    t.(category := Some(Category(how, r)), subcategory := Some(Subcategory(how, r)),
       kind := match HintType(Hint(how, r)) case Some(k) => k case None => t.kind)
  }

  function Update(how: CellReading, t: Txn, r: Rule, matches: (string, string) -> bool): (u: Txn)
    ensures u.(category := t.category, subcategory := t.subcategory, kind := t.kind) == t
    ensures u != t ==> Applicable(how, r) && matches(r.pattern, t.description) && Eligible(t.category)
  {
    if Fires(how, t, r, matches) then Assign(how, t, r) else t
  }

  /** The rules tried on one transaction, in order. */
  function Run(how: CellReading, t: Txn, rules: seq<Rule>, matches: (string, string) -> bool): (u: Txn)
    ensures !Eligible(t.category) ==> u == t
    decreases |rules|
  {
    if rules == [] then t else Run(how, Update(how, t, rules[0], matches), rules[1..], matches)
  }

  /** The ledger frame `apply_rules` receives: rows, and whether the two category columns exist. */
  datatype Frame = Frame(rows: seq<Txn>, hasCategory: bool, hasSubcategory: bool)

  /** A missing category or subcategory column is created filled with `Uncategorized`. */
  function WithDefaults(frame: Frame): (rows: seq<Txn>)
    ensures |rows| == |frame.rows|
  {
    seq(|frame.rows|, i requires 0 <= i < |frame.rows| =>
      frame.rows[i].(
        category := if frame.hasCategory then frame.rows[i].category else Some(Uncategorized),
        subcategory := if frame.hasSubcategory then frame.rows[i].subcategory else Some(Uncategorized)))
  }

  /**
   * The defaulting step only touches a missing column, and a row it fills
   * is left open to every rule.
   */
  lemma DefaultsFill(frame: Frame)
    ensures var rows := WithDefaults(frame);
      forall i :: 0 <= i < |rows| ==>
        rows[i].(category := frame.rows[i].category, subcategory := frame.rows[i].subcategory) == frame.rows[i] &&
        (frame.hasCategory ==> rows[i].category == frame.rows[i].category) &&
        (frame.hasSubcategory ==> rows[i].subcategory == frame.rows[i].subcategory) &&
        (!frame.hasCategory ==> rows[i].category == Some(Uncategorized) && Eligible(rows[i].category)) &&
        (!frame.hasSubcategory ==> rows[i].subcategory == Some(Uncategorized))
  {
  }

  /** The frame `apply_rules` returns: every row run through the rules. */
  function ApplySpec(how: CellReading, frame: Frame, rules: seq<Rule>, matches: (string, string) -> bool): (rows: seq<Txn>)
    ensures |rows| == |frame.rows|
  {
    var start := WithDefaults(frame);
    seq(|start|, i requires 0 <= i < |start| => Run(how, start[i], rules, matches))
  }

  /** Trying one more rule after a sequence of rules. */
  lemma {:induction false} RunSnoc(how: CellReading, t: Txn, rules: seq<Rule>, r: Rule, matches: (string, string) -> bool)
    ensures Run(how, t, rules + [r], matches) == Update(how, Run(how, t, rules, matches), r, matches)
    decreases |rules|
  {
    if rules == [] {
      assert [] + [r] == [r];
      assert [r][1..] == [];
    } else {
      assert (rules + [r])[1..] == rules[1..] + [r];
      RunSnoc(how, Update(how, t, rules[0], matches), rules[1..], r, matches);
    }
  }

  /** `df.copy()` and the default columns. */
  method CopyWithDefaults(frame: Frame) returns (df: seq<Txn>)
    ensures df == WithDefaults(frame)
  {
    df := frame.rows;
    if !frame.hasCategory {
      df := seq(|df|, i requires 0 <= i < |df| => df[i].(category := Some(Uncategorized)));
    }
    if !frame.hasSubcategory {
      df := seq(|df|, i requires 0 <= i < |df| => df[i].(subcategory := Some(Uncategorized)));
    }
  }

  /**
   * One iteration of the rule loop: read the cells with `str()`, skip a rule
   * whose category is blank, else compute the mask of matching, still-eligible
   * rows and write category, subcategory and, for a known hint, type into
   * those rows.
   */
  method ApplyRule(df: seq<Txn>, desc: seq<string>, r: Rule, matches: (string, string) -> bool) returns (out: seq<Txn>)
    requires |desc| == |df| && forall i :: 0 <= i < |df| ==> desc[i] == df[i].description
    ensures |out| == |df|
    ensures forall i :: 0 <= i < |df| ==> out[i] == Update(AsWritten, df[i], r, matches)
  {
    var cat := Strip(CellText(AsWritten, r.category));
    var sub := Strip(CellText(AsWritten, r.subcategory));
    var hint := Lower(Strip(CellText(AsWritten, r.typeHint)));
    out := df;
    if cat == "" {
      return;
    }
    var m := seq(|df|, i requires 0 <= i < |df| => matches(r.pattern, desc[i]) && Eligible(df[i].category));
    for i := 0 to |df|
      invariant |out| == |df|
      invariant forall k :: 0 <= k < i ==> out[k] == Update(AsWritten, df[k], r, matches)
      invariant forall k :: i <= k < |df| ==> out[k] == df[k]
    {
      if m[i] {
        out := out[i := out[i].(category := Some(cat), subcategory := Some(if sub != "" then sub else cat))];
        if hint == "expense" || hint == "income" || hint == "transfer" || hint == "investment" {
          out := out[i := out[i].(kind := HintType(hint).value)];
        }
      }
    }
  }

  /** `apply_rules`: the rules in order, each over the whole frame. */
  method ApplyRules(frame: Frame, rules: seq<Rule>, matches: (string, string) -> bool) returns (df: seq<Txn>)
    ensures df == ApplySpec(AsWritten, frame, rules, matches)
  {
    df := CopyWithDefaults(frame);
    ghost var start := df;
    var desc := seq(|df|, i requires 0 <= i < |df| => df[i].description);
    for j := 0 to |rules|
      invariant |df| == |start| == |desc|
      invariant forall i :: 0 <= i < |df| ==> df[i] == Run(AsWritten, start[i], rules[..j], matches)
      invariant forall i :: 0 <= i < |df| ==> desc[i] == df[i].description
    {
      df := ApplyRule(df, desc, rules[j], matches);
      assert rules[..j + 1] == rules[..j] + [rules[j]];
      forall i | 0 <= i < |df| ensures df[i] == Run(AsWritten, start[i], rules[..j + 1], matches) {
        RunSnoc(AsWritten, start[i], rules[..j], rules[j], matches);
      }
    }
    assert rules[..|rules|] == rules;
  }

  /** Nothing but category, subcategory and type ever changes. */
  lemma {:induction false} RunKeepsOtherFields(how: CellReading, t: Txn, rules: seq<Rule>, matches: (string, string) -> bool)
    ensures Run(how, t, rules, matches).(category := t.category, subcategory := t.subcategory, kind := t.kind) == t
    decreases |rules|
  {
    if rules != [] {
      RunKeepsOtherFields(how, Update(how, t, rules[0], matches), rules[1..], matches);
    }
  }

  /** A transaction no rule applies to keeps its default category and its sign-derived type. */
  lemma {:induction false} RunNoMatch(how: CellReading, t: Txn, rules: seq<Rule>, matches: (string, string) -> bool)
    requires forall j :: 0 <= j < |rules| ==> !(Applicable(how, rules[j]) && matches(rules[j].pattern, t.description))
    ensures Run(how, t, rules, matches) == t
    decreases |rules|
  {
    if rules != [] {
      assert !(Applicable(how, rules[0]) && matches(rules[0].pattern, t.description));
      RunNoMatch(how, t, rules[1..], matches);
    }
  }

  /**
   * First match wins: when the `k`-th rule is the first that applies to an
   * eligible transaction and its category is not `Uncategorized` itself, the
   * transaction ends up exactly as that rule writes it.
   */
  lemma {:induction false} FirstMatchWins(how: CellReading, t: Txn, rules: seq<Rule>, k: nat, matches: (string, string) -> bool)
    requires k < |rules| && Eligible(t.category)
    requires Applicable(how, rules[k]) && matches(rules[k].pattern, t.description)
    requires Category(how, rules[k]) != Uncategorized
    requires forall j :: 0 <= j < k ==> !(Applicable(how, rules[j]) && matches(rules[j].pattern, t.description))
    ensures Run(how, t, rules, matches) == Assign(how, t, rules[k])
    decreases k
  {
    if k == 0 {
      var a := Assign(how, t, rules[0]);
      assert Update(how, t, rules[0], matches) == a;
      assert !Eligible(a.category);
      assert Run(how, a, rules[1..], matches) == a;
    } else {
      assert Update(how, t, rules[0], matches) == t;
      NoMatchTail(how, t, rules, k, matches);
      FirstMatchWins(how, t, rules[1..], k - 1, matches);
    }
  }

  lemma NoMatchTail(how: CellReading, t: Txn, rules: seq<Rule>, k: nat, matches: (string, string) -> bool)
    requires 0 < k <= |rules|
    requires forall j :: 0 <= j < k ==> !(Applicable(how, rules[j]) && matches(rules[j].pattern, t.description))
    ensures forall j :: 0 <= j < k - 1 ==> !(Applicable(how, rules[1..][j]) && matches(rules[1..][j].pattern, t.description))
  {
    forall j | 0 <= j < k - 1
      ensures !(Applicable(how, rules[1..][j]) && matches(rules[1..][j].pattern, t.description))
    {
      assert rules[1..][j] == rules[j + 1];
    }
  }

  /** Running the rules on a row with a different type either keeps the result or only carries that type along. */
  lemma {:induction false} RunIgnoresKind(how: CellReading, t: Txn, k: TxType, rules: seq<Rule>, matches: (string, string) -> bool)
    ensures Run(how, t.(kind := k), rules, matches) == Run(how, t, rules, matches) ||
            Run(how, t.(kind := k), rules, matches) == Run(how, t, rules, matches).(kind := k)
    decreases |rules|
  {
    if rules != [] {
      var r := rules[0];
      var u := Update(how, t, r, matches);
      if Fires(how, t, r, matches) && HintType(Hint(how, r)).Some? {
        assert Update(how, t.(kind := k), r, matches) == u;
      } else {
        assert Update(how, t.(kind := k), r, matches) == u.(kind := k);
        RunIgnoresKind(how, u, k, rules[1..], matches);
      }
    }
  }

  /** Applying the rules twice is applying them once. */
  lemma {:induction false} RunIdempotent(how: CellReading, t: Txn, rules: seq<Rule>, matches: (string, string) -> bool)
    ensures Run(how, Run(how, t, rules, matches), rules, matches) == Run(how, t, rules, matches)
    decreases |rules|
  {
    if rules != [] {
      var r, rest := rules[0], rules[1..];
      var u := Run(how, t, rules, matches);
      var t1 := Update(how, t, r, matches);
      assert u == Run(how, t1, rest, matches);
      RunIdempotent(how, t1, rest, matches);
      RunKeepsOtherFields(how, t1, rest, matches);
      RunKeepsOtherFields(how, t, [r], matches);
      if !Eligible(u.category) {
        assert Run(how, u, rules, matches) == u;
      } else if Fires(how, u, r, matches) {
        assert Fires(how, t, r, matches) && t1 == Assign(how, t, r);
        var a := Assign(how, t, r);
        if HintType(Hint(how, r)).Some? {
          assert Assign(how, u, r) == a;
        } else {
          assert Assign(how, u, r) == a.(kind := u.kind);
          RunIgnoresKind(how, a, u.kind, rest, matches);
        }
      } else {
        if Eligible(t.category) {
          assert !Fires(how, t, r, matches);
        }
        assert t1 == t;
      }
    }
  }

  /** Re-running `apply_rules` on its own output changes nothing. */
  lemma ApplyIdempotent(how: CellReading, frame: Frame, rules: seq<Rule>, matches: (string, string) -> bool)
    ensures var once := ApplySpec(how, frame, rules, matches);
      ApplySpec(how, Frame(once, true, true), rules, matches) == once
  {
    var once := ApplySpec(how, frame, rules, matches);
    var start := WithDefaults(frame);
    forall i | 0 <= i < |once| ensures Run(how, once[i], rules, matches) == once[i] {
      RunIdempotent(how, start[i], rules, matches);
    }
  }

  /** Rows, their order and every field but category, subcategory and type survive `apply_rules`. */
  lemma ApplyKeepsRows(how: CellReading, frame: Frame, rules: seq<Rule>, matches: (string, string) -> bool)
    ensures var out := ApplySpec(how, frame, rules, matches);
      |out| == |frame.rows| &&
      forall i :: 0 <= i < |out| ==>
        out[i].(category := frame.rows[i].category, subcategory := frame.rows[i].subcategory, kind := frame.rows[i].kind) == frame.rows[i]
  {
    var start := WithDefaults(frame);
    forall i | 0 <= i < |start|
      ensures Run(how, start[i], rules, matches).(category := start[i].category, subcategory := start[i].subcategory, kind := start[i].kind) == start[i]
    {
      RunKeepsOtherFields(how, start[i], rules, matches);
    }
  }

  /** Of two rules matching the same uncategorised description, the one sorted first decides it. */
  lemma PriorityWins(how: CellReading, t: Txn, r1: Rule, r2: Rule, matches: (string, string) -> bool)
    requires Eligible(t.category) && Applicable(how, r1) && Category(how, r1) != Uncategorized
    requires matches(r1.pattern, t.description) && matches(r2.pattern, t.description)
    requires r1.priority < r2.priority
    ensures var sorted := SortByPriority([r2, r1]);
      sorted == [r1, r2] && Run(how, t, sorted, matches) == Assign(how, t, r1)
  {
    var sorted := SortByPriority([r2, r1]);
    assert [r2, r1][1..] == [r1];
    assert SortByPriority([r1]) == Insert(r1, SortByPriority([])) == [r1];
    assert sorted == Insert(r2, [r1]) == [r1] + Insert(r2, []) == [r1, r2];
    FirstMatchWins(how, t, sorted, 0, matches);
  }

  lemma ExampleCells(how: CellReading, r: Rule)
    requires r.category == Text("Transport") && r.subcategory == Blank && r.typeHint == Blank
    ensures Category(how, r) == "Transport"
    ensures Subcategory(how, r) == (if how == AsWritten then "nan" else "Transport")
    ensures HintType(Hint(how, r)).None?
  {
    assert Strip("") == "";
    assert Strip("nan") == "nan";
    assert Strip("Transport") == "Transport";
    assert Lower("nan") == "nan";
  }

  /**
   * Example, as written: rule `UBER`, priority 1, category `Transport`, empty
   * subcategory and type hint, on `UBER TRIP 123` sets the category to
   * `Transport` and the subcategory to `nan`, and leaves the type alone.
   */
  lemma UberAsWritten(t: Txn, matches: (string, string) -> bool)
    requires t.description == "UBER TRIP 123" && Eligible(t.category)
    requires matches("UBER", "UBER TRIP 123")
    ensures var r := Rule(1, "UBER", Text("Transport"), Blank, Blank);
      Run(AsWritten, t, [r], matches) == t.(category := Some("Transport"), subcategory := Some("nan"))
  {
    ExampleCells(AsWritten, Rule(1, "UBER", Text("Transport"), Blank, Blank));
  }

  /** The same example read as intended: the subcategory falls back to `Transport`. */
  lemma UberExample(t: Txn, matches: (string, string) -> bool)
    requires t.description == "UBER TRIP 123" && Eligible(t.category)
    requires matches("UBER", "UBER TRIP 123")
    ensures var r := Rule(1, "UBER", Text("Transport"), Blank, Blank);
      Run(Intended, t, [r], matches) == t.(category := Some("Transport"), subcategory := Some("Transport"))
  {
    ExampleCells(Intended, Rule(1, "UBER", Text("Transport"), Blank, Blank));
  }

  /**
   * An empty category cell is applied as written, assigning the category
   * `nan`, where the intended reading skips the rule; an empty subcategory
   * cell gives `nan` where the intended reading falls back to the category.
   */
  lemma BlankCellsAsWritten(r: Rule)
    ensures r.category == Blank ==>
      Category(AsWritten, r) == "nan" && Applicable(AsWritten, r) && !Applicable(Intended, r)
    ensures r.subcategory == Blank ==>
      Subcategory(AsWritten, r) == "nan" && Subcategory(Intended, r) == Category(Intended, r)
  {
    assert Strip("nan") == "nan";
    assert Strip("") == "";
  }
}
