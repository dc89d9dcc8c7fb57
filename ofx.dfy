/**
 * The lenient OFX 1.x (SGML) reader shared by both importers: it finds the
 * `<STMTTRN>...</STMTTRN>` statement-transaction aggregates the way
 * `re.findall(r"<STMTTRN>(.*?)</STMTTRN>", text, re.S | re.I)` does, and reads
 * a leaf element the way `re.search(r"<TAG>([^\r\n<]+)", block, re.I)` does.
 *
 * Patterns are written in lower case and compared against the lower-cased
 * text, which is exactly ASCII-case-insensitive matching (the text is
 * Latin-1, where only `A`-`Z` fold onto ASCII letters).
 */
module Ofx {
  import opened Wrappers
  import opened Text

  const Open := "<stmttrn>"
  const Close := "</stmttrn>"

  /** `text[i + j ..]` agrees with the lower-case pattern `pat[j ..]` up to case, as far as `pat` goes. */
  predicate AgreeFrom(text: string, i: nat, pat: string, j: nat)
    decreases |pat| - j
  {
    j >= |pat| || (i + j < |text| && LowerChar(text[i + j]) == pat[j] && AgreeFrom(text, i, pat, j + 1))
  }

  /** The lower-case pattern `pat` occurs at index `i` of `text`, ignoring case. */
  predicate MatchesAt(text: string, i: nat, pat: string) {
    i + |pat| <= |text| && AgreeFrom(text, i, pat, 0)
  }

  /** No occurrence of `pat` starts in `[lo, hi)`. */
  ghost predicate NoneBetween(text: string, pat: string, lo: nat, hi: nat) {
    forall k :: lo <= k < hi ==> !MatchesAt(text, k, pat)
  }

  /** No occurrence of `pat` starts at or after `lo`. */
  ghost predicate NoneFrom(text: string, pat: string, lo: nat) {
    forall k :: lo <= k ==> !MatchesAt(text, k, pat)
  }

  /** The leftmost case-insensitive occurrence of `pat` at or after `from`. */
  function FindFrom(text: string, pat: string, from: nat): (r: Option<nat>)
    ensures r.Some? ==> from <= r.value && r.value + |pat| <= |text|
    decreases |text| - from
  {
    if from + |pat| > |text| then None
    else if MatchesAt(text, from, pat) then Some(from)
    else FindFrom(text, pat, from + 1)
  }

  /** `FindFrom` finds the leftmost occurrence, and finds nothing only when there is none. */
  lemma {:induction false} FindFromLeftmost(text: string, pat: string, from: nat)
    ensures FindFrom(text, pat, from).Some? ==>
      MatchesAt(text, FindFrom(text, pat, from).value, pat) && NoneBetween(text, pat, from, FindFrom(text, pat, from).value)
    ensures FindFrom(text, pat, from).None? ==> NoneFrom(text, pat, from)
    decreases |text| - from
  {
    if from + |pat| <= |text| && !MatchesAt(text, from, pat) {
      FindFromLeftmost(text, pat, from + 1);
    }
  }

  /** Where one aggregate's start tag and end tag begin. */
  datatype Span = Span(open: nat, close: nat)

  predicate Framed(text: string, sp: Span) {
    MatchesAt(text, sp.open, Open) && sp.open + |Open| <= sp.close && MatchesAt(text, sp.close, Close)
  }

  /** No start tag at or after `from` is followed by an end tag. */
  ghost predicate NoPairFrom(text: string, from: nat) {
    forall o: nat, c: nat :: from <= o && o + |Open| <= c && MatchesAt(text, o, Open) ==> !MatchesAt(text, c, Close)
  }

  /**
   * One step of `findall` from index `from`: the first start tag, and the
   * first end tag after it; nothing when either is missing.
   */
  function NextSpan(text: string, from: nat): (r: Option<Span>)
    ensures r.Some? ==> from <= r.value.open && r.value.open + |Open| <= r.value.close
    ensures r.Some? ==> r.value.close + |Close| <= |text|
  {
    match FindFrom(text, Open, from)
    case None => None
    case Some(o) =>
      match FindFrom(text, Close, o + |Open|)
      case None => None
      case Some(c) => Some(Span(o, c))
  }

  /** A step that finds an aggregate takes the first start tag and the first end tag after it. */
  lemma NextSpanFound(text: string, from: nat, sp: Span)
    requires NextSpan(text, from) == Some(sp)
    ensures Framed(text, sp)
    ensures NoneBetween(text, Open, from, sp.open)
    ensures NoneBetween(text, Close, sp.open + |Open|, sp.close)
  {
    FindFromLeftmost(text, Open, from);
    FindFromLeftmost(text, Close, sp.open + |Open|);
  }

  /** A step finds nothing only when no start tag at or after `from` is followed by an end tag. */
  lemma NextSpanNone(text: string, from: nat)
    requires NextSpan(text, from).None?
    ensures NoPairFrom(text, from)
  {
    FindFromLeftmost(text, Open, from);
    match FindFrom(text, Open, from)
    case None =>
    case Some(o) =>
      FindFromLeftmost(text, Close, o + |Open|);
      forall o': nat, c: nat | from <= o' && o' + |Open| <= c && MatchesAt(text, o', Open)
        ensures !MatchesAt(text, c, Close)
      {
        assert o <= o';
      }
  }

  /**
   * `findall` from index `from`: take the first start tag; if no end tag
   * follows it, stop; otherwise the aggregate ends at the first end tag after
   * it and the scan resumes right after that end tag.
   */
  function Scan(text: string, from: nat): (spans: seq<Span>)
    ensures forall i :: 0 <= i < |spans| ==> from <= spans[i].open && spans[i].open + |Open| <= spans[i].close
    ensures forall i :: 0 <= i < |spans| ==> spans[i].close + |Close| <= |text|
    decreases |text| - from
  {
    match NextSpan(text, from)
    case None => []
    case Some(sp) => [sp] + Scan(text, sp.close + |Close|)
  }

  /** Where the scan restarts before looking for aggregate `i`. */
  function Resume(spans: seq<Span>, i: nat, from: nat): nat
    requires i <= |spans|
  {
    if i == 0 then from else spans[i - 1].close + |Close|
  }

  /** The text of each aggregate, between its start and end tags, in file order. */
  function Blocks(text: string): (blocks: seq<string>)
    ensures |blocks| == |Scan(text, 0)|
    ensures forall i :: 0 <= i < |blocks| ==> |Open| + |blocks[i]| + |Close| <= |text|
  {
    var spans := Scan(text, 0);
    seq(|spans|, i requires 0 <= i < |spans| => text[spans[i].open + |Open| .. spans[i].close])
  }

  /** Every aggregate is bracketed by a start tag and an end tag. */
  ghost predicate AllFramed(text: string, spans: seq<Span>) {
    forall i :: 0 <= i < |spans| ==> Framed(text, spans[i])
  }

  /** Aggregates come in file order and never overlap. */
  ghost predicate InFileOrder(spans: seq<Span>) {
    forall i, j :: 0 <= i < j < |spans| ==> spans[i].close + |Close| <= spans[j].open
  }

  /** Each aggregate ends at the first end tag after its start tag. */
  ghost predicate EndsAtFirstClose(text: string, spans: seq<Span>) {
    forall i :: 0 <= i < |spans| ==> NoneBetween(text, Close, spans[i].open + |Open|, spans[i].close)
  }

  /** No start tag is skipped between where the scan resumes and the next aggregate. */
  ghost predicate NoSkippedOpen(text: string, spans: seq<Span>, from: nat) {
    forall i :: 0 <= i < |spans| ==> NoneBetween(text, Open, Resume(spans, i, from), spans[i].open)
  }

  /** Position right after the last aggregate (or `from` when there is none). */
  function ScanEnd(spans: seq<Span>, from: nat): nat {
    if spans == [] then from else spans[|spans| - 1].close + |Close|
  }

  /** After the last aggregate no start tag is followed by an end tag. */
  ghost predicate NothingAfter(text: string, spans: seq<Span>, from: nat) {
    NoPairFrom(text, ScanEnd(spans, from))
  }

  lemma ScanStep(text: string, from: nat, sp: Span)
    requires NextSpan(text, from) == Some(sp)
    ensures Scan(text, from) == [sp] + Scan(text, sp.close + |Close|)
  {
  }

  lemma FramedCons(text: string, sp: Span, rest: seq<Span>, spans: seq<Span>)
    requires spans == [sp] + rest
    requires Framed(text, sp) && AllFramed(text, rest)
    ensures AllFramed(text, spans)
  {
    forall i | 0 <= i < |spans| ensures Framed(text, spans[i]) {
      if i > 0 {
        assert spans[i] == rest[i - 1];
      }
    }
  }

  lemma OrderedCons(sp: Span, rest: seq<Span>, next: nat, spans: seq<Span>)
    requires next == sp.close + |Close| && spans == [sp] + rest
    requires InFileOrder(rest)
    requires forall j :: 0 <= j < |rest| ==> next <= rest[j].open
    ensures InFileOrder(spans)
  {
    forall i, j | 0 <= i < j < |spans| ensures spans[i].close + |Close| <= spans[j].open {
      assert spans[j] == rest[j - 1];
      if i > 0 {
        assert spans[i] == rest[i - 1];
      }
    }
  }

  lemma EndsCons(text: string, sp: Span, rest: seq<Span>, spans: seq<Span>)
    requires spans == [sp] + rest
    requires NoneBetween(text, Close, sp.open + |Open|, sp.close)
    requires EndsAtFirstClose(text, rest)
    ensures EndsAtFirstClose(text, spans)
  {
    forall i | 0 <= i < |spans| ensures NoneBetween(text, Close, spans[i].open + |Open|, spans[i].close) {
      if i > 0 {
        assert spans[i] == rest[i - 1];
      }
    }
  }

  lemma LeftmostCons(text: string, sp: Span, rest: seq<Span>, from: nat, spans: seq<Span>)
    requires spans == [sp] + rest
    requires NoneBetween(text, Open, from, sp.open)
    requires NoSkippedOpen(text, rest, sp.close + |Close|)
    ensures NoSkippedOpen(text, spans, from)
  {
    forall i | 0 <= i < |spans| ensures NoneBetween(text, Open, Resume(spans, i, from), spans[i].open) {
      if i > 0 {
        assert spans[i] == rest[i - 1];
        assert Resume(spans, i, from) == Resume(rest, i - 1, sp.close + |Close|);
      }
    }
  }

  lemma {:induction false} ScanFramed(text: string, from: nat)
    ensures AllFramed(text, Scan(text, from))
    decreases |text| - from
  {
    var r := NextSpan(text, from);
    if r.Some? {
      var next := r.value.close + |Close|;
      ScanStep(text, from, r.value);
      NextSpanFound(text, from, r.value);
      ScanFramed(text, next);
      FramedCons(text, r.value, Scan(text, next), Scan(text, from));
    }
  }

  lemma {:induction false} ScanOrdered(text: string, from: nat)
    ensures InFileOrder(Scan(text, from))
    decreases |text| - from
  {
    var r := NextSpan(text, from);
    if r.Some? {
      var next := r.value.close + |Close|;
      ScanStep(text, from, r.value);
      ScanOrdered(text, next);
      OrderedCons(r.value, Scan(text, next), next, Scan(text, from));
    }
  }

  lemma {:induction false} ScanEndsAtFirstClose(text: string, from: nat)
    ensures EndsAtFirstClose(text, Scan(text, from))
    decreases |text| - from
  {
    var r := NextSpan(text, from);
    if r.Some? {
      var next := r.value.close + |Close|;
      ScanStep(text, from, r.value);
      NextSpanFound(text, from, r.value);
      ScanEndsAtFirstClose(text, next);
      EndsCons(text, r.value, Scan(text, next), Scan(text, from));
    }
  }

  lemma {:induction false} ScanLeftmost(text: string, from: nat)
    ensures NoSkippedOpen(text, Scan(text, from), from)
    decreases |text| - from
  {
    var r := NextSpan(text, from);
    if r.Some? {
      var next := r.value.close + |Close|;
      ScanStep(text, from, r.value);
      NextSpanFound(text, from, r.value);
      ScanLeftmost(text, next);
      LeftmostCons(text, r.value, Scan(text, next), from, Scan(text, from));
    }
  }

  lemma {:induction false} ScanComplete(text: string, from: nat)
    ensures NothingAfter(text, Scan(text, from), from)
    decreases |text| - from
  {
    var r := NextSpan(text, from);
    if r.None? {
      NextSpanNone(text, from);
    } else {
      var next := r.value.close + |Close|;
      ScanStep(text, from, r.value);
      ScanComplete(text, next);
      assert ScanEnd(Scan(text, from), from) == ScanEnd(Scan(text, next), next);
    }
  }

  /** A statement has no aggregate exactly when no start tag is followed by an end tag. */
  lemma NoBlocksIff(text: string)
    ensures Blocks(text) == [] <==> NoPairFrom(text, 0)
  {
    ScanComplete(text, 0);
    ScanFramed(text, 0);
    if Blocks(text) == [] {
      assert Scan(text, 0) == [];
    } else {
      var sp := Scan(text, 0)[0];
      assert Framed(text, sp);
    }
  }

  lemma {:induction false} AgreeInSlice(text: string, a: nat, b: nat, k: nat, pat: string, j: nat)
    requires a <= b <= |text| && k + |pat| <= b - a
    requires AgreeFrom(text[a..b], k, pat, j)
    ensures AgreeFrom(text, a + k, pat, j)
    decreases |pat| - j
  {
    if j < |pat| {
      assert text[a..b][k + j] == text[a + k + j];
      AgreeInSlice(text, a, b, k, pat, j + 1);
    }
  }

  lemma MatchesInSlice(text: string, a: nat, b: nat, k: nat, pat: string)
    requires a <= b <= |text|
    requires MatchesAt(text[a..b], k, pat)
    ensures MatchesAt(text, a + k, pat) && a + k + |pat| <= b
  {
    AgreeInSlice(text, a, b, k, pat, 0);
  }

  /** No aggregate's text contains an end tag. */
  lemma BlockHasNoClose(text: string, i: nat, k: nat)
    requires i < |Blocks(text)|
    ensures !MatchesAt(Blocks(text)[i], k, Close)
  {
    var spans := Scan(text, 0);
    var a := spans[i].open + |Open|;
    ScanEndsAtFirstClose(text, 0);
    assert NoneBetween(text, Close, a, spans[i].close);
    assert Blocks(text)[i] == text[a .. spans[i].close];
    if MatchesAt(Blocks(text)[i], k, Close) {
      MatchesInSlice(text, a, spans[i].close, k, Close);
      assert false;
    }
  }

  /** The characters a leaf value may not contain: `[^\r\n<]` excludes them. */
  predicate IsStop(c: char) {
    c == '\r' || c == '\n' || c == '<'
  }

  /** `<name>` at `i` followed by at least one value character. */
  predicate TagAt(b: string, i: nat, pat: string) {
    MatchesAt(b, i, pat) && i + |pat| < |b| && !IsStop(b[i + |pat|])
  }

  function FindTag(b: string, pat: string, from: nat): (r: Option<nat>)
    ensures r.Some? ==> from <= r.value && TagAt(b, r.value, pat)
    decreases |b| - from
  {
    if from + |pat| >= |b| then None
    else if TagAt(b, from, pat) then Some(from)
    else FindTag(b, pat, from + 1)
  }

  /** `FindTag` returns the leftmost qualifying occurrence, and nothing only when there is none. */
  lemma {:induction false} FindTagLeftmost(b: string, pat: string, from: nat, i: nat)
    requires from <= i && TagAt(b, i, pat)
    ensures FindTag(b, pat, from).Some? && FindTag(b, pat, from).value <= i
    ensures (forall k :: from <= k < i ==> !TagAt(b, k, pat)) ==> FindTag(b, pat, from) == Some(i)
    decreases i - from
  {
    if from < i && !TagAt(b, from, pat) {
      FindTagLeftmost(b, pat, from + 1, i);
    }
  }

  /** End of the greedy run `[^\r\n<]+` that starts at `j`. */
  function RunEnd(b: string, j: nat): (e: nat)
    requires j <= |b|
    ensures j <= e <= |b|
    ensures forall k :: j <= k < e ==> !IsStop(b[k])
    ensures e == |b| || IsStop(b[e])
    decreases |b| - j
  {
    if j == |b| || IsStop(b[j]) then j else RunEnd(b, j + 1)
  }

  /**
   * `tag(name)` for a lower-case `name`: the stripped value after the first
   * `<name>` (any case) that is followed by a value character, or "" when
   * there is none.
   */
  function Tag(b: string, name: string): (v: string)
    ensures forall k :: 0 <= k < |v| ==> !IsStop(v[k])
    ensures v == [] || (!IsSpace(v[0]) && !IsSpace(v[|v| - 1]))
    ensures (forall k :: !TagAt(b, k, "<" + name + ">")) ==> v == ""
  {
    var pat := "<" + name + ">";
    match FindTag(b, pat, 0)
    case None => ""
    case Some(i) =>
      var run := b[i + |pat| .. RunEnd(b, i + |pat|)];
      assert forall k :: 0 <= k < |run| ==> !IsStop(run[k]);
      Strip(run)
  }

  /** The value is read from the first qualifying `<name>`, up to the end of its line or the next tag. */
  lemma TagReadsFirstOccurrence(b: string, name: string, i: nat)
    requires TagAt(b, i, "<" + name + ">")
    requires forall k :: 0 <= k < i ==> !TagAt(b, k, "<" + name + ">")
    ensures Tag(b, name) == Strip(b[i + |name| + 2 .. RunEnd(b, i + |name| + 2)])
  {
    var pat := "<" + name + ">";
    assert |pat| == |name| + 2;
    FindTagLeftmost(b, pat, 0, i);
  }
}
