/**
 The two-level page view aggregation: raw rows are grouped per insert block into
 minute states, the inserted minute rows are grouped again into hour rows, and
 background merges combine parts of either table at any time, in any order.
 */
module Aggregation {
  import opened Common

  /** A raw row, reduced to the columns the views read; time is in milliseconds. */
  datatype RawRow = RawRow(time: int, page: string, user: string, duration: nat, bounce: nat)

  /** An ORDER BY key of an aggregate table: a minute or hour number, and a page. */
  datatype Window = Window(start: int, page: string)

  /** The aggregate-function states of a minute row; uniq is taken as exact. */
  datatype MinuteState = MinuteState(views: nat, duration: nat, bounces: nat, users: set<string>)

  /** The summed columns of an hour row. */
  datatype HourRow = HourRow(views: nat, duration: nat, bounces: nat, uniques: nat)

  datatype Entry<V> = Entry(window: Window, val: V)

  type Part<V> = seq<Entry<V>>

  const WORD := 0x1_0000_0000_0000_0000

  /** UInt64 arithmetic. */
  function Wrap(n: nat): nat {
    n % WORD
  }

  function CombineMinute(a: MinuteState, b: MinuteState): MinuteState {
    MinuteState(Wrap(a.views + b.views), Wrap(a.duration + b.duration), Wrap(a.bounces + b.bounces), a.users + b.users)
  }

  function CombineHour(a: HourRow, b: HourRow): HourRow {
    HourRow(Wrap(a.views + b.views), Wrap(a.duration + b.duration), Wrap(a.bounces + b.bounces),
      Wrap(a.uniques + b.uniques))
  }

  /** Adding one entry to a part that holds at most one entry per window. */
  function Upsert<V>(part: Part<V>, e: Entry<V>, combine: (V, V) -> V): (r: Part<V>)
  {
    if part == [] then [e]
    else if part[0].window == e.window then [Entry(e.window, combine(part[0].val, e.val))] + part[1..]
    else [part[0]] + Upsert(part[1..], e, combine)
  }

  /** GROUP BY window, page; also what a background merge does to the entries of two parts. */
  function GroupBy<V>(entries: Part<V>, combine: (V, V) -> V): Part<V> {
    if entries == [] then []
    else Upsert(GroupBy(entries[..|entries| - 1], combine), entries[|entries| - 1], combine)
  }

  /** page_views_raw_to_minute on one row: toStartOfMinute and the initial states. */
  function MinuteEntry(r: RawRow): Entry<MinuteState> {
    Entry(Window(r.time / 60_000, r.page), MinuteState(1, r.duration, r.bounce, {r.user}))
  }

  function MinuteEntries(block: seq<RawRow>): Part<MinuteState> {
    if block == [] then [] else MinuteEntries(block[..|block| - 1]) + [MinuteEntry(block[|block| - 1])]
  }

  function RawToMinute(block: seq<RawRow>): Part<MinuteState> {
    GroupBy(MinuteEntries(block), CombineMinute)
  }

  function HourOf(w: Window): Window {
    Window(w.start / 60, w.page)
  }

  function ToHours(part: Part<MinuteState>): Part<MinuteState> {
    if part == [] then []
    else ToHours(part[..|part| - 1]) + [Entry(HourOf(part[|part| - 1].window), part[|part| - 1].val)]
  }

  function Finish(s: MinuteState): HourRow {
    HourRow(s.views, s.duration, s.bounces, |s.users|)
  }

  function Finished(part: Part<MinuteState>): Part<HourRow> {
    if part == [] then []
    else Finished(part[..|part| - 1]) + [Entry(part[|part| - 1].window, Finish(part[|part| - 1].val))]
  }

  /** page_views_minute_to_hour: toStartOfHour, the -Merge functions, and one row per hour and page. */
  function MinuteToHour(part: Part<MinuteState>): Part<HourRow> {
    Finished(GroupBy(ToHours(part), CombineMinute))
  }

  // ---------------------------------------------------------------- the tables

  /** Every block ever inserted into page_views_raw, and the parts of the two aggregate tables. */
  datatype Tables = Tables(blocks: seq<seq<RawRow>>, minute: seq<Part<MinuteState>>, hour: seq<Part<HourRow>>)

  datatype Event = Insert(block: seq<RawRow>) | MergeMinute(i: nat, j: nat) | MergeHour(i: nat, j: nat)

  function MergeParts<V>(parts: seq<Part<V>>, i: nat, j: nat, combine: (V, V) -> V): (r: seq<Part<V>>)
    requires i < j < |parts|
  {
    RemoveAt(parts, j)[i := GroupBy(parts[i] + parts[j], combine)]
  }

  /** Inserting fires both views on the inserted rows only; merging fires nothing. */
  function Step(t: Tables, e: Event): Tables {
    match e
    case Insert(block) =>
      var minute := RawToMinute(block);
      Tables(t.blocks + [block], t.minute + [minute], t.hour + [MinuteToHour(minute)])
    case MergeMinute(i, j) =>
      if i < j < |t.minute| then t.(minute := MergeParts(t.minute, i, j, CombineMinute)) else t
    case MergeHour(i, j) =>
      if i < j < |t.hour| then t.(hour := MergeParts(t.hour, i, j, CombineHour)) else t
  }

  function Exec(events: seq<Event>): Tables {
    if events == [] then Tables([], [], []) else Step(Exec(events[..|events| - 1]), events[|events| - 1])
  }

  /** Every insert is recorded, in order, and nothing else is. */
  lemma BlocksAreInserts(events: seq<Event>, e: Event)
    ensures Exec(events + [e]).blocks == Exec(events).blocks + if e.Insert? then [e.block] else []
  {
    assert (events + [e])[..|events|] == events;
  }

  /** All rows ever inserted. */
  function AllRows(blocks: seq<seq<RawRow>>): seq<RawRow> {
    if blocks == [] then [] else AllRows(blocks[..|blocks| - 1]) + blocks[|blocks| - 1]
  }

  // ---------------------------------------------------------------- direct grouping

  predicate InMinute(r: RawRow, w: Window) {
    r.time / 60_000 == w.start && r.page == w.page
  }

  predicate InHour(r: RawRow, w: Window) {
    r.time / 3_600_000 == w.start && r.page == w.page
  }

  /** SELECT sum(f) FROM page_views_raw WHERE the row is chosen. */
  function DirectSum(rows: seq<RawRow>, chosen: RawRow -> bool, f: RawRow -> nat): nat {
    if rows == [] then 0
    else DirectSum(rows[..|rows| - 1], chosen, f) + (if chosen(rows[|rows| - 1]) then f(rows[|rows| - 1]) else 0)
  }

  function DirectUsers(rows: seq<RawRow>, chosen: RawRow -> bool): set<string> {
    set r | r in rows && chosen(r) :: r.user
  }

  // ---------------------------------------------------------------- summing entries

  function SumOf<V>(part: Part<V>, p: Window -> bool, f: V -> nat): nat {
    if part == [] then 0
    else SumOf(part[..|part| - 1], p, f) + (if p(part[|part| - 1].window) then f(part[|part| - 1].val) else 0)
  }

  function TotalOf<V>(parts: seq<Part<V>>, p: Window -> bool, f: V -> nat): nat {
    if parts == [] then 0 else TotalOf(parts[..|parts| - 1], p, f) + SumOf(parts[|parts| - 1], p, f)
  }

  /** A column that combining adds up, in 64-bit arithmetic. */
  ghost predicate Summing<V(!new)>(combine: (V, V) -> V, f: V -> nat) {
    forall a, b :: f(combine(a, b)) == Wrap(f(a) + f(b))
  }

  /** x is n, possibly reduced by whole 64-bit words. */
  predicate Reduced(x: nat, n: nat) {
    x <= n && Wrap(x) == Wrap(n)
  }

  lemma WrapLess(n: nat)
    ensures Wrap(n) <= n && Reduced(Wrap(n), n)
    ensures n < WORD ==> Wrap(n) == n
  {
  }

  lemma ReducedAdd(x: nat, n: nat, y: nat, m: nat)
    requires Reduced(x, n) && Reduced(y, m)
    ensures Reduced(x + y, n + m)
  {
    hide Wrap;
    WrapAdd(x, y);
    WrapAdd(n, m);
  }

  lemma WrapAdd(x: nat, y: nat)
    ensures Wrap(x + y) == Wrap(Wrap(x) + Wrap(y))
  {
  }

  lemma ReducedTrans(x: nat, n: nat, m: nat)
    requires Reduced(x, n) && Reduced(n, m)
    ensures Reduced(x, m)
  {
  }

  lemma ReducedSmall(x: nat, n: nat)
    requires Reduced(x, n) && n < WORD
    ensures x == n
  {
  }

  lemma {:induction false} SumOfConcat<V>(a: Part<V>, b: Part<V>, p: Window -> bool, f: V -> nat)
    ensures SumOf(a + b, p, f) == SumOf(a, p, f) + SumOf(b, p, f)
  {
    if b == [] {
      assert a + b == a;
    } else {
      assert (a + b)[..|a + b| - 1] == a + b[..|b| - 1];
      SumOfConcat(a, b[..|b| - 1], p, f);
    }
  }

  lemma SumOfOne<V>(e: Entry<V>, p: Window -> bool, f: V -> nat)
    ensures SumOf([e], p, f) == if p(e.window) then f(e.val) else 0
  {
    assert [e][..0] == [];
  }

  lemma SumOfCons<V>(e: Entry<V>, part: Part<V>, p: Window -> bool, f: V -> nat)
    ensures SumOf([e] + part, p, f) == (if p(e.window) then f(e.val) else 0) + SumOf(part, p, f)
  {
    SumOfConcat([e], part, p, f);
    SumOfOne(e, p, f);
  }

  lemma SumOfNone<V>(p: Window -> bool, f: V -> nat)
    ensures SumOf([], p, f) == 0
  {
  }

  lemma {:induction false} UpsertSum<V(!new)>(part: Part<V>, e: Entry<V>, combine: (V, V) -> V, p: Window -> bool,
      f: V -> nat)
    requires Summing(combine, f)
    ensures Reduced(SumOf(Upsert(part, e, combine), p, f), SumOf(part, p, f) + if p(e.window) then f(e.val) else 0)
  {
    hide Wrap, Reduced, SumOf;
    var added := if p(e.window) then f(e.val) else 0;
    if part == [] {
      SumOfCons(e, [], p, f);
      assert [e] + [] == [e];
      SumOfNone(p, f);
      ReducedSelf(added);
    } else {
      var head, tail := part[0], part[1..];
      assert part == [head] + tail;
      SumOfCons(head, tail, p, f);
      var first := if p(head.window) then f(head.val) else 0;
      if head.window == e.window {
        var c := Entry(e.window, combine(head.val, e.val));
        SumOfCons(c, tail, p, f);
        WrapLess(f(head.val) + f(e.val));
        ReducedSelf(0);
        ReducedSelf(SumOf(tail, p, f));
        ReducedAdd(if p(c.window) then f(c.val) else 0, first + added, SumOf(tail, p, f), SumOf(tail, p, f));
      } else {
        UpsertSum(tail, e, combine, p, f);
        SumOfCons(head, Upsert(tail, e, combine), p, f);
        ReducedSelf(first);
        ReducedAdd(first, first, SumOf(Upsert(tail, e, combine), p, f), SumOf(tail, p, f) + added);
      }
    }
  }

  lemma ReducedSelf(n: nat)
    ensures Reduced(n, n)
  {
  }

  /** Grouping keeps every sum, over any set of windows. */
  lemma {:induction false} GroupBySum<V(!new)>(entries: Part<V>, combine: (V, V) -> V, p: Window -> bool, f: V -> nat)
    requires Summing(combine, f)
    ensures Reduced(SumOf(GroupBy(entries, combine), p, f), SumOf(entries, p, f))
  {
    hide Wrap, Reduced, Upsert, Summing;
    if entries == [] {
      ReducedSelf(0);
    } else {
      var before, e := entries[..|entries| - 1], entries[|entries| - 1];
      GroupBySum(before, combine, p, f);
      UpsertSum(GroupBy(before, combine), e, combine, p, f);
      var last := if p(e.window) then f(e.val) else 0;
      ReducedSelf(last);
      ReducedAdd(SumOf(GroupBy(before, combine), p, f), SumOf(before, p, f), last, last);
      ReducedTrans(SumOf(GroupBy(entries, combine), p, f), SumOf(GroupBy(before, combine), p, f) + last,
        SumOf(entries, p, f));
    }
  }

  // ---------------------------------------------------------------- columns

  datatype Column = Views | Duration | Bounces

  function RawCol(c: Column): RawRow -> nat {
    (r: RawRow) => match c case Views => 1 case Duration => r.duration case Bounces => r.bounce
  }

  function MinuteCol(c: Column): MinuteState -> nat {
    (s: MinuteState) => match c case Views => s.views case Duration => s.duration case Bounces => s.bounces
  }

  function HourCol(c: Column): HourRow -> nat {
    (h: HourRow) => match c case Views => h.views case Duration => h.duration case Bounces => h.bounces
  }

  function UniquesCol(): HourRow -> nat {
    (h: HourRow) => h.uniques
  }

  function Is(w: Window): Window -> bool {
    v => v == w
  }

  function HourIs(w: Window): Window -> bool {
    v => HourOf(v) == w
  }

  function MinuteRows(w: Window): RawRow -> bool {
    r => InMinute(r, w)
  }

  function HourRows(w: Window): RawRow -> bool {
    r => InHour(r, w)
  }

  lemma ColumnsSum(c: Column)
    ensures Summing(CombineMinute, MinuteCol(c))
    ensures Summing(CombineHour, HourCol(c))
    ensures Summing(CombineHour, UniquesCol())
  {
    hide Wrap;
  }

  /** Truncating to the hour directly, or to the minute first, is the same. */
  lemma HourOfMinute(r: RawRow, w: Window)
    ensures HourIs(w)(MinuteEntry(r).window) == HourRows(w)(r)
  {
    assert (r.time / 60_000) / 60 == r.time / 3_600_000;
  }

  lemma {:induction false} MinuteEntriesSum(block: seq<RawRow>, w: Window, c: Column)
    ensures SumOf(MinuteEntries(block), Is(w), MinuteCol(c)) == DirectSum(block, MinuteRows(w), RawCol(c))
    ensures SumOf(MinuteEntries(block), HourIs(w), MinuteCol(c)) == DirectSum(block, HourRows(w), RawCol(c))
  {
    if block != [] {
      var before, r := block[..|block| - 1], block[|block| - 1];
      MinuteEntriesSum(before, w, c);
      HourOfMinute(r, w);
      SumOfConcat(MinuteEntries(before), [MinuteEntry(r)], Is(w), MinuteCol(c));
      SumOfConcat(MinuteEntries(before), [MinuteEntry(r)], HourIs(w), MinuteCol(c));
      SumOfOne(MinuteEntry(r), Is(w), MinuteCol(c));
      SumOfOne(MinuteEntry(r), HourIs(w), MinuteCol(c));
    }
  }

  lemma {:induction false} ToHoursSum(part: Part<MinuteState>, w: Window, f: MinuteState -> nat)
    ensures SumOf(ToHours(part), Is(w), f) == SumOf(part, HourIs(w), f)
  {
    if part != [] {
      var before, e := part[..|part| - 1], part[|part| - 1];
      var h := Entry(HourOf(e.window), e.val);
      ToHoursSum(before, w, f);
      SumOfConcat(ToHours(before), [h], Is(w), f);
      SumOfOne(h, Is(w), f);
    }
  }

  lemma {:induction false} FinishedSum(part: Part<MinuteState>, p: Window -> bool, c: Column)
    ensures SumOf(Finished(part), p, HourCol(c)) == SumOf(part, p, MinuteCol(c))
  {
    if part != [] {
      var before, e := part[..|part| - 1], part[|part| - 1];
      var h := Entry(e.window, Finish(e.val));
      FinishedSum(before, p, c);
      SumOfConcat(Finished(before), [h], p, HourCol(c));
      SumOfOne(h, p, HourCol(c));
    }
  }

  /** What one insert adds to each table is the direct grouping of its block. */
  lemma BlockAgrees(block: seq<RawRow>, w: Window, c: Column)
    ensures Reduced(SumOf(RawToMinute(block), Is(w), MinuteCol(c)), DirectSum(block, MinuteRows(w), RawCol(c)))
    ensures Reduced(SumOf(MinuteToHour(RawToMinute(block)), Is(w), HourCol(c)),
      DirectSum(block, HourRows(w), RawCol(c)))
  {
    hide Reduced, Summing;
    var minute := RawToMinute(block);
    ColumnsSum(c);
    MinuteEntriesSum(block, w, c);
    GroupBySum(MinuteEntries(block), CombineMinute, Is(w), MinuteCol(c));
    GroupBySum(MinuteEntries(block), CombineMinute, HourIs(w), MinuteCol(c));
    ToHoursSum(minute, w, MinuteCol(c));
    GroupBySum(ToHours(minute), CombineMinute, Is(w), MinuteCol(c));
    FinishedSum(GroupBy(ToHours(minute), CombineMinute), Is(w), c);
    ReducedTrans(SumOf(MinuteToHour(minute), Is(w), HourCol(c)), SumOf(minute, HourIs(w), MinuteCol(c)),
      DirectSum(block, HourRows(w), RawCol(c)));
  }

  // ---------------------------------------------------------------- merges

  lemma {:induction false} TotalOfConcat<V>(a: seq<Part<V>>, b: seq<Part<V>>, p: Window -> bool, f: V -> nat)
    ensures TotalOf(a + b, p, f) == TotalOf(a, p, f) + TotalOf(b, p, f)
  {
    if b == [] {
      assert a + b == a;
    } else {
      assert (a + b)[..|a + b| - 1] == a + b[..|b| - 1];
      TotalOfConcat(a, b[..|b| - 1], p, f);
    }
  }

  lemma TotalOfSplit<V>(parts: seq<Part<V>>, i: nat, p: Window -> bool, f: V -> nat)
    requires i < |parts|
    ensures TotalOf(parts, p, f) == TotalOf(parts[..i], p, f) + SumOf(parts[i], p, f) + TotalOf(parts[i + 1..], p, f)
  {
    assert parts == parts[..i] + [parts[i]] + parts[i + 1..];
    TotalOfConcat(parts[..i] + [parts[i]], parts[i + 1..], p, f);
    TotalOfConcat(parts[..i], [parts[i]], p, f);
    assert [parts[i]][..0] == [];
  }

  lemma TotalOfUpdate<V>(parts: seq<Part<V>>, i: nat, x: Part<V>, p: Window -> bool, f: V -> nat)
    requires i < |parts|
    ensures TotalOf(parts[i := x], p, f) + SumOf(parts[i], p, f) == TotalOf(parts, p, f) + SumOf(x, p, f)
  {
    TotalOfSplit(parts, i, p, f);
    TotalOfSplit(parts[i := x], i, p, f);
    assert parts[i := x][..i] == parts[..i] && parts[i := x][i + 1..] == parts[i + 1..];
  }

  lemma TotalOfRemove<V>(parts: seq<Part<V>>, j: nat, p: Window -> bool, f: V -> nat)
    requires j < |parts|
    ensures TotalOf(RemoveAt(parts, j), p, f) + SumOf(parts[j], p, f) == TotalOf(parts, p, f)
  {
    TotalOfSplit(parts, j, p, f);
    assert RemoveAt(parts, j) == parts[..j] + parts[j + 1..];
    TotalOfConcat(parts[..j], parts[j + 1..], p, f);
  }

  /** A background merge keeps every total. */
  lemma MergeKeepsTotals<V(!new)>(parts: seq<Part<V>>, i: nat, j: nat, combine: (V, V) -> V, p: Window -> bool,
      f: V -> nat)
    requires i < j < |parts| && Summing(combine, f)
    ensures Reduced(TotalOf(MergeParts(parts, i, j, combine), p, f), TotalOf(parts, p, f))
  {
    hide Reduced, Summing, SumOf, TotalOf, GroupBy;
    var merged := GroupBy(parts[i] + parts[j], combine);
    var rest := RemoveAt(parts, j);
    GroupBySum(parts[i] + parts[j], combine, p, f);
    SumOfConcat(parts[i], parts[j], p, f);
    TotalOfRemove(parts, j, p, f);
    assert rest[i] == parts[i];
    TotalOfUpdate(rest, i, merged, p, f);
    var others := TotalOf(rest, p, f) - SumOf(parts[i], p, f);
    TotalOfSplit(rest, i, p, f);
    ReducedSelf(others);
    ReducedAdd(others, others, SumOf(merged, p, f), SumOf(parts[i] + parts[j], p, f));
  }

  lemma TotalOfSnoc<V>(parts: seq<Part<V>>, x: Part<V>, p: Window -> bool, f: V -> nat)
    ensures TotalOf(parts + [x], p, f) == TotalOf(parts, p, f) + SumOf(x, p, f)
  {
    assert (parts + [x])[..|parts|] == parts;
  }

  lemma AllRowsSnoc(blocks: seq<seq<RawRow>>, block: seq<RawRow>)
    ensures AllRows(blocks + [block]) == AllRows(blocks) + block
  {
    assert (blocks + [block])[..|blocks|] == blocks;
  }

  lemma {:induction false} DirectSumConcat(a: seq<RawRow>, b: seq<RawRow>, chosen: RawRow -> bool, f: RawRow -> nat)
    ensures DirectSum(a + b, chosen, f) == DirectSum(a, chosen, f) + DirectSum(b, chosen, f)
  {
    if b == [] {
      assert a + b == a;
    } else {
      assert (a + b)[..|a + b| - 1] == a + b[..|b| - 1];
      DirectSumConcat(a, b[..|b| - 1], chosen, f);
    }
  }

  // ---------------------------------------------------------------- the main theorem

  ghost predicate Agrees(t: Tables, w: Window, c: Column) {
    && Reduced(TotalOf(t.minute, Is(w), MinuteCol(c)), DirectSum(AllRows(t.blocks), MinuteRows(w), RawCol(c)))
    && Reduced(TotalOf(t.hour, Is(w), HourCol(c)), DirectSum(AllRows(t.blocks), HourRows(w), RawCol(c)))
  }

  lemma InsertAgrees(t: Tables, block: seq<RawRow>, w: Window, c: Column)
    requires Agrees(t, w, c)
    ensures Agrees(Step(t, Insert(block)), w, c)
  {
    hide Reduced, SumOf, TotalOf, AllRows, DirectSum, RawToMinute, MinuteToHour;
    BlockAgrees(block, w, c);
    var minute := RawToMinute(block);
    TotalOfSnoc(t.minute, minute, Is(w), MinuteCol(c));
    TotalOfSnoc(t.hour, MinuteToHour(minute), Is(w), HourCol(c));
    AllRowsSnoc(t.blocks, block);
    DirectSumConcat(AllRows(t.blocks), block, MinuteRows(w), RawCol(c));
    DirectSumConcat(AllRows(t.blocks), block, HourRows(w), RawCol(c));
    ReducedAdd(TotalOf(t.minute, Is(w), MinuteCol(c)), DirectSum(AllRows(t.blocks), MinuteRows(w), RawCol(c)),
      SumOf(minute, Is(w), MinuteCol(c)), DirectSum(block, MinuteRows(w), RawCol(c)));
    ReducedAdd(TotalOf(t.hour, Is(w), HourCol(c)), DirectSum(AllRows(t.blocks), HourRows(w), RawCol(c)),
      SumOf(MinuteToHour(minute), Is(w), HourCol(c)), DirectSum(block, HourRows(w), RawCol(c)));
  }

  /**
   For every sequence of inserts and merges, the minute rows and the hour rows of a
   window add up to one direct grouping of all rows ever inserted, in 64-bit arithmetic.
   */
  lemma {:induction false} AggregatesAgree(events: seq<Event>, w: Window, c: Column)
    ensures Agrees(Exec(events), w, c)
  {
    hide Reduced, Summing;
    if events == [] {
      ReducedSelf(0);
    } else {
      var t, e := Exec(events[..|events| - 1]), events[|events| - 1];
      AggregatesAgree(events[..|events| - 1], w, c);
      ColumnsSum(c);
      match e
      case Insert(block) => InsertAgrees(t, block, w, c);
      case MergeMinute(i, j) =>
        if i < j < |t.minute| {
          MergeKeepsTotals(t.minute, i, j, CombineMinute, Is(w), MinuteCol(c));
          ReducedTrans(TotalOf(Step(t, e).minute, Is(w), MinuteCol(c)), TotalOf(t.minute, Is(w), MinuteCol(c)),
            DirectSum(AllRows(t.blocks), MinuteRows(w), RawCol(c)));
        }
      case MergeHour(i, j) =>
        if i < j < |t.hour| {
          MergeKeepsTotals(t.hour, i, j, CombineHour, Is(w), HourCol(c));
          ReducedTrans(TotalOf(Step(t, e).hour, Is(w), HourCol(c)), TotalOf(t.hour, Is(w), HourCol(c)),
            DirectSum(AllRows(t.blocks), HourRows(w), RawCol(c)));
        }
    }
  }
}
