/**
 What the aggregate tables promise beyond their sums: distinct users, the order
 between the columns, the absence of 64-bit wrap-around, and when the read view can
 be taken at face value.
 */
module AggregationBounds {
  import opened Common
  import opened Aggregation

  // ---------------------------------------------------------------- distinct users

  /** uniqMerge over the chosen windows of a part. */
  function UsersOf(part: Part<MinuteState>, p: Window -> bool): set<string> {
    set e, u | e in part && p(e.window) && u in e.val.users :: u
  }

  ghost predicate OnePerWindow<V>(part: Part<V>) {
    forall i, j :: 0 <= i < j < |part| ==> part[i].window != part[j].window
  }

  lemma UsersOfConcat(a: Part<MinuteState>, b: Part<MinuteState>, p: Window -> bool)
    ensures UsersOf(a + b, p) == UsersOf(a, p) + UsersOf(b, p)
  {
    forall u | u in UsersOf(a + b, p) ensures u in UsersOf(a, p) + UsersOf(b, p) {
      var e :| e in a + b && p(e.window) && u in e.val.users;
      assert e in a || e in b;
    }
    forall u | u in UsersOf(a, p) + UsersOf(b, p) ensures u in UsersOf(a + b, p) {
      var e :| (e in a || e in b) && p(e.window) && u in e.val.users;
      assert e in a + b;
    }
  }

  lemma UsersOfOne(e: Entry<MinuteState>, p: Window -> bool)
    ensures UsersOf([e], p) == if p(e.window) then e.val.users else {}
  {
    assert e in [e];
  }

  lemma {:induction false} UpsertUsers(part: Part<MinuteState>, e: Entry<MinuteState>, p: Window -> bool)
    ensures UsersOf(Upsert(part, e, CombineMinute), p) == UsersOf(part, p) + UsersOf([e], p)
  {
    hide UsersOf;
    if part == [] {
      assert [] + [e] == [e];
      UsersOfConcat([], [e], p);
    } else {
      var head, tail := part[0], part[1..];
      assert part == [head] + tail;
      UsersOfConcat([head], tail, p);
      if head.window == e.window {
        var c := Entry(e.window, CombineMinute(head.val, e.val));
        UsersOfConcat([c], tail, p);
        UsersOfOne(c, p);
        UsersOfOne(head, p);
        UsersOfOne(e, p);
      } else {
        UpsertUsers(tail, e, p);
        UsersOfConcat([head], Upsert(tail, e, CombineMinute), p);
      }
    }
  }

  lemma {:induction false} GroupByUsers(entries: Part<MinuteState>, p: Window -> bool)
    ensures UsersOf(GroupBy(entries, CombineMinute), p) == UsersOf(entries, p)
  {
    if entries != [] {
      var before, e := entries[..|entries| - 1], entries[|entries| - 1];
      assert entries == before + [e];
      GroupByUsers(before, p);
      UpsertUsers(GroupBy(before, CombineMinute), e, p);
      UsersOfConcat(before, [e], p);
    }
  }

  lemma {:induction false} UpsertWindows<V>(part: Part<V>, e: Entry<V>, combine: (V, V) -> V)
    requires OnePerWindow(part)
    ensures OnePerWindow(Upsert(part, e, combine))
    ensures forall x :: x in Upsert(part, e, combine) ==>
      x.window == e.window || exists y :: y in part && y.window == x.window
  {
    if part != [] && part[0].window != e.window {
      var head, tail := part[0], part[1..];
      var r := Upsert(tail, e, combine);
      assert OnePerWindow(tail);
      UpsertWindows(tail, e, combine);
      forall x | x in r ensures x.window != head.window {
        if x.window != e.window {
          var y :| y in tail && y.window == x.window;
          var k :| 0 <= k < |tail| && tail[k] == y;
          assert part[k + 1] == y;
        }
      }
      assert Upsert(part, e, combine) == [head] + r;
      forall x | x in [head] + r ensures x.window == e.window || exists y :: y in part && y.window == x.window {
        if x == head { assert head in part; } else if x.window != e.window {
          var y :| y in tail && y.window == x.window;
          assert y in part;
        }
      }
    } else if part != [] {
      assert forall x :: x in part[1..] ==> x in part;
    }
  }

  lemma {:induction false} GroupByWindows<V>(entries: Part<V>, combine: (V, V) -> V)
    ensures OnePerWindow(GroupBy(entries, combine))
  {
    if entries != [] {
      GroupByWindows(entries[..|entries| - 1], combine);
      UpsertWindows(GroupBy(entries[..|entries| - 1], combine), entries[|entries| - 1], combine);
    }
  }

  lemma {:induction false} MinuteEntriesUsers(block: seq<RawRow>, w: Window)
    ensures UsersOf(MinuteEntries(block), Is(w)) == DirectUsers(block, MinuteRows(w))
    ensures UsersOf(MinuteEntries(block), HourIs(w)) == DirectUsers(block, HourRows(w))
  {
    if block != [] {
      var before, r := block[..|block| - 1], block[|block| - 1];
      assert block == before + [r];
      MinuteEntriesUsers(before, w);
      HourOfMinute(r, w);
      UsersOfConcat(MinuteEntries(before), [MinuteEntry(r)], Is(w));
      UsersOfConcat(MinuteEntries(before), [MinuteEntry(r)], HourIs(w));
      UsersOfOne(MinuteEntry(r), Is(w));
      UsersOfOne(MinuteEntry(r), HourIs(w));
      DirectUsersSnoc(before, r, MinuteRows(w));
      DirectUsersSnoc(before, r, HourRows(w));
    }
  }

  lemma DirectUsersSnoc(rows: seq<RawRow>, r: RawRow, chosen: RawRow -> bool)
    ensures DirectUsers(rows + [r], chosen) == DirectUsers(rows, chosen) + if chosen(r) then {r.user} else {}
  {
    assert r in rows + [r];
    assert forall x :: x in rows + [r] <==> x in rows || x == r;
  }

  lemma {:induction false} ToHoursUsers(part: Part<MinuteState>, w: Window)
    ensures UsersOf(ToHours(part), Is(w)) == UsersOf(part, HourIs(w))
  {
    if part != [] {
      var before, e := part[..|part| - 1], part[|part| - 1];
      var h := Entry(HourOf(e.window), e.val);
      assert part == before + [e];
      ToHoursUsers(before, w);
      UsersOfConcat(ToHours(before), [h], Is(w));
      UsersOfConcat(before, [e], HourIs(w));
      UsersOfOne(h, Is(w));
      UsersOfOne(e, HourIs(w));
    }
  }

  lemma NoUsersOutside(part: Part<MinuteState>, w: Window)
    requires forall e :: e in part ==> e.window != w
    ensures UsersOf(part, Is(w)) == {}
  {
  }

  /** In a grouped part the unique_users column of a window counts exactly its users. */
  lemma {:induction false} FinishedUniques(part: Part<MinuteState>, w: Window)
    requires OnePerWindow(part)
    ensures SumOf(Finished(part), Is(w), UniquesCol()) == |UsersOf(part, Is(w))|
  {
    hide UsersOf, SumOf;
    if part == [] {
      SumOfNone(Is(w), UniquesCol());
      NoUsersOutside(part, w);
    } else {
      var before, e := part[..|part| - 1], part[|part| - 1];
      assert part == before + [e];
      FinishedUniques(before, w);
      var h := Entry(e.window, Finish(e.val));
      SumOfConcat(Finished(before), [h], Is(w), UniquesCol());
      SumOfOne(h, Is(w), UniquesCol());
      UsersOfConcat(before, [e], Is(w));
      UsersOfOne(e, Is(w));
      if e.window == w {
        assert forall x :: x in before ==> x.window != w;
        NoUsersOutside(before, w);
      }
    }
  }

  /** The unique_users an inserted block contributes to an hour is its number of distinct users there. */
  lemma BlockUniquesAgree(block: seq<RawRow>, w: Window)
    ensures SumOf(MinuteToHour(RawToMinute(block)), Is(w), UniquesCol()) == |DirectUsers(block, HourRows(w))|
  {
    hide UsersOf, DirectUsers, SumOf, GroupBy;
    var minute := RawToMinute(block);
    MinuteEntriesUsers(block, w);
    GroupByUsers(MinuteEntries(block), HourIs(w));
    ToHoursUsers(minute, w);
    GroupByUsers(ToHours(minute), Is(w));
    GroupByWindows(ToHours(minute), CombineMinute);
    FinishedUniques(GroupBy(ToHours(minute), CombineMinute), w);
  }

  /** The per-block distinct users of an hour, added over the blocks. */
  function BlockUniques(blocks: seq<seq<RawRow>>, w: Window): nat {
    if blocks == [] then 0
    else BlockUniques(blocks[..|blocks| - 1], w) + |DirectUsers(blocks[|blocks| - 1], HourRows(w))|
  }

  lemma BlockUniquesSnoc(blocks: seq<seq<RawRow>>, block: seq<RawRow>, w: Window)
    ensures BlockUniques(blocks + [block], w) == BlockUniques(blocks, w) + |DirectUsers(block, HourRows(w))|
  {
    assert (blocks + [block])[..|blocks|] == blocks;
  }

  lemma InsertUniques(t: Tables, block: seq<RawRow>, w: Window)
    requires Reduced(TotalOf(t.hour, Is(w), UniquesCol()), BlockUniques(t.blocks, w))
    ensures Reduced(TotalOf(Step(t, Insert(block)).hour, Is(w), UniquesCol()), BlockUniques(t.blocks + [block], w))
  {
    hide Reduced, DirectUsers, MinuteToHour, RawToMinute, TotalOf, SumOf, BlockUniques;
    var part := MinuteToHour(RawToMinute(block));
    BlockUniquesAgree(block, w);
    TotalOfSnoc(t.hour, part, Is(w), UniquesCol());
    BlockUniquesSnoc(t.blocks, block, w);
    ReducedSelf(SumOf(part, Is(w), UniquesCol()));
    ReducedAdd(TotalOf(t.hour, Is(w), UniquesCol()), BlockUniques(t.blocks, w),
      SumOf(part, Is(w), UniquesCol()), SumOf(part, Is(w), UniquesCol()));
  }

  /**
   Over any run the unique_users of an hour add up to the per-block distinct users: merging adds,
   it does not deduplicate.
   */
  lemma {:induction false} UniquesAreBlockUniques(events: seq<Event>, w: Window)
    ensures Reduced(TotalOf(Exec(events).hour, Is(w), UniquesCol()), BlockUniques(Exec(events).blocks, w))
  {
    hide Reduced, Summing, DirectUsers, MinuteToHour, RawToMinute;
    if events == [] {
      ReducedSelf(0);
    } else {
      var t, e := Exec(events[..|events| - 1]), events[|events| - 1];
      UniquesAreBlockUniques(events[..|events| - 1], w);
      match e
      case Insert(block) => InsertUniques(t, block, w);
      case MergeMinute(i, j) =>
      case MergeHour(i, j) =>
        if i < j < |t.hour| {
          ColumnsSum(Views);
          MergeKeepsTotals(t.hour, i, j, CombineHour, Is(w), UniquesCol());
          ReducedTrans(TotalOf(Step(t, e).hour, Is(w), UniquesCol()), TotalOf(t.hour, Is(w), UniquesCol()),
            BlockUniques(t.blocks, w));
        }
    }
  }

  /** uniqMerge over the whole minute table. */
  function MinuteUsers(parts: seq<Part<MinuteState>>, p: Window -> bool): set<string> {
    if parts == [] then {} else MinuteUsers(parts[..|parts| - 1], p) + UsersOf(parts[|parts| - 1], p)
  }

  lemma {:induction false} MinuteUsersMember(parts: seq<Part<MinuteState>>, p: Window -> bool, u: string)
    ensures u in MinuteUsers(parts, p) <==> exists k :: 0 <= k < |parts| && u in UsersOf(parts[k], p)
  {
    hide UsersOf;
    if parts != [] {
      MinuteUsersMember(parts[..|parts| - 1], p, u);
    }
  }

  lemma MergeKeepsUsers(parts: seq<Part<MinuteState>>, i: nat, j: nat, p: Window -> bool)
    requires i < j < |parts|
    ensures MinuteUsers(MergeParts(parts, i, j, CombineMinute), p) == MinuteUsers(parts, p)
  {
    hide UsersOf, MinuteUsers;
    var after := MergeParts(parts, i, j, CombineMinute);
    GroupByUsers(parts[i] + parts[j], p);
    UsersOfConcat(parts[i], parts[j], p);
    forall u ensures u in MinuteUsers(after, p) <==> u in MinuteUsers(parts, p) {
      MinuteUsersMember(after, p, u);
      MinuteUsersMember(parts, p, u);
      if k :| 0 <= k < |parts| && u in UsersOf(parts[k], p) {
        var k' := if k == j then i else if k < j then k else k - 1;
        assert u in UsersOf(after[k'], p);
      }
      if k :| 0 <= k < |after| && u in UsersOf(after[k], p) {
        if k == i {
          assert u in UsersOf(parts[i], p) || u in UsersOf(parts[j], p);
        } else {
          assert after[k] == parts[if k < j then k else k + 1];
        }
      }
    }
  }

  /** The unique_users states of the minute table do deduplicate: at any time they merge to the exact distinct users. */
  lemma {:induction false} MinuteUsersExact(events: seq<Event>, w: Window)
    ensures MinuteUsers(Exec(events).minute, Is(w)) == DirectUsers(AllRows(Exec(events).blocks), MinuteRows(w))
  {
    hide DirectUsers, UsersOf;
    if events == [] {
      assert DirectUsers([], MinuteRows(w)) == {} by { NoUsers(MinuteRows(w)); }
    } else {
      var t, e := Exec(events[..|events| - 1]), events[|events| - 1];
      MinuteUsersExact(events[..|events| - 1], w);
      match e
      case Insert(block) =>
        MinuteEntriesUsers(block, w);
        GroupByUsers(MinuteEntries(block), Is(w));
        assert (t.minute + [RawToMinute(block)])[..|t.minute|] == t.minute;
        AllRowsSnoc(t.blocks, block);
        DirectUsersConcat(AllRows(t.blocks), block, MinuteRows(w));
      case MergeMinute(i, j) => if i < j < |t.minute| { MergeKeepsUsers(t.minute, i, j, Is(w)); }
      case MergeHour(i, j) =>
    }
  }

  lemma NoUsers(chosen: RawRow -> bool)
    ensures DirectUsers([], chosen) == {}
  {
  }

  lemma UnionSize<T>(a: set<T>, b: set<T>)
    ensures |a| <= |a + b| <= |a| + |b|
  {
    assert a + b == a + (b - a);
    assert |b - a| <= |b| by { assert b == (b - a) + (a * b); }
  }

  lemma {:induction false} UsersAtMostRows(rows: seq<RawRow>, w: Window)
    ensures |DirectUsers(rows, HourRows(w))| <= DirectSum(rows, HourRows(w), RawCol(Views))
  {
    if rows != [] {
      var before, r := rows[..|rows| - 1], rows[|rows| - 1];
      assert rows == before + [r];
      UsersAtMostRows(before, w);
      DirectUsersSnoc(before, r, HourRows(w));
      UnionSize(DirectUsers(before, HourRows(w)), if HourRows(w)(r) then {r.user} else {});
    }
  }

  lemma DirectUsersConcat(a: seq<RawRow>, b: seq<RawRow>, chosen: RawRow -> bool)
    ensures DirectUsers(a + b, chosen) == DirectUsers(a, chosen) + DirectUsers(b, chosen)
  {
    assert forall r :: r in a + b <==> r in a || r in b;
  }

  lemma {:induction false} BlockUniquesBetween(blocks: seq<seq<RawRow>>, w: Window)
    ensures |DirectUsers(AllRows(blocks), HourRows(w))| <= BlockUniques(blocks, w)
    ensures BlockUniques(blocks, w) <= DirectSum(AllRows(blocks), HourRows(w), RawCol(Views))
  {
    if blocks != [] {
      var before, b := blocks[..|blocks| - 1], blocks[|blocks| - 1];
      BlockUniquesBetween(before, w);
      UsersAtMostRows(b, w);
      DirectSumConcat(AllRows(before), b, HourRows(w), RawCol(Views));
      DirectUsersConcat(AllRows(before), b, HourRows(w));
      UnionSize(DirectUsers(AllRows(before), HourRows(w)), DirectUsers(b, HourRows(w)));
    }
  }

  // ---------------------------------------------------------------- exact totals

  /** The rows ConvertEventToRow can produce. */
  predicate WellFormedRow(r: RawRow) {
    r.duration < 0x1_0000_0000 && r.bounce <= 1
  }

  lemma {:induction false} DirectSumBounds(rows: seq<RawRow>, chosen: RawRow -> bool)
    requires forall r :: r in rows ==> WellFormedRow(r)
    ensures DirectSum(rows, chosen, RawCol(Views)) <= |rows|
    ensures DirectSum(rows, chosen, RawCol(Bounces)) <= DirectSum(rows, chosen, RawCol(Views))
    ensures DirectSum(rows, chosen, RawCol(Duration)) <= DirectSum(rows, chosen, RawCol(Views)) * 0xFFFF_FFFF
  {
    if rows != [] {
      assert rows[|rows| - 1] in rows;
      DirectSumBounds(rows[..|rows| - 1], chosen);
    }
  }

  /**
   No column of an hour can wrap while the hour has at most 2^32 rows: there the
   aggregates are the direct grouping itself, bounces never exceed views, and
   distinct users <= summed unique_users <= views.
   */
  lemma AggregatesExact(events: seq<Event>, w: Window)
    requires forall r :: r in AllRows(Exec(events).blocks) ==> WellFormedRow(r)
    requires DirectSum(AllRows(Exec(events).blocks), HourRows(w), RawCol(Views)) <= 0x1_0000_0000
    ensures
      var t := Exec(events);
      var rows := AllRows(t.blocks);
      && (forall c :: TotalOf(t.hour, Is(w), HourCol(c)) == DirectSum(rows, HourRows(w), RawCol(c)))
      && TotalOf(t.hour, Is(w), HourCol(Bounces)) <= TotalOf(t.hour, Is(w), HourCol(Views))
      && |DirectUsers(rows, HourRows(w))| <= TotalOf(t.hour, Is(w), UniquesCol())
      && TotalOf(t.hour, Is(w), UniquesCol()) <= TotalOf(t.hour, Is(w), HourCol(Views))
  {
    hide TotalOf, DirectSum, DirectUsers, BlockUniques, Reduced, Exec;
    var t := Exec(events);
    var rows := AllRows(t.blocks);
    DirectSumBounds(rows, HourRows(w));
    forall c ensures TotalOf(t.hour, Is(w), HourCol(c)) == DirectSum(rows, HourRows(w), RawCol(c)) {
      AggregatesAgree(events, w, c);
      assert DirectSum(rows, HourRows(w), RawCol(c)) < WORD by { assert c == Views || c == Bounces || c == Duration; }
      ReducedSmall(TotalOf(t.hour, Is(w), HourCol(c)), DirectSum(rows, HourRows(w), RawCol(c)));
    }
    UniquesAreBlockUniques(events, w);
    BlockUniquesBetween(t.blocks, w);
    ReducedSmall(TotalOf(t.hour, Is(w), UniquesCol()), BlockUniques(t.blocks, w));
  }

  // ---------------------------------------------------------------- single rows

  /** Columns of one stored row, before anything is added up. */
  predicate MinuteRowSound(s: MinuteState) {
    1 <= s.views && s.bounces <= s.views && |s.users| <= s.views
  }

  predicate HourRowSound(h: HourRow) {
    1 <= h.views && h.bounces <= h.views && h.uniques <= h.views
  }

  /** Combining sound rows gives a sound row as long as the view counts do not wrap. */
  ghost predicate Combines<V(!new)>(combine: (V, V) -> V, f: V -> nat, sound: V -> bool) {
    && Summing(combine, f)
    && (forall a, b :: sound(a) && sound(b) && f(a) + f(b) < WORD ==> sound(combine(a, b)))
  }

  lemma MinuteCombineSound(a: MinuteState, b: MinuteState)
    requires MinuteRowSound(a) && MinuteRowSound(b) && a.views + b.views < WORD
    ensures MinuteRowSound(CombineMinute(a, b))
  {
    hide Wrap;
    WrapLess(a.views + b.views);
    WrapLess(a.bounces + b.bounces);
    UnionSize(a.users, b.users);
  }

  lemma HourCombineSound(a: HourRow, b: HourRow)
    requires HourRowSound(a) && HourRowSound(b) && a.views + b.views < WORD
    ensures HourRowSound(CombineHour(a, b))
  {
    hide Wrap;
    WrapLess(a.views + b.views);
    WrapLess(a.bounces + b.bounces);
    WrapLess(a.uniques + b.uniques);
  }

  lemma RowsCombine()
    ensures Combines(CombineMinute, MinuteCol(Views), MinuteRowSound)
    ensures Combines(CombineHour, HourCol(Views), HourRowSound)
  {
    hide Summing, CombineMinute, CombineHour, MinuteRowSound, HourRowSound;
    ColumnsSum(Views);
    forall a, b | MinuteRowSound(a) && MinuteRowSound(b) && MinuteCol(Views)(a) + MinuteCol(Views)(b) < WORD
      ensures MinuteRowSound(CombineMinute(a, b))
    {
      MinuteCombineSound(a, b);
    }
    forall a, b | HourRowSound(a) && HourRowSound(b) && HourCol(Views)(a) + HourCol(Views)(b) < WORD
      ensures HourRowSound(CombineHour(a, b))
    {
      HourCombineSound(a, b);
    }
  }

  ghost predicate AllSound<V>(part: Part<V>, sound: V -> bool) {
    forall e :: e in part ==> sound(e.val)
  }

  lemma {:induction false} UpsertSound<V(!new)>(part: Part<V>, e: Entry<V>, combine: (V, V) -> V, f: V -> nat,
      sound: V -> bool)
    requires Combines(combine, f, sound) && AllSound(part, sound) && sound(e.val)
    requires SumOf(part, Is(e.window), f) + f(e.val) < WORD
    ensures AllSound(Upsert(part, e, combine), sound)
  {
    hide SumOf;
    if part != [] {
      var head, tail := part[0], part[1..];
      assert part == [head] + tail;
      assert head in part && forall x :: x in tail ==> x in part;
      SumOfCons(head, tail, Is(e.window), f);
      if head.window != e.window {
        UpsertSound(tail, e, combine, f, sound);
      }
    }
  }

  ghost predicate Fitting<V>(part: Part<V>, f: V -> nat) {
    forall w :: SumOf(part, Is(w), f) < WORD
  }

  lemma {:induction false} GroupBySound<V(!new)>(entries: Part<V>, combine: (V, V) -> V, f: V -> nat, sound: V -> bool)
    requires Combines(combine, f, sound) && AllSound(entries, sound) && Fitting(entries, f)
    ensures AllSound(GroupBy(entries, combine), sound)
  {
    hide Upsert, Combines;
    if entries != [] {
      var before, e := entries[..|entries| - 1], entries[|entries| - 1];
      assert entries == before + [e] && e in entries;
      assert AllSound(before, sound);
      forall w ensures SumOf(before, Is(w), f) + (if Is(w)(e.window) then f(e.val) else 0) < WORD {
        assert SumOf(entries, Is(w), f) < WORD;
      }
      assert Fitting(before, f);
      GroupBySound(before, combine, f, sound);
      CombinesSums(combine, f, sound);
      GroupBySum(before, combine, Is(e.window), f);
      UpsertSound(GroupBy(before, combine), e, combine, f, sound);
    }
  }

  lemma CombinesSums<V(!new)>(combine: (V, V) -> V, f: V -> nat, sound: V -> bool)
    requires Combines(combine, f, sound)
    ensures Summing(combine, f)
  {
  }

  lemma {:induction false} EntriesSound(block: seq<RawRow>)
    requires forall r :: r in block ==> WellFormedRow(r)
    ensures AllSound(MinuteEntries(block), MinuteRowSound)
  {
    if block != [] {
      assert block[|block| - 1] in block;
      EntriesSound(block[..|block| - 1]);
    }
  }

  lemma {:induction false} ToHoursSound(part: Part<MinuteState>)
    requires AllSound(part, MinuteRowSound)
    ensures AllSound(ToHours(part), MinuteRowSound)
  {
    if part != [] {
      assert part[|part| - 1] in part;
      ToHoursSound(part[..|part| - 1]);
    }
  }

  lemma {:induction false} FinishedSound(part: Part<MinuteState>)
    requires AllSound(part, MinuteRowSound)
    ensures AllSound(Finished(part), HourRowSound)
  {
    if part != [] {
      assert part[|part| - 1] in part;
      FinishedSound(part[..|part| - 1]);
    }
  }

  lemma BlockSound(block: seq<RawRow>)
    requires |block| < WORD && forall r :: r in block ==> WellFormedRow(r)
    ensures AllSound(MinuteToHour(RawToMinute(block)), HourRowSound)
  {
    hide SumOf, DirectSum, Summing, GroupBy, AllSound, Combines;
    var f, minute := MinuteCol(Views), RawToMinute(block);
    RowsCombine();
    ColumnsSum(Views);
    EntriesSound(block);
    forall w ensures SumOf(MinuteEntries(block), Is(w), f) < WORD {
      MinuteEntriesSum(block, w, Views);
      DirectSumBounds(block, MinuteRows(w));
    }
    GroupBySound(MinuteEntries(block), CombineMinute, f, MinuteRowSound);
    ToHoursSound(minute);
    forall w ensures SumOf(ToHours(minute), Is(w), f) < WORD {
      ToHoursSum(minute, w, f);
      GroupBySum(MinuteEntries(block), CombineMinute, HourIs(w), f);
      MinuteEntriesSum(block, w, Views);
      DirectSumBounds(block, HourRows(w));
    }
    GroupBySound(ToHours(minute), CombineMinute, f, MinuteRowSound);
    FinishedSound(GroupBy(ToHours(minute), CombineMinute));
  }

  ghost predicate HourTableSound(parts: seq<Part<HourRow>>) {
    forall k :: 0 <= k < |parts| ==> AllSound(parts[k], HourRowSound)
  }

  lemma MergeSound(t: Tables, i: nat, j: nat)
    requires i < j < |t.hour| && HourTableSound(t.hour)
    requires forall w :: TotalOf(t.hour, Is(w), HourCol(Views)) < WORD
    ensures HourTableSound(MergeParts(t.hour, i, j, CombineHour))
  {
    hide SumOf, TotalOf, GroupBy, Combines;
    var both := t.hour[i] + t.hour[j];
    forall w ensures SumOf(both, Is(w), HourCol(Views)) < WORD {
      SumOfConcat(t.hour[i], t.hour[j], Is(w), HourCol(Views));
      TotalOfRemove(t.hour, j, Is(w), HourCol(Views));
      TotalOfSplit(RemoveAt(t.hour, j), i, Is(w), HourCol(Views));
      assert TotalOf(t.hour, Is(w), HourCol(Views)) < WORD;
    }
    RowsCombine();
    GroupBySound(both, CombineHour, HourCol(Views), HourRowSound);
  }

  /** Every stored hour row, merged or not, counts at least one view and no more bounces or users than views. */
  lemma {:induction false} HourRowsSound(events: seq<Event>)
    requires |AllRows(Exec(events).blocks)| < WORD
    requires forall r :: r in AllRows(Exec(events).blocks) ==> WellFormedRow(r)
    ensures HourTableSound(Exec(events).hour)
  {
    hide DirectSum, AllSound, TotalOf, MinuteToHour, RawToMinute;
    if events != [] {
      var t, e := Exec(events[..|events| - 1]), events[|events| - 1];
      match e
      case Insert(block) =>
        AllRowsSnoc(t.blocks, block);
        assert forall r :: r in AllRows(t.blocks) || r in block ==> r in AllRows(t.blocks) + block;
        HourRowsSound(events[..|events| - 1]);
        BlockSound(block);
      case MergeMinute(i, j) => HourRowsSound(events[..|events| - 1]);
      case MergeHour(i, j) =>
        HourRowsSound(events[..|events| - 1]);
        if i < j < |t.hour| {
          forall w ensures TotalOf(t.hour, Is(w), HourCol(Views)) < WORD {
            AggregatesAgree(events[..|events| - 1], w, Views);
            DirectSumBounds(AllRows(t.blocks), HourRows(w));
          }
          MergeSound(t, i, j);
        }
    }
  }

  // ---------------------------------------------------------------- the read view

  /** The computed columns of page_views_agg_hour_read. */
  function AvgDuration(h: HourRow): real {
    if h.views > 0 then h.duration as real / h.views as real else 0.0
  }

  function BounceRate(h: HourRow): real {
    if h.views > 0 then h.bounces as real * 100.0 / h.views as real else 0.0
  }

  function Percentage(part: nat, whole: nat): (r: real)
    requires 0 < whole
    ensures part <= whole ==> 0.0 <= r <= 100.0
  {
    part as real * 100.0 / whole as real
  }

  /** Even on unmerged rows the shown bounce rate is a percentage. */
  lemma BounceRateIsPercentage(events: seq<Event>, k: nat, e: Entry<HourRow>)
    requires |AllRows(Exec(events).blocks)| < WORD
    requires forall r :: r in AllRows(Exec(events).blocks) ==> WellFormedRow(r)
    requires k < |Exec(events).hour| && e in Exec(events).hour[k]
    ensures 0.0 <= BounceRate(e.val) <= 100.0
  {
    HourRowsSound(events);
    assert HourRowSound(e.val);
    assert BounceRate(e.val) == Percentage(e.val.bounces, e.val.views);
  }

  function One(): HourRow -> nat {
    (h: HourRow) => 1
  }

  lemma {:induction false} SumOfEqual(part: Part<HourRow>, w: Window, n: nat)
    requires forall e :: e in part && e.window == w ==> e.val.views == n
    ensures SumOf(part, Is(w), HourCol(Views)) == n * SumOf(part, Is(w), One())
  {
    if part != [] {
      assert part[|part| - 1] in part;
      SumOfEqual(part[..|part| - 1], w, n);
    }
  }

  lemma {:induction false} TotalOfEqual(parts: seq<Part<HourRow>>, w: Window, n: nat)
    requires forall k, e :: 0 <= k < |parts| && e in parts[k] && e.window == w ==> e.val.views == n
    ensures TotalOf(parts, Is(w), HourCol(Views)) == n * TotalOf(parts, Is(w), One())
  {
    hide SumOf;
    if parts != [] {
      TotalOfEqual(parts[..|parts| - 1], w, n);
      SumOfEqual(parts[|parts| - 1], w, n);
      Distribute(n, TotalOf(parts[..|parts| - 1], Is(w), One()), SumOf(parts[|parts| - 1], Is(w), One()));
    }
  }

  lemma Distribute(n: nat, x: nat, y: nat)
    ensures n * (x + y) == n * x + n * y
  {
  }

  lemma SumOfMember(part: Part<HourRow>, e: Entry<HourRow>, w: Window, f: HourRow -> nat)
    requires e in part && e.window == w
    ensures SumOf(part, Is(w), f) >= f(e.val)
    ensures SumOf(part, Is(w), One()) >= 1
    ensures SumOf(part, Is(w), One()) == 1 ==> SumOf(part, Is(w), f) == f(e.val)
  {
    var before, last := part[..|part| - 1], part[|part| - 1];
    if e in before {
      SumOfMember(before, e, w, f);
    } else {
      assert e == last;
      if SumOf(before, Is(w), One()) == 0 { SumOfAbsent(before, w, f); }
    }
  }

  lemma {:induction false} SumOfAbsent(part: Part<HourRow>, w: Window, f: HourRow -> nat)
    requires SumOf(part, Is(w), One()) == 0
    ensures SumOf(part, Is(w), f) == 0
  {
    if part != [] { SumOfAbsent(part[..|part| - 1], w, f); }
  }

  lemma {:induction false} TotalOfAbsent(parts: seq<Part<HourRow>>, w: Window, f: HourRow -> nat)
    requires TotalOf(parts, Is(w), One()) == 0
    ensures TotalOf(parts, Is(w), f) == 0
  {
    if parts != [] {
      TotalOfAbsent(parts[..|parts| - 1], w, f);
      SumOfAbsent(parts[|parts| - 1], w, f);
    }
  }

  lemma TotalOfMember(parts: seq<Part<HourRow>>, k: nat, e: Entry<HourRow>, w: Window, f: HourRow -> nat)
    requires k < |parts| && e in parts[k] && e.window == w && TotalOf(parts, Is(w), One()) == 1
    ensures TotalOf(parts, Is(w), f) == f(e.val)
  {
    hide SumOf, TotalOf;
    TotalOfSplit(parts, k, Is(w), One());
    TotalOfSplit(parts, k, Is(w), f);
    SumOfMember(parts[k], e, w, f);
    TotalOfAbsent(parts[..k], w, f);
    TotalOfAbsent(parts[k + 1..], w, f);
  }

  /**
   The read view does not add rows up.  For an hour with data, every row it shows has
   the true view count exactly when the hour is held in a single row; and then its
   average duration and bounce rate are the true ones too.
   */
  lemma ReadViewTrueExactlyWhenMerged(events: seq<Event>, w: Window)
    requires forall r :: r in AllRows(Exec(events).blocks) ==> WellFormedRow(r)
    requires 0 < DirectSum(AllRows(Exec(events).blocks), HourRows(w), RawCol(Views)) <= 0x1_0000_0000
    ensures
      var t := Exec(events);
      var rows := AllRows(t.blocks);
      var n := DirectSum(rows, HourRows(w), RawCol(Views));
      && ((forall k, e :: 0 <= k < |t.hour| && e in t.hour[k] && e.window == w ==> e.val.views == n)
        <==> TotalOf(t.hour, Is(w), One()) == 1)
      && (TotalOf(t.hour, Is(w), One()) == 1 ==>
        forall k, e :: 0 <= k < |t.hour| && e in t.hour[k] && e.window == w ==>
          && AvgDuration(e.val) == DirectSum(rows, HourRows(w), RawCol(Duration)) as real / n as real
          && BounceRate(e.val) == DirectSum(rows, HourRows(w), RawCol(Bounces)) as real * 100.0 / n as real)
  {
    hide TotalOf, DirectSum, SumOf, Exec;
    var t := Exec(events);
    var rows := AllRows(t.blocks);
    var n := DirectSum(rows, HourRows(w), RawCol(Views));
    AggregatesExact(events, w);
    assert TotalOf(t.hour, Is(w), HourCol(Views)) == n;
    if forall k, e :: 0 <= k < |t.hour| && e in t.hour[k] && e.window == w ==> e.val.views == n {
      TotalOfEqual(t.hour, w, n);
      OnlyOnce(n, TotalOf(t.hour, Is(w), One()));
    }
    if TotalOf(t.hour, Is(w), One()) == 1 {
      forall k, e | 0 <= k < |t.hour| && e in t.hour[k] && e.window == w
        ensures e.val.views == n
        ensures AvgDuration(e.val) == DirectSum(rows, HourRows(w), RawCol(Duration)) as real / n as real
        ensures BounceRate(e.val) == DirectSum(rows, HourRows(w), RawCol(Bounces)) as real * 100.0 / n as real
      {
        TotalOfMember(t.hour, k, e, w, HourCol(Views));
        TotalOfMember(t.hour, k, e, w, HourCol(Duration));
        TotalOfMember(t.hour, k, e, w, HourCol(Bounces));
        assert TotalOf(t.hour, Is(w), HourCol(Duration)) == DirectSum(rows, HourRows(w), RawCol(Duration));
        assert TotalOf(t.hour, Is(w), HourCol(Bounces)) == DirectSum(rows, HourRows(w), RawCol(Bounces));
      }
    }
  }

  lemma OnlyOnce(n: nat, m: nat)
    requires 0 < n && n == n * m
    ensures m == 1
  {
    assert n * m - n == n * (m - 1);
  }

  // ---------------------------------------------------------------- merging to the end

  lemma ExecJoin(events: seq<Event>, e: Event, rest: seq<Event>)
    ensures events + ([e] + rest) == events + [e] + rest
    ensures Exec(events + [e]) == Step(Exec(events), e)
  {
    assert (events + [e])[..|events|] == events;
  }

  /** From any state, merges alone bring each aggregate table down to one part. */
  lemma {:induction false} MergedDown(events: seq<Event>) returns (merges: seq<Event>)
    ensures forall m :: m in merges ==> !m.Insert?
    ensures |Exec(events + merges).minute| <= 1 && |Exec(events + merges).hour| <= 1
    ensures Exec(events + merges).blocks == Exec(events).blocks
    decreases |Exec(events).minute| + |Exec(events).hour|
  {
    hide Exec, GroupBy;
    var t := Exec(events);
    if |t.minute| <= 1 && |t.hour| <= 1 {
      merges := [];
      assert events + [] == events;
    } else {
      var m := if |t.minute| > 1 then MergeMinute(0, 1) else MergeHour(0, 1);
      ExecJoin(events, m, []);
      var rest := MergedDown(events + [m]);
      merges := [m] + rest;
      ExecJoin(events, m, rest);
    }
  }

  lemma {:induction false} FinishedWindows(part: Part<MinuteState>)
    ensures |Finished(part)| == |part| && forall i :: 0 <= i < |part| ==> Finished(part)[i].window == part[i].window
  {
    if part != [] { FinishedWindows(part[..|part| - 1]); }
  }

  /** Every part of the hour table holds a window at most once. */
  lemma {:induction false} HourPartsGrouped(events: seq<Event>)
    ensures forall part :: part in Exec(events).hour ==> OnePerWindow(part)
  {
    hide OnePerWindow, GroupBy, ToHours, Finished;
    if events != [] {
      var t, e := Exec(events[..|events| - 1]), events[|events| - 1];
      HourPartsGrouped(events[..|events| - 1]);
      match e
      case Insert(block) => InsertGrouped(RawToMinute(block));
      case MergeMinute(i, j) =>
      case MergeHour(i, j) =>
        if i < j < |t.hour| {
          GroupByWindows(t.hour[i] + t.hour[j], CombineHour);
          assert forall part :: part in Exec(events).hour ==>
            part in t.hour || part == GroupBy(t.hour[i] + t.hour[j], CombineHour);
        }
    }
  }

  lemma InsertGrouped(minute: Part<MinuteState>)
    ensures OnePerWindow(MinuteToHour(minute))
  {
    hide GroupBy, ToHours, Finished;
    GroupByWindows(ToHours(minute), CombineMinute);
    FinishedWindows(GroupBy(ToHours(minute), CombineMinute));
  }

  lemma {:induction false} OnceAtMost(part: Part<HourRow>, w: Window)
    requires OnePerWindow(part)
    ensures SumOf(part, Is(w), One()) <= 1
    ensures (forall e :: e in part ==> e.window != w) ==> SumOf(part, Is(w), One()) == 0
  {
    if part != [] {
      var before, e := part[..|part| - 1], part[|part| - 1];
      assert e in part && forall x :: x in before ==> x in part;
      if e.window == w {
        forall x | x in before ensures x.window != w {
          var i :| 0 <= i < |before| && before[i] == x;
          assert part[i].window != part[|part| - 1].window;
        }
      }
      OnceAtMost(before, w);
    }
  }

  /**
   Merging cures the read view: from any state there are merges after which an hour with data is held
   in a single row, so what the view shows for it is true.
   */
  lemma EnoughMergesMakeReadViewTrue(events: seq<Event>, w: Window) returns (merges: seq<Event>)
    requires forall r :: r in AllRows(Exec(events).blocks) ==> WellFormedRow(r)
    requires 0 < DirectSum(AllRows(Exec(events).blocks), HourRows(w), RawCol(Views)) <= 0x1_0000_0000
    ensures forall m :: m in merges ==> !m.Insert?
    ensures TotalOf(Exec(events + merges).hour, Is(w), One()) == 1
    ensures
      var t := Exec(events + merges);
      forall k, e :: 0 <= k < |t.hour| && e in t.hour[k] && e.window == w ==>
        e.val.views == DirectSum(AllRows(Exec(events).blocks), HourRows(w), RawCol(Views))
  {
    hide Exec, DirectSum, SumOf, WellFormedRow, AllRows, OnePerWindow;
    merges := MergedDown(events);
    var all := events + merges;
    HourPartsGrouped(all);
    AggregatesExact(all, w);
    var hour := Exec(all).hour;
    if hour != [] {
      assert hour[..0] == [] && hour == hour[..0] + [hour[0]];
      assert hour[0] in hour;
      OnceAtMost(hour[0], w);
      TotalOfSnoc([], hour[0], Is(w), One());
    }
    if TotalOf(hour, Is(w), One()) == 0 { TotalOfAbsent(hour, w, HourCol(Views)); }
    ReadViewTrueExactlyWhenMerged(all, w);
  }
}
