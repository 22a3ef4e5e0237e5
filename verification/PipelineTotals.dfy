/**
 From the topic to the hour table: the blocks a run of the pipeline inserts, the raw table they
 make up, and what the hour table shows of them after any background merges.
 */
module PipelineTotals {
  import opened Common
  import opened Ingestion
  import A = Aggregation
  import B = AggregationBounds
  import PageView

  /** What each message of a sequence carries. */
  function Payloads(log: Log, rs: seq<Rec>): seq<PageView.Payload> {
    if rs == [] then [] else Payloads(log, rs[..|rs| - 1]) + [log(rs[|rs| - 1])]
  }

  /** The messages one step writes into page_views_raw. */
  function Written(s: State, a: Action): seq<Rec> {
    if a.InsertAttempt? && CanInsert(s, a.i, a.applied) then if a.ok then s.flights[a.i].batch else a.applied
    else []
  }

  /** All messages a run has written, each as often as it was written. */
  function AllWritten(log: Log, en: bool, acts: seq<Action>): seq<Rec> {
    if acts == [] then [] else
      AllWritten(log, en, acts[..|acts| - 1]) + Written(Exec(log, en, acts[..|acts| - 1]), acts[|acts| - 1])
  }

  /** The blocks of rows the run's insert attempts have written; an attempt that wrote nothing is no block. */
  function Blocks(log: Log, en: bool, acts: seq<Action>, now: int): seq<seq<A.RawRow>> {
    if acts == [] then [] else
      var rs := Written(Exec(log, en, acts[..|acts| - 1]), acts[|acts| - 1]);
      Blocks(log, en, acts[..|acts| - 1], now) + if rs == [] then [] else [PageView.RowsOf(Payloads(log, rs), now)]
  }

  lemma StepWrites(log: Log, en: bool, s: State, a: Action)
    ensures Step(log, en, s, a).raw == s.raw + multiset(Written(s, a))
  {
    hide IsValid, CommitBatch;
  }

  /** The raw table is what the run has written. */
  lemma {:induction false} RawIsWritten(log: Log, en: bool, acts: seq<Action>)
    ensures multiset(AllWritten(log, en, acts)) == Exec(log, en, acts).raw
  {
    hide Step, Written;
    if acts != [] {
      var before, a := acts[..|acts| - 1], acts[|acts| - 1];
      RawIsWritten(log, en, before);
      StepWrites(log, en, Exec(log, en, before), a);
      Concat(AllWritten(log, en, before), Written(Exec(log, en, before), a));
    }
  }

  lemma Concat(xs: seq<Rec>, ys: seq<Rec>)
    ensures multiset(xs + ys) == multiset(xs) + multiset(ys)
  {
  }

  lemma {:induction false} RowsConcat(log: Log, xs: seq<Rec>, ys: seq<Rec>, now: int)
    ensures
      PageView.RowsOf(Payloads(log, xs + ys), now)
        == PageView.RowsOf(Payloads(log, xs), now) + PageView.RowsOf(Payloads(log, ys), now)
    decreases |ys|
  {
    hide PageView.RowsOf, Payloads, RowOf;
    if ys == [] {
      NoRows(log, now);
      assert xs + ys == xs && PageView.RowsOf(Payloads(log, xs), now) + [] == PageView.RowsOf(Payloads(log, xs), now);
    } else {
      var init, r := ys[..|ys| - 1], ys[|ys| - 1];
      RowsConcat(log, xs, init, now);
      assert ys == init + [r];
      Associate(xs, init, [r]);
      OneMoreRow(log, xs + init, r, now);
      OneMoreRow(log, init, r, now);
      Associate(PageView.RowsOf(Payloads(log, xs), now), PageView.RowsOf(Payloads(log, init), now), RowOf(log(r), now));
    }
  }

  function RowOf(p: PageView.Payload, now: int): seq<A.RawRow> {
    var v := PageView.ParseAndValidate(p);
    if v.Valid? then [PageView.ToRaw(PageView.ConvertEventToRow(v.event, 0, 0, now))] else []
  }

  lemma OneMoreRow(log: Log, xs: seq<Rec>, r: Rec, now: int)
    ensures PageView.RowsOf(Payloads(log, xs + [r]), now) == PageView.RowsOf(Payloads(log, xs), now)
      + RowOf(log(r), now)
  {
    hide PageView.ParseAndValidate, PageView.ConvertEventToRow;
    assert (xs + [r])[..|xs|] == xs;
    var ps := Payloads(log, xs + [r]);
    assert ps == Payloads(log, xs) + [log(r)] && ps[..|ps| - 1] == Payloads(log, xs);
  }

  lemma {:induction false} BlocksAreRows(log: Log, en: bool, acts: seq<Action>, now: int)
    ensures A.AllRows(Blocks(log, en, acts, now)) == PageView.RowsOf(Payloads(log, AllWritten(log, en, acts)), now)
  {
    hide Exec, Written, PageView.RowsOf;
    if acts == [] {
      NoRows(log, now);
    } else {
      var before, a := acts[..|acts| - 1], acts[|acts| - 1];
      var rs := Written(Exec(log, en, before), a);
      BlocksAreRows(log, en, before, now);
      RowsConcat(log, AllWritten(log, en, before), rs, now);
      if rs == [] {
        assert AllWritten(log, en, before) + [] == AllWritten(log, en, before);
        assert Blocks(log, en, before, now) + [] == Blocks(log, en, before, now);
      } else {
        A.AllRowsSnoc(Blocks(log, en, before, now), PageView.RowsOf(Payloads(log, rs), now));
      }
    }
  }

  lemma NoRows(log: Log, now: int)
    ensures Payloads(log, []) == [] && PageView.RowsOf([], now) == []
  {
  }

  // ---------------------------------------------------------------- what the raw table is worth

  /** What one stored copy of a message adds to a column of an hour and page. */
  function WorthOf(log: Log, w: A.Window, c: A.Column, r: Rec): nat {
    if PageView.ViewsIn(log(r), w) then PageView.Worth(c, log(r).value) else 0
  }

  function TotalWorth(log: Log, w: A.Window, c: A.Column, rs: seq<Rec>): nat {
    if rs == [] then 0 else TotalWorth(log, w, c, rs[..|rs| - 1]) + WorthOf(log, w, c, rs[|rs| - 1])
  }

  lemma {:induction false} EventTotalIsWorth(log: Log, w: A.Window, c: A.Column, rs: seq<Rec>)
    ensures PageView.EventTotal(Payloads(log, rs), w, c) == TotalWorth(log, w, c, rs)
  {
    hide PageView.ViewsIn, PageView.Worth;
    if rs != [] {
      var init := rs[..|rs| - 1];
      EventTotalIsWorth(log, w, c, init);
      var ps := Payloads(log, rs);
      assert ps[..|ps| - 1] == Payloads(log, init);
    }
  }

  lemma {:induction false} WorthConcat(log: Log, w: A.Window, c: A.Column, xs: seq<Rec>, ys: seq<Rec>)
    ensures TotalWorth(log, w, c, xs + ys) == TotalWorth(log, w, c, xs) + TotalWorth(log, w, c, ys)
    decreases |ys|
  {
    hide WorthOf;
    if ys == [] {
      assert xs + ys == xs;
    } else {
      assert (xs + ys)[..|xs + ys| - 1] == xs + ys[..|ys| - 1];
      WorthConcat(log, w, c, xs, ys[..|ys| - 1]);
    }
  }

  /** Taking one element out of two sequences with the same elements. */
  lemma TakeOut(xs: seq<Rec>, ys: seq<Rec>, i: nat)
    requires multiset(xs) == multiset(ys) && xs != [] && i < |ys| && ys[i] == xs[|xs| - 1]
    ensures multiset(xs[..|xs| - 1]) == multiset(ys[..i] + ys[i + 1..])
  {
    var r := ys[i];
    var init, rest := xs[..|xs| - 1], ys[..i] + ys[i + 1..];
    assert xs == init + [r];
    SplitAt(ys, i);
    Concat(init, [r]);
    Concat(ys[..i] + [r], ys[i + 1..]);
    Concat(ys[..i], [r]);
    Concat(ys[..i], ys[i + 1..]);
    Cancel(multiset(init), multiset(rest), multiset([r]));
  }

  lemma Cancel(a: multiset<Rec>, b: multiset<Rec>, c: multiset<Rec>)
    requires a + c == b + c
    ensures a == b
  {
    assert a + c - c == a && b + c - c == b;
  }

  lemma WorthWithout(log: Log, w: A.Window, c: A.Column, ys: seq<Rec>, i: nat)
    requires i < |ys|
    ensures TotalWorth(log, w, c, ys) == TotalWorth(log, w, c, ys[..i] + ys[i + 1..]) + WorthOf(log, w, c, ys[i])
  {
    hide WorthOf;
    SplitAt(ys, i);
    WorthConcat(log, w, c, ys[..i] + [ys[i]], ys[i + 1..]);
    WorthConcat(log, w, c, ys[..i], [ys[i]]);
    WorthConcat(log, w, c, ys[..i], ys[i + 1..]);
    assert [ys[i]][..0] == [];
  }

  /** The total does not depend on the order in which the rows were written. */
  lemma {:induction false} WorthOfRows(log: Log, w: A.Window, c: A.Column, xs: seq<Rec>, ys: seq<Rec>)
    requires multiset(xs) == multiset(ys)
    ensures TotalWorth(log, w, c, xs) == TotalWorth(log, w, c, ys)
    decreases |xs|
  {
    hide WorthOf;
    if xs == [] {
      assert |multiset(ys)| == 0;
    } else {
      var r := xs[|xs| - 1];
      assert r in multiset(xs) && r in ys;
      var i :| 0 <= i < |ys| && ys[i] == r;
      TakeOut(xs, ys, i);
      WorthOfRows(log, w, c, xs[..|xs| - 1], ys[..i] + ys[i + 1..]);
      WorthWithout(log, w, c, ys, i);
    }
  }

  /**
   End to end.  After any run of the pipeline, with crashes, retries and overlapping flushes, and any
   background merges of the blocks it inserted, each column of an hour and page is the worth of
   the rows in page_views_raw, every copy counted once.
   */
  lemma HourTotalsCountRaw(log: Log, en: bool, acts: seq<Action>, now: int, events: seq<A.Event>, w: A.Window,
      rs: seq<Rec>)
    requires A.Exec(events).blocks == Blocks(log, en, acts, now)
    requires multiset(rs) == Exec(log, en, acts).raw && TotalWorth(log, w, A.Views, rs) <= PageView.WORD32
    ensures forall c :: A.TotalOf(A.Exec(events).hour, A.Is(w), A.HourCol(c)) == TotalWorth(log, w, c, rs)
  {
    hide A.Exec, Exec, PageView.RowsOf, A.TotalOf, TotalWorth, WorthOf, AllWritten, Blocks;
    var written := AllWritten(log, en, acts);
    RawIsWritten(log, en, acts);
    BlocksAreRows(log, en, acts, now);
    forall c ensures PageView.EventTotal(Payloads(log, written), w, c) == TotalWorth(log, w, c, rs) {
      EventTotalIsWorth(log, w, c, written);
      WorthOfRows(log, w, c, written, rs);
    }
    PageView.HourTotalsCountEvents(events, Payloads(log, written), now, w);
  }

  lemma {:induction false} PayloadsMember(log: Log, rs: seq<Rec>, p: PageView.Payload)
    ensures p in Payloads(log, rs) <==> exists r :: r in rs && p == log(r)
  {
    if rs != [] {
      PayloadsMember(log, rs[..|rs| - 1], p);
      assert rs == rs[..|rs| - 1] + [rs[|rs| - 1]];
    }
  }

  /**
   End to end for the users: after any run of the pipeline and any merges, the merged user states of a
   minute and page are exactly the users of the well-formed views that have a row in page_views_raw.
   */
  lemma MinuteUsersAreRaw(log: Log, en: bool, acts: seq<Action>, now: int, events: seq<A.Event>, w: A.Window)
    requires A.Exec(events).blocks == Blocks(log, en, acts, now)
    ensures B.MinuteUsers(A.Exec(events).minute, A.Is(w)) ==
      set r | r in Exec(log, en, acts).raw && log(r).Some? && log(r).value.pageId == w.page && w.page != ""
        && log(r).value.userId != "" && log(r).value.viewDuration > 0 && log(r).value.timestamp.Some?
        && log(r).value.timestamp.value / 60_000 == w.start
        :: log(r).value.userId
  {
    hide A.Exec, Exec, PageView.RowsOf, B.MinuteUsers, AllWritten, Blocks, Payloads;
    var written := AllWritten(log, en, acts);
    RawIsWritten(log, en, acts);
    BlocksAreRows(log, en, acts, now);
    PageView.MinuteUsersCountMessages(events, Payloads(log, written), now, w);
    forall p ensures p in Payloads(log, written) <==> exists r :: r in written && p == log(r) {
      PayloadsMember(log, written, p);
    }
    assert forall r :: r in written <==> r in multiset(written);
  }
}
