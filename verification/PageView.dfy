/** A page view event, its validation, and the row it becomes in page_views_raw. */
module PageView {
  import opened Common
  import Aggregation
  import AggregationBounds

  /** Timestamps are milliseconds since 1970; None is Go's zero time. */
  datatype Event = Event(
    pageId: string, userId: string, viewDuration: int, timestamp: Option<int>, region: string, isBounce: bool)

  /** A Kafka message value: the decoded event, or nothing when it is not valid JSON. */
  type Payload = Option<Event>

  datatype Verdict = Valid(event: Event) | Invalid(reason: string)

  function ParseAndValidate(p: Payload): Verdict {
    match p
    case None => Invalid("json parse")
    case Some(ev) =>
      if ev.pageId == "" then Invalid("empty page_id")
      else if ev.userId == "" then Invalid("empty user_id")
      else if ev.viewDuration <= 0 then Invalid("duration <= 0")
      else if ev.timestamp.None? then Invalid("zero timestamp")
      else Valid(ev)
  }

  /** The columns of page_views_raw that depend on the event; user agent and address are passed through and left out. */
  datatype PageViewRow = PageViewRow(
    eventDate: int, eventTime: int, pageId: string, userId: string, durationMs: nat, region: string, isBounce: nat,
    kafkaOffset: nat, kafkaPartition: nat, processedTime: int)

  const DAY_MS := 86_400_000
  const WORD32 := 0x1_0000_0000

  function ConvertEventToRow(ev: Event, offset: nat, partition: nat, now: int): PageViewRow {
    var t := if ev.timestamp.Some? then ev.timestamp.value else now;
    PageViewRow(
      t / DAY_MS, t, ev.pageId, ev.userId,
      ev.viewDuration % WORD32,
      ev.region,
      if ev.isBounce || ev.viewDuration < 5000 then 1 else 0,
      offset, partition, now)
  }

  /** What the materialised views read of a row. */
  function ToRaw(row: PageViewRow): Aggregation.RawRow {
    Aggregation.RawRow(row.eventTime, row.pageId, row.userId, row.durationMs, row.isBounce)
  }

  /**
   A valid event becomes a row the aggregate bounds apply to, with its own page, user and region and
   the message's position, dated by its own timestamp; the 32-bit duration is the event's exactly when it is below 2^32.
   */
  lemma ConvertedRow(p: Payload, offset: nat, partition: nat, now: int)
    requires ParseAndValidate(p).Valid?
    ensures
      var ev := ParseAndValidate(p).event;
      var row := ConvertEventToRow(ev, offset, partition, now);
      && AggregationBounds.WellFormedRow(ToRaw(row))
      && p == Some(ev) && ev.timestamp == Some(row.eventTime)
      && row.pageId == ev.pageId && row.userId == ev.userId && row.region == ev.region
      && row.kafkaOffset == offset && row.kafkaPartition == partition && row.processedTime == now
      && row.eventDate * 86_400_000 <= row.eventTime < (row.eventDate + 1) * 86_400_000
      && (row.durationMs == ev.viewDuration <==> ev.viewDuration < 0x1_0000_0000)
      && (row.isBounce == 1 <==> ev.isBounce || ev.viewDuration < 5000)
  {
  }

  /** The rows a sequence of messages contributes to page_views_raw. */
  function RowsOf(messages: seq<Payload>, now: int): seq<Aggregation.RawRow> {
    if messages == [] then [] else
      var p := messages[|messages| - 1];
      RowsOf(messages[..|messages| - 1], now)
      + if ParseAndValidate(p).Valid? then [ToRaw(ConvertEventToRow(ParseAndValidate(p).event, 0, 0, now))] else []
  }

  /** A decoded, named, positive-length view of the page in the hour. */
  predicate ViewsIn(p: Payload, w: Aggregation.Window) {
    && p.Some? && p.value.pageId == w.page && w.page != "" && p.value.userId != "" && p.value.viewDuration > 0
    && p.value.timestamp.Some? && p.value.timestamp.value / 3_600_000 == w.start
  }

  /**
   What one such view is worth: one view, its duration in 32 bits, and a bounce when flagged or
   shorter than five seconds.
   */
  function Worth(c: Aggregation.Column, ev: Event): nat {
    match c
    case Views => 1
    case Duration => ev.viewDuration % WORD32
    case Bounces => if ev.isBounce || ev.viewDuration < 5000 then 1 else 0
  }

  function EventTotal(messages: seq<Payload>, w: Aggregation.Window, c: Aggregation.Column): nat {
    if messages == [] then 0 else
      var p := messages[|messages| - 1];
      EventTotal(messages[..|messages| - 1], w, c) + if ViewsIn(p, w) then Worth(c, p.value) else 0
  }

  lemma OneRow(r: Aggregation.RawRow, w: Aggregation.Window, c: Aggregation.Column)
    ensures Aggregation.DirectSum([r], Aggregation.HourRows(w), Aggregation.RawCol(c))
      == if Aggregation.InHour(r, w) then Aggregation.RawCol(c)(r) else 0
  {
    assert [r][..0] == [];
  }

  lemma RowsOfOne(p: Payload, now: int)
    ensures RowsOf([p], now) == if ParseAndValidate(p).Valid?
      then [ToRaw(ConvertEventToRow(ParseAndValidate(p).event, 0, 0, now))] else []
  {
    hide ParseAndValidate, ConvertEventToRow;
    assert [p][..0] == [] && RowsOf([], now) == [];
  }

  lemma OneMessageCounts(p: Payload, now: int, w: Aggregation.Window, c: Aggregation.Column)
    ensures
      Aggregation.DirectSum(RowsOf([p], now), Aggregation.HourRows(w), Aggregation.RawCol(c))
        == if ViewsIn(p, w) then Worth(c, p.value) else 0
    ensures forall r :: r in RowsOf([p], now) ==> AggregationBounds.WellFormedRow(r)
  {
    hide Aggregation.DirectSum, RowsOf;
    RowsOfOne(p, now);
    NothingCounts(w, c);
    if ParseAndValidate(p).Valid? {
      OneRow(ToRaw(ConvertEventToRow(ParseAndValidate(p).event, 0, 0, now)), w, c);
    }
  }

  lemma {:induction false} MessagesCount(messages: seq<Payload>, now: int, w: Aggregation.Window, c: Aggregation.Column)
    ensures Aggregation.DirectSum(RowsOf(messages, now), Aggregation.HourRows(w), Aggregation.RawCol(c))
      == EventTotal(messages, w, c)
    ensures forall r :: r in RowsOf(messages, now) ==> AggregationBounds.WellFormedRow(r)
  {
    hide ParseAndValidate, ConvertEventToRow, ViewsIn, Worth, Aggregation.DirectSum, AggregationBounds.WellFormedRow;
    if messages == [] {
      NothingCounts(w, c);
    } else {
      var before, p := messages[..|messages| - 1], messages[|messages| - 1];
      MessagesCount(before, now, w, c);
      OneMessageCounts(p, now, w, c);
      assert [p][..0] == [] && RowsOf([], now) == [];
      assert RowsOf(messages, now) == RowsOf(before, now) + RowsOf([p], now);
      Aggregation.DirectSumConcat(RowsOf(before, now), RowsOf([p], now), Aggregation.HourRows(w),
        Aggregation.RawCol(c));
    }
  }

  lemma NothingCounts(w: Aggregation.Window, c: Aggregation.Column)
    ensures Aggregation.DirectSum([], Aggregation.HourRows(w), Aggregation.RawCol(c)) == 0
  {
  }

  /**
   From messages to the hour table.  When the raw rows are those of the messages, in any blocks and
   with any merges since, the hour and page add up to exactly what its well-formed views are
   worth: malformed messages count nowhere and each other one once, under its own time.
   */
  lemma HourTotalsCountEvents(events: seq<Aggregation.Event>, messages: seq<Payload>, now: int, w: Aggregation.Window)
    requires Aggregation.AllRows(Aggregation.Exec(events).blocks) == RowsOf(messages, now)
    requires EventTotal(messages, w, Aggregation.Views) <= WORD32
    ensures forall c ::
      Aggregation.TotalOf(Aggregation.Exec(events).hour, Aggregation.Is(w), Aggregation.HourCol(c))
        == EventTotal(messages, w, c)
  {
    hide Aggregation.DirectSum, Aggregation.TotalOf, Aggregation.Exec, EventTotal, RowsOf;
    MessagesCount(messages, now, w, Aggregation.Views);
    AggregationBounds.AggregatesExact(events, w);
    forall c
      ensures Aggregation.TotalOf(Aggregation.Exec(events).hour, Aggregation.Is(w), Aggregation.HourCol(c))
        == EventTotal(messages, w, c)
    {
      MessagesCount(messages, now, w, c);
    }
  }

  // ---------------------------------------------------------------- users

  lemma {:induction false} RowsOfMember(messages: seq<Payload>, now: int, r: Aggregation.RawRow)
    ensures r in RowsOf(messages, now) <==> exists p ::
      p in messages && ParseAndValidate(p).Valid? && r == ToRaw(ConvertEventToRow(ParseAndValidate(p).event, 0, 0, now))
  {
    hide ParseAndValidate, ConvertEventToRow;
    if messages != [] {
      var before, p := messages[..|messages| - 1], messages[|messages| - 1];
      assert messages == before + [p];
      RowsOfMember(before, now, r);
    }
  }

  /** The users whose raw rows a choice of rows picks are those of the valid messages it picks. */
  lemma UsersOfRows(messages: seq<Payload>, now: int, chosen: Aggregation.RawRow -> bool)
    ensures Aggregation.DirectUsers(RowsOf(messages, now), chosen) ==
      set p | p in messages && ParseAndValidate(p).Valid?
        && chosen(ToRaw(ConvertEventToRow(ParseAndValidate(p).event, 0, 0, now))) :: p.value.userId
  {
    hide RowsOf;
    var rows := RowsOf(messages, now);
    forall r ensures r in rows <==> exists p ::
      p in messages && ParseAndValidate(p).Valid? && r == ToRaw(ConvertEventToRow(ParseAndValidate(p).event, 0, 0, now))
    {
      RowsOfMember(messages, now, r);
    }
    forall p | p in messages && ParseAndValidate(p).Valid?
      ensures ToRaw(ConvertEventToRow(ParseAndValidate(p).event, 0, 0, now)) in rows
    {
    }
  }

  /** The distinct users of an hour and page are those of its decoded, named, positive-length, dated views. */
  lemma HourUsersOfMessages(messages: seq<Payload>, now: int, w: Aggregation.Window)
    ensures Aggregation.DirectUsers(RowsOf(messages, now), Aggregation.HourRows(w)) ==
      set p | p in messages && p.Some? && p.value.pageId == w.page && w.page != "" && p.value.userId != ""
        && p.value.viewDuration > 0 && p.value.timestamp.Some? && p.value.timestamp.value / 3_600_000 == w.start
        :: p.value.userId
  {
    hide Aggregation.DirectUsers, RowsOf;
    UsersOfRows(messages, now, Aggregation.HourRows(w));
  }

  /**
   From messages to the minute table: whatever the blocks and merges, the merged user states of a minute
   and page are exactly the users of its well-formed views.
   */
  lemma MinuteUsersCountMessages(events: seq<Aggregation.Event>, messages: seq<Payload>, now: int,
      w: Aggregation.Window)
    requires Aggregation.AllRows(Aggregation.Exec(events).blocks) == RowsOf(messages, now)
    ensures AggregationBounds.MinuteUsers(Aggregation.Exec(events).minute, Aggregation.Is(w)) ==
      set p | p in messages && p.Some? && p.value.pageId == w.page && w.page != "" && p.value.userId != ""
        && p.value.viewDuration > 0 && p.value.timestamp.Some? && p.value.timestamp.value / 60_000 == w.start
        :: p.value.userId
  {
    hide Aggregation.DirectUsers, RowsOf, Aggregation.Exec, AggregationBounds.MinuteUsers;
    AggregationBounds.MinuteUsersExact(events, w);
    UsersOfRows(messages, now, Aggregation.MinuteRows(w));
  }

  /** The users of an hour's well-formed views. */
  function UsersIn(messages: seq<Payload>, w: Aggregation.Window): set<string> {
    set p | p in messages && ViewsIn(p, w) :: p.value.userId
  }

  /** The distinct users of an hour and page in each insert block, added over the blocks. */
  function BlockUsers(batches: seq<seq<Payload>>, w: Aggregation.Window): nat {
    if batches == [] then 0 else
      BlockUsers(batches[..|batches| - 1], w) + |UsersIn(batches[|batches| - 1], w)|
  }

  lemma {:induction false} BlockUsersOfMessages(blocks: seq<seq<Aggregation.RawRow>>, batches: seq<seq<Payload>>,
      now: int, w: Aggregation.Window)
    requires |blocks| == |batches| && forall i :: 0 <= i < |blocks| ==> blocks[i] == RowsOf(batches[i], now)
    ensures AggregationBounds.BlockUniques(blocks, w) == BlockUsers(batches, w)
  {
    hide Aggregation.DirectUsers, RowsOf;
    if batches != [] {
      var last := batches[|batches| - 1];
      BlockUsersOfMessages(blocks[..|blocks| - 1], batches[..|batches| - 1], now, w);
      HourUsersOfMessages(last, now, w);
      assert UsersIn(last, w) == Aggregation.DirectUsers(RowsOf(last, now), Aggregation.HourRows(w));
    }
  }

  /**
   From messages to the hour table's unique_users: whatever the merges, an hour and page add up to the
   users of its well-formed views, counted once per insert block (modulo 2^64).
   */
  lemma HourUniquesCountUsers(events: seq<Aggregation.Event>, batches: seq<seq<Payload>>, now: int,
      w: Aggregation.Window)
    requires
      var blocks := Aggregation.Exec(events).blocks;
      |blocks| == |batches| && forall i :: 0 <= i < |blocks| ==> blocks[i] == RowsOf(batches[i], now)
    ensures
      var shown := Aggregation.TotalOf(Aggregation.Exec(events).hour, Aggregation.Is(w), Aggregation.UniquesCol());
      && shown % 0x1_0000_0000_0000_0000 == BlockUsers(batches, w) % 0x1_0000_0000_0000_0000
      && (BlockUsers(batches, w) < 0x1_0000_0000_0000_0000 ==> shown == BlockUsers(batches, w))
  {
    hide Aggregation.TotalOf, Aggregation.Exec, RowsOf, BlockUsers, AggregationBounds.BlockUniques;
    AggregationBounds.UniquesAreBlockUniques(events, w);
    BlockUsersOfMessages(Aggregation.Exec(events).blocks, batches, now, w);
  }
}
