/**
 The event ledger and its aggregation into a "today" row and a lifetime row.

 Dates are opaque strings supplied by the caller (the source formats the clock
 as `yyyy-MM-dd`). Rates are exact fractions rather than floating point.
 */
module Analytics {
  import opened Messages

  datatype MessageEvent = Received | Displayed | Clicked | Read | ButtonClicked

  /** One tracked occurrence; `id` and `timestamp` come from the caller. */
  datatype EventRecord = EventRecord(
    id: string, event: MessageEvent, messageId: string, messageType: MessageType, timestamp: int)

  datatype TypeStats = TypeStats(received: nat, displayed: nat, clicked: nat, read: nat)

  datatype DailyStats = DailyStats(
    dateString: string,
    totalReceived: nat,
    totalDisplayed: nat,
    totalClicked: nat,
    totalRead: nat,
    unreadCount: nat,
    typeStats: map<string, TypeStats>)

  /** The manager's state: today's row, the weekly buffer, the lifetime row, the event log. */
  datatype Ledger = Ledger(
    today: DailyStats, weekly: seq<DailyStats>, total: DailyStats, events: seq<EventRecord>)

  /** A fresh row for a date, all counters zero. */
  function EmptyStats(date: string): DailyStats {
    DailyStats(date, 0, 0, 0, 0, 0, map[])
  }

  const ZeroType: TypeStats := TypeStats(0, 0, 0, 0)

  // ---------------------------------------------------------------------------
  // Rates
  // ---------------------------------------------------------------------------

  /** An exact percentage `num / den`. */
  datatype Rate = Rate(num: nat, den: nat)

  /** `part / whole * 100`, or 0 when `whole` is 0. */
  function Percent(part: nat, whole: nat): (r: Rate)
    ensures r.den > 0
    ensures whole > 0 ==> r.num * whole == 100 * part * r.den
    ensures whole == 0 ==> r.num == 0
  {
    if whole > 0 then Rate(100 * part, whole) else Rate(0, 1)
  }

  /** `DailyStats.ctr`: clicks per display, in percent. */
  function Ctr(s: DailyStats): (r: Rate)
    ensures r.den > 0
    ensures s.totalDisplayed > 0 ==> r.num * s.totalDisplayed == 100 * s.totalClicked * r.den
    ensures s.totalDisplayed == 0 ==> r.num == 0
  {
    Percent(s.totalClicked, s.totalDisplayed)
  }

  /** `DailyStats.readRate`: reads per received message, in percent. */
  function ReadRate(s: DailyStats): (r: Rate)
    ensures r.den > 0
    ensures s.totalReceived > 0 ==> r.num * s.totalReceived == 100 * s.totalRead * r.den
    ensures s.totalReceived == 0 ==> r.num == 0
  {
    Percent(s.totalRead, s.totalReceived)
  }

  /** `TypeStats.recallRate`: clicks per received message, in percent. */
  function RecallRate(t: TypeStats): (r: Rate)
    ensures r.den > 0
    ensures t.received > 0 ==> r.num * t.received == 100 * t.clicked * r.den
    ensures t.received == 0 ==> r.num == 0
  {
    Percent(t.clicked, t.received)
  }

  /** `TypeStats.ctr`: clicks per display, in percent. */
  function TypeCtr(t: TypeStats): (r: Rate)
    ensures r.den > 0
    ensures t.displayed > 0 ==> r.num * t.displayed == 100 * t.clicked * r.den
    ensures t.displayed == 0 ==> r.num == 0
  {
    Percent(t.clicked, t.displayed)
  }

  // ---------------------------------------------------------------------------
  // Counters
  // ---------------------------------------------------------------------------

  /** The four counters an event can bump, both in a row and in a type entry. */
  datatype Counter = ReceivedCount | DisplayedCount | ClickedCount | ReadCount

  /** The reference table of effects: which counter each event kind increments. */
  function Delta(e: MessageEvent, c: Counter): nat {
    match e
    case Received => if c == ReceivedCount then 1 else 0
    case Displayed => if c == DisplayedCount then 1 else 0
    case Clicked => if c == ClickedCount then 1 else 0
    case ButtonClicked => if c == ClickedCount then 1 else 0
    case Read => if c == ReadCount then 1 else 0
  }

  function Total(s: DailyStats, c: Counter): nat {
    match c
    case ReceivedCount => s.totalReceived
    case DisplayedCount => s.totalDisplayed
    case ClickedCount => s.totalClicked
    case ReadCount => s.totalRead
  }

  function Get(t: TypeStats, c: Counter): nat {
    match c
    case ReceivedCount => t.received
    case DisplayedCount => t.displayed
    case ClickedCount => t.clicked
    case ReadCount => t.read
  }

  /** A type entry's counter, reading a missing entry as zero. */
  function TypeCount(m: map<string, TypeStats>, key: string, c: Counter): nat {
    if key in m then Get(m[key], c) else 0
  }

  /** One event's increments on a type entry. */
  function BumpType(t: TypeStats, e: MessageEvent): (r: TypeStats)
    ensures forall c :: Get(r, c) == Get(t, c) + Delta(e, c)
  {
    match e
    case Received => t.(received := t.received + 1)
    case Displayed => t.(displayed := t.displayed + 1)
    case Clicked => t.(clicked := t.clicked + 1)
    case ButtonClicked => t.(clicked := t.clicked + 1)
    case Read => t.(read := t.read + 1)
  }

  /**
   The increments both rows receive: one total counter and the same counter of
   the type entry for `key`, created as zero if missing.
   */
  function Count(s: DailyStats, e: MessageEvent, key: string): (r: DailyStats)
    ensures r.typeStats.Keys == s.typeStats.Keys + {key}
    ensures r.dateString == s.dateString && r.unreadCount == s.unreadCount
  {
    var t := if key in s.typeStats then s.typeStats[key] else ZeroType;
    var ts := s.typeStats[key := BumpType(t, e)];
    match e
    case Received => s.(totalReceived := s.totalReceived + 1, typeStats := ts)
    case Displayed => s.(totalDisplayed := s.totalDisplayed + 1, typeStats := ts)
    case Clicked => s.(totalClicked := s.totalClicked + 1, typeStats := ts)
    case ButtonClicked => s.(totalClicked := s.totalClicked + 1, typeStats := ts)
    case Read => s.(totalRead := s.totalRead + 1, typeStats := ts)
  }

  /** Counting bumps exactly the event's counter, in total and in the entry for `key`, and no other entry. */
  lemma CountEffect(s: DailyStats, e: MessageEvent, key: string)
    ensures var r := Count(s, e, key);
            && (forall c :: Total(r, c) == Total(s, c) + Delta(e, c))
            && (forall c :: TypeCount(r.typeStats, key, c) == TypeCount(s.typeStats, key, c) + Delta(e, c))
            && (forall k, c :: k != key ==> TypeCount(r.typeStats, k, c) == TypeCount(s.typeStats, k, c))
  {
  }

  /** Today's unread counter: up on receipt, down (never below zero) on read. */
  function AdjustUnread(unread: nat, e: MessageEvent): (r: nat)
    ensures e == Received ==> r == unread + 1
    ensures e == Read ==> r + 1 >= unread && r <= unread && (unread > 0 ==> r == unread - 1)
    ensures e != Received && e != Read ==> r == unread
  {
    match e
    case Received => unread + 1
    case Read => if unread - 1 > 0 then unread - 1 else 0
    case _ => unread
  }

  /** Today's row as the update sees it: replaced by a zeroed row when the date has changed. */
  function Current(s: DailyStats, date: string): (r: DailyStats)
    ensures r.dateString == date
    ensures s.dateString == date ==> r == s
    ensures s.dateString != date ==> forall c :: Total(r, c) == 0
    ensures s.dateString != date ==> r.unreadCount == 0 && r.typeStats == map[]
  {
    if s.dateString != date then EmptyStats(date) else s
  }

  /**
   `updateStats`: roll today's row over if the date changed, then apply the
   event to today's row and the lifetime row. The lifetime unread counter and
   the weekly buffer are never touched.
   */
  function UpdateStats(a: Ledger, rec: EventRecord, date: string): (r: Ledger)
    ensures r.today.dateString == date
    ensures r.weekly == a.weekly && r.events == a.events
  {
    var key := TypeKey(rec.messageType);
    var today := Count(Current(a.today, date), rec.event, key);
    a.(today := today.(unreadCount := AdjustUnread(today.unreadCount, rec.event)),
       total := Count(a.total, rec.event, key))
  }

  /**
   What one update does: today's row (after any rollover) and the lifetime row
   each gain exactly the event's counter, in total and in the event's type entry;
   no other type entry changes; today's unread counter follows the event.
   */
  lemma UpdateStatsCounts(a: Ledger, rec: EventRecord, date: string)
    ensures var r := UpdateStats(a, rec, date);
            && (forall c :: Total(r.today, c) == Total(Current(a.today, date), c) + Delta(rec.event, c))
            && (forall c :: Total(r.total, c) == Total(a.total, c) + Delta(rec.event, c))
            && (forall c :: TypeCount(r.today.typeStats, TypeKey(rec.messageType), c)
                     == TypeCount(Current(a.today, date).typeStats, TypeKey(rec.messageType), c) + Delta(rec.event, c))
            && (forall c :: TypeCount(r.total.typeStats, TypeKey(rec.messageType), c)
                     == TypeCount(a.total.typeStats, TypeKey(rec.messageType), c) + Delta(rec.event, c))
            && (forall k, c :: k != TypeKey(rec.messageType) ==>
                  TypeCount(r.today.typeStats, k, c) == TypeCount(Current(a.today, date).typeStats, k, c)
                  && TypeCount(r.total.typeStats, k, c) == TypeCount(a.total.typeStats, k, c))
            && TypeKey(rec.messageType) in r.today.typeStats && TypeKey(rec.messageType) in r.total.typeStats
            && r.today.unreadCount == AdjustUnread(Current(a.today, date).unreadCount, rec.event)
            && r.total.unreadCount == a.total.unreadCount && r.total.dateString == a.total.dateString
  {
    CountEffect(Current(a.today, date), rec.event, TypeKey(rec.messageType));
    CountEffect(a.total, rec.event, TypeKey(rec.messageType));
  }

  /** `trackEvent`: append one record to the log and apply exactly one stats update. */
  function TrackEvent(a: Ledger, event: MessageEvent, messageId: string, messageType: MessageType,
                      eventId: string, timestamp: int, date: string): (r: Ledger)
    ensures r.events == a.events + [EventRecord(eventId, event, messageId, messageType, timestamp)]
    ensures r.(events := a.events)
         == UpdateStats(a, EventRecord(eventId, event, messageId, messageType, timestamp), date)
  {
    var rec := EventRecord(eventId, event, messageId, messageType, timestamp);
    UpdateStats(a.(events := a.events + [rec]), rec, date)
  }

  /** A button click is counted exactly like a click. */
  lemma ButtonClickedIsClicked(a: Ledger, rec: EventRecord, date: string)
    ensures UpdateStats(a, rec.(event := ButtonClicked), date) == UpdateStats(a, rec.(event := Clicked), date)
  {
  }

  // ---------------------------------------------------------------------------
  // Sequences of events
  // ---------------------------------------------------------------------------

  /** Tracks one record on the given date. */
  function Step(a: Ledger, rec: EventRecord, date: string): Ledger {
    TrackEvent(a, rec.event, rec.messageId, rec.messageType, rec.id, rec.timestamp, date)
  }

  /** Tracks every record of `recs` in order on one date. */
  function Replay(a: Ledger, recs: seq<EventRecord>, date: string): (r: Ledger)
    decreases |recs|
  {
    if |recs| == 0 then a
    else Step(Replay(a, recs[..|recs| - 1], date), recs[|recs| - 1], date)
  }

  /** Replaying appends every record to the log, in order. */
  lemma {:induction false} ReplayLogs(a: Ledger, recs: seq<EventRecord>, date: string)
    ensures Replay(a, recs, date).events == a.events + recs
  {
    if |recs| > 0 {
      ReplayLogs(a, recs[..|recs| - 1], date);
      assert recs == recs[..|recs| - 1] + [recs[|recs| - 1]];
    }
  }

  /** Replaying one more record is one more step. */
  lemma ReplaySnoc(a: Ledger, recs: seq<EventRecord>, rec: EventRecord, date: string)
    ensures Replay(a, recs + [rec], date) == Step(Replay(a, recs, date), rec, date)
  {
    var zs := recs + [rec];
    assert zs[..|zs| - 1] == recs;
    assert zs[|zs| - 1] == rec;
  }

  /** Replaying a concatenation is replaying the parts one after the other. */
  lemma {:induction false} ReplayAppend(a: Ledger, xs: seq<EventRecord>, ys: seq<EventRecord>, date: string)
    ensures Replay(a, xs + ys, date) == Replay(Replay(a, xs, date), ys, date)
    decreases |ys|
  {
    if |ys| == 0 {
      assert xs + ys == xs;
    } else {
      var front := ys[..|ys| - 1];
      var y := ys[|ys| - 1];
      assert ys == front + [y];
      assert xs + ys == (xs + front) + [y];
      ReplayAppend(a, xs, front, date);
      ReplaySnoc(a, xs + front, y, date);
      ReplaySnoc(Replay(a, xs, date), front, y, date);
    }
  }

  /** One step on the current date: today's counters gain the event's increments, and unread follows it. */
  lemma StepOnDate(b: Ledger, rec: EventRecord, date: string)
    requires b.today.dateString == date
    ensures var r := Step(b, rec, date);
            && r.today.dateString == date
            && (forall c :: Total(r.today, c) == Total(b.today, c) + Delta(rec.event, c))
            && r.today.unreadCount == AdjustUnread(b.today.unreadCount, rec.event)
  {
    UpdateStatsCounts(b.(events := b.events + [rec]), rec, date);
  }

  /** `n` receipts on the current date add `n` to today's received and unread counters. */
  lemma {:induction false} ReplayReceived(a: Ledger, recs: seq<EventRecord>, date: string)
    requires a.today.dateString == date
    requires forall i :: 0 <= i < |recs| ==> recs[i].event == Received
    ensures var r := Replay(a, recs, date);
            && r.today.dateString == date
            && r.today.totalReceived == a.today.totalReceived + |recs|
            && r.today.unreadCount == a.today.unreadCount + |recs|
            && r.today.totalRead == a.today.totalRead
  {
    if |recs| > 0 {
      var b := Replay(a, recs[..|recs| - 1], date);
      ReplayReceived(a, recs[..|recs| - 1], date);
      StepOnDate(b, recs[|recs| - 1], date);
      assert Total(Step(b, recs[|recs| - 1], date).today, ReceivedCount) == b.today.totalReceived + 1;
      assert Total(Step(b, recs[|recs| - 1], date).today, ReadCount) == b.today.totalRead;
    }
  }

  /** `k` reads on the current date, with at least `k` unread, add `k` to reads and remove `k` unread. */
  lemma {:induction false} ReplayRead(a: Ledger, recs: seq<EventRecord>, date: string)
    requires a.today.dateString == date
    requires |recs| <= a.today.unreadCount
    requires forall i :: 0 <= i < |recs| ==> recs[i].event == Read
    ensures var r := Replay(a, recs, date);
            && r.today.dateString == date
            && r.today.totalReceived == a.today.totalReceived
            && r.today.unreadCount == a.today.unreadCount - |recs|
            && r.today.totalRead == a.today.totalRead + |recs|
  {
    if |recs| > 0 {
      var b := Replay(a, recs[..|recs| - 1], date);
      ReplayRead(a, recs[..|recs| - 1], date);
      StepOnDate(b, recs[|recs| - 1], date);
      assert Total(Step(b, recs[|recs| - 1], date).today, ReceivedCount) == b.today.totalReceived;
      assert Total(Step(b, recs[|recs| - 1], date).today, ReadCount) == b.today.totalRead + 1;
    }
  }

  /** The first receipt of a new date leaves one received, one unread, nothing read. */
  lemma FirstReceipt(a: Ledger, rec: EventRecord, date: string)
    requires a.today.dateString != date || a.today == EmptyStats(date)
    requires rec.event == Received
    ensures var r := Step(a, rec, date);
            && r.today.dateString == date
            && r.today.totalReceived == 1 && r.today.unreadCount == 1 && r.today.totalRead == 0
  {
    var u := UpdateStats(a.(events := a.events + [rec]), rec, date);
    UpdateStatsCounts(a.(events := a.events + [rec]), rec, date);
    assert Current(a.today, date) == EmptyStats(date);
    assert Total(u.today, ReceivedCount) == 1;
    assert Total(u.today, ReadCount) == 0;
  }

  /** `n` receipts starting on a new date leave today's row with `n` received and unread. */
  lemma {:induction false} ReceiptsOnNewDate(a: Ledger, received: seq<EventRecord>, date: string)
    requires a.today.dateString != date || a.today == EmptyStats(date)
    requires |received| > 0 || a.today.dateString == date
    requires forall i :: 0 <= i < |received| ==> received[i].event == Received
    ensures var r := Replay(a, received, date);
            && r.today.dateString == date
            && r.today.totalReceived == |received| && r.today.unreadCount == |received|
            && r.today.totalRead == 0
  {
    if |received| == 1 {
      FirstReceipt(a, received[0], date);
    } else if |received| > 1 {
      var front := received[..|received| - 1];
      var b := Replay(a, front, date);
      ReceiptsOnNewDate(a, front, date);
      StepOnDate(b, received[|received| - 1], date);
      assert Total(Step(b, received[|received| - 1], date).today, ReceivedCount) == b.today.totalReceived + 1;
      assert Total(Step(b, received[|received| - 1], date).today, ReadCount) == 0;
    }
  }

  /** Today's counters after `n` receipts on a new date followed by `k <= n` reads. */
  lemma ReceiveThenReadCounts(a: Ledger, received: seq<EventRecord>, readEvents: seq<EventRecord>, date: string)
    requires a.today.dateString != date || a.today == EmptyStats(date)
    requires |received| > 0 || a.today.dateString == date
    requires |readEvents| <= |received|
    requires forall i :: 0 <= i < |received| ==> received[i].event == Received
    requires forall i :: 0 <= i < |readEvents| ==> readEvents[i].event == Read
    ensures var r := Replay(a, received + readEvents, date);
            && r.today.totalReceived == |received|
            && r.today.totalRead == |readEvents|
            && r.today.unreadCount == |received| - |readEvents|
  {
    ReplayAppend(a, received, readEvents, date);
    ReceiptsOnNewDate(a, received, date);
    ReplayRead(Replay(a, received, date), readEvents, date);
  }

  /**
   On a new date, `n` receipts followed by `k <= n` reads leave today's row with
   `n` received, `k` read, `n - k` unread and a read rate of `k / n`, and log
   every event in order.
   */
  lemma ReceiveThenRead(a: Ledger, received: seq<EventRecord>, readEvents: seq<EventRecord>, date: string)
    requires a.today.dateString != date || a.today == EmptyStats(date)
    requires |received| > 0 || a.today.dateString == date
    requires |readEvents| <= |received|
    requires forall i :: 0 <= i < |received| ==> received[i].event == Received
    requires forall i :: 0 <= i < |readEvents| ==> readEvents[i].event == Read
    ensures var r := Replay(a, received + readEvents, date);
            && r.today.totalReceived == |received|
            && r.today.totalRead == |readEvents|
            && r.today.unreadCount == |received| - |readEvents|
            && (|received| > 0 ==> ReadRate(r.today).num * |received| == 100 * |readEvents| * ReadRate(r.today).den)
            && r.events == a.events + received + readEvents
  {
    ReceiveThenReadCounts(a, received, readEvents, date);
    ReplayLogs(a, received + readEvents, date);
  }

  /** A new date starts a fresh row while the lifetime row keeps accumulating. */
  lemma Rollover(a: Ledger, rec: EventRecord, date: string)
    requires a.today.dateString != date
    ensures var r := UpdateStats(a, rec, date);
            && r.today.dateString == date
            && (forall c :: Total(r.today, c) == Delta(rec.event, c))
            && r.today.typeStats.Keys == {TypeKey(rec.messageType)}
            && r.today.unreadCount == (if rec.event == Received then 1 else 0)
            && (forall c :: Total(r.total, c) == Total(a.total, c) + Delta(rec.event, c))
  {
    UpdateStatsCounts(a, rec, date);
  }

  // ---------------------------------------------------------------------------
  // Row invariants
  // ---------------------------------------------------------------------------

  /** The raw type keys are pairwise distinct. */
  lemma TypeKeysDistinct()
    ensures forall i, j :: 0 <= i < j < |TypeKeys| ==> TypeKeys[i] != TypeKeys[j]
  {
    assert TypeKeys[0][0] == 'f' && TypeKeys[1][0] == 's' && TypeKeys[2][0] == 'l';
    assert TypeKeys[3][0] == 'c' && TypeKeys[4][0] == 'p';
  }

  /** A row's counter summed over the type entries of `keys`. */
  function SumOver(m: map<string, TypeStats>, keys: seq<string>, c: Counter): nat {
    if |keys| == 0 then 0 else TypeCount(m, keys[0], c) + SumOver(m, keys[1..], c)
  }

  /** Changing one listed key's counter by `d` changes the sum by `d`; other keys do not matter. */
  lemma {:induction false} SumOverChange(m: map<string, TypeStats>, m': map<string, TypeStats>,
                                         keys: seq<string>, key: string, c: Counter, d: nat)
    requires forall i, j :: 0 <= i < j < |keys| ==> keys[i] != keys[j]
    requires TypeCount(m', key, c) == TypeCount(m, key, c) + d
    requires forall k :: k != key ==> TypeCount(m', k, c) == TypeCount(m, k, c)
    ensures SumOver(m', keys, c) == SumOver(m, keys, c) + (if key in keys then d else 0)
  {
    if |keys| > 0 {
      SumOverChange(m, m', keys[1..], key, c, d);
      if keys[0] == key {
        assert key !in keys[1..];
      } else {
        assert key in keys ==> key in keys[1..];
      }
    }
  }

  /** Same as `Consistent`, without the unread bounds (for the lifetime row). */
  predicate Summed(s: DailyStats) {
    && (forall k :: k in s.typeStats ==> k in TypeKeys)
    && (forall c :: Total(s, c) == SumOver(s.typeStats, TypeKeys, c))
  }

  /** Today's row: summed, and its unread counter between received-minus-read and received. */
  predicate Consistent(s: DailyStats) {
    && Summed(s)
    && s.totalReceived - s.totalRead <= s.unreadCount <= s.totalReceived
  }

  lemma CountKeepsSummed(s: DailyStats, e: MessageEvent, key: string)
    requires Summed(s) && key in TypeKeys
    ensures Summed(Count(s, e, key))
  {
    var r := Count(s, e, key);
    CountEffect(s, e, key);
    TypeKeysDistinct();
    forall c
      ensures Total(r, c) == SumOver(r.typeStats, TypeKeys, c)
    {
      SumOverChange(s.typeStats, r.typeStats, TypeKeys, key, c, Delta(e, c));
      assert Total(r, c) == Total(s, c) + Delta(e, c);
      assert Total(s, c) == SumOver(s.typeStats, TypeKeys, c);
    }
  }

  lemma {:induction false} EmptySum(keys: seq<string>, c: Counter)
    ensures SumOver(map[], keys, c) == 0
  {
    if |keys| > 0 {
      EmptySum(keys[1..], c);
    }
  }

  /** Every update keeps both rows' totals equal to the sums of their type entries, and today's unread bounds. */
  lemma UpdateKeepsConsistent(a: Ledger, rec: EventRecord, date: string)
    requires Consistent(a.today) && Summed(a.total)
    ensures Consistent(UpdateStats(a, rec, date).today) && Summed(UpdateStats(a, rec, date).total)
  {
    var key := TypeKey(rec.messageType);
    TypeKeyListed(rec.messageType);
    var cur := Current(a.today, date);
    CurrentConsistent(a.today, date);
    CountKeepsSummed(cur, rec.event, key);
    CountKeepsSummed(a.total, rec.event, key);
    CountEffect(cur, rec.event, key);
    var counted := Count(cur, rec.event, key);
    SummedIgnoresUnread(counted, AdjustUnread(cur.unreadCount, rec.event));
    assert Total(counted, ReceivedCount) == Total(cur, ReceivedCount) + Delta(rec.event, ReceivedCount);
    assert Total(counted, ReadCount) == Total(cur, ReadCount) + Delta(rec.event, ReadCount);
  }

  /** Rolling over keeps a row consistent: a fresh row is trivially so. */
  lemma CurrentConsistent(s: DailyStats, date: string)
    requires Consistent(s)
    ensures Consistent(Current(s, date))
  {
    if s.dateString != date {
      forall c
        ensures Total(EmptyStats(date), c) == SumOver(map[], TypeKeys, c)
      {
        EmptySum(TypeKeys, c);
      }
    }
  }

  /** The unread counter plays no part in the sums. */
  lemma SummedIgnoresUnread(s: DailyStats, u: nat)
    requires Summed(s)
    ensures Summed(s.(unreadCount := u))
  {
    var t := s.(unreadCount := u);
    forall c
      ensures Total(t, c) == Total(s, c)
    {
    }
  }

  /** `typeName`: the display label for a raw type key; unknown keys are shown as they are. */
  function TypeName(key: string): (r: string)
    ensures r == key <==> key !in TypeKeys
    ensures key in TypeKeys ==> |r| == 4
  {
    match key
    case "friend" => "好友消息"
    case "system" => "系统消息"
    case "live" => "直播提醒"
    case "comment" => "评论互动"
    case "promotion" => "活动推广"
    case _ => key
  }

  /** The five labels are distinct. */
  lemma TypeNamesDistinct(t: MessageType, u: MessageType)
    ensures TypeName(TypeKey(t)) == TypeName(TypeKey(u)) ==> t == u
  {
  }
}
