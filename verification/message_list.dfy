/**
 The message list screen's state and the operations that change it: paged
 loading, refresh, arrival of a new message, marking read, pinning, local
 remarks, the unread badge, and the sorted, searchable view of the list.

 Every operation is a pure function from the current state (and the store,
 where the operation reads or writes it) to the next one. The network and the
 mock service are represented by the response they deliver, passed in as a
 `FetchOutcome` or, for paging, as the full list the service pages through.
 */
module MessageList {
  import opened Wrappers
  import opened Text
  import opened Messages
  import Store
  import Paging

  /** The list screen's loading indicator. */
  datatype LoadingState = Idle | Loading | Refreshing | LoadingMore | Error(reason: string) | Empty

  /** The published fields of the view model together with its paging cursor. */
  datatype ListState = ListState(
    messages: seq<Message>,
    loadingState: LoadingState,
    hasMore: bool,
    searchText: string,
    totalUnreadCount: int,
    currentPage: nat,
    isFirstLoad: bool)

  /** A freshly created view model: nothing loaded, more assumed to exist. */
  const Initial: ListState := ListState([], Idle, true, "", 0, 0, true)

  /** What a fetch delivered: a page of messages and the more-flag, or an error description. */
  datatype FetchOutcome = Fetched(items: seq<Message>, more: bool) | Failed(reason: string)

  // ---------------------------------------------------------------------------
  // Ordering: pinned messages first, then newest first
  // ---------------------------------------------------------------------------

  /** The comparator of `sortedMessages`: `a` goes strictly before `b`. */
  predicate Precedes(a: Message, b: Message) {
    if a.isPinned != b.isPinned then a.isPinned else a.timestamp > b.timestamp
  }

  /** No later message goes strictly before an earlier one. */
  predicate Ordered(s: seq<Message>) {
    forall i, j :: 0 <= i < j < |s| ==> !Precedes(s[j], s[i])
  }

  /** `Precedes` is a strict weak order: "not before" is transitive. */
  lemma NotPrecedesTransitive(a: Message, b: Message, c: Message)
    requires !Precedes(a, b) && !Precedes(b, c)
    ensures !Precedes(a, c)
  {
  }

  /** Nothing in `s` goes strictly before `b`. */
  predicate NotBefore(s: seq<Message>, b: Message) {
    forall k :: 0 <= k < |s| ==> !Precedes(s[k], b)
  }

  /** A list is ordered exactly when its head goes first and its tail is ordered. */
  lemma OrderedCons(h: Message, t: seq<Message>)
    ensures Ordered([h] + t) <==> NotBefore(t, h) && Ordered(t)
  {
    var s := [h] + t;
    if NotBefore(t, h) && Ordered(t) {
      forall i, j | 0 <= i < j < |s|
        ensures !Precedes(s[j], s[i])
      {
        assert s[j] == t[j - 1];
        if i > 0 {
          assert s[i] == t[i - 1];
        }
      }
    }
    if Ordered(s) {
      forall k | 0 <= k < |t|
        ensures !Precedes(t[k], h)
      {
        assert s[0] == h && s[k + 1] == t[k];
      }
      forall i, j | 0 <= i < j < |t|
        ensures !Precedes(t[j], t[i])
      {
        assert s[j + 1] == t[j] && s[i + 1] == t[i];
      }
    }
  }

  /** Puts `m` in front of the first element it does not come after. */
  function Insert(m: Message, s: seq<Message>): (r: seq<Message>)
    ensures multiset(r) == multiset(s) + multiset{m}
    ensures |r| == |s| + 1
  {
    if |s| == 0 then [m]
    else if Precedes(s[0], m) then
      assert s == [s[0]] + s[1..];
      [s[0]] + Insert(m, s[1..])
    else [m] + s
  }

  /** Inserting an element that is not before `b` into a list with nothing before `b` keeps it so. */
  lemma {:induction false} InsertNotBefore(m: Message, s: seq<Message>, b: Message)
    requires NotBefore(s, b) && !Precedes(m, b)
    ensures NotBefore(Insert(m, s), b)
  {
    if |s| > 0 && Precedes(s[0], m) {
      var t := Insert(m, s[1..]);
      InsertNotBefore(m, s[1..], b);
      forall k | 0 <= k < |t| + 1
        ensures !Precedes(([s[0]] + t)[k], b)
      {
        if k > 0 {
          assert ([s[0]] + t)[k] == t[k - 1];
        }
      }
    } else if |s| > 0 {
      forall k | 0 <= k < |s| + 1
        ensures !Precedes(([m] + s)[k], b)
      {
        if k > 0 {
          assert ([m] + s)[k] == s[k - 1];
        }
      }
    }
  }

  lemma {:induction false} InsertOrdered(m: Message, s: seq<Message>)
    requires Ordered(s)
    ensures Ordered(Insert(m, s))
  {
    if |s| == 0 {
      OrderedCons(m, []);
    } else {
      var t := s[1..];
      assert s == [s[0]] + t;
      OrderedCons(s[0], t);
      if Precedes(s[0], m) {
        InsertOrdered(m, t);
        InsertNotBefore(m, t, s[0]);
        OrderedCons(s[0], Insert(m, t));
      } else {
        forall k | 0 <= k < |s|
          ensures !Precedes(s[k], m)
        {
          if k > 0 {
            assert s[k] == t[k - 1];
            NotPrecedesTransitive(s[k], s[0], m);
          }
        }
        OrderedCons(m, s);
      }
    }
  }

  /**
   `sortedMessages`: the messages rearranged so that no message goes after one
   it should precede.
   */
  function SortMessages(ms: seq<Message>): (r: seq<Message>)
    ensures multiset(r) == multiset(ms) && |r| == |ms|
    ensures Ordered(r)
  {
    if |ms| == 0 then []
    else
      var rest := SortMessages(ms[1..]);
      InsertOrdered(ms[0], rest);
      assert ms == [ms[0]] + ms[1..];
      Insert(ms[0], rest)
  }

  /** In an ordered list pinned messages come first, and within each group newer ones first. */
  lemma OrderedGroups(s: seq<Message>)
    requires Ordered(s)
    ensures forall i, j :: 0 <= i < j < |s| && s[j].isPinned ==> s[i].isPinned
    ensures forall i, j :: 0 <= i < j < |s| && s[i].isPinned == s[j].isPinned ==> s[i].timestamp >= s[j].timestamp
  {
  }

  /** An already ordered list comes back unchanged, so sorting twice equals sorting once. */
  lemma {:induction false} SortOrderedIsIdentity(ms: seq<Message>)
    requires Ordered(ms)
    ensures SortMessages(ms) == ms
  {
    if |ms| > 0 {
      var t := ms[1..];
      assert ms == [ms[0]] + t;
      OrderedCons(ms[0], t);
      SortOrderedIsIdentity(t);
      if |t| > 0 {
        assert !Precedes(t[0], ms[0]);
      }
    }
  }

  lemma SortIdempotent(ms: seq<Message>)
    ensures SortMessages(SortMessages(ms)) == SortMessages(ms)
  {
    SortOrderedIsIdentity(SortMessages(ms));
  }

  /** A message for the ordering example: only id, pin flag and time matter. */
  function Sample(id: string, pinned: bool, timestamp: int): Message {
    Message(id, "", "", timestamp, "", Friend, false, 0, None, pinned, TextOf(""))
  }

  /** An unpinned message at time 10 and pinned ones at 5 and 8 sort as pinned-8, pinned-5, unpinned-10. */
  lemma SortExample()
    ensures SortMessages([Sample("1", false, 10), Sample("2", true, 5), Sample("3", true, 8)])
         == [Sample("3", true, 8), Sample("2", true, 5), Sample("1", false, 10)]
  {
    var a, b, c := Sample("1", false, 10), Sample("2", true, 5), Sample("3", true, 8);
    assert SortMessages([b, c]) == [c, b] by {
      assert [b, c][1..] == [c] && [c][1..] == [];
      SortExampleFirstStep(b, c);
    }
    assert [a, b, c][1..] == [b, c];
    SortExampleLastStep(a, b, c);
  }

  /** The newer of two pinned messages goes first. */
  lemma SortExampleFirstStep(b: Message, c: Message)
    requires b == Sample("2", true, 5) && c == Sample("3", true, 8)
    ensures Insert(b, [c]) == [c, b]
  {
    assert [c][1..] == [];
  }

  /** An unpinned message goes after both pinned ones, however new it is. */
  lemma SortExampleLastStep(a: Message, b: Message, c: Message)
    requires a == Sample("1", false, 10) && b == Sample("2", true, 5) && c == Sample("3", true, 8)
    ensures Insert(a, [c, b]) == [c, b, a]
  {
    assert [c, b][1..] == [b] && [b][1..] == [];
    assert Insert(a, [b]) == [b, a];
  }

  // ---------------------------------------------------------------------------
  // Search
  // ---------------------------------------------------------------------------

  /** The search predicate for an already lower-cased keyword: display name, summary or content text contain it. */
  predicate Matches(m: Message, keyword: string) {
    || Contains(LowerStr(DisplayName(m)), keyword)
    || Contains(LowerStr(m.summary), keyword)
    || Contains(LowerStr(m.content.text), keyword)
  }

  /** The messages that match, in their original order. */
  function FilterMatching(ms: seq<Message>, keyword: string): (r: seq<Message>)
    ensures |r| <= |ms|
  {
    if |ms| == 0 then []
    else (if Matches(ms[0], keyword) then [ms[0]] else []) + FilterMatching(ms[1..], keyword)
  }

  /** Each message is kept as often as it occurs when it matches, and dropped when it does not. */
  lemma {:induction false} FilterContents(ms: seq<Message>, keyword: string)
    ensures forall x :: multiset(FilterMatching(ms, keyword))[x] == if Matches(x, keyword) then multiset(ms)[x] else 0
  {
    if |ms| > 0 {
      FilterContents(ms[1..], keyword);
      assert ms == [ms[0]] + ms[1..];
    }
  }

  /** Filtering a list with nothing before `b` leaves nothing before `b`. */
  lemma {:induction false} FilterNotBefore(ms: seq<Message>, keyword: string, b: Message)
    requires NotBefore(ms, b)
    ensures NotBefore(FilterMatching(ms, keyword), b)
  {
    if |ms| > 0 {
      var tail := ms[1..];
      assert NotBefore(tail, b) by {
        forall k | 0 <= k < |tail|
          ensures !Precedes(tail[k], b)
        {
          assert tail[k] == ms[k + 1];
        }
      }
      FilterNotBefore(tail, keyword, b);
      var t := FilterMatching(tail, keyword);
      var r := FilterMatching(ms, keyword);
      if Matches(ms[0], keyword) {
        assert r == [ms[0]] + t;
        forall k | 0 <= k < |r|
          ensures !Precedes(r[k], b)
        {
          if k > 0 {
            assert r[k] == t[k - 1];
          }
        }
      } else {
        assert r == t;
      }
    }
  }

  /** Filtering keeps the relative order, so it keeps a list ordered. */
  lemma {:induction false} FilterKeepsOrder(ms: seq<Message>, keyword: string)
    requires Ordered(ms)
    ensures Ordered(FilterMatching(ms, keyword))
  {
    if |ms| > 0 {
      var tail := ms[1..];
      assert ms == [ms[0]] + tail;
      OrderedCons(ms[0], tail);
      FilterKeepsOrder(tail, keyword);
      var t := FilterMatching(tail, keyword);
      if Matches(ms[0], keyword) {
        FilterNotBefore(tail, keyword, ms[0]);
        OrderedCons(ms[0], t);
      }
    }
  }

  /** `filteredMessages`: the sorted list, narrowed to the matches of the lower-cased search text when there is one. */
  function FilteredMessages(vm: ListState): seq<Message> {
    if vm.searchText == "" then SortMessages(vm.messages)
    else FilterMatching(SortMessages(vm.messages), LowerStr(vm.searchText))
  }

  /**
   The visible list is always ordered; without search text it holds every
   message; with one it holds exactly the matching messages.
   */
  lemma FilteredMessagesFacts(vm: ListState)
    ensures Ordered(FilteredMessages(vm))
    ensures vm.searchText == "" ==> multiset(FilteredMessages(vm)) == multiset(vm.messages)
    ensures vm.searchText != "" ==>
              forall x :: x in FilteredMessages(vm) <==> x in vm.messages && Matches(x, LowerStr(vm.searchText))
  {
    var sorted := SortMessages(vm.messages);
    if vm.searchText != "" {
      FilterKeepsOrder(sorted, LowerStr(vm.searchText));
      FilterContents(sorted, LowerStr(vm.searchText));
      forall x
        ensures x in FilteredMessages(vm) <==> x in vm.messages && Matches(x, LowerStr(vm.searchText))
      {
        assert x in FilteredMessages(vm) <==> x in multiset(FilteredMessages(vm));
        assert x in vm.messages <==> x in multiset(sorted);
      }
    }
  }

  // ---------------------------------------------------------------------------
  // The unread badge
  // ---------------------------------------------------------------------------

  /** What one message adds to the badge: its unread count while it is unread. */
  function Contribution(m: Message): int {
    if m.isRead then 0 else m.unreadCount
  }

  /** `updateUnreadCount`: the unread counts of the unread messages, summed. */
  function UnreadTotal(ms: seq<Message>): int {
    if |ms| == 0 then 0 else Contribution(ms[0]) + UnreadTotal(ms[1..])
  }

  lemma {:induction false} UnreadAppend(a: seq<Message>, b: seq<Message>)
    ensures UnreadTotal(a + b) == UnreadTotal(a) + UnreadTotal(b)
  {
    if |a| > 0 {
      assert (a + b)[1..] == a[1..] + b;
      UnreadAppend(a[1..], b);
    } else {
      assert a + b == b;
    }
  }

  /** Replacing one message changes the badge by the difference of the two contributions. */
  lemma {:induction false} UnreadUpdate(ms: seq<Message>, i: nat, m: Message)
    requires i < |ms|
    ensures UnreadTotal(ms[i := m]) == UnreadTotal(ms) - Contribution(ms[i]) + Contribution(m)
  {
    if i > 0 {
      assert ms[i := m][1..] == ms[1..][i - 1 := m];
      UnreadUpdate(ms[1..], i - 1, m);
    }
  }

  /** The badge shows the sum over the list. */
  predicate UnreadInSync(vm: ListState) {
    vm.totalUnreadCount == UnreadTotal(vm.messages)
  }

  // ---------------------------------------------------------------------------
  // Per-message operations
  // ---------------------------------------------------------------------------

  /** `firstIndex(where: { $0.id == id })`. */
  function FindIndex(ms: seq<Message>, id: string): (r: Option<nat>)
    ensures r.Some? ==> r.value < |ms| && ms[r.value].id == id
    ensures r.Some? ==> forall j :: 0 <= j < r.value ==> ms[j].id != id
    ensures r.None? ==> forall j :: 0 <= j < |ms| ==> ms[j].id != id
  {
    if |ms| == 0 then None
    else if ms[0].id == id then Some(0)
    else match FindIndex(ms[1..], id)
      case None => None
      case Some(k) => Some(k + 1)
  }

  /**
   `markAsRead`: the first message with the id becomes read with no unread
   count, the store records that state (keeping its pin), and the badge is
   recomputed. An unknown id changes neither the list nor the store.
   */
  function MarkAsRead(vm: ListState, db: Store.Db, id: string, now: int): (r: (ListState, Store.Db))
    ensures FindIndex(vm.messages, id).None? ==> r == (vm, db)
    ensures FindIndex(vm.messages, id).Some? ==>
              var i := FindIndex(vm.messages, id).value;
              && r.0.messages == vm.messages[i := vm.messages[i].(isRead := true, unreadCount := 0)]
              && r.0.totalUnreadCount == UnreadTotal(r.0.messages)
              && r.0 == vm.(messages := r.0.messages, totalUnreadCount := r.0.totalUnreadCount)
              && r.1 == Store.SaveReadState(db, id, true, 0, now)
  {
    match FindIndex(vm.messages, id)
    case None => (vm, db)
    case Some(i) =>
      var ms := vm.messages[i := vm.messages[i].(isRead := true, unreadCount := 0)];
      (vm.(messages := ms, totalUnreadCount := UnreadTotal(ms)), Store.SaveReadState(db, id, true, 0, now))
  }

  /**
   After marking a listed message read the badge drops by exactly what that
   message contributed, the message reads as read with no count, and, where
   the state table exists, the store answers read with the pin it had.
   */
  lemma MarkAsReadEffect(vm: ListState, db: Store.Db, id: string, now: int)
    requires UnreadInSync(vm) && FindIndex(vm.messages, id).Some?
    ensures var (vm', db') := MarkAsRead(vm, db, id, now);
            var i := FindIndex(vm.messages, id).value;
            && vm'.totalUnreadCount == vm.totalUnreadCount - Contribution(vm.messages[i])
            && vm'.messages[i].isRead && vm'.messages[i].unreadCount == 0
            && (Store.StateReady(db.schema) ==>
                  Store.GetState(db', id) == Some(Store.MessageState(true, 0, Store.StoredPinned(db, id))))
  {
    var i := FindIndex(vm.messages, id).value;
    UnreadUpdate(vm.messages, i, vm.messages[i].(isRead := true, unreadCount := 0));
  }

  /**
   `togglePinned`: the first message with the id flips its pin and the store
   records the new flag. The badge is not recomputed; an unknown id changes
   nothing.
   */
  function TogglePinned(vm: ListState, db: Store.Db, id: string, now: int): (r: (ListState, Store.Db))
    ensures FindIndex(vm.messages, id).None? ==> r == (vm, db)
    ensures FindIndex(vm.messages, id).Some? ==>
              var i := FindIndex(vm.messages, id).value;
              && r.0 == vm.(messages := vm.messages[i := vm.messages[i].(isPinned := !vm.messages[i].isPinned)])
              && r.1 == Store.UpdatePinned(db, id, !vm.messages[i].isPinned, now)
  {
    match FindIndex(vm.messages, id)
    case None => (vm, db)
    case Some(i) =>
      var pinned := !vm.messages[i].isPinned;
      (vm.(messages := vm.messages[i := vm.messages[i].(isPinned := pinned)]), Store.UpdatePinned(db, id, pinned, now))
  }

  /**
   Toggling twice restores the list; the badge stays in sync; and where the
   state table exists, the store's pin for the id is the message's new flag.
   */
  lemma TogglePinnedEffect(vm: ListState, db: Store.Db, id: string, now: int, later: int)
    ensures var (vm1, db1) := TogglePinned(vm, db, id, now);
            TogglePinned(vm1, db1, id, later).0 == vm
    ensures var (vm1, db1) := TogglePinned(vm, db, id, now);
            UnreadInSync(vm) ==> UnreadInSync(vm1)
    ensures var (vm1, db1) := TogglePinned(vm, db, id, now);
            FindIndex(vm.messages, id).Some? && Store.StateReady(db.schema) ==>
              Store.GetState(db1, id).Some? && Store.GetState(db1, id).value.isPinned == vm1.messages[FindIndex(vm.messages, id).value].isPinned
  {
    var (vm1, db1) := TogglePinned(vm, db, id, now);
    match FindIndex(vm.messages, id)
    case None =>
    case Some(i) =>
      var m := vm.messages[i];
      UnreadUpdate(vm.messages, i, m.(isPinned := !m.isPinned));
      assert vm1.messages[i] == m.(isPinned := !m.isPinned);
      assert FindIndex(vm1.messages, id) == Some(i) by {
        forall j | 0 <= j < i ensures vm1.messages[j].id != id {
          assert vm1.messages[j] == vm.messages[j];
        }
        FindIndexUnique(vm1.messages, id, i);
      }
      assert vm1.messages[i := vm1.messages[i].(isPinned := !vm1.messages[i].isPinned)] == vm.messages;
  }

  /** The first index is determined by where the id first occurs. */
  lemma {:induction false} FindIndexUnique(ms: seq<Message>, id: string, i: nat)
    requires i < |ms| && ms[i].id == id
    requires forall j :: 0 <= j < i ==> ms[j].id != id
    ensures FindIndex(ms, id) == Some(i)
  {
    if i > 0 {
      FindIndexUnique(ms[1..], id, i - 1);
    }
  }

  /**
   `updateRemark`: the first message with the id carries the remark locally;
   the store is not written here. An unknown id changes nothing.
   */
  function UpdateRemark(vm: ListState, id: string, remark: string): (r: ListState)
    ensures FindIndex(vm.messages, id).None? ==> r == vm
    ensures FindIndex(vm.messages, id).Some? ==>
              var i := FindIndex(vm.messages, id).value;
              && r == vm.(messages := r.messages)
              && |r.messages| == |vm.messages|
              && r.messages[i] == vm.messages[i].(remark := Some(remark))
              && forall j :: 0 <= j < |vm.messages| && j != i ==> r.messages[j] == vm.messages[j]
  {
    match FindIndex(vm.messages, id)
    case None => vm
    case Some(i) => vm.(messages := vm.messages[i := vm.messages[i].(remark := Some(remark))])
  }

  /** A non-empty remark becomes the shown name; the badge is unaffected. */
  lemma UpdateRemarkEffect(vm: ListState, id: string, remark: string)
    requires FindIndex(vm.messages, id).Some?
    ensures var i := FindIndex(vm.messages, id).value;
            remark != "" ==> DisplayName(UpdateRemark(vm, id, remark).messages[i]) == remark
    ensures var i := FindIndex(vm.messages, id).value;
            remark == "" ==> DisplayName(UpdateRemark(vm, id, remark).messages[i]) == vm.messages[i].nickname
    ensures UnreadInSync(vm) ==> UnreadInSync(UpdateRemark(vm, id, remark))
  {
    var i := FindIndex(vm.messages, id).value;
    var m := vm.messages[i];
    UnreadUpdate(vm.messages, i, m.(remark := Some(remark)));
  }

  /**
   `handleNewMessage`: the arriving message, reconciled with the store, goes
   on top of the list and the badge is recomputed.
   */
  function HandleNewMessage(vm: ListState, db: Store.Db, msg: Message): (r: ListState)
    ensures |r.messages| == |vm.messages| + 1 && r.messages[1..] == vm.messages
    ensures Store.SameFeedFields(r.messages[0], msg)
    ensures Store.StateOf(r.messages[0]) == Store.GetState(db, msg.id).GetOr(Store.StateOf(msg))
    ensures Store.GetRemark(db, msg.id).Some? ==> r.messages[0].remark == Store.GetRemark(db, msg.id)
    ensures Store.GetRemark(db, msg.id).None? ==> r.messages[0].remark == msg.remark
    ensures r.totalUnreadCount == UnreadTotal(r.messages)
    ensures r == vm.(messages := r.messages, totalUnreadCount := r.totalUnreadCount)
  {
    var ms := Store.ApplyPersisted(db, [msg]) + vm.messages;
    vm.(messages := ms, totalUnreadCount := UnreadTotal(ms))
  }

  /** A new message raises an in-sync badge by its own contribution. */
  lemma HandleNewMessageBadge(vm: ListState, db: Store.Db, msg: Message)
    requires UnreadInSync(vm)
    ensures var r := HandleNewMessage(vm, db, msg);
            r.totalUnreadCount == vm.totalUnreadCount + Contribution(r.messages[0])
  {
    var r := HandleNewMessage(vm, db, msg);
    assert r.messages == [r.messages[0]] + vm.messages;
    UnreadAppend([r.messages[0]], vm.messages);
  }

  // ---------------------------------------------------------------------------
  // Loading
  // ---------------------------------------------------------------------------

  /** A fetched first page replaces the list; an empty one leaves it and shows the empty state. */
  function ShowFirstPage(vm: ListState, db: Store.Db, items: seq<Message>, more: bool): (r: ListState)
  {
    if |items| == 0 then vm.(loadingState := Empty)
    else
      var ms := Store.ApplyPersisted(db, items);
      vm.(messages := ms, hasMore := more, loadingState := Idle, totalUnreadCount := UnreadTotal(ms))
  }

  /**
   `loadInitialData`: runs only on the first call. It starts from page zero;
   a non-empty page, reconciled with the store, becomes the list; an empty
   one shows the empty state; a failure shows its description.
   */
  function LoadInitialData(vm: ListState, db: Store.Db, outcome: FetchOutcome): (r: ListState)
    ensures !vm.isFirstLoad ==> r == vm
    ensures vm.isFirstLoad ==> !r.isFirstLoad && r.currentPage == 0 && r.searchText == vm.searchText
    ensures vm.isFirstLoad && outcome.Failed? ==>
              && r.loadingState == Error(outcome.reason) && r.messages == vm.messages
              && r.hasMore == vm.hasMore && r.totalUnreadCount == vm.totalUnreadCount
    ensures vm.isFirstLoad && outcome.Fetched? && |outcome.items| == 0 ==>
              && r.loadingState == Empty && r.messages == vm.messages && r.hasMore == vm.hasMore
              && r.totalUnreadCount == vm.totalUnreadCount
    ensures vm.isFirstLoad && outcome.Fetched? && |outcome.items| > 0 ==>
              && r.loadingState == Idle && r.messages == Store.ApplyPersisted(db, outcome.items)
              && r.hasMore == outcome.more && UnreadInSync(r)
  {
    if !vm.isFirstLoad then vm
    else
      var started := vm.(isFirstLoad := false, loadingState := Loading, currentPage := 0);
      match outcome
      case Failed(reason) => started.(loadingState := Error(reason))
      case Fetched(items, more) => ShowFirstPage(started, db, items, more)
  }

  /**
   `refresh`: goes back to page zero. A non-empty page replaces the list; an
   empty one keeps the list and shows the empty state; a failure keeps the
   list and shows the error only when there is nothing to show.
   */
  function Refresh(vm: ListState, db: Store.Db, outcome: FetchOutcome): (r: ListState)
    ensures r.currentPage == 0 && r.isFirstLoad == vm.isFirstLoad && r.searchText == vm.searchText
    ensures outcome.Failed? ==>
              r.messages == vm.messages && r.hasMore == vm.hasMore && r.totalUnreadCount == vm.totalUnreadCount
    ensures outcome.Failed? && |vm.messages| == 0 ==> r.loadingState == Error(outcome.reason)
    ensures outcome.Failed? && |vm.messages| > 0 ==> r.loadingState == Idle
    ensures outcome.Fetched? && |outcome.items| == 0 ==>
              && r.loadingState == Empty && r.messages == vm.messages && r.hasMore == vm.hasMore
              && r.totalUnreadCount == vm.totalUnreadCount
    ensures outcome.Fetched? && |outcome.items| > 0 ==>
              && r.loadingState == Idle && r.messages == Store.ApplyPersisted(db, outcome.items)
              && r.hasMore == outcome.more && UnreadInSync(r)
  {
    var started := vm.(loadingState := Refreshing, currentPage := 0);
    match outcome
    case Failed(reason) =>
      if |vm.messages| == 0 then started.(loadingState := Error(reason)) else started.(loadingState := Idle)
    case Fetched(items, more) => ShowFirstPage(started, db, items, more)
  }

  /** `loadMore` proceeds only while more exists and no load-more is already running. */
  predicate CanLoadMore(vm: ListState) {
    vm.hasMore && vm.loadingState != LoadingMore
  }

  /**
   `loadMore` against a service paging through `all`: requests the page after
   the current one; a non-empty page, reconciled with the store, is appended
   and becomes the current page; the more-flag is the response's either way.
   */
  function LoadMore(vm: ListState, db: Store.Db, all: seq<Message>): (r: ListState)
    ensures !CanLoadMore(vm) ==> r == vm
    ensures CanLoadMore(vm) ==>
              var page := Paging.FetchPage(all, vm.currentPage + 1);
              && r.loadingState == Idle
              && r.hasMore == page.hasMore
              && r.messages == vm.messages + Store.ApplyPersisted(db, page.items)
              && r.currentPage == (if |page.items| > 0 then vm.currentPage + 1 else vm.currentPage)
              && r.searchText == vm.searchText && r.isFirstLoad == vm.isFirstLoad
  {
    if !CanLoadMore(vm) then vm
    else
      var nextPage := vm.currentPage + 1;
      var page := Paging.FetchPage(all, nextPage);
      var started := vm.(loadingState := LoadingMore);
      var appended :=
        if |page.items| > 0 then
          var ms := started.messages + Store.ApplyPersisted(db, page.items);
          started.(messages := ms, currentPage := nextPage, totalUnreadCount := UnreadTotal(ms))
        else started;
      appended.(hasMore := page.hasMore, loadingState := Idle)
  }

  /**
   The list shows the pages up to the current one of `all`, reconciled with
   the store, the more-flag says whether anything is left, and nothing is loading.
   */
  predicate Loaded(vm: ListState, db: Store.Db, all: seq<Message>) {
    var end := Paging.PageEnd(|all|, vm.currentPage);
    && vm.loadingState == Idle
    && vm.currentPage * Paging.PageSize < |all|
    && vm.messages == Store.ApplyPersisted(db, all[..end])
    && (vm.hasMore <==> end < |all|)
  }

  /** A successful first load of page zero of a non-empty list starts the paging walk. */
  lemma InitialLoadIsLoaded(vm: ListState, db: Store.Db, all: seq<Message>)
    requires vm.isFirstLoad && |all| > 0
    ensures var page := Paging.FetchPage(all, 0);
            Loaded(LoadInitialData(vm, db, Fetched(page.items, page.hasMore)), db, all)
  {
    var page := Paging.FetchPage(all, 0);
    assert all[0..Paging.PageEnd(|all|, 0)] == all[..Paging.PageEnd(|all|, 0)];
  }

  /** Reconciling one more slice of the feed extends the reconciled prefix. */
  lemma ExtendPrefix(db: Store.Db, all: seq<Message>, start: nat, end: nat)
    requires start <= end <= |all|
    ensures Store.ApplyPersisted(db, all[..start]) + Store.ApplyPersisted(db, all[start..end])
         == Store.ApplyPersisted(db, all[..end])
  {
    assert all[..start] + all[start..end] == all[..end];
    Store.ApplyPersistedAppend(db, all[..start], all[start..end]);
  }

  /** While more exists, a load-more appends the reconciled next page and moves the cursor onto it. */
  lemma LoadMoreAdvances(vm: ListState, db: Store.Db, all: seq<Message>)
    requires CanLoadMore(vm) && (vm.currentPage + 1) * Paging.PageSize < |all|
    ensures var next := vm.currentPage + 1;
            var end := Paging.PageEnd(|all|, next);
            var r := LoadMore(vm, db, all);
            && r.messages == vm.messages + Store.ApplyPersisted(db, all[next * Paging.PageSize..end])
            && r.currentPage == next && r.loadingState == Idle && (r.hasMore <==> end < |all|)
  {
  }

  /** Each load-more keeps the walk going and advances by one page while more remains. */
  lemma LoadMoreKeepsLoaded(vm: ListState, db: Store.Db, all: seq<Message>)
    requires Loaded(vm, db, all)
    ensures Loaded(LoadMore(vm, db, all), db, all)
    ensures vm.hasMore ==> LoadMore(vm, db, all).currentPage == vm.currentPage + 1
    ensures !vm.hasMore ==> LoadMore(vm, db, all) == vm
  {
    if vm.hasMore {
      var next := vm.currentPage + 1;
      var start := next * Paging.PageSize;
      var end := Paging.PageEnd(|all|, next);
      assert start == Paging.PageEnd(|all|, vm.currentPage) && start < |all|;
      LoadMoreAdvances(vm, db, all);
      ExtendPrefix(db, all, start, end);
    }
  }

  /** Once no more is reported, the list is the whole feed, reconciled, in feed order. */
  lemma LoadedToTheEnd(vm: ListState, db: Store.Db, all: seq<Message>)
    requires Loaded(vm, db, all) && !vm.hasMore
    ensures vm.messages == Store.ApplyPersisted(db, all)
  {
    assert all[..|all|] == all;
  }

  /**
   A failed refresh resets the cursor but keeps the list, so the next
   load-more fetches page one again and appends a second copy of it: the
   ten messages at positions 10..20 reappear at the end of the list.
   */
  lemma {:induction false} RefreshFailureRepeatsPage(vm: ListState, db: Store.Db, all: seq<Message>, reason: string)
    requires Loaded(vm, db, all) && vm.currentPage >= 1 && vm.hasMore
    ensures var r := LoadMore(Refresh(vm, db, Failed(reason)), db, all);
            var again := Store.ApplyPersisted(db, all[Paging.PageSize..2 * Paging.PageSize]);
            && r.currentPage == 1
            && r.messages == vm.messages + again
            && r.messages[Paging.PageSize..2 * Paging.PageSize] == again
  {
    var end := Paging.PageEnd(|all|, vm.currentPage);
    assert 2 * Paging.PageSize <= end < |all|;
    var mid := Refresh(vm, db, Failed(reason));
    assert mid.messages == vm.messages && mid.hasMore && mid.loadingState == Idle && mid.currentPage == 0;
    LoadMoreAdvances(mid, db, all);
    assert Paging.PageEnd(|all|, 1) == 2 * Paging.PageSize;
    PrefixHoldsPageOne(db, all, end);
  }

  /** A reconciled prefix reaching past page one holds page one, reconciled, at positions 10..20. */
  lemma PrefixHoldsPageOne(db: Store.Db, all: seq<Message>, end: nat)
    requires 2 * Paging.PageSize <= end <= |all|
    ensures Store.ApplyPersisted(db, all[..end])[Paging.PageSize..2 * Paging.PageSize]
         == Store.ApplyPersisted(db, all[Paging.PageSize..2 * Paging.PageSize])
  {
    var x, y, z := all[..10], all[10..20], all[20..end];
    assert all[..end] == x + (y + z);
    Store.ApplyPersistedAppend(db, y, z);
    Store.ApplyPersistedAppend(db, x, y + z);
    SliceMiddle(Store.ApplyPersisted(db, x), Store.ApplyPersisted(db, y), Store.ApplyPersisted(db, z));
  }

  /** The middle part of a three-part concatenation. */
  lemma SliceMiddle<T>(x: seq<T>, y: seq<T>, z: seq<T>)
    ensures (x + (y + z))[|x|..|x| + |y|] == y
  {
  }

  /** Every operation keeps the badge equal to the sum over the list. */
  lemma OperationsKeepUnreadInSync(vm: ListState, db: Store.Db, id: string, now: int, msg: Message,
                                   outcome: FetchOutcome, all: seq<Message>, remark: string)
    requires UnreadInSync(vm)
    ensures UnreadInSync(MarkAsRead(vm, db, id, now).0)
    ensures UnreadInSync(TogglePinned(vm, db, id, now).0)
    ensures UnreadInSync(UpdateRemark(vm, id, remark))
    ensures UnreadInSync(HandleNewMessage(vm, db, msg))
    ensures UnreadInSync(LoadInitialData(vm, db, outcome))
    ensures UnreadInSync(Refresh(vm, db, outcome))
    ensures UnreadInSync(LoadMore(vm, db, all))
  {
    TogglePinnedEffect(vm, db, id, now, now);
    if FindIndex(vm.messages, id).Some? {
      UpdateRemarkEffect(vm, id, remark);
    }
  }
}
