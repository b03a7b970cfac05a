/**
 The local message store: a versioned schema plus two tables keyed by message id,
 `message_state` (read/unread/pinned) and `message_remark` (user remarks).

 The SQLite database is modelled as a value. A statement that SQLite would refuse
 to prepare (its table or one of its columns is missing) changes nothing and
 reads nothing, as the source ignores a failed prepare. Wall-clock time is the
 explicit `now` argument.
 */
module Store {
  import opened Wrappers
  import opened Messages

  /** The schema version this code migrates to. */
  const DbVersion: int := 2

  const StateTable: string := "message_state"
  const RemarkTable: string := "message_remark"
  const PinnedColumn: string := "is_pinned"

  /** Columns of `message_state` as version 1 creates it. */
  const StateColumnsV1: set<string> := {"message_id", "is_read", "unread_count", "updated_at"}

  /** Columns of `message_remark`. */
  const RemarkColumns: set<string> := {"message_id", "nickname", "remark", "created_at", "updated_at"}

  /** The `user_version` marker and each table's column set. */
  datatype Schema = Schema(version: int, tables: map<string, set<string>>)

  /** A `message_state` row; `pinned` is `None` where the column is absent or NULL. */
  datatype StateRow = StateRow(isRead: bool, unreadCount: int, pinned: Option<bool>, updatedAt: int)

  /** A `message_remark` row. */
  datatype RemarkRow = RemarkRow(nickname: string, remark: string, createdAt: int, updatedAt: int)

  datatype Db = Db(schema: Schema, states: map<string, StateRow>, remarks: map<string, RemarkRow>)

  /** What a state query returns for one id. */
  datatype MessageState = MessageState(isRead: bool, unreadCount: int, isPinned: bool)

  // ---------------------------------------------------------------------------
  // Schema migration
  // ---------------------------------------------------------------------------

  /** `columnExists`: `PRAGMA table_info` lists no columns for a missing table. */
  predicate ColumnExists(s: Schema, table: string, column: string) {
    table in s.tables && column in s.tables[table]
  }

  /** `message_state` has every column the state statements name. */
  predicate StateReady(s: Schema) {
    StateTable in s.tables && StateColumnsV1 + {PinnedColumn} <= s.tables[StateTable]
  }

  /** `message_remark` has every column the remark statements name. */
  predicate RemarkReady(s: Schema) {
    RemarkTable in s.tables && RemarkColumns <= s.tables[RemarkTable]
  }

  predicate Ready(s: Schema) {
    StateReady(s) && RemarkReady(s)
  }

  /**
   What a store written by this code looks like at its recorded version: tables
   that exist have at least the columns version 1 gave them, version 1 means both
   tables exist, and version 2 means the pinned column exists too.
   */
  predicate Layout(s: Schema) {
    && (StateTable in s.tables ==> StateColumnsV1 <= s.tables[StateTable])
    && (RemarkTable in s.tables ==> RemarkColumns <= s.tables[RemarkTable])
    && (s.version >= 1 ==> StateTable in s.tables && RemarkTable in s.tables)
    && (s.version >= 2 ==> ColumnExists(s, StateTable, PinnedColumn))
  }

  /** Every table of `s` survives in `s'` with at least its columns. */
  predicate KeepsTables(s: Schema, s': Schema) {
    forall t :: t in s.tables ==> t in s'.tables && s.tables[t] <= s'.tables[t]
  }

  /** Every row survives with its read flag, count and write time. */
  predicate KeepsStateRows(db: Db, db': Db) {
    && db'.states.Keys == db.states.Keys
    && forall id :: id in db.states ==>
         && db'.states[id].isRead == db.states[id].isRead
         && db'.states[id].unreadCount == db.states[id].unreadCount
         && db'.states[id].updatedAt == db.states[id].updatedAt
  }

  /** Version 1: `CREATE TABLE IF NOT EXISTS` for both tables. */
  function MigrateToV1(db: Db): (r: Db)
    ensures StateTable in r.schema.tables && RemarkTable in r.schema.tables
    ensures KeepsTables(db.schema, r.schema) && r.schema.version == db.schema.version
    ensures r.states == db.states && r.remarks == db.remarks
    ensures Layout(db.schema) ==> Layout(r.schema.(version := 1))
  {
    var t := db.schema.tables;
    var t1 := if StateTable in t then t else t[StateTable := StateColumnsV1];
    var t2 := if RemarkTable in t1 then t1 else t1[RemarkTable := RemarkColumns];
    db.(schema := db.schema.(tables := t2))
  }

  /**
   Version 2: add `is_pinned` (default 0) unless it exists. Existing rows take
   the default; an `ALTER TABLE` on a missing table fails and changes nothing.
   */
  function MigrateToV2(db: Db): (r: Db)
    ensures StateTable in db.schema.tables ==> ColumnExists(r.schema, StateTable, PinnedColumn)
    ensures KeepsTables(db.schema, r.schema) && r.schema.version == db.schema.version
    ensures KeepsStateRows(db, r) && r.remarks == db.remarks
    ensures forall id :: id in db.states && db.states[id].pinned.None? ==> r.states[id].pinned != Some(true)
  {
    if ColumnExists(db.schema, StateTable, PinnedColumn) || StateTable !in db.schema.tables then db
    else
      var cols := db.schema.tables[StateTable] + {PinnedColumn};
      db.(schema := db.schema.(tables := db.schema.tables[StateTable := cols]),
          states := map id | id in db.states :: db.states[id].(pinned := Some(false)))
  }

  /** `runMigrations`: run each step the stored version has not reached, then record version 2. */
  function RunMigrations(db: Db): (r: Db)
    ensures r.schema.version == DbVersion
    ensures Layout(db.schema) ==> Ready(r.schema) && Layout(r.schema)
    ensures KeepsTables(db.schema, r.schema)
    ensures KeepsStateRows(db, r) && r.remarks == db.remarks
  {
    var v := db.schema.version;
    var db1 := if v < 1 then MigrateToV1(db) else db;
    var db2 := if v < 2 then MigrateToV2(db1) else db1;
    db2.(schema := db2.schema.(version := DbVersion))
  }

  /** Running the migrator on every start is harmless: a second run changes nothing. */
  lemma MigrationIdempotent(db: Db)
    ensures RunMigrations(RunMigrations(db)) == RunMigrations(db)
  {
  }

  /** Rows stored before the pinned column existed read back unpinned after migrating. */
  lemma MigrationReadsOldRowsUnpinned(db: Db, id: string)
    requires Layout(db.schema)
    requires id in db.states && db.states[id].pinned.None?
    ensures GetState(RunMigrations(db), id)
         == Some(MessageState(db.states[id].isRead, db.states[id].unreadCount, false))
  {
    var v := db.schema.version;
    var db1 := if v < 1 then MigrateToV1(db) else db;
    var db2 := if v < 2 then MigrateToV2(db1) else db1;
    assert db1.states == db.states;
    if v >= 2 {
      assert db2.states == db.states;
    }
  }

  // ---------------------------------------------------------------------------
  // message_state
  // ---------------------------------------------------------------------------

  /** A row as a query returns it: `COALESCE(is_pinned, 0)`. */
  function View(row: StateRow): MessageState {
    MessageState(row.isRead, row.unreadCount, row.pinned.GetOr(false))
  }

  /** `getMessageState`: the stored triple, or `nil` when no row exists. */
  function GetState(db: Db, id: string): (r: Option<MessageState>)
    ensures r.Some? <==> StateReady(db.schema) && id in db.states
  {
    if StateReady(db.schema) && id in db.states then Some(View(db.states[id])) else None
  }

  /** `getAllMessageStates`: one scan, agreeing with `GetState` on every id. */
  function GetAllStates(db: Db): (r: map<string, MessageState>)
    ensures forall id :: id in r <==> GetState(db, id).Some?
    ensures forall id :: id in r ==> GetState(db, id) == Some(r[id])
  {
    if StateReady(db.schema) then map id | id in db.states :: View(db.states[id]) else map[]
  }

  /** `saveMessageState`: `INSERT OR REPLACE` of the whole row. */
  function SaveState(db: Db, id: string, isRead: bool, unreadCount: int, isPinned: bool, now: int): (r: Db)
    ensures StateReady(db.schema) ==> GetState(r, id) == Some(MessageState(isRead, unreadCount, isPinned))
    ensures !StateReady(db.schema) ==> r == db
    ensures forall other :: other != id ==> GetState(r, other) == GetState(db, other)
    ensures r.schema == db.schema && r.remarks == db.remarks
  {
    if StateReady(db.schema) then
      db.(states := db.states[id := StateRow(isRead, unreadCount, Some(isPinned), now)])
    else db
  }

  /** The stored pin flag, `false` when there is no row. */
  function StoredPinned(db: Db, id: string): bool {
    GetState(db, id).Some? && GetState(db, id).value.isPinned
  }

  /** `saveMessageReadState`: writes the read part, keeping the stored pin flag. */
  function SaveReadState(db: Db, id: string, isRead: bool, unreadCount: int, now: int): (r: Db)
    ensures StateReady(db.schema) ==>
              GetState(r, id) == Some(MessageState(isRead, unreadCount, StoredPinned(db, id)))
    ensures !StateReady(db.schema) ==> r == db
    ensures forall other :: other != id ==> GetState(r, other) == GetState(db, other)
    ensures r.schema == db.schema && r.remarks == db.remarks
  {
    var current := GetState(db, id);
    var isPinned := if current.Some? then current.value.isPinned else false;
    SaveState(db, id, isRead, unreadCount, isPinned, now)
  }

  /** `updatePinnedState`: writes the pin flag, keeping the stored read part (default unread, 0). */
  function UpdatePinned(db: Db, id: string, isPinned: bool, now: int): (r: Db)
    ensures StateReady(db.schema) && GetState(db, id).Some? ==>
              GetState(r, id) == Some(GetState(db, id).value.(isPinned := isPinned))
    ensures StateReady(db.schema) && GetState(db, id).None? ==>
              GetState(r, id) == Some(MessageState(false, 0, isPinned))
    ensures !StateReady(db.schema) ==> r == db
    ensures forall other :: other != id ==> GetState(r, other) == GetState(db, other)
    ensures r.schema == db.schema && r.remarks == db.remarks
  {
    var current := GetState(db, id);
    SaveState(db, id,
              if current.Some? then current.value.isRead else false,
              if current.Some? then current.value.unreadCount else 0,
              isPinned, now)
  }

  /** The state a message carries, as `batchSaveMessageStates` writes it. */
  function StateOf(m: Message): MessageState {
    MessageState(m.isRead, m.unreadCount, m.isPinned)
  }

  /** Index of the last message with the given id. */
  function LastIndex(ms: seq<Message>, id: string): (r: Option<nat>)
    ensures r.Some? ==> r.value < |ms| && ms[r.value].id == id
    ensures r.Some? ==> forall j :: r.value < j < |ms| ==> ms[j].id != id
    ensures r.None? ==> forall j :: 0 <= j < |ms| ==> ms[j].id != id
  {
    if |ms| == 0 then None
    else if ms[|ms| - 1].id == id then Some(|ms| - 1)
    else LastIndex(ms[..|ms| - 1], id)
  }

  /** `batchSaveMessageStates`: `saveMessageState` for each message in order. */
  function BatchSave(db: Db, ms: seq<Message>, now: int): (r: Db)
    ensures r.schema == db.schema && r.remarks == db.remarks
    ensures !StateReady(db.schema) ==> r == db
    ensures StateReady(db.schema) ==> forall id ::
              GetState(r, id) == (if LastIndex(ms, id).Some? then Some(StateOf(ms[LastIndex(ms, id).value]))
                                  else GetState(db, id))
  {
    if |ms| == 0 then db
    else
      var m := ms[|ms| - 1];
      SaveState(BatchSave(db, ms[..|ms| - 1], now), m.id, m.isRead, m.unreadCount, m.isPinned, now)
  }

  /** The distinct ids of a message list. */
  function Ids(ms: seq<Message>): set<string> {
    set m | m in ms :: m.id
  }

  /** Seeding an empty store leaves exactly one state per distinct id, and nothing for other ids. */
  lemma BatchSaveDistinctIds(db: Db, ms: seq<Message>, now: int)
    requires StateReady(db.schema) && db.states == map[]
    ensures GetAllStates(BatchSave(db, ms, now)).Keys == Ids(ms)
    ensures |GetAllStates(BatchSave(db, ms, now))| == |Ids(ms)|
    ensures forall id :: id !in Ids(ms) ==> GetState(BatchSave(db, ms, now), id).None?
  {
    var all := GetAllStates(BatchSave(db, ms, now));
    forall id | id in Ids(ms)
      ensures id in all
    {
      var m :| m in ms && m.id == id;
      var i :| 0 <= i < |ms| && ms[i] == m;
      assert LastIndex(ms, id).Some?;
    }
    forall id | id in all
      ensures id in Ids(ms)
    {
      var k := LastIndex(ms, id);
      assert k.Some?;
      assert ms[k.value] in ms;
    }
  }

  // ---------------------------------------------------------------------------
  // message_remark
  // ---------------------------------------------------------------------------

  /** `saveRemark`: upsert that keeps the first insert's `created_at`. */
  function SaveRemark(db: Db, id: string, nickname: string, remark: string, now: int): (r: Db)
    ensures RemarkReady(db.schema) ==> GetRemark(r, id) == Some(remark)
    ensures RemarkReady(db.schema) ==> id in r.remarks && r.remarks[id].nickname == nickname
    ensures RemarkReady(db.schema) ==>
              r.remarks[id].createdAt == (if id in db.remarks then db.remarks[id].createdAt else now)
    ensures !RemarkReady(db.schema) ==> r == db
    ensures forall other :: other != id ==> GetRemark(r, other) == GetRemark(db, other)
    ensures forall other :: other != id && other in db.remarks ==> other in r.remarks && r.remarks[other] == db.remarks[other]
    ensures r.schema == db.schema && r.states == db.states
  {
    if RemarkReady(db.schema) then
      var createdAt := if id in db.remarks then db.remarks[id].createdAt else now;
      db.(remarks := db.remarks[id := RemarkRow(nickname, remark, createdAt, now)])
    else db
  }

  /** `getRemark`: the stored remark, or `nil`. */
  function GetRemark(db: Db, id: string): (r: Option<string>)
    ensures r.Some? <==> RemarkReady(db.schema) && id in db.remarks
  {
    if RemarkReady(db.schema) && id in db.remarks then Some(db.remarks[id].remark) else None
  }

  /** `getAllRemarks`: one scan, agreeing with `GetRemark` on every id. */
  function GetAllRemarks(db: Db): (r: map<string, string>)
    ensures forall id :: id in r <==> GetRemark(db, id).Some?
    ensures forall id :: id in r ==> GetRemark(db, id) == Some(r[id])
  {
    if RemarkReady(db.schema) then map id | id in db.remarks :: db.remarks[id].remark else map[]
  }

  /** Saving twice keeps the creation time of the first save. */
  lemma RemarkCreatedAtFixed(db: Db, id: string, n1: string, r1: string, t1: int,
                             n2: string, r2: string, t2: int)
    requires RemarkReady(db.schema) && id !in db.remarks
    ensures var db2 := SaveRemark(SaveRemark(db, id, n1, r1, t1), id, n2, r2, t2);
            db2.remarks[id] == RemarkRow(n2, r2, t1, t2)
  {
  }

  // ---------------------------------------------------------------------------
  // Reconciliation
  // ---------------------------------------------------------------------------

  /** The fields a message takes from the feed, which persisted data never touches. */
  predicate SameFeedFields(a: Message, b: Message) {
    && a.id == b.id && a.avatar == b.avatar && a.nickname == b.nickname
    && a.timestamp == b.timestamp && a.summary == b.summary
    && a.messageType == b.messageType && a.content == b.content
  }

  /** One message with its stored state and remark laid over it. */
  function Overlay(m: Message, states: map<string, MessageState>, remarks: map<string, string>): Message {
    var m1 := if m.id in states
              then m.(isRead := states[m.id].isRead, unreadCount := states[m.id].unreadCount,
                      isPinned := states[m.id].isPinned)
              else m;
    if m.id in remarks then m1.(remark := Some(remarks[m.id])) else m1
  }

  /** The state and remark part of `m` as `Overlay` would leave it. */
  predicate Overlaid(r: Message, m: Message, states: map<string, MessageState>, remarks: map<string, string>) {
    && SameFeedFields(r, m)
    && (m.id in states ==> StateOf(r) == states[m.id])
    && (m.id !in states ==> StateOf(r) == StateOf(m))
    && (m.id in remarks ==> r.remark == Some(remarks[m.id]))
    && (m.id !in remarks ==> r.remark == m.remark)
  }

  /** `applyPersistedData`: overlay the stored maps onto each message, in place. */
  function ApplyPersistedData(ms: seq<Message>, states: map<string, MessageState>,
                              remarks: map<string, string>): (r: seq<Message>)
    ensures |r| == |ms|
    ensures forall i :: 0 <= i < |ms| ==> Overlaid(r[i], ms[i], states, remarks)
  {
    seq(|ms|, i requires 0 <= i < |ms| => Overlay(ms[i], states, remarks))
  }

  /** Reconciliation against a store: both bulk maps, then the overlay. */
  function ApplyPersisted(db: Db, ms: seq<Message>): (r: seq<Message>)
    ensures |r| == |ms|
    ensures forall i :: 0 <= i < |ms| ==> SameFeedFields(r[i], ms[i])
    ensures forall i :: 0 <= i < |ms| ==>
              StateOf(r[i]) == (if GetState(db, ms[i].id).Some? then GetState(db, ms[i].id).value else StateOf(ms[i]))
    ensures forall i :: 0 <= i < |ms| ==>
              r[i].remark == (if GetRemark(db, ms[i].id).Some? then GetRemark(db, ms[i].id) else ms[i].remark)
  {
    ApplyPersistedData(ms, GetAllStates(db), GetAllRemarks(db))
  }

  /** Reconciling an already reconciled list changes nothing. */
  lemma ApplyPersistedIdempotent(ms: seq<Message>, states: map<string, MessageState>, remarks: map<string, string>)
    ensures ApplyPersistedData(ApplyPersistedData(ms, states, remarks), states, remarks)
         == ApplyPersistedData(ms, states, remarks)
  {
    var once := ApplyPersistedData(ms, states, remarks);
    var twice := ApplyPersistedData(once, states, remarks);
    forall i | 0 <= i < |ms|
      ensures twice[i] == once[i]
    {
      assert Overlaid(once[i], ms[i], states, remarks);
      assert Overlaid(twice[i], once[i], states, remarks);
    }
  }

  /** Reconciliation works message by message, so it distributes over concatenation. */
  lemma ApplyPersistedAppend(db: Db, a: seq<Message>, b: seq<Message>)
    ensures ApplyPersisted(db, a + b) == ApplyPersisted(db, a) + ApplyPersisted(db, b)
  {
  }
}
