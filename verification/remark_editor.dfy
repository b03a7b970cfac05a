/**
 The remark editor: opened for one message, it shows the remark the user
 gave that contact (the stored one first, then the one the message carries),
 lets the user change it, tells whether it differs from a given original,
 and writes it to the store under the message's id and original nickname.
 */
module RemarkEditor {
  import opened Wrappers
  import opened Messages
  import Store

  /** The editor's state: the id and nickname captured when it opened, and the remark being edited. */
  datatype Editor = Editor(messageId: string, nickname: string, remark: string)

  /** The remark the editor starts with: the stored one, else the message's own, else empty. */
  function InitialRemark(message: Message, db: Store.Db): string {
    match Store.GetRemark(db, message.id)
    case Some(saved) => saved
    case None => message.remark.GetOr("")
  }

  /** Opening the editor for `message` against the store `db`. */
  function Open(message: Message, db: Store.Db): (e: Editor)
    ensures e.messageId == message.id && e.nickname == message.nickname
    ensures Store.GetRemark(db, message.id).Some? ==> e.remark == Store.GetRemark(db, message.id).value
    ensures Store.GetRemark(db, message.id).None? && message.remark.Some? ==> e.remark == message.remark.value
    ensures Store.GetRemark(db, message.id).None? && message.remark.None? ==> e.remark == ""
  {
    Editor(message.id, message.nickname, InitialRemark(message, db))
  }

  /** The user types a new remark; nothing else about the editor changes. */
  function Edit(e: Editor, remark: string): (r: Editor)
    ensures r.remark == remark && r.messageId == e.messageId && r.nickname == e.nickname
  {
    e.(remark := remark)
  }

  /** `hasChanges(originalRemark:)`: the remark differs from the original, a missing original counting as empty. */
  function HasChanges(e: Editor, original: Option<string>): (r: bool)
    ensures !r <==> (original.None? && e.remark == "") || (original.Some? && e.remark == original.value)
  {
    e.remark != original.GetOr("")
  }

  /** `getMessageId`. */
  function MessageId(e: Editor): string {
    e.messageId
  }

  /** `saveRemark`: the store records the current remark under the captured id and nickname. */
  function Save(e: Editor, db: Store.Db, now: int): (r: Store.Db)
    ensures Store.RemarkReady(db.schema) ==> Store.GetRemark(r, e.messageId) == Some(e.remark)
    ensures Store.RemarkReady(db.schema) ==> r.remarks[e.messageId].nickname == e.nickname
    ensures !Store.RemarkReady(db.schema) ==> r == db
    ensures forall other :: other != e.messageId ==> Store.GetRemark(r, other) == Store.GetRemark(db, other)
    ensures r.states == db.states
  {
    Store.SaveRemark(db, e.messageId, e.nickname, e.remark, now)
  }

  /**
   Opening the editor on an untouched message shows no change against the
   message's remark; any edit to a different text shows one.
   */
  lemma OpenHasNoChanges(message: Message, db: Store.Db, typed: string)
    requires Store.GetRemark(db, message.id).None? || Store.GetRemark(db, message.id) == message.remark
    ensures !HasChanges(Open(message, db), message.remark)
    ensures typed != message.remark.GetOr("") ==> HasChanges(Edit(Open(message, db), typed), message.remark)
  {
  }

  /**
   Whatever was typed and saved is what the editor shows when it is opened
   again for the same message, and it is stored under the original nickname
   even when the message shows a remark as its name.
   */
  lemma SaveThenReopen(message: Message, db: Store.Db, typed: string, now: int)
    requires Store.RemarkReady(db.schema)
    ensures var db' := Save(Edit(Open(message, db), typed), db, now);
            && Open(message, db').remark == typed
            && db'.remarks[message.id].nickname == message.nickname
  {
  }

  /** The id reported is the opened message's, through edits and saves. */
  lemma MessageIdFixed(message: Message, db: Store.Db, typed: string)
    ensures MessageId(Open(message, db)) == message.id
    ensures MessageId(Edit(Open(message, db), typed)) == message.id
  {
  }
}
