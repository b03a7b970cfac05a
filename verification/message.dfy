/**
 The feed entity: a message with its read/pin/remark state and a content body.
 Timestamps are opaque integers (seconds since an epoch); only their order matters.
 */
module Messages {
  import opened Wrappers

  /** Message category; `TypeKey` is the raw string value used as a statistics key. */
  datatype MessageType = Friend | System | Live | Comment | Promotion

  function TypeKey(t: MessageType): string {
    match t
    case Friend => "friend"
    case System => "system"
    case Live => "live"
    case Comment => "comment"
    case Promotion => "promotion"
  }

  /** The raw type keys, in declaration order. */
  const TypeKeys: seq<string> := ["friend", "system", "live", "comment", "promotion"]

  lemma TypeKeyListed(t: MessageType)
    ensures TypeKey(t) in TypeKeys
  {
  }

  /** The content tag of the flat record. */
  datatype ContentType = TextKind | ImageKind | ButtonKind

  /**
   The content body as a tagged variant: each alternative carries exactly the
   fields its tag needs.
   */
  datatype Content =
    | TextContent(text: string)
    | ImageContent(text: string, imageURL: string)
    | ButtonContent(text: string, buttonText: string, buttonAction: string)

  /**
   The flat record the source stores: a tag, the text, and three optional
   fields whose meaning depends on the tag.
   */
  datatype ContentRecord = ContentRecord(
    kind: ContentType,
    text: string,
    imageURL: Option<string>,
    buttonText: Option<string>,
    buttonAction: Option<string>)

  /** The flat record a variant is stored as. */
  function Fields(c: Content): ContentRecord {
    match c
    case TextContent(t) => ContentRecord(TextKind, t, None, None, None)
    case ImageContent(t, u) => ContentRecord(ImageKind, t, Some(u), None, None)
    case ButtonContent(t, b, a) => ContentRecord(ButtonKind, t, None, Some(b), Some(a))
  }

  /** Recovers the variant from a flat record whose optional fields fit its tag. */
  function FromFields(rec: ContentRecord): Option<Content> {
    match rec
    case ContentRecord(TextKind, t, None, None, None) => Some(TextContent(t))
    case ContentRecord(ImageKind, t, Some(u), None, None) => Some(ImageContent(t, u))
    case ContentRecord(ButtonKind, t, None, Some(b), Some(a)) => Some(ButtonContent(t, b, a))
    case _ => None
  }

  /** The flat view loses nothing, and only flat views of variants are recovered. */
  lemma FieldsRoundTrip(c: Content, rec: ContentRecord)
    ensures FromFields(Fields(c)) == Some(c)
    ensures FromFields(rec) == Some(c) ==> Fields(c) == rec
  {
  }

  /** `MessageContent.text(_:)`. */
  function TextOf(text: string): (r: Content)
    ensures Fields(r) == ContentRecord(TextKind, text, None, None, None)
  {
    TextContent(text)
  }

  /** `MessageContent.image(text:imageURL:)`. */
  function ImageOf(text: string, imageURL: string): (r: Content)
    ensures Fields(r) == ContentRecord(ImageKind, text, Some(imageURL), None, None)
  {
    ImageContent(text, imageURL)
  }

  /** `MessageContent.button(text:buttonText:action:)`. */
  function ButtonOf(text: string, buttonText: string, action: string): (r: Content)
    ensures Fields(r) == ContentRecord(ButtonKind, text, None, Some(buttonText), Some(action))
  {
    ButtonContent(text, buttonText, action)
  }

  datatype Message = Message(
    id: string,
    avatar: string,
    nickname: string,
    timestamp: int,
    summary: string,
    messageType: MessageType,
    isRead: bool,
    unreadCount: int,
    remark: Option<string>,
    isPinned: bool,
    content: Content)

  /** The name shown for a message: a non-empty remark wins over the nickname. */
  function DisplayName(m: Message): (r: string)
    ensures m.remark.Some? && m.remark.value != "" ==> r == m.remark.value
    ensures m.remark.None? || m.remark.value == "" ==> r == m.nickname
  {
    match m.remark
    case Some(rm) => if rm != "" then rm else m.nickname
    case None => m.nickname
  }

  /** The legacy initializer, which has no pin flag and no content argument. */
  function LegacyMessage(
    id: string, avatar: string, nickname: string, timestamp: int, summary: string,
    messageType: MessageType, isRead: bool, unreadCount: int, remark: Option<string>): (r: Message)
    ensures !r.isPinned
    ensures Fields(r.content) == ContentRecord(TextKind, summary, None, None, None)
    ensures r.id == id && r.avatar == avatar && r.nickname == nickname && r.timestamp == timestamp
    ensures r.summary == summary && r.messageType == messageType
    ensures r.isRead == isRead && r.unreadCount == unreadCount && r.remark == remark
  {
    Message(id, avatar, nickname, timestamp, summary, messageType, isRead, unreadCount, remark,
            false, TextOf(summary))
  }

  /** The decoded wire form: the pin flag and the content body may be absent. */
  datatype MessageDTO = MessageDTO(
    id: string,
    avatar: string,
    nickname: string,
    timestamp: int,
    summary: string,
    messageType: MessageType,
    isRead: bool,
    unreadCount: int,
    isPinned: Option<bool>,
    content: Option<Content>)

  /** `MessageDTO.toMessage()`: copies the payload, defaults the optional parts, never sets a remark. */
  function ToMessage(d: MessageDTO): (r: Message)
    ensures r.id == d.id && r.avatar == d.avatar && r.nickname == d.nickname
    ensures r.timestamp == d.timestamp && r.summary == d.summary && r.messageType == d.messageType
    ensures r.isRead == d.isRead && r.unreadCount == d.unreadCount
    ensures r.remark.None?
    ensures d.isPinned.None? ==> !r.isPinned
    ensures d.isPinned.Some? ==> r.isPinned == d.isPinned.value
    ensures d.content.None? ==> Fields(r.content) == ContentRecord(TextKind, d.summary, None, None, None)
    ensures d.content.Some? ==> r.content == d.content.value
    ensures DisplayName(r) == d.nickname
  {
    Message(d.id, d.avatar, d.nickname, d.timestamp, d.summary, d.messageType, d.isRead,
            d.unreadCount, None, d.isPinned.GetOr(false), d.content.GetOr(TextOf(d.summary)))
  }

  /** A payload without pin flag and content decodes exactly as the legacy initializer builds it. */
  lemma ToMessageOfLegacyPayload(d: MessageDTO)
    requires d.isPinned.None? && d.content.None?
    ensures ToMessage(d) == LegacyMessage(d.id, d.avatar, d.nickname, d.timestamp, d.summary,
                                          d.messageType, d.isRead, d.unreadCount, None)
  {
  }
}
