/** Message rows (app/Models/Message.php and the `messages` table). */
module Messages {
  import opened Common

  /** The types that carry an attached file. */
  const MEDIA_TYPES: seq<string> := ["image", "video", "audio", "document"]

  /** The values `type` may take (validated by the send action). */
  const MESSAGE_TYPES: seq<string> := ["text"] + MEDIA_TYPES

  /** A `messages` row; `createdAt` is seconds on the injected clock. */
  datatype MessageRow = MessageRow(
    id: int,
    chatId: int,
    userId: int,
    content: Option<string>,
    messageType: string,
    fileUrl: Option<string>,
    isDelivered: bool,
    isSeen: bool,
    createdAt: int)

  /** A freshly inserted row: the flags take their column defaults (false) and
      an omitted type takes the default `text`. */
  function NewMessage(id: int, chatId: int, userId: int, content: Option<string>,
                      messageType: Option<string>, fileUrl: Option<string>, now: int): (m: MessageRow)
    ensures !m.isDelivered && !m.isSeen
    ensures m.messageType == messageType.GetOr("text")
    ensures m.id == id && m.chatId == chatId && m.userId == userId && m.createdAt == now
    ensures m.content == content && m.fileUrl == fileUrl
  {
    MessageRow(id, chatId, userId, content, messageType.GetOr("text"), fileUrl, false, false, now)
  }

  /** `hasMedia`: decided by the type alone. */
  predicate HasMedia(m: MessageRow)
  {
    m.messageType in MEDIA_TYPES
  }

  /** Of the five accepted types, `text` is the only one without media, and
      whether a file is attached plays no part. */
  lemma HasMediaByTypeOnly(m: MessageRow, url: Option<string>)
    ensures m.messageType in MESSAGE_TYPES ==> (HasMedia(m) <==> m.messageType != "text")
    ensures HasMedia(m) <==> m.messageType in {"image", "video", "audio", "document"}
    ensures HasMedia(m.(fileUrl := url)) == HasMedia(m)
  {
  }
}
