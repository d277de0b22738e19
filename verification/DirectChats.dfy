/** The chats, each with the id of the message that was sent last in it. */
module DirectChats {
  import opened Domain
  import opened Wrappers

  datatype ChatError = ChatNotFound | DuplicateLastSent

  /** The unique key on the last sent message. */
  predicate LastSentTaken(chats: map<ChatId, Option<MessageId>>, chat: ChatId, id: MessageId) {
    exists c :: c in chats && c != chat && chats[c] == Some(id)
  }

  class DirectChatService {
    var chats: map<ChatId, Option<MessageId>>

    constructor (known: set<ChatId>)
      ensures chats == map c | c in known :: None
    {
      chats := map c | c in known :: None;
    }

    method UpdateDirectChat(directChatId: ChatId, lastSentMessageId: MessageId)
      returns (r: Result<(), ChatError>)
      modifies this
      ensures r.Ok? <==> directChatId in old(chats)
                         && !LastSentTaken(old(chats), directChatId, lastSentMessageId)
      ensures r == Err(ChatNotFound) <==> directChatId !in old(chats)
      ensures r == Err(DuplicateLastSent) <==>
              directChatId in old(chats)
              && exists c :: c in old(chats) && c != directChatId && old(chats)[c] == Some(lastSentMessageId)
      ensures chats == if r.Ok? then old(chats)[directChatId := Some(lastSentMessageId)] else old(chats)
    {
      if directChatId !in chats {
        return Err(ChatNotFound);
      }
      if LastSentTaken(chats, directChatId, lastSentMessageId) {
        return Err(DuplicateLastSent);
      }
      chats := chats[directChatId := Some(lastSentMessageId)];
      r := Ok(());
    }

    method AddLastSentMessage(directChatId: ChatId, lastSentMessageId: MessageId)
      returns (r: Result<(), ChatError>)
      modifies this
      ensures r.Ok? <==> directChatId in old(chats)
                         && !LastSentTaken(old(chats), directChatId, lastSentMessageId)
      ensures r == Err(ChatNotFound) <==> directChatId !in old(chats)
      ensures r == Err(DuplicateLastSent) <==>
              directChatId in old(chats)
              && exists c :: c in old(chats) && c != directChatId && old(chats)[c] == Some(lastSentMessageId)
      ensures chats == if r.Ok? then old(chats)[directChatId := Some(lastSentMessageId)] else old(chats)
    {
      r := UpdateDirectChat(directChatId, lastSentMessageId);
    }
  }
}
