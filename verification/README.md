# Verification of the chat server's core

A Dafny model of the stateful core of the chat server, with proofs of what it keeps and delivers.

* `Domain.dfy`, `Wrappers.dfy`: identifiers, and the usual option and result types.
* `Utf16.dfy`, `KeyMemo.dfy`, `ESMessageEncryptor.dfy`: the per-character message encryptor. Strings are
  sequences of 16-bit units (surrogate arithmetic of sections 2.1 and 2.2 of RFC 2781; a surrogate with
  no partner stands for itself, section 11.1.4 of ECMA-262, edition of 2021). `KeyMemo` says what the
  encryptor remembers as a sequence of code points; the class with its two maps and its loops is proved
  against that. The digest is a parameter that gives 44 units (section 4 of RFC 4648); nothing else is
  assumed of it, so collisions are possible everywhere.
* `SyncWorker.dfy`: the worker that writes the merged character mappings ahead of the encoding.
* `Messages.dfy`: the message table, its queries, the time sort, and paging backwards through a chat.
* `FriendRequests.dfy`: the request and friend tables under send, accept, reject and resend.
* `MessageTokens.dfy`, `Typing.dfy`: the two managers that live on timers. Each is a class over its
  fields, the clock and the pending timers. A timer fires once its time has come, possibly late.
* `SocketService.dfy`, `DirectChats.dfy`: the socket map and the chats' last sent messages.
* `Gateway.dfy`: the socket gateway as a state machine over all of these. Each handler is cut at every
  `await`, and steps of any number of sends, connections, timers and friend calls interleave freely.
  `AppGateway.dfy` is the gateway object, proved to take exactly these steps.
* `GatewayInvariant.dfy`, `Delivery.dfy`, `Guarantees.dfy`, `LastSent.dfy`, `Emissions.dfy`: what holds over
  all runs. `History.dfy` tells the gateway by its steps alone.
* `Retry.dfy`: the bounded retry of a synchronous request.

The main results are `KeyMemo.RoundTrip`, `KeyMemo.RestoreDecryptsExactly`,
`SyncWorker.WrittenMappingsDecryptExactly`, `Messages.WalkDelivers`, `FriendRequests.EveryRunConsistent`,
`Delivery.NoMessageLost`, `Guarantees.RowsPerToken`, `Guarantees.RowsBetweenFriends`,
`LastSent.LastSentNewestExactly` and `Emissions.UninterruptedSendExactly`.

Some things hold otherwise than names or comments suggest; the model follows the code:

* The restore loop of the encryptor reads every index, so the low half of each pair becomes a key of its
  own (`src/direct-message/security/es-message-encryptor.ts:129-135`).
* After an offset at or above the newest id, a message that comes in later with an id up to it joins the
  part that the older query returns (`src/direct-message/direct-message.service.ts:93-111`).
* The worker writes the mappings before it encodes, so a message that the encoder refuses leaves mappings
  that cannot be restored (`src/configs/elasticsearch/sync-data-to-ES/sync-data-to-ES.worker.ts:259-266`).
* Two overlapping sends can leave a chat's last sent message behind its newest one
  (`src/gateway/gateway.ts:180-189`).
* A walk through older messages never delivers the lowest row, since the last fetched row is dropped even
  when there is none too many (`src/direct-message/direct-message.service.ts:128`).
* "Is friend" means that there is a request between the two users, pending and rejected ones included
  (`src/friend/friend.service.ts:14-39`).
* A connect argument of 0 counts as missing, so a client that has no message yet recovers nothing
  (`src/gateway/gateway.ts:106`, `src/gateway/gateway.ts:140`).
* A retried request runs up to `maxRetries + 2` times, because the counter is compared before it is
  raised (`src/utils/helpers.ts:65-69`).
* Retained timers of removed tokens still fire, and a disconnect lets a token be accepted again at once
  (`src/gateway/helpers/message-tokens.helper.ts:29-47`).

`dafny verify dfyconfig.toml` checks the whole project.

## Model

| member | source | states |
|---|---|---|
| `Utf16.PairsInOrder` | src/direct-message/security/es-message-encryptor.ts:75-83 | The surrogate pairs stand for the supplementary code points one after the other, from the first to the last |
| `Utf16.JoinCodePoints` | src/direct-message/security/es-message-encryptor.ts:75-83 | Reading a string by code point, two units for a pair, and writing the code points again gives the same units, lone surrogates included |
| `Utf16.CodePointsJoin` | src/direct-message/security/es-message-encryptor.ts:75-83 | Writing code points and reading them back gives the same code points exactly when no lone high surrogate stands directly before a lone low one |
| `Utf16.ScanJoin` | src/direct-message/security/es-message-encryptor.ts:129-135 | The restore loop, which does not skip low halves, sees each saved code point and the low half of each pair once more |
| `KeyMemo.TablesExtend` | src/direct-message/security/es-message-encryptor.ts:53-60 | Entering a new code point in both maps keeps them exact inverses that agree with the hash |
| `KeyMemo.InverseTable` | src/direct-message/security/es-message-encryptor.ts:59-60 | The reverse map holds the code of every remembered code point and nothing else |
| `KeyMemo.AbsorbKeepsSound` | src/direct-message/security/es-message-encryptor.ts:43-63 | In every reachable state, a throw on a collision or NUL part-way through a string included: keys stay distinct and collision-free, entries are only added, and what was added is exactly what was met before the throw |
| `KeyMemo.AbsorbsAllExactly` | src/direct-message/security/es-message-encryptor.ts:72-86 | `encrypt` returns exactly when the string has no NUL and no two code points, remembered or new, share a code |
| `KeyMemo.RoundTrip` | src/direct-message/security/es-message-encryptor.ts:72-108 | Whatever `encrypt` returns for decrypts to the same string unit for unit, at 8 units a code point |
| `KeyMemo.EncodeAt` | src/direct-message/security/es-message-encryptor.ts:75-82 | Chunk i of an encoding is the code of code point i |
| `KeyMemo.DecryptExactly` | src/direct-message/security/es-message-encryptor.ts:94-108 | Decrypting fails for the length exactly when that is no multiple of 8, and otherwise at the first chunk that is the code of no key; else it gives the text of the keys whose codes the chunks are |
| `KeyMemo.DecryptStable` | src/direct-message/security/es-message-encryptor.ts:94-108 | A ciphertext keeps its meaning as long as no key is lost, so after any later calls |
| `KeyMemo.ReverseRoundTrip` | src/direct-message/security/es-message-encryptor.ts:72-108 | When `decrypt` returns, encoding the result gives the same ciphertext exactly when no lone high surrogate was decoded directly before a lone low one; then nothing new is remembered |
| `KeyMemo.EncodingInjective` | src/direct-message/security/es-message-encryptor.ts:72-86 | On one instance two texts have equal encodings exactly when they are equal |
| `KeyMemo.RestoreConstructsExactly` | src/direct-message/security/es-message-encryptor.ts:21-26 | A new encryptor constructs from a saved text exactly when the text has no NUL and no two of its code points, the low halves of its pairs included, share a code |
| `KeyMemo.SavedKeysConstructExactly` | src/direct-message/security/es-message-encryptor.ts:114-136 | Saved keys with no lone high surrogate directly before a lone low one can be restored exactly when the low halves that come in clash with nothing |
| `KeyMemo.RestoreAddsLowHalves` | src/direct-message/security/es-message-encryptor.ts:114-136 | Unless a lone high surrogate was saved directly before a lone low one, a restored encryptor has exactly the saved keys and the low halves of the supplementary ones |
| `KeyMemo.RestoreKeepsKeysExactly` | src/direct-message/security/es-message-encryptor.ts:114-136 | Restoring loses no key exactly when no lone high surrogate was saved directly before a lone low one |
| `KeyMemo.RestoreDecryptsExactly` | src/direct-message/security/es-message-encryptor.ts:94-136 | The restored encryptor decrypts every old ciphertext to the same text exactly under that condition |
| `KeyMemo.RestoreTwiceExactly` | src/direct-message/security/es-message-encryptor.ts:114-136 | Whatever text was restored, saving and restoring a second time changes nothing, not even the order of the keys, exactly when the restored order has no lone high surrogate directly before a lone low one |
| `KeyMemo.RestoreTwice` | src/direct-message/security/es-message-encryptor.ts:114-136 | In particular nothing changes when the saved keys had no such place |
| `KeyMemo.HighSurrogateLost` | src/direct-message/security/es-message-encryptor.ts:72-136 | One string after which a fresh encryptor, and one restored from it as raw mappings, hold an order whose restoring loses a key |
| `MessageEncryption.DecimalIsNumeral` | src/direct-message/security/es-message-encryptor.ts:46 | The numeral that is hashed reads as the code point, digit by digit, without a leading zero |
| `MessageEncryption.NumeralUnique` | src/direct-message/security/es-message-encryptor.ts:46 | A number has one such numeral, so what is hashed is fixed |
| `MessageEncryption.CodeOfExactly` | src/direct-message/security/es-message-encryptor.ts:46-50 | The code is the first 8 units of the digest of the secret key followed by the numeral of the code point, and nothing else is |
| `MessageEncryption.ESMessageEncryptor.Create` | src/direct-message/security/es-message-encryptor.ts:21-26 | A new encryptor has the keys that reading the mappings gives; it throws exactly when the mappings are not read to their end |
| `MessageEncryption.ESMessageEncryptor.EncryptChar` | src/direct-message/security/es-message-encryptor.ts:43-63 | Returns the code of the code point, told by the numeral that is hashed, and remembers it; or throws on a collision, naming a remembered code point with the same code, and changes nothing |
| `MessageEncryption.ESMessageEncryptor.Encrypt` | src/direct-message/security/es-message-encryptor.ts:72-86 | Each chunk of the result is the code of its code point; a NUL throws at its own position, the first there is; the tables are left as the code points met so far make them |
| `MessageEncryption.ESMessageEncryptor.DecryptText` | src/direct-message/security/es-message-encryptor.ts:94-108 | The chunk loop agrees with the recursive decoding, error cases included, and changes nothing |
| `MessageEncryption.ESMessageEncryptor.GetMappings` | src/direct-message/security/es-message-encryptor.ts:114-120 | The remembered code points written in the order they were first met |
| `MessageEncryption.ESMessageEncryptor.InitMapping` | src/direct-message/security/es-message-encryptor.ts:126-136 | Every index of the mappings is read; stops with the fault at the first refused one |
| `SyncWorker.SyncDataToESWorker.CreateOrUpdateMessageMapping` | src/configs/elasticsearch/sync-data-to-ES/sync-data-to-ES.worker.ts:211-237 | The merged mappings are written, or the write fails when there is no row |
| `SyncWorker.SyncDataToESWorker.LaunchWorker` | src/configs/elasticsearch/sync-data-to-ES/sync-data-to-ES.worker.ts:246-267 | Fails without an encryptor; the merge is written before the content is encoded, and stays written when the encoding throws its fault |
| `SyncWorker.ReadTogether` | src/configs/elasticsearch/sync-data-to-ES/sync-data-to-ES.worker.ts:221 | When nothing fuses, the Set merge sees the old keys and then the code points of the message |
| `SyncWorker.WriteAhead` | src/configs/elasticsearch/sync-data-to-ES/sync-data-to-ES.worker.ts:218-228 | When old keys and message read as one string fuse nothing, and the encoding returns, what is written ahead equals the mappings held after it: old keys in front, new ones behind, none twice |
| `SyncWorker.WriteAheadNeedsApart` | src/configs/elasticsearch/sync-data-to-ES/sync-data-to-ES.worker.ts:221 | An encryptor that has encoded a lone low and then a lone high surrogate meets a message that begins with the low one: what is written differs from what is held, and the high one is lost |
| `SyncWorker.WriteAheadByChance` | src/configs/elasticsearch/sync-data-to-ES/sync-data-to-ES.worker.ts:221 | Two lone halves that fuse when they are read come out the same when they are written, so the condition of `WriteAhead` is sufficient only |
| `SyncWorker.FirstWrite` | src/configs/elasticsearch/sync-data-to-ES/sync-data-to-ES.worker.ts:227 | With no mappings yet the raw message is written, and restores to its code points and low halves |
| `SyncWorker.WrittenMappingsDecryptExactly` | src/configs/elasticsearch/sync-data-to-ES/sync-data-to-ES.worker.ts:218-267 | An encryptor restored from what was written decrypts the content just encoded and everything before it exactly when there were no mappings yet, or each lone high surrogate among the keys is still read in the old mappings and message taken as one string, and the merged order has none directly before a lone low one |
| `SyncWorker.FirstWriteDecrypts` | src/configs/elasticsearch/sync-data-to-ES/sync-data-to-ES.worker.ts:227 | The first write never loses anything |
| `SyncWorker.ApartLosesNothingExactly` | src/configs/elasticsearch/sync-data-to-ES/sync-data-to-ES.worker.ts:221 | When nothing fuses at the seam, nothing is lost exactly when the order after the encoding has no lone high surrogate directly before a lone low one |
| `SyncWorker.RefusedMessageSpoils` | src/configs/elasticsearch/sync-data-to-ES/sync-data-to-ES.worker.ts:259-267 | A message that the encoder refuses, written before the encoding, leaves mappings from which no encryptor can be restored, unless a lone high surrogate gets lost on the way |
| `Messages.SortByTimeExactly` | src/direct-message/direct-message.service.ts:81-91 | The time sort is a permutation in order of time that keeps the order within an instant, and is the only such one |
| `Messages.HandlerPage` | src/direct-message/direct-message.service.ts:113-137 | A page is the `limit` newest of more than `limit` rows, and otherwise all but the lowest, because the last fetched row is always dropped |
| `Messages.HandlerOrder` | src/direct-message/direct-message.service.ts:81-91 | Under TIME_ASC a page is in order of time, with the rows of one instant as they were fetched; under TIME_DESC it is as fetched, by falling id |
| `Messages.WalkGivesBlocks` | src/direct-message/direct-message.service.ts:113-137 | A walk from any offset, in which each next offset is the lowest id returned, sees the blocks of the rows there were at its first call, whatever is inserted between the calls |
| `Messages.BlocksTile` | src/direct-message/direct-message.service.ts:113-137 | Every page that says there is more holds exactly the `limit` newest of the rows that remain; only the last says there is none |
| `Messages.TilesFall` | src/direct-message/direct-message.service.ts:93-111 | Ids fall from page to page |
| `Messages.WalkDelivers` | src/direct-message/direct-message.service.ts:93-137 | A whole walk from any offset ends and delivers each row below the start that was there at the first call once, except the single lowest one; so it is complete exactly when there are no rows |
| `Messages.LimitZeroStalls` | src/direct-message/direct-message.service.ts:113-137 | With limit 0 every page is empty and says there is more as long as a row is left, so a walk needs a limit of at least 1 |
| `Messages.BelowAscending` | src/direct-message/direct-message.service.ts:93-111 | The older query returns exactly the rows of the chat below, or up to, the offset |
| `Messages.NewerMembers` | src/direct-message/direct-message.service.ts:64-79 | The newer query returns exactly the rows of the chat above the offset, by ascending id |
| `Messages.OlderAndNewerPartition` | src/direct-message/direct-message.service.ts:64-111 | The inclusive older query and the newer one at the same offset split a chat exactly in two |
| `Messages.OlderPartStaysExactly` | src/direct-message/direct-message.service.ts:93-111 | Later inserts leave the older part as it was exactly when each of them that is of the chat has an id above the offset |
| `Messages.LateInsertJoinsOlder` | src/direct-message/direct-message.service.ts:93-111 | With the offset at the next id, the next row joins the older part |
| `Messages.InsertExactly` | prisma/schema.prisma:76-92 | An insert is refused for its time exactly when some row has the same chat and the same time, and otherwise exactly when author, recipient, chat or sticker is unknown; else the row is added |
| `Messages.DirectMessageService.CreateNewMessage` | src/direct-message/direct-message.service.ts:23-50 | Appends the row asked for under a fresh id, or is refused by a key of the table and changes nothing but the next id |
| `Messages.DirectMessageService.GetNewerDirectMessages` | src/direct-message/direct-message.service.ts:64-79 | Exactly the rows above the offset, ascending |
| `Messages.DirectMessageService.GetOlderDirectMessagesHandler` | src/direct-message/direct-message.service.ts:113-137 | The page described above, for the table as it is, in the order that the sort type asks for |
| `FriendRequests.EveryRunConsistent` | src/friend-request/friend-request.service.ts:66-174 | Over every run: no request to oneself, at most one per unordered pair, accepted pairs have a friend row, friend rows have a request, and the unique key refuses no write |
| `FriendRequests.KeyNeverTaken` | prisma/schema.prisma:120 | With one row per pair the unique key has room for any direction and status of it |
| `FriendRequests.RequestsPersist` | src/friend-request/friend-request.service.ts:83-131 | A request keeps its id and unordered pair for the rest of any run, also when a resend turns it round |
| `FriendRequests.FriendRowsCountAccepts` | src/friend-request/friend-request.service.ts:146-163 | There are as many friend rows as accept actions that went through |
| `FriendRequests.SendSucceedsExactly` | src/friend-request/friend-request.service.ts:83-131 | A send goes through exactly between two different known users with no request or a rejected one, and leaves a pending request in the direction asked; each error has its exact condition |
| `FriendRequests.ActSucceedsExactly` | src/friend-request/friend-request.service.ts:143-174 | An action goes through exactly when the request is there (or the action is to leave it pending); that request alone changes, and an acceptance adds its friend row; leaving it pending changes nothing |
| `FriendRequests.IsFriendSymmetric` | src/friend/friend.service.ts:14-39 | The friend check is symmetric |
| `FriendRequests.FriendsExactlyAsked` | src/friend/friend.service.ts:14-39 | Over every run two users pass the friend check exactly when one has once asked the other with success, whatever became of the request |
| `FriendRequests.FriendRequestService.CreateRequest` | src/friend-request/friend-request.service.ts:22-39 | Adds a pending row or is refused by a key, changing nothing |
| `FriendRequests.FriendRequestService.Update` | src/friend-request/friend-request.service.ts:41-64 | Overwrites the row with that id, or fails with nothing changed when there is none or a key refuses |
| `FriendRequests.FriendRequestService.SendFriendRequest` | src/friend-request/friend-request.service.ts:83-141 | The tables after the call are those of the specification, and the request is returned |
| `FriendRequests.FriendRequestService.FriendRequestAction` | src/friend-request/friend-request.service.ts:143-176 | The tables after the call are those of the specification, errors included |
| `MessageTokens.AcceptancesSpaced` | src/gateway/helpers/message-tokens.helper.ts:15-47 | Over every run two acceptances of one token by one user have a removal of all the user's tokens or a fired timer of that token between them; and an hour, if the user's tokens were not all removed before the second |
| `MessageTokens.RemovalShortensWindow` | src/gateway/helpers/message-tokens.helper.ts:29-31 | A removal of all tokens can bring two acceptances together: a run in which they share an instant |
| `MessageTokens.ListedTokensExpire` | src/gateway/helpers/message-tokens.helper.ts:15-47 | Over every run, stale timers included: no list holds a token twice, each listed token has a removal timer due an hour after its acceptance, and once due timers have fired only tokens of the last hour remain |
| `MessageTokens.ListedExactly` | src/gateway/helpers/message-tokens.helper.ts:15-41 | Over every run a token is listed exactly when it was checked since the user's tokens were last removed and since a timer of it last fired |
| `MessageTokens.TimersCounted` | src/gateway/helpers/message-tokens.helper.ts:43-47 | Over every run the pending timers are those started, one for each check of an unlisted token and due 60 minutes later, less those that fired |
| `MessageTokens.LogTold` | src/gateway/helpers/message-tokens.helper.ts:15-47 | Over every run the log, of which the other statements speak, tells the events and nothing else |
| `MessageTokens.OthersNeverInterfere` | src/gateway/helpers/message-tokens.helper.ts:7-47 | Calls and timers of other users never change a user's list |
| `MessageTokens.WithoutFilters` | src/gateway/helpers/message-tokens.helper.ts:36-39 | The filter takes out every occurrence of the token, keeps all others as often as they were, and keeps their order |
| `MessageTokens.MessageTokensManager.IsUniqueToken` | src/gateway/helpers/message-tokens.helper.ts:15-27 | True exactly when the token is not listed; then it is listed and its timer started |
| `MessageTokens.MessageTokensManager.RemoveAllTokens` | src/gateway/helpers/message-tokens.helper.ts:29-31 | The user's list is gone, the timers stay |
| `MessageTokens.MessageTokensManager.RemoveSingleToken` | src/gateway/helpers/message-tokens.helper.ts:33-41 | The list without the token; a missing or empty list stays as it is |
| `MessageTokens.MessageTokensManager.TimerFires` | src/gateway/helpers/message-tokens.helper.ts:44-46 | A due timer is used up and removes its token |
| `Typing.OneTimerPerSender` | src/gateway/helpers/conversation-typing.helper.ts:9-21 | Over every run at most one timer per sender is pending, and one is exactly while the sender's last act was to start typing |
| `Typing.EmissionTrace` | src/gateway/helpers/conversation-typing.helper.ts:9-21 | An automatic "not typing" comes only from a sender whose last call was to start typing at that socket, five seconds before the timer was due; a refreshed or removed timer never emits |
| `Typing.TimersTold` | src/gateway/helpers/conversation-typing.helper.ts:9-21 | Over every run exactly these timers wait: those of starts after which the sender has neither started again nor stopped and that have not fired, due five seconds after the start, at its socket |
| `Typing.LogTold` | src/gateway/helpers/conversation-typing.helper.ts:9-21 | Over every run the log, of which the other statements speak, tells the events and nothing else |
| `Typing.ConversationTypingManager.InitTyping` | src/gateway/helpers/conversation-typing.helper.ts:9-16 | Replaces the sender's timer by one due in five seconds |
| `Typing.ConversationTypingManager.RemoveTyping` | src/gateway/helpers/conversation-typing.helper.ts:18-21 | Cancels the sender's timer |
| `Typing.ConversationTypingManager.TimerFires` | src/gateway/helpers/conversation-typing.helper.ts:13-15 | A due timer is used up and tells its socket |
| `DirectChats.DirectChatService.UpdateDirectChat` | src/direct-chat/direct-chat.service.ts:28-33 | Writes the last sent message, exactly when the chat exists and the unique key has room |
| `DirectChats.DirectChatService.AddLastSentMessage` | src/direct-chat/direct-chat.service.ts:35-37 | The chat names this message as its last, exactly when the chat exists and no other one names it; otherwise no chat changes |
| `GatewayInvariant.StepInvariant` | src/gateway/gateway.ts:93-274 | Every step of connecting, disconnecting, sending and typing, in any interleaving with timers and friend calls, keeps the invariant of the gateway: tables, sends in flight, sockets and emissions; marking as seen and a refused socket validation are no steps of the model |
| `GatewayInvariant.RunInvariant` | src/gateway/gateway.ts:93-274 | So does every run of these steps |
| `Delivery.StepAttended` | src/gateway/gateway.ts:101-195 | No step loses a row for a client whose socket is registered: registration comes before the query, and the lookup of the socket after the insert |
| `Delivery.NoMessageLost` | src/gateway/gateway.ts:93-195 | In every interleaving with one reconnection, once the connection is through and the socket was not replaced or removed: every row of the chat for that user above the offset that is no longer on its way was emitted to the socket, live or by recovery, unless its own send or the query threw |
| `Guarantees.EmittedOnce` | src/gateway/gateway.ts:140-195 | Over every run a message is emitted live at most once, and a socket gets at most one recovery, with no message twice |
| `Guarantees.EarlierRowsRecoveredExactly` | src/gateway/gateway.ts:106-151 | A row whose send was done before the connection reaches the socket exactly when offset and chat are both truthy and the row is in the chat above the offset; so offset 0 recovers nothing |
| `Guarantees.RowsPerToken` | src/gateway/gateway.ts:154-241 | Over every run each row has a send of its own, and two rows of one user and token were accepted with a removal or a fired timer in between; and at least an hour apart, if the user's tokens were not all removed before the later one |
| `Guarantees.RowsBetweenFriends` | src/gateway/gateway.ts:160-239 | Over every run, in every state: author and recipient of a stored row differ, and there is a request between them |
| `Guarantees.LastSentOwn` | prisma/schema.prisma:64 | Over every run a chat's last sent message is one of its own, no two chats share one, and the unique key refuses no update |
| `LastSent.LastSentNewestExactly` | src/gateway/gateway.ts:180-189 | Over every run, overlapping sends and failures included: in every state no row of the chat is newer than its last sent message, but for rows whose update is to come, exactly when no update finds a newer row named and no send throws, before its update, with a row newer than the one named |
| `LastSent.WithoutOverlapNewest` | src/gateway/gateway.ts:180-189 | When sends to a chat do not overlap between insert and update, no update finds a newer row named; and when none of them throws there, the last sent message is the newest row of the chat whenever no update is to come |
| `LastSent.MissedGuardStepsBack` | src/gateway/gateway.ts:189 | An update that finds a newer row named, and only such an update, leaves the chat behind a row of its own that it already named |
| `LastSent.GuardExact` | src/gateway/gateway.ts:189 | Over every run the chat never steps back exactly when no update finds a newer row named |
| `LastSent.OverlapMovesBack` | src/gateway/gateway.ts:180-189 | From a fresh gateway eleven steps of one request and two overlapping sends, none failing, leave the chat behind a stored row whose update is done |
| `Emissions.EchoedExactly` | src/gateway/gateway.ts:194 | Over every run exactly the sends that are done have been echoed, each to its own socket and once |
| `Emissions.SocketMapExact` | src/gateway/socket/socket.service.ts:29-39 | Over every run the socket map holds for each user the socket connected last, unless the user has disconnected since |
| `Emissions.LiveToRegistered` | src/gateway/gateway.ts:190-194 | A finished send emits its message to the socket its recipient connected last and still has, if any, and then to the author's, and nothing else |
| `Emissions.TypingFlagsTrace` | src/gateway/gateway.ts:260-274 | Over every run the typing flags sent are those of the typing manager's acts, one for one and in order; one from a timer follows a start at that very socket |
| `Emissions.UninterruptedSendExactly` | src/gateway/gateway.ts:167-241 | From every reachable state an uninterrupted send gets through exactly when its token is free, there is a request between the users, chat and sticker are known and no row has the same chat and time; it then stores the row asked for by its type, updates the chat, and emits |
| `History.ArrivedExactly` | src/gateway/gateway.ts:199-206 | Over every run a send is under way or over exactly when it has arrived, and as it arrived |
| `History.TokensTold` | src/gateway/gateway.ts:154-158 | Over every run the token manager has done exactly what the steps ask for: a check per token check, a removal per disconnect, and its timers |
| `History.TypingTold` | src/gateway/gateway.ts:260-274 | Over every run the typing manager has done exactly what the steps ask for, and nothing while a recipient has no socket |
| `History.RequestsTold` | src/friend-request/friend-request.service.ts:83-176 | Over every run the request and friend tables are those of the friend calls alone |
| `History.CheckTakesExactly` | src/gateway/gateway.ts:154-158 | Over every run the token check of a send goes through exactly when no send of its author with that token was checked since the author last disconnected and since a timer of it last fired; otherwise the send is refused |
| `History.FriendCheckTold` | src/gateway/gateway.ts:160-165 | The friend check of a send goes through exactly when one of the two has once asked the other with success; otherwise the send is refused |
| `History.InsertTold` | src/gateway/gateway.ts:178-188 | The insert stores the row asked for exactly when chat and sticker are known and no row has the same chat and time; otherwise the send is refused; the id is used up in either case |
| `History.RowsKeyed` | prisma/schema.prisma:92 | Over every run no two rows have the same chat and the same time |
| `History.UpdateTold` | src/gateway/gateway.ts:189 | The update makes the row of the send its chat's last sent message, never fails, and changes no other chat |
| `History.FailedSendIsOver` | src/gateway/gateway.ts:154-195 | A send that throws is over, keeps its row if it had one, and changes nothing else |
| `History.OverStays` | src/gateway/gateway.ts:199-241 | A send that is over stays as it is |
| `History.ConnectGreets` | src/gateway/gateway.ts:101-108 | A connection is registered and greeted, and a query follows exactly when offset and chat are both truthy |
| `History.QueryTold` | src/gateway/gateway.ts:140-144 | The query of a connection sees exactly the rows of its chat above its offset that there are at that moment, by rising id |
| `History.RecoverTold` | src/gateway/gateway.ts:145-150 | What was fetched goes out to the connection's own socket, unless there is nothing |
| `History.FailedQueryTold` | src/gateway/gateway.ts:109-112 | A query that throws closes the connection and changes nothing else |
| `History.RecoveredOnlyWanted` | src/gateway/gateway.ts:140-151 | Over every run a recovery is never empty and holds nothing but stored rows of the chat and above the offset that its connection named |
| `History.DisconnectFrees` | src/gateway/gateway.ts:127-131 | A disconnect of a truthy user id removes its socket and its tokens, which the log records, and leaves other users' as they are; one of 0 changes nothing |
| `History.TypingNoticeTold` | src/gateway/gateway.ts:264-273 | A typing notice goes out as it is to the socket its recipient connected last and still has, and starts the five-second timer there or ends the sender's typing; with the recipient away nothing happens |
| `History.SilentSteps` | src/gateway/gateway.ts:93-274 | Arrivals, checks, inserts, updates, failures, queries, disconnects, token timers, the clock and friend calls send nothing out |
| `AppGateways.EventLoop` | src/gateway/gateway.ts:49-275 | The object under any sequence of turns, each running the handler of a connection, a disconnection, a send or a typing notice from one await to the next, or a timer or friend call, is the state machine under that run, so what is proved of runs holds of the object; the invariant holds after any turns; marking as seen and a refused socket validation are not among the turns |
| `Retry.RetryRequest.RetryHandler` | src/utils/helpers.ts:55-75 | Terminates; every earlier run threw and was followed by another, the last run ends the call, and the errors were announced in order |
| `Retry.Request` | src/utils/helpers.ts:50-77 | Returns the first success, rethrows the error of the last run allowed (two more than `maxRetries`, or one when that is 0, negative or absent), or throws what the hook throws; it throws exactly when every run reached does |

## Left out

- SyncWorker.WriteAhead: one way only; where a lone high surrogate does meet a low one the two texts may differ (`WriteAheadNeedsApart`) or agree all the same (`WriteAheadByChance`). What a reader of the written text can decrypt is stated exactly, in `WrittenMappingsDecryptExactly`.
- SyncWorker.SyncDataToESWorker.CreateOrUpdateMessageMapping: does not model the cipher that the mappings pass through before the write; the model holds their plain text.
- SyncWorker.SyncDataToESWorker.LaunchWorker: does not model the worker threads, the copying of the encryptor between them, or the indexing that follows.
- Guarantees.RowsPerToken: the hour is between the acceptances of the tokens; an insert may follow its acceptance late.
- Delivery.NoMessageLost: the promise lasts as long as the user's registered socket is neither replaced nor removed; a second socket of the same user ends it, as in the source.
- Retry.Request: does not model asynchronous executors, whose rejections the source's `try` does not catch, or fractional limits.
- FriendRequests.FriendRequestService.FriendRequestAction: the notice to the sender's socket is not modelled.
- Messages.WalkDelivers: the limit is a whole number of at least 1, and the offset is given; limit 0 is `LimitZeroStalls`, negative and fractional limits are not modelled.
- FriendRequests.FriendRequestService.SendFriendRequest: each call is one atomic step; interleaving inside a call, the transaction that does not use its own client, the sender lookup after the write, the notice to the recipient's socket, and the sequence values that refused inserts use up are not modelled.
- Messages.DirectMessageService.CreateNewMessage: rows become visible in the order of their ids; updates of a message, its status among them, and "seen" notices are not modelled.
- SHA-256, AES, password hashing, tokens and cookies of the login: foreign calls; only the shape of a digest is used.
- Elasticsearch queries, indexing, search and logging: input and output plumbing.
- GatewayInvariant.StepInvariant: does not model `handleMarkAsSeenInDirectChat` (`src/gateway/gateway.ts:243-258`), which changes the status of a row and notifies a socket, or a socket validation that fails.
- AppGateways.EventLoop: the same two handlers' parts are not among its turns.
- Validation of requests and sockets: the model starts from decoded values, and a refused socket never arrives.
- Presence as "online exactly when a socket is live": connecting uses one field of the handshake and disconnecting another, so statements are relative to connect and disconnect events.
- Cursor lists of friends, requests and users, stickers as such, user lookup and modules: thin wrappers.
