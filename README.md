# Openfire messaging gateway: send and history pipeline

A Dafny model of the message pipeline of a Spring service that lets clients chat over an
Openfire (XMPP) server and keeps its own archive of what was sent. It covers:

- **the request** (`MessageDto`): a mutable object of nullable strings, its two constructors,
  and the `@NotBlank` recipient check;
- **the validator** (`MessageValidator.isValid`): three independent rules over five "has text"
  flags, each broken rule reporting its own violation;
- **the archive** (`AppArchivedMessage`, `AppArchivedMessageRepository`): the row type, an
  append-only table with identity ids, and the two-party conversation query (a symmetric
  filter, then ascending by `sentDate`);
- **the service** (`MessageService`): `sendMessage` delivers over XMPP and only then appends
  one record; `getMessageHistory` queries the caller's conversation with a peer.

Files: `wrappers.dfy` (Option, for Java's null), `text.dfy` (Spring's `hasText`, Java's
`Character.isWhitespace` and `String.trim`, the `@NotBlank` check), `message_dto.dfy`,
`message_validator.dfy`, `archived_message.dfy`, `repository.dfy`, `message_service.dfy`.

Explicit parameters stand in for ambient inputs. The caller's username replaces
`SecurityContextHolder`. The clock reading `now` replaces `System.currentTimeMillis`. The
XMPP delivery's outcome is a `Delivery` value: `Delivered`, or `DeliveryFailed` for the
exception it throws. The sender's password is an opaque parameter.

The query method promises only what the JPQL query promises: the matching rows, each as often
as stored, in non-decreasing `sentDate`. `Repository.Conversation` computes one such answer,
and `FindConversation` returns it. `ConversationDeterminedUpToTies` shows that any two answers
differ only in the order of rows with equal `sentDate`.

## Where the code disagrees with itself

- `MessageService.java:30` calls `getPassword()`, but `MessageDto` has no password field
  (`MessageDto.java:19-28`). The model passes the password to `SendMessage` as a parameter
  and hands it on unchanged to the delivery.
- `MessageService.java:43` stores `String.valueOf(now)`, but the entity's `sentDate` is an
  `Instant` (`AppArchivedMessage.java:20`). The model stores the millisecond count as an
  integer.
- `MessageService.java:46` calls `setMedia`, but the entity has no `media` field. The model
  archives no media. `mediaName` is never set either, so a media-only message is archived
  with no body, no file name and no media name.
- `messageType` (`AppArchivedMessage.java:26`) is never assigned anywhere. It stays null
  in every archived record. The code has no message-type classifier, no attachment store
  and no partial-failure reporting, so the model has none of them.
- `sendMessage` does not validate its request. Validation runs in the HTTP layer through
  `@Valid` (`controller/MessageController.java:23`). `SendMessage` therefore accepts any
  request, and `Validation.RequestViolations` states what that layer checks.

## Model

| member | source | states |
|---|---|---|
| `Text.HasText` | src/main/java/com/example/openfiremessaging/validation/MessageValidator.java:26-31 | a field is present exactly when it is non-null and has a character that is not Java white space; null, empty and whitespace-only strings are absent |
| `Text.ContainsText` | src/main/java/com/example/openfiremessaging/validation/MessageValidator.java:26-31 | true exactly when some character is not white space |
| `Text.Trim` | src/main/java/com/example/openfiremessaging/dto/MessageDto.java:19-20 | the result is the slice of the input between a prefix and a suffix made only of characters at or below U+0020; a non-empty result starts and ends above U+0020; nothing is left exactly when every character is at or below U+0020 |
| `Text.PrefixOfSuffix` | src/main/java/com/example/openfiremessaging/dto/MessageDto.java:19-20 | stripping a prefix and then a suffix leaves the slice of the original between the two stripped bounds |
| `Text.IsNotBlank` | src/main/java/com/example/openfiremessaging/dto/MessageDto.java:19-20 | `@NotBlank` holds exactly when the value is non-null and has a character above U+0020 |
| `Dto.MessageDto.constructor` | src/main/java/com/example/openfiremessaging/dto/MessageDto.java:31-38 | every field takes the parameter of the same name, whatever its position; `attachAdd` is dropped, and `mediaAdd` and `fileAdd` stay null |
| `Dto.MessageDto.Blank` | src/main/java/com/example/openfiremessaging/dto/MessageDto.java:13-28 | the no-argument constructor leaves every field null |
| `Validation.Violation.Template` | src/main/java/com/example/openfiremessaging/validation/MessageValidator.java:38-56 | the message text of each violation: the validator's three templates, and the message of the `@NotBlank` constraint on `to` |
| `Validation.Violation.PropertyNode` | src/main/java/com/example/openfiremessaging/validation/MessageValidator.java:45-57 | the empty-message violation belongs to the whole request; the two name violations are attached to `mediaName` and `fileName`, and the recipient one to `to` |
| `Validation.PresenceOf` | src/main/java/com/example/openfiremessaging/validation/MessageValidator.java:26-31 | the five presence flags are `hasText` of body, media, file, mediaName and fileName |
| `Validation.Admissible` | src/main/java/com/example/openfiremessaging/validationrepo/ValidMessage.java:13-16 | the documented rules: some content is present, a file has its name, media has its name |
| `Validation.CheckRules` | src/main/java/com/example/openfiremessaging/validation/MessageValidator.java:33-61 | no violation exactly when the documented rules hold; "Message is empty" exactly when body, media and file are all absent; the mediaName violation exactly when media is present without a name; the fileName violation exactly when a file is present without a name; each broken rule is reported once, in rule order |
| `Validation.IsValid` | src/main/java/com/example/openfiremessaging/validation/MessageValidator.java:21-62 | a null request is invalid and reports nothing; otherwise the verdict is true exactly when the request meets the three rules of the `@ValidMessage` documentation, and false exactly when some violation was added |
| `Validation.RequestViolations` | src/main/java/com/example/openfiremessaging/dto/MessageDto.java:12-20 | the bean validation of a request reports nothing exactly when `to` is not blank and the `@ValidMessage` rules hold; the recipient violation appears exactly when `to` is blank; the other violations are the validator's |
| `Validation.NamesAloneAreEmpty` | src/main/java/com/example/openfiremessaging/validation/MessageValidator.java:35-41 | with no body, media or file, whatever the name fields hold, the request is invalid and reports only "Message is empty" |
| `Validation.BodyOnlyIsValid` | src/main/java/com/example/openfiremessaging/validation/MessageValidator.java:35-59 | a body with text and no media or file is valid with no violation, whatever the name fields hold |
| `Validation.WhitespaceBodyIsAbsent` | src/main/java/com/example/openfiremessaging/validation/MessageValidator.java:26-41 | a body of white space only, with no media or file, is reported as an empty message |
| `Repository.Matches` | src/main/java/com/example/openfiremessaging/repository/AppArchivedMessageRepository.java:15-17 | the WHERE clause: from jid1 to jid2, or from jid2 to jid1; a null JID matches nothing |
| `Repository.SortedByDate` | src/main/java/com/example/openfiremessaging/repository/AppArchivedMessageRepository.java:18 | ORDER BY sentDate ASC: `sentDate` never decreases along the sequence |
| `Repository.IsConversation` | src/main/java/com/example/openfiremessaging/repository/AppArchivedMessageRepository.java:15-19 | what the query promises: ascending by `sentDate`, and holding each matching record exactly as often as it is stored |
| `Repository.Between` | src/main/java/com/example/openfiremessaging/repository/AppArchivedMessageRepository.java:15-17 | each stored record occurs in the selection as often as it is stored if it goes from either party to the other, and not at all otherwise |
| `Repository.InsertByDate` | src/main/java/com/example/openfiremessaging/repository/AppArchivedMessageRepository.java:18 | inserting into an ascending sequence keeps it ascending and adds exactly the one record |
| `Repository.SortByDate` | src/main/java/com/example/openfiremessaging/repository/AppArchivedMessageRepository.java:18 | the result is ascending by `sentDate` and a permutation of the input |
| `Repository.Conversation` | src/main/java/com/example/openfiremessaging/repository/AppArchivedMessageRepository.java:15-19 | one answer to the conversation query: ascending, with the same records as the selection |
| `Repository.ArchiveRepository.FindConversation` | src/main/java/com/example/openfiremessaging/repository/AppArchivedMessageRepository.java:15-19 | returns exactly the matching rows, ascending by `sentDate`, in some order among ties, and changes nothing |
| `Repository.ArchiveRepository.constructor` | src/main/java/com/example/openfiremessaging/model/AppArchivedMessage.java:12-14 | the table starts empty, with the identity counter at its first value |
| `Repository.ArchiveRepository.Save` | src/main/java/com/example/openfiremessaging/service/MessageService.java:48 | inserting a new entity appends exactly that entity, with the next identity id, as the last row; ids stay present and distinct |
| `Repository.ConversationSound` | src/main/java/com/example/openfiremessaging/repository/AppArchivedMessageRepository.java:15-17 | every returned record is stored and goes from one party to the other |
| `Repository.ConversationComplete` | src/main/java/com/example/openfiremessaging/repository/AppArchivedMessageRepository.java:15-17 | every stored record between the two parties is returned, as often as it is stored |
| `Repository.ConversationWithinStore` | src/main/java/com/example/openfiremessaging/repository/AppArchivedMessageRepository.java:15-19 | the result is a sub-multiset of the store |
| `Repository.ConversationSymmetric` | src/main/java/com/example/openfiremessaging/repository/AppArchivedMessageRepository.java:16-17 | every answer for (jid1, jid2) is also an answer for (jid2, jid1) |
| `Repository.ThirdPartyExcluded` | src/main/java/com/example/openfiremessaging/repository/AppArchivedMessageRepository.java:16-17 | a record sent by or to a third identity is never returned |
| `Repository.SelfConversation` | src/main/java/com/example/openfiremessaging/repository/AppArchivedMessageRepository.java:16-17 | when both arguments are the same JID, the result holds exactly the stored records that JID sent to itself |
| `Repository.RemoveAt` | src/main/java/com/example/openfiremessaging/repository/AppArchivedMessageRepository.java:18 | removing one record from an ascending sequence leaves it ascending and removes just that record |
| `Repository.HeadsShareDate` | src/main/java/com/example/openfiremessaging/repository/AppArchivedMessageRepository.java:18 | two ascending arrangements of the same records start with the same `sentDate` |
| `Repository.SortedArrangementsShareDates` | src/main/java/com/example/openfiremessaging/repository/AppArchivedMessageRepository.java:18 | two ascending arrangements of the same records have the same length and the same `sentDate` at every position |
| `Repository.ConversationDeterminedUpToTies` | src/main/java/com/example/openfiremessaging/repository/AppArchivedMessageRepository.java:15-19 | any two answers, with the arguments in either order, hold the same records and agree on `sentDate` position by position |
| `Repository.AppendExtendsConversation` | src/main/java/com/example/openfiremessaging/repository/AppArchivedMessageRepository.java:15-17 | appending a record adds it at the end of the selections it matches and leaves every other selection unchanged |
| `Service.BareJid` | src/main/java/com/example/openfiremessaging/service/MessageService.java:38 | the sender JID is the username, then '@', then the configured domain |
| `Service.BareJidInjective` | src/main/java/com/example/openfiremessaging/service/MessageService.java:38 | within one domain, two usernames give the same JID only if they are equal, even when a username holds '@' |
| `Service.MessageService.constructor` | src/main/java/com/example/openfiremessaging/service/MessageService.java:15-20 | the service holds the configured domain and the archive repository |
| `Service.MessageService.SendMessage` | src/main/java/com/example/openfiremessaging/service/MessageService.java:22-49 | delivery receives the caller's username, the password and the request's to, body, fileName and media; a failed delivery returns its failure and leaves the archive unchanged; a successful one appends exactly one record, with the caller's JID as sender, the request's to, body and fileName copied, `sentDate` equal to `now`, and mediaName, messageType, mediaAdd and fileAdd null |
| `Service.MessageService.GetMessageHistory` | src/main/java/com/example/openfiremessaging/service/MessageService.java:51-57 | returns an answer to the conversation query between the caller's JID and `withJid` unchanged, and writes nothing |
| `Service.SentRecordInHistory` | src/main/java/com/example/openfiremessaging/service/MessageService.java:38-56 | after a send from a user to a peer, the history of either party with the other holds everything it held before plus the new record |

## Left out

- XMPP delivery and login (`XmppConnectionService`, `AuthService`): connecting, logging in,
  JID parsing and stringprep, sending the chat message and disconnecting all happen inside
  the Smack library. Delivery is the `Delivery` parameter of `SendMessage`. The delivery
  request shows the file name and media it is given, but the library sends only the body.
- The HTTP controllers, the security filter chain, JWT issuing and the login DTOs: these are
  framework glue around the core, with no logic of their own here.
- `ValidMessage`: an annotation declaration. Its documentation of the three rules is the
  definition `Validation.Admissible`.
- The framework's default message "Invalid message payload" for a request that fails
  without a rule firing. This happens only for a null request. `IsValid` reports no
  violation then, and the framework's default reporting is not modelled.
- A database failure in `save` after a successful delivery. In the source, the exception
  propagates after the message has already gone out. In the model, `Save` always succeeds.
- JID matching is exact string equality. The query compares JIDs with the database's
  collation, which the source does not fix. A case-insensitive collation would also return
  records whose JIDs differ only in case. On such a database, `ConversationSound` and
  `ThirdPartyExcluded` would not hold as stated.
- A null `sentDate`: the only write path always sets it, and where NULL sorts under
  ORDER BY depends on the database. `sentDate` is therefore a plain integer.
- The order among records with equal `sentDate`, which the query leaves open.
  `FindConversation` promises none.
- Saving an entity that already has an id (a JPA merge): the core never does it, so `Save`
  requires a new entity.
- Transactions and concurrent requests: each operation is modelled as one atomic step.
- Java strings are UTF-16. Characters are modelled as Unicode scalar values instead. This
  gives the same answers here because no supplementary character or surrogate is white
  space, and none is at or below U+0020.
- Lombok getters and setters: the model reads and assigns the class fields directly.
- `MessageValidator.initialize`: it does nothing.
