/**
 * The message service: send one message (deliver it over XMPP, then archive
 * it) and read the caller's history with one peer. The caller's username,
 * the sender's password, the clock and the outcome of the XMPP delivery are
 * parameters.
 */
module Service {
  import opened Wrappers
  import opened Dto
  import opened Entity
  import opened Repository

  /** How the XMPP delivery (connect, log in, send, disconnect) ended. */
  datatype Delivery = Delivered | DeliveryFailed(cause: string)

  /** The arguments handed to the XMPP delivery. */
  datatype DeliveryRequest = DeliveryRequest(
    fromUsername: string,
    fromPassword: Option<string>,
    toJid: Option<string>,
    body: Option<string>,
    fileName: Option<string>,
    media: Option<string>)

  /** A send either archives a record or fails with the delivery's exception. */
  datatype SendOutcome = Archived(record: ArchivedMessage) | Failed(cause: string)

  /** The caller's bare JID: username, "@", domain. */
  function BareJid(username: string, domain: string): (jid: string)
    ensures |jid| == |username| + 1 + |domain|
    ensures jid[..|username|] == username && jid[|username|] == '@' && jid[|username| + 1..] == domain
  {
    username + "@" + domain
  }

  /** Within one domain, distinct usernames get distinct JIDs, even usernames holding '@'. */
  lemma BareJidInjective(u1: string, u2: string, domain: string)
    requires BareJid(u1, domain) == BareJid(u2, domain)
    ensures u1 == u2
  {
  }

  class MessageService {
    /** The XMPP domain of the configured server. */
    const domain: string
    const repository: ArchiveRepository

    constructor (domain: string, repository: ArchiveRepository)
      ensures this.domain == domain && this.repository == repository
    {
      this.domain := domain;
      this.repository := repository;
    }

    /**
     * sendMessage. Delivery comes first; if it fails the failure is passed
     * on and the archive is untouched. Otherwise exactly one record is
     * appended: from the caller's JID (never from the request), to the
     * request's recipient, with its body and file name, stamped `now`, the
     * clock read once delivery has returned. Media, its name, the message
     * type and the attachment addresses are not archived.
     */
    method SendMessage(username: string, password: Option<string>, dto: MessageDto, delivery: Delivery, now: int)
      returns (request: DeliveryRequest, outcome: SendOutcome)
      requires repository.Valid()
      modifies repository
      ensures repository.Valid()
      ensures request == DeliveryRequest(username, password, dto.to, dto.body, dto.fileName, dto.media)
      ensures delivery.DeliveryFailed? ==> outcome == Failed(delivery.cause) && unchanged(repository)
      ensures delivery.Delivered? <==> outcome.Archived?
      ensures outcome.Archived? ==>
        && repository.records == old(repository.records) + [outcome.record]
        && outcome.record.id == Some(old(repository.nextId))
        && outcome.record.fromJid == Some(BareJid(username, domain))
        && outcome.record.toJid == dto.to
        && outcome.record.sentDate == now
        && outcome.record.body == dto.body
        && outcome.record.fileName == dto.fileName
        && outcome.record.mediaName == None && outcome.record.messageType == None
        && outcome.record.mediaAdd == None && outcome.record.fileAdd == None
    {
      request := DeliveryRequest(username, password, dto.to, dto.body, dto.fileName, dto.media);
      if delivery.DeliveryFailed? {
        return request, Failed(delivery.cause);
      }
      var fromJid := BareJid(username, domain);
      var archived := ArchivedMessage(None, None, None, 0, None, None, None, None, None, None);
      archived := archived.(fromJid := Some(fromJid));
      archived := archived.(toJid := dto.to);
      archived := archived.(sentDate := now);
      archived := archived.(body := dto.body);
      archived := archived.(fileName := dto.fileName);
      var saved := repository.Save(archived);
      outcome := Archived(saved);
    }

    /** getMessageHistory: the conversation between the caller's JID and `withJid`, as the repository returns it. */
    method GetMessageHistory(username: string, withJid: string) returns (history: seq<ArchivedMessage>)
      ensures IsConversation(repository.records, BareJid(username, domain), withJid, history)
    {
      var currentUserJid := BareJid(username, domain);
      history := repository.FindConversation(currentUserJid, withJid);
    }
  }

  /**
   * After a send from `username` to `peer` archives `record`, the history of
   * either party with the other holds everything it held before plus that
   * record.
   */
  lemma SentRecordInHistory(records: seq<ArchivedMessage>, record: ArchivedMessage, username: string, domain: string,
                            peer: string, history: seq<ArchivedMessage>)
    requires record.fromJid == Some(BareJid(username, domain)) && record.toJid == Some(peer)
    requires IsConversation(records + [record], BareJid(username, domain), peer, history)
          || IsConversation(records + [record], peer, BareJid(username, domain), history)
    ensures record in history
    ensures multiset(history) == multiset(Between(records, BareJid(username, domain), peer)) + multiset{record}
  {
    var me := BareJid(username, domain);
    AppendExtendsConversation(records, record, me, peer);
    if !IsConversation(records + [record], me, peer, history) {
      ConversationSymmetric(records + [record], peer, me, history);
    }
    assert record in multiset(history);
  }

  /**
   * A send and a read: "alice" on example.com sends "hi" to
   * bob@example.com, then reads her history with bob and gets exactly that
   * one record.
   */
  method SendThenReadHistory() {
    var repository := new ArchiveRepository();
    var service := new MessageService("example.com", repository);
    var dto := new MessageDto(Some("hi"), None, None, Some("bob@example.com"), None, None, None);
    var request, outcome := service.SendMessage("alice", Some("secret"), dto, Delivered, 1700000000000);
    assert outcome.Archived?;
    var record := outcome.record;
    assert BareJid("alice", "example.com") == "alice@example.com";
    assert record.fromJid == Some("alice@example.com") && record.body == Some("hi");
    var history := service.GetMessageHistory("alice", "bob@example.com");
    SentRecordInHistory([], record, "alice", "example.com", "bob@example.com", history);
    assert multiset(history) == multiset{record};
    assert |history| == 1 && history[0] == record;
  }
}
