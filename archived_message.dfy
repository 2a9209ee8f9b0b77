/** The archive table's row (entity AppArchivedMessage). */
module Entity {
  import opened Wrappers

  /**
   * One archived message. `id` is the identity column, assigned by the store
   * on insert. `sentDate` is a timestamp in milliseconds since the epoch.
   */
  datatype ArchivedMessage = ArchivedMessage(
    id: Option<int>,
    fromJid: Option<string>,
    toJid: Option<string>,
    sentDate: int,
    body: Option<string>,
    mediaName: Option<string>,
    messageType: Option<int>,
    mediaAdd: Option<string>,
    fileAdd: Option<string>,
    fileName: Option<string>)
}
