/**
 * The send request as the HTTP layer binds it: a mutable object whose fields
 * are all nullable strings. Lombok's setters are the fields' own assignments.
 */
module Dto {
  import opened Wrappers

  class MessageDto {
    /** Recipient JID; carries @NotBlank (see Validation.RequestViolations). */
    var to: Option<string>
    var body: Option<string>
    var mediaName: Option<string>
    var media: Option<string>
    var fileName: Option<string>
    var file: Option<string>
    var mediaAdd: Option<string>
    var fileAdd: Option<string>

    /** The no-argument constructor: every field null. */
    constructor Blank()
      ensures to == None && body == None && mediaName == None && media == None
      ensures fileName == None && file == None && mediaAdd == None && fileAdd == None
    {
      to, body, mediaName, media := None, None, None, None;
      fileName, file, mediaAdd, fileAdd := None, None, None, None;
    }

    /**
     * The seven-argument constructor. Each field takes the parameter of the
     * same name, whatever its position; `attachAdd` is discarded, so both
     * attachment addresses stay null.
     */
    constructor (body: Option<string>, fileName: Option<string>, media: Option<string>, to: Option<string>,
                 attachAdd: Option<string>, mediaName: Option<string>, file: Option<string>)
      ensures this.body == body && this.fileName == fileName && this.media == media
      ensures this.to == to && this.mediaName == mediaName && this.file == file
      ensures mediaAdd == None && fileAdd == None
    {
      this.body := body;
      this.fileName := fileName;
      this.media := media;
      this.to := to;
      this.mediaName := mediaName;
      this.file := file;
      this.mediaAdd, this.fileAdd := None, None;
    }
  }
}
