/**
 * The class-level @ValidMessage constraint and its validator, plus the
 * complete bean validation of a send request (that constraint together with
 * @NotBlank on the recipient).
 */
module Validation {
  import opened Wrappers
  import opened Text
  import opened Dto

  /** The five "has text" flags the verdict is computed from. */
  datatype Presence = Presence(body: bool, media: bool, file: bool, mediaName: bool, fileName: bool)

  /** A constraint violation: its message template and the property node it is attached to. */
  datatype Violation = EmptyMessage | MediaNameRequired | FileNameRequired | RecipientBlank
  {
    function Template(): string {
      match this
      case EmptyMessage => "Message is empty. Please provide a body, media, or file."
      case MediaNameRequired => "mediaName is required when media content is provided."
      case FileNameRequired => "fileName is required when file content is provided."
      case RecipientBlank => "Recipient 'to' field cannot be blank"
    }

    /** None for a violation of the whole object. */
    function PropertyNode(): Option<string> {
      match this
      case EmptyMessage => None
      case MediaNameRequired => Some("mediaName")
      case FileNameRequired => Some("fileName")
      case RecipientBlank => Some("to")
    }

    /** Position of the validator's rule that reports this violation (0: not a validator rule). */
    function Rule(): nat {
      match this
      case RecipientBlank => 0
      case EmptyMessage => 1
      case MediaNameRequired => 2
      case FileNameRequired => 3
    }
  }

  /** What isValid returns, with the violations it added to the context, in order. */
  datatype Verdict = Verdict(valid: bool, violations: seq<Violation>)

  function PresenceOf(dto: MessageDto): Presence
    reads dto
  {
    Presence(HasText(dto.body), HasText(dto.media), HasText(dto.file), HasText(dto.mediaName), HasText(dto.fileName))
  }

  /**
   * The rules as the constraint's documentation lists them: some content
   * (body, media or file) is present, a file comes with its name, and media
   * comes with its name.
   */
  predicate Admissible(p: Presence) {
    && (p.body || p.media || p.file)
    && (p.file ==> p.fileName)
    && (p.media ==> p.mediaName)
  }

  /**
   * The three rules, each checked whether or not an earlier one fired; every
   * broken rule adds its violation, in rule order.
   */
  function CheckRules(p: Presence): (vs: seq<Violation>)
    ensures vs == [] <==> Admissible(p)
    ensures EmptyMessage in vs <==> !p.body && !p.media && !p.file
    ensures MediaNameRequired in vs <==> p.media && !p.mediaName
    ensures FileNameRequired in vs <==> p.file && !p.fileName
    ensures RecipientBlank !in vs
    ensures forall i, j :: 0 <= i < j < |vs| ==> vs[i].Rule() < vs[j].Rule()
  {
    var rule1 := if !p.body && !p.media && !p.file then [EmptyMessage] else [];
    var rule2 := if p.media && !p.mediaName then [MediaNameRequired] else [];
    var rule3 := if p.file && !p.fileName then [FileNameRequired] else [];
    rule1 + rule2 + rule3
  }

  /**
   * MessageValidator.isValid. A null request is invalid and adds nothing;
   * otherwise the request is valid exactly when it is admissible, and it is
   * invalid exactly when some violation was added.
   */
  function IsValid(dto: MessageDto?): (v: Verdict)
    reads dto
    ensures v.valid <==> dto != null && Admissible(PresenceOf(dto))
    ensures dto == null ==> v.violations == []
    ensures dto != null ==> (v.valid <==> v.violations == [])
    ensures RecipientBlank !in v.violations
  {
    if dto == null then Verdict(false, [])
    else
      var violations := CheckRules(PresenceOf(dto));
      Verdict(violations == [], violations)
  }

  /** The violations of a sequence, as the set bean validation reports. */
  function Reported(vs: seq<Violation>): (r: set<Violation>)
    ensures r == {} <==> vs == []
    ensures forall x :: x in r <==> x in vs
  {
    var r := set x | x in vs;
    assert vs != [] ==> vs[0] in r;
    r
  }

  /**
   * Bean validation of a whole request: @NotBlank on `to` and the
   * class-level @ValidMessage. The request is accepted exactly when both hold.
   */
  function RequestViolations(dto: MessageDto): (vs: set<Violation>)
    reads dto
    ensures vs == {} <==> IsNotBlank(dto.to) && Admissible(PresenceOf(dto))
    ensures RecipientBlank in vs <==> !IsNotBlank(dto.to)
    ensures vs - {RecipientBlank} == Reported(IsValid(dto).violations)
  {
    var verdict := IsValid(dto);
    var reported := Reported(verdict.violations);
    assert RecipientBlank !in reported;
    if IsNotBlank(dto.to) then reported else {RecipientBlank} + reported
  }

  /** Names without their content are not content: such a request is reported empty. */
  lemma NamesAloneAreEmpty(dto: MessageDto)
    requires !HasText(dto.body) && !HasText(dto.media) && !HasText(dto.file)
    ensures !IsValid(dto).valid
    ensures IsValid(dto).violations == [EmptyMessage]
  {
  }

  /** A body with text and no media or file is valid, whatever the name fields hold. */
  lemma BodyOnlyIsValid(dto: MessageDto)
    requires HasText(dto.body) && !HasText(dto.media) && !HasText(dto.file)
    ensures IsValid(dto) == Verdict(true, [])
  {
  }

  /** A body of white space only counts as absent. */
  lemma WhitespaceBodyIsAbsent(dto: MessageDto)
    requires dto.body.Some? && forall i :: 0 <= i < |dto.body.value| ==> IsWhitespace(dto.body.value[i])
    requires !HasText(dto.media) && !HasText(dto.file)
    ensures IsValid(dto).violations == [EmptyMessage]
  {
  }
}
