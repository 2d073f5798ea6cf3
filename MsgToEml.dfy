/**
 * The EML converter: an `EmailMessage` filled in header by header, then given
 * the plain-text body and one binary part per attachment. Serialization
 * (`as_bytes`) and the write to disk are not modelled; the RFC 5322
 * date parser and `format_datetime` are parameters.
 */
module MsgToEml {

  import opened Wrappers
  import opened Text
  import opened Message

  /** One part added by `add_attachment`: its MIME type, its file name and its bytes. */
  datatype Part = Part(maintype: string, subtype: string, filename: string, data: seq<byte>)

  /** The header fields the converter sets; each may occur at most once in a message. */
  datatype Field = Subject | From | To | Cc | ReplyTo | Date

  /** The field's name as it appears in the message. */
  function FieldName(f: Field): (name: string)
    ensures name != ""
  {
    match f
    case Subject => "Subject"
    case From => "From"
    case To => "To"
    case Cc => "Cc"
    case ReplyTo => "Reply-To"
    case Date => "Date"
  }

  /** The message under construction: header values by field, the text content, the attachment parts. */
  class EmailMessage {
    var headers: map<Field, string>
    var content: string
    var parts: seq<Part>

    constructor ()
      ensures headers == map[] && content == "" && parts == []
    {
      headers := map[];
      content := "";
      parts := [];
    }

    /**
     * `email[name] = value`. Every header the converter sets may appear only
     * once in an `EmailMessage`, which refuses a second one, so the name must
     * be new.
     */
    method SetHeader(field: Field, value: string)
      requires field !in headers
      modifies this
      ensures headers == old(headers)[field := value]
      ensures content == old(content) && parts == old(parts)
    {
      headers := headers[field := value];
    }

    /** `email.set_content(text)`: the plain-text body. */
    method SetContent(text: string)
      modifies this
      ensures content == text
      ensures headers == old(headers) && parts == old(parts)
    {
      content := text;
    }

    /** `email.add_attachment(data, maintype=…, subtype=…, filename=…)`: one more part, at the end. */
    method AddAttachment(data: seq<byte>, maintype: string, subtype: string, filename: string)
      modifies this
      ensures parts == old(parts) + [Part(maintype, subtype, filename, data)]
      ensures headers == old(headers) && content == old(content)
    {
      parts := parts + [Part(maintype, subtype, filename, data)];
    }
  }

  /** The Date header: the reformatted date when the RFC 5322 layout parses it, else the raw text. */
  function DateHeader<D>(raw: string, parseDate: string -> Option<D>, formatDate: D -> string): (v: string)
    ensures parseDate(raw).Some? ==> v == formatDate(parseDate(raw).value)
    ensures parseDate(raw).None? ==> v == raw
  {
    match parseDate(raw)
    case Some(d) => formatDate(d)
    case None => raw
  }

  /** Lines 13-17: Subject, From and To always, with "" for a missing value, then Cc when it is non-empty. */
  function AddressHeaders(m: Msg): map<Field, string> {
    var h := map[Subject := OrElse(m.subject, ""), From := OrElse(m.sender, ""), To := OrElse(m.to, "")];
    if Truthy(m.cc) then h[Cc := m.cc.value] else h
  }

  /** Lines 18-21: Reply-To, from the raw header block, when it is non-empty. */
  function ReplyToHeaders(m: Msg): map<Field, string> {
    var replyTo := HeaderGet(m.headers, "Reply-To");
    if Truthy(replyTo) then AddressHeaders(m)[ReplyTo := replyTo.value] else AddressHeaders(m)
  }

  /** The address stage has no Reply-To header yet. */
  lemma NoReplyToYet(m: Msg)
    ensures ReplyTo !in AddressHeaders(m)
  {
  }

  /** The Reply-To stage has no Date header yet. */
  lemma NoDateYet(m: Msg)
    ensures Date !in ReplyToHeaders(m)
  {
    assert Date !in AddressHeaders(m);
  }

  /**
   * The headers `convert_to_eml` sets: Subject, From and To always, with ""
   * for a missing value; Cc exactly when the message's Cc is non-empty;
   * Reply-To exactly when the raw header block has a non-empty one, with its
   * value; Date exactly when the message has a non-empty date.
   */
  function EmlHeaders<D>(m: Msg, parseDate: string -> Option<D>, formatDate: D -> string): (h: map<Field, string>)
    ensures Subject in h && h[Subject] == OrElse(m.subject, "")
    ensures From in h && h[From] == OrElse(m.sender, "")
    ensures To in h && h[To] == OrElse(m.to, "")
    ensures Cc in h <==> Truthy(m.cc)
    ensures Cc in h ==> h[Cc] == m.cc.value
    ensures ReplyTo in h <==> Truthy(HeaderGet(m.headers, "Reply-To"))
    ensures ReplyTo in h ==> h[ReplyTo] == HeaderGet(m.headers, "Reply-To").value
    ensures Date in h <==> Truthy(m.date)
    ensures Date in h && parseDate(m.date.value).Some? ==> h[Date] == formatDate(parseDate(m.date.value).value)
    ensures Date in h && parseDate(m.date.value).None? ==> h[Date] == m.date.value
  {
    if Truthy(m.date) then ReplyToHeaders(m)[Date := DateHeader(m.date.value, parseDate, formatDate)]
    else ReplyToHeaders(m)
  }

  /** The part for one attachment: generic binary typing, the shared name fallback, the bytes unchanged. */
  function PartOf(a: Attachment): (p: Part)
    ensures p.maintype == "application" && p.subtype == "octet-stream"
    ensures p.filename == AttachmentName(a) && p.filename != "" && p.data == a.data
  {
    Part("application", "octet-stream", AttachmentName(a), a.data)
  }

  /** The parts after the attachment loop, in attachment order. */
  function EmlParts(atts: seq<Attachment>): (parts: seq<Part>)
    ensures |parts| == |atts|
  {
    if atts == [] then [] else EmlParts(atts[..|atts| - 1]) + [PartOf(atts[|atts| - 1])]
  }

  /** Part `k` is the part of attachment `k`: one part per attachment, in order, nothing else. */
  lemma {:induction false} EmlPartsAt(atts: seq<Attachment>, k: nat)
    requires k < |atts|
    ensures EmlParts(atts)[k] == PartOf(atts[k])
  {
    if k < |atts| - 1 {
      EmlPartsAt(atts[..|atts| - 1], k);
    }
  }

  /** Every part carries a name, and none of the attachment's bytes are altered. */
  lemma PartsCarryNamesAndData(atts: seq<Attachment>)
    ensures forall k :: 0 <= k < |atts| ==>
      EmlParts(atts)[k].filename != "" && EmlParts(atts)[k].data == atts[k].data
  {
    forall k | 0 <= k < |atts|
      ensures EmlParts(atts)[k].filename != "" && EmlParts(atts)[k].data == atts[k].data
    {
      EmlPartsAt(atts, k);
    }
  }

  /** A message whose one attachment is `invoice.pdf` gets exactly one part with that name and those bytes. */
  lemma SingleAttachmentPart(a: Attachment)
    requires a.longFilename == Some("invoice.pdf")
    ensures EmlParts([a]) == [Part("application", "octet-stream", "invoice.pdf", a.data)]
  {
    assert [a][..0] == [];
  }

  /** Lines 13-27 of the converter: the header fields, each set once, on a message that has none yet. */
  method SetHeaders<D>(email: EmailMessage, m: Msg, parseDate: string -> Option<D>, formatDate: D -> string)
    requires email.headers == map[]
    modifies email
    ensures email.headers == EmlHeaders(m, parseDate, formatDate)
    ensures email.content == old(email.content) && email.parts == old(email.parts)
  {
    SetAddressHeaders(email, m);
    SetReplyTo(email, m);
    SetDate(email, m, parseDate, formatDate);
  }

  /** Lines 13-17: Subject, From and To, then Cc when there is one. */
  method SetAddressHeaders(email: EmailMessage, m: Msg)
    requires email.headers == map[]
    modifies email
    ensures email.headers == AddressHeaders(m)
    ensures email.content == old(email.content) && email.parts == old(email.parts)
  {
    email.SetHeader(Subject, OrElse(m.subject, ""));
    email.SetHeader(From, OrElse(m.sender, ""));
    email.SetHeader(To, OrElse(m.to, ""));
    if Truthy(m.cc) {
      email.SetHeader(Cc, m.cc.value);
    }
  }

  /** Lines 18-21: Reply-To, read from the raw header block, when it is non-empty. */
  method SetReplyTo(email: EmailMessage, m: Msg)
    requires email.headers == AddressHeaders(m)
    modifies email
    ensures email.headers == ReplyToHeaders(m)
    ensures email.content == old(email.content) && email.parts == old(email.parts)
  {
    NoReplyToYet(m);
    var replyTo := HeaderGet(m.headers, "Reply-To");
    if Truthy(replyTo) {
      email.SetHeader(ReplyTo, replyTo.value);
    }
  }

  /** Lines 22-27: Date when the message has one, reformatted when it parses, else as it stands. */
  method SetDate<D>(email: EmailMessage, m: Msg, parseDate: string -> Option<D>, formatDate: D -> string)
    requires email.headers == ReplyToHeaders(m)
    modifies email
    ensures email.headers == EmlHeaders(m, parseDate, formatDate)
    ensures email.content == old(email.content) && email.parts == old(email.parts)
  {
    NoDateYet(m);
    if Truthy(m.date) {
      match parseDate(m.date.value)
      case Some(d) =>
        email.SetHeader(Date, formatDate(d));
      case None =>
        email.SetHeader(Date, m.date.value);
    }
  }

  /** The attachment loop: one part per attachment, appended in order. */
  method AddAttachments(email: EmailMessage, atts: seq<Attachment>)
    modifies email
    ensures email.parts == old(email.parts) + EmlParts(atts)
    ensures email.headers == old(email.headers) && email.content == old(email.content)
  {
    var i := 0;
    while i < |atts|
      invariant 0 <= i <= |atts|
      invariant email.headers == old(email.headers) && email.content == old(email.content)
      invariant email.parts == old(email.parts) + EmlParts(atts[..i])
    {
      var a := atts[i];
      email.AddAttachment(a.data, "application", "octet-stream", AttachmentName(a));
      EmlPartsPrefix(atts, i);
      i := i + 1;
    }
    AllOf(atts);
  }

  /** Taking one more attachment adds its part. */
  lemma EmlPartsPrefix(atts: seq<Attachment>, i: nat)
    requires i < |atts|
    ensures EmlParts(atts[..i + 1]) == EmlParts(atts[..i]) + [PartOf(atts[i])]
  {
    assert atts[..i + 1][..i] == atts[..i];
  }

  lemma AllOf(atts: seq<Attachment>)
    ensures atts[..|atts|] == atts
  {
  }

  /**
   * `convert_to_eml` up to serialization: a new message whose headers,
   * content and parts are the ones the rules above give.
   */
  method ConvertToEml<D>(m: Msg, parseDate: string -> Option<D>, formatDate: D -> string) returns (email: EmailMessage)
    ensures fresh(email)
    ensures email.headers == EmlHeaders(m, parseDate, formatDate)
    ensures email.content == OrElse(m.body, "")
    ensures email.parts == EmlParts(m.attachments)
  {
    email := new EmailMessage();
    SetHeaders(email, m, parseDate, formatDate);
    email.SetContent(OrElse(m.body, ""));
    AddAttachments(email, m.attachments);
  }
}
