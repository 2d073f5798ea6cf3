/**
 * The parsed Outlook message the three converters read. The binary MSG parser
 * is not modelled: a message arrives as this record, with Python's None as
 * `None` and the raw header block already split into header fields.
 */
module Message {

  import opened Wrappers
  import opened Text

  newtype byte = b: int | 0 <= b < 256

  /** One structured recipient: its role (`To`, `Cc`, `Bcc`), display name and address. */
  datatype Recipient = Recipient(kind: Option<string>, name: Option<string>, email: Option<string>)

  /** One attachment: its long and short file names and its bytes. */
  datatype Attachment = Attachment(longFilename: Option<string>, shortFilename: Option<string>, data: seq<byte>)

  /** One `Name: value` line of the raw header block, as the email parser returns it. */
  datatype HeaderField = HeaderField(name: string, value: string)

  datatype Msg = Msg(
    subject: Option<string>,
    sender: Option<string>,
    senderEmail: Option<string>,
    to: Option<string>,
    cc: Option<string>,
    bcc: Option<string>,
    date: Option<string>,
    headers: seq<HeaderField>,
    body: Option<string>,
    htmlBody: Option<string>,
    rtfBody: Option<string>,
    recipients: Option<seq<Recipient>>,
    attachments: seq<Attachment>)

  /** Python truthiness of an optional string: present and non-empty. */
  predicate Truthy(o: Option<string>) {
    o.Some? && o.value != ""
  }

  /** Python's `o or fallback` for an optional string. */
  function OrElse(o: Option<string>, fallback: string): (r: string)
    ensures Truthy(o) ==> r == o.value
    ensures !Truthy(o) ==> r == fallback
  {
    if o.Some? && o.value != "" then o.value else fallback
  }

  /** Header names compare without regard to ASCII case. */
  predicate SameHeaderName(a: string, b: string) {
    Lower(a) == Lower(b)
  }

  /**
   * `parsed_headers.get(name)`: the value of the first field whose name is
   * `name` ignoring case, or None when there is no such field
   * (`HeaderGetFirst` proves this).
   */
  function HeaderGet(fields: seq<HeaderField>, name: string): Option<string> {
    if fields == [] then None
    else if SameHeaderName(fields[0].name, name) then Some(fields[0].value)
    else HeaderGet(fields[1..], name)
  }

  /** `HeaderGet` is None exactly when no field has the name, and otherwise the first such field's value. */
  lemma {:induction false} HeaderGetFirst(fields: seq<HeaderField>, name: string)
    ensures HeaderGet(fields, name).None? <==> forall k :: 0 <= k < |fields| ==> !SameHeaderName(fields[k].name, name)
    ensures HeaderGet(fields, name).Some? ==>
              exists k :: && 0 <= k < |fields| && SameHeaderName(fields[k].name, name)
                          && fields[k].value == HeaderGet(fields, name).value
                          && forall j :: 0 <= j < k ==> !SameHeaderName(fields[j].name, name)
  {
    if fields != [] && !SameHeaderName(fields[0].name, name) {
      var tail := fields[1..];
      HeaderGetFirst(tail, name);
      assert forall k :: 1 <= k < |fields| ==> fields[k] == tail[k - 1];
      if HeaderGet(tail, name).Some? {
        var k :| && 0 <= k < |tail| && SameHeaderName(tail[k].name, name)
                 && tail[k].value == HeaderGet(tail, name).value
                 && forall j :: 0 <= j < k ==> !SameHeaderName(tail[j].name, name);
        assert forall j :: 0 <= j < k + 1 ==> !SameHeaderName(fields[j].name, name) by {
          forall j | 0 <= j < k + 1
            ensures !SameHeaderName(fields[j].name, name)
          {
            if j > 0 {
              assert fields[j] == tail[j - 1];
            }
          }
        }
      }
    }
  }

  /** `parsed_headers.get(name, fallback)`. */
  function HeaderOr(fields: seq<HeaderField>, name: string, fallback: string): (r: string)
    ensures HeaderGet(fields, name).Some? ==> r == HeaderGet(fields, name).value
    ensures HeaderGet(fields, name).None? ==> r == fallback
  {
    match HeaderGet(fields, name)
    case Some(v) => v
    case None => fallback
  }

  /**
   * `attachment.longFilename or attachment.shortFilename or "attachment"`,
   * the name the PDF and EML converters give an attachment.
   */
  function AttachmentName(a: Attachment): (r: string)
    ensures r != ""
    ensures Truthy(a.longFilename) ==> r == a.longFilename.value
    ensures !Truthy(a.longFilename) && Truthy(a.shortFilename) ==> r == a.shortFilename.value
    ensures !Truthy(a.longFilename) && !Truthy(a.shortFilename) ==> r == "attachment"
  {
    OrElse(a.longFilename, OrElse(a.shortFilename, "attachment"))
  }
}
