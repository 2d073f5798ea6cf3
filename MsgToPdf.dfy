/**
 * The PDF converter up to the HTML document it hands to the renderer: the
 * header fallbacks, the attachment pass (inline images rewritten into the
 * HTML body, other files listed as links), the choice of body, the removal of
 * page rules from it, and the metadata table.
 */
module MsgToPdf {

  import opened Wrappers
  import opened Text
  import opened Message
  import opened PdfPatterns

  // ---- Headers ----------------------------------------------------------------

  /** The six header values of the metadata table. */
  datatype PdfHeaders = PdfHeaders(from: string, to: string, cc: string, replyTo: string, date: string, subject: string)

  /** `v` is the raw header if the block has one, else the truthy message field, else the placeholder. */
  predicate FallsBack(raw: Option<string>, field: Option<string>, placeholder: string, v: string) {
    && (raw.Some? ==> v == raw.value)
    && (raw.None? && Truthy(field) ==> v == field.value)
    && (raw.None? && !Truthy(field) ==> v == placeholder)
  }

  /** The header values `convert_to_pdf` reads, each through its fallback chain. */
  function PdfHeadersOf(m: Msg): (h: PdfHeaders)
    ensures FallsBack(HeaderGet(m.headers, "From"), m.sender, "(Unknown Sender)", h.from)
    ensures FallsBack(HeaderGet(m.headers, "To"), m.to, "(No Recipient)", h.to)
    ensures FallsBack(HeaderGet(m.headers, "Cc"), m.cc, "", h.cc)
    ensures FallsBack(HeaderGet(m.headers, "Reply-To"), None, "", h.replyTo)
    ensures FallsBack(HeaderGet(m.headers, "Date"), m.date, "", h.date)
    ensures FallsBack(HeaderGet(m.headers, "Subject"), m.subject, "(No Subject)", h.subject)
  {
    PdfHeaders(
      from := HeaderOr(m.headers, "From", OrElse(m.sender, "(Unknown Sender)")),
      to := HeaderOr(m.headers, "To", OrElse(m.to, "(No Recipient)")),
      cc := HeaderOr(m.headers, "Cc", OrElse(m.cc, "")),
      replyTo := HeaderOr(m.headers, "Reply-To", ""),
      date := HeaderOr(m.headers, "Date", OrElse(m.date, "")),
      subject := HeaderOr(m.headers, "Subject", OrElse(m.subject, "(No Subject)")))
  }

  // ---- Attachment classification ------------------------------------------------

  /** `PurePosixPath(p).name`: the last component, ignoring empty and `.` components. */
  function FinalComponent(p: string): string
    decreases |p|
  {
    var k := RFind(p, '/');
    var last := if k < 0 then p else p[k + 1..];
    if last != "" && last != "." then last
    else if k < 0 then ""
    else FinalComponent(p[..k])
  }

  /** `PurePosixPath(name).suffix`: from the last dot, unless that dot starts or ends the name. */
  function Suffix(name: string): string {
    var n := FinalComponent(name);
    var i := RFind(n, '.');
    if 0 < i < |n| - 1 then n[i..] else ""
  }

  /** `Path(name).suffix.lower().replace('.', '')`. */
  function Extension(name: string): string {
    ReplaceAll(Lower(Suffix(name)), ".", "")
  }

  const ImageExtensions: set<string> := {"png", "jpg", "jpeg", "gif"}

  /** Attachments with these extensions are embedded in the HTML; every other one is linked. */
  predicate IsInlineImage(name: string) {
    Extension(name) in ImageExtensions
  }

  /** The MIME type of an inline image: `jpg` is spelled `jpeg`. */
  function MimeType(ext: string): (mime: string)
    ensures ext == "jpg" ==> mime == "image/jpeg"
    ensures ext != "jpg" ==> mime == "image/" + ext
  {
    "image/" + (if ext == "jpg" then "jpeg" else ext)
  }

  /** No `/` in the name. */
  predicate NoSlash(s: string) {
    forall k :: 0 <= k < |s| ==> s[k] != '/'
  }

  /** No `.` in the name. */
  predicate NoDot(s: string) {
    forall k :: 0 <= k < |s| ==> s[k] != '.'
  }

  /** A file name with no slash is its own final component. */
  lemma FinalComponentPlain(p: string)
    requires p != "" && p != "." && NoSlash(p)
    ensures FinalComponent(p) == p
  {
  }

  /** The last dot of `stem.ext` is the one before `ext` when `ext` has none. */
  lemma LastDot(stem: string, ext: string)
    requires NoDot(ext)
    ensures RFind(stem + "." + ext, '.') == |stem|
  {
    var n := stem + "." + ext;
    assert n[|stem|] == '.';
    assert forall j :: |stem| < j < |n| ==> n[j] == ext[j - |stem| - 1];
  }

  /** `stem.ext` has the suffix `.ext` when `ext` is non-empty and dot-free and the stem is non-empty. */
  lemma SuffixOfPlainName(stem: string, ext: string)
    requires stem != [] && ext != [] && NoSlash(stem) && NoSlash(ext) && NoDot(ext)
    ensures Suffix(stem + "." + ext) == "." + ext
  {
    var n := stem + "." + ext;
    var dotted := "." + ext;
    assert n == stem + dotted;
    assert NoSlash(n) by {
      assert forall j :: 0 <= j < |stem| ==> n[j] == stem[j];
      assert forall j :: |stem| < j < |n| ==> n[j] == ext[j - |stem| - 1];
    }
    FinalComponentPlain(n);
    LastDot(stem, ext);
    assert n[|stem|..] == dotted;
  }

  /** Dropping the dot of `.ext` leaves `ext` when it has no other dot. */
  lemma DropLeadingDot(ext: string)
    requires NoDot(ext)
    ensures ReplaceAll("." + ext, ".", "") == ext
  {
    assert ("." + ext)[..1] == "." && ("." + ext)[1..] == ext;
    assert !Contains(ext, ".") by {
      forall i: nat | i <= |ext|
        ensures !OccursAt(ext, ".", i)
      {
        if i + 1 <= |ext| {
          assert ext[i..i + 1][0] == ext[i];
        }
      }
    }
    ReplaceAbsent(ext, ".", "");
  }

  /**
   * The extension of `stem.ext`, for a non-empty stem and a non-empty
   * extension without dots or slashes, is the extension in lower case.
   */
  lemma ExtensionOfPlainName(stem: string, ext: string)
    requires stem != [] && ext != [] && NoSlash(stem) && NoSlash(ext) && NoDot(ext)
    ensures Extension(stem + "." + ext) == Lower(ext)
  {
    SuffixOfPlainName(stem, ext);
    assert Lower("." + ext) == "." + Lower(ext);
    assert NoDot(Lower(ext));
    DropLeadingDot(Lower(ext));
  }

  /** A hidden file such as `.png` has no suffix, so it is never an inline image. */
  lemma DotFileHasNoExtension(ext: string)
    requires NoSlash(ext) && NoDot(ext)
    ensures Extension("." + ext) == ""
    ensures !IsInlineImage("." + ext)
  {
    var n := "." + ext;
    if ext != [] {
      assert NoSlash(n) by {
        assert forall j :: 0 < j < |n| ==> n[j] == ext[j - 1];
      }
      FinalComponentPlain(n);
      LastDot("", ext);
      assert "" + "." + ext == n;
    }
    assert Suffix(n) == "";
    assert Lower("") == "";
  }

  /** Any `<stem>.JPG` is an inline image, typed `image/jpeg`; case does not matter. */
  lemma UpperCaseJpegIsInline(stem: string)
    requires stem != [] && NoSlash(stem)
    ensures Extension(stem + "." + "JPG") == "jpg" && IsInlineImage(stem + "." + "JPG")
    ensures MimeType(Extension(stem + "." + "JPG")) == "image/jpeg"
  {
    var ext := "JPG";
    assert NoSlash(ext) && NoDot(ext) && Lower(ext) == "jpg";
    ExtensionOfPlainName(stem, ext);
  }

  /** Any `<stem>.docx` is linked as an external file. */
  lemma DocumentIsLinked(stem: string)
    requires stem != [] && NoSlash(stem)
    ensures Extension(stem + "." + "docx") == "docx" && !IsInlineImage(stem + "." + "docx")
  {
    DocumentExtension(stem);
    NotAnImage(stem + "." + "docx");
  }

  lemma DocumentExtension(stem: string)
    requires stem != [] && NoSlash(stem)
    ensures Extension(stem + "." + "docx") == "docx"
  {
    var ext := "docx";
    assert NoSlash(ext) && NoDot(ext) && Lower(ext) == "docx";
    ExtensionOfPlainName(stem, ext);
  }

  lemma NotAnImage(name: string)
    requires Extension(name) == "docx"
    ensures !IsInlineImage(name)
  {
  }

  // ---- The attachment pass ------------------------------------------------------------

  /** The state the attachment loop updates, and the files it writes into the attachments directory. */
  datatype AttachmentPass = AttachmentPass(
    html: Option<string>,
    inlineImages: set<string>,
    externalFiles: seq<string>,
    written: map<string, seq<byte>>)

  function CidUrl(name: string): (u: string)
    ensures u != []
  {
    "cid:" + name
  }

  function DataUrl(mime: string, b64data: string): string {
    "data:" + mime + ";base64," + b64data
  }

  /**
   * The link listed for an external file; `sizeLabel` stands for the rounded
   * size in KB, and the link target is the file's path relative to the PDF.
   */
  function Link(stem: string, name: string, sizeLabel: string): (l: string)
    ensures l != []
  {
    "<a href='" + stem + ".attachments/" + name + "'>" + HtmlEscape(name) + "</a> (" + sizeLabel + " KB)"
  }

  /** A present HTML body has every `cid:<name>` reference replaced by the data URL. */
  function RewriteCid(html: Option<string>, name: string, dataUrl: string): Option<string> {
    if Truthy(html) then Some(ReplaceAll(html.value, CidUrl(name), dataUrl)) else html
  }

  /** One turn of the attachment loop. */
  function Step(st: AttachmentPass, a: Attachment, stem: string, b64: seq<byte> -> string, sizeKb: nat -> string): AttachmentPass {
    var name := AttachmentName(a);
    if IsInlineImage(name) then
      AttachmentPass(RewriteCid(st.html, name, DataUrl(MimeType(Extension(name)), b64(a.data))),
                     st.inlineImages + {name}, st.externalFiles, st.written[name := a.data])
    else
      AttachmentPass(st.html, st.inlineImages, st.externalFiles + [Link(stem, name, sizeKb(|a.data|))],
                     st.written[name := a.data])
  }

  /** The loop's state after the given attachments, starting from the message's HTML body. */
  function Pass(atts: seq<Attachment>, html: Option<string>, stem: string, b64: seq<byte> -> string, sizeKb: nat -> string): AttachmentPass {
    if atts == [] then AttachmentPass(html, {}, [], map[])
    else Step(Pass(atts[..|atts| - 1], html, stem, b64, sizeKb), atts[|atts| - 1], stem, b64, sizeKb)
  }

  /** The pass over one more attachment is one more step. */
  lemma PassPrefix(atts: seq<Attachment>, i: nat, html: Option<string>, stem: string, b64: seq<byte> -> string, sizeKb: nat -> string)
    requires i < |atts|
    ensures Pass(atts[..i + 1], html, stem, b64, sizeKb) == Step(Pass(atts[..i], html, stem, b64, sizeKb), atts[i], stem, b64, sizeKb)
  {
    assert atts[..i + 1][..i] == atts[..i];
  }

  /** The link an attachment contributes: none when `inline` claims it. */
  function LinkFor(a: Attachment, stem: string, sizeKb: nat -> string, inline: string -> bool): seq<string> {
    if inline(AttachmentName(a)) then [] else [Link(stem, AttachmentName(a), sizeKb(|a.data|))]
  }

  /** The links of the attachments `inline` does not claim, in attachment order. */
  function LinksWhereNot(atts: seq<Attachment>, stem: string, sizeKb: nat -> string, inline: string -> bool): seq<string> {
    if atts == [] then []
    else LinkFor(atts[0], stem, sizeKb, inline) + LinksWhereNot(atts[1..], stem, sizeKb, inline)
  }

  /** The links of the external files, in attachment order: the reference the loop is checked against. */
  function ExternalLinks(atts: seq<Attachment>, stem: string, sizeKb: nat -> string): seq<string> {
    LinksWhereNot(atts, stem, sizeKb, IsInlineImage)
  }

  lemma {:induction false} LinksWhereNotSnoc(atts: seq<Attachment>, a: Attachment, stem: string, sizeKb: nat -> string, inline: string -> bool)
    ensures LinksWhereNot(atts + [a], stem, sizeKb, inline) ==
      LinksWhereNot(atts, stem, sizeKb, inline) + LinkFor(a, stem, sizeKb, inline)
  {
    if atts == [] {
      assert [a][1..] == [];
    } else {
      assert (atts + [a])[1..] == atts[1..] + [a];
      LinksWhereNotSnoc(atts[1..], a, stem, sizeKb, inline);
    }
  }

  /** A non-empty sequence is its front followed by its last element. */
  lemma LastSplit<T>(s: seq<T>)
    requires s != []
    ensures s[..|s| - 1] + [s[|s| - 1]] == s
  {
  }

  /**
   * The external-file list the loop builds is exactly one link per
   * non-image attachment, in attachment order; inline images add none.
   */
  lemma {:induction false} PassExternalFiles(atts: seq<Attachment>, html: Option<string>, stem: string, b64: seq<byte> -> string, sizeKb: nat -> string)
    ensures Pass(atts, html, stem, b64, sizeKb).externalFiles == ExternalLinks(atts, stem, sizeKb)
  {
    if atts != [] {
      var init, last := atts[..|atts| - 1], atts[|atts| - 1];
      var st := Pass(init, html, stem, b64, sizeKb);
      assert Pass(atts, html, stem, b64, sizeKb) == Step(st, last, stem, b64, sizeKb);
      PassExternalFiles(init, html, stem, b64, sizeKb);
      StepFields(st, last, stem, b64, sizeKb);
      LastSplit(atts);
      LinksWhereNotSnoc(init, last, stem, sizeKb, IsInlineImage);
    }
  }

  /** The names of the attachments whose name passes `keep`, whatever order they come in. */
  function NamesWhere(atts: seq<Attachment>, keep: string -> bool): set<string> {
    set k | 0 <= k < |atts| && keep(AttachmentName(atts[k])) :: AttachmentName(atts[k])
  }

  /** The names of the image attachments. */
  function InlineNames(atts: seq<Attachment>): set<string> {
    NamesWhere(atts, IsInlineImage)
  }

  /** The names of all attachments. */
  function AllNames(atts: seq<Attachment>): set<string> {
    set k | 0 <= k < |atts| :: AttachmentName(atts[k])
  }

  lemma NamesWhereSnoc(atts: seq<Attachment>, keep: string -> bool)
    requires atts != []
    ensures var n := AttachmentName(atts[|atts| - 1]);
      NamesWhere(atts, keep) == NamesWhere(atts[..|atts| - 1], keep) + (if keep(n) then {n} else {})
  {
    var init := atts[..|atts| - 1];
    var n := AttachmentName(atts[|atts| - 1]);
    forall x | x in NamesWhere(atts, keep)
      ensures x in NamesWhere(init, keep) || (keep(n) && x == n)
    {
      var k :| 0 <= k < |atts| && keep(AttachmentName(atts[k])) && x == AttachmentName(atts[k]);
      if k < |init| {
        assert init[k] == atts[k];
      }
    }
    forall x | x in NamesWhere(init, keep)
      ensures x in NamesWhere(atts, keep)
    {
      var k :| 0 <= k < |init| && keep(AttachmentName(init[k])) && x == AttachmentName(init[k]);
      assert atts[k] == init[k];
    }
  }

  lemma AllNamesSnoc(atts: seq<Attachment>)
    requires atts != []
    ensures AllNames(atts) == AllNames(atts[..|atts| - 1]) + {AttachmentName(atts[|atts| - 1])}
  {
    var init := atts[..|atts| - 1];
    forall x | x in AllNames(atts)
      ensures x in AllNames(init) || x == AttachmentName(atts[|atts| - 1])
    {
      var k :| 0 <= k < |atts| && x == AttachmentName(atts[k]);
      if k < |init| {
        assert init[k] == atts[k];
      }
    }
    forall x | x in AllNames(init)
      ensures x in AllNames(atts)
    {
      var k :| 0 <= k < |init| && x == AttachmentName(init[k]);
      assert atts[k] == init[k];
    }
  }

  /** What one turn does to the inline set and to the written files. */
  lemma StepFields(st: AttachmentPass, a: Attachment, stem: string, b64: seq<byte> -> string, sizeKb: nat -> string)
    ensures var n := AttachmentName(a);
      && Step(st, a, stem, b64, sizeKb).inlineImages == st.inlineImages + (if IsInlineImage(n) then {n} else {})
      && Step(st, a, stem, b64, sizeKb).written == st.written[n := a.data]
      && Step(st, a, stem, b64, sizeKb).externalFiles == st.externalFiles + LinkFor(a, stem, sizeKb, IsInlineImage)
  {
  }

  /** The set of inline images is the set of names of the image attachments. */
  lemma {:induction false} PassInlineImages(atts: seq<Attachment>, html: Option<string>, stem: string, b64: seq<byte> -> string, sizeKb: nat -> string)
    ensures Pass(atts, html, stem, b64, sizeKb).inlineImages == InlineNames(atts)
  {
    if atts != [] {
      var init := atts[..|atts| - 1];
      PassInlineImages(init, html, stem, b64, sizeKb);
      StepFields(Pass(init, html, stem, b64, sizeKb), atts[|atts| - 1], stem, b64, sizeKb);
      NamesWhereSnoc(atts, IsInlineImage);
    }
  }

  /** The files the loop writes, each attachment's bytes under its name, later ones overwriting. */
  function WrittenFiles(atts: seq<Attachment>): map<string, seq<byte>> {
    if atts == [] then map[]
    else WrittenFiles(atts[..|atts| - 1])[AttachmentName(atts[|atts| - 1]) := atts[|atts| - 1].data]
  }

  /** The written files do not depend on the HTML body or on how attachments are classified. */
  lemma {:induction false} PassWritesFiles(atts: seq<Attachment>, html: Option<string>, stem: string, b64: seq<byte> -> string, sizeKb: nat -> string)
    ensures Pass(atts, html, stem, b64, sizeKb).written == WrittenFiles(atts)
  {
    if atts != [] {
      var init := atts[..|atts| - 1];
      PassWritesFiles(init, html, stem, b64, sizeKb);
      StepFields(Pass(init, html, stem, b64, sizeKb), atts[|atts| - 1], stem, b64, sizeKb);
    }
  }

  /** One file is written per distinct attachment name. */
  lemma {:induction false} WrittenFileNames(atts: seq<Attachment>)
    ensures WrittenFiles(atts).Keys == AllNames(atts)
  {
    if atts != [] {
      WrittenFileNames(atts[..|atts| - 1]);
      AllNamesSnoc(atts);
    }
  }

  /** An attachment no later attachment shares a name with. */
  predicate LastOfItsName(atts: seq<Attachment>, k: int) {
    0 <= k < |atts| && forall j :: k < j < |atts| ==> AttachmentName(atts[j]) != AttachmentName(atts[k])
  }

  /** When names collide, the file holds the bytes of the last attachment of that name. */
  lemma {:induction false} LastWriteWins(atts: seq<Attachment>, k: int)
    requires LastOfItsName(atts, k)
    ensures AttachmentName(atts[k]) in WrittenFiles(atts)
    ensures WrittenFiles(atts)[AttachmentName(atts[k])] == atts[k].data
  {
    var init := atts[..|atts| - 1];
    if k < |init| {
      assert init[k] == atts[k];
      assert AttachmentName(atts[|atts| - 1]) != AttachmentName(atts[k]);
      assert LastOfItsName(init, k) by {
        assert forall j :: k < j < |init| ==> init[j] == atts[j];
      }
      LastWriteWins(init, k);
    }
  }

  /**
   * An inline image rewrites a present HTML body: the text between the
   * occurrences of `cid:<name>` is kept and every occurrence becomes the data
   * URL, and a body without the reference is left as it is.
   */
  lemma InlineStepRewritesCid(st: AttachmentPass, a: Attachment, stem: string, b64: seq<byte> -> string, sizeKb: nat -> string)
    requires IsInlineImage(AttachmentName(a)) && Truthy(st.html)
    ensures var name := AttachmentName(a);
      var data := DataUrl(MimeType(Extension(name)), b64(a.data));
      && Step(st, a, stem, b64, sizeKb).html == Some(JoinWith(data, Split(st.html.value, CidUrl(name))))
      && (!Contains(st.html.value, CidUrl(name)) ==> Step(st, a, stem, b64, sizeKb).html == st.html)
  {
    var name := AttachmentName(a);
    var data := DataUrl(MimeType(Extension(name)), b64(a.data));
    ReplaceIsJoinOfSplit(st.html.value, CidUrl(name), data);
    if !Contains(st.html.value, CidUrl(name)) {
      ReplaceAbsent(st.html.value, CidUrl(name), data);
    }
  }

  /** A linked file, or a message without an HTML body, leaves the body as it is. */
  lemma StepKeepsHtml(st: AttachmentPass, a: Attachment, stem: string, b64: seq<byte> -> string, sizeKb: nat -> string)
    requires !IsInlineImage(AttachmentName(a)) || !Truthy(st.html)
    ensures Step(st, a, stem, b64, sizeKb).html == st.html
  {
  }

  /** `convert_to_pdf`'s attachment loop, over the message's attachments and its HTML body. */
  method ProcessAttachments(atts: seq<Attachment>, html0: Option<string>, stem: string, b64: seq<byte> -> string, sizeKb: nat -> string)
    returns (pass: AttachmentPass)
    ensures pass == Pass(atts, html0, stem, b64, sizeKb)
  {
    pass := AttachmentPass(html0, {}, [], map[]);
    var i := 0;
    while i < |atts|
      invariant 0 <= i <= |atts|
      invariant pass == Pass(atts[..i], html0, stem, b64, sizeKb)
    {
      pass := ProcessAttachment(pass, atts[i], stem, b64, sizeKb);
      PassPrefix(atts, i, html0, stem, b64, sizeKb);
      i := i + 1;
    }
    assert atts[..|atts|] == atts;
  }

  /** One turn of the loop: write the file, then embed the image or list the link. */
  method ProcessAttachment(st: AttachmentPass, a: Attachment, stem: string, b64: seq<byte> -> string, sizeKb: nat -> string)
    returns (next: AttachmentPass)
    ensures next == Step(st, a, stem, b64, sizeKb)
  {
    var html := st.html;
    var inlineImages := st.inlineImages;
    var externalFiles := st.externalFiles;
    var name := AttachmentName(a);
    var written := st.written[name := a.data];
    var ext := Extension(name);
    if ext in ImageExtensions {
      var dataUrl := DataUrl(MimeType(ext), b64(a.data));
      inlineImages := inlineImages + {name};
      if Truthy(html) {
        html := Some(ReplaceAll(html.value, CidUrl(name), dataUrl));
      }
    } else {
      externalFiles := externalFiles + [Link(stem, name, sizeKb(|a.data|))];
    }
    next := AttachmentPass(html, inlineImages, externalFiles, written);
  }

  /** The Attachments cell: the external links joined with `", "`, or empty when there are none. */
  function AttachmentsSummary(externalFiles: seq<string>): (s: string)
    requires forall k :: 0 <= k < |externalFiles| ==> externalFiles[k] != ""
    ensures s == "" <==> externalFiles == []
  {
    JoinWithEmptyIff(", ", externalFiles);
    if externalFiles != [] then JoinWith(", ", externalFiles) else ""
  }

  /** Every link of the reference list is non-empty. */
  lemma {:induction false} LinksNonEmpty(atts: seq<Attachment>, stem: string, sizeKb: nat -> string, inline: string -> bool)
    ensures forall k :: 0 <= k < |LinksWhereNot(atts, stem, sizeKb, inline)| ==> LinksWhereNot(atts, stem, sizeKb, inline)[k] != ""
  {
    if atts != [] {
      LinksNonEmpty(atts[1..], stem, sizeKb, inline);
    }
  }

  // ---- Body --------------------------------------------------------------------------

  /**
   * The body before page rules are removed: the HTML body without its wrapper
   * tags and stripped, else the escaped RTF body, else the escaped plain body.
   * The two fallbacks hold no markup and unescape to their source text.
   */
  function SelectBody(html: Option<string>, rtf: Option<string>, plain: Option<string>): (body: string)
    ensures Truthy(html) ==> |body| <= |html.value|
    ensures !Truthy(html) ==> NoMarkup(body)
    ensures !Truthy(html) && Truthy(rtf) ==> HtmlUnescape(body) == rtf.value
    ensures !Truthy(html) && !Truthy(rtf) ==> HtmlUnescape(body) == OrElse(plain, "")
  {
    if Truthy(html) then Strip(StripWrapperTags(html.value))
    else if Truthy(rtf) then
      EscapeRoundTrip(rtf.value);
      HtmlEscape(rtf.value)
    else
      EscapeRoundTrip(OrElse(plain, ""));
      HtmlEscape(OrElse(plain, ""))
  }

  // ---- The document ------------------------------------------------------------------

  /** One row of the metadata table: its caption and its HTML-ready value. */
  datatype MetaRow = MetaRow(caption: string, value: string)

  predicate HasLabel(rows: seq<MetaRow>, caption: string) {
    exists k :: 0 <= k < |rows| && rows[k].caption == caption
  }

  /** A row that is there exactly when `value` is non-empty. */
  function OptionalRow(caption: string, value: string): seq<MetaRow> {
    if value != "" then [MetaRow(caption, HtmlEscape(value))] else []
  }

  /**
   * The metadata rows in table order: From, To, the optional Cc, Reply-To and
   * Date rows, Subject, and the optional Attachments row. Header values are
   * escaped; the attachment summary is markup and is not.
   */
  function MetaRows(h: PdfHeaders, summary: string): (rows: seq<MetaRow>)
    ensures |rows| == 3 + (if h.cc != "" then 1 else 0) + (if h.replyTo != "" then 1 else 0)
                        + (if h.date != "" then 1 else 0) + (if summary != "" then 1 else 0)
    ensures rows[0] == MetaRow("From", HtmlEscape(h.from)) && rows[1] == MetaRow("To", HtmlEscape(h.to))
  {
    [MetaRow("From", HtmlEscape(h.from)), MetaRow("To", HtmlEscape(h.to))]
    + OptionalRow("Cc", h.cc) + OptionalRow("Reply-To", h.replyTo) + OptionalRow("Date", h.date)
    + [MetaRow("Subject", HtmlEscape(h.subject))]
    + (if summary != "" then [MetaRow("Attachments", summary)] else [])
  }

  /**
   * The table has a row captioned `c` exactly when `c` is From, To or
   * Subject, or is Cc, Reply-To or Date with a non-empty header value, or is
   * Attachments with some attachment linked.
   */
  lemma MetaRowsCaptions(h: PdfHeaders, summary: string, c: string)
    ensures HasLabel(MetaRows(h, summary), c) <==>
      || c == "From" || c == "To" || c == "Subject"
      || (c == "Cc" && h.cc != "")
      || (c == "Reply-To" && h.replyTo != "")
      || (c == "Date" && h.date != "")
      || (c == "Attachments" && summary != "")
  {
    var head := [MetaRow("From", HtmlEscape(h.from)), MetaRow("To", HtmlEscape(h.to))];
    var cc := OptionalRow("Cc", h.cc);
    var replyTo := OptionalRow("Reply-To", h.replyTo);
    var date := OptionalRow("Date", h.date);
    var subject := [MetaRow("Subject", HtmlEscape(h.subject))];
    var attachments := if summary != "" then [MetaRow("Attachments", summary)] else [];
    assert MetaRows(h, summary) == head + cc + replyTo + date + subject + attachments;
    HasLabelConcat(head, cc, c);
    HasLabelConcat(head + cc, replyTo, c);
    HasLabelConcat(head + cc + replyTo, date, c);
    HasLabelConcat(head + cc + replyTo + date, subject, c);
    HasLabelConcat(head + cc + replyTo + date + subject, attachments, c);
    HasLabelPair(head[0], head[1], c);
    HasLabelOptional("Cc", h.cc, c);
    HasLabelOptional("Reply-To", h.replyTo, c);
    HasLabelOptional("Date", h.date, c);
    HasLabelSingle(subject[0], c);
    HasLabelSingle(MetaRow("Attachments", summary), c);
  }

  /** A concatenation carries the captions of both its parts. */
  lemma HasLabelConcat(a: seq<MetaRow>, b: seq<MetaRow>, c: string)
    ensures HasLabel(a + b, c) <==> HasLabel(a, c) || HasLabel(b, c)
  {
    if HasLabel(a + b, c) {
      var k :| 0 <= k < |a + b| && (a + b)[k].caption == c;
      if k >= |a| {
        assert b[k - |a|] == (a + b)[k];
      }
    }
    if HasLabel(a, c) {
      var k :| 0 <= k < |a| && a[k].caption == c;
      assert (a + b)[k] == a[k];
    } else if HasLabel(b, c) {
      var k :| 0 <= k < |b| && b[k].caption == c;
      assert (a + b)[|a| + k] == b[k];
    }
  }

  lemma HasLabelSingle(r: MetaRow, c: string)
    ensures HasLabel([r], c) <==> c == r.caption
  {
    assert [r][0] == r;
  }

  lemma HasLabelPair(r: MetaRow, s: MetaRow, c: string)
    ensures HasLabel([r, s], c) <==> c == r.caption || c == s.caption
  {
    assert [r, s][0] == r && [r, s][1] == s;
  }

  lemma HasLabelOptional(caption: string, value: string, c: string)
    ensures HasLabel(OptionalRow(caption, value), c) <==> value != "" && c == caption
  {
    if value != "" {
      HasLabelSingle(MetaRow(caption, HtmlEscape(value)), c);
    }
  }

  /** What the renderer receives, before the fixed template is wrapped around it. */
  datatype PdfDocument = PdfDocument(rows: seq<MetaRow>, body: string)

  /** The document `convert_to_pdf` assembles for a message. */
  function PdfDocumentOf(m: Msg, stem: string, b64: seq<byte> -> string, sizeKb: nat -> string): PdfDocument {
    var h := PdfHeadersOf(m);
    var pass := Pass(m.attachments, m.htmlBody, stem, b64, sizeKb);
    PassExternalFiles(m.attachments, m.htmlBody, stem, b64, sizeKb);
    LinksNonEmpty(m.attachments, stem, sizeKb, IsInlineImage);
    PdfDocument(MetaRows(h, AttachmentsSummary(pass.externalFiles)),
                RemovePageRules(SelectBody(pass.html, m.rtfBody, m.body)))
  }

  /** The print stylesheet of the template: fixed text, not modelled character by character. */
  const StyleSheet: string := "* { page: auto !important; } @page { size: 8.5in 11in; margin: 0.5in; } ..."

  /** The always-present rows use double-quoted class attributes, the optional ones single quotes. */
  function RenderRow(row: MetaRow): string {
    if row.caption == "From" || row.caption == "To" || row.caption == "Subject" then
      "<tr><td class=\"meta-label\">" + row.caption + ":</td><td>" + row.value + "</td></tr>"
    else
      "<tr><td class='meta-label'>" + row.caption + ":</td><td>" + row.value + "</td></tr>"
  }

  function RenderRows(rows: seq<MetaRow>): string {
    if rows == [] then "" else RenderRow(rows[0]) + RenderRows(rows[1..])
  }

  const DocumentHead: string :=
    "<html><head><meta charset='utf-8'><style>" + StyleSheet + "</style></head><body>"
    + "<div class=\"content-block\"><table class=\"meta-table\">"

  const BodyOpen: string :=
    "</table><hr><div class=\"email-body-container\"><div class=\"email-body-inner email-normalized\">"

  const DocumentTail: string := "</div></div></div></body></html>"

  /** The HTML string handed to the renderer: template, metadata rows, rule, cleaned body. */
  function RenderHtml(doc: PdfDocument): (html: string)
    ensures StartsWith(html, DocumentHead + RenderRows(doc.rows) + BodyOpen)
    ensures html[|DocumentHead + RenderRows(doc.rows) + BodyOpen|..] == doc.body + DocumentTail
  {
    var prefix := DocumentHead + RenderRows(doc.rows) + BodyOpen;
    PrefixThenRest(prefix, doc.body + DocumentTail);
    prefix + (doc.body + DocumentTail)
  }

  lemma PrefixThenRest(p: string, r: string)
    ensures StartsWith(p + r, p) && (p + r)[|p|..] == r
  {
    assert (p + r)[..|p|] == p;
  }

  /** The rows are rendered one after another, in table order. */
  lemma {:induction false} RenderRowsAppend(a: seq<MetaRow>, b: seq<MetaRow>)
    ensures RenderRows(a + b) == RenderRows(a) + RenderRows(b)
  {
    if a == [] {
      assert a + b == b;
    } else {
      assert (a + b)[0] == a[0] && (a + b)[1..] == a[1..] + b;
      RenderRowsAppend(a[1..], b);
    }
  }

  /** The markup of a row in front of its value. */
  function CellOpen(caption: string): string {
    if caption == "From" || caption == "To" || caption == "Subject" then
      "<tr><td class=\"meta-label\">" + caption + ":</td><td>"
    else
      "<tr><td class='meta-label'>" + caption + ":</td><td>"
  }

  /** The text of `s` before its first `<`; all of `s` when it has none. */
  function BeforeTag(s: string): (r: string)
    ensures |r| <= |s| && r == s[..|r|]
    ensures forall k :: 0 <= k < |r| ==> r[k] != '<'
    ensures |r| < |s| ==> s[|r|] == '<'
  {
    if s == [] || s[0] == '<' then [] else [s[0]] + BeforeTag(s[1..])
  }

  /** What a reader of the table finds in the value cell of a row captioned `caption`. */
  function CellValue(html: string, caption: string): string {
    if |CellOpen(caption)| <= |html| then BeforeTag(html[|CellOpen(caption)|..]) else ""
  }

  lemma {:induction false} BeforeTagOfText(v: string, rest: string)
    requires forall k :: 0 <= k < |v| ==> v[k] != '<'
    requires rest != [] && rest[0] == '<'
    ensures BeforeTag(v + rest) == v
  {
    if v == [] {
      assert v + rest == rest;
    } else {
      assert (v + rest)[0] == v[0] && (v + rest)[1..] == v[1..] + rest;
      BeforeTagOfText(v[1..], rest);
    }
  }

  /**
   * A value without `<` cannot close its cell: the cell of the rendered row
   * holds exactly that value.
   */
  lemma CellValueRecovered(row: MetaRow)
    requires forall k :: 0 <= k < |row.value| ==> row.value[k] != '<'
    ensures CellValue(RenderRow(row), row.caption) == row.value
  {
    var open := CellOpen(row.caption);
    var close := "</td></tr>";
    assert RenderRow(row) == open + (row.value + close);
    PrefixThenRest(open, row.value + close);
    BeforeTagOfText(row.value, close);
  }

  /** Every value of `rows` outside the Attachments row is free of markup. */
  predicate EscapedValues(rows: seq<MetaRow>) {
    forall k :: 0 <= k < |rows| && rows[k].caption != "Attachments" ==> NoMarkup(rows[k].value)
  }

  lemma EscapedConcat(a: seq<MetaRow>, b: seq<MetaRow>)
    requires EscapedValues(a) && EscapedValues(b)
    ensures EscapedValues(a + b)
  {
    forall k | 0 <= k < |a + b| && (a + b)[k].caption != "Attachments"
      ensures NoMarkup((a + b)[k].value)
    {
      if k < |a| {
        assert (a + b)[k] == a[k];
      } else {
        assert (a + b)[k] == b[k - |a|];
      }
    }
  }

  /**
   * Every header value in the table is escaped, so only the Attachments
   * summary carries markup of its own.
   */
  lemma MetaValuesEscaped(h: PdfHeaders, summary: string)
    ensures EscapedValues(MetaRows(h, summary))
  {
    var head := [MetaRow("From", HtmlEscape(h.from)), MetaRow("To", HtmlEscape(h.to))];
    var cc := OptionalRow("Cc", h.cc);
    var replyTo := OptionalRow("Reply-To", h.replyTo);
    var date := OptionalRow("Date", h.date);
    var subject := [MetaRow("Subject", HtmlEscape(h.subject))];
    var attachments := if summary != "" then [MetaRow("Attachments", summary)] else [];
    assert MetaRows(h, summary) == head + cc + replyTo + date + subject + attachments;
    assert EscapedValues(head) by { assert head[0].value == HtmlEscape(h.from) && head[1].value == HtmlEscape(h.to); }
    EscapedConcat(head, cc);
    EscapedConcat(head + cc, replyTo);
    EscapedConcat(head + cc + replyTo, date);
    EscapedConcat(head + cc + replyTo + date, subject);
    EscapedConcat(head + cc + replyTo + date + subject, attachments);
  }

  /**
   * No header value can open or close a table cell: in the rendered table,
   * the cell of every row other than Attachments reads back as its value.
   */
  lemma MetaCellsReadBack(h: PdfHeaders, summary: string, k: int)
    requires 0 <= k < |MetaRows(h, summary)| && MetaRows(h, summary)[k].caption != "Attachments"
    ensures CellValue(RenderRow(MetaRows(h, summary)[k]), MetaRows(h, summary)[k].caption)
            == MetaRows(h, summary)[k].value
  {
    MetaValuesEscaped(h, summary);
    CellValueRecovered(MetaRows(h, summary)[k]);
  }

  /** A message with no raw headers and no header fields gets the placeholders. */
  lemma PlaceholderHeaders(m: Msg)
    requires m.headers == []
    requires m.sender.None? && m.to.None? && m.cc.None? && m.date.None? && m.subject.None?
    ensures PdfHeadersOf(m) == PdfHeaders("(Unknown Sender)", "(No Recipient)", "", "", "", "(No Subject)")
  {
  }

  /** Without Cc, Reply-To, Date and linked files the table is From, To and Subject, in that order. */
  lemma MinimalRows(h: PdfHeaders)
    requires h.cc == "" && h.replyTo == "" && h.date == ""
    ensures MetaRows(h, "") ==
      [MetaRow("From", HtmlEscape(h.from)), MetaRow("To", HtmlEscape(h.to)), MetaRow("Subject", HtmlEscape(h.subject))]
  {
  }

  /**
   * A message with no raw headers, no fields, no body and no attachments
   * still yields a document: the three placeholder rows and an empty body.
   */
  lemma EmptyMessageDocument(m: Msg, stem: string, b64: seq<byte> -> string, sizeKb: nat -> string)
    requires m.headers == [] && m.attachments == []
    requires m.sender.None? && m.to.None? && m.cc.None? && m.date.None? && m.subject.None?
    requires m.htmlBody.None? && m.rtfBody.None? && m.body.None?
    ensures PdfDocumentOf(m, stem, b64, sizeKb) ==
      PdfDocument([MetaRow("From", HtmlEscape("(Unknown Sender)")), MetaRow("To", HtmlEscape("(No Recipient)")),
                   MetaRow("Subject", HtmlEscape("(No Subject)"))], "")
  {
    WithoutAttachments(m, stem, b64, sizeKb);
    PlaceholderHeaders(m);
    MinimalRows(PdfHeadersOf(m));
    EmptyBody();
  }

  /** No body of any kind leaves an empty body, which has no page rules to remove. */
  lemma EmptyBody()
    ensures RemovePageRules(SelectBody(None, None, None)) == ""
  {
    assert SelectBody(None, None, None) == "";
    assert !MentionsPage("");
  }

  /** With no attachments, nothing is linked and the body is the selected body with its page rules removed. */
  lemma WithoutAttachments(m: Msg, stem: string, b64: seq<byte> -> string, sizeKb: nat -> string)
    requires m.attachments == []
    ensures PdfDocumentOf(m, stem, b64, sizeKb) ==
      PdfDocument(MetaRows(PdfHeadersOf(m), ""), RemovePageRules(SelectBody(m.htmlBody, m.rtfBody, m.body)))
  {
    assert Pass(m.attachments, m.htmlBody, stem, b64, sizeKb) == AttachmentPass(m.htmlBody, {}, [], map[]);
  }

  /**
   * `convert_to_pdf` up to the renderer: the HTML it renders and the files it
   * writes into the attachments directory, keyed by name.
   */
  method ConvertToPdf(m: Msg, stem: string, b64: seq<byte> -> string, sizeKb: nat -> string)
    returns (html: string, files: map<string, seq<byte>>)
    ensures html == RenderHtml(PdfDocumentOf(m, stem, b64, sizeKb))
    ensures files == Pass(m.attachments, m.htmlBody, stem, b64, sizeKb).written
  {
    var h := PdfHeadersOf(m);
    var pass := ProcessAttachments(m.attachments, m.htmlBody, stem, b64, sizeKb);
    PassExternalFiles(m.attachments, m.htmlBody, stem, b64, sizeKb);
    LinksNonEmpty(m.attachments, stem, sizeKb, IsInlineImage);
    var summary := AttachmentsSummary(pass.externalFiles);
    var body := SelectBody(pass.html, m.rtfBody, m.body);
    var cleaned := RemovePageRules(body);
    html := RenderHtml(PdfDocument(MetaRows(h, summary), cleaned));
    files := pass.written;
  }
}
