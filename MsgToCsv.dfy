/**
 * The CSV converter: the field helpers that turn one message into a row of the
 * fixed eleven-column schema, and the batch loop that sorts each source file
 * into a row or an error line.
 */
module MsgToCsv {

  import opened Wrappers
  import opened Text
  import opened Message

  // ---- Data model ----------------------------------------------------------------

  /** One CSV row; its fields are the eleven columns, in declaration order. */
  datatype EmailRow = EmailRow(
    fileName: string,
    subject: string,
    fromName: string,
    fromEmail: string,
    to: string,
    cc: string,
    bcc: string,
    dateUtc: string,
    attachmentsCount: nat,
    attachments: string,
    bodyText: string)

  /** The column names of `EmailRow`, as the dataclass declares them. */
  const EmailRowFields: seq<string> :=
    ["file_name", "subject", "from_name", "from_email", "to", "cc", "bcc",
     "date_utc", "attachments_count", "attachments", "body_text"]

  // ---- Helpers -------------------------------------------------------------------

  /** `_safe`: None becomes the empty string, anything else is stripped. */
  function Safe(v: Option<string>): (r: string)
    ensures v.None? ==> r == ""
    ensures v.Some? ==> r == Strip(v.value)
  {
    match v
    case None => ""
    case Some(s) => Strip(s)
  }

  /** A value that went through `_safe` is left alone by a second pass. */
  lemma SafeIdempotent(v: Option<string>)
    ensures Safe(Some(Safe(v))) == Safe(v)
  {
    if v.Some? {
      StripIdempotent(v.value);
    }
  }

  /** The items `_join` keeps: each stripped, the empty ones dropped, in order. */
  function Kept(items: seq<string>): (r: seq<string>)
    ensures |r| <= |items|
    ensures forall k :: 0 <= k < |r| ==> r[k] != ""
  {
    if items == [] then []
    else
      var last := Strip(items[|items| - 1]);
      var init := Kept(items[..|items| - 1]);
      if last != "" then init + [last] else init
  }

  /** `_join`: the kept items joined with `", "`. */
  function Join(items: seq<string>): string {
    JoinWith(", ", Kept(items))
  }

  /** Keeping distributes over concatenation, so the kept items stay in input order. */
  lemma {:induction false} KeptAppend(a: seq<string>, b: seq<string>)
    decreases |b|
    ensures Kept(a + b) == Kept(a) + Kept(b)
  {
    if b == [] {
      assert a + b == a;
    } else {
      var b' := b[..|b| - 1];
      assert (a + b)[..|a + b| - 1] == a + b';
      assert (a + b)[|a + b| - 1] == b[|b| - 1];
      KeptAppend(a, b');
    }
  }

  /** No item that strips to nothing is kept, and every other one is. */
  lemma {:induction false} KeptEmptyIff(items: seq<string>)
    ensures Kept(items) == [] <==> forall k :: 0 <= k < |items| ==> Strip(items[k]) == ""
  {
    if items != [] {
      var init := items[..|items| - 1];
      KeptEmptyIff(init);
      assert forall k :: 0 <= k < |init| ==> init[k] == items[k];
    }
  }

  /** `_join` gives `""` exactly when every item strips to nothing. */
  lemma JoinEmptyIff(items: seq<string>)
    ensures Join(items) == "" <==> forall k :: 0 <= k < |items| ==> Strip(items[k]) == ""
  {
    KeptEmptyIff(items);
    JoinWithEmptyIff(", ", Kept(items));
  }

  /**
   * Adding one item to `_join`: a blank one changes nothing, any other is
   * appended after a single separator, so no empty element ever stands
   * between two separators.
   */
  lemma JoinSnoc(items: seq<string>, x: string)
    ensures Join(items + [x]) ==
      if Strip(x) == "" then Join(items)
      else if Join(items) == "" then Strip(x)
      else Join(items) + ", " + Strip(x)
  {
    assert (items + [x])[..|items|] == items;
    JoinWithEmptyIff(", ", Kept(items));
    JoinWithSnoc(", ", Kept(items), Strip(x));
  }

  // ---- Date normalisation ----------------------------------------------------------

  /** The layouts `_normalize_date` tries, most specific first. */
  const DateFormats: seq<string> :=
    ["%a, %d %b %Y %H:%M:%S %z",
     "%d %b %Y %H:%M:%S %z",
     "%m/%d/%Y %H:%M:%S %p",
     "%Y-%m-%d %H:%M:%S%z",
     "%Y-%m-%d %H:%M:%S"]

  /**
   * One pass of the `try` body: `parse` stands for `datetime.strptime` with one
   * layout and `render` for `astimezone().isoformat()`; either may fail.
   */
  function Attempt<D>(s: string, fmt: string, parse: (string, string) -> Option<D>, render: D -> Option<string>): Option<string> {
    match parse(s, fmt)
    case None => None
    case Some(d) => render(d)
  }

  /** The result of the first layout whose attempt succeeds, in list order. */
  function FirstSuccess<D>(s: string, fmts: seq<string>, parse: (string, string) -> Option<D>, render: D -> Option<string>): (r: Option<string>)
    ensures r.None? <==> forall k :: 0 <= k < |fmts| ==> Attempt(s, fmts[k], parse, render).None?
    ensures r.Some? ==>
              exists k :: && 0 <= k < |fmts| && Attempt(s, fmts[k], parse, render) == r
                          && forall j :: 0 <= j < k ==> Attempt(s, fmts[j], parse, render).None?
  {
    if fmts == [] then None
    else match Attempt(s, fmts[0], parse, render)
      case Some(v) => Some(v)
      case None =>
        var r := FirstSuccess(s, fmts[1..], parse, render);
        assert forall k :: 1 <= k < |fmts| ==> fmts[k] == fmts[1..][k - 1];
        r
  }

  /** What `_normalize_date` returns. */
  function NormalizedDate<D>(s: string, parse: (string, string) -> Option<D>, render: D -> Option<string>): string {
    if s == "" then ""
    else match FirstSuccess(s, DateFormats, parse, render)
      case Some(v) => v
      case None => s
  }

  /** An empty date stays empty. */
  lemma NormalizedDateEmpty<D>(parse: (string, string) -> Option<D>, render: D -> Option<string>)
    ensures NormalizedDate("", parse, render) == ""
  {
  }

  /** A date no layout accepts comes back unchanged. */
  lemma NormalizedDateFallback<D>(s: string, parse: (string, string) -> Option<D>, render: D -> Option<string>)
    requires forall k :: 0 <= k < |DateFormats| ==> Attempt(s, DateFormats[k], parse, render).None?
    ensures NormalizedDate(s, parse, render) == s
  {
  }

  /** When several layouts would accept a date, the first in list order decides the result. */
  lemma NormalizedDateFirstWins<D>(s: string, k: nat, parse: (string, string) -> Option<D>, render: D -> Option<string>)
    requires s != "" && k < |DateFormats|
    requires Attempt(s, DateFormats[k], parse, render).Some?
    requires forall j :: 0 <= j < k ==> Attempt(s, DateFormats[j], parse, render).None?
    ensures NormalizedDate(s, parse, render) == Attempt(s, DateFormats[k], parse, render).value
  {
    var r := FirstSuccess(s, DateFormats, parse, render);
    assert r.Some?;
    var k' :| && 0 <= k' < |DateFormats| && Attempt(s, DateFormats[k'], parse, render) == r
              && forall j :: 0 <= j < k' ==> Attempt(s, DateFormats[j], parse, render).None?;
    assert k' == k;
  }

  /** `_normalize_date`: the loop over the layouts with its early return. */
  method NormalizeDate<D>(s: string, parse: (string, string) -> Option<D>, render: D -> Option<string>) returns (r: string)
    ensures r == NormalizedDate(s, parse, render)
  {
    if s == "" {
      return "";
    }
    var i := 0;
    while i < |DateFormats|
      invariant 0 <= i <= |DateFormats|
      invariant forall j :: 0 <= j < i ==> Attempt(s, DateFormats[j], parse, render).None?
    {
      var parsed := parse(s, DateFormats[i]);
      if parsed.Some? {
        var rendered := render(parsed.value);
        if rendered.Some? {
          NormalizedDateFirstWins(s, i, parse, render);
          return rendered.value;
        }
      }
      i := i + 1;
    }
    NormalizedDateFallback(s, parse, render);
    return s;
  }

  // ---- Recipients -------------------------------------------------------------------

  /** The three recipient classes and the field name each one is looked up under. */
  datatype Role = To | Cc | Bcc {
    function Field(): string {
      match this
      case To => "to"
      case Cc => "cc"
      case Bcc => "bcc"
    }
  }

  /** The flat, aggregated field for a role (`msg.to`, `msg.cc`, `msg.bcc`). */
  function FlatField(m: Msg, role: Role): Option<string> {
    match role
    case To => m.to
    case Cc => m.cc
    case Bcc => m.bcc
  }

  /** `"name <email>"` when the recipient has an address, else the bare name. */
  function Entry(r: Recipient): string {
    var nm := Safe(r.name);
    var em := Safe(r.email);
    if em != "" then nm + " <" + em + ">" else nm
  }

  /** The recipient's type, lower-cased, is the role's field name. */
  predicate HasRole(r: Recipient, role: Role) {
    r.kind.Some? && Lower(r.kind.value) == role.Field()
  }

  /** Every recipient has a type; a None type makes `.lower()` raise. */
  predicate AllTyped(rs: seq<Recipient>) {
    forall k :: 0 <= k < |rs| ==> rs[k].kind.Some?
  }

  /** The entries of the recipients that have the role, in list order. */
  function Matches(rs: seq<Recipient>, role: Role): seq<string> {
    if rs == [] then []
    else
      var last := rs[|rs| - 1];
      Matches(rs[..|rs| - 1], role) + (if HasRole(last, role) then [Entry(last)] else [])
  }

  /** What `_recipient_list(msg, field)` returns. */
  function RecipientListOf(m: Msg, role: Role): string {
    if m.recipients.Some? && m.recipients.value != [] && AllTyped(m.recipients.value)
       && Matches(m.recipients.value, role) != []
    then Join(Matches(m.recipients.value, role))
    else Safe(FlatField(m, role))
  }

  /** Matching distributes over concatenation: entries come out in recipient order. */
  lemma {:induction false} MatchesAppend(a: seq<Recipient>, b: seq<Recipient>, role: Role)
    decreases |b|
    ensures Matches(a + b, role) == Matches(a, role) + Matches(b, role)
  {
    if b == [] {
      assert a + b == a;
    } else {
      var b' := b[..|b| - 1];
      assert (a + b)[..|a + b| - 1] == a + b';
      assert (a + b)[|a + b| - 1] == b[|b| - 1];
      MatchesAppend(a, b', role);
    }
  }

  /** Matching one more recipient adds its entry exactly when it has the role. */
  lemma MatchesPrefix(rs: seq<Recipient>, i: nat, role: Role)
    requires i < |rs|
    ensures Matches(rs[..i + 1], role) == Matches(rs[..i], role) + (if HasRole(rs[i], role) then [Entry(rs[i])] else [])
  {
    assert rs[..i + 1][..i] == rs[..i];
  }

  /** There are entries for a role exactly when some recipient has it. */
  lemma {:induction false} MatchesEmptyIff(rs: seq<Recipient>, role: Role)
    ensures Matches(rs, role) == [] <==> forall k :: 0 <= k < |rs| ==> !HasRole(rs[k], role)
  {
    if rs != [] {
      var init := rs[..|rs| - 1];
      MatchesEmptyIff(init, role);
      assert forall k :: 0 <= k < |init| ==> init[k] == rs[k];
    }
  }

  /**
   * With a fully typed structured list in which some recipient has the
   * role, the result is the join of those recipients' entries.
   */
  lemma RecipientListStructured(m: Msg, role: Role, k: nat)
    requires m.recipients.Some? && AllTyped(m.recipients.value)
    requires k < |m.recipients.value| && HasRole(m.recipients.value[k], role)
    ensures RecipientListOf(m, role) == Join(Matches(m.recipients.value, role))
  {
    MatchesEmptyIff(m.recipients.value, role);
  }

  /**
   * With no structured list, an empty one, one that raises, or one with no
   * recipient of the role, the result is the stripped flat field.
   */
  lemma RecipientListFallback(m: Msg, role: Role)
    requires || m.recipients.None?
             || m.recipients.value == []
             || !AllTyped(m.recipients.value)
             || forall k :: 0 <= k < |m.recipients.value| ==> !HasRole(m.recipients.value[k], role)
    ensures RecipientListOf(m, role) == Safe(FlatField(m, role))
  {
    if m.recipients.Some? {
      MatchesEmptyIff(m.recipients.value, role);
    }
  }

  /** The entry for Alice with an address. */
  lemma AliceEntry()
    ensures Entry(Recipient(Some("To"), Some("Alice"), Some("alice@x.com"))) == "Alice <alice@x.com>"
  {
    var nm, em := "Alice", "alice@x.com";
    assert !IsSpace(nm[0]) && !IsSpace(nm[|nm| - 1]) && !IsSpace(em[0]) && !IsSpace(em[|em| - 1]);
    EntryWithAddress(Recipient(Some("To"), Some(nm), Some(em)), nm, em);
  }

  /** A recipient whose name and address carry no surrounding blanks is listed as `name <address>`. */
  lemma EntryWithAddress(r: Recipient, nm: string, em: string)
    requires r.name == Some(nm) && r.email == Some(em) && em != []
    requires nm == [] || (!IsSpace(nm[0]) && !IsSpace(nm[|nm| - 1]))
    requires !IsSpace(em[0]) && !IsSpace(em[|em| - 1])
    ensures Entry(r) == nm + " <" + em + ">"
  {
    StripUnchanged(nm);
    StripUnchanged(em);
  }

  /** The roles of the two recipients of the example. */
  lemma AliceRoles()
    ensures HasRole(Recipient(Some("To"), Some("Alice"), Some("alice@x.com")), To)
    ensures !HasRole(Recipient(Some("Cc"), Some("Bob"), Some("bob@x.com")), To)
  {
    assert Lower("To") == "to";
    assert Lower("Cc") == "cc";
  }

  /** With two typed recipients of which only the first has the role, the result is its entry. */
  lemma FirstOfTwoMatches(m: Msg, role: Role, a: Recipient, b: Recipient)
    requires m.recipients == Some([a, b]) && a.kind.Some? && b.kind.Some?
    requires HasRole(a, role) && !HasRole(b, role)
    requires Entry(a) != "" && Strip(Entry(a)) == Entry(a)
    ensures RecipientListOf(m, role) == Entry(a)
  {
    MatchesFirstOfTwo(a, b, role);
    assert AllTyped([a, b]);
    SingleMatch(m, role, Entry(a));
    JoinSingle(Entry(a));
  }

  lemma MatchesFirstOfTwo(a: Recipient, b: Recipient, role: Role)
    requires HasRole(a, role) && !HasRole(b, role)
    ensures Matches([a, b], role) == [Entry(a)]
  {
    assert [a, b] == [a] + [b];
    MatchesAppend([a], [b], role);
    MatchesSingle(a, role);
    MatchesSingle(b, role);
  }

  lemma SingleMatch(m: Msg, role: Role, x: string)
    requires m.recipients.Some? && AllTyped(m.recipients.value) && Matches(m.recipients.value, role) == [x]
    ensures RecipientListOf(m, role) == Join([x])
  {
  }

  lemma MatchesSingle(r: Recipient, role: Role)
    ensures Matches([r], role) == if HasRole(r, role) then [Entry(r)] else []
  {
    assert [r][..0] == [];
  }

  lemma JoinSingle(x: string)
    requires x != "" && Strip(x) == x
    ensures Join([x]) == x
  {
    assert [x][..0] == [];
    assert Kept([x]) == [x];
  }

  /** A To entry for Alice next to a Cc entry resolves to Alice alone for the To role. */
  lemma RecipientListAliceExample(m: Msg)
    requires m.recipients == Some([Recipient(Some("To"), Some("Alice"), Some("alice@x.com")),
                                   Recipient(Some("Cc"), Some("Bob"), Some("bob@x.com"))])
    ensures RecipientListOf(m, To) == "Alice <alice@x.com>"
  {
    AliceEntry();
    AliceRoles();
    StripUnchanged("Alice <alice@x.com>");
    FirstOfTwoMatches(m, To, m.recipients.value[0], m.recipients.value[1]);
  }

  /** `_recipient_list`: the structured pass, then the flat fallback. */
  method RecipientList(m: Msg, role: Role) returns (r: string)
    ensures r == RecipientListOf(m, role)
  {
    var rs := if m.recipients.Some? then m.recipients.value else [];
    if rs != [] {
      var vals := CollectEntries(rs, role);
      if vals.Some? && vals.value != [] {
        return Join(vals.value);
      }
    }
    return Safe(FlatField(m, role));
  }

  /**
   * The loop of the structured pass: the entries of the recipients with the
   * role, or None when a recipient has no type (`.lower()` on None raises and
   * the handler gives up on the structured list).
   */
  method CollectEntries(rs: seq<Recipient>, role: Role) returns (vals: Option<seq<string>>)
    ensures vals.None? <==> !AllTyped(rs)
    ensures vals.Some? ==> vals.value == Matches(rs, role)
  {
    var acc: seq<string> := [];
    var i := 0;
    while i < |rs|
      invariant 0 <= i <= |rs|
      invariant forall k :: 0 <= k < i ==> rs[k].kind.Some?
      invariant acc == Matches(rs[..i], role)
    {
      var rec := rs[i];
      if rec.kind.None? {
        assert !AllTyped(rs) by { assert rs[i].kind.None?; }
        return None;
      }
      MatchesPrefix(rs, i, role);
      if HasRole(rec, role) {
        acc := acc + [Entry(rec)];
      }
      i := i + 1;
    }
    assert rs[..|rs|] == rs;
    return Some(acc);
  }

  // ---- Attachment names -------------------------------------------------------------

  /** `_safe(longFilename or shortFilename)`: truthiness is decided before stripping. */
  function ResolvedName(a: Attachment): string {
    Safe(if Truthy(a.longFilename) then a.longFilename else a.shortFilename)
  }

  /** What `_attachment_names` returns: the non-empty resolved names, in attachment order. */
  function AttachmentNamesOf(atts: seq<Attachment>): (names: seq<string>)
    ensures |names| <= |atts|
    ensures forall k :: 0 <= k < |names| ==> names[k] != ""
  {
    if atts == [] then []
    else
      var last := atts[|atts| - 1];
      AttachmentNamesOf(atts[..|atts| - 1]) + (if ResolvedName(last) != "" then [ResolvedName(last)] else [])
  }

  /** Names distribute over concatenation: they come out in attachment order. */
  lemma {:induction false} AttachmentNamesAppend(a: seq<Attachment>, b: seq<Attachment>)
    decreases |b|
    ensures AttachmentNamesOf(a + b) == AttachmentNamesOf(a) + AttachmentNamesOf(b)
  {
    if b == [] {
      assert a + b == a;
    } else {
      var b' := b[..|b| - 1];
      assert (a + b)[..|a + b| - 1] == a + b';
      assert (a + b)[|a + b| - 1] == b[|b| - 1];
      AttachmentNamesAppend(a, b');
    }
  }

  /** When every attachment resolves to a name, there is one name per attachment, index for index. */
  lemma {:induction false} AttachmentNamesAllNamed(atts: seq<Attachment>)
    requires forall k :: 0 <= k < |atts| ==> ResolvedName(atts[k]) != ""
    ensures |AttachmentNamesOf(atts)| == |atts|
    ensures forall k :: 0 <= k < |atts| ==> AttachmentNamesOf(atts)[k] == ResolvedName(atts[k])
  {
    if atts != [] {
      var init := atts[..|atts| - 1];
      var names := AttachmentNamesOf(init) + [ResolvedName(atts[|atts| - 1])];
      assert forall k :: 0 <= k < |init| ==> init[k] == atts[k];
      AttachmentNamesAllNamed(init);
      assert AttachmentNamesOf(atts) == names;
      forall k | 0 <= k < |atts|
        ensures names[k] == ResolvedName(atts[k])
      {
        if k < |init| {
          assert names[k] == AttachmentNamesOf(init)[k];
        }
      }
    }
  }

  /** A blank long name is truthy, so it hides the short name and the attachment is skipped. */
  lemma BlankLongNameHidesShortName(a: Attachment)
    requires a.longFilename == Some(" ") && a.shortFilename == Some("report.pdf")
    ensures ResolvedName(a) == ""
    ensures AttachmentNamesOf([a]) == []
  {
    assert LStrip(" ") == "";
    assert [a][..0] == [];
  }

  /** `_attachment_names`: the loop that appends each non-empty name. */
  method AttachmentNames(atts: seq<Attachment>) returns (names: seq<string>)
    ensures names == AttachmentNamesOf(atts)
  {
    names := [];
    var i := 0;
    while i < |atts|
      invariant 0 <= i <= |atts|
      invariant names == AttachmentNamesOf(atts[..i])
    {
      var name := ResolvedName(atts[i]);
      assert atts[..i + 1][..i] == atts[..i];
      if name != "" {
        names := names + [name];
      }
      i := i + 1;
    }
    assert atts[..|atts|] == atts;
  }

  // ---- Rows and the batch ---------------------------------------------------------

  /** The row `convert_to_csv` builds for one outcome message. */
  function RowOf<D>(fileName: string, m: Msg, parse: (string, string) -> Option<D>, render: D -> Option<string>): EmailRow {
    var atts := AttachmentNamesOf(m.attachments);
    EmailRow(
      fileName := fileName,
      subject := Safe(m.subject),
      fromName := Safe(m.sender),
      fromEmail := Safe(m.senderEmail),
      to := RecipientListOf(m, To),
      cc := RecipientListOf(m, Cc),
      bcc := RecipientListOf(m, Bcc),
      dateUtc := NormalizedDate(Safe(m.date), parse, render),
      attachmentsCount := |atts|,
      attachments := JoinWith("; ", atts),
      bodyText := Safe(m.body))
  }

  /**
   * The two attachment columns agree: the count is the number of names, the
   * cell is empty exactly when the count is zero, and when no name holds a
   * `;` the cell splits back on `"; "` into exactly the names.
   */
  lemma RowAttachmentColumns<D>(fileName: string, m: Msg, parse: (string, string) -> Option<D>, render: D -> Option<string>)
    ensures var row := RowOf(fileName, m, parse, render);
      && row.attachmentsCount == |AttachmentNamesOf(m.attachments)| <= |m.attachments|
      && (row.attachments == "" <==> row.attachmentsCount == 0)
    ensures var names := AttachmentNamesOf(m.attachments);
      names != [] && (forall i, k :: 0 <= i < |names| && 0 <= k < |names[i]| ==> names[i][k] != ';')
      ==> Split(RowOf(fileName, m, parse, render).attachments, "; ") == names
  {
    var names := AttachmentNamesOf(m.attachments);
    JoinWithEmptyIff("; ", names);
    if names != [] && (forall i, k :: 0 <= i < |names| && 0 <= k < |names[i]| ==> names[i][k] != ';') {
      SplitJoinInverse("; ", names);
    }
  }

  /** Builds one row, calling the helpers as `convert_to_csv` does. */
  method BuildRow<D>(fileName: string, m: Msg, parse: (string, string) -> Option<D>, render: D -> Option<string>) returns (row: EmailRow)
    ensures row == RowOf(fileName, m, parse, render)
  {
    var date := NormalizeDate(Safe(m.date), parse, render);
    var atts := AttachmentNames(m.attachments);
    var to := RecipientList(m, To);
    var cc := RecipientList(m, Cc);
    var bcc := RecipientList(m, Bcc);
    row := EmailRow(fileName, Safe(m.subject), Safe(m.sender), Safe(m.senderEmail), to, cc, bcc,
                    date, |atts|, JoinWith("; ", atts), Safe(m.body));
  }

  /** One input file: its path, its base name, and the parser's outcome (a message or the error text). */
  datatype SourceFile = SourceFile(path: string, name: string, outcome: Result<Msg, string>)

  /** The error line recorded for a file the parser could not open. */
  function ErrorLine(f: SourceFile): string
    requires f.outcome.Err?
  {
    f.path + ": " + f.outcome.error
  }

  /** The rows of the outcome files, in input order. */
  function CsvRows<D>(files: seq<SourceFile>, parse: (string, string) -> Option<D>, render: D -> Option<string>): seq<EmailRow> {
    if files == [] then []
    else
      var f := files[|files| - 1];
      CsvRows(files[..|files| - 1], parse, render)
        + (if f.outcome.Ok? then [RowOf(f.name, f.outcome.value, parse, render)] else [])
  }

  /** The error lines of the files that failed to open, in input order. */
  function CsvErrors(files: seq<SourceFile>): seq<string> {
    if files == [] then []
    else
      var f := files[|files| - 1];
      CsvErrors(files[..|files| - 1]) + (if f.outcome.Err? then [ErrorLine(f)] else [])
  }

  /** The CSV as `DictWriter` receives it: the header's field names and the rows. */
  datatype CsvTable = CsvTable(fieldNames: seq<string>, rows: seq<EmailRow>)

  /** The keys of `asdict(row)`: the dataclass fields, whatever the row holds. */
  function RowKeys(row: EmailRow): seq<string> {
    EmailRowFields
  }

  /** The header: the first row's keys when there is a row, else the dataclass fields. */
  function FieldNames(rows: seq<EmailRow>): (names: seq<string>)
    ensures names == EmailRowFields && |names| == 11
  {
    if rows != [] then RowKeys(rows[0]) else EmailRowFields
  }

  /** Each file adds exactly one row or exactly one error. */
  lemma {:induction false} CsvAccounting<D>(files: seq<SourceFile>, parse: (string, string) -> Option<D>, render: D -> Option<string>)
    ensures |CsvRows(files, parse, render)| + |CsvErrors(files)| == |files|
  {
    if files != [] {
      CsvAccounting(files[..|files| - 1], parse, render);
    }
  }

  /** Rows distribute over concatenation of batches, so they follow input order. */
  lemma {:induction false} CsvRowsAppend<D>(a: seq<SourceFile>, b: seq<SourceFile>, parse: (string, string) -> Option<D>, render: D -> Option<string>)
    decreases |b|
    ensures CsvRows(a + b, parse, render) == CsvRows(a, parse, render) + CsvRows(b, parse, render)
  {
    if b == [] {
      assert a + b == a;
    } else {
      var b' := b[..|b| - 1];
      assert (a + b)[..|a + b| - 1] == a + b';
      assert (a + b)[|a + b| - 1] == b[|b| - 1];
      CsvRowsAppend(a, b', parse, render);
    }
  }

  /** Error lines distribute over concatenation of batches, so they follow input order. */
  lemma {:induction false} CsvErrorsAppend(a: seq<SourceFile>, b: seq<SourceFile>)
    decreases |b|
    ensures CsvErrors(a + b) == CsvErrors(a) + CsvErrors(b)
  {
    if b == [] {
      assert a + b == a;
    } else {
      var b' := b[..|b| - 1];
      assert (a + b)[..|a + b| - 1] == a + b';
      assert (a + b)[|a + b| - 1] == b[|b| - 1];
      CsvErrorsAppend(a, b');
    }
  }

  /** A batch whose files all open yields no error line. */
  lemma {:induction false} CsvNoErrors(files: seq<SourceFile>)
    requires forall k :: 0 <= k < |files| ==> files[k].outcome.Ok?
    ensures CsvErrors(files) == []
  {
    if files != [] {
      CsvNoErrors(files[..|files| - 1]);
    }
  }

  /** One corrupt file among valid ones: one row fewer than files, and one error that names the corrupt file. */
  lemma OneCorruptFile<D>(files: seq<SourceFile>, k: nat, parse: (string, string) -> Option<D>, render: D -> Option<string>)
    requires k < |files| && files[k].outcome.Err?
    requires forall j :: 0 <= j < |files| && j != k ==> files[j].outcome.Ok?
    ensures |CsvRows(files, parse, render)| == |files| - 1
    ensures CsvErrors(files) == [files[k].path + ": " + files[k].outcome.error]
  {
    OneCorruptErrors(files, k);
    CsvAccounting(files, parse, render);
  }

  lemma OneCorruptErrors(files: seq<SourceFile>, k: nat)
    requires k < |files| && files[k].outcome.Err?
    requires forall j :: 0 <= j < |files| && j != k ==> files[j].outcome.Ok?
    ensures CsvErrors(files) == [ErrorLine(files[k])]
  {
    var pre, mid, post := files[..k], [files[k]], files[k + 1..];
    NoErrorsOutside(files, k);
    assert files == pre + mid + post;
    CsvErrorsAppend(pre + mid, post);
    CsvErrorsAppend(pre, mid);
    CsvErrorsSingle(files[k]);
  }

  lemma NoErrorsOutside(files: seq<SourceFile>, k: nat)
    requires k < |files|
    requires forall j :: 0 <= j < |files| && j != k ==> files[j].outcome.Ok?
    ensures CsvErrors(files[..k]) == [] && CsvErrors(files[k + 1..]) == []
  {
    var pre, post := files[..k], files[k + 1..];
    assert forall j :: 0 <= j < |pre| ==> pre[j] == files[j];
    CsvNoErrors(pre);
    assert forall j :: 0 <= j < |post| ==> post[j] == files[k + 1 + j];
    CsvNoErrors(post);
  }

  lemma CsvErrorsSingle(f: SourceFile)
    requires f.outcome.Err?
    ensures CsvErrors([f]) == [ErrorLine(f)]
  {
    assert [f][..0] == [];
  }

  /** Taking one more file adds its row or its error line. */
  lemma CsvPrefix<D>(files: seq<SourceFile>, i: nat, parse: (string, string) -> Option<D>, render: D -> Option<string>)
    requires i < |files|
    ensures CsvRows(files[..i + 1], parse, render) == CsvRows(files[..i], parse, render)
      + (if files[i].outcome.Ok? then [RowOf(files[i].name, files[i].outcome.value, parse, render)] else [])
    ensures CsvErrors(files[..i + 1]) == CsvErrors(files[..i]) + (if files[i].outcome.Err? then [ErrorLine(files[i])] else [])
  {
    assert files[..i + 1][..i] == files[..i];
  }

  /** One turn of the batch loop: the file's row, or its error line when the parser raised. */
  method ConvertFile<D>(rows: seq<EmailRow>, errors: seq<string>, f: SourceFile,
                        parse: (string, string) -> Option<D>, render: D -> Option<string>)
    returns (rows': seq<EmailRow>, errors': seq<string>)
    ensures rows' == rows + (if f.outcome.Ok? then [RowOf(f.name, f.outcome.value, parse, render)] else [])
    ensures errors' == errors + (if f.outcome.Err? then [ErrorLine(f)] else [])
  {
    match f.outcome {
      case Err(e) =>
        rows', errors' := rows, errors + [f.path + ": " + e];
      case Ok(m) =>
        var row := BuildRow(f.name, m, parse, render);
        rows', errors' := rows + [row], errors;
    }
  }

  lemma WholePrefix(files: seq<SourceFile>)
    ensures files[..|files|] == files
  {
  }

  /**
   * `convert_to_csv` over the given file list: each file goes to `rows` or to
   * `errors`; the result is the row count and the error lines, and the table
   * handed to the writer.
   */
  method ConvertToCsv<D>(files: seq<SourceFile>, parse: (string, string) -> Option<D>, render: D -> Option<string>)
    returns (count: nat, errors: seq<string>, table: CsvTable)
    ensures table.fieldNames == EmailRowFields
    ensures table.rows == CsvRows(files, parse, render)
    ensures errors == CsvErrors(files)
    ensures count == |table.rows| && count + |errors| == |files|
  {
    errors := [];
    var rows: seq<EmailRow> := [];
    var i := 0;
    while i < |files|
      invariant 0 <= i <= |files|
      invariant rows == CsvRows(files[..i], parse, render)
      invariant errors == CsvErrors(files[..i])
    {
      CsvPrefix(files, i, parse, render);
      rows, errors := ConvertFile(rows, errors, files[i], parse, render);
      i := i + 1;
    }
    WholePrefix(files);
    CsvAccounting(files, parse, render);
    table := CsvTable(FieldNames(rows), rows);
    count := |rows|;
  }
}
