/** The campaign ("mail") operations of backend/controllers/emailController.js:
    storing a campaign, the bulk dispatch with per-recipient rendering and
    outcome aggregation, the CSV-versus-template check, and registering a
    sender configuration. Database access, decryption, the SMTP transport
    and HTML-to-text conversion are parameters. */
module EmailController {
  import opened Js
  import opened Strings
  import opened Lists
  import opened TemplateUtils

  type UserId = string
  type MailId = string

  /* ---- createEmail ---- */

  /** The request body of `createEmail`. Text fields are "" when absent or
      falsy; `recipientData` is `None` when absent or null. */
  datatype CreateEmailRequest = CreateEmailRequest(
    subject: string,
    body: string,
    recipientData: Option<seq<Object>>,
    senderId: UserId,
    senderEmail: string)

  /** The document handed to the `Mails` model: the raw recipient rows. */
  datatype NewMail = NewMail(
    senderId: UserId,
    senderEmail: string,
    recipientData: seq<Object>,
    subject: string,
    body: string)

  /** One recipient row after destructuring
      `{recipientName, recipientEmail, ...dynamicFields}`. */
  datatype ProcessedRecipient = ProcessedRecipient(
    recipientName: JsValue,
    recipientEmail: JsValue,
    dynamicFields: Object)

  datatype CreateEmailReply = MissingFields | MailCreated(mailId: MailId, mail: NewMail)
  {
    function Code(): int {
      match this
      case MissingFields => 400
      case MailCreated(_, _) => 201
    }
  }

  /** The destructuring of one row: the two named properties, and every
      other entry, in order, as the dynamic fields. */
  function SplitRecipient(row: Object): (p: ProcessedRecipient)
    ensures p.recipientName == Lookup(row, "recipientName")
    ensures p.recipientEmail == Lookup(row, "recipientEmail")
    ensures forall e :: e in p.dynamicFields <==> e in row && e.0 != "recipientName" && e.0 != "recipientEmail"
    ensures Subsequence(p.dynamicFields, row)
  {
    ProcessedRecipient(
      Lookup(row, "recipientName"),
      Lookup(row, "recipientEmail"),
      Filter(row, (e: (string, JsValue)) => e.0 != "recipientName" && e.0 != "recipientEmail"))
  }

  /** `recipientData.map(...)`: one processed entry per row, same order. */
  function ProcessRecipients(rows: seq<Object>): (ps: seq<ProcessedRecipient>)
    ensures |ps| == |rows|
    ensures forall i :: 0 <= i < |rows| ==> ps[i] == SplitRecipient(rows[i])
  {
    if rows == [] then [] else [SplitRecipient(rows[0])] + ProcessRecipients(rows[1..])
  }

  /** `createEmail`: rejects the request when any required field is falsy,
      otherwise stores the raw rows under a fresh id and nothing else. */
  function CreateEmail(mails: map<MailId, NewMail>, freshId: MailId, req: CreateEmailRequest)
    : (r: (map<MailId, NewMail>, CreateEmailReply))
    requires freshId !in mails
    ensures r.1.MissingFields? <==>
      req.subject == [] || req.body == [] || req.recipientData.None? || req.senderId == [] || req.senderEmail == []
    ensures r.1.MissingFields? ==> r.0 == mails
    ensures r.1.MailCreated? ==>
      && r.1.mailId == freshId
      && r.1.mail == NewMail(req.senderId, req.senderEmail, req.recipientData.value, req.subject, req.body)
      && r.0.Keys == mails.Keys + {freshId}
      && r.0[freshId] == r.1.mail
      && forall id :: id in mails ==> r.0[id] == mails[id]
  {
    if req.subject == [] || req.body == [] || req.recipientData.None? || req.senderId == [] || req.senderEmail == [] then
      (mails, MissingFields)
    else
      var rows := req.recipientData.value;
      // Computed by the controller but not what gets stored.
      var _ := ProcessRecipients(rows);
      var mail := NewMail(req.senderId, req.senderEmail, rows, req.subject, req.body);
      (mails[freshId := mail], MailCreated(freshId, mail))
  }

  /* ---- Sender configurations ---- */

  /** The `{encrypted, iv, authTag}` object produced by the encryption
      helper. */
  datatype Secret = Secret(encrypted: string, iv: string, authTag: string)

  datatype EmailConfig = EmailConfig(senderEmail: string, encryptedAppPassword: Secret)

  datatype User = User(emailConfigs: seq<EmailConfig>)

  /** `configs.find(c => c.senderEmail === email)`, as an index. */
  function FindConfig(configs: seq<EmailConfig>, email: string): (r: Option<nat>)
    ensures r.Some? ==> r.value < |configs| && configs[r.value].senderEmail == email
    ensures r.Some? ==> forall j :: 0 <= j < r.value ==> configs[j].senderEmail != email
    ensures r.None? ==> forall j :: 0 <= j < |configs| ==> configs[j].senderEmail != email
  {
    if configs == [] then None
    else if configs[0].senderEmail == email then Some(0)
    else
      match FindConfig(configs[1..], email)
      case None => None
      case Some(k) => Some(k + 1)
  }

  datatype ConfigReply = ConfigFieldsMissing | ConfigUserNotFound | ConfigAdded(senderEmail: string)
  {
    function Code(): int {
      match this
      case ConfigFieldsMissing => 400
      case ConfigUserNotFound => 404
      case ConfigAdded(_) => 200
    }
  }

  /** `addEmailConfig`: validates the two fields, then appends a new
      configuration; existing ones, for the same address included, stay. */
  function AddEmailConfig(users: map<UserId, User>, userId: UserId, senderEmail: string,
                          appPassword: string, encrypt: string -> Secret)
    : (r: (map<UserId, User>, ConfigReply))
    ensures r.1.ConfigFieldsMissing? <==> senderEmail == [] || appPassword == []
    ensures r.1.ConfigUserNotFound? <==> senderEmail != [] && appPassword != [] && userId !in users
    ensures !r.1.ConfigAdded? ==> r.0 == users
    ensures r.1.ConfigAdded? ==>
      && r.1.senderEmail == senderEmail
      && r.0.Keys == users.Keys
      && r.0[userId].emailConfigs
         == users[userId].emailConfigs + [EmailConfig(senderEmail, encrypt(appPassword))]
      && forall u :: u in users && u != userId ==> r.0[u] == users[u]
  {
    if senderEmail == [] || appPassword == [] then (users, ConfigFieldsMissing)
    else if userId !in users then (users, ConfigUserNotFound)
    else
      var configs := users[userId].emailConfigs + [EmailConfig(senderEmail, encrypt(appPassword))];
      (users[userId := User(configs)], ConfigAdded(senderEmail))
  }

  /** Appending never changes which configuration is found first. */
  lemma {:induction false} AppendKeepsFirstMatch(configs: seq<EmailConfig>, c: EmailConfig, email: string)
    requires FindConfig(configs, email).Some?
    ensures FindConfig(configs + [c], email) == FindConfig(configs, email)
    decreases |configs|
  {
    if configs[0].senderEmail != email {
      assert (configs + [c])[1..] == configs[1..] + [c];
      AppendKeepsFirstMatch(configs[1..], c, email);
    }
  }

  /* ---- sendBulkEmails ---- */

  /** A recipient as read back from a stored campaign; `dynamicFields` is
      `None` when the stored value is not a `Map`. */
  datatype StoredRecipient = StoredRecipient(
    recipientName: string,
    recipientEmail: string,
    dynamicFields: Option<Object>)

  datatype StoredMail = StoredMail(
    senderId: UserId,
    senderEmail: string,
    subject: string,
    body: string,
    recipientData: seq<StoredRecipient>)

  /** The `mailOptions` object handed to the transport. */
  datatype Envelope = Envelope(from: string, to: string, subject: string, html: string, text: string)

  /** The account a transport is opened with. */
  datatype Login = Login(user: string, pass: string)

  datatype Delivery = Sent | Failed

  /** One entry of the aggregated results. A task that settles carries
      its recipient's address; the entry made for a rejected task carries
      none (`None`) and counts as failed. */
  datatype RecipientResult = RecipientResult(recipientEmail: Option<string>, status: Delivery)

  datatype BulkReply =
    | MailNotFound
    | BulkError
    | BulkDone(results: seq<RecipientResult>, successful: nat, failed: nat)
  {
    function Code(): int {
      match this
      case MailNotFound => 400
      case BulkError => 500
      case BulkDone(_, _, _) => 200
    }
  }

  /** Recipient data that `String.prototype.replace` reads the way the
      model does: field names hold no RegExp metacharacter other than the
      braces around them (see `FieldPatternOf`), and no inserted text
      holds a `$` pattern. */
  predicate LiteralRecipient(r: StoredRecipient) {
    && '$' !in r.recipientName
    && '$' !in r.recipientEmail
    && (r.dynamicFields.Some? ==>
          forall i :: 0 <= i < |r.dynamicFields.value| ==>
            SafeKey(r.dynamicFields.value[i].0) && '$' !in Shown(r.dynamicFields.value[i].1))
  }

  predicate LiteralMail(m: StoredMail) {
    forall i :: 0 <= i < |m.recipientData| ==> LiteralRecipient(m.recipientData[i])
  }

  /* ---- How `new RegExp(`{{${fieldName}}}`, 'g')` reads a field name ---- */

  predicate IsDigit(c: char) {
    '0' <= c <= '9'
  }

  predicate AllDigits(s: string) {
    forall i :: 0 <= i < |s| ==> IsDigit(s[i])
  }

  /** The value of a string of decimal digits. */
  function DecimalValue(ds: string): nat
    requires AllDigits(ds)
  {
    if ds == [] then 0
    else 10 * DecimalValue(ds[..|ds| - 1]) + (ds[|ds| - 1] as int - '0' as int)
  }

  /** The pattern built for a field name. The braces are not escaped, so
      under the regular expression grammar of Annex B of ECMA-262 the
      second `{` together with `name + "}"` is a braced quantifier when
      the name is `n`, `n,` or `n,m` (decimal digits): it repeats the first
      `{`, and the pattern is a run of `{` whose length lies in the range,
      then one `}`. A range with n > m is a syntax error and the
      constructor throws. Any other name gives literal braces: the pattern
      matches `{{name}}` itself. */
  datatype FieldPattern = LiteralToken | BraceRun(lo: nat, hi: Option<nat>) | OutOfOrder

  /** The quantifier `{lo,hi}` for two digit strings (`hi` empty: no
      upper bound). */
  function QuantifierRange(lo: string, hi: string): FieldPattern
    requires AllDigits(lo) && AllDigits(hi)
  {
    if hi == [] then BraceRun(DecimalValue(lo), None)
    else if DecimalValue(lo) <= DecimalValue(hi) then BraceRun(DecimalValue(lo), Some(DecimalValue(hi)))
    else OutOfOrder
  }

  /** A name is read as a quantifier exactly when it is non-empty digits,
      or non-empty digits, a comma and possibly empty digits. */
  function FieldPatternOf(name: string): (p: FieldPattern)
    ensures name != [] && AllDigits(name) ==>
      p == BraceRun(DecimalValue(name), Some(DecimalValue(name)))
    ensures forall k :: 0 < k < |name| && name[k] == ',' && AllDigits(name[..k]) && AllDigits(name[k + 1..]) ==>
      p == QuantifierRange(name[..k], name[k + 1..])
    ensures p.LiteralToken? <==>
      && !(name != [] && AllDigits(name))
      && forall k :: 0 < k < |name| && name[k] == ',' ==> !(AllDigits(name[..k]) && AllDigits(name[k + 1..]))
  {
    var k := FirstIndex(name, ',');
    CommaPositions(name);
    if k == |name| then
      if name != [] && AllDigits(name) then BraceRun(DecimalValue(name), Some(DecimalValue(name)))
      else LiteralToken
    else if 0 < k && AllDigits(name[..k]) && AllDigits(name[k + 1..]) then
      QuantifierRange(name[..k], name[k + 1..])
    else LiteralToken
  }

  /** Only the first comma can split a name into two digit strings, and a
      digit string holds no comma. */
  lemma CommaPositions(name: string)
    ensures name != [] && AllDigits(name) ==> FirstIndex(name, ',') == |name|
    ensures forall k :: 0 <= k < |name| && name[k] == ',' && AllDigits(name[..k]) ==> FirstIndex(name, ',') == k
    ensures forall k :: 0 <= k < |name| && name[k] == ',' && k != FirstIndex(name, ',') ==> !AllDigits(name[..k])
  {
    var f := FirstIndex(name, ',');
    if name != [] && AllDigits(name) {
      assert ',' !in name by {
        forall i | 0 <= i < |name| ensures name[i] != ',' {
          assert IsDigit(name[i]);
        }
      }
    }
    forall k | 0 <= k < |name| && name[k] == ',' && AllDigits(name[..k])
      ensures FirstIndex(name, ',') == k
    {
      assert ',' !in name[..k] by {
        forall i | 0 <= i < k ensures name[..k][i] != ',' {
          assert IsDigit(name[..k][i]);
        }
      }
      FirstIndexUnique(name, ',', k);
    }
  }

  /** The `{`-run pattern matches at the start of `s` with `t` braces:
      a count in the range, that many `{`, then `}`. */
  predicate RunMatchesWith(s: string, lo: nat, hi: Option<nat>, t: nat) {
    && lo <= t && (hi.None? || t <= hi.value)
    && t < |s| && (forall k :: 0 <= k < t ==> s[k] == '{') && s[t] == '}'
  }

  /** The number of `{` at the start of `s`. */
  function LeadingBraces(s: string): (n: nat)
    ensures n <= |s|
    ensures forall k :: 0 <= k < n ==> s[k] == '{'
    ensures n < |s| ==> s[n] != '{'
  {
    if s != [] && s[0] == '{' then 1 + LeadingBraces(s[1..]) else 0
  }

  /** The length of the `{`-run match at the start of `s`, if there is
      one. The greedy quantifier takes as many `{` as the range allows;
      giving some back cannot help, as a `{` would then stand where the
      `}` must be. */
  function RunMatch(s: string, lo: nat, hi: Option<nat>): (r: Option<nat>)
    ensures r.Some? ==> 1 <= r.value && RunMatchesWith(s, lo, hi, r.value - 1)
    ensures r.None? ==> forall t :: !RunMatchesWith(s, lo, hi, t)
  {
    var c := LeadingBraces(s);
    var t := if hi.Some? && hi.value < c then hi.value else c;
    assert forall t': nat :: RunMatchesWith(s, lo, hi, t') ==> t' == c;
    if lo <= t && t < |s| && s[t] == '}' then Some(t + 1) else None
  }

  /** `s.replace(pattern, rep)` for a global `{`-run pattern: scanning
      left to right, every match is replaced and the scan resumes after
      it; a text without `}` has no match and is kept. */
  function ReplaceRuns(s: string, lo: nat, hi: Option<nat>, rep: string): (r: string)
    ensures '}' !in s ==> r == s
    decreases |s|
  {
    if s == [] then []
    else
      match RunMatch(s, lo, hi)
      case Some(n) => rep + ReplaceRuns(s[n..], lo, hi, rep)
      case None =>
        assert '}' !in s ==> '}' !in s[1..];
        assert s == [s[0]] + s[1..];
        [s[0]] + ReplaceRuns(s[1..], lo, hi, rep)
  }

  /** No `{` is directly followed by `}`. */
  predicate NoEmptyBraces(s: string) {
    forall k :: 0 <= k < |s| - 1 ==> !(s[k] == '{' && s[k + 1] == '}')
  }

  /** A run of at least one `{` must end right before its `}`, so a text
      with no `{}` in it is left alone by such a pattern. */
  lemma {:induction false} ReplaceRunsNeedsEmptyBraces(s: string, lo: nat, hi: Option<nat>, rep: string)
    requires 1 <= lo && NoEmptyBraces(s)
    ensures ReplaceRuns(s, lo, hi, rep) == s
    decreases |s|
  {
    if s != [] {
      forall t: nat ensures !RunMatchesWith(s, lo, hi, t) {
        if 1 <= t < |s| {
          assert !(s[t - 1] == '{' && s[t] == '}');
        }
      }
      assert RunMatch(s, lo, hi).None?;
      assert NoEmptyBraces(s[1..]) by {
        forall k | 0 <= k < |s[1..]| - 1 ensures !(s[1..][k] == '{' && s[1..][k + 1] == '}') {
          assert s[1..][k] == s[k + 1] && s[1..][k + 1] == s[k + 2];
        }
      }
      ReplaceRunsNeedsEmptyBraces(s[1..], lo, hi, rep);
      assert s == [s[0]] + s[1..];
    }
  }

  /* ---- Per-recipient rendering ---- */

  /** One field's step of the dynamic-field loop on one text: `None` when
      the field's RegExp cannot be built. The value is inserted as
      `String(value)` (no `|| ''` here). */
  function ReplaceField(s: string, name: string, value: JsValue): Option<string> {
    match FieldPatternOf(name)
    case OutOfOrder => None
    case LiteralToken => Some(ReplaceAll(s, TokenFor(name), Shown(value)))
    case BraceRun(lo, hi) => Some(ReplaceRuns(s, lo, hi, Shown(value)))
  }

  /** The dynamic-field loop as written, over the fields in map order. It
      fails exactly when some field's RegExp cannot be built. */
  function FillFields(s: string, fields: Object): (r: Option<string>)
    ensures r.None? <==> exists i :: 0 <= i < |fields| && FieldPatternOf(fields[i].0).OutOfOrder?
    decreases |fields|
  {
    if fields == [] then Some(s)
    else
      assert forall i :: 0 <= i < |fields[1..]| ==> fields[1..][i] == fields[i + 1];
      match ReplaceField(s, fields[0].0, fields[0].1)
      case None => None
      case Some(s') =>
        var r := FillFields(s', fields[1..]);
        assert r.None? ==> exists i :: 0 <= i < |fields| && FieldPatternOf(fields[i].0).OutOfOrder? by {
          if r.None? {
            var i :| 0 <= i < |fields[1..]| && FieldPatternOf(fields[1..][i].0).OutOfOrder?;
            assert FieldPatternOf(fields[i + 1].0).OutOfOrder?;
          }
        }
        r
  }

  /** The dynamic-field loop with the braces escaped, as `populateTemplate`
      builds its pattern: every field replaces its literal `{{field}}`. */
  function FillFieldsEscaped(s: string, fields: Object): string
    decreases |fields|
  {
    if fields == [] then s
    else FillFieldsEscaped(ReplaceAll(s, TokenFor(fields[0].0), Shown(fields[0].1)), fields[1..])
  }

  /** When every field name reads literally, the loop as written is the
      escaped loop. */
  lemma {:induction false} FillFieldsLiteralNames(s: string, fields: Object)
    requires forall i :: 0 <= i < |fields| ==> FieldPatternOf(fields[i].0).LiteralToken?
    ensures FillFields(s, fields) == Some(FillFieldsEscaped(s, fields))
    decreases |fields|
  {
    if fields != [] {
      assert FieldPatternOf(fields[0].0).LiteralToken?;
      assert forall i :: 0 <= i < |fields[1..]| ==> fields[1..][i] == fields[i + 1];
      FillFieldsLiteralNames(ReplaceAll(s, TokenFor(fields[0].0), Shown(fields[0].1)), fields[1..]);
    }
  }

  /** `{{name}}` then `{{email}}`. */
  function FillNamed(template: string, r: StoredRecipient): string {
    ReplaceAll(ReplaceAll(template, "{{name}}", r.recipientName), "{{email}}", r.recipientEmail)
  }

  /** Per-recipient rendering as written: `{{name}}`, then `{{email}}`,
      then the dynamic fields when they are a `Map`. `None` when building a
      field's RegExp throws, whatever the template. */
  function Render(template: string, r: StoredRecipient): (out: Option<string>)
    ensures out.None? <==>
      r.dynamicFields.Some? &&
      exists i :: 0 <= i < |r.dynamicFields.value| && FieldPatternOf(r.dynamicFields.value[i].0).OutOfOrder?
  {
    var named := FillNamed(template, r);
    if r.dynamicFields.Some? then FillFields(named, r.dynamicFields.value) else Some(named)
  }

  /** Rendering with the field braces escaped. */
  function RenderEscaped(template: string, r: StoredRecipient): string {
    var named := FillNamed(template, r);
    if r.dynamicFields.Some? then FillFieldsEscaped(named, r.dynamicFields.value) else named
  }

  /** The bindings the renderer applies, as a data object for
      `populateTemplate`. */
  function Bindings(r: StoredRecipient): Object {
    [("name", JsString(r.recipientName)), ("email", JsString(r.recipientEmail))]
      + (if r.dynamicFields.Some? then r.dynamicFields.value else [])
  }

  /** No dynamic value is falsy apart from the empty string, so that
      `value || ''` and `String(value)` agree. */
  predicate ShownAsInserted(r: StoredRecipient) {
    r.dynamicFields.Some? ==>
      forall i :: 0 <= i < |r.dynamicFields.value| ==>
        ReplacementText(r.dynamicFields.value[i].1) == Shown(r.dynamicFields.value[i].1)
  }

  /** With escaped braces the renderer is `populateTemplate` on the
      recipient's bindings, for every field name, as long as no dynamic
      value is falsy apart from the empty string. */
  lemma RenderEscapedIsPopulate(template: string, r: StoredRecipient)
    requires ShownAsInserted(r)
    ensures RenderEscaped(template, r) == PopulateText(template, Bindings(r))
  {
    var b := Bindings(r);
    var rest := if r.dynamicFields.Some? then r.dynamicFields.value else [];
    assert TokenFor("name") == "{{name}}" && TokenFor("email") == "{{email}}";
    assert ReplacementText(JsString(r.recipientName)) == r.recipientName;
    assert ReplacementText(JsString(r.recipientEmail)) == r.recipientEmail;
    assert b[1..] == [("email", JsString(r.recipientEmail))] + rest;
    assert b[1..][1..] == rest;
    var named := FillNamed(template, r);
    assert PopulateText(template, b) == PopulateText(named, rest);
    FillFieldsIsPopulate(named, rest);
  }

  /** The renderer as written agrees with `populateTemplate` when, in
      addition, every field name reads literally. `NumericFieldNotFilled`
      shows a digit name for which it does not. */
  lemma RenderIsPopulate(template: string, r: StoredRecipient)
    requires ShownAsInserted(r)
    requires r.dynamicFields.Some? ==>
      forall i :: 0 <= i < |r.dynamicFields.value| ==> FieldPatternOf(r.dynamicFields.value[i].0).LiteralToken?
    ensures Render(template, r) == Some(PopulateText(template, Bindings(r)))
  {
    if r.dynamicFields.Some? {
      FillFieldsLiteralNames(FillNamed(template, r), r.dynamicFields.value);
    }
    RenderEscapedIsPopulate(template, r);
  }

  /** The escaped field loop is `populateTemplate`'s substitution loop. */
  lemma {:induction false} FillFieldsIsPopulate(s: string, fields: Object)
    requires forall i :: 0 <= i < |fields| ==> ReplacementText(fields[i].1) == Shown(fields[i].1)
    ensures FillFieldsEscaped(s, fields) == PopulateText(s, fields)
    decreases |fields|
  {
    if fields != [] {
      assert ReplacementText(fields[0].1) == Shown(fields[0].1);
      assert forall i :: 0 <= i < |fields[1..]| ==> fields[1..][i] == fields[i + 1];
      FillFieldsIsPopulate(ReplaceAll(s, TokenFor(fields[0].0), Shown(fields[0].1)), fields[1..]);
    }
  }

  /** A field named `1` builds the pattern `{` once then `}`: it fills in
      `{}` and leaves its own placeholder `{{1}}` as it is, where the
      escaped loop (and `populateTemplate`) fill it in. */
  lemma NumericFieldNotFilled()
    ensures var r := StoredRecipient("n", "e", Some([("1", JsString("X"))]));
      && Render("{{1}}", r) == Some("{{1}}")
      && Render("{}", r) == Some("X")
      && RenderEscaped("{{1}}", r) == "X"
      && PopulateText("{{1}}", Bindings(r)) == "X"
  {
    var r := StoredRecipient("n", "e", Some([("1", JsString("X"))]));
    NumericTokenKept(r);
    EmptyBracesFilled(r);
    assert FillNamed("{{1}}", r) == "{{1}}";
    ReplaceAllWhole(TokenFor("1"), "X");
    RenderEscapedIsPopulate("{{1}}", r);
  }

  /** The name `1` is the quantifier `{1}`. */
  lemma DigitNameOne()
    ensures FieldPatternOf("1") == BraceRun(1, Some(1))
  {
    assert AllDigits("1") && DecimalValue("1") == 1;
  }

  lemma NumericTokenKept(r: StoredRecipient)
    requires r == StoredRecipient("n", "e", Some([("1", JsString("X"))]))
    ensures Render("{{1}}", r) == Some("{{1}}")
  {
    DigitNameOne();
    assert FillNamed("{{1}}", r) == "{{1}}";
    ReplaceRunsNeedsEmptyBraces("{{1}}", 1, Some(1), "X");
  }

  lemma EmptyBracesFilled(r: StoredRecipient)
    requires r == StoredRecipient("n", "e", Some([("1", JsString("X"))]))
    ensures Render("{}", r) == Some("X")
  {
    DigitNameOne();
    assert FillNamed("{}", r) == "{}";
    assert LeadingBraces("{}") == 1 by {
      assert "{}"[1..] == "}";
    }
    assert RunMatch("{}", 1, Some(1)) == Some(2);
    assert "{}"[2..] == [];
    assert ReplaceRuns("{}", 1, Some(1), "X") == "X";
  }

  /** A field named `2,1` is an out-of-order quantifier: building its
      pattern throws, so rendering fails for any template. */
  lemma OutOfOrderFieldRejects(template: string, name: string, email: string, v: JsValue)
    ensures FieldPatternOf("2,1") == OutOfOrder
    ensures Render(template, StoredRecipient(name, email, Some([("2,1", v)]))).None?
  {
    var n := "2,1";
    assert n[1] == ',' && n[..1] == "2" && n[2..] == "1";
    assert AllDigits("2") && DecimalValue("2") == 2;
    assert AllDigits("1") && DecimalValue("1") == 1;
    assert QuantifierRange("2", "1") == OutOfOrder;
  }

  /** The envelope built for one recipient, or `None` when rendering
      throws before it is built. */
  function EnvelopeFor(mail: StoredMail, r: StoredRecipient, htmlToText: string -> string): (e: Option<Envelope>)
    ensures e.None? <==> Render(mail.body, r).None?
    ensures e.Some? ==>
      && e.value.from == "\"No name\" <" + mail.senderEmail + ">"
      && e.value.to == r.recipientEmail
      && e.value.subject == mail.subject
      && Some(e.value.html) == Render(mail.body, r)
      && e.value.text == htmlToText(e.value.html)
  {
    match Render(mail.body, r)
    case None => None
    case Some(html) =>
      Some(Envelope("\"No name\" <" + mail.senderEmail + ">", r.recipientEmail, mail.subject, html, htmlToText(html)))
  }

  /** The subject line is rendered per recipient but the unrendered one is
      what goes into the envelope. */
  lemma SubjectSentUnrendered(htmlToText: string -> string)
    ensures var r := StoredRecipient("Ann", "a@x.com", None);
      var mail := StoredMail("u", "s@x.com", "{{name}}", "Dear {{name}}", [r]);
      && Render(mail.subject, r) == Some("Ann")
      && EnvelopeFor(mail, r, htmlToText).Some?
      && EnvelopeFor(mail, r, htmlToText).value.subject == "{{name}}"
  {
    ReplaceAllWhole("{{name}}", "Ann");
    assert ReplaceAll("Ann", "{{email}}", "a@x.com") == "Ann";
  }

  /** Which sender configuration a dispatch uses, and why it may stop. */
  datatype Resolution =
    | NoSenderConfigured
    | SenderNotFound
    | DecryptionFailed
    | Resolved(config: EmailConfig, password: string)

  /** The checks before any send: the owner must exist and have
      configurations, one must match the campaign's sender exactly (the
      first such is used) and its password must decrypt. */
  function ResolveSender(mail: StoredMail, users: map<UserId, User>, decrypt: Secret -> Option<string>)
    : (r: Resolution)
    ensures r.NoSenderConfigured? <==> mail.senderId !in users || users[mail.senderId].emailConfigs == []
    ensures r.SenderNotFound? <==>
      && mail.senderId in users && users[mail.senderId].emailConfigs != []
      && forall j :: 0 <= j < |users[mail.senderId].emailConfigs| ==>
           users[mail.senderId].emailConfigs[j].senderEmail != mail.senderEmail
    ensures !r.NoSenderConfigured? && !r.SenderNotFound? ==>
      var configs := users[mail.senderId].emailConfigs;
      exists i :: 0 <= i < |configs| && configs[i].senderEmail == mail.senderEmail
        && (forall j :: 0 <= j < i ==> configs[j].senderEmail != mail.senderEmail)
        && (r.DecryptionFailed? <==> decrypt(configs[i].encryptedAppPassword).None?)
        && (r.Resolved? ==> r.config == configs[i] && Some(r.password) == decrypt(configs[i].encryptedAppPassword))
  {
    if mail.senderId !in users || users[mail.senderId].emailConfigs == [] then NoSenderConfigured
    else
      var configs := users[mail.senderId].emailConfigs;
      match FindConfig(configs, mail.senderEmail)
      case None => SenderNotFound
      case Some(i) =>
        match decrypt(configs[i].encryptedAppPassword)
        case None => DecryptionFailed
        case Some(p) => Resolved(configs[i], p)
  }

  /** One recipient's unit of work: render, build the envelope, submit it
      through the shared transport and record the outcome. `transport`
      says whether the `i`-th submission is accepted. When rendering
      throws, the task rejects before anything is submitted, and the
      aggregation records a failure without an address. */
  function Attempt(mail: StoredMail, i: nat, login: Login, htmlToText: string -> string,
                   transport: (Login, nat, Envelope) -> bool): (res: RecipientResult)
    requires i < |mail.recipientData|
    ensures EnvelopeFor(mail, mail.recipientData[i], htmlToText).None? ==> res == RecipientResult(None, Failed)
    ensures EnvelopeFor(mail, mail.recipientData[i], htmlToText).Some? ==>
      && res.recipientEmail == Some(mail.recipientData[i].recipientEmail)
      && (res.status == Sent <==> transport(login, i, EnvelopeFor(mail, mail.recipientData[i], htmlToText).value))
  {
    var r := mail.recipientData[i];
    match EnvelopeFor(mail, r, htmlToText)
    case None => RecipientResult(None, Failed)
    case Some(e) => RecipientResult(Some(r.recipientEmail), if transport(login, i, e) then Sent else Failed)
  }

  /** Every settled outcome, one per recipient, in recipient order. */
  function Outcomes(mail: StoredMail, login: Login, htmlToText: string -> string,
                    transport: (Login, nat, Envelope) -> bool): (rs: seq<RecipientResult>)
    ensures |rs| == |mail.recipientData|
    ensures forall i :: 0 <= i < |rs| ==> rs[i] == Attempt(mail, i, login, htmlToText, transport)
  {
    seq(|mail.recipientData|, i requires 0 <= i < |mail.recipientData| =>
      Attempt(mail, i, login, htmlToText, transport))
  }

  predicate IsSent(r: RecipientResult) { r.status == Sent }
  predicate IsFailed(r: RecipientResult) { r.status == Failed }

  /** `sendBulkEmails`. The `Promise.allSettled` fan-out is the loop over
      the recipients; `transport` stands for `transporter.sendMail` on the
      transport opened with the resolved login. */
  method SendBulkEmails(mails: map<MailId, StoredMail>, users: map<UserId, User>, mailId: MailId,
                        decrypt: Secret -> Option<string>, htmlToText: string -> string,
                        transport: (Login, nat, Envelope) -> bool)
    returns (reply: BulkReply)
    requires mailId in mails ==> LiteralMail(mails[mailId])
    ensures reply.MailNotFound? <==> mailId !in mails
    ensures reply.BulkError? <==> mailId in mails && !ResolveSender(mails[mailId], users, decrypt).Resolved?
    ensures reply.BulkDone? ==>
      var mail := mails[mailId];
      var res := ResolveSender(mail, users, decrypt);
      && res.Resolved?
      && reply.results == Outcomes(mail, Login(mail.senderEmail, res.password), htmlToText, transport)
      && reply.successful == |Filter(reply.results, IsSent)|
      && reply.failed == |Filter(reply.results, IsFailed)|
      && reply.successful + reply.failed == |mail.recipientData|
  {
    if mailId !in mails {
      return MailNotFound;
    }
    var mail := mails[mailId];
    var res := ResolveSender(mail, users, decrypt);
    if !res.Resolved? {
      return BulkError;
    }
    var results := SendAll(mail, Login(mail.senderEmail, res.password), htmlToText, transport);
    reply := Summarize(results);
  }

  /** The fan-out: one attempt per recipient, in recipient order. */
  method SendAll(mail: StoredMail, login: Login, htmlToText: string -> string,
                 transport: (Login, nat, Envelope) -> bool)
    returns (results: seq<RecipientResult>)
    ensures |results| == |mail.recipientData|
    ensures forall i :: 0 <= i < |results| ==> results[i] == Attempt(mail, i, login, htmlToText, transport)
    ensures results == Outcomes(mail, login, htmlToText, transport)
  {
    var n := |mail.recipientData|;
    results := Tabulate(n, (i: nat) =>
      if i < n then Attempt(mail, i, login, htmlToText, transport) else RecipientResult(None, Failed));
    OutcomesPointwise(mail, login, htmlToText, transport, results);
  }

  /** A list with one settled outcome per recipient, in order, is `Outcomes`. */
  lemma OutcomesPointwise(mail: StoredMail, login: Login, htmlToText: string -> string,
                          transport: (Login, nat, Envelope) -> bool, results: seq<RecipientResult>)
    requires |results| == |mail.recipientData|
    requires forall i :: 0 <= i < |results| ==> results[i] == Attempt(mail, i, login, htmlToText, transport)
    ensures results == Outcomes(mail, login, htmlToText, transport)
  {
  }

  /** The 200 answer: the two counts, which together cover every result. */
  function Summarize(results: seq<RecipientResult>): (r: BulkReply)
    ensures r.BulkDone? && r.results == results
    ensures r.successful == |Filter(results, IsSent)| && r.failed == |Filter(results, IsFailed)|
    ensures r.successful + r.failed == |results|
  {
    SentFailedPartition(results);
    BulkDone(results, |Filter(results, IsSent)|, |Filter(results, IsFailed)|)
  }

  /** Every outcome is either sent or failed, so the two counts add up to
      the number of recipients. */
  lemma {:induction false} SentFailedPartition(rs: seq<RecipientResult>)
    ensures |Filter(rs, IsSent)| + |Filter(rs, IsFailed)| == |rs|
  {
    if rs != [] {
      SentFailedPartition(rs[1..]);
    }
  }

  /** One recipient's transport outcome never changes another's result:
      two transports that agree on submission `i` give the same result
      for recipient `i`. */
  lemma FailureIsolation(mail: StoredMail, login: Login, htmlToText: string -> string,
                         t1: (Login, nat, Envelope) -> bool, t2: (Login, nat, Envelope) -> bool, i: nat)
    requires i < |mail.recipientData|
    requires EnvelopeFor(mail, mail.recipientData[i], htmlToText).Some? ==>
      t1(login, i, EnvelopeFor(mail, mail.recipientData[i], htmlToText).value)
      == t2(login, i, EnvelopeFor(mail, mail.recipientData[i], htmlToText).value)
    ensures Outcomes(mail, login, htmlToText, t1)[i] == Outcomes(mail, login, htmlToText, t2)[i]
  {
  }

  /** Three recipients without dynamic fields whose second submission
      fails: two sent, one failed, and the first and third are sent
      regardless. */
  lemma MiddleFailureExample(mail: StoredMail, login: Login, htmlToText: string -> string)
    requires |mail.recipientData| == 3
    requires forall i :: 0 <= i < 3 ==> mail.recipientData[i].dynamicFields.None?
    ensures var rs := Outcomes(mail, login, htmlToText, (l: Login, i: nat, e: Envelope) => i != 1);
      && rs[0].status == Sent && rs[1].status == Failed && rs[2].status == Sent
      && |Filter(rs, IsSent)| == 2 && |Filter(rs, IsFailed)| == 1
  {
    var rs := Outcomes(mail, login, htmlToText, (l: Login, i: nat, e: Envelope) => i != 1);
    SentFailedSent(rs);
  }

  /** Sent, failed, sent: two sent and one failed. */
  lemma SentFailedSent(rs: seq<RecipientResult>)
    requires |rs| == 3 && rs[0].status == Sent && rs[1].status == Failed && rs[2].status == Sent
    ensures |Filter(rs, IsSent)| == 2 && |Filter(rs, IsFailed)| == 1
  {
    assert rs[1..][1..][1..] == [];
    assert Filter(rs[1..][1..], IsSent) == [rs[2]];
    assert Filter(rs[1..], IsSent) == [rs[2]];
    assert Filter(rs[1..][1..], IsFailed) == [];
    assert Filter(rs[1..], IsFailed) == [rs[1]];
  }

  /** Re-registering an address appends a second configuration, and a
      dispatch keeps using the first one's password. */
  lemma ReconfigurationIgnored(users: map<UserId, User>, userId: UserId, email: string,
                               p1: string, p2: string, encrypt: string -> Secret,
                               decrypt: Secret -> Option<string>, mail: StoredMail)
    requires userId in users && email != [] && p1 != [] && p2 != []
    requires FindConfig(users[userId].emailConfigs, email).None?
    requires decrypt(encrypt(p1)) == Some(p1)
    requires mail.senderId == userId && mail.senderEmail == email
    ensures var once := AddEmailConfig(users, userId, email, p1, encrypt).0;
      var twice := AddEmailConfig(once, userId, email, p2, encrypt).0;
      ResolveSender(mail, twice, decrypt) == Resolved(EmailConfig(email, encrypt(p1)), p1)
  {
    var cs := users[userId].emailConfigs;
    var once := AddEmailConfig(users, userId, email, p1, encrypt).0;
    var c1 := EmailConfig(email, encrypt(p1));
    assert once[userId].emailConfigs == cs + [c1];
    assert FindConfig(cs + [c1], email) == Some(|cs|) by {
      assert (cs + [c1])[|cs|] == c1;
    }
    var c2 := EmailConfig(email, encrypt(p2));
    AppendKeepsFirstMatch(cs + [c1], c2, email);
  }

  /* ---- Documents as the schemas read them back ---- */

  /** The users as `Users.findById` loads them through
      backend/models/users.js, the model the controller imports: its schema
      has no `emailConfigs` path, so a loaded user carries no
      configurations and `!user.emailConfigs` holds. */
  function LoadedThroughUsers(users: map<UserId, User>): (loaded: map<UserId, User>)
    ensures loaded.Keys == users.Keys
  {
    map u | u in users :: User([])
  }

  /** As loaded, no campaign finds a sender: `sendBulkEmails` answers 500
      for every stored campaign. */
  lemma UsersSchemaBlocksDispatch(mail: StoredMail, users: map<UserId, User>, decrypt: Secret -> Option<string>)
    ensures ResolveSender(mail, LoadedThroughUsers(users), decrypt) == NoSenderConfigured
  {
    var loaded := LoadedThroughUsers(users);
    assert mail.senderId in loaded ==> loaded[mail.senderId].emailConfigs == [];
  }

  /** `addEmailConfig` on a user loaded through backend/models/users.js:
      past the two checks, `user.emailConfigs.push` is a call on
      undefined, which throws, and the catch block answers 500. */
  function AddEmailConfigThroughUsers(users: map<UserId, User>, userId: UserId, senderEmail: string,
                                      appPassword: string): (code: int)
    ensures code == 400 <==> senderEmail == [] || appPassword == []
    ensures code == 404 <==> senderEmail != [] && appPassword != [] && userId !in users
    ensures code == 500 <==> senderEmail != [] && appPassword != [] && userId in users
  {
    if senderEmail == [] || appPassword == [] then 400
    else if userId !in LoadedThroughUsers(users) then 404
    else 500
  }

  /** Against the intended user schema (backend/models/User.js): the same
      answer for the two rejections, but 500 instead of 200 wherever the
      configuration would have been added. */
  lemma UsersSchemaBlocksConfig(users: map<UserId, User>, userId: UserId, senderEmail: string,
                                appPassword: string, encrypt: string -> Secret)
    ensures var intended := AddEmailConfig(users, userId, senderEmail, appPassword, encrypt).1;
      && (intended.ConfigAdded? ==> AddEmailConfigThroughUsers(users, userId, senderEmail, appPassword) == 500)
      && (!intended.ConfigAdded? ==>
            AddEmailConfigThroughUsers(users, userId, senderEmail, appPassword) == intended.Code())
  {
  }

  /** A row stored raw, read back through the recipient schema of
      backend/models/mails.js: the two named properties as strings, and
      for `dynamicFields` the schema's default empty `Map`, because the
      row has no such property and its other columns are not schema paths
      and are dropped. */
  function StoredFromRaw(row: Object): (r: StoredRecipient)
    ensures r.recipientName == Shown(Lookup(row, "recipientName"))
    ensures r.recipientEmail == Shown(Lookup(row, "recipientEmail"))
    ensures r.dynamicFields == Some([])
  {
    StoredRecipient(Shown(Lookup(row, "recipientName")), Shown(Lookup(row, "recipientEmail")), Some([]))
  }

  /** A processed row, as the controller builds it, read back through the
      same schema: its dynamic fields survive as the `Map`. */
  function StoredFromProcessed(p: ProcessedRecipient): (r: StoredRecipient)
    ensures r.recipientName == Shown(p.recipientName)
    ensures r.recipientEmail == Shown(p.recipientEmail)
    ensures r.dynamicFields == Some(p.dynamicFields)
  {
    StoredRecipient(Shown(p.recipientName), Shown(p.recipientEmail), Some(p.dynamicFields))
  }

  /** Stored raw, a row's extra columns never reach the body: only
      `{{name}}` and `{{email}}` are filled. */
  lemma RawColumnsNeverFilled(template: string, row: Object)
    ensures Render(template, StoredFromRaw(row)) == Some(FillNamed(template, StoredFromRaw(row)))
  {
  }

  /** Stored processed, the columns are the dynamic fields and the body
      is rendered as `populateTemplate` renders it with the row's
      bindings, when the column names read literally and no value is
      falsy apart from "". */
  lemma ProcessedColumnsFilled(template: string, row: Object)
    requires ShownAsInserted(StoredFromProcessed(SplitRecipient(row)))
    requires var fields := SplitRecipient(row).dynamicFields;
      forall i :: 0 <= i < |fields| ==> FieldPatternOf(fields[i].0).LiteralToken?
    ensures var r := StoredFromProcessed(SplitRecipient(row));
      && r.dynamicFields.Some?
      && (forall e :: e in r.dynamicFields.value <==> e in row && e.0 != "recipientName" && e.0 != "recipientEmail")
      && Render(template, r) == Some(PopulateText(template, Bindings(r)))
  {
    RenderIsPopulate(template, StoredFromProcessed(SplitRecipient(row)));
  }

  /** A `city` column and a `{{city}}` placeholder: stored raw, the
      placeholder goes out as it is; stored processed, it is filled. */
  lemma CityColumnExample()
    ensures var row := [("recipientName", JsString("Ann")), ("recipientEmail", JsString("a@x.com")),
                        ("city", JsString("Oslo"))];
      && Render("{{city}}", StoredFromRaw(row)) == Some("{{city}}")
      && Render("{{city}}", StoredFromProcessed(SplitRecipient(row))) == Some("Oslo")
  {
    var row := [("recipientName", JsString("Ann")), ("recipientEmail", JsString("a@x.com")),
                ("city", JsString("Oslo"))];
    CityTokenNotNamed(StoredFromRaw(row));
    CityRowSplit(row);
    var fields := [("city", JsString("Oslo"))];
    var r := StoredFromProcessed(SplitRecipient(row));
    assert r.dynamicFields == Some(fields);
    CityTokenNotNamed(r);
    CityFilled();
  }

  /** The one field `city` fills `{{city}}`. */
  lemma CityFilled()
    ensures FillFields("{{city}}", [("city", JsString("Oslo"))]) == Some("Oslo")
  {
    var fields := [("city", JsString("Oslo"))];
    CityIsLiteral();
    ReplaceAllWhole(TokenFor("city"), "Oslo");
    assert ReplaceField("{{city}}", "city", JsString("Oslo")) == Some("Oslo");
    assert fields[1..] == [];
  }

  /** `{{name}}` and `{{email}}` leave `{{city}}` alone. */
  lemma CityTokenNotNamed(r: StoredRecipient)
    ensures FillNamed("{{city}}", r) == "{{city}}"
  {
    assert !OccursAt("{{city}}", "{{name}}", 0) by {
      assert "{{city}}"[2] != "{{name}}"[2];
    }
    ReplaceAllAbsent("{{city}}", "{{name}}", r.recipientName);
    ReplaceAllAbsent("{{city}}", "{{email}}", r.recipientEmail);
  }

  lemma CityIsLiteral()
    ensures FieldPatternOf("city") == LiteralToken
  {
    assert !IsDigit("city"[0]);
    assert ',' !in "city";
  }

  lemma CityRowSplit(row: Object)
    requires row == [("recipientName", JsString("Ann")), ("recipientEmail", JsString("a@x.com")),
                     ("city", JsString("Oslo"))]
    ensures SplitRecipient(row).dynamicFields == [("city", JsString("Oslo"))]
  {
    var keep := (e: (string, JsValue)) => e.0 != "recipientName" && e.0 != "recipientEmail";
    assert row[1..][1..] == [("city", JsString("Oslo"))];
    assert Filter(row[1..][1..], keep) == [("city", JsString("Oslo"))];
    assert Filter(row, keep) == [("city", JsString("Oslo"))];
  }

  /* ---- validateCSVData ---- */

  datatype CsvCheck = CsvCheck(
    templateVariables: seq<string>,
    csvHeaders: seq<string>,
    missingVariables: seq<string>,
    extraFields: seq<string>,
    isValid: bool)

  /** `CsvFailed` is the 500 answer given when `csvData` is absent. */
  datatype CsvReply = CsvFailed | CsvChecked(check: CsvCheck)
  {
    function Code(): int {
      match this
      case CsvFailed => 500
      case CsvChecked(_) => 200
    }
  }

  /** The missing variables are the template variables, in order and
      with their repetitions, that are neither a column nor `name` or
      `email`. */
  ghost predicate MissingAsFiltered(c: CsvCheck) {
    && (forall v :: v in c.missingVariables <==>
          v in c.templateVariables && v !in c.csvHeaders && v != "name" && v != "email")
    && Subsequence(c.missingVariables, c.templateVariables)
    && (forall v :: multiset(c.missingVariables)[v] ==
          if v !in c.csvHeaders && v != "name" && v != "email" then multiset(c.templateVariables)[v] else 0)
  }

  /** The extra fields are the columns, in order and with their
      repetitions, that no variable names and that are not
      `recipientName` or `recipientEmail`. */
  ghost predicate ExtraAsFiltered(c: CsvCheck) {
    && (forall h :: h in c.extraFields <==>
          h in c.csvHeaders && h !in c.templateVariables && h != "recipientName" && h != "recipientEmail")
    && Subsequence(c.extraFields, c.csvHeaders)
    && (forall h :: multiset(c.extraFields)[h] ==
          if h !in c.templateVariables && h != "recipientName" && h != "recipientEmail"
          then multiset(c.csvHeaders)[h] else 0)
  }

  /** Valid exactly when nothing is missing, that is when every variable
      other than `name` and `email` is a column. */
  ghost predicate ValidityAsMissing(c: CsvCheck) {
    && (c.isValid <==> c.missingVariables == [])
    && (c.isValid <==> forall v :: v in c.templateVariables && v != "name" && v != "email" ==> v in c.csvHeaders)
  }

  /** The comparison of the variables with the columns. */
  function CompareColumns(vars: seq<string>, headers: seq<string>): (c: CsvCheck)
    ensures c.templateVariables == vars && c.csvHeaders == headers
    ensures MissingAsFiltered(c)
    ensures ExtraAsFiltered(c)
    ensures ValidityAsMissing(c)
  {
    var keepMissing := v => v !in headers && v != "name" && v != "email";
    var keepExtra := h => h !in vars && h != "recipientName" && h != "recipientEmail";
    var missing := Filter(vars, keepMissing);
    var extra := Filter(headers, keepExtra);
    assert forall v :: keepMissing(v) == (v !in headers && v != "name" && v != "email");
    assert forall h :: keepExtra(h) == (h !in vars && h != "recipientName" && h != "recipientEmail");
    assert missing != [] ==> missing[0] in missing;
    CsvCheck(vars, headers, missing, extra, missing == [])
  }

  /** `validateCSVData`: compares the placeholders of subject and body
      with the columns of the first row. `name` and `email` are always
      available; `recipientName` and `recipientEmail` are never extra. */
  function ValidateCsvData(subject: TemplateArg, body: TemplateArg, csvData: Option<seq<Object>>)
    : (r: CsvReply)
    ensures r.CsvFailed? <==> csvData.None?
    ensures r.CsvChecked? ==>
      && r.check.templateVariables == ExtractVariables(subject) + ExtractVariables(body)
      && r.check.csvHeaders == (if csvData.value == [] then [] else Keys(csvData.value[0]))
      && MissingAsFiltered(r.check)
      && ExtraAsFiltered(r.check)
      && ValidityAsMissing(r.check)
  {
    if csvData.None? then CsvFailed
    else
      var vars := ExtractVariables(subject) + ExtractVariables(body);
      var headers := if csvData.value == [] then [] else Keys(csvData.value[0]);
      CsvChecked(CompareColumns(vars, headers))
  }

  /** `validateCSVData` as the file stands: the helper it calls is neither
      defined nor imported in the controller, so the call throws and the
      catch block answers 500 for every request. */
  function ValidateCsvDataAsWritten(subject: TemplateArg, body: TemplateArg, csvData: Option<seq<Object>>)
    : (r: CsvReply)
    ensures r.Code() == 500
  {
    CsvFailed
  }

  /** A well-formed request that the corrected check accepts (no
      placeholders, one row) is answered 500 as written. */
  lemma MissingHelperRejectsValidRequest()
    ensures ValidateCsvDataAsWritten(Text("Hi"), Text("Hello"), Some([[("recipientEmail", JsString("a@x.com"))]])).CsvFailed?
    ensures ValidateCsvData(Text("Hi"), Text("Hello"), Some([[("recipientEmail", JsString("a@x.com"))]])).CsvChecked?
    ensures ValidateCsvData(Text("Hi"), Text("Hello"), Some([[("recipientEmail", JsString("a@x.com"))]])).check.isValid
  {
    NoPlaceholders("Hi");
    NoPlaceholders("Hello");
  }

  /** A text without `{` has no placeholders. */
  lemma NoPlaceholders(s: string)
    requires '{' !in s
    ensures ExtractVariables(Text(s)) == []
  {
    NoCaptures(s, 0);
    assert Candidates([]) == [];
    var r := ExtractVariables(Text(s));
    assert forall v :: v !in r;
  }

  lemma {:induction false} NoCaptures(s: string, i: nat)
    requires i <= |s| && '{' !in s
    ensures Captures(s, i) == []
    decreases |s| - i
  {
    if i < |s| {
      assert s[i] in s;
      assert MatchAt(s, i).None?;
      NoCaptures(s, i + 1);
    }
  }
}
