# Email_Sender backend core in Dafny

This project models the decision logic of the Email_Sender backend. That backend is an Express/Mongoose service. A user stores a campaign: a subject and an HTML body with `{{placeholder}}` tokens, plus a list of recipients. The service then sends one personalised message per recipient through the user's SMTP account. It also keeps reusable templates per user. The model covers four parts.

- **Template utilities** (`template_utils.dfy`, module `TemplateUtils`):
  - placeholder extraction with the `/\{\{([^}]+)\}\}/g` scan, then trimming and first-occurrence de-duplication;
  - sequential literal substitution of a data object, in key order;
  - the check that a data object covers every placeholder.
- **Campaign controller** (`email_controller.dfy`, module `EmailController`):
  - `createEmail`'s guard and recipient split;
  - `sendBulkEmails`: choosing the sender configuration, per-recipient rendering, building the envelope, and counting sent/failed results;
  - the CSV-versus-template comparison;
  - `addEmailConfig`, which appends a configuration.
- **Server** (`server.dfy`, module `Server`):
  - the allowed-origin list built from `FRONTEND_URL`;
  - the CORS origin decision;
  - the global error handler's ordered classification.
- **Template controller** (`template_controller.dfy`, module `TemplateController`): an owner-scoped template store, held as a map from id to template, with save, list, get, list-by-category, delete and update.

Supporting modules:
- `js.dfy` (`Js`) holds JavaScript values with their truthiness and `String(v)` text, and objects as ordered entry lists.
- `strings.dfy` (`Strings`) holds `trim`, `includes`, `split`, `join` and global literal `replace`. It proves that replacement is split-then-join.
- `lists.dfy` (`Lists`) holds duplicate-freedom, first-occurrence order, subsequences and `Array.prototype.filter`.

How the model represents the source:
- Database reads and writes are pure functions on a store (a `map`).
- Fresh ids and `Date.now()` are parameters.
- Decryption, HTML-to-text conversion and the SMTP transport are function parameters. The transport gets the login, the recipient's position and the envelope, and answers whether the send succeeded.
- `Promise.allSettled` over the recipients is a loop with one outcome per recipient.

Where the code and the documented design disagree, the model follows the code:
- The envelope's `subject` is the campaign's unrendered subject. The per-recipient rendered subject is computed but never used (`EnvelopeFor`, `SubjectSentUnrendered`).
- `addEmailConfig` appends a configuration rather than replacing one for the same address. A dispatch uses the first configuration whose address matches (`ReconfigurationIgnored`).
- A transport failure is caught inside each recipient's task, so it settles as "fulfilled" with status failed. A task rejects only when something throws before that `try`. That is either building a dynamic field's `RegExp` or the HTML-to-text conversion. The model covers the first: the aggregation then records a failure with no address (`Attempt`). The second is under "Left out".
- The dispatch builds each dynamic field's pattern from `{{name}}` without escaping the braces, where `populateTemplate` escapes them. Under the regular-expression grammar of Annex B of ECMA-262, a name of the form `n`, `n,` or `n,m` (decimal digits) turns the second `{` into a braced quantifier on the first. The pattern then matches a run of `{` followed by one `}`, not the placeholder. An out-of-order range such as `2,1` makes the constructor throw. The model follows the code (`FieldPatternOf`, `Render`, `NumericFieldNotFilled`, `OutOfOrderFieldRejects`). `RenderEscaped` is the escaped reading, and `RenderEscapedIsPopulate` proves it is `populateTemplate` for every field name.

## Model

| member | source | states |
|---|---|---|
| Strings.Trim | backend/utils/templateUtils.js:23 | `trim()` gives a contiguous infix of the input with only whitespace before and after it, itself without whitespace at either end; it is "" exactly for all-whitespace input and the identity on trimmed text |
| Strings.SplitJoin | backend/server.js:16 | joining the `split(',')` pieces with the separator gives back the original string |
| Strings.SplitPiecesFree | backend/server.js:16 | no piece produced by `split` contains the separator |
| Strings.ReplaceAllIsSplitJoin | backend/utils/templateUtils.js:48-49 | a global literal replace equals splitting at the pattern and joining with the replacement |
| Strings.ReplaceAllAbsent | backend/utils/templateUtils.js:48-49 | replacing a pattern that does not occur leaves the text unchanged |
| Lists.DedupStep | backend/utils/templateUtils.js:24-25 | "push if not yet included" keeps the result equal to the distinct elements in first-occurrence order |
| Lists.DedupUnique | backend/utils/templateUtils.js:22-27 | the first-occurrence description fixes the list exactly |
| Lists.Filter | backend/utils/templateUtils.js:65-67 | `filter` keeps the elements that satisfy the predicate, in their original order, each exactly as often as it occurs in the input, and no other element |
| Lists.SubsequenceNoDuplicates | backend/utils/templateUtils.js:65-67 | filtering a duplicate-free list gives a duplicate-free list |
| Js.Keys | backend/utils/templateUtils.js:63 | `Object.keys` lists the entry names, one per entry, in entry order |
| Js.Lookup | backend/controllers/emailController.js:37 | a property read gives the value of the first entry with that name, or undefined when no entry has it |
| TemplateUtils.MatchAt | backend/utils/templateUtils.js:17 | the pattern matches at i exactly when `{{`, a non-empty `}`-free run and `}}` follow; a reported match ends its capture there, and when none is reported there is no match at i |
| TemplateUtils.MatchEndsAtRunEnd | backend/utils/templateUtils.js:17 | `[^}]+` can only be followed by `}` where the run of non-`}` characters ends, so a match position has exactly one capture |
| TemplateUtils.Captures | backend/utils/templateUtils.js:17-22 | every capture of the exec loop is non-empty, `}`-free, and occurs in the template as `{{capture}}`; there is none exactly when the pattern matches nowhere from the start position on |
| TemplateUtils.CapturesFirstMatch | backend/utils/templateUtils.js:17-22 | the exec loop resumes after each match: the first match from a position on gives the first capture, and the scan goes on after its `}}` |
| TemplateUtils.TokenCaptured | backend/utils/templateUtils.js:17-25 | a `{{x}}` with no `{` before it is captured first, and its trimmed name, when not blank, is an extracted variable |
| TemplateUtils.Candidates | backend/utils/templateUtils.js:23-24 | the candidate names are exactly the non-empty trimmed captures |
| TemplateUtils.CollectNames | backend/utils/templateUtils.js:22-27 | the loop's result lists the candidate names without duplicates, in order of first occurrence |
| TemplateUtils.ExtractVariables | backend/utils/templateUtils.js:11-30 | non-strings and "" give []; otherwise the distinct trimmed non-empty captures in first-occurrence order; each is trimmed, non-empty and `}`-free |
| TemplateUtils.WhitespaceTokenDropped | backend/utils/templateUtils.js:23-24 | `{{  }}` is matched, but its blank name is dropped |
| TemplateUtils.PaddedPlaceholderExtracted | backend/utils/templateUtils.js:17-25 | `{{ a }}` is reported as the single variable `a` |
| TemplateUtils.PaddedPlaceholderKept | backend/utils/templateUtils.js:47-50 | key `a` does not replace `{{ a }}`, because substitution matches the untrimmed text |
| TemplateUtils.ReplacementText | backend/utils/templateUtils.js:49 | `value \|\| ''`: a truthy value is inserted as its string form and a falsy one as "" |
| TemplateUtils.PopulateTemplate | backend/utils/templateUtils.js:39-53 | a non-string or empty template is returned as is; a string stays a string; a template with no `{{key}}` for any data key is unchanged |
| TemplateUtils.PopulateUntouched | backend/utils/templateUtils.js:44-52 | text containing no data key's token passes through the loop unchanged |
| TemplateUtils.PopulateSnoc | backend/utils/templateUtils.js:47-50 | substitution is sequential: the last key is replaced in the text the earlier keys produced |
| TemplateUtils.ChainedSubstitution | backend/utils/templateUtils.js:47-50 | a value inserted for an earlier key can be substituted by a later key |
| TemplateUtils.FalsyValueErases | backend/utils/templateUtils.js:49 | a falsy value replaces its token with "" |
| TemplateUtils.ValidateTemplateData | backend/utils/templateUtils.js:61-75 | required = the extracted variables; null data gives no keys; missing = required minus keys, in order and without duplicates; isValid iff nothing is missing iff every required variable is available |
| EmailController.SplitRecipient | backend/controllers/emailController.js:36-43 | name and email are the row's properties; the dynamic fields are exactly the other entries, in row order |
| EmailController.ProcessRecipients | backend/controllers/emailController.js:36-44 | one processed entry per row, in the same order |
| EmailController.CreateEmail | backend/controllers/emailController.js:24-63 | 400 iff a required field is falsy, with the store untouched; otherwise the raw rows are stored under the fresh id and nothing else changes |
| EmailController.FindConfig | backend/controllers/emailController.js:99 | finds the first configuration whose address is exactly equal, or reports that none matches |
| EmailController.AddEmailConfig | backend/controllers/emailController.js:237-271 | 400 iff an address or password is empty; 404 iff the user is unknown; otherwise the encrypted configuration is appended, existing ones kept, and other users unchanged |
| EmailController.AppendKeepsFirstMatch | backend/controllers/emailController.js:99 | appending a configuration never changes which one is found first |
| EmailController.ReconfigurationIgnored | backend/controllers/emailController.js:99-107 | after an address is registered twice, a dispatch still decrypts the first password |
| EmailController.FieldPatternOf | backend/controllers/emailController.js:127 | the unescaped `{{name}}` pattern: digits `n` read as the quantifier `{n}`, `n,m` and `n,` as that range, an out-of-order range as a constructor error, and the name is a literal token exactly when neither form applies |
| EmailController.RunMatch | backend/controllers/emailController.js:127-129 | a quantifier pattern matches at the start of a text only with a count of `{` inside the range followed by `}`, and when none is reported no count fits |
| EmailController.ReplaceRunsNeedsEmptyBraces | backend/controllers/emailController.js:127-129 | a pattern of at least one `{` then `}` changes no text that lacks `{}`, so `{{1}}` is never replaced by the field `1` |
| EmailController.FillFields | backend/controllers/emailController.js:125-131 | the dynamic-field loop fails, rejecting the task, exactly when some field name builds an out-of-order quantifier |
| EmailController.FillFieldsLiteralNames | backend/controllers/emailController.js:125-131 | when every field name reads literally, the loop replaces each literal `{{field}}` in map order |
| EmailController.Render | backend/controllers/emailController.js:117-131 | rendering fails exactly when the recipient has dynamic fields and one of their names builds an out-of-order quantifier |
| EmailController.RenderEscapedIsPopulate | backend/controllers/emailController.js:117-131 | with the field braces escaped, rendering is `populateTemplate` on `name`, `email` and the dynamic fields, for every field name, unless a dynamic value is falsy and non-empty |
| EmailController.RenderIsPopulate | backend/controllers/emailController.js:117-131 | rendering as written fills `{{name}}`, then `{{email}}`, then the dynamic fields in map order, and agrees with `populateTemplate` when every field name reads literally and no dynamic value is falsy and non-empty |
| EmailController.FillFieldsIsPopulate | backend/controllers/emailController.js:125-131 | the dynamic-field loop with escaped braces is `populateTemplate`'s substitution when no value is falsy and non-empty |
| EmailController.NumericFieldNotFilled | backend/controllers/emailController.js:125-131 | a field named `1` leaves `{{1}}` as it is and fills `{}` instead, where `populateTemplate` fills `{{1}}` |
| EmailController.OutOfOrderFieldRejects | backend/controllers/emailController.js:127 | a field named `2,1` makes rendering fail whatever the template |
| EmailController.EnvelopeFor | backend/controllers/emailController.js:117-140 | no envelope exactly when rendering fails; otherwise from is `"No name" <sender>`, to is the recipient, the subject is unrendered, html is the rendered body, and text is its conversion |
| EmailController.SubjectSentUnrendered | backend/controllers/emailController.js:121-137 | the subject is rendered for a recipient, yet the envelope carries the template subject |
| EmailController.ResolveSender | backend/controllers/emailController.js:90-107 | fails when there is no user or no configs, or when no config's address matches; otherwise the first match is used, and the result depends on whether it decrypts |
| EmailController.Attempt | backend/controllers/emailController.js:114-171 | a recipient whose rendering fails is recorded as failed with no address; otherwise the outcome carries the recipient's address and is Sent iff the transport accepts that recipient's envelope |
| EmailController.Outcomes | backend/controllers/emailController.js:114-164 | one outcome per recipient, in recipient order |
| EmailController.SendBulkEmails | backend/controllers/emailController.js:76-191 | 400 iff the mail is missing; 500 iff no sender resolves; otherwise the results are the settled outcomes, one per recipient in recipient order, with the resolved login, and the sent and failed counts add up to the number of recipients |
| EmailController.SendAll | backend/controllers/emailController.js:114-164 | the fan-out's results are the settled outcomes: exactly one attempt per recipient, in recipient order, each with the given login |
| EmailController.Summarize | backend/controllers/emailController.js:174-181 | the 200 answer counts the sent and failed results, and the two counts add up to the number of results |
| EmailController.SentFailedPartition | backend/controllers/emailController.js:174-175 | the sent and failed counts partition the results |
| EmailController.FailureIsolation | backend/controllers/emailController.js:143-159 | a recipient's result depends only on the transport's answer for that recipient |
| EmailController.MiddleFailureExample | backend/controllers/emailController.js:143-175 | with three recipients where the second send fails: two sent, one failed, first and third sent |
| EmailController.CompareColumns | backend/controllers/emailController.js:207-225 | missing = the variables that are neither a column nor `name`/`email`, and extra = the columns no variable names other than `recipientName`/`recipientEmail`; both in order, with their multiplicities; isValid iff missing is empty iff every non-name/email variable is a column |
| EmailController.ValidateCsvData | backend/controllers/emailController.js:196-226 | 500 exactly when `csvData` is absent; otherwise variables = subject's then body's, headers = first row's keys or [], and missing, extra and isValid as `CompareColumns` states |
| EmailController.ValidateCsvDataAsWritten | backend/controllers/emailController.js:194-234 | as written, every request answers 500 |
| EmailController.MissingHelperRejectsValidRequest | backend/controllers/emailController.js:194-234 | a placeholder-free request with one row is valid under the corrected check, yet is answered 500 as written |
| EmailController.UsersSchemaBlocksDispatch | backend/controllers/emailController.js:93-97 | with users loaded through backend/models/users.js, no campaign finds a sender configuration |
| EmailController.AddEmailConfigThroughUsers | backend/controllers/emailController.js:242-279 | with users loaded through backend/models/users.js: 400 iff a field is empty, 404 iff the user is unknown, otherwise 500 |
| EmailController.UsersSchemaBlocksConfig | backend/controllers/emailController.js:237-279 | against the intended schema, the answer differs only where a configuration would be added: 500 instead of 200 |
| EmailController.StoredFromRaw | backend/controllers/emailController.js:46-56 | a raw row read back through the mails schema keeps its name and address and gets an empty dynamic-field map |
| EmailController.RawColumnsNeverFilled | backend/controllers/emailController.js:50 | stored raw, a row's extra columns never reach the body: only `{{name}}` and `{{email}}` are filled |
| EmailController.StoredFromProcessed | backend/controllers/emailController.js:36-43 | a processed row read back keeps its other columns as the dynamic-field map |
| EmailController.ProcessedColumnsFilled | backend/controllers/emailController.js:36-43 | stored processed, the dynamic fields are exactly the row's other columns and the body renders as `populateTemplate` with the row's bindings |
| EmailController.CityColumnExample | backend/controllers/emailController.js:36-56 | a `city` column leaves `{{city}}` unfilled when stored raw and fills it when stored processed |
| EmailController.NoPlaceholders | backend/utils/templateUtils.js:17-29 | a text without `{` yields no variables |
| Server.StripTrailingSlashes | backend/server.js:16 | removes exactly the maximal run of trailing `/` |
| Server.NormalizeOrigin | backend/server.js:16 | the entry is the trimmed piece cut before its trailing slashes, and does not itself end in `/` |
| Server.NormalizeStable | backend/server.js:16 | an already normalized entry is left unchanged |
| Server.AllowedOrigins | backend/server.js:15-17 | unset or empty: the three localhost fallbacks; otherwise one normalized entry per comma-free piece of the value |
| Server.CheckOrigin | backend/server.js:24-39 | no origin is allowed; otherwise allowed iff exactly in the list, and a rejection message contains "not allowed by CORS" |
| Server.Messages | backend/server.js:177 | exactly one detail message per validation error entry, in order |
| Server.HandleError | backend/server.js:152-215 | ordered classification: CORS message 403, ValidationError 400, token errors 401, database errors 500, otherwise the error's status or 500 |
| Server.RejectedOriginIs403 | backend/server.js:31-169 | every rejected origin reaches the client as 403, whatever the error's other fields |
| Server.TrailingSlashOriginRejected | backend/server.js:31-37 | origins are compared without normalization, so an origin with a trailing slash is rejected by its slash-free entry |
| TemplateController.SaveTemplate | backend/controllers/templateController.js:4-32 | 400 iff name, category, description or content is missing (subject optional), with the store unchanged; otherwise the fields are stored under the fresh id, created by the caller, and nothing else changes |
| TemplateController.GetTemplates | backend/controllers/templateController.js:43-55 | exactly the caller's templates |
| TemplateController.TemplateById | backend/controllers/templateController.js:64-81 | found iff the id exists and is owned by the caller; otherwise 404 |
| TemplateController.TemplatesByCategory | backend/controllers/templateController.js:93-110 | 404 iff the caller has no template in the category; otherwise exactly those templates |
| TemplateController.DeleteTemplate | backend/controllers/templateController.js:122-139 | removes the template iff the caller owns it; otherwise 404 with the store unchanged; no other entry changes |
| TemplateController.UpdateTemplate | backend/controllers/templateController.js:151-181 | 400 iff any of the five fields is missing; 404 iff not the caller's; otherwise overwrites the five fields, stamps updatedAt, keeps the owner, and changes no other entry |
| TemplateController.ByIdAgreesWithListing | backend/controllers/templateController.js:43-81 | lookup by id succeeds exactly for the ids in the caller's listing, with the same template |
| TemplateController.CategoryWithinListing | backend/controllers/templateController.js:43-110 | a category listing is part of the caller's listing |
| TemplateController.SaveThenList | backend/controllers/templateController.js:4-81 | a saved template is visible to its creator and invisible to others, whose listings do not change |
| TemplateController.DeleteThenNotFound | backend/controllers/templateController.js:64-139 | after a delete the owner's lookup gets 404 |
| TemplateController.ForeignTemplateUntouched | backend/controllers/templateController.js:122-175 | another user's template can be neither deleted nor updated |
| TemplateController.UpdateThenById | backend/controllers/templateController.js:64-181 | an update is what the next lookup returns, and no template changes owner |
| TemplateController.ListingUnchangedFor | backend/controllers/templateController.js:43-55 | a change confined to an id the user owns neither before nor after leaves that user's listing as it was |
| TemplateController.OtherUsersIsolated | backend/controllers/templateController.js:122-175 | a delete or update by one user leaves every other user's listing unchanged |

## Left out

- Encryption (backend/utils/encryptionUtils.js, AES-256-GCM with random key and IV) is left out. `decrypt` is a partial-function parameter and `encrypt` a total one.
- The SMTP transport (`createTransporter`, nodemailer) and `html-to-text`'s `convert` are left out; they are function parameters.
- EnvelopeFor: `convert` is a total function, so a conversion that throws (before the per-recipient `try`, rejecting the task) is not modelled.
- `Promise.allSettled` concurrency is left out; the recipients are handled one after another. That does not change the results, because each task catches its own failure.
- Regular-expression semantics beyond the braces around a dynamic field name are left out. Data keys and dynamic field names are interpolated into `RegExp` unescaped, and replacement strings interpret `$` patterns. `PopulateTemplate` and `SendBulkEmails` require keys with no other metacharacter and values without `$`. Within that, the dispatch's unescaped braces are modelled (`FieldPatternOf`) and replacement is literal.
- FieldPatternOf: quantifier bounds are unbounded integers; an engine's clamping of very large bounds is not modelled.
- PopulateTemplate: a non-object `data` (null or undefined) makes `Object.entries` throw. The model's `data` is always an object.
- CreateEmail: a truthy `recipientData` that is not an array makes `map` throw (500). The model's rows are always a list.
- Database failures are left out: every `catch` block that answers 500 on a rejected save or query. `SendBulkEmails` models only the 500 from its own thrown errors.
- Stored and new campaigns are separate types. `StoredFromRaw` and `StoredFromProcessed` give the read-back of one row, but `SendBulkEmails` takes the stored campaigns as given. Schema trimming and lower-casing, casting failures, and a column literally named `dynamicFields` are left out.
- Schemas differ from the controllers:
  - backend/models/users.js, which the campaign controller imports, declares no `emailConfigs`. As written, every dispatch answers 500 and every accepted `addEmailConfig` answers 500 (see "## Findings"). `ResolveSender` and `AddEmailConfig` follow backend/models/User.js, which declares them.
  - `createEmail` stores the raw rows, and the recipient schema of backend/models/mails.js drops their extra columns. As written, every stored recipient has an empty dynamic-field map (see "## Findings"). `StoredRecipient` allows any dynamic fields, as the processed rows would give.
  - backend/models/templates.js declares neither `category` nor `createdBy` and requires `subject`. The model follows the template controller's fields.
- `validateCSVData` is not exported, so it is unreachable through routes. `ValidateCsvData` models the comparison it evidently intends.
- Template listings are maps from id; the order of the database's results is left out. So are `populate("createdBy")` and Mongoose timestamps.
- Response bodies are left out beyond status, kind, message and details: CORS `allowedOrigins`/`help`, timestamps and stack traces.
- backend/routes/data.js (file upload and CSV parsing), the route wiring, authentication, the models, the frontend, the 404 route handler, the database connection and the process signal handlers are not part of this model.
- HandleError: `error.status` is an integer or absent. Non-numeric truthy statuses are left out.

## Findings

| source | as written | input that shows it | evidently intended | confidence | as-written member | corrected member |
|---|---|---|---|---|---|---|
| backend/controllers/emailController.js:199-202 | calls `extractVariablesFromTemplate`, which the controller neither defines nor imports, so every call throws and the catch block answers 500 | subject "Hi", body "Hello", one row `{recipientEmail: "a@x.com"}` | import the helper from backend/utils/templateUtils.js and answer 200 with the comparison | high (not executed) | EmailController.MissingHelperRejectsValidRequest | EmailController.ValidateCsvData |
| backend/controllers/emailController.js:3 | loads users through backend/models/users.js, whose schema has no `emailConfigs`; `user.emailConfigs` is undefined, so :95 throws (500) for every campaign and :260 throws (500) for every accepted configuration | any stored campaign; any `addEmailConfig` with both fields for an existing user | load users through backend/models/User.js, which declares `emailConfigs` | high (not executed) | EmailController.UsersSchemaBlocksDispatch, EmailController.UsersSchemaBlocksConfig | EmailController.ResolveSender, EmailController.AddEmailConfig |
| backend/controllers/emailController.js:50 | stores the raw `recipientData` instead of the `processedRecipientData` built at :36-44; the recipient schema drops the extra columns, so no dynamic field is ever filled | row `{recipientName: "Ann", recipientEmail: "a@x.com", city: "Oslo"}`, body `{{city}}` | store `processedRecipientData`, so the columns become the dynamic fields | high (not executed) | EmailController.RawColumnsNeverFilled, EmailController.CityColumnExample | EmailController.ProcessedColumnsFilled |
