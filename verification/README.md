# PulseSurvey core, modelled in Dafny

PulseSurvey is an internal employee survey tool. Administrators create surveys, invite employees by e-mail, and read analytics and exports. Employees sign in with a one-time link and submit one response per survey. The whole system is one HTTP server, `server.js`. It keeps a small database of seven flat tables: users, login tokens, surveys, questions, invitations, responses and answers.

This project models the state-changing parts of the request handlers as pure functions over an immutable `Db` value. It also models the two query functions, `surveyAnalytics` and `exportRows`, and the participation figure on the report page. Fresh identifiers, token texts, session ids and the clock are parameters. Where a lemma needs them to be fresh, freshness is a precondition of that lemma; the operations themselves do not require it.

Modules, one per file:

- `Wrappers`: `Option` and `Result`.
- `Seqs`: `Filter`, `Map`, `FindIndex` and `Find` (JavaScript's `filter`, `map`, `findIndex`, `find`), with lemmas about them.
- `Text`: JavaScript `trim`, ASCII `toLowerCase`, `split` and `join`, plus e-mail normalisation.
- `Store`: the entities, the `Db` record, the per-survey queries and the uniqueness invariants. The questions of a survey are sorted stably by position.
- `Identity`: `POST /login`, `GET /verify/{token}`, session lookup, logout, and the login and admin gates.
- `Authoring`: `POST /survey/new` and `POST /publish/{id}`.
- `Roster`: `POST /invite/{id}`, the bulk invite.
- `Intake`: `POST /survey/{id}`, a response submission.
- `Analytics`: `surveyAnalytics`, its frequency tables, and the participation line of the report page.
- `Export`: `exportRows` and the tab-separated table the export handler prints.
- `Lifecycle`: how a submission changes the analytics, the participation figure and the export.
- `Scenario`: the whole flow on concrete data, for one generic employee address:
  1. create a survey with a rating question and a text question
  2. invite one employee
  3. the employee answers
  4. read the report, the participation figure and the export

A handler's session lookup appears in the model as an `Option<User>` argument. `RequireLogin` and `RequireAdmin` turn it into `Unauthenticated` or `Forbidden`. The `Failure` datatype names the error pages the handlers send: `NotFound`, `InvalidOrExpiredToken` and `DuplicateSubmission`.

Only the `GET` view of a survey refuses an employee who holds no invitation (server.js:169-170). The `POST /survey/{id}` handler (server.js:179-188) records the submission whether or not an invitation exists. It looks an invitation up only to mark it completed, and only when one exists (server.js:186). `Intake.SubmitDoesNotRequireInvitation` states this.

## Model

| member | source | states |
|---|---|---|
| Store.QuestionsOf | server.js:54 | The survey's questions are exactly the stored questions with that survey id, each as often as it is stored, in ascending position order. |
| Store.SortByPosition | server.js:54 | The comparator sort returns a permutation of its input, ordered by position. |
| Store.SortIsStable | server.js:54 | Questions that share a position keep their storage order, as the stable `Array.prototype.sort` does. |
| Store.SortOfSortedIsIdentity | server.js:54 | Sorting questions that are already in position order changes nothing. |
| Text.Trim | server.js:92 | `trim` removes a run of JavaScript white space at each end and nothing else. The result neither starts nor ends with white space. |
| Text.TrimIdempotent | server.js:92 | Trimming twice gives the same text as trimming once. |
| Text.Lower | server.js:92 | `toLowerCase` keeps the length, turns each ASCII capital into the matching small letter, and changes no other character. |
| Text.NormalizeEmail | server.js:92 | The stored form of an address has no white space at either end and no ASCII capital: trimming or lower-casing it again changes nothing. |
| Text.NormalizeIdempotent | server.js:195 | An address that is already normalised is its own normal form, so the invite and login paths agree on the user key. |
| Text.Split | server.js:194 | The pieces of `split` contain no separator and join back, with the separator, to the input. |
| Text.SplitJoin | server.js:194 | Splitting the join of separator-free pieces gives back the pieces. |
| Text.Before | server.js:93 | `s.split(sep)[0]` is the longest prefix without the separator, and it is followed by the separator unless it is the whole text. |
| Identity.LoginName | server.js:93 | The recorded name is the trimmed name field if it is non-empty, else the address's local part, else "User". |
| Identity.Login | server.js:92-96 | The address is normalised. A user is added only if absent, and is an administrator iff the address ends in "@admin.local". One unused token expiring 600000 ms later is appended. Nothing else changes. |
| Identity.Redeem | server.js:102-106 | Redemption succeeds iff some stored token with this text is unused and unexpired. It marks the first such token used, binds the session to that token's address, and changes nothing else. Otherwise it fails with InvalidOrExpiredToken. |
| Identity.ResolveSession | server.js:41-46 | A session resolves to a stored user with the bound address. It resolves to nothing iff the cookie is absent, the session is unknown, or no user has that address. |
| Identity.Logout | server.js:110-112 | Logout removes exactly the given session and keeps every other binding. |
| Identity.RequireLogin | server.js:50 | The login gate passes exactly when there is a user, and otherwise fails Unauthenticated. |
| Identity.RequireAdmin | server.js:51 | The admin gate passes exactly for administrators. It fails Unauthenticated without a user and Forbidden for an employee. |
| Identity.LoginThenRedeem | server.js:92-106 | A token issued by a login can be redeemed before it expires, and the new session resolves to the normalised address. |
| Identity.RedeemIsOneTime | server.js:103-105 | With unique token texts, a token that was redeemed once is refused at any later time. |
| Identity.LoginKeepsUsersUnique | server.js:94 | Login never creates a second user with the same address. |
| Identity.LoginKeepsTokensUnique | server.js:95-96 | A fresh token text keeps token texts unique. |
| Identity.LogoutEndsSession | server.js:111 | After logout the session resolves to no user. |
| Authoring.NewQuestions | server.js:144 | One question per input item, in input order. Each takes the item's prompt, type and options, references the new survey, and has position i+1. |
| Authoring.CreateSurvey | server.js:139-144 | Only an administrator may create a survey. The result appends one unpublished survey, whose title is "undefined" when the title field is missing, then its questions. Unparsable question text yields no questions. No other table changes. |
| Authoring.CreatedSurveyHasItsQuestionsInOrder | server.js:142-144 | Under a fresh survey id, the new survey's question list is exactly the input items at positions 1..n. Every other survey's questions are unchanged. |
| Authoring.PublishSurvey | server.js:150 | Publishing an unknown id changes nothing. Otherwise a survey with that id becomes published, and no other survey or table changes. |
| Authoring.Publish | server.js:149-150 | Publishing is for administrators only. It fails Unauthenticated or Forbidden otherwise. |
| Authoring.PublishIdempotent | server.js:150 | Publishing twice has the same effect as publishing once. |
| Authoring.PublishNeverUnpublishes | server.js:150 | A published survey stays published. |
| Roster.RecipientLines | server.js:194 | Each recipient line is non-empty, already trimmed, and free of newlines. |
| Roster.RecipientLinesOfJoin | server.js:194 | Lines that are non-empty, trimmed and free of newlines, joined by newlines, come back from the parse as exactly those lines in order. |
| Roster.ParseRecipient | server.js:195 | The address of a parsed line is always normalised. |
| Roster.InviteOne | server.js:196-197 | After one line is processed, its address has a user and an invitation to the survey. |
| Roster.InviteAll | server.js:194-198 | The `forEach` over the recipient lines only appends users and invitations and changes nothing else. Afterwards every listed address has a user and an invitation to the survey. |
| Roster.Recipients | server.js:194-195 | The field yields one recipient per non-blank line, each with a normalised address. |
| Roster.Invite | server.js:192-198 | Inviting is for administrators only. Afterwards every listed address is invited to the survey. |
| Roster.InviteOneAppends | server.js:196-197 | One line only appends. Any new invitation is pending, with the line's id and name. Any new user is a non-administrator. |
| Roster.InviteAllGrows | server.js:194-198 | Processing the whole list keeps existing users and invitations untouched and appends only. |
| Roster.InviteAllOnlyAppends | server.js:194-198 | Every appended invitation and user comes from one of the listed recipients. Existing rows are untouched. |
| Roster.InviteAllCovers | server.js:194-198 | After processing the list, every recipient has a user and an invitation to the survey. |
| Roster.InviteAllNoOp | server.js:196-197 | When every recipient is already a user and already invited, nothing changes. |
| Roster.InviteOneKeepsInvitationsUnique | server.js:197 | One line keeps at most one invitation per (survey, address). |
| Roster.InviteOneKeepsUsersUnique | server.js:196 | One line keeps at most one user per address. |
| Roster.InviteAllKeepsUniqueness | server.js:194-198 | The whole list keeps both uniqueness invariants. |
| Roster.InviteAppendsNormalizedPending | server.js:192-198 | An accepted bulk invite keeps both invariants and appends only. New invitations are pending, unanswered, in the survey, with normalised addresses. New users are non-administrators with normalised addresses. |
| Roster.InviteIdempotent | server.js:194-198 | Repeating the same bulk invite, with any fresh ids at any time, changes nothing. |
| Roster.ParseRecipientWithName | server.js:195 | The line "email,name" yields that address and that name. |
| Roster.ParseRecipientDefaultName | server.js:195 | A bare address is named after its trimmed local part. |
| Roster.ParseRecipientEmptyName | server.js:195 | An empty name field also falls back to the local part. |
| Roster.ParseRecipientFields | server.js:195 | For any line, the address is the text before the first comma, trimmed and lower-cased. The name is the text up to the next comma, or the address's local part when that field is absent or empty, and it is trimmed either way. |
| Text.SplitAfterFirst | server.js:195 | When the separator occurs, `split` has a second piece, and that piece is the text after the first separator up to the next one. |
| Roster.OneAddressField | server.js:194 | A field holding one normalised address has exactly that line. |
| Roster.OneAddressRecipient | server.js:194-195 | A field holding one bare address yields one recipient, named after its local part. |
| Intake.FormValue | server.js:185 | A form field's value is the posted text, or the empty text when the field is missing. |
| Intake.NewAnswers | server.js:185 | Exactly one answer per question of the survey, in question order. Each answer carries its fresh id, the response id, the question id and the posted value. |
| Intake.CompleteInvitation | server.js:186 | When the survey has an invitation for the address, the first such invitation, and only that one, becomes completed with `respondedAt` set to the response time. This holds even when it was already completed. With no such invitation the list is unchanged. |
| Intake.Record | server.js:183-186 | An accepted submission appends the response, then one answer per question of the survey in position order holding the posted value. It completes the employee's invitation when one exists and changes nothing else. |
| Intake.Submit | server.js:155-186 | An unknown survey is NotFound; no user is Unauthenticated; an administrator changes nothing; a second response for the same (survey, address) is DuplicateSubmission. Otherwise one response and one answer per question are appended and the invitation completed, and nothing else changes. |
| Intake.SubmitTwiceIsDuplicate | server.js:181-184 | After an accepted submission, any further submission by the same employee is refused as a duplicate. |
| Intake.SubmitKeepsResponsesUnique | server.js:181-184 | Submissions keep at most one response per (survey, address). |
| Intake.SubmitCompletesInvitation | server.js:186 | The employee's invitation for the survey is completed at `now`. Every other invitation is unchanged. Invitations stay unique. |
| Intake.SubmitAnswersEveryQuestionOnce | server.js:183-185 | The answers under the fresh response id are exactly one per question, in position order, with the posted values. |
| Intake.SubmitDoesNotRequireInvitation | server.js:179-186 | An employee without an invitation can still submit. The invitations are left as they were. |
| Analytics.BumpCounts | server.js:59 | `c[v] = (c[v] or 0) + 1` adds one to the entry for v, and to the total. Other counts are unchanged. |
| Analytics.Bump | server.js:59 | One `c[v] = (c[v] or 0) + 1` step adds one to the count of v and no other count. The keys gain v and nothing else. |
| Analytics.BumpKeepsKeysDistinct | server.js:59 | Bumping keeps one entry per value. |
| Analytics.Tally | server.js:59 | The frequency table has one entry per distinct value. Each count equals the value's number of occurrences, and the counts sum to the number of values. |
| Analytics.TallySnoc | server.js:59 | Tallying one more value is one bump of the previous table. |
| Analytics.AnswerValues | server.js:57 | One value per counted answer, meaning an answer to the question whose response id belongs to one of the given responses. The values are in storage order, and a value occurs iff such an answer holds it. |
| Analytics.Summarize | server.js:57-61 | Rating, dropdown and multiple-choice questions get a frequency table whose counts sum to the number of counted answers. Any other type gets the list of counted values in storage order. |
| Analytics.SurveyAnalytics | server.js:53-64 | The count is the number of the survey's responses. There is one summary per question of the survey, each computed over those responses. |
| Analytics.AnalyticsCoversQuestions | server.js:54-56 | A question has a summary iff it belongs to the survey. |
| Analytics.AnalyticsInPositionOrder | server.js:54-56 | Summaries appear in ascending position order. |
| Analytics.SummaryOfOneMore | server.js:57-59 | One more counted value for a closed question adds one to the total and to that value's count, and leaves every other count alone. |
| Analytics.AnalyticsDependsOnAnswersAndResponses | server.js:53-64 | The report depends only on the questions, the answers and the survey's responses. |
| Analytics.AnalyticsIgnoresForeignAnswers | server.js:57 | Answers hanging off responses of other surveys never change the report. |
| Analytics.RoundedPercent | server.js:207 | The percentage is 0 without invitations. Otherwise it is the whole percent nearest completed/total, with halves rounded up. It lies in 0..100 and is 100 when all are completed. |
| Analytics.ParticipationOf | server.js:205-207 | The invited count is the number of the survey's invitations, and the completed count is the number of those whose status is completed. The completed count never exceeds the invited count. The percentage is the rounded quotient and lies in 0..100. |
| Export.AnswerText | server.js:71-72 | A cell holds the first stored answer of that response to that question, or the empty text when there is none. |
| Export.ExportRow | server.js:69-74 | A row is Name, Email and SubmittedAt from the response, then one cell per question, in the given order, headed by its prompt. |
| Export.ExportRows | server.js:66-76 | One row per response of the survey, in storage order, with the survey's questions in position order. |
| Export.Headers | server.js:225 | The header is the first row's column names, or Name, Email, SubmittedAt when there are no rows. |
| Export.Columns | server.js:225 | `Object.keys(row)` lists the row's column names in row order, and a name is listed exactly when some cell carries it. |
| Export.Lookup | server.js:226 | `String(r[h] or '')` is the value of the first cell in column h, or the empty text when the row has no such column. |
| Export.DataLine | server.js:226 | A data line holds the row's value under each header, or the empty text. |
| Export.TsvTable | server.js:225-226 | The table is the header line followed by one data line per row. |
| Export.Tsv | server.js:226 | The text the export sends joins cells with tabs and lines with newlines. When no cell holds a tab or a newline, splitting it on newlines and then tabs gives back the table. |
| Export.LookupOwnColumn | server.js:226 | In a row without repeated column names, looking up a column finds that column's own value. |
| Export.ExportRowColumns | server.js:69-72 | A row's columns are the fixed three followed by the prompts in question order. |
| Export.ExportColumns | server.js:67-75 | Every row of one survey has the same columns. |
| Export.ExportRowColumnsDistinct | server.js:69-72 | With distinct prompts that do not clash with the fixed names, a row never repeats a column. |
| Export.ExportLinesAreRowValues | server.js:224-226 | With such prompts, every data line is exactly its row's values: the header lookup neither loses nor moves a cell. |
| Export.LookupIsACell | server.js:226 | A looked-up value is one of the row's values, or empty. |
| Export.TsvParsesBack | server.js:226 | Splitting the printed text on newlines and tabs gives back the table, when no cell holds a tab or newline. |
| Export.ExportRowsTabFree | server.js:66-76 | A data set without tabs or newlines gives export rows without them, each with at least three cells. |
| Export.ExportTsvParsesBack | server.js:224-226 | For such a data set the printed export parses back to the exported table. |
| Lifecycle.SubmitResponses | server.js:183-184 | A submission adds its response to its own survey's responses and to no other. Every survey's questions are unchanged. |
| Lifecycle.StoredAnswersIgnoreFreshResponse | server.js:57 | Stored answers never count for a response whose id is fresh. |
| Lifecycle.NewAnswersCountOnce | server.js:57 | Among the new answers, exactly one counts for each question. |
| Lifecycle.OneMoreValue | server.js:57 | After the answers are appended, each question's counted values gain exactly the posted value at the end. |
| Lifecycle.SubmitFeedsAnalytics | server.js:180-186 | An accepted submission raises the report's count by one and keeps the question list. Each question's values gain the posted value. |
| Lifecycle.SubmitBumpsFrequencies | server.js:180-186 | For a closed question the frequency table gains one in total and one for the posted value. Every other count stays. |
| Lifecycle.SubmitLeavesOtherAnalytics | server.js:180-186 | A submission leaves every other survey's report unchanged. |
| Lifecycle.SubmitRaisesParticipation | server.js:186 | The invited count never changes. A pending invitation raises the completed count by one, and without an invitation the figure is unchanged. |
| Lifecycle.AnswerTextUnchanged | server.js:71 | Appending answers of other responses leaves a response's cells unchanged. |
| Lifecycle.FreshResponseAnswerText | server.js:71-72 | A new response's cell for each question holds the posted value. |
| Lifecycle.ExportRowUnchanged | server.js:69-74 | A stored response's export row is unchanged by answers to another response. |
| Lifecycle.ExportRowOfFreshResponse | server.js:69-74 | The new response's row carries the posted value under each prompt. |
| Lifecycle.StoredRowsUnchanged | server.js:69-74 | The rows of all earlier responses are unchanged by a submission's answers. |
| Lifecycle.SubmitAppendsExportRow | server.js:180-186 | An accepted submission keeps the earlier export rows and appends one row. That row has the employee's name, address and time, then the posted value under each prompt. |
| Scenario.CreateTwoQuestions | server.js:139-144 | The concrete survey is created unpublished, with its two questions at positions 1 and 2. |
| Scenario.InviteOneAddress | server.js:192-198 | Inviting one bare address adds that user, named after the trimmed local part of the address, and one pending invitation. The field names exactly one line. |
| Scenario.SubmitAnswers | server.js:180-186 | The employee's answers are recorded and the invitation is completed. |
| Scenario.ReportAfterAnswer | server.js:53-64 | The report counts one response, tallies the rating as {"4": 1}, and lists the comment ["good"]. |
| Scenario.ExportAfterAnswer | server.js:66-76 | The export has one row: name, address, time, then "4" and "good" under the two prompts. |
| Scenario.ParticipationAfterAnswer | server.js:205-207 | The participation is 1 of 1, 100%. |
| Scenario.Workflow | server.js:139-207 | For any bare, normalised address, each step's result is the next step's input. Creation yields the survey, the invite adds the employee, the submission records the answers and completes the invitation, and the report shows one response, {"4": 1}, ["good"] and 1 of 1 at 100%. |

## Left out

- HTTP transport and presentation are not modelled: routing, cookies, `readBody`, `send`, `redirect` and the HTML `layout`. A handler's inputs appear as parameters, and its error pages appear as `Failure` values.
- Persistence (`loadDB`, `saveDB`) and JSON are not modelled. The questions text is a parameter that is either a parsed list or a parse failure, and a failure gives no questions.
- Concurrent requests are not modelled. Each handler is modelled as one atomic step from the stored state to the next, but in the source it does not run atomically:
  - Each request loads the whole file (server.js:79), waits in `readBody` (server.js:49) for the body, then rewrites the whole file (server.js:97, 145, 187, 199).
  - Node serves other requests during that wait. When two mutating requests overlap, the later save overwrites the earlier one, so a login token, a created survey, an invitation or an accepted submission can be lost after its success response.
  - The duplicate check at server.js:181 runs before the wait at server.js:182. Two overlapping submissions by one employee therefore both pass it, both are redirected as accepted, and only the later one is stored. Intake.SubmitTwiceIsDuplicate and Intake.SubmitKeepsResponsesUnique hold only for submissions that do not overlap.
- `crypto.randomUUID`, `crypto.randomBytes` and `Date.now` are not modelled. Fresh ids, token texts, session ids, `now` and the ISO time text are parameters.
- The session table is an explicit map parameter rather than process-global state.
- Authoring.CreateSurvey: takes parsed items with a prompt, a type and options. It does not model JSON that parses to a non-array, which makes the handler throw, or items with missing fields.
- Intake.FormValue: takes the posted form as a map from field name to text. It does not model `querystring` turning a repeated field into an array.
- Text.Lower: changes only ASCII capitals. Unicode case mapping is not modelled.
- Analytics.RoundedPercent: computed in exact integer arithmetic as the nearest whole percent, halves up. The floating-point quotient before `Math.round` is not modelled.
- Analytics.Tally: the frequency table is a list of (value, count) pairs in first-seen order. JavaScript's enumeration of integer-like keys first does not affect counts and is not modelled.
- Analytics.Tally: a posted value that names an `Object.prototype` property (`__proto__`, `constructor`, `toString`, `valueOf`, `hasOwnProperty` and the like) is not counted as a number by the object at server.js:59. There `c[v]` starts from the inherited property, so the entry becomes a concatenated text, and for `__proto__` the assignment is dropped. The model counts such values like any other.
- Analytics.BumpCounts: for the same `Object.prototype` property names, the model adds one to a count where the JavaScript object does not.
- Analytics.Summarize: its frequency tables inherit the `Object.prototype` gap of Analytics.Tally. Its value lists are not affected.
- Export.ExportRow: a question whose prompt is `__proto__` loses its cell in JavaScript, because assigning a text to `row.__proto__` at server.js:72 is ignored. The model keeps that cell.
- Export.Headers: `Object.keys` (server.js:225) lists integer-like keys, such as a prompt "1" or "10", first and in ascending order, before Name, Email and SubmittedAt. The model keeps insertion order. So Export.Headers, Export.ExportLinesAreRowValues and Export.ExportTsvParsesBack describe the table the handler prints only when no prompt is an integer-like text.
- Export.ExportLinesAreRowValues: stated only for surveys whose prompts are distinct and differ from Name, Email and SubmittedAt. With a repeated prompt, JavaScript overwrites the earlier value under the first key. The model keeps an ordered cell list whose lookup finds the first cell.
- The MIME types, file names and report preambles of the xlsx, pdf and ppt exports (server.js:227-229) are not modelled. They only frame the same tab-separated text.
- The read-only views are not modelled: the dashboard, the survey `GET` page, including its invitation check, and `GET /my-report/{id}`. They change no state.
- The report page reads `survey.title` even for an unknown survey id and then fails. The model computes the participation figure for any id.
- Taking the survey id or token from the request path with `split('/')` is not modelled. The id is a parameter.
- The report and export reads (server.js:203, server.js:222) are admin-only. Analytics.ParticipationOf, Analytics.SurveyAnalytics and Export.ExportRows model what those handlers compute once `requireAdmin` has passed. They compose with Identity.RequireAdmin, which is modelled on its own, and do not take a user themselves.
