# SaarthiX Profiling front end — a Dafny model of its core logic

SaarthiX Profiling is a React application. It collects a student's profile
and generates profile documents from templates. It runs a questionnaire
chatbot and shows a career report. It also offers an editor for the
generated HTML, with bold/italic/underline toggles and AI rewriting of a
selected passage. Most of it is user interface. The logic modelled here is
the set of pure string, sequence and record computations inside the
components, written as immutable datatypes and pure functions:

- `Walk`, `Tags` and `Editor`: the profile editor's selection engine
  (`ProfileDisplay.jsx`). A selection in the rendered text is located in
  the HTML by a walk that counts visible characters outside `<…>`. The
  span is widened to its enclosing tags. A format is then toggled, by
  wrapping the span or stripping the format's tags from the widened
  segment. An AI reply is normalised to the selection's word budget and
  spliced in place of the span.
- `ProfileForm`: the form record handling of the same component. This
  covers comma lists, cleaning before submission and checkbox updates.
- `TemplateDisplays`: phone and ordinal formatting, the cover letter's
  segmentation into header, salutation, body, closing and signature, and
  the derived fields of the designer portrait.
- `Report` and `Psychometric`: the report page's interest total, the
  roadmap split into three months, and the guard and payload of
  "enhance profile". Also the record prepared for the psychometric test:
  age, degree class and defaults. That code appears twice, in
  `ReportPage.jsx` and `SaarthiChatbot.jsx` (lines 367-417); the copies
  are identical and are modelled once.
- `Chatbot`: restoring and persisting the conversation, starting it,
  sending an answer and taking in the reply, the evaluation, and profile
  regeneration.
- `EnhancePage`: the enhancement run, the download outcome's
  classification into the error shown, accepting the enhanced text, and
  the preview.
- `TemplateCatalog`: the template list's filtering, ordering, display
  defaults, search, carousel scrolling and click routing. `Sorting` holds
  the generic insertion sort the ordering is proved against.
- `SavedProfiles`: the saved-profile cards' initials, degree row, name
  and created date.
- `ImageUpload`: the photo upload's checks and the record it submits.
- `Redirects`: the redirect URLs to the sibling applications, with the
  precedence of explicit arguments over stored values.
- `Strings`, `Seqs` and `Js` hold the shared models of JavaScript's
  string methods, sequence filtering, and truthiness and `||`.

Calls to the back end, `localStorage`, `Date`, `FileReader` and
`JSON.parse` are not executed by the model. Their outcomes are parameters
of the operations that use them, as datatypes that list every outcome the
code distinguishes.

## Model

| member | source | states |
|---|---|---|
| Walk.LocateSpan | frontend/src/components/ProfileDisplay.jsx:441-470 | the start offset is the first with exactly `k` visible characters before it, and the end offset is the first from there with `k + len` before it |
| Walk.SpanText | frontend/src/components/ProfileDisplay.jsx:441-470 | the HTML before, inside and after a located span shows exactly the plain text's first `k` characters, the selected `len` characters and the rest |
| Walk.SpanUnique | frontend/src/components/ProfileDisplay.jsx:441-470 | a visible range has exactly one span |
| Walk.TagIsInvisible | frontend/src/components/ProfileDisplay.jsx:441-454 | a complete tag adds no visible character and leaves the walk outside tags |
| Walk.WidenBackward | frontend/src/components/ProfileDisplay.jsx:474-490 | the segment starts at the nearest `<` within 200 characters that opens a tag not closed before the span, or at the span itself when there is none |
| Walk.BackWidenedUnique | frontend/src/components/ProfileDisplay.jsx:474-490 | the backward scan's result is fixed by the document |
| Walk.WidenForward | frontend/src/components/ProfileDisplay.jsx:492-513 | the segment ends just after the first `>` that follows the first closing tag within 200 characters bringing the tag count to zero, or at the span's end when there is none |
| Walk.ForwardWidenedUnique | frontend/src/components/ProfileDisplay.jsx:492-513 | the forward scan's result is fixed by the document |
| Editor.FindTextIndex | frontend/src/components/ProfileDisplay.jsx:407-427 | a case-insensitive occurrence is found at its first position; failing that, the first place whose suffix, with white-space runs collapsed, starts with the collapsed, trimmed selection; -1 exactly when there is neither |
| Editor.NormalizedMatchInWhole | frontend/src/components/ProfileDisplay.jsx:411-425 | a place that the position scan accepts is also found by the search in the collapsed, trimmed plain text, so the scan runs whenever it could succeed |
| Editor.NoNormalizedMatch | frontend/src/components/ProfileDisplay.jsx:411-425 | when the collapsed, trimmed plain text does not contain the target, no position of the plain text matches it |
| Strings.CollapseShift | frontend/src/components/ProfileDisplay.jsx:420 | collapsing the white space of a suffix gives the same text as collapsing the whole string from that position |
| Strings.CollapseFromSuffix | frontend/src/components/ProfileDisplay.jsx:412-420 | collapsing from a later position gives a suffix of collapsing from an earlier one |
| Editor.Lookup | frontend/src/components/ProfileDisplay.jsx:407-438 | the text found is a slice of the plain text, no longer than the selection |
| Editor.LookupFinds | frontend/src/components/ProfileDisplay.jsx:407-438 | the lookup fails exactly when the search gives -1, and then the selection is not in the text; a case-insensitive hit is found with the selection's own letters |
| Tags.TagTableWellFormed | frontend/src/components/ProfileDisplay.jsx:519-523 | each format's canonical and legacy tags are real opening/closing tag pairs |
| Tags.RemoveIsSubsequence | frontend/src/components/ProfileDisplay.jsx:545-553 | deleting every case-insensitive match of a tag only removes characters and keeps the rest in order |
| Tags.StripUndoesWrap | frontend/src/components/ProfileDisplay.jsx:541-563 | stripping a format's tags from markup-free text wrapped in that format's tags gives the text back |
| Editor.ToggleUnwrapKeepsOutside | frontend/src/components/ProfileDisplay.jsx:541-556 | unwrapping changes only the widened segment: the prefix and suffix are kept byte for byte and the document never grows |
| Editor.ToggleWrapKeepsOutside | frontend/src/components/ProfileDisplay.jsx:557-563 | wrapping puts the open tag, the found text and the close tag in place of the span and keeps everything outside it |
| Editor.ToggleWrapKeepsPlain | frontend/src/components/ProfileDisplay.jsx:557-563 | wrapping a located span leaves the visible text of the document unchanged |
| Editor.ReplaceKeepsSurroundingText | frontend/src/components/ProfileDisplay.jsx:698-700 | after replacing a span, the visible text is the old prefix, the new text's visible text, then the old suffix |
| Editor.FormattedAsUnique | frontend/src/components/ProfileDisplay.jsx:441-563 | the formatting edit is deterministic: span and segment are fixed by the document |
| Editor.ApplyFormatting | frontend/src/components/ProfileDisplay.jsx:398-572 | without a selection, range or document nothing happens; a selection not found gives the "Could not find selected text to format" error; an unknown format changes nothing; otherwise the result is the toggle at the located span and its widened segment |
| Editor.LastSentenceEnd | frontend/src/components/ProfileDisplay.jsx:617-621 | the position of the last `.`, `!` or `?`, with none after it, or -1 |
| Editor.CutAtSentence | frontend/src/components/ProfileDisplay.jsx:617-623 | the result is a prefix: the whole text when no terminator lies past 70% of its length, otherwise the text through its last terminator, which lies past 70% (the threshold compared exactly as `10·pos > 7·len`) |
| Editor.NormalizeAiText | frontend/src/components/ProfileDisplay.jsx:597-628 | with `O` selection words and `W` reply words, `10W <= 11O` keeps the trimmed reply; otherwise the first `O` words joined by single blanks, cut at a late sentence end, so the result is a prefix of those joined words, whole or ending in a terminator |
| Editor.NormalizeKeepsWordBudget | frontend/src/components/ProfileDisplay.jsx:604-628 | a shortened reply never has more words than the selection |
| Editor.ReportedCountIsInsertedCount | frontend/src/components/ProfileDisplay.jsx:604-625 | the word count the page computes for a shortened reply is the number of words of the text actually inserted, and at most the selection's |
| Editor.EnhanceMessage | frontend/src/components/ProfileDisplay.jsx:702-706 | "Text enhanced with AI!", followed for a shortened reply by the number of words inserted |
| Editor.ApplyEnhancement | frontend/src/components/ProfileDisplay.jsx:590-712 | the guards as for formatting; a failed or thrown reply gives its error; a selection not found gives "Could not find selected text to replace"; otherwise the located span is replaced by the normalised reply, with the success message of EnhanceMessage |
| Editor.SpliceKeepsOutside | frontend/src/components/ProfileDisplay.jsx:698-700 | the new text sits exactly between the span's ends, with all bytes outside kept |
| ProfileForm.NormalizeFormValue | frontend/src/components/ProfileDisplay.jsx:88-99 | arrays stay as they are; text of the six array fields becomes the list of its comma-separated pieces, trimmed, with the empty ones dropped, in order and each as often as it occurs; those items are non-empty and comma-free; anything else is unchanged |
| ProfileForm.CommaList | frontend/src/components/ProfileDisplay.jsx:92-97 | the items are the trimmed pieces of the text split at commas, in order, each non-empty piece kept as often as it occurs and the empty ones dropped |
| ProfileForm.CommaListEmptyIff | frontend/src/components/ProfileDisplay.jsx:92-97 | an array field's text gives an empty list exactly when it holds only white space and commas |
| ProfileForm.CleanFormData | frontend/src/components/ProfileDisplay.jsx:101-120 | every kept key was an input key; no kept value is undefined, null, blank text or an empty list; kept text is trimmed |
| ProfileForm.CleanFormDataKeeps | frontend/src/components/ProfileDisplay.jsx:101-120 | an entry is kept exactly when its value is meaningful; kept text is the trimmed text, or for an array field the comma list; other values pass unchanged |
| ProfileForm.CleanFormDataIdempotent | frontend/src/components/ProfileDisplay.jsx:101-120 | cleaning a cleaned record changes nothing |
| ProfileForm.HandleInputChange | frontend/src/components/ProfileDisplay.jsx:867-883 | the named field takes the checkbox state or the text; unchecking `hasInternship`/`hasExperience` also empties its details field; every other field is unchanged |
| TemplateDisplays.FormatPhone | frontend/src/components/TemplateDisplays.jsx:659-666 | empty stays empty; exactly ten digits become `(ddd) ddd-dddd` from those digits in order; anything else is unchanged |
| TemplateDisplays.FormatPhoneKeepsDigits | frontend/src/components/TemplateDisplays.jsx:659-666 | formatting keeps the digits and is idempotent |
| TemplateDisplays.OrdinalSuffix | frontend/src/components/TemplateDisplays.jsx:672-684 | the suffix is one of `st`, `nd`, `rd`, `th` |
| TemplateDisplays.OrdinalSuffixOfDays | frontend/src/components/TemplateDisplays.jsx:672-684 | for days of the month: `st` exactly on 1, 21 and 31, `nd` on 2 and 22, `rd` on 3 and 23, `th` otherwise |
| TemplateDisplays.Lines | frontend/src/components/TemplateDisplays.jsx:691 | the lines are the trimmed pieces of the text split at line breaks, in order, each non-empty one kept as often as it occurs and the blank ones dropped; every line is trimmed and non-empty |
| TemplateDisplays.SegmentCoverLetter | frontend/src/components/TemplateDisplays.jsx:699-704 | the company is the first line; the address is the second unless it starts with "dear" |
| TemplateDisplays.SalutationAndBodyStart | frontend/src/components/TemplateDisplays.jsx:706-712 | the salutation is the first "dear" line and the body starts after it; without one the body starts at 2 or 1 |
| TemplateDisplays.ClosingIsFirst | frontend/src/components/TemplateDisplays.jsx:714-721 | the closing is the first line from the body start holding "regards" or "sincerely"; without one there is no closing or signature |
| TemplateDisplays.SegmentBounds | frontend/src/components/TemplateDisplays.jsx:723-730 | the body runs from its start to the closing, or to the end; the signature is everything after the closing |
| TemplateDisplays.CoverLetterPartition | frontend/src/components/TemplateDisplays.jsx:723-730 | body, closing and signature together are exactly the lines from the body start |
| TemplateDisplays.BodyHasNoClosing | frontend/src/components/TemplateDisplays.jsx:714-730 | no body line holds a closing keyword |
| TemplateDisplays.NameParts | frontend/src/components/TemplateDisplays.jsx:868 | no name gives `Your Name`; otherwise the pieces of the name split at blanks, in order, each non-empty piece as often as it occurs and the empty ones dropped |
| TemplateDisplays.NamePartsOfWord | frontend/src/components/TemplateDisplays.jsx:868 | a single word is its own piece; a name of blanks has none |
| TemplateDisplays.DegreeLine | frontend/src/components/TemplateDisplays.jsx:872-874 | degree and branch joined by the separator, the degree alone, the branch alone, or "Creative Professional"; never empty |
| TemplateDisplays.ContactItemsOrdered | frontend/src/components/TemplateDisplays.jsx:883-888 | only non-empty values appear, in the order Phone, Email, LinkedIn, Location |
| TemplateDisplays.ContactItemsShown | frontend/src/components/TemplateDisplays.jsx:883-888 | each contact appears exactly when its value is present; the location is the institute, else the city |
| TemplateDisplays.PortfolioText | frontend/src/components/TemplateDisplays.jsx:889-896 | the present highlight and focus parts joined by `. `, or nothing |
| TemplateDisplays.Photo | frontend/src/components/TemplateDisplays.jsx:900-902 | a blank image falls back to the placeholder URL; any other is shown as given |
| Psychometric.YearsBetweenCountsAnniversaries | frontend/src/pages/ReportPage.jsx:195-198 | the year difference, less one before the birthday, is the one count of anniversaries reached |
| Psychometric.CalculateAge | frontend/src/pages/ReportPage.jsx:190-203 | the age is always positive; a missing or invalid date of birth gives 25 |
| Psychometric.CalculateAgeCountsBirthdays | frontend/src/pages/ReportPage.jsx:190-203 | a date of birth at least a year back gives the number of birthdays reached; a later one gives 25 |
| Psychometric.MapDegree | frontend/src/pages/ReportPage.jsx:206-222 | the result is one of the five options; an empty degree gives `B.Tech` |
| Psychometric.MapDegreeFirstRule | frontend/src/pages/ReportPage.jsx:206-222 | the lower-cased degree takes the option of the first rule whose keyword it contains, in the order B.Tech, BBA, B.Com, MBA, else `Other` |
| Psychometric.FirstRuleOptionSpec | frontend/src/pages/ReportPage.jsx:209-221 | the first matching rule wins, and `Other` comes exactly when no rule matches |
| Psychometric.PrepareTestProfile | frontend/src/pages/ReportPage.jsx:224-238 | the record always has a positive age, a degree option and non-empty text fields |
| Psychometric.PrepareEmptyProfile | frontend/src/pages/ReportPage.jsx:224-238 | an empty profile gets exactly the fixed defaults |
| Psychometric.PrepareKeepsSupplied | frontend/src/pages/ReportPage.jsx:224-238 | every supplied field is used, with branch before specialization and interests before goals |
| Report.TotalInterestScore | frontend/src/pages/ReportPage.jsx:257-260 | no interests give 100; otherwise the sum of the scores rounded to the nearest integer |
| Report.TotalOfWholeScores | frontend/src/pages/ReportPage.jsx:257-260 | whole-number scores total exactly their sum |
| Report.TotalOfNonNegativeScores | frontend/src/pages/ReportPage.jsx:257-260 | non-negative scores never total below 0 |
| Report.TotalOfNoScores | frontend/src/pages/ReportPage.jsx:257-260 | an empty interests object totals 0, a missing one 100 |
| Report.GroupEndSound | frontend/src/pages/ReportPage.jsx:280-281 | the lazy group `(.*?)` ends at the first place where the lookahead holds, with no line break before it |
| Report.GroupEndFails | frontend/src/pages/ReportPage.jsx:280-281 | the group has no end exactly when a line break comes before any place the lookahead holds |
| Report.MatchFromLeftmost | frontend/src/pages/ReportPage.jsx:280-282 | a month pattern's match is the group at its leftmost matching position |
| Report.MatchFromNone | frontend/src/pages/ReportPage.jsx:280-282 | a month pattern fails exactly when it matches at no position |
| Report.ParseRoadmapText | frontend/src/pages/ReportPage.jsx:272-296 | three months with the fixed titles, each description at most 150 characters |
| Report.RoadmapMonths | frontend/src/pages/ReportPage.jsx:263-298 | no roadmap gives nothing; a structured plan's months are returned as they are; any other value gives three parsed months |
| Report.ParsedDescriptionsFromText | frontend/src/pages/ReportPage.jsx:284-295 | every parsed description is a piece of the roadmap text |
| Report.RoadmapWithoutMonthsIsThirds | frontend/src/pages/ReportPage.jsx:289-295 | text without "month" is cut into trimmed thirds at `floor(n/3)` and twice that |
| Report.NoMatchWithoutMonth | frontend/src/pages/ReportPage.jsx:280-282 | no month pattern matches text that does not spell "month" |
| Report.StartEnhance | frontend/src/pages/ReportPage.jsx:144-160 | missing or empty answers refuse with a notice and no request; otherwise the payload carries the answers, a non-empty template id and the report data or `{}` |
| Report.EnhancePayloadPrecedence | frontend/src/pages/ReportPage.jsx:152-153 | the template id is the nested profile's type, else the outer type, else `professional`; the form data is the nested profile, else the record itself |
| Report.FinishEnhance | frontend/src/pages/ReportPage.jsx:162-177 | a successful reply with data shows "Profile enhanced successfully!" and opens the enhance page with that data; a failed reply shows its error, else "Failed to enhance profile"; a thrown call shows "Failed to enhance profile. Please try again." |
| Report.EnhanceNoticeTellsCause | frontend/src/pages/ReportPage.jsx:162-177 | every notice is non-empty, and a failure's own error is shown as sent unless it is one of the two defaults |
| Chatbot.RestoreOnMount | frontend/src/components/SaarthiChatbot.jsx:65-96 | restores exactly when a saved state and a non-empty message list are present, with `isComplete` coerced to a boolean; otherwise starts afresh, removing only an unparsable entry |
| Chatbot.Persist | frontend/src/components/SaarthiChatbot.jsx:99-117 | saves exactly when there is a conversation state and at least one message, and what it saves is restorable |
| Chatbot.PersistRestoreRoundTrip | frontend/src/components/SaarthiChatbot.jsx:65-117 | a saved conversation is restored on the next mount exactly as it was |
| Chatbot.StartChat | frontend/src/components/SaarthiChatbot.jsx:140-176 | a successful reply with data and questions gives stage 1, question 0, no answers and the welcome then the first question; a thrown call, or a successful reply without data (reading its questions throws), shows only the failure bubble; an unsuccessful reply or data without questions changes nothing |
| Chatbot.StartChatOutcome | frontend/src/components/SaarthiChatbot.jsx:140-176 | a reply flagged successful whose data does not lack the questions always starts the bubbles afresh, with the welcome or the failure; a state appears only from a reply with questions |
| Chatbot.SendMessage | frontend/src/components/SaarthiChatbot.jsx:178-186 | blank input, loading or no state ignore the send; otherwise exactly one user bubble with the trimmed text is added and the input cleared |
| Chatbot.SentTextIsTrimmed | frontend/src/components/SaarthiChatbot.jsx:179-181 | the sent text carries no surrounding white space |
| Chatbot.ReceiveReply | frontend/src/components/SaarthiChatbot.jsx:193-250 | loading ends and earlier bubbles are kept; a thrown request adds only the failure bubble; an unsuccessful or empty reply changes nothing else; a successful one takes the reply's conversation state; evaluation is asked for only by a completed reply; a duplicate warning comes only with a bot question as the last bubble |
| Chatbot.CompletedReplyEvaluates | frontend/src/components/SaarthiChatbot.jsx:196-209 | a completed reply marks the chat complete and starts the evaluation with the reply state's answers |
| Chatbot.EvaluationAnswers | frontend/src/components/SaarthiChatbot.jsx:253-255 | the evaluation runs only with a profile and some state, on the passed state's answers, else the current state's |
| Chatbot.CompletedReplyPassesGuard | frontend/src/components/SaarthiChatbot.jsx:201-209 | a completed reply evaluates the reply's state, or the state it was sent with when the reply has none, exactly as the evaluation's guard allows |
| Chatbot.NextQuestionAlwaysShown | frontend/src/components/SaarthiChatbot.jsx:210-233 | a further question is shown whenever the reply has a state or the question is not about interests and goals; a repeated interests-and-goals question is only logged |
| Chatbot.InterestsQuestionWithoutStateFails | frontend/src/components/SaarthiChatbot.jsx:197-240 | an interests-and-goals question in a reply without a conversation state reads `answers` of nothing and throws: the state is cleared and only the failure bubble is added |
| Chatbot.ExchangeAppendsOnly | frontend/src/components/SaarthiChatbot.jsx:178-250 | a send and its reply add one or two bubbles, the first the user's, and change no earlier one |
| Chatbot.FinishEvaluation | frontend/src/components/SaarthiChatbot.jsx:253-283 | a successful result is stored with the done bubble and handed over with the answers exactly when a callback exists; an unsuccessful one changes nothing; a thrown error adds the failure bubble; the conversation state is kept |
| Chatbot.StartRegenerate | frontend/src/components/SaarthiChatbot.jsx:313-329 | no callback does nothing; no answers give an error bubble and no call; otherwise the callback gets the answers and the evaluation |
| Chatbot.FinishRegenerate | frontend/src/components/SaarthiChatbot.jsx:331-351 | exactly one bubble is added and nothing else changes: the "regenerated" bubble on success, else the reply's error or the default, or the thrown message or its default |
| EnhancePage.RunEnhance | frontend/src/components/EnhanceProfilePage.jsx:25-52 | blank text sets only the error; success shows the reply's text; failure clears the text and shows the reply's error or "Failed to enhance profile", and a throw its message or the unexpected-error text |
| EnhancePage.Reject | frontend/src/components/EnhanceProfilePage.jsx:250-262 | rejecting clears the enhanced text and runs the enhancement again: with text the outcome does not depend on the earlier view; without text the old enhanced text is gone and only the error shows |
| EnhancePage.PreviewText | frontend/src/components/EnhanceProfilePage.jsx:265 | a non-empty enhanced text is shown; without one, the template text from the data |
| EnhancePage.PreviewAfterEnhance | frontend/src/components/EnhanceProfilePage.jsx:25-265 | after a successful run the preview is the reply; after a failed one it is the original text |
| EnhancePage.HandleDownload | frontend/src/components/EnhanceProfilePage.jsx:119-194 | no profile id gives its message; no response gives the connection message; a JSON body gives its message, error or default; another non-PDF body gives its text or "Server returned an error"; HTTP errors get their status message; any other error its message or the default |
| EnhancePage.DownloadedIff | frontend/src/components/EnhanceProfilePage.jsx:140-169 | the file is saved exactly when a response came whose content type is not JSON and is empty or mentions `pdf` |
| EnhancePage.JsonResponseMessage | frontend/src/components/EnhanceProfilePage.jsx:142-152 | a JSON response's error is its `message`, else its `error`, else the default; unparsable text is shown as it is |
| EnhancePage.StatusMessage | frontend/src/components/EnhanceProfilePage.jsx:173-184 | 401, 404 and 500 get their fixed messages |
| EnhancePage.OtherStatusReadBack | frontend/src/components/EnhanceProfilePage.jsx:181-184 | any other status without a body message is written in the generic message in decimal and reads back as itself |
| EnhancePage.AcceptProfile | frontend/src/components/EnhanceProfilePage.jsx:202-248 | needs a profile id and enhanced text; the parent gets the reloaded record with only `templateText` replaced; a failed reload gives its fixed message; a throw gives its message or the save-failed default |
| TemplateCatalog.LoadTemplates | frontend/src/components/TemplateSelection.jsx:55-63 | the deprecated templates never appear; every other template does, in order and as often as fetched |
| TemplateCatalog.LoadErrorMessage | frontend/src/components/TemplateSelection.jsx:69-73 | the first non-empty of the body's message, error and data, then the error's message, then the default; never empty |
| TemplateCatalog.Rank | frontend/src/components/TemplateSelection.jsx:103-104 | listed ids rank by their place in the order; unlisted ones rank after all |
| TemplateCatalog.LeIsTotalPreorder | frontend/src/components/TemplateSelection.jsx:102-111 | the comparator is total and transitive |
| TemplateCatalog.SortTemplates | frontend/src/components/TemplateSelection.jsx:102-111 | the sorted list is a permutation of the input, each template ordered by the comparator before the next |
| TemplateCatalog.SortTemplatesCorrect | frontend/src/components/TemplateSelection.jsx:102-111 | the sorted list is ordered by the comparator and is a permutation of the input |
| TemplateCatalog.SortedOrder | frontend/src/components/TemplateSelection.jsx:102-111 | listed templates come first, by their place in the order; unlisted ones follow, by name |
| TemplateCatalog.Resolve | frontend/src/components/TemplateSelection.jsx:113-121 | the name falls back to the id and the description to the default; a listed id takes the table's icon and colours; an unlisted one its own icon or the fallback, and the grey defaults |
| TemplateCatalog.ListedHaveStyles | frontend/src/components/TemplateSelection.jsx:7-30 | the icon table covers exactly the ordered ids |
| TemplateCatalog.ResolveAll | frontend/src/components/TemplateSelection.jsx:100-122 | the cards are the sorted templates, resolved one by one |
| TemplateCatalog.Search | frontend/src/components/TemplateSelection.jsx:124-131 | a blank query keeps all cards; otherwise exactly the cards whose lower-cased name or description contains the lower-cased query, in order and as often as they occur |
| TemplateCatalog.Scroll | frontend/src/components/TemplateSelection.jsx:133-141 | left moves 320 back, or to 0 when that would go below 0; right moves 320 on; no carousel changes nothing |
| TemplateCatalog.ScrollInverse | frontend/src/components/TemplateSelection.jsx:133-141 | right then left returns to the start; left then right does too when at least 320 in |
| TemplateCatalog.Click | frontend/src/components/TemplateSelection.jsx:144-154 | the clicked id is always selected; `cover` calls the cover-letter callback exactly when it exists and never the selection callback; any other id calls the selection callback, when it exists, with that id |
| SavedProfiles.InitialsAsWritten | frontend/src/pages/SavedProfiles.jsx:20-27 | at most two characters; a missing name gives `UN` |
| SavedProfiles.LeadingBlankInitials | frontend/src/pages/SavedProfiles.jsx:26 | the name " ann" gives initials " A" that start with a blank, where the corrected rule gives "AN" |
| SavedProfiles.Initials | frontend/src/pages/SavedProfiles.jsx:20-27 | one or two characters |
| SavedProfiles.InitialsFromName | frontend/src/pages/SavedProfiles.jsx:21-26 | the first visible letter upper-cased, then the first letter after the last blank, or the second letter of a single word; a blank name gives `UN` |
| SavedProfiles.InitialsStartVisible | frontend/src/pages/SavedProfiles.jsx:20-27 | the initials never start with white space |
| SavedProfiles.InitialsAgreeOnTrimmedNames | frontend/src/pages/SavedProfiles.jsx:20-27 | on names without surrounding white space the page's rule and the corrected one agree |
| SavedProfiles.DegreeRow | frontend/src/pages/SavedProfiles.jsx:73-75 | a row exists exactly when the degree or the branch is present; with a branch it is degree ` - ` branch, else the degree |
| SavedProfiles.DegreeRowReadBack | frontend/src/pages/SavedProfiles.jsx:73-75 | a degree without ` -` in it reads back from the row as the text before the first ` - `, and the branch as the text after |
| SavedProfiles.NameShown | frontend/src/pages/SavedProfiles.jsx:85 | a missing name shows `Unnamed Profile`; a present one is shown as it is |
| SavedProfiles.BlankAfterFirstComma | frontend/src/pages/SavedProfiles.jsx:17 | text without a comma is unchanged; otherwise exactly one blank is inserted, right after the first comma |
| SavedProfiles.BlankAfterFirstCommaInverse | frontend/src/pages/SavedProfiles.jsx:17 | the first comma stays where it was, and deleting the blank after it restores the text |
| SavedProfiles.CreatedShown | frontend/src/pages/SavedProfiles.jsx:10-18 | a missing date shows `N/A`; otherwise the locale text with a blank inserted after its first comma, which removing that blank gives back |
| ImageUpload.ImageChange | frontend/src/components/ImageUploadForm.jsx:8-26 | no file changes nothing; a non-image or a file over 5 MiB only sets its error; the preview is untouched |
| ImageUpload.ImageChangeSelects | frontend/src/components/ImageUploadForm.jsx:13-25 | a file is selected, with the error cleared, exactly when it is acceptable; a rejected file keeps the earlier selection |
| ImageUpload.SizeLimitInclusive | frontend/src/components/ImageUploadForm.jsx:19-22 | exactly 5 MiB is accepted and one byte more is not |
| ImageUpload.PreviewLoaded | frontend/src/components/ImageUploadForm.jsx:28-32 | the preview becomes the selected file's data URL |
| ImageUpload.SelectedIsLastAcceptable | frontend/src/components/ImageUploadForm.jsx:8-33 | after any run of choices the selected image is the last acceptable one, or the earlier selection |
| ImageUpload.SubmitForm | frontend/src/components/ImageUploadForm.jsx:35-49 | with no image the submit is refused with its error; otherwise the record is the profile data with only `profileImage` set to the image |
| ImageUpload.RejectedKeepsSubmission | frontend/src/components/ImageUploadForm.jsx:13-46 | a rejected file does not change what a later submit sends |
| Redirects.StripSlash | frontend/src/config/redirectUrls.js:17 | at most one trailing `/` is removed |
| Redirects.BaseUrl | frontend/src/config/redirectUrls.js:15-19 | no window or no configured base gives `""`; otherwise the configured base less one trailing `/` |
| Redirects.SomethingXUrl | frontend/src/config/redirectUrls.js:24-32 | without `/profiling` the base, or `/` when it is empty; with it, the base with its first `/profiling` (the one `indexOf` finds) cut out |
| Redirects.JobsUrl | frontend/src/config/redirectUrls.js:37-43 | without `/profiling` the base followed by `/jobs`; with it, the base with `/jobs` in place of its first `/profiling` |
| Redirects.ReplaceFirstAt | frontend/src/config/redirectUrls.js:28-40 | replacing a pattern first occurring at `k` keeps the text before `k`, puts the replacement in its place and keeps the text after it |
| Redirects.ProfilingSegmentReplaced | frontend/src/config/redirectUrls.js:24-43 | for the first occurrence of `/profiling` at any position `k`, the main path drops it and the jobs path puts `/jobs` there |
| Redirects.JobsBesideSomethingX | frontend/src/config/redirectUrls.js:24-43 | the jobs URL is the main URL with `/jobs` at the place of the first `/profiling`, or appended to the base |
| Redirects.FullPath | frontend/src/config/redirectUrls.js:55-58 | an empty route adds nothing; the base less its trailing `/` is always a prefix; a route with a leading `/` is the suffix |
| Redirects.RouteSlashOptional | frontend/src/config/redirectUrls.js:55-58 | a route without a leading `/` gets one |
| Redirects.QueryParamsPresent | frontend/src/config/redirectUrls.js:63-77 | a parameter is set exactly when its value is non-empty, and only the four known keys appear |
| Redirects.QueryParamsSetOnce | frontend/src/config/redirectUrls.js:63-77 | no key is set twice |
| Redirects.QueryParams | frontend/src/config/redirectUrls.js:63-77 | at most four parameters, and none exactly when the token and all the user's fields are empty; which ones are set is stated by QueryParamsPresent |
| Redirects.BuildRedirect | frontend/src/config/redirectUrls.js:55-77 | the path starts with the base less its trailing `/` and is just that for an empty route; the token is sent exactly when non-empty; only the four keys appear, never with an empty value |
| Redirects.ResolveUser | frontend/src/config/redirectUrls.js:91-93 | an explicit user wins; the stored user is read otherwise, and only a malformed one fails |
| Redirects.FallbackPathAsWritten | frontend/src/config/redirectUrls.js:104-106 | an empty route gives the main URL as it is; any other route is appended, with its leading `/`, after the whole main URL |
| Redirects.FallbackDoubleSlash | frontend/src/config/redirectUrls.js:104-106 | with base `/` the fallback turns `/about-us` into `//about-us`, where the regular path is `/about-us` |
| Redirects.FallbackExtraSlash | frontend/src/config/redirectUrls.js:55-106 | on every main URL ending in `/`, the fallback of a route holds `//` where the main URL ends and is the regular path with that one extra `/` |
| Redirects.FallbackPath | frontend/src/config/redirectUrls.js:104-106 | an empty route gives the main URL less its trailing `/` |
| Redirects.FallbackMatchesRegular | frontend/src/config/redirectUrls.js:55-106 | the corrected fallback path equals the regular path, and the page's fallback on any base without a trailing `/` |
| Redirects.RedirectToSomethingX | frontend/src/config/redirectUrls.js:88-108 | with a user, given or stored, the path is the route joined to the main URL; with no user given and a stored one that does not parse, the fallback path as written and no parameters |
| Redirects.RedirectDoubleSlash | frontend/src/config/redirectUrls.js:88-108 | served from the root with a stored user that does not parse, the redirect goes to `//about-us` where the regular path is `/about-us` |
| Redirects.RedirectToSomethingXCorrected | frontend/src/config/redirectUrls.js:88-108 | with the corrected fallback the path is always the route joined to the main URL, and otherwise the redirect is the one as written |
| Redirects.RedirectToJobs | frontend/src/config/redirectUrls.js:126-135 | fails exactly when no user is given and the stored one is malformed; otherwise the route joined to the jobs URL |
| Redirects.ExplicitArgumentsWin | frontend/src/config/redirectUrls.js:91-93 | an explicit token and user are used over the stored ones, for both applications |
| Redirects.StoredValuesUsed | frontend/src/config/redirectUrls.js:88-106 | without arguments the stored token and user are used and the path is the regular one; a malformed stored user gives no parameters |
| Sorting.SortByCorrect | frontend/src/components/TemplateSelection.jsx:102 | the sort orders its input by any total preorder and only reorders it |

## Left out

- Browser plumbing is not modelled: the network, `localStorage` and
  `sessionStorage`, timers, focus and scrolling, `FileReader`, PDF export,
  and `window.location`. Their outcomes are parameters.
- `new Date(dob)` and the date of today are parameters (`Psychometric.Date`).
  Time zones and date-string parsing are not modelled.
- `toLocaleDateString` is a parameter: the created date on a card and the
  cover letter's date are given as text.
- `localeCompare` is replaced by code-point order on names.
- Strings are sequences of characters, not UTF-16 code units.
  Upper/lower case is ASCII only, so a letter whose upper case is longer
  (ß) is not modelled.
- `textContent` decodes HTML entities; the model's plain text is the
  document with tags removed under the walk's own `<`/`>` rule.
- The selection's live range, toolbar geometry and clipboard are not
  modelled; a selection is its text and whether a range exists.
- The donut chart's geometry is not modelled.
- `handleSaveProfile`, `handleDownloadReport` and the psychometric test's
  redirect are left out: they are network calls with fixed messages.
- `isProduction` in `redirectUrls.js` is not modelled; nothing in the core
  reads it.
- A route that carries its own query string is not modelled, nor is the
  `URL` object's resolution and percent-encoding of parameters.
- The saved-profiles page reads `profileResponse.profile || profileResponse`
  before any of its fields. This unwrapping is not modelled; the card
  functions take the fields directly.
- Exceptions thrown by `localStorage.setItem` are not modelled; the
  persisted object is the payload the code writes.
- The designer portrait's summary paragraphs and follow text are not
  modelled; they are trim/filter and a fixed sentence.
- Report.TotalInterestScore: the scores are real numbers, not IEEE
  doubles, so rounding error in the sum is not modelled.
- TemplateCatalog.SortTemplates: the sort is an insertion sort, proved
  ordered and a permutation; that the browser's sort is stable is not
  stated.
- EnhancePage.StatusMessage: the body of an HTTP error is a parameter.
  With `responseType: 'blob'` it is a `Blob` in the browser, whose
  `message` and `error` are missing; the model allows any body.
- Chatbot.ReceiveReply: the bubble a further question adds is stated in
  NextQuestionAlwaysShown and InterestsQuestionWithoutStateFails, and the
  completed case in CompletedReplyEvaluates.
- Editor.CutAtSentence: the 70% threshold is compared exactly, as
  `10·pos > 7·len`. The page compares with the double `len * 0.7`, which
  at exact ties can fall just below `0.7·len` (90 × 0.7 is
  62.99999999999999). So a text of 90 characters whose last terminator is
  at 63 is cut by the page and kept whole by the model; the same holds at
  some other lengths that are multiples of 10 (170, 180, 330, …). Away from such
  ties the two agree. IEEE double rounding is not modelled.
- Editor.NormalizeAiText and Editor.ApplyEnhancement inherit the
  CutAtSentence threshold above. The 1.1 word-ratio test is compared
  exactly as `10·W <= 11·O`; `O * 1.1` rounds upward, so that test agrees
  with the page.
- TemplateCatalog.SortTemplates and TemplateCatalog.Search: a missing name
  or id is modelled as `""`. In the page, two unlisted templates
  without a name make `localeCompare` throw, and a template with neither a
  name nor an id makes the search's `toLowerCase` throw; the model sorts
  and searches such templates normally.
- Report.RoadmapMonths takes a roadmap that is a plan, text or nothing. A
  roadmap given as some other value, such as an array, reaches the parser
  as `String(value)`; the model takes that text as given.
- TemplateDisplays.Profile holds text fields only. A profile whose skills
  are an array, as the profile form produces, is not representable there.
- Editor.Lookup: the found text is stated as a slice of the plain text;
  that it equals the selection ignoring case is stated in LookupFinds.

## Findings

| source | as written | input that shows it | evidently intended | confidence | as-written member | corrected member |
|---|---|---|---|---|---|---|
| frontend/src/pages/SavedProfiles.jsx:26 | a single-word name's initials are the first two characters of the name before trimming | the name " ann" gives " A" | the first two characters of the trimmed name, "AN" | not executed | SavedProfiles.InitialsAsWritten | SavedProfiles.Initials |
| frontend/src/config/redirectUrls.js:104-106 | the error fallback joins the route to the main URL without removing its trailing `/` | a configured base of `/` with a stored user that does not parse turns the route `/about-us` into `//about-us`, a protocol-relative URL | the same path as the regular redirect, `/about-us` | not executed | Redirects.RedirectToSomethingX | Redirects.RedirectToSomethingXCorrected |

The first row is shown by `SavedProfiles.LeadingBlankInitials`. The
corrected rule is proved by `SavedProfiles.InitialsStartVisible` and
`SavedProfiles.InitialsFromName`. The second row is shown by
`Redirects.RedirectDoubleSlash` on the redirect as written, which uses
`Redirects.FallbackPathAsWritten`. The corrected redirect uses
`Redirects.FallbackPath`, proved equal to the regular path by
`Redirects.FallbackMatchesRegular`.
