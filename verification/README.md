# cosinnus-message: direct replies, Rocket.Chat export and sync, in Dafny

This project models the decision logic of the `cosinnus_message` Django app of
WECHANGE/cosinnus and proves properties of it:

- **Direct replies by email** (`utils/utils.py`, and the older `utils.py`).
  A notification mail carries an address `directreply+<portal>+<hash>@…`. The
  pass walks the mailbox store. For each mail it decides whether to keep it
  for another portal, delete it silently, delete it and mail the sender a
  cause-specific error, or create the reply as the recipient of the original
  message. Before the reply is created, the quoted previous message is cut off
  the body.
  - `strings.dfy`: Python's `split`, `join`, `strip` and ASCII case folding.
  - `reply_text.dfy`: the token search and the quote cleaner.
  - `inbox.dfy`: the pass as a left fold of per-mail decisions.
  - `direct_reply.dfy` and `direct_reply_legacy.dfy`: the two variants' decisions and loops.
- **Rocket.Chat export** (`api/views.py`). This covers which postman messages
  open a channel and the rows of channels.csv. It also covers the message and
  upload rows of a channel in sending order. The body is rewritten from the
  WECHANGE markup to the Rocket.Chat markup by `format_message`.
  - `message_format.dfy` and `message_export.dfy`.
  - The exported rows use the rewrite as written, so every space of a body starts a new `- ` list line. The corrected rewrite is modelled and proved beside it; see Findings.
- **Rocket.Chat hooks** (`hooks.py`). These decide which remote calls a
  membership save, a user save, or a society or project save issues, and in
  which order.
  - `rocket_hooks.dfy`.
- **User sync** (`rocket_chat.py`). The remote users are indexed by username.
  Each active local user is then created, updated or left alone.
  - `rocket_sync.dfy`.
- **Message form** (`forms.py`). The constructor narrows the recipient choices
  by removing the current user's id from the group's member list in place.
  The recipient field is then validated.
  - `message_form.dfy`.

Remote systems appear in three ways. Rocket.Chat calls are recorded as values
in call order. Lookups whose answers the code reads are parameters: sender
extraction, reply form acceptance, `slugify` and the avatar URL. Database
tables are sequences in query order.

## Model

| member | source | states |
|---|---|---|
| Strings.SplitOn | cosinnus_message/utils/utils.py:145 | `split('\n')` always yields at least one piece, and no piece contains the separator |
| Strings.JoinSplit | cosinnus_message/utils/utils.py:177 | joining the pieces of a split with the same separator gives the original text back |
| Strings.SplitJoin | cosinnus_message/utils/utils.py:145 | splitting the join of separator-free pieces gives the pieces back |
| Strings.RStrip | cosinnus_message/utils/utils.py:173 | the stripped line is a prefix of the line, ends in a non-space, and only whitespace was removed |
| Strings.LowerAscii | cosinnus_message/utils.py:52 | lower-casing keeps the length and folds each character on its own |
| Strings.DecimalOfNatToString | cosinnus_message/api/views.py:64 | parsing `str(id)` back with `int` gives the id |
| Strings.JoinWithEmptyIff | cosinnus_message/api/views.py:56-58 | a join of non-empty ids is empty exactly when there are no ids |
| ReplyText.KeywordAtLowered | cosinnus_message/utils/utils.py:27 | the letter-by-letter keyword test holds exactly when the eleven characters lower-cased are `directreply` and a `+` follows |
| ReplyText.GroupIsFound | cosinnus_message/utils/utils.py:27 | a non-empty run of class characters followed by the stop character is the group the scan captures |
| ReplyText.FoundGroupIs | cosinnus_message/utils/utils.py:27 | a captured group is non-empty, made of class characters, and followed by the stop character |
| ReplyText.PatternAtIsMatch | cosinnus_message/utils/utils.py:27 | wherever `directreply+D+T@` stands (case-insensitive, D digits, T alphanumeric), the match there yields portal int(D) and hash T |
| ReplyText.MatchIsPatternAt | cosinnus_message/utils/utils.py:27 | every match is such an occurrence: it returns the digits and hash of a split the pattern allows, and the token is int(digits) and that hash |
| ReplyText.MatchAtIsPattern | cosinnus_message/utils/utils.py:27 | a match at a position yields a token exactly when the pattern occurs there with that portal and hash |
| ReplyText.ParseTokenLeftmost | cosinnus_message/utils/utils.py:70 | `search` returns the token of the leftmost occurrence, and none exactly when no position matches |
| ReplyText.SearchFromLeftmost | cosinnus_message/utils/utils.py:70 | the scan from a position with no earlier match finds the first matching position, or proves there is none |
| ReplyText.QuoteStart | cosinnus_message/utils/utils.py:149-152 | the lines the loop keeps are all lines before the first one starting with `>` |
| ReplyText.TrimTrailingIsPrefix | cosinnus_message/utils/utils.py:159-166 | dropping trailing blank lines leaves a prefix that is empty or ends in a non-blank line, and every dropped line is blank |
| ReplyText.TrimLeadingIsSuffix | cosinnus_message/utils/utils.py:168 | dropping leading blank lines leaves a suffix that is empty or starts with a non-blank line, and every dropped line is blank |
| ReplyText.TrimLeadingByReversal | cosinnus_message/utils/utils.py:168 | reversing, trimming trailing blanks and reversing back is exactly trimming leading blanks |
| ReplyText.TrimmedUnchanged | cosinnus_message/utils/utils.py:159-168 | lines already without blank edges are left as they are by both trims |
| ReplyText.TrimBothIsRun | cosinnus_message/utils/utils.py:159-168 | trimming blank lines at both ends leaves one contiguous slice of the lines whose edge lines are not blank, and every line dropped on either side is blank |
| ReplyText.DropPreambleIsPrefix | cosinnus_message/utils/utils.py:170-175 | dropping the preamble line leaves a prefix of the lines; what goes is blank lines and, only after a quote, a last line ending in `:` |
| ReplyText.CleanedIsRunBeforeQuote | cosinnus_message/utils/utils.py:145-176 | the cleaned lines are one contiguous run of the input lines, all before the first quote line; lines dropped before the run are blank, lines dropped after it are blank or, after a quote, end in `:` |
| ReplyText.CleanedHasNoQuote | cosinnus_message/utils/utils.py:148-152 | no cleaned line starts with `>` |
| ReplyText.CleanedHasNoBlankEdges | cosinnus_message/utils/utils.py:158-175 | the cleaned lines neither start nor end with a blank line |
| ReplyText.PreambleDroppedOnlyAfterQuote | cosinnus_message/utils/utils.py:170-175 | without a quote line the result is just the trimmed text; when a quote was cut and the trimmed text ends in a line ending in `:`, that line is dropped and the rest re-trimmed; in every other case the trimmed text is the result |
| ReplyText.QuoteOnlyCleansToEmpty | cosinnus_message/utils/utils.py:149-152 | a body starting with `>` cleans to the empty text |
| ReplyText.CleanTextIdempotent | cosinnus_message/utils/utils.py:141-178 | cleaning a cleaned text changes nothing |
| ReplyText.ColonLineWithoutQuote | cosinnus_message/utils/utils.py:154-156 | as written, the quote-free reply `Note:` is cleaned to nothing; with `had_reply` as intended, it is kept |
| ReplyText.RemoveEmptyTrailingLines | cosinnus_message/utils/utils.py:159-166 | the reversed-index deletion loop removes exactly the trailing blank lines |
| ReplyText.CleanReplyMessageQuotation | cosinnus_message/utils/utils.py:141-178 | the imperative routine computes the cleaned text of the body |
| Inbox.WithHash | cosinnus_message/utils/utils.py:103 | the postman lookup by hash finds exactly the messages with that hash |
| Inbox.ActiveWithEmail | cosinnus_message/utils/utils.py:116 | the user lookup finds exactly the active accounts whose email equals the sender's, ignoring ASCII case |
| Inbox.AbortIsFinal | cosinnus_message/utils/utils.py:115-116 | once an uncaught lookup exception ends the pass, later mails change nothing |
| Inbox.RunSnoc | cosinnus_message/utils/utils.py:69-134 | while the pass goes on, one more mail adds exactly that mail's step to the log |
| Inbox.AbortEndsPass | cosinnus_message/utils/utils.py:115-116 | a mail whose lookup raises ends the pass, marked as cut short, with what was collected before it |
| Inbox.AbortedIff | cosinnus_message/utils/utils.py:69-136 | the pass is cut short exactly when some mail's decision raises |
| Inbox.MailsAndRepliesOnlyForDeleted | cosinnus_message/utils/utils.py:98-134 | there are never more error mails plus replies than deleted mails |
| Inbox.DeletedAreItems | cosinnus_message/utils/utils.py:67-138 | every id in the delete list is the id of a mail of the store |
| Inbox.DeleteListIsNonRetained | cosinnus_message/utils/utils.py:67-99 | in a full pass over distinct ids, a mail is in the delete list exactly when it is not retained |
| Inbox.MailsAreDecided | cosinnus_message/utils/utils.py:69-134 | in a full pass, the error mails sent are exactly those the decisions send |
| DirectReply.ProcessDirectReplyMessages | cosinnus_message/utils/utils.py:56-138 | the loop builds the decision fold over the store, and an exception ends it with what was collected so far; the final delete removes that list, or nothing under `DEBUG_LOCAL` or after an exception |
| DirectReply.HandleItem | cosinnus_message/utils/utils.py:70-134 | the loop body raises exactly when the mail's decision is the abort; otherwise it appends to the delete list, mails and replies what the decision adds |
| DirectReply.NoSenderDeletedSilently | cosinnus_message/utils/utils.py:73-76 | a mail whose From header yields no address is deleted without any mail |
| DirectReply.RetainedIffOtherPortal | cosinnus_message/utils/utils.py:93-96 | a mail is kept exactly when it has a sender and a token naming another portal |
| DirectReply.OneMailPerFailure | cosinnus_message/utils/utils.py:84-134 | with a sender, a mail is never deleted silently; each error mail goes to that sender with the cleaned text |
| DirectReply.MailGoesToSender | cosinnus_message/utils/utils.py:84-134 | with a known sender no decision is a silent delete, and every error mail goes to that sender with the cleaned text |
| DirectReply.ReasonPerCause | cosinnus_message/utils/utils.py:84-134 | each reason has exactly one cause: no token or an unknown hash gives "could not be matched"; a hash on several messages "internal error"; no single active account that is the recipient "wrong account"; blank or refused text "processing error" |
| DirectReply.ReasonsOn | cosinnus_message/utils/utils.py:98-134 | for a token naming this portal, each reason's mail is sent exactly on its cause, given the sender address and the cleaned text |
| DirectReply.ReplyOnlyWhenEverythingMatches | cosinnus_message/utils/utils.py:113-135 | a reply is created iff the token names this portal and its hash one message, the sender is the single active account that is its recipient, the cleaned text is not blank and the form accepts it |
| DirectReply.AmbiguousSenderAborts | cosinnus_message/utils/utils.py:115-116 | the pass stops exactly when the hash matches one message and two active accounts share the sender's address |
| DirectReply.PassDeletesAllButOtherPortals | cosinnus_message/utils/utils.py:69-138 | over a full pass, a mail is deleted exactly when it is not addressed, with a readable sender, to another portal |
| LegacyDirectReply.ProcessDirectReplyMessages | cosinnus_message/utils.py:31-99 | the older loop builds its own decision fold, ending at an exception with what was collected; the final delete removes that list, or nothing under `DEBUG_LOCAL` or after an exception |
| LegacyDirectReply.HandleItem | cosinnus_message/utils.py:43-97 | the older loop body raises exactly when the decision is the abort; otherwise it appends what the decision adds |
| LegacyDirectReply.NoTokenDeletedSilently | cosinnus_message/utils.py:44-48 | a mail without a token is deleted without mail |
| LegacyDirectReply.RetainedIffOtherPortal | cosinnus_message/utils.py:50-55 | a mail is kept exactly when its token names another portal; the sender is not consulted |
| LegacyDirectReply.LookupUsesLowerCasedHash | cosinnus_message/utils.py:52-64 | the hash is looked up lower-cased; no match deletes silently, several matches stop the pass |
| LegacyDirectReply.NoSenderAfterMatchDeletedSilently | cosinnus_message/utils.py:66-71 | an unreadable sender, found only after a hash match, deletes the mail without mail |
| LegacyDirectReply.MailsOnlyForAccountOrText | cosinnus_message/utils.py:81-95 | the only error mails are wrong account (no active account, or not the recipient) and processing error, both to the sender with the cleaned text |
| LegacyDirectReply.AccountOrTextMailIff | cosinnus_message/utils.py:66-95 | after one hash match and a readable sender, the wrong-account mail goes iff no single active account with that address is the recipient, and the processing-error mail iff it is but the text is blank or refused |
| LegacyDirectReply.ReplyOnlyWhenEverythingMatches | cosinnus_message/utils.py:50-97 | the older pass replies iff the token names this portal, the lower-cased hash matches one message, the readable sender is the one active account that is its recipient, and the cleaned text is not blank and accepted |
| LegacyDirectReply.AmbiguousLookupAborts | cosinnus_message/utils.py:60-72 | the older pass stops iff, for this portal, the lower-cased hash matches several messages, or one and two active accounts share the readable sender address |
| LegacyDirectReply.VariantsDifferOnUnreadableSender | cosinnus_message/utils.py:43-55 | a mail for another portal with an unreadable sender is kept by the older pass and deleted by the current one |
| MessageFormat.ReplaceAbsent | cosinnus_message/api/views.py:81 | a literal substitution leaves text without the pattern unchanged |
| MessageFormat.MarkerNotLeft | cosinnus_message/api/views.py:81 | after rewriting `\n` c ` ` markers, none is left |
| MessageFormat.NoMarkerAtHead | cosinnus_message/api/views.py:81 | the rewritten text never starts with the marker |
| MessageFormat.ReplaceMarkerHead | cosinnus_message/api/views.py:81 | away from a marker, rewriting copies the first character |
| MessageFormat.UnderscoreMarkersGone | cosinnus_message/api/views.py:80-81 | no `\n_ ` list marker survives the first step |
| MessageFormat.ListSpacesNoSpace | cosinnus_message/api/views.py:82 | the `\n* ` step leaves text without spaces unchanged |
| MessageFormat.ListSpacesMarksEverySpace | cosinnus_message/api/views.py:82 | after the `\n* ` step, every space ends a `\n- ` marker |
| MessageFormat.ListSpacesMarksSpace | cosinnus_message/api/views.py:82 | a leading space is rewritten into `\n- ` and the rest rewritten on its own |
| MessageFormat.ListSpacesAbsorbsNewlines | cosinnus_message/api/views.py:82 | a space together with the whole run of newlines before it, of any length, becomes one `\n- `; the rest is rewritten on its own |
| MessageFormat.TailGroup | cosinnus_message/api/views.py:84 | the group after the star is `$` (end, or before a final newline), `\n` or a non-star character |
| MessageFormat.ItalicMatch | cosinnus_message/api/views.py:84 | each step of the italic scan consumes at least one character, and no more than remain |
| MessageFormat.ItalicMatchAgrees | cosinnus_message/api/views.py:84 | each step emits as many characters as it consumes, changing only lone stars |
| MessageFormat.ItalicOnlyTurnsLoneStars | cosinnus_message/api/views.py:84 | the italic step keeps the length and changes nothing but lone stars, each into `_` |
| MessageFormat.ItalicWithoutStars | cosinnus_message/api/views.py:84 | text without stars is left unchanged by the italic step |
| MessageFormat.ItalicCopies | cosinnus_message/api/views.py:84 | a non-star not followed by a star is copied, and the scan goes on with the next character |
| MessageFormat.ItalicClosing | cosinnus_message/api/views.py:84 | inside `*x*` the scan copies up to the closing star, which becomes `_` |
| MessageFormat.ItalicWrapped | cosinnus_message/api/views.py:84 | `*x*` with at least two star-free characters becomes `_x_` |
| MessageFormat.ItalicSingle | cosinnus_message/api/views.py:84 | `*c*` becomes `_c*`: the opening match consumed `c` |
| MessageFormat.ReplaceSkip | cosinnus_message/api/views.py:86-88 | a stretch without the pattern's first character is copied unchanged |
| MessageFormat.ReplaceHead | cosinnus_message/api/views.py:86-88 | text starting with the pattern has that occurrence replaced |
| MessageFormat.PairReplaced | cosinnus_message/api/views.py:86-88 | a text wrapped in a pattern, without the pattern's first character inside, has both wrappers replaced |
| MessageFormat.ItalicKeepsStarPairs | cosinnus_message/api/views.py:84 | the italic step leaves `**x**` unchanged for star-free x |
| MessageFormat.FormatPlain | cosinnus_message/api/views.py:67-89 | the whole rewrite leaves plain text (no space, newline, star or tilde) unchanged |
| MessageFormat.FormatItalic | cosinnus_message/api/views.py:83-84 | `*x*` becomes `_x_` for plain x of two or more characters |
| MessageFormat.FormatBold | cosinnus_message/api/views.py:85-86 | `**x**` becomes `*x*`; the italic step leaves star pairs alone |
| MessageFormat.FormatStrike | cosinnus_message/api/views.py:87-88 | `~~x~~` becomes `~x~` |
| MessageFormat.UnderscoresOfStarLine | cosinnus_message/api/views.py:81 | the `\n_ ` step leaves a `* ` list line alone |
| MessageFormat.ListSpacesOfStarLine | cosinnus_message/api/views.py:82 | the `\n* ` step turns `\n* x` into `\n*\n- x` |
| MessageFormat.ItalicOfStarLine | cosinnus_message/api/views.py:84 | the italic step then turns the lone star into `_` |
| MessageFormat.ListSpacesCopiesRun | cosinnus_message/api/views.py:82 | a stretch without spaces or newlines is copied by the `\n* ` step |
| MessageFormat.SpaceAsWritten | cosinnus_message/api/views.py:80-88 | as written, `x y` for plain x and y is exported as `x\n- y`: every space starts a list line |
| MessageFormat.StarListLineAsWritten | cosinnus_message/api/views.py:80-84 | as written, `\n* x` is exported as `\n_\n- x` |
| MessageFormat.SingleLetterItalicAsWritten | cosinnus_message/api/views.py:83-84 | as written, `*c*` is exported as `_c*` |
| MessageFormat.ItalicLoneStars | cosinnus_message/api/views.py:83-84 | the intended italic step: every star with no star beside it becomes `_`, and nothing else changes |
| MessageFormat.ItalicAsWrittenWithinIntended | cosinnus_message/api/views.py:84 | the step as written agrees with the intended one at every position, except lone stars it leaves unconverted |
| MessageFormat.StarListLineIntended | cosinnus_message/api/views.py:80-82 | with the intended list step, no `\n* ` survives and `\n* x` becomes `\n- x` |
| MessageFormat.ItalicIntended | cosinnus_message/api/views.py:83-84 | with the intended italic step, `*x*` becomes `_x_` for any non-empty plain x |
| MessageExport.Participants | cosinnus_message/api/views.py:56-57 | the listed participants are exactly the conversation members that are exported users |
| MessageExport.ParticipantsKeepOrderAndCount | cosinnus_message/api/views.py:56-57 | the participant filter keeps the conversation's order (it distributes over concatenation) and lists each exported user as often as the conversation does |
| MessageExport.GetChannels | cosinnus_message/api/views.py:34-65 | the loop appends, in table order, the row of every channel-opening message that yields one |
| MessageExport.PrivateRowIff | cosinnus_message/api/views.py:55-60 | a conversation message yields a private row exactly when some participant is an exported user |
| MessageExport.MemberFieldRoundTrip | cosinnus_message/api/views.py:56-57 | splitting the `;`-joined id field and parsing the pieces gives the ids back |
| MessageExport.PrivateMembers | cosinnus_message/api/views.py:56-60 | a private row's member field lists, in order, exactly the participants that are exported users |
| MessageExport.DirectRowIff | cosinnus_message/api/views.py:61-64 | a one-to-one message yields a direct row exactly when sender and recipient are exported users; the member field is the recipient |
| MessageExport.ChannelsAreRoots | cosinnus_message/api/views.py:41-53 | every row comes from a channel-opening message of the table, and there are no more rows than messages |
| MessageExport.RootsHaveChannels | cosinnus_message/api/views.py:41-53 | every channel-opening message that yields a row has that row in the output |
| MessageExport.Select | cosinnus_message/api/views.py:97-105 | the channel query selects exactly the exportable messages that are the channel's root or threaded to it |
| MessageExport.SelectKeepsOrderAndCount | cosinnus_message/api/views.py:97-105 | the channel query keeps table order (it distributes over concatenation) and each selected record occurs as often as in the table |
| MessageExport.Insert | cosinnus_message/api/views.py:106 | inserting into the ordering adds the message and loses nothing |
| MessageExport.SortBySentAt | cosinnus_message/api/views.py:106 | ordering by `sent_at` is a permutation |
| MessageExport.InsertKeepsSorted | cosinnus_message/api/views.py:106 | inserting into a sorted sequence keeps it sorted |
| MessageExport.SortIsSorted | cosinnus_message/api/views.py:106 | ordering by `sent_at` yields ascending sending times |
| MessageExport.ChannelMessagesSpec | cosinnus_message/api/views.py:97-106 | a channel's records are sorted by time, a permutation of the selection, and exactly its members |
| MessageExport.MessageRows | cosinnus_message/api/views.py:107-113 | one message row per record, in order, with sender, timestamp and exported text (the rewrite as written) |
| MessageExport.UploadsOf | cosinnus_message/api/views.py:115-122 | one upload row per attached file, with the record's sender and timestamp |
| MessageExport.MessageText | cosinnus_message/api/views.py:108-111 | the text computed in the loop is the exported text: subject line, then the body through `format_message` as written |
| MessageExport.AppendUploads | cosinnus_message/api/views.py:115-122 | the inner loop appends exactly the record's upload rows |
| MessageExport.ExportRows | cosinnus_message/api/views.py:107-123 | the outer loop produces the message rows and upload rows of the records in order |
| MessageExport.GetMessages | cosinnus_message/api/views.py:91-123 | the nested loops produce the message rows and upload rows of the channel's records in order |
| MessageExport.RowsInTimestampOrder | cosinnus_message/api/views.py:106-113 | message rows come in ascending timestamp order |
| MessageExport.SubjectLine | cosinnus_message/api/views.py:108-111 | with a subject, the first line is `*subject*` and the rest is the body through `format_message` as written; without, the text is that rewritten body |
| MessageExport.UploadsBelongToMessages | cosinnus_message/api/views.py:115-122 | every upload row carries the sender, timestamp and a file of a record of the channel |
| RocketHooks.KickAndInvite | cosinnus_message/hooks.py:117-123 | the old membership is kicked iff it becomes pending or moves; the new one is invited iff it stops pending or moves; the kick comes first |
| RocketHooks.PendingMoveStillInvites | cosinnus_message/hooks.py:118-123 | a moved membership that is pending is kicked and then still invited |
| RocketHooks.ModeratorChange | cosinnus_message/hooks.py:125-132 | moderator rights are granted iff false to true and withdrawn iff true to false, only while not pending |
| RocketHooks.NewMembership | cosinnus_message/hooks.py:133-137 | a new membership issues nothing while pending; otherwise an invite first, then add-moderator iff it is a moderator |
| RocketHooks.UnchangedMembershipIsQuiet | cosinnus_message/hooks.py:108-132 | a save that changes none of the compared fields issues nothing |
| RocketHooks.UserUpdateFlags | cosinnus_message/hooks.py:30-37 | an existing user gets one update, forced iff password, names or email changed; the password is updated iff it changed |
| RocketHooks.GroupCreateOrRename | cosinnus_message/hooks.py:62-73 | a group without id is created; with an id it is renamed iff the slug changed (the project hook at :75-86 is the same) |
| RocketSync.IndexHas | cosinnus_message/rocket_chat.py:28 | every remote username is a key; an entry no later one shadows is the one stored |
| RocketSync.IndexLastWins | cosinnus_message/rocket_chat.py:28 | the entry under a key is the last remote user with that username |
| RocketSync.IndexByUsername | cosinnus_message/rocket_chat.py:28 | the loop builds the username index of the remote list |
| RocketSync.OneOutcomePerUser | cosinnus_message/rocket_chat.py:37-64 | unknown username gives create then set-avatar; an out-of-date entry gives update then set-avatar; otherwise only the avatar lookup |
| RocketSync.AvatarLookedUpOnlyOnMatch | cosinnus_message/rocket_chat.py:40-51 | the remote avatar is fetched iff the user is known and both email and name already match |
| RocketSync.SyncUser | cosinnus_message/rocket_chat.py:37-64 | the loop body issues exactly the calls the user's outcome prescribes |
| RocketSync.CallsAreForTheUser | cosinnus_message/rocket_chat.py:52-64 | a create or update in a user's calls carries that user's email, full name and username |
| RocketSync.CallsAppend | cosinnus_message/rocket_chat.py:32 | the calls for consecutive user lists are concatenated |
| RocketSync.CallsSnoc | cosinnus_message/rocket_chat.py:32-64 | one more user adds that user's calls at the end, only when active |
| RocketSync.InOrder | cosinnus_message/rocket_chat.py:32-64 | each user's calls sit between those of the users before and after it |
| RocketSync.CreatesAndUpdates | cosinnus_message/rocket_chat.py:30-64 | every active user with an unknown username is created; every create is for such a user; every update is for a known username |
| RocketSync.SyncUsers | cosinnus_message/rocket_chat.py:22-64 | the two loops issue exactly the calls of the active users, in order, against the index of the remote list |
| MessageForm.RemoveFirst | cosinnus_message/forms.py:29 | `remove` succeeds exactly when the id is in the list |
| MessageForm.RemoveFirstAt | cosinnus_message/forms.py:29 | `remove` drops the occurrence at the first index holding the id |
| MessageForm.RemoveFirstContents | cosinnus_message/forms.py:29 | after `remove` the id occurs once fewer, every other id as often, and the id stays iff it was there twice |
| MessageForm.IdList.Remove | cosinnus_message/forms.py:29 | the in-place `remove` finds the first occurrence and deletes it, or reports the ValueError and leaves the list |
| MessageForm.SelectableMembers | cosinnus_message/forms.py:28-31 | the form builds iff the user is a member; the choices are the existing members, the user only if listed twice |
| MessageForm.NarrowRecipients | cosinnus_message/forms.py:24-31 | the group's member list loses the user's id in place, and the choices are the users left in it |
| MessageForm.CleanRecipientsCases | cosinnus_message/forms.py:38-48 | an empty selection fails with `missing_recipient` iff not a broadcast; a broadcast gets all choices; otherwise the selection stands |
| MessageForm.CleanedWithinSelectable | cosinnus_message/forms.py:45-48 | accepted recipients are always among the choices when the selection is |

## Left out

- `EMAIL_RE` (cosinnus_message/utils/utils.py:28-31) is not interpreted. Sender extraction is the parameter `Env.extractEmail`.
- Database queries are not modelled.
  - Tables are sequences in query order.
  - The mailbox store's `order_by('read')` is taken as the order given.
  - The ordering of a conversation's participants is taken as given.
  - `order_by('sent_at')` is modelled as a stable sort. Messages sent at the same instant keep table order, which the database does not promise.
- `CosinnusPortal.get_current()` is the parameter `currentPortal`. User identity (`user == recipient`) is a comparison of ids.
- Mail and mailbox I/O is not modelled.
  - `update_mailboxes`, `get_new_mail` and mail sending are outside the model. An error mail is a recorded value.
  - The final `.delete()` is the returned id list.
  - Logging is left out.
- Whether the reply form accepts a reply is the parameter `Env.replyAccepted`.
  - `reply_to_postman_message` and its form come from a library that is not part of this model.
  - `write_postman_message` is never called by the pass and is not modelled.
- Uncaught exceptions other than a lookup finding several rows (database errors, mail transport errors) are not modelled.
- `_get_users`, `make_archive` and the view that writes the CSV files and the zip archive are file I/O and are left out.
- `slugify` is a parameter. Channel names are carried but not interpreted.
- `group_aware_reverse` is not modelled. Each record carries its uploads' URLs.
- `sent_at` is taken as the exported millisecond timestamp. Float seconds and the truncation to milliseconds are not modelled.
- All Rocket.Chat client calls are recorded, not executed.
  - The client methods that hooks.py calls (`groups_kick`, `groups_invite`, …) are not defined in rocket_chat.py as given.
  - A remote call that raises in the middle of a plan is caught and logged by the hook, which skips the rest of that plan. The model records the whole plan.
- The remaining hooks are not modelled. These are app authorisation, password change, profile save, group and membership delete, notes, and profile delete. Each issues one unconditional call and decides nothing.
- RocketHooks.UserPlan models the body of `handle_user_updated`.
  - The receiver also asks for a `created` argument that the `pre_save` signal does not pass.
  - Binding signal arguments to receivers is not part of this model.
- `sync_direct_messages` (cosinnus_message/rocket_chat.py:66-85) is not modelled.
- The progress output of `sync_users` is not modelled.
- `if rocket_user:` is modelled as "the username is indexed". A remote entry is never an empty dictionary.
- The Django form machinery is not modelled.
  - This covers field validation, the `Meta` fields and translation of the error message.
  - forms.py imports a `Message` model that migration 0008 deleted. The form is modelled as a self-contained validator.
  - That the selection lies within the choices is the field's own check. It is a `requires` of MessageForm.CleanedWithinSelectable.
- MessageForm.NarrowRecipients changes the list object it is given, as the source does. Whether `group.members` hands out a shared or a fresh list is not part of this model.
- Strings are sequences of code points. `strip()` uses the whitespace set of Python 2 `unicode`. `re.IGNORECASE` folds ASCII letters only.
- Inbox.ActiveWithEmail: `email__iexact` is modelled as ASCII case folding. The folding Django's `iexact` really does depends on the database backend (PostgreSQL's `UPPER()` also folds non-ASCII letters), and is not modelled.

## Findings

| source | as written | input that shows it | evidently intended | confidence | as-written member | corrected member |
|---|---|---|---|---|---|---|
| cosinnus_message/utils/utils.py:154 | `len(clean_lines) < lines` compares an int with a list; under Python 2 this is always true, so `had_reply` is set even when no quote was cut (under Python 3 the comparison raises TypeError instead). The same line is at cosinnus_message/utils.py:115 | the reply `Note:` without any quote is cleaned to the empty text | `had_reply` only when a `>` line was cut off, so that a last line ending in `:` is dropped only then | not executed | ReplyText.ColonLineWithoutQuote | ReplyText.PreambleDroppedOnlyAfterQuote |
| cosinnus_message/api/views.py:82 | `\n* ` is a regular expression in which `*` repeats the newline. Every space, with the newlines before it, becomes `\n- `. The star of a `* ` list line stays, and the italic step then turns it into `_` | `\n* x` is exported as `\n_\n- x`, and `a b` as `a\n- b` | `* ` list lines become `- ` lines, like `_ ` lines on the line above | not executed | MessageFormat.StarListLineAsWritten | MessageFormat.StarListLineIntended |
| cosinnus_message/api/views.py:84 | the italic pattern consumes the character after the star. A closing star one character later has lost its left neighbour and is not converted | `*a*` is exported as `_a*` | every single star (not part of `**`) becomes `_` | not executed | MessageFormat.SingleLetterItalicAsWritten | MessageFormat.ItalicIntended |
