# MailSage core, modelled in Dafny

MailSage is a web mail client for a Gmail inbox with an assistant attached. This project models three parts of it:

- **The inbox route** (`GET /api/emails`). It lists the inbox, fetches each listed message in full and builds one record per message:
  - the body comes from the MIME tree;
  - the subject and the sender's name and address come from the headers.
  It drops the messages whose handling threw and answers with the rest, newest first. Without an access token it answers 401; a failed listing gives 500.
- **The chat route** (`POST /api/chat`). It renders the client's current view as a compact index, one line per message, and places it between two fence lines of the assistant's system prompt. It answers with the completion for that prompt and the user's message. Without a session it answers 401; a malformed body or a failed completion gives 500.
- **The client component** (`App` in `page.js`). It holds the record list, the pin set, the set of records being summarised, the selection, the record shown in full, the search box, the time range, the tab and three overlays (chat, shortcuts, settings). The model covers:
  - its derived view `filteredEmails`, which filters by tab, search and day window and then sorts newest first;
  - the fetch merge with the pin set;
  - pin, delete, archive and summary toggling;
  - the keyboard handler;
  - the handling of an action directive `[ACTION:KIND:TARGET]` in an assistant reply.

The modules follow the program's structure:

- `Text` holds the JavaScript string operations the core uses:
  - `toLowerCase` and `includes`, with `IndexOf` as the leftmost-occurrence search that `includes` and `replace` perform;
  - `replace` with a string pattern and the global `replace(/"/g, "")`;
  - `trim` and `join`;
  - `Span`, the run of a character class that the regular-expression `match` calls consume.
  `Split` does not appear in the core; it is the inverse of `join` and is used to state the lines of the chat context.
- `Mail` holds the record and the stable newest-first sort.
- `GmailRoute` and `ChatRoute` hold the two routes.
- `InboxView` holds `filteredEmails`.
- `Directive` holds the directive pattern and what the client does with a reply.
- `Client` holds the component. It is a class whose fields are the component's state variables. Each state setter is an assignment in a method that `modifies` only what the handler changes.

Clocks, randomness, base64 decoding, date formatting and every network or SDK call are parameters: `now`, a colour carried with each fetch outcome, `decode`, `formatDate`, the fetch and listing outcomes, and a `complete` function for the model call.

Behaviours of the code that the model keeps as written:

- A `PIN` directive toggles the target's pin, through `handlePin` (`page.js:792-803`); it does not only set it.
- Only the first match of the directive pattern is acted on and removed from the reply (`page.js:836-840`).
- Hiding a shown summary clears its flag and keeps its text in the record (`page.js:856-860`).
- The ArrowDown branch that selects the first record when nothing is selected can never be taken (`page.js:738`). When the index is -1, the preceding test `0 < length` already holds, so the first branch selects the first record. The model has `assert false` in that branch.

## Model

| member | source | states |
|---|---|---|
| Text.Span | src/app/api/emails/route.js:83-84 | the length of the maximal run from `i` whose characters satisfy the class: all inside satisfy it, the next one does not or the string ends |
| Text.SpanExact | src/app/page.js:836 | any run that satisfies the class and is followed by a non-member or the end is the run `Span` finds |
| Text.LowerChar | src/app/page.js:613 | the result is never an upper-case ASCII letter; A-Z map 32 code points up; every other character is kept |
| Text.Lower | src/app/page.js:613-617 | same length; each character lower-cased by `LowerChar` |
| Text.IndexOf | src/app/page.js:840 | -1 exactly when the pattern occurs at no position from `from`; otherwise the leftmost position from `from` where it occurs |
| Text.Includes | src/app/page.js:614-617 | `includes`: the pattern occurs at some position found by `IndexOf`; `IncludesIff` ties it to the substring relation |
| Text.IncludesIff | src/app/page.js:614-617 | `includes` holds if and only if the pattern occurs somewhere |
| Text.RemoveFirst | src/app/page.js:840 | unchanged when the pattern does not occur; otherwise exactly one pattern's length shorter |
| Text.RemoveFirstShrinks | src/app/page.js:840 | when the pattern occurs anywhere, the removal shortens by the pattern's length |
| Text.RemoveFirstAt | src/app/page.js:840 | when the first occurrence is at `i`, the result is the text before `i` followed by the text after the occurrence |
| Text.RemoveAll | src/app/api/emails/route.js:90 | the character is gone; every other character of the input is kept, and nothing new appears |
| Text.RemoveAllAppend | src/app/api/emails/route.js:90 | removal keeps the order and every copy of the other characters: it distributes over concatenation |
| Text.RemoveAllSingle | src/app/api/emails/route.js:90 | one character is dropped when it is the removed one and kept otherwise |
| Text.IsJsSpace | src/app/page.js:840 | the ECMAScript WhiteSpace and LineTerminator code points that `trim` removes |
| Text.TrimEnd | src/app/page.js:840 | a prefix of the input whose last character is not white space, with only white space cut |
| Text.Trim | src/app/page.js:840 | `trim`: never longer than its input; `TrimSpec` states which characters it cuts |
| Text.TrimSpec | src/app/page.js:840 | `trim` is a slice `s[i..j]` with only white space before `i` and after `j`, and its ends are not white space |
| Text.TrimAddsNothing | src/app/api/emails/route.js:90 | trimming brings in no character the input lacks |
| Text.Split | src/app/api/chat/route.js:20-22 | at least one piece; no piece holds the separator |
| Text.SplitJoin | src/app/api/chat/route.js:20-22 | splitting a join of separator-free lines at the separator gives back the lines |
| Text.SplitNoSeparator | src/app/api/chat/route.js:20-22 | a text without the separator splits into itself alone |
| Text.SplitAppend | src/app/api/chat/route.js:24-48 | splitting `x + c + y` is splitting `x` followed by splitting `y` |
| Text.Join | src/app/api/chat/route.js:20-22 | `join`: empty for no lines and the line itself for one; `SplitJoin` states it is undone by `split` |
| Mail.WithTimestamp | src/app/api/emails/route.js:110-112 | its members are exactly the records with that timestamp |
| Mail.Insert | src/app/api/emails/route.js:112 | the result holds the input records and the new one, as a multiset |
| Mail.InsertKeepsOrder | src/app/api/emails/route.js:112 | inserting into a newest-first list keeps it newest first |
| Mail.SortNewestFirst | src/app/api/emails/route.js:112 | the result is newest first and a permutation of the input |
| Mail.WithTimestampAppend | src/app/api/emails/route.js:112 | picking one timestamp distributes over concatenation |
| Mail.InsertKeepsTies | src/app/api/emails/route.js:112 | insertion keeps the new record ahead of records with its timestamp and keeps their order |
| Mail.SortIsStable | src/app/page.js:630 | records with equal timestamps keep their input order, as the stable `Array.prototype.sort` keeps them |
| Mail.SortKeepsSorted | src/app/page.js:630 | sorting a newest-first list changes nothing |
| InboxView.CeilDiv | src/app/page.js:623 | `Math.ceil(a / d)`: the least `q` with `q * d >= a` |
| InboxView.DiffDays | src/app/page.js:620-623 | the whole days, rounded up, between the record time and `now` in either direction; `WindowIsDistance` states what the window test means |
| InboxView.WindowDays | src/app/page.js:624-627 | the four range texts and their day counts; any other text selects no window |
| InboxView.PassesTab | src/app/page.js:610 | on the Pinned tab only records whose id is in the pin set pass |
| InboxView.PassesSearch | src/app/page.js:612-619 | an empty query passes; otherwise the lower-cased query must occur in one of the four lower-cased fields (`ViewMembership`) |
| InboxView.PassesWindow | src/app/page.js:620-628 | a record passes the selected window, or any record when no window is selected (`WindowIsDistance`, `OtherRangesKeepAll`) |
| InboxView.Select | src/app/page.js:607-629 | a record is selected if and only if it is in the list and passes tab, search and window; nothing is added or duplicated |
| InboxView.SelectAppend | src/app/page.js:607-629 | the filter keeps the kept records in list order and every copy: it distributes over concatenation |
| InboxView.SelectSingle | src/app/page.js:607-629 | one record is kept exactly when it passes every stage |
| InboxView.FilteredEmails | src/app/page.js:607-630 | the view is newest first and a permutation of the selection |
| InboxView.ViewMembership | src/app/page.js:607-630 | a record is shown iff it is listed, passes the Pinned tab, has an empty query or a query that is a substring of its lower-cased subject, sender name, sender address or body, and passes the window |
| InboxView.WindowIsDistance | src/app/page.js:620-627 | for a 1d/7d/14d/30d range of n days, a record passes iff it lies at most n days of milliseconds from `now`, in the past or the future |
| InboxView.OtherRangesKeepAll | src/app/page.js:624-628 | any other range lets every record through |
| InboxView.ViewIsReorderedSublist | src/app/page.js:607-630 | the view is a sub-multiset of the records and holds only listed records |
| InboxView.ViewIsStable | src/app/page.js:630 | records with equal timestamps appear in list order |
| InboxView.EmptyQueryIsNoOp | src/app/page.js:612 | with an empty query the selection is the tab- and window-filtered list |
| Directive.MatchAt | src/app/page.js:836-837 | a match found at `p` starts at `p`, fits in the text and is at least 10 characters long |
| Directive.MatchAtSound | src/app/page.js:836-837 | every match is a directive text of upper-case letters and a target without `]`, and its length is that text's |
| Directive.MatchAtComplete | src/app/page.js:836-837 | every directive text at `p` is matched at `p` with its own kind and target |
| Directive.FirstMatch | src/app/page.js:837 | the leftmost position from `from` where the pattern matches, or no match anywhere from `from` |
| Directive.Effect | src/app/page.js:838-841 | the text shown is never longer than the reply |
| Directive.Interpret | src/app/page.js:835-842 | what the client does with a reply; its meaning is stated by `FirstDirectiveDecides` and `NoDirectiveNoEffect` |
| Directive.PinTarget | src/app/page.js:839 | only the `PIN` kind asks for a pin toggle, on its target |
| Directive.NoDirectiveNoEffect | src/app/page.js:835-842 | a reply without any directive text is shown untrimmed and toggles no pin |
| Directive.NoMatchBefore | src/app/page.js:837 | no directive text before `p` means no match before `p` |
| Directive.FirstMatchIsLeftmost | src/app/page.js:837 | the match found is the leftmost directive text, with its kind and target |
| Directive.FirstOccurrenceIsLeftmost | src/app/page.js:840 | `replace` cuts the leftmost directive itself: its text first occurs there |
| Directive.FirstDirectiveDecides | src/app/page.js:835-842 | the leftmost directive decides: the reply minus its text, trimmed, is shown, and a pin is toggled iff its kind is `PIN`, on its target |
| Directive.AdvertisedCommandAccepted | src/app/api/chat/route.js:36-38 | the command the prompt advertises, appended to a text without `[`, shows the text trimmed and toggles the id's pin, for every non-empty id without `]` |
| Directive.UnknownKindIsStrippedOnly | src/app/page.js:838-841 | a first match of another kind toggles no pin but is removed from the text |
| GmailRoute.MimeIndex | src/app/api/emails/route.js:16 | the first child from `i` with the MIME type, or the end |
| GmailRoute.FindMime | src/app/api/emails/route.js:16-22 | `parts.find` by exact `mimeType`: the child at `MimeIndex`, or none |
| GmailRoute.DataOf | src/app/api/emails/route.js:17-24 | the decoded data of a found child whose `body.data` is present and not empty, else none |
| GmailRoute.FindMimeIsChild | src/app/api/emails/route.js:16-18 | the data of the found child is data held in the tree |
| GmailRoute.GetBody | src/app/api/emails/route.js:6-35 | `getBody`; its meaning is stated by `GetBodyProvenance`, `OwnDataFirst`, `HtmlChildPreferred` and `PlainChildNext` |
| GmailRoute.PartBody | src/app/api/emails/route.js:9-34 | `getBody` on a present part; stated by `PartBodyProvenance` and `PartBodyFindsData` |
| GmailRoute.FirstNonEmpty | src/app/api/emails/route.js:28-31 | the loop over the children; stated by `FirstNonEmptyIsFirst` |
| GmailRoute.FirstNonEmptyIsFirst | src/app/api/emails/route.js:28-31 | the loop gives the body of the first child, in order, whose body is not empty, and "" exactly when every child body from `i` is empty |
| GmailRoute.PartBodyProvenance | src/app/api/emails/route.js:9-34 | a part's body is empty or the decoding of some data in its subtree |
| GmailRoute.FirstNonEmptyProvenance | src/app/api/emails/route.js:28-31 | the loop's result is empty or the decoding of some data in the tree |
| GmailRoute.GetBodyProvenance | src/app/api/emails/route.js:6-35 | the body is empty or the decoding of some data in the payload's tree |
| GmailRoute.PartBodyFindsData | src/app/api/emails/route.js:9-34 | when decoding keeps non-empty data non-empty, the body is non-empty iff the subtree holds data |
| GmailRoute.FirstNonEmptyFindsData | src/app/api/emails/route.js:28-31 | under the same condition, the loop from `i` is non-empty iff a child from `i` holds data |
| GmailRoute.OwnDataFirst | src/app/api/emails/route.js:10-12 | a part's own data wins over its children |
| GmailRoute.HtmlChildPreferred | src/app/api/emails/route.js:15-19 | otherwise the first `text/html` child with data gives the body |
| GmailRoute.PlainChildNext | src/app/api/emails/route.js:21-25 | otherwise the first `text/plain` child with data gives the body |
| GmailRoute.GetHeader | src/app/api/emails/route.js:37-40 | the value of the first header with the exact name, "" when none has it |
| GmailRoute.HeaderIndex | src/app/api/emails/route.js:38 | the first index from `i` with the name, or the end |
| GmailRoute.AngleAt | src/app/api/emails/route.js:84 | an address match at `p` has a non-empty inside and its closing `>` inside the text |
| GmailRoute.FirstAngle | src/app/api/emails/route.js:84 | the leftmost position from `from` where the address pattern matches, or none |
| GmailRoute.SenderEmailSound | src/app/api/emails/route.js:84-91 | a found address holds no `>` and stands between `<` and `>` in the header |
| GmailRoute.AngleAtSound | src/app/api/emails/route.js:84 | the inside of a match at `p` holds no `>` and `<inside>` occurs at `p` |
| GmailRoute.AngleAtComplete | src/app/api/emails/route.js:84 | every `<a>` with a non-empty inside without `>` is matched where it stands, with `a` as the match |
| GmailRoute.SenderEmailIsLeftmost | src/app/api/emails/route.js:84-91 | when `<a>` stands at `p` and the pattern matches nowhere before `p`, the address is `a` |
| GmailRoute.SenderName | src/app/api/emails/route.js:83-90 | the name split of the `From` header; stated by `NameOfFormatted`, `QuotedNameOfFormatted`, `SenderNameFallback` and `SenderNameClean` |
| GmailRoute.SenderEmail | src/app/api/emails/route.js:84-91 | the address split of the `From` header; stated by `SenderEmailSound` and `SenderEmailIsLeftmost` (both directions), `EmailOfFormatted` and `NoAngleNoEmail` |
| GmailRoute.NameOfFormatted | src/app/api/emails/route.js:83-90 | from `Name <address>` the name is recovered, for a name without `<` and `"` and without white space at its ends |
| GmailRoute.QuotedNameOfFormatted | src/app/api/emails/route.js:83-90 | from `"Name" <address>` the name is recovered without its quotes, for any name without `"` or `<` |
| GmailRoute.EmailOfFormatted | src/app/api/emails/route.js:84-91 | from `Name <address>` the address is recovered, for a name without `<` and a non-empty address without `>` |
| GmailRoute.TrimOneTrailingSpace | src/app/api/emails/route.js:90 | trimming a name plus its separating space gives the name |
| GmailRoute.SenderNameFallback | src/app/api/emails/route.js:83-90 | an empty header, or one that starts with `<`, is its own name |
| GmailRoute.NoAngleNoEmail | src/app/api/emails/route.js:84-91 | a header without `<` gives the empty address |
| GmailRoute.SenderNameClean | src/app/api/emails/route.js:83-90 | a name taken from the text before `<` holds no `"` and no `<` |
| GmailRoute.MakeRecord | src/app/api/emails/route.js:72-105 | a record exists iff the fetch succeeded with a payload with headers; it carries the id, the sender split from the `From` header with the drawn colour, the `Subject` header, the snippet, the body `GetBody` finds, the formatted date and the timestamp, and is unpinned and unsummarised |
| GmailRoute.Survivors | src/app/api/emails/route.js:70-111 | every surviving record was built from a listed message, and every message that builds a record survives |
| GmailRoute.SurvivorsAppend | src/app/api/emails/route.js:70-111 | dropping failed messages keeps the others in listing order, one record each: it distributes over concatenation |
| GmailRoute.SurvivorsSingle | src/app/api/emails/route.js:70-111 | one message gives its record when building it succeeds and nothing otherwise |
| GmailRoute.ListInbox | src/app/api/emails/route.js:42-118 | `GET`; stated by `ListInboxAnswer` and `ListInboxErrors` |
| GmailRoute.ListInboxAnswer | src/app/api/emails/route.js:66-114 | with a token and a listing, the answer is newest first, holds only unpinned unsummarised records of listed ids, and holds every record built successfully |
| GmailRoute.ListInboxErrors | src/app/api/emails/route.js:49-118 | without a token the answer is 401; a failed listing is 500 with its message; no messages gives an empty list |
| ChatRoute.ContextOf | src/app/page.js:817-822 | one entry per record of the view, in view order, with its id, sender, subject and date |
| ChatRoute.ContextLines | src/app/api/chat/route.js:20-21 | one line per entry, in entry order |
| ChatRoute.ContextLine | src/app/api/chat/route.js:21 | the line for one entry; `ContextLineStartsWithId` and `ContextLineIsOneLine` state its shape |
| ChatRoute.ContextString | src/app/api/chat/route.js:20-22 | the lines joined by line feeds; `ContextHasOneLinePerEntry` states that splitting gives them back |
| ChatRoute.Render | src/app/api/chat/route.js:24-48 | the template filled with the context; `PromptFramesContext` states its lines |
| ChatRoute.SystemPrompt | src/app/api/chat/route.js:24-48 | the prompt as written, filled with the context; `PromptFence` and `PromptFramesContext` state its shape |
| ChatRoute.Post | src/app/api/chat/route.js:9-64 | `POST`; stated by `NoSessionNeverAsks` and `ReplyIsModelAnswer` |
| ChatRoute.NoSessionNeverAsks | src/app/api/chat/route.js:10-13 | without a session the answer is 401, whatever the model would answer |
| ChatRoute.ReplyIsModelAnswer | src/app/api/chat/route.js:50-64 | with a session and a context list, the reply is exactly the model's answer to the built prompt, and a failed call is 500 |
| ChatRoute.EmptyContext | src/app/api/chat/route.js:20-22 | an empty view gives an empty context |
| ChatRoute.ContextLineIsOneLine | src/app/api/chat/route.js:21 | an entry whose fields hold no line feed gives one line |
| ChatRoute.LinesAreSingle | src/app/api/chat/route.js:20-21 | every line of such entries is a single line |
| ChatRoute.ContextHasOneLinePerEntry | src/app/api/chat/route.js:20-22 | splitting the context at line feeds gives back the entries' lines |
| ChatRoute.ContextLineStartsWithId | src/app/api/chat/route.js:21 | each line starts `ID: <id> \| From: ` |
| ChatRoute.PromptFence | src/app/api/chat/route.js:28-30 | the fence line is `    ---` and the indentation four spaces, neither holding a line feed |
| ChatRoute.PromptFramesContext | src/app/api/chat/route.js:24-48 | the prompt's lines are the intro's, the fence, the context lines (the first indented), the fence again, then the rules' |
| ChatRoute.FramedLines | src/app/api/chat/route.js:24-48 | the lines of intro, fence, block, fence and rules joined by line feeds are their lines in order |
| ChatRoute.BlockLines | src/app/api/chat/route.js:29 | the indented block splits into its first line, indented, and the other lines |
| ChatRoute.ViewContextIds | src/app/page.js:817-822 | the i-th context line names the id of the i-th record of the view |
| Client.FlipPins | src/app/page.js:792 | the records with the id have `isPinned` flipped; all others are unchanged |
| Client.Toggle | src/app/page.js:795-803 | the id's membership is flipped; every other id keeps its membership |
| Client.Without | src/app/page.js:786-787 | the remaining records are exactly those without the id |
| Client.MergePins | src/app/page.js:679-682 | each fetched record, in order, with `isPinned` set from the pin set |
| Client.SetSummary | src/app/page.js:857-875 | the records with the id get the flag and any new text; other records are unchanged |
| Client.Find | src/app/page.js:854 | none iff no record has the id; otherwise the first record with the id |
| Client.FindIndex | src/app/page.js:734-743 | -1 iff nothing is selected or no record has the selected id; otherwise the first index with it |
| Client.FlipPinsTwice | src/app/page.js:790-804 | pinning twice restores the list and the pin set |
| Client.FlipUnknownId | src/app/page.js:792 | pinning an id no record has leaves the list unchanged |
| Client.FlipKeepsConsistent | src/app/page.js:790-804 | a pin toggle keeps `isPinned` in agreement with the pin set |
| Client.WithoutAppend | src/app/page.js:786-787 | removal keeps order: it distributes over concatenation |
| Client.WithoutAbsent | src/app/page.js:786-787 | removing an absent id changes nothing |
| Client.WithoutKeepsConsistent | src/app/page.js:786-787 | removal keeps `isPinned` in agreement with the pin set |
| Client.MergeIsConsistent | src/app/page.js:679-683 | the merged list agrees with the pin set |
| Client.MergeIgnoresServerFlags | src/app/page.js:679-682 | the merge does not depend on the `isPinned` the server sent |
| Client.SetSummaryKeepsPins | src/app/page.js:857-875 | summary changes keep pins consistent and ids in place |
| Client.HideKeepsText | src/app/page.js:856-860 | hiding a summary clears the flag and keeps the text |
| Client.ArrowDownTarget | src/app/page.js:731-740 | the selection after ArrowDown; stated by `ArrowDownMoves`, `ArrowDownAtLastStays` and `ArrowDownFromNothing` |
| Client.ArrowUpTarget | src/app/page.js:741-748 | the selection after ArrowUp; stated by `ArrowUpMoves` and `ArrowUpAtTopStays` |
| Client.ArrowDownMoves | src/app/page.js:731-737 | ArrowDown on a record that is not the last selects the next record |
| Client.ArrowDownAtLastStays | src/app/page.js:731-740 | ArrowDown on the last record keeps the selection |
| Client.ArrowDownFromNothing | src/app/page.js:731-737 | ArrowDown with nothing in the view selected selects the first record |
| Client.ArrowUpMoves | src/app/page.js:741-748 | ArrowUp on a record that is not the first selects the previous one |
| Client.ArrowUpAtTopStays | src/app/page.js:741-748 | ArrowUp at the top, or with nothing in the view selected, keeps the selection |
| Client.ArrowDownThenUp | src/app/page.js:731-748 | with distinct ids, ArrowDown then ArrowUp returns to a selection that was not the last |
| Client.App.constructor | src/app/page.js:577-593 | the initial state: no records, empty sets, loading, INBOX, nothing selected, 30d, Inbox tab, search and overlays closed |
| Client.App.ApplyFetch | src/app/page.js:664-693 | a JSON `emails` list replaces the records, merged with the pin snapshot; any other outcome keeps them; loading ends; consistency is kept when the snapshot is current |
| Client.App.TogglePin | src/app/page.js:790-804 | the list is `FlipPins` and the set `Toggle` of the old ones; pin consistency is preserved |
| Client.App.Delete | src/app/page.js:787 | the records with the id are removed; pin consistency is preserved |
| Client.App.Archive | src/app/page.js:786 | as Delete |
| Client.App.StartSummary | src/app/page.js:853-864 | an unknown id changes nothing; a shown summary is hidden; otherwise the id starts summarising and the body is returned to send |
| Client.App.FinishSummary | src/app/page.js:870-885 | a truthy summary is stored and shown; the id stops summarising on success and on failure |
| Client.App.HandleReply | src/app/page.js:835-842 | the shown text is the interpreted reply's; the pin of the directive's target is toggled when it asks for one, and nothing changes otherwise |
| Client.App.ToggleExpand | src/app/page.js:810 | selecting the selected record clears the selection; otherwise it is selected |
| Client.App.OpenEmail | src/app/page.js:1201 | the record is shown in full |
| Client.App.CloseEmail | src/app/page.js:894-897 | nothing is shown in full or selected |
| Client.App.ToggleChat | src/app/page.js:1220-1228 | an open chat closes; a closed one opens and closes the other overlays; at most one overlay stays open |
| Client.App.ToggleShortcuts | src/app/page.js:1237-1245 | the same for the shortcuts overlay |
| Client.App.ToggleSettings | src/app/page.js:1259-1267 | the same for the settings overlay |
| Client.App.CloseChat | src/app/page.js:632-633 | the chat is closed |
| Client.App.CloseShortcuts | src/app/page.js:1012 | the shortcuts overlay is closed |
| Client.App.CloseSettings | src/app/page.js:909 | the settings overlay is closed |
| Client.App.SearchButton | src/app/page.js:1153-1160 | a closed box opens; an open box closes only when the query is empty |
| Client.App.ClickOutsideSearch | src/app/page.js:643-648 | a click outside closes the box when the query is empty |
| Client.App.SetSearchQuery | src/app/page.js:1147 | the query is the typed text |
| Client.App.SetTimeRange | src/app/page.js:1100 | the range is the chosen one |
| Client.App.ChangeTab | src/app/page.js:656-662 | the tab is set; the Inbox tab also selects the INBOX label |
| Client.App.KeyDown | src/app/page.js:699-753 | in a text field only Escape acts; elsewhere Escape closes everything, `/` only opens search, Ctrl/Cmd+K only toggles the chat (closing the others when it opens), a plain `k` or any other key changes nothing, and with nothing in full view and no overlay open the arrows and Enter move or open the selection over the view; at most one overlay stays open |
| Client.App.TextFieldKey | src/app/page.js:700-706 | Escape closes the chat and an empty search box; other keys change nothing |
| Client.App.CommandKey | src/app/page.js:707-730 | Ctrl/Cmd+K toggles the chat and touches neither the search box nor, when closing, the other overlays; `/` opens search and keeps the overlays; Escape closes everything; other keys change nothing |
| Client.App.SelectionKey | src/app/page.js:731-752 | ArrowDown and ArrowUp move the selection as the arrow targets say; Enter shows a selected record in full |

## Left out

- The message-body helpers of `page.js` (`extractContentForAI`, `renderContent` and the DOM and regular-expression cleaning they do) are not modelled. `StartSummary` returns the raw body where the source sends its cleaned text.
- The rendering (JSX, animation, icons, dark mode, `layout.js`) and the summary route (`api/summary/route.js`) are not part of this model.
- Every network and SDK call (`fetch`, the Gmail client, the OpenAI client, `getServerSession`) is a parameter or a datatype of outcomes; asynchrony and the interleaving of state updates are not modelled.
- The random sender colour, `toLocaleDateString`, base64 decoding and the clock are parameters.
- `parseInt` of the message date is taken as already giving an integer; a date that parses to `NaN` is not modelled.
- `Text.Lower` maps only the ASCII letters A-Z; Unicode case mapping of `toLowerCase` is not modelled.
- `Text.LowerChar` has the same ASCII-only gap, for one character.
- `InboxView.CeilDiv` is exact integer ceiling division, while `page.js:622-623` takes `Math.ceil` of a floating-point quotient. The two agree while the millisecond difference and the quotient are exactly representable as doubles; rounding beyond that is not modelled.
- `InboxView.FilteredEmails` takes one clock reading `now` for all records, while `page.js:620` reads `new Date()` again for each record inside the filter.
- The chat transcript, the typing indicator, the reset of the transcript in `closeChat`, and the messages shown for a failed chat request are not modelled; `Client.App.CloseChat` only closes the overlay.
- Focus, blur, `preventDefault` and the timed focus of the search box have no state in the model.
- `Client.App.ApplyFetch` takes the pin set the fetch effect captured as `pinSnapshot`, because the effect reads the pin set of the render that started it; it promises pin consistency only when that snapshot is the current set.
- `Client.App.KeyDown` takes the `filteredEmails` of the render that installed the handler as `view`, for the same stale-closure reason.
- `handleSummarize` (`page.js:806-809`) is never called and is not modelled.
- A missing or non-string `snippet`, `subject` or reply, and a `null` completion content, are not modelled: every field is a string.
- Only a missing payload, missing headers and a failed detail call make a message's handling throw; other throws inside `getBody` are not modelled.
- `ChatRoute.PromptFramesContext` is stated for any template whose fence line and indentation hold no line feed; `ChatRoute.PromptFence` shows the prompt is such a template.
- `Directive.Effect` removes the directive's own text, where the source removes `match[0]`; `Directive.MatchAtSound` proves the two are the same text.
- `Directive.Effect`: its own contract only bounds the length; its full meaning is stated by `Directive.FirstDirectiveDecides`.
