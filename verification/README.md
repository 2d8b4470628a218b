# SMSDB2HTML in Dafny

SMSDB2HTML turns the SMS database of an iPhone backup (`sms.db` / `chat.db`)
into a small static web site. There is one page `chat-<rowid>.html` per
correspondent ("handle") and an `index.html` that lists every handle, with a
preview of the last message exchanged with it. This project models the
deterministic core of that program and proves what it does. The database
tables, the file system and the clock do not appear in the model. Instead,
their results are parameters.

- `outcome.dfy` (`Outcome`): `Option`, `Result` and the Python exceptions
  that can escape the core (`IndexError`, `ValueError`, `AttributeError`,
  `KeyError`).
- `text.dfy` (`Text`): the Python string operations the core relies on,
  with their properties. These are `str.split`, `str.join`, `in`,
  `list.index`, `lower`, `replace`, slicing and `%i` formatting.
- `time_codec.dfy` (`TimeCodec`): the store's timestamps. They count
  nanosecond ticks since 2001-01-01 UTC, and only the UTC calendar day of a
  timestamp is used.
- `records.dfy` (`Records`): `Handle`, the `UNKNOWN` sentinel, `Message`,
  the raw rows of the two queries, account parsing and `getAttachment`.
- `loader.dfy` (`Loader`): the `SMSDB` class. Its `handles` field is a
  Python dict, modelled with its insertion order. `retrieveHandles` and
  `retrieveMessages` fill it and the message list from the rows, as loops.
- `paths.dfy` (`Paths`): rerooting an attachment path under the `-a`
  directory, and POSIX `os.path.join`.
- `conversation.dfy` (`Conversation`): the slice of messages exchanged with
  one handle, the last-message text, and `makeConv`. `makeConv` is a loop
  with its date headers, chat bubbles and attachment elements.
- `directory.dfy` (`Directory`): `makeChoice`, which builds the index
  entries and previews. It also holds the main loop, which renders one page
  per handle and records `last_messages`, and the whole export.

`smsdb.py` is a tab-indented copy of lines 19-136 of `smsdb2html.py`, so one
model serves both. The table cites both files where the loader is concerned.

Each imperative routine is a method proved against a function that
specifies it: `RetrieveHandles` against `HandleTable`, `RetrieveMessages`
against `LoadMessages`, `MakeConv` against `ConvHtml`, `MakeChoice` against
`ChoiceHtml`, and `MakeConversations` against `PageOf` and `LastMessages`.
The lemmas then state what the program promises about those functions.

## Model

| member | source | states |
|---|---|---|
| Records.GetAttachment | smsdb2html.py:76-79 | the attachment is the first row of the attachment query, or None exactly when the query returned no row |
| Records.GetAttachmentFirstWins | smsdb.py:67-70 | rows after the first one never affect the attachment |
| Records.HandleOf | smsdb2html.py:108 | definition, no contract: the `Handle` of one handle row, its fields in column order |
| Records.ParseAccount | smsdb2html.py:115 | None or "" gives None; a non-empty account without ':' raises IndexError, and only such an account fails |
| Records.ParseAccountField | smsdb.py:106 | for `tag:rest`, the result is the prefix of `rest` up to its first ':' (or all of `rest`), and it holds no ':' |
| Records.ParseAccountAddress | smsdb2html.py:115 | `tag:address` with a single ':' yields exactly the address |
| Records.ParseAccountSecondField | smsdb2html.py:115 | `tag:field:more` yields `field`: only the second ':'-field is kept |
| Records.ParseAccountExamples | smsdb2html.py:115 | "e:alice@x" gives "alice@x" and "a:b:c" gives "b" |
| Records.SplitFirst | smsdb2html.py:115 | the first piece of `split` is the longest separator-free prefix of the string |
| Records.LookupHandle | smsdb.py:111 | the handle filed under a non-NULL loaded id, otherwise UNKNOWN |
| Records.Truthy | smsdb2html.py:125-128 | definition, no contract: `bool(x)` of a nullable integer column, false for NULL and 0 |
| Records.Unknown | smsdb2html.py:40 | definition, no contract: ROWID 0, id "0", no service, name "Unknown" |
| Records.MessageOf | smsdb2html.py:115-131 | definition, no contract: one message from one row |
| Records.Message.Day | smsdb2html.py:149 | definition, no contract: `msg.date.date()`, the UTC day of the raw date |
| Records.MessageOfErr | smsdb2html.py:115-122 | a row fails exactly when its account cannot be split (IndexError, checked first) or its date is NULL (TypeError at `date/10e8`) |
| TimeCodec.UtcDay | smsdb2html.py:19 | the day number d satisfies d·86400 ≤ 978307200 + ticks/10^9 < (d+1)·86400, i.e. it is the UTC day of the decoded instant |
| TimeCodec.UnixSeconds | smsdb2html.py:19-122 | definition, no contract: `978307200 + date/10e8`, seconds since 1970 in exact arithmetic |
| TimeCodec.UnixSecondsMonotone | smsdb.py:10 | in exact arithmetic, more ticks decode to a strictly later instant |
| TimeCodec.UtcDayMonotone | smsdb2html.py:122 | a later raw date never falls on an earlier UTC day |
| TimeCodec.EpochDay | smsdb.py:10 | tick 0 is Unix time 978307200, the start of day 11323 (2001-01-01) |
| Loader.HandleDict.Put | smsdb2html.py:108 | `d[k] = h` keeps a dict well formed and maps `k` to `h`; the existing keys keep their order, and a new key is appended at the end |
| Loader.HandleDict.Values | smsdb2html.py:206 | `values()` lists one handle per key, in key order, each the handle filed under that key |
| Loader.HandleDict.Get | smsdb2html.py:120 | `get(handle_id, UNKNOWN)` is the handle filed under the id, or UNKNOWN for a NULL or missing id |
| Loader.HandleTable | smsdb2html.py:104-108 | the dict built from the handle rows is well formed, files every handle under its own ROWID, and has a key for every row |
| Loader.HandleTableLatest | smsdb.py:95-99 | when several rows share a ROWID, the entry is the handle of the last of them |
| Loader.HandleTableKeys | smsdb.py:95-99 | the keys are exactly the ROWIDs occurring in the rows |
| Loader.HandleTableOrder | smsdb2html.py:104-108 | with distinct ROWIDs, the keys are the ROWIDs in row order, each mapped to its row's handle |
| Loader.HandleTableKeyOrder | smsdb.py:95-99 | with distinct ROWIDs, each row appends its ROWID to the keys |
| Loader.RowIds | smsdb.py:98 | the ROWIDs of the rows, one per row, in row order |
| Loader.LoadMessagesOkIff | smsdb2html.py:110-132 | loading succeeds exactly when every row's account parses and its date is not NULL; otherwise it raises IndexError or TypeError |
| Loader.LoadMessagesErrPrefix | smsdb2html.py:110-132 | when the rows before row n load and row n raises, the whole load raises that exception: the first failing row decides |
| Loader.LoadMessagesRows | smsdb.py:101-123 | a successful load has one message per row, in row order; it keeps ROWID, text, service, subject and raw date, resolves the handle with `get(handle_id, UNKNOWN)`, parses the account, and makes each flag true exactly for a non-NULL, non-zero column |
| Loader.UnknownHandleFallback | smsdb2html.py:40 | a NULL or unknown `handle_id` gets the UNKNOWN sentinel (ROWID 0, id "0", no service) and never makes loading fail |
| Loader.LoadMessages | smsdb2html.py:110-132 | definition, no contract: the messages of the rows in order, or the first row's exception |
| Loader.SMSDB.RetrieveHandles | smsdb.py:95-99 | after the loop, `handles` is exactly `HandleTable(rows)` and the object is valid; the messages are untouched |
| Loader.SMSDB.RetrieveMessages | smsdb2html.py:110-132 | `messages` equals the specified load when no row fails; otherwise it holds exactly the messages of the rows before the failing one, and that row's exception (IndexError or TypeError), which is the load's, is returned; validity is preserved |
| Loader.Open | smsdb2html.py:97-102 | handles are retrieved first and then messages; the result is valid; it succeeds exactly when the load does, and on failure returns the load's exception, that of the first failing row |
| Paths.PathJoin | smsdb2html.py:164 | POSIX join: an absolute second part replaces the first; otherwise the result is the first part, one '/' unless the first part is empty or already ends in '/', then the second part |
| Paths.Reroot | smsdb2html.py:161-166 | a path without the text "Attachments" is kept; rerooting fails, with ValueError, exactly when the text occurs but no segment equals it |
| Paths.RerootUnderBase | smsdb2html.py:162-164 | `prefix/Attachments/rest`, with no `Attachments` segment in `prefix`, becomes `join(base, rest)` |
| Paths.RerootSegments | smsdb2html.py:162-164 | the segments after the first `Attachments` segment are joined under the base |
| Paths.NoSegmentWithoutText | smsdb2html.py:161 | a path without the text has no `Attachments` segment, so the substring test never hides a segment |
| Paths.RerootExample | smsdb2html.py:161-164 | `/private/var/mobile/Library/SMS/Attachments/ab/cd/f.jpg` under `/export/Attachments` becomes `/export/Attachments/ab/cd/f.jpg` |
| Paths.RerootSubstringOnly | smsdb2html.py:163 | `MyAttachments/x` raises ValueError |
| Paths.JoinContainsPart | smsdb2html.py:162-164 | every part of a '/'-join occurs in the joined string |
| Text.Split | smsdb2html.py:162 | `split` always yields at least one piece |
| Text.Contains | smsdb2html.py:161 | definition, no contract: the substring test `in` |
| Text.StartsWith | smsdb2html.py:173-177 | definition, no contract: `s.startswith(prefix)` |
| Text.Join | smsdb2html.py:164 | definition, no contract: `sep.join(parts)` |
| Text.SplitJoinsBack | smsdb2html.py:162-164 | joining the pieces of a split with the same separator gives back the string |
| Text.SplitPiecesFree | smsdb2html.py:162 | no piece of a split contains the separator |
| Text.SplitJoin | smsdb2html.py:162-164 | splitting a join of separator-free parts gives back the parts |
| Text.SplitConcat | smsdb2html.py:162 | splitting `a + sep + b` gives the pieces of `a` followed by the pieces of `b` |
| Text.FirstIndex | smsdb2html.py:163 | `list.index`: None exactly when the value is absent; otherwise the position of its first occurrence |
| Text.Lower | smsdb2html.py:147 | the result has the same length, no upper-case ASCII letter, and changes only upper-case letters, to their lower-case forms |
| Text.LowerIdempotent | smsdb2html.py:147 | lower-casing twice is lower-casing once |
| Text.RemoveAll | smsdb2html.py:212 | `replace('\n', '')` removes every newline, keeps the count of every other character, and leaves a string without newlines unchanged |
| Text.RemoveAllChar | smsdb2html.py:212 | one character is dropped when it is the newline and kept otherwise |
| Text.RemoveAllAppend | smsdb2html.py:212 | removal distributes over concatenation, so the other characters keep their order |
| Text.Take | smsdb2html.py:212 | `[:50]` is the prefix of length min(50, length) |
| Text.NatToString | smsdb2html.py:216 | the decimal rendering is non-empty and made of digits |
| Text.IntToString | smsdb2html.py:320 | `%i` of any integer, never empty |
| Text.Show | smsdb2html.py:194-197 | definition, no contract: `'{}'.format(x)` of a string or None |
| Text.IntToStringRoundTrip | smsdb2html.py:216 | parsing the `%i`/`{}` rendering of an integer gives the integer back |
| Text.IntToStringInjective | smsdb2html.py:320 | distinct integers render differently |
| Conversation.Slice | smsdb2html.py:305 | the filter keeps exactly the messages with the handle's address and service |
| Conversation.SameContact | smsdb2html.py:305 | definition, no contract: the filter's lambda, equal `id` and equal `service` |
| Conversation.SliceAppend | smsdb2html.py:305 | the filter commutes with concatenation, so the slice keeps the original order |
| Conversation.SliceSingle | smsdb2html.py:305 | a single message is kept exactly when it belongs to the conversation |
| Conversation.SliceSameContact | smsdb2html.py:305 | two handles with the same address and service get the same conversation |
| Conversation.LastText | smsdb2html.py:307-310 | the last message's text, or "No Messages" for an empty slice |
| Conversation.LastTextIsLatest | smsdb2html.py:305-308 | the recorded text is that of the latest message exchanged with the handle |
| Conversation.LastTextNoMessages | smsdb2html.py:309-310 | a handle with no message gets the placeholder |
| Conversation.AttachmentText | smsdb2html.py:157-182 | a missing file name shows "Attachment not found"; the only failure is a path that cannot be rerooted, with ValueError |
| Conversation.Configured | smsdb2html.py:156 | definition, no contract: `attachment_path` is set and non-empty |
| Conversation.MessageText | smsdb2html.py:153-185 | no attachment keeps the text (None shown as "None"); an attachment without `-a` shows the placeholder; the text fails, with ValueError, exactly for a path that has the text "Attachments" but no such segment |
| Conversation.MessageTextOf | smsdb2html.py:153-185 | the step-by-step branch (split, delete through `Attachments`, join, pick the element by MIME type) computes `MessageText` |
| Conversation.MediaUnderBase | smsdb2html.py:161-178 | an image, audio or video file under `.../Attachments/rest` is shown by the element of its kind, pointing at `realpath(join(base, rest))` |
| Conversation.MediaElement | smsdb2html.py:157-178 | an image, audio or video attachment whose path reroots to `abspath` (a path kept unchanged included) gets the element of its kind pointing at `realpath(abspath)` |
| Conversation.MediaHtml | smsdb2html.py:173-182 | definition, no contract: the element chosen by the MIME prefix |
| Conversation.HasPrefix | smsdb2html.py:173-177 | definition, no contract: `mime != None and mime.startswith(prefix)` |
| Conversation.ImageHtml | smsdb2html.py:174 | definition, no contract: the `<img>` link template |
| Conversation.AudioHtml | smsdb2html.py:176 | definition, no contract: the `<audio>` template |
| Conversation.VideoHtml | smsdb2html.py:178 | definition, no contract: the `<video>` template |
| Conversation.LinkHtml | smsdb2html.py:182 | definition, no contract: the generic Attachment link template |
| Conversation.MissingFileName | smsdb2html.py:158-171 | whatever the MIME type, a missing file name ends as "Attachment not found"; "Unknown attachent" never survives |
| Conversation.OtherTypeLink | smsdb2html.py:180-182 | for a path without the text "Attachments", another MIME type links a non-empty path and leaves the message text for an empty one |
| Conversation.OtherTypeElement | smsdb2html.py:157-182 | an attachment of any other type whose path reroots to a non-empty `abspath` gets the link to `realpath(abspath)`; an empty `abspath` keeps the message text |
| Conversation.OtherTypeUnderBase | smsdb2html.py:161-182 | a file of any other type under `.../Attachments/rest` gets the link to `realpath(join(base, rest))` |
| Conversation.BlockErr | smsdb2html.py:147-163 | a message block fails exactly for a NULL service (AttributeError) or an unrerootable path (ValueError) |
| Conversation.BlockOk | smsdb2html.py:149-199 | a block is the optional date header followed by the bubble with the lower-cased service |
| Conversation.BlockOf | smsdb2html.py:145-199 | definition, no contract: the HTML of one message, or its exception |
| Conversation.HeaderAt | smsdb2html.py:149 | definition, no contract: a date header goes before the first message and before every message whose UTC day differs from the previous one's |
| Conversation.DateHeader | smsdb2html.py:150 | definition, no contract: the `<p class="date">` element of a day caption |
| Conversation.Bubble | smsdb2html.py:194-197 | definition, no contract: class `<service>-from-me last` for a sent message, `<service>-to-me last` otherwise |
| Conversation.Block | smsdb2html.py:144-199 | definition, no contract: the block of message i, with the header decided by HeaderAt |
| Conversation.RenderPrefix | smsdb2html.py:144-199 | definition, no contract: the blocks of the first n messages in order, or the first exception |
| Conversation.RenderPrefixErr | smsdb2html.py:144-199 | the first failing message's exception is the result, whatever follows it |
| Conversation.MakeConv | smsdb2html.py:139-202 | the loop, with its tracked day, computes `ConvHtml`, including the exception of the first failing message |
| Conversation.ConvHtml | smsdb2html.py:139-202 | definition, no contract: the blocks of all messages, in order, or the first exception |
| Conversation.ConvHtmlEmpty | smsdb2html.py:141-202 | no messages render as "" |
| Conversation.RenderPrefixOkIff | smsdb2html.py:144-199 | rendering succeeds exactly when every block does |
| Conversation.RenderPrefixErrFrom | smsdb2html.py:144-199 | a failed rendering carries the exception of some message's block |
| Conversation.ConvHtmlOkIff | smsdb2html.py:139-202 | a page renders exactly when every message has a service and a rerootable path; otherwise it fails with AttributeError or ValueError |
| Conversation.RenderPrefixAppend | smsdb2html.py:144-199 | later messages never change how earlier ones render |
| Conversation.ConvHtmlSnoc | smsdb2html.py:144-199 | one more message appends exactly its block: one bubble per message, in order |
| Conversation.ConvHtmlSingle | smsdb2html.py:149-197 | a single message renders as its day's header followed by its bubble |
| Conversation.BubbleCaseInsensitive | smsdb2html.py:147 | services that differ only in the case of their letters give the same bubble |
| Conversation.GroupStart | smsdb2html.py:149-151 | every message follows a header of its own day, with no change of day in between |
| Conversation.DaysBefore | smsdb2html.py:149 | every message's day is among the days seen |
| Conversation.DaysBeforeBounded | smsdb2html.py:149-151 | for messages in date order, no day seen so far is later than the last message's |
| Conversation.HeadersPerDay | smsdb2html.py:149-151 | for messages in date order, there is exactly one date header per distinct day |
| Conversation.HeadersBefore | smsdb2html.py:149-151 | definition, no contract: the number of date headers among the first n messages |
| Directory.PreviewRules | smsdb2html.py:207-212 | None shows "No Messages"; a text of at most 50 characters is kept verbatim; a longer one becomes the first min(50, n) characters of the newline-stripped text (n its length), followed by "..." |
| Directory.PreviewEllipsisAfterStripping | smsdb2html.py:211-212 | the length is measured before stripping: a text over 50 characters gets "..." even when it fits once the newlines are stripped |
| Directory.PreviewLongWithoutNewlines | smsdb2html.py:211-212 | a long text without newlines keeps its first 50 characters |
| Directory.Preview | smsdb2html.py:207-212 | definition, no contract: the preview of one text |
| Directory.PreviewOf | smsdb2html.py:208-212 | the in-place preview steps compute `Preview` |
| Directory.ChatFileName | smsdb2html.py:320 | every page name starts with "chat-" |
| Directory.ChatFileNameInjective | smsdb2html.py:216 | distinct ROWIDs name distinct pages |
| Directory.EntryLinksChat | smsdb2html.py:214-220 | each `<li>` entry contains the name of its handle's page |
| Directory.Entry | smsdb2html.py:214-220 | definition, no contract: the `<li>` entry of one handle |
| Directory.EntryOf | smsdb2html.py:207-222 | definition, no contract: the entry of one handle, or KeyError when `last_messages` lacks its ROWID |
| Directory.Entries | smsdb2html.py:206-222 | definition, no contract: the entries of the first n handles in order, or the first exception |
| Directory.EntriesErr | smsdb2html.py:206-207 | the first entry that fails decides the result, whatever handles follow |
| Directory.EntriesOkIff | smsdb2html.py:206-222 | the content renders exactly when every entry does; otherwise it fails with one entry's exception |
| Directory.ChoiceOkIff | smsdb2html.py:207 | the index renders exactly when `last_messages` has a text for every handle's ROWID; otherwise it raises KeyError |
| Directory.ChoiceHtml | smsdb2html.py:204-223 | definition, no contract: the entries of the handles in `values()` order, or KeyError |
| Directory.ChoiceStep | smsdb2html.py:207-222 | a handle with a text appends its entry and preview |
| Directory.ChoiceStop | smsdb2html.py:207 | a handle without a text makes the whole index fail with KeyError |
| Directory.RenderEntries | smsdb2html.py:205-223 | the loop over the handles computes the specified content, or the KeyError of the first missing ROWID |
| Directory.MakeChoice | smsdb2html.py:204-223 | `makeChoice` computes `ChoiceHtml`, one entry per handle in dictionary order |
| Directory.EntriesLinkEveryChat | smsdb2html.py:214-222 | when every entry names its handle's page, the content names the page of every handle |
| Directory.ChoiceLinksEveryChat | smsdb2html.py:216 | a rendered index links to the page of every handle in the dictionary |
| Directory.LastMessages | smsdb2html.py:300-310 | `last_messages` has a key exactly for every handle |
| Directory.PageOf | smsdb2html.py:305-320 | definition, no contract: the page of one handle, or its exception |
| Directory.Page | smsdb2html.py:315-320 | definition, no contract: a page's file name and its `{HANDLE}` and `{CHAT}` values |
| Directory.MakeConversations | smsdb2html.py:300-321 | pages are rendered in dictionary order, each matching `PageOf`; on success `last_messages` equals `LastMessages`; on failure every page before the failing one matches `PageOf` and the returned exception is that of the first failing page |
| Directory.Export | smsdb2html.py:300-330 | the export succeeds exactly when every handle's page renders; on success there is one page per handle, equal to `PageOf` (name `chat-<rowid>.html`, `{HANDLE}` and `{CHAT}`), and the index equals `ChoiceHtml` of the recorded texts and links every page; on failure the pages before the first failing handle are written and that handle's exception is returned |

## Left out

- Database access (`sqlite3`, `execute`): the two queries' results are the row sequences `HandleRow` and `MessageRow`. The attachment query is `Env.attachmentQuery`, a function of the message ROWID.
- Command-line parsing, `man()` and `exit()` (`smsdb2html.py:229-260`): `-a` becomes `Env.attachmentPath`.
- The check that the `-a` directory is named `Attachments` (`smsdb2html.py:262-264`) is not modelled.
- Finding or downloading the page resources, creating the output directory, copying style sheets and attachments (`smsdb2html.py:266-298`): these are file-system and network I/O.
- Reading the page templates and writing the files (`smsdb2html.py:312-333`): a page is its file name plus the two values substituted into the template, and the index is the `{CHOICE}` value.
- The progress printing is not modelled.
- NULL columns: the ROWIDs and the handle's `id` are taken to be non-NULL (the ROWIDs are row keys). Every other column of the two queries may be NULL and is an `Option`. A NULL `handle_id` gets UNKNOWN, a NULL flag is false, and a NULL `date` raises TypeError.
- `os.path.realpath` resolves symbolic links against the live file system. It is the parameter `Env.realpath`. Its `TypeError` on None is the "Attachment not found" branch.
- `strftime(r'%a %d %b %Y')` is the parameter `Env.dayLabel`, applied to the UTC day number.
- TimeCodec.UtcDay: exact rational arithmetic; the rounding of Python floats and of `datetime.utcfromtimestamp` to microseconds is not modelled.
- Text.Lower: folds ASCII letters only; Python's `str.lower` also folds other Unicode letters.
- `__repr__`, the `**kwargs` attributes other than `dateRaw`, and the demonstration code at the end of `smsdb.py` are not modelled.
- Loader.Open: the database path and connection are not modelled; the object is built from the row sequences.
- The model follows the code as written:
  - the account keeps only the field between the first and second ':', and raises IndexError when there is no ':';
  - a None file name ends as "Attachment not found", never "Unknown attachent";
  - `Attachments` occurring only inside a longer segment raises ValueError instead of leaving the path alone.
- The KeyError path of `makeChoice` models the dict lookup `last_messages[handle.rowid]`. The main loop always fills every key first, so the export never takes that path (see `Directory.Export`).
