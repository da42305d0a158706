# Mahogany message display, configuration sources and dialog helpers in Dafny

This project models the core of the Mahogany mail client that turns a
message into what the user sees, and the configuration machinery behind it:

- `MimeParts` (`mime_part.dfy`): MIME types and their case-insensitive
  parsing, wildcard matching, the part tree with its IMAP part
  specifications ("1", "2.3", ...), the lazily cached parameter lists, the
  parameter lookup, the file name cascade and the text charset.
- `MessageViews` (`message_view.dfy`): the message viewer. This covers
  header selection, merging and display, and the text part renderer (the
  encoding cascade, quote colouring and URL highlighting). It also covers
  the attachment, image and raw branches, the choice among
  multipart/alternative children, the recursion over nested parts, the
  size prompts for remote folders, and the user and automatic encodings.
- `QuoteURL` (`quote_url.dfy`): the view filter that splits a text into
  runs of equal quoting level and URLs and hands them to the next filter.
- `TextViewers` (`text_viewer.dfy`): the plain text viewer. It writes
  headers, parts, attachments and URLs into a text control and remembers
  clickable ranges, and mouse clicks are dispatched to the range under the
  pointer.
- `ConfigSources` (`config_sources.dfy`): the ordered list of
  configuration sources (the local one, the compatibility view of the old
  "/M" tree, further sources sorted by priority). It covers reading from
  the first source that knows a key, writing to the local source, and
  deleting, renaming, copying and flushing across all sources. It also
  covers the `wxConfigMultiplexer` deletion.
- `SpamOptions` (`spam_options.dfy`): the spam filter options page. It
  covers reading and writing the colon-separated list of active tests, the
  defaults, and the config value and field tables of the dialog.
- `Threading` (`threading.dfy`): the equality of threading parameters.
- `DialogLayout` (`dialog_layout.dfy`): the browse-button kind chosen for a
  file or directory entry, and the dirty, test and restart flags of the
  options dialog.
- `Mpers` (`mpers.dfy`): the numbering of the persistent message boxes and
  the lookup of their help text.
- `Common` (`common.dfy`): shared helpers. These are `Option`, ASCII case
  mapping and case-insensitive comparison, splitting and joining on a
  separator, decimal formatting, and the quote level clamp.

Outside services are parameters of the model. The display sinks (the
viewer, the next filter) become an append-only log of call records kept by
the object. The URL finder, the quote level counter, the charset table, the
MIME type registry, yes/no prompts, image decoding and X-Face decoding are
function-valued parameters.

The build configuration modelled is a Unix build with X-Face support, no
dial-up support and no RBL spam test.

## Model

| member | source | states |
|---|---|---|
| Common.ClampLevel | src/modules/viewflt/QuoteURL.cpp:187-199 | the clamped quote level never exceeds the maximum (3) |
| Common.ClampLevelSpec | src/modules/viewflt/QuoteURL.cpp:187-199 | levels up to 3 are kept; the result is 0 only for 0; without cycling deeper levels become 3; with cycling they keep their remainder modulo 3 |
| MimeParts.TypeNameIsTableEntry | src/mail/MimePartCC.cpp:75-81 | the name of the n-th primary type is the n-th entry of the body type table |
| MimeParts.MakeMimeType | src/mail/MimePartCC.cpp:45-49 | the primary type is kept; the subtype is stored upper-case and equal to the given one ignoring case |
| MimeParts.Assign | src/mail/MimePartCC.cpp:51-69 | the subtype is the upper-cased text after the first '/'; the type is invalid exactly when the upper-cased text before it is not a known body type, and otherwise it is that type |
| MimeParts.MatchesSelfAndWildcard | src/mail/MimePartCC.cpp:87-91 | a type matches itself and the wildcard "*" of its own primary type |
| MimeParts.MatchesConcreteIsEquality | src/mail/MimePartCC.cpp:87-91 | against a pattern without wildcard, matching is equality |
| MimeParts.MatchesTransitive | src/mail/MimePartCC.cpp:87-91 | matching is transitive |
| MimeParts.FindParam | src/mail/MimePartCC.cpp:218-235 | the value of the first parameter whose name equals the wanted one ignoring case, or empty when none does |
| MimeParts.DispositionFilenameWins | src/mail/MimePartCC.cpp:189-201 | a "filename" disposition parameter gives the file name |
| MimeParts.TypeFilenameSecond | src/mail/MimePartCC.cpp:189-201 | without one, a "filename" type parameter gives it |
| MimeParts.NameIsLastResort | src/mail/MimePartCC.cpp:189-201 | without either, the "name" type parameter gives it |
| MimeParts.NoFilenameParameters | src/mail/MimePartCC.cpp:189-201 | with none of the three the file name is empty |
| MimeParts.TextEncoding | src/mail/MimePartCC.cpp:318-324 | no charset gives the system encoding; otherwise the charset's encoding |
| MimeParts.Sections | src/mail/MimePartCC.cpp:127-144 | each step of a part's path is written as its decimal number |
| MimeParts.PartSpecIsJoin | src/mail/MimePartCC.cpp:127-144 | a part specification is the decimal numbers of its path joined with '.' |
| MimeParts.PartSpecInjective | src/mail/MimePartCC.cpp:127-144 | different non-empty paths get different part specifications |
| MimeParts.InitParamList | src/mail/MimePartCC.cpp:252-260 | the chain of parameters is appended after the list |
| MimeParts.MimePartCC.Root | src/mail/MimePartCC.cpp:115-125 | the top part of a message has specification "1", no parent and no cached lists |
| MimeParts.MimePartCC.Child | src/mail/MimePartCC.cpp:127-144 | a child of a nested part gets the parent's specification, '.', then its number; a child of the top part gets only its number; both equal the specification of its path |
| MimeParts.MimePartCC.GetMessage | src/mail/MimePartCC.cpp:288-293 | every part answers the message of the top of its tree |
| MimeParts.MimePartCC.GetParameters | src/mail/MimePartCC.cpp:262-271 | returns the type parameters; the list is built once and then kept |
| MimeParts.MimePartCC.GetDispositionParameters | src/mail/MimePartCC.cpp:273-282 | the same for the disposition parameters |
| MimeParts.MimePartCC.GetParam | src/mail/MimePartCC.cpp:237-240 | the first matching type parameter's value |
| MimeParts.MimePartCC.GetDispositionParam | src/mail/MimePartCC.cpp:242-245 | the first matching disposition parameter's value |
| MimeParts.MimePartCC.GetFilename | src/mail/MimePartCC.cpp:189-201 | the file name by the cascade above |
| MimeParts.MimePartCC.GetTextEncoding | src/mail/MimePartCC.cpp:318-324 | the encoding of the part's charset |
| QuoteURL.FindFrom | src/modules/viewflt/QuoteURL.cpp:265-272 | a found position holds the character searched for and lies at or after the start |
| QuoteURL.FindFromFirst | src/modules/viewflt/QuoteURL.cpp:265-272 | no earlier position from the start holds it |
| QuoteURL.LineRunsShape | src/modules/viewflt/QuoteURL.cpp:265-302 | the runs cover the text from the start; every run but the last is non-empty and ends with a newline; each new run's level differs from the one before |
| QuoteURL.LineRunsKeepLevels | src/modules/viewflt/QuoteURL.cpp:275-295 | when the text never has two '\n' in a row (CRLF line ends), every line inside a run has the run's quote level |
| QuoteURL.RunEmitsFlatten | src/modules/viewflt/QuoteURL.cpp:265-302 | the texts handed on for the runs put together are the text |
| QuoteURL.RunEmitsAreText | src/modules/viewflt/QuoteURL.cpp:265-302 | colouring hands on only text records |
| QuoteURL.ColourizeFromRuns | src/modules/viewflt/QuoteURL.cpp:265-302 | the colouring loop hands on one text per run, in the colour of the run's level |
| QuoteURL.ColourizeNewRun | src/modules/viewflt/QuoteURL.cpp:275-290 | a line of a different level closes the current run and starts one at the new level |
| QuoteURL.ColourizeSameRun | src/modules/viewflt/QuoteURL.cpp:275-295 | a line of the same level extends the current run |
| QuoteURL.ColourizeDone | src/modules/viewflt/QuoteURL.cpp:265-302 | without a further newline the rest goes out as one text in the level's colour |
| QuoteURL.Pass | src/modules/viewflt/QuoteURL.cpp:227-317 | each pass of the filter consumes at least the text before and including a URL, so what remains is shorter |
| QuoteURL.PassFlattens | src/modules/viewflt/QuoteURL.cpp:227-317 | one pass hands on exactly the consumed prefix |
| QuoteURL.OutputFlattens | src/modules/viewflt/QuoteURL.cpp:217-319 | the whole output, texts and URLs together, spells the input text |
| QuoteURL.NoHighlightNoUrls | src/modules/viewflt/QuoteURL.cpp:232-244 | without URL highlighting only texts are handed on; without quote colouring as well the text goes out whole in the given colour |
| QuoteURL.UrlsNonEmpty | src/modules/viewflt/QuoteURL.cpp:306-316 | every URL handed on is non-empty |
| QuoteURL.QuoteURLFilter.constructor | src/modules/viewflt/QuoteURL.cpp:144-154 | the colour table holds a placeholder for level 0 and the three configured quote colours |
| QuoteURL.QuoteURLFilter.GetQuoteColour | src/modules/viewflt/QuoteURL.cpp:204-211 | levels up to 3 index the colour table; deeper levels get no colour |
| QuoteURL.QuoteURLFilter.ColourizeLines | src/modules/viewflt/QuoteURL.cpp:265-302 | the records appended are the colouring of the text, and the final colour and level are those of the last run |
| QuoteURL.QuoteURLFilter.DoProcess | src/modules/viewflt/QuoteURL.cpp:217-319 | level 0 takes the current style's colour, and the records appended are the filter output for the text |
| Threading.DefaultParams | src/mail/Threading.cpp:55-61 | threading and all its options are off and both strings are empty |
| Threading.Effective | src/mail/Threading.cpp:77-90 | the parameters that matter: all of them with threading on, the defaults with it off |
| Threading.SameIffSameEffect | src/mail/Threading.cpp:77-90 | two parameter sets compare equal exactly when their effective parameters are equal |
| Threading.DifferentThreadingNotSame | src/mail/Threading.cpp:79-80 | different threading switches never compare equal |
| Threading.ThreadingOffAllSame | src/mail/Threading.cpp:82-83 | with threading off in both, everything else is ignored |
| Threading.ThreadingOnSameIff | src/mail/Threading.cpp:85-89 | with threading on, equality compares every field |
| Threading.SameIsEquivalence | src/mail/Threading.cpp:77-90 | the comparison is reflexive, symmetric and transitive |
| DialogLayout.FromOrdinal | include/gui/wxDialogLayout.h:70-87 | every position of the button kind enumeration names a kind |
| DialogLayout.OrdinalInjective | include/gui/wxDialogLayout.h:70-87 | different kinds have different positions |
| DialogLayout.GetBtnType | include/gui/wxDialogLayout.h:609-622 | the kind lies within two places after the base; base exactly for open and existing, base + 1 exactly for open and new, base + 2 exactly for save |
| DialogLayout.FileBtnKinds | include/gui/wxDialogLayout.h:609-622 | from the file kind: save, new or existing file button |
| DialogLayout.FileOrDirBtnKinds | include/gui/wxDialogLayout.h:609-622 | from the file-or-directory kind: the matching three buttons |
| DialogLayout.GetBtnTypeDistinguishes | include/gui/wxDialogLayout.h:609-622 | two choices give the same button exactly when both open alike and, when opening, both want existing files or both do not |
| DialogLayout.FileEntryKind | include/gui/wxDialogLayout.h:485-494 | a file entry gets one of the three file buttons |
| DialogLayout.FileOrDirEntryKind | include/gui/wxDialogLayout.h:498-507 | a file-or-directory entry gets one of the three file-or-directory buttons |
| DialogLayout.OptionsEditDialog.SetNotebookPage | include/gui/wxDialogLayout.h:284-288 | -1 keeps the page; any other page is selected; the flags are kept |
| DialogLayout.OptionsEditDialog.EnableButtons | include/gui/wxDialogLayout.h:310 | Ok and Apply become enabled or disabled together; the flags are kept |
| DialogLayout.OptionsEditDialog.SetDirty | include/gui/wxDialogLayout.h:293 | the dialog becomes dirty and its buttons enabled |
| DialogLayout.OptionsEditDialog.SetDoTest | include/gui/wxDialogLayout.h:295 | the dialog becomes dirty and due for a test, with buttons enabled |
| DialogLayout.OptionsEditDialog.SetGiveRestartWarning | include/gui/wxDialogLayout.h:297 | only the restart warning is raised |
| DialogLayout.OptionsEditDialog.ResetDirty | include/gui/wxDialogLayout.h:319-325 | dirty, test and restart flags are cleared and Apply is disabled; Ok is kept |
| Mpers.IdCounter.NewMPersMsgBox | src/classes/Mpers.cpp:216-221 | each new box takes the next number |
| Mpers.MPersMsgBox.constructor | src/classes/Mpers.cpp:227-230 | a box's id is the counter's value when it is created |
| Mpers.DeclareAll | src/classes/Mpers.cpp:38-117 | the boxes are numbered consecutively in declaration order and the end marker comes last |
| Mpers.DeclarationsMatchTable | src/classes/Mpers.cpp:237-243 | there are as many boxes as table rows, the consistency the name lookup asserts |
| Mpers.ConsecutiveIdsDistinct | src/classes/Mpers.cpp:216-221 | consecutively numbered boxes have strictly increasing ids |
| Mpers.FirstDesc | src/classes/Mpers.cpp:249-256 | a description found belongs to a row of that name; an unknown name finds none |
| Mpers.ScanHelp | src/classes/Mpers.cpp:246-264 | the loop's answer is the help of the first row with the name, or "unknown (name)" |
| Mpers.GetPersMsgBoxHelp | src/classes/Mpers.cpp:246-264 | the same over the message box table |
| Mpers.HelpOfFirstRow | src/classes/Mpers.cpp:249-256 | the first row carrying the name gives its description as the help text, when that is not empty |
| Mpers.HelpOfRowName | src/classes/Mpers.cpp:249-256 | with distinct row names, every row's name gives its own non-empty description |
| Mpers.HelpOfBoxName | src/classes/Mpers.cpp:237-243 | the name of a box leads back to the help of its own row |
| Mpers.HelpOfUnknownName | src/classes/Mpers.cpp:258-261 | a name no row carries gives "unknown (name)" |
| SpamOptions.StandardOptions | src/gui/wxSpamOptions.cpp:289-307 | ten options in the order of the table, each with its test token |
| SpamOptions.StandardDefaults | src/gui/wxSpamOptions.cpp:54-180 | the first five tests default to on, the other five to off |
| SpamOptions.FirstWithToken | src/gui/wxSpamOptions.cpp:357-365 | the first option whose token is the test name, or none when no option has it |
| SpamOptions.ActiveTokensIn | src/gui/wxSpamOptions.cpp:376-386 | a token is written exactly when an option with it is active |
| SpamOptions.ActiveTokensEmptyIff | src/gui/wxSpamOptions.cpp:376-386 | nothing is written exactly when no option is active |
| SpamOptions.MarkedIff | src/gui/wxSpamOptions.cpp:348-369 | an option is marked exactly when its token is among the tests read |
| SpamOptions.ToStringEmptyIff | src/gui/wxSpamOptions.cpp:372-389 | the string is empty exactly when no test is active |
| SpamOptions.RoundTrip | src/gui/wxSpamOptions.cpp:340-389 | reading back what was written restores the active tests when at least one is active |
| SpamOptions.AllOffBecomesDefaults | src/gui/wxSpamOptions.cpp:340-346 | with all tests off the empty string reads back as the defaults |
| SpamOptions.ConfigEntryCount | src/gui/wxSpamOptions.cpp:223 | one config entry per option plus the explanation |
| SpamOptions.ConfigSlots | src/gui/wxSpamOptions.cpp:419-429 | slot 0 holds no value and slot i the (i-1)-th option's key and default |
| SpamOptions.FieldSlots | src/gui/wxSpamOptions.cpp:431-452 | field 0 is the introduction text and field i a checkbox with the (i-1)-th option's title |
| SpamOptions.Iterator.Next | src/gui/wxSpamOptions.cpp:277 | moves to the next option and never past the end |
| SpamOptions.SpamOptionManagerBody.constructor | src/gui/wxSpamOptions.cpp:310-314 | the options are the table and both dialog tables are built |
| SpamOptions.SpamOptionManagerBody.SetDefaults | src/gui/wxSpamOptions.cpp:322-329 | every option takes its default |
| SpamOptions.SpamOptionManagerBody.SetFalse | src/gui/wxSpamOptions.cpp:331-338 | every option is switched off |
| SpamOptions.SpamOptionManagerBody.MatchOption | src/gui/wxSpamOptions.cpp:357-365 | the inner search finds the first option with the token |
| SpamOptions.SpamOptionManagerBody.FromString | src/gui/wxSpamOptions.cpp:340-370 | the options active are those named in the string, or the defaults for an empty string |
| SpamOptions.SpamOptionManagerBody.ToString | src/gui/wxSpamOptions.cpp:372-389 | the tokens of the active options joined with ':' |
| SpamOptions.SpamOptionManagerBody.BuildConfigValues | src/gui/wxSpamOptions.cpp:419-429 | a fresh config value table as above |
| SpamOptions.SpamOptionManagerBody.BuildFieldInfo | src/gui/wxSpamOptions.cpp:431-452 | a fresh field table as above |
| TextViewers.CommandFor | src/modules/TextViewer.cpp:259-272 | right button release, left release and left double click give the right-click, click and double-click commands, each exactly |
| TextViewers.DispatchesExactlyInside | src/modules/TextViewer.cpp:250-278 | a command is dispatched exactly for a clickable range under the pointer, with the command of the event |
| TextViewers.AtMostOneDispatch | src/modules/TextViewer.cpp:250-278 | with ordered, non-overlapping ranges at most one command is dispatched |
| TextViewers.AttachmentText | src/modules/TextViewer.cpp:434-439 | the attachment line is the caption framed by fourteen characters |
| TextViewers.AttachmentLabelRoundTrip | src/modules/TextViewer.cpp:434-439 | the caption can be read back from the attachment line |
| TextViewers.HeaderLine | src/modules/TextViewer.cpp:386-408 | a header line is name, ": ", value and a newline |
| TextViewers.HeaderLineSplits | src/modules/TextViewer.cpp:386-408 | up to the first ':' is the name and the rest is the value line |
| TextViewers.HeaderValueStyle | src/modules/TextViewer.cpp:397-405 | values take the header value colour and a font only for a non-system encoding |
| TextViewers.TextViewerWindow.constructor | src/modules/TextViewer.cpp:193-202 | an empty control with no clickable ranges |
| TextViewers.TextViewerWindow.InsertClickable | src/modules/TextViewer.cpp:209-223 | the text is appended, in the given colour if any, and its range is remembered with its click information |
| TextViewers.TextViewerWindow.Clear | src/modules/TextViewer.cpp:225-230 | the text and the ranges are gone |
| TextViewers.TextViewerWindow.ProcessMouseEvent | src/modules/TextViewer.cpp:250-278 | the dispatched commands are those for the ranges under the position |
| TextViewers.TextViewerWindow.OnMouseEvent | src/modules/TextViewer.cpp:241-246 | the same at the insertion point |
| TextViewers.TextViewer.constructor | src/modules/TextViewer.cpp:292-295 | the viewer starts with an empty window |
| TextViewers.TextViewer.Clear | src/modules/TextViewer.cpp:307-319 | the window is emptied and takes the configured font size and family with the default encoding, and the configured colours |
| TextViewers.TextViewer.ShowRawHeaders | src/modules/TextViewer.cpp:381-384 | the raw header is appended |
| TextViewers.TextViewer.ShowHeader | src/modules/TextViewer.cpp:386-408 | an empty value shows nothing; otherwise the header line with the name in the name colour and the value in the value style |
| TextViewers.TextViewer.StartPart | src/modules/TextViewer.cpp:427-432 | a part starts on a new line |
| TextViewers.TextViewer.InsertAttachment | src/modules/TextViewer.cpp:434-439 | the attachment line is appended as a clickable range |
| TextViewers.TextViewer.InsertText | src/modules/TextViewer.cpp:455-459 | the text is appended in the merged style |
| TextViewers.TextViewer.InsertURL | src/modules/TextViewer.cpp:461-464 | the URL is appended as a clickable range carrying the URL |
| TextViewers.TextViewer.EndBody | src/modules/TextViewer.cpp:477-482 | the insertion point returns to the top |
| TextViewers.TextViewer.CanInlineImages | src/modules/TextViewer.cpp:512-516 | the text viewer never shows images inline |
| TextViewers.TextViewer.CanProcess | src/modules/TextViewer.cpp:518-522 | the text viewer processes no MIME type itself |
| ConfigSources.ListsIffHas | src/classes/ConfigSourcesAll.cpp:51-78 | a store lists an item under its parent exactly when it has it; the old-config view lists it under "/M" |
| ConfigSources.DeleteInRemoves | src/classes/ConfigSourcesAll.cpp:611-638 | a store delete reports success exactly when it can write, and then the item is gone |
| ConfigSources.LocalOldIsReadOnly | src/classes/ConfigSourcesAll.cpp:65-77 | the old-config view ignores writes and deletes and reports success |
| ConfigSources.Slot | src/classes/ConfigSourcesAll.cpp:373-388 | the place for a new source is after every source of lower or equal priority and before the first of higher priority |
| ConfigSources.InsertKeepsSorted | src/classes/ConfigSourcesAll.cpp:373-388 | inserting there keeps the list sorted by priority |
| ConfigSources.OrderedIsSorted | src/classes/ConfigSourcesAll.cpp:353-391 | the finished list is sorted by priority |
| ConfigSources.OrderedPermutes | src/classes/ConfigSourcesAll.cpp:353-391 | and holds exactly the sources created |
| ConfigSources.EqualPrioritiesKeepOrder | src/classes/ConfigSourcesAll.cpp:373-388 | sources of equal priority stay in creation order |
| ConfigSources.FindSlot | src/classes/ConfigSourcesAll.cpp:373-388 | the walk over the list finds that place |
| ConfigSources.CreatedAreRemote | src/classes/ConfigSourcesAll.cpp:353-391 | the further sources all carry the priority read from the fixed path |
| ConfigSources.LocalFirstOldSecond | src/classes/ConfigSourcesAll.cpp:301-342 | the local source comes first, the old-config view second exactly when the old tree is in use, then only further sources |
| ConfigSources.FurtherSourcesInEnumerationOrder | src/classes/ConfigSourcesAll.cpp:350-391 | as all further sources get the same priority, they stay in the order of the config groups |
| ConfigSources.RankSources | src/classes/ConfigSourcesAll.cpp:353-391 | the constructor's loop builds the list sorted by priority |
| Common.ParseIntToString | src/classes/ConfigSourcesAll.cpp:411-417 | an integer written in decimal parses back as the same integer |
| ConfigSources.ReadAs | src/classes/ConfigSourcesAll.cpp:411-417 | a typed read yields the type asked for; a value of that type comes back unchanged; a string read never fails |
| ConfigSources.ReadAsRoundTrip | src/classes/ConfigSourcesAll.cpp:411-417 | a number reads back as itself as a number and as its decimal text as a string, and its decimal text reads as the number |
| ConfigSources.FirstRead | src/classes/ConfigSourcesAll.cpp:404-424 | the first source that can read the key as the type asked for |
| ConfigSources.ReadAllNoneIff | src/classes/ConfigSourcesAll.cpp:404-424 | a read fails exactly when no source can read the key as the type asked for (for a string read, when no source has it); what it yields has that type |
| ConfigSources.NumericReadFallsThrough | src/classes/ConfigSourcesAll.cpp:411-420 | a numeric read passes over a source whose entry is text that is not a number and takes the next source's answer, while a string read stops at that entry |
| ConfigSources.FirstHas | src/classes/ConfigSourcesAll.cpp:535-559 | the first source that has the group or entry |
| ConfigSources.WriteMakesVisible | src/classes/ConfigSourcesAll.cpp:426-461 | after a write a read of the key, of the value's own type, gives the value written |
| ConfigSources.WriteTouchesOnlyLocal | src/classes/ConfigSourcesAll.cpp:426-461 | a write changes only the local source, and writing the value already read changes nothing |
| ConfigSources.DeleteLoopSpins | src/classes/ConfigSourcesAll.cpp:179-204 | as written, deleting a key that the old-config view reports never finishes |
| ConfigSources.DeleteLoopSpinsOnView | src/classes/ConfigSourcesAll.cpp:179-204 | the loop keeps choosing the old-config view, whose delete changes nothing |
| ConfigSources.SpinExampleIsBuilt | src/classes/ConfigSourcesAll.cpp:336-342 | a local file holding "/M/Profiles/Version" gets its old-config view, so the store list of the delete finding is one the constructor builds |
| ConfigSources.DeleteEachSucceedsIff | src/classes/ConfigSourcesAll.cpp:611-638 | deleting from each store once succeeds exactly when some store has the item and every store that has it deletes it |
| ConfigSources.DeleteEachEffect | src/classes/ConfigSourcesAll.cpp:611-638 | every store that has the item has it deleted, the others are untouched |
| ConfigSources.DeleteEachClears | src/classes/ConfigSourcesAll.cpp:611-638 | after a successful delete no store except the old-config view still has it |
| ConfigSources.RenamedPositiveIff | src/classes/ConfigSourcesAll.cpp:578-609 | a rename counts as done exactly when some store holding the group renames it |
| ConfigSources.RenameStep | src/classes/ConfigSourcesAll.cpp:578-609 | each store holding the group is asked to rename it and counted when it succeeds |
| ConfigSources.AllConfigSources.constructor | src/classes/ConfigSourcesAll.cpp:301-392 | no local config gives no sources; otherwise local, old view if used, then the ranked further sources |
| ConfigSources.AllConfigSources.Find | src/classes/ConfigSourcesAll.cpp:535-559 | the first source that has the group or entry |
| ConfigSources.AllConfigSources.Read | src/classes/ConfigSourcesAll.cpp:404-424 | the value from the first source that can read the key as a number (for a numeric lookup) or as a string |
| ConfigSources.AllConfigSources.Write | src/classes/ConfigSourcesAll.cpp:426-461 | the write as specified by WriteAll |
| ConfigSources.AllConfigSources.Delete | src/classes/ConfigSourcesAll.cpp:611-667 | every store listing the item deletes it; success exactly when all of those succeed |
| ConfigSources.AllConfigSources.Rename | src/classes/ConfigSourcesAll.cpp:578-609 | every store listing the group is asked to rename it; success exactly when all do and at least one did |
| ConfigSources.AllConfigSources.CopyGroup | src/classes/ConfigSourcesAll.cpp:497-509 | every store is asked to copy; success exactly when all of them succeed |
| ConfigSources.AllConfigSources.FlushAll | src/classes/ConfigSourcesAll.cpp:565-576 | success exactly when every store flushes |
| ConfigSources.ConfigMultiplexer.constructor | src/classes/ConfigSourcesAll.cpp:92-95 | wraps the sources at the root path |
| ConfigSources.ConfigMultiplexer.SetPath | src/classes/ConfigSourcesAll.cpp:98-102 | the current path becomes the given one |
| ConfigSources.ConfigMultiplexer.Resolve | src/classes/ConfigSourcesAll.cpp:182-185 | an absolute key is kept; a relative one is put under the current path |
| ConfigSources.ConfigMultiplexer.Delete | src/classes/ConfigSourcesAll.cpp:179-230 | the corrected delete visits every store once, with the success and effect stated by DeleteEach |
| ConfigSources.ConfigMultiplexer.DeleteAll | src/classes/ConfigSourcesAll.cpp:232-237 | deleting everything is refused |
| MessageViews.NormalizeIsCanonical | src/classes/MessageView.cpp:85-94 | two header names normalize alike exactly when they are equal ignoring case |
| MessageViews.NormalizeIdempotent | src/classes/MessageView.cpp:85-94 | normalizing twice is normalizing once |
| MessageViews.QuotedLevel | src/classes/MessageView.cpp:1081-1108 | the level is at most 3, kept when at most 3, 0 only for unquoted text, 3 for deeper text without cycling, and the same modulo 3 with cycling |
| MessageViews.QuotedLevelHasColour | src/classes/MessageView.cpp:1110-1121 | unquoted text takes the foreground colour and level k the k-th quote colour |
| MessageViews.PartEncodingCascade | src/classes/MessageView.cpp:1134-1159 | a user encoding wins; without it and without detection the system encoding; with detection the part charset or else the remembered one |
| MessageViews.AutoIsFirstCharset | src/classes/MessageView.cpp:1134-1159 | the encoding remembered across parts is the first part charset found |
| MessageViews.SizeCheckSilentIff | src/classes/MessageView.cpp:2554-2577 | the user is asked exactly when the size reaches the limit, and the answer decides |
| MessageViews.SizeGatesDisjoint | src/classes/MessageView.cpp:2579-2601 | parts are checked only for IMAP and whole messages only for POP and NNTP, never both, never for local folders |
| MessageViews.LabelShowsSize | src/classes/MessageView.cpp:1372-1398 | a multipart label is the file name and type; otherwise two labels agree only for equal sizes |
| MessageViews.InlineImageDecision | src/classes/MessageView.cpp:1264-1323 | no inline images, or limit 0: shown as attachment; limit -1: always inline; otherwise asked exactly above the limit |
| MessageViews.RetypedOnlyByExtension | src/classes/MessageView.cpp:1431-1454 | only application parts change type, and only to image, audio or video by their file extension |
| MessageViews.AttachmentDisposition | src/classes/MessageView.cpp:1460-1499 | a part marked attachment is shown as an image exactly when its type is an image, else as an attachment |
| MessageViews.ViewerFormatsFirst | src/classes/MessageView.cpp:1465-1483 | otherwise the viewer takes it raw exactly when it can process the type |
| MessageViews.Lines | src/classes/MessageView.cpp:1183-1221 | the text goes out in non-empty pieces, each ending with a newline but the last |
| MessageViews.LinesPieces | src/classes/MessageView.cpp:1183-1221 | the pieces put together are the text |
| MessageViews.Round | src/classes/MessageView.cpp:1183-1240 | one round emits text and, only when highlighting, a URL |
| MessageViews.Rounds | src/classes/MessageView.cpp:1183-1240 | only text and URLs are emitted, and no URLs without highlighting |
| MessageViews.RoundPieces | src/classes/MessageView.cpp:1183-1240 | one round emits the text before the URL and the URL |
| MessageViews.RoundsPieces | src/classes/MessageView.cpp:1183-1240 | all rounds emit the whole text |
| MessageViews.TextCallsCoverText | src/classes/MessageView.cpp:1123-1246 | a text part emits exactly its text, as text only when URLs are not highlighted |
| MessageViews.InnerIsContent | src/classes/MessageView.cpp:1465-1499 | the body of a shown part emits only content calls |
| MessageViews.PartBracketed | src/classes/MessageView.cpp:1409-1502 | an empty part shows nothing; any other is bracketed by start and end of part with only content between |
| MessageViews.BestIndex | src/classes/MessageView.cpp:1527-1554 | the alternative chosen is the last one the viewer can show, or the first when none |
| MessageViews.IsPlainTextIff | src/classes/MessageView.cpp:1540-1541 | testing the primary type and subtype is the same as comparing the full type with "TEXT/PLAIN" |
| MessageViews.ShownFromIsConcat | src/classes/MessageView.cpp:1504-1514 | nested parts are shown child after child |
| MessageViews.PartSelection | src/classes/MessageView.cpp:1516-1583 | of alternatives one is shown, the preferred last; a mixed multipart shows all children; a message shows its parts if inlined, then itself |
| MessageViews.ShownByType | src/classes/MessageView.cpp:1516-1583 | the same for every type, with invalid parts showing nothing and simple parts themselves |
| MessageViews.IndexNoCaseSpec | src/classes/MessageView.cpp:880-894 | the envelope lookup finds the first name equal ignoring case, or none exactly when none is |
| MessageViews.IndexExact | src/classes/MessageView.cpp:933-940 | the merge lookup finds a name only when it is equal as written |
| MessageViews.ConfiguredHeaders | src/classes/MessageView.cpp:786-795 | with faces shown, "X-Face" is asked for first |
| MessageViews.UserHeaders | src/classes/MessageView.cpp:786-805 | the headers to show are X-Face when faces are shown, then the configured names, less a trailing empty one |
| MessageViews.TrailingSeparatorIgnored | src/classes/MessageView.cpp:786-805 | a trailing ':' in the header setting adds no empty header |
| MessageViews.MergedValues | src/classes/MessageView.cpp:929-1010 | the corrected merge gives one value per configured header |
| MessageViews.SubjectIsEnvelope | src/classes/MessageView.cpp:880-894 | "subject" is classified as the envelope Subject |
| MessageViews.SubjectNotExact | src/classes/MessageView.cpp:933-940 | but the merge does not find "subject" |
| MessageViews.MailerNotEnvelope | src/classes/MessageView.cpp:880-894 | "X-Mailer" is not an envelope header |
| MessageViews.FaceNotEnvelope | src/classes/MessageView.cpp:880-894 | "X-Face" is not an envelope header, so its value comes from the header lines |
| MessageViews.MergeAsWrittenDrops | src/classes/MessageView.cpp:929-1010 | as written, "subject:X-Mailer" yields only one value |
| MessageViews.MergeAsWrittenMisaligns | src/classes/MessageView.cpp:929-1064 | and that value is X-Mailer's, shown under Subject, where the corrected merge gives both; there are fewer values than names, so the display loop reads one past the end |
| MessageViews.LastEncodingIsLast | src/classes/MessageView.cpp:1041-1067 | the encoding kept is the last header's non-system one, and system exactly when there is none |
| MessageViews.HeaderLines | src/classes/MessageView.cpp:1041-1067 | one header call per configured header |
| MessageViews.FaceEvents | src/classes/MessageView.cpp:1015-1036 | the face icon is shown exactly when the X-Face value is longer than 20 characters and decodes |
| MessageViews.FacesFirst | src/classes/MessageView.cpp:786-795 | with faces shown, X-Face is the first configured header |
| MessageViews.HeaderBlock | src/classes/MessageView.cpp:770-1075 | the header block is start, raw headers if asked, the face icon, one line per header after X-Face, end; the remembered encoding is the last one found among the headers shown as lines; the values are those of the corrected merge (see Findings) |
| MessageViews.FaceIconFirst | src/classes/MessageView.cpp:1015-1036 | with faces shown, the event after the raw headers is the face icon exactly when the value is long enough and decodes |
| MessageViews.HeadersShownInOrder | src/classes/MessageView.cpp:880-1067 | with or without faces, the i-th header line shows the i-th configured header after X-Face with its own value, in its own encoding if any, else the user's; this holds for the corrected merge (see Findings), not for the lookup as written |
| MessageViews.RenderAutoStart | src/classes/MessageView.cpp:1585-1612 | with headers configured the remembered encoding does not depend on the previous message; with none it leaks from it |
| MessageViews.ColourLines | src/classes/MessageView.cpp:1183-1221 | the line loop emits the pieces specified by Lines |
| MessageViews.ShowRound | src/classes/MessageView.cpp:1183-1240 | one round of the URL loop, as specified by Round |
| MessageViews.RenderText | src/classes/MessageView.cpp:1161-1245 | the text part body as specified by TextCalls |
| MessageViews.FindBest | src/classes/MessageView.cpp:1527-1554 | the loop picks the alternative specified by BestIndex |
| MessageViews.ClassifyHeaders | src/classes/MessageView.cpp:880-894 | marks each header as envelope or not and collects the others in order |
| MessageViews.MergeHeaderValues | src/classes/MessageView.cpp:929-1010 | the corrected merge loop computes MergedValues |
| MessageViews.ShowHeaderLines | src/classes/MessageView.cpp:1041-1067 | shows the header lines and keeps the last encoding found |
| MessageViews.MessageView.constructor | src/classes/MessageView.cpp:387-408 | both encodings start as system and no message is shown |
| MessageViews.MessageView.ShowHeaders | src/classes/MessageView.cpp:770-1075 | appends the header block, with the face icon when faces are shown, and remembers its encoding, keeping the old one when no header is configured; the values come from the corrected merge (see Findings) |
| MessageViews.MessageView.ShowTextPart | src/classes/MessageView.cpp:1123-1246 | appends the text part calls and updates the remembered encoding |
| MessageViews.MessageView.ShowAttachment | src/classes/MessageView.cpp:1252-1262 | appends the attachment call |
| MessageViews.MessageView.ShowImage | src/classes/MessageView.cpp:1264-1369 | appends the inline image or the attachment, after the prompt if any |
| MessageViews.MessageView.ShowPart | src/classes/MessageView.cpp:1409-1502 | appends the bracketed part |
| MessageViews.MessageView.ShowInner | src/classes/MessageView.cpp:1456-1499 | appends the body of the part by its branch |
| MessageViews.MessageView.ProcessPart | src/classes/MessageView.cpp:1516-1583 | shows the parts selected from the node, in order |
| MessageViews.MessageView.ShowAlternative | src/classes/MessageView.cpp:1527-1554 | of a multipart/alternative only the chosen child is shown |
| MessageViews.MessageView.ProcessMessage | src/classes/MessageView.cpp:1562-1578 | a message part shows its nested parts when inlined, then itself |
| MessageViews.MessageView.ProcessAllNestedParts | src/classes/MessageView.cpp:1504-1514 | shows the selections of all children in order |
| MessageViews.MessageView.Update | src/classes/MessageView.cpp:1585-1612 | clears the viewer and renders the message, if any, with the header block over the corrected merge (see Findings) |
| MessageViews.MessageView.SetEncoding | src/classes/MessageView.cpp:2478-2484 | sets the user encoding and renders again, with the header block over the corrected merge (see Findings) |
| MessageViews.MessageView.ResetUserEncoding | src/classes/MessageView.cpp:2486-2495 | with automatic encoding on the user encoding is dropped |
| MessageViews.MessageView.DoShowMessage | src/classes/MessageView.cpp:2603-2656 | a message refused at the size prompt is not shown; otherwise it becomes current and is rendered, with the header block over the corrected merge (see Findings) |
| MessageViews.MessageView.Clear | src/classes/MessageView.cpp:546-558 | no message remains and the viewer is cleared |

## Left out

- MessageViews.MessageView.ShowHeaders: the header block pairs each configured header with its own value, as the corrected merge does, and so does every path that renders a message (Update, SetEncoding, DoShowMessage). The misaligned values and the read past the end of the lookup as written are stated only by MessageViews.MergeAsWrittenMisaligns (see Findings).
- Drawing, fonts and colours of real widgets. The viewer and the next view filter are a log of calls. A font is reduced to its encoding, size and family.
- Scrolling, searching, selecting and printing in the text viewer; the context menus and the popup windows opened by a click are not modelled beyond the command dispatched.
- MessageViews: the menus and the autocollection of addresses, the seen flag, the asynchronous folder reads, `ShowMessage` with its folder lookups, and the event registration.
- MessageViews: image decoding and its fallback through an external converter are a parameter saying whether the image loads. X-Face decoding is a parameter saying whether the value decodes; the bitmap itself is not modelled, the face event carries the header value.
- MessageViews: the size in bytes of a part and the configured limits are unbounded naturals; `size_t` wrap-around is modelled only in the inline image limit.
- MessageViews.PartSelection: a multipart/alternative with no children shows nothing; the source passes a null part on, which it does not check.
- MessageViews.ShownByType: the default branch, which only logs an error for an unknown type, shows nothing.
- MessageViews.QuotedLevel: the quote counter (`strutil_countquotinglevels`) is a parameter; its own behaviour is not part of this model.
- MessageViews: type tests use a case-insensitive comparison of the primary type; the MIME type registry is a parameter.
- QuoteURL: reading the options from the profile (`ReadOptions`) is not modelled beyond the colour table; the filter takes its options as a value. The URL finder is a parameter whose contract is that its three pieces spell the text.
- QuoteURL.LineRunsKeepLevels: the filter skips one character after a line end, which is right for "\r\n"; the lemma holds only for texts without a bare blank line after a line end, and the model keeps the skip as written.
- SpamOptions: the test token strings are defined outside the core and are parameters; the proofs use only that they are distinct, non-empty and free of ':'. The RBL test is left out as the build modelled does not include it.
- SpamOptions: `strutil_restore_array` is modelled as splitting on ':'; the dialog itself and the option pages are not modelled.
- SpamOptions.RoundTrip: holds only with at least one test active, because the empty string reads back as the defaults (AllOffBecomesDefaults).
- Mpers: translating the help text is left out; the texts are compared untranslated. The dial-up boxes are left out, as is the build modelled.
- DialogLayout.OptionsEditDialog.EnableButtons: its body is not in the header, so the model assumes it enables or disables Ok and Apply together.
- DialogLayout: laying out the controls of the dialogs is not modelled.
- ConfigSources: each store is a value with its entries, groups, and whether it can write and flush; the wxConfig implementations behind them are not modelled.
- ConfigSources.AllConfigSources.Rename: the rename inside a store is recorded as a call, not applied to the store; its success is whether the store can write.
- ConfigSources.AllConfigSources.CopyGroup: the recursive copy inside a store is recorded as a call, not applied; its success is whether the store can write.
- Common: case-insensitive comparison and upper-casing (`MakeUpper`, `CmpNoCase`, `Index(h, false)`) fold only the ASCII letters A-Z; MIME tokens and header names are ASCII, and locale-dependent case folding is not modelled.
- Common.ParseLong: the leading blanks that `strtol` skips and numbers beyond the range of `long` are not modelled.
- ConfigSources: a value is stored as text or as a number; a number is read as a string in its decimal form and text is read as a number by ParseLong, which stands in for the wxConfig conversions.
- ConfigSources: enumerating groups and entries (`GetFirstGroup`, `GetNextEntry` and their iterator data) is not modelled.
- ConfigSources.DeleteLoop: the loop as written has no bound, so it takes a fuel argument; running out of fuel stands for spinning forever.
- Threading: only the parameter comparison is modelled; the threading algorithm is not part of the core.

## Findings

| source | as written | input that shows it | evidently intended | confidence | as-written member | corrected member |
|---|---|---|---|---|---|---|
| src/classes/ConfigSourcesAll.cpp:179-230 | the multiplexer deletes in a loop until no source has the entry; the old-config view answers `HasEntry` for the unprefixed path but its delete is a no-op that reports success | a local file holding "/a" and "/M/Profiles/Version", so that its old-config view is added, deleting "/a" | delete from each source that has the entry once, then stop | not executed | ConfigSources.DeleteLoopSpins | ConfigSources.ConfigMultiplexer.Delete |
| src/classes/MessageView.cpp:929-1064 | a header is classified as an envelope header ignoring case, but its value is then looked up in the envelope names as written; the value is skipped, so the values no longer line up with the names and the display loop reads one value past the end | configured headers "subject:X-Mailer" | each configured header shown with its own value | not executed | MessageViews.MergeAsWrittenMisaligns | MessageViews.MergeHeaderValues |
