# Twelephant-bot section subscriptions, modelled in Dafny

The bot watches talk-page sections on the Chinese Wikipedia for its
subscribers. Every poll compares each watched page with the revision it last
saw. A page whose revision id changed is split into sections, and each
subscribed section is checked for new signatures. A new signature is one
that is neither in the old copy of the section nor the subscriber's own.
For each section with a new signature, the bot appends one talkback notice
to the subscriber's talk page and then stores the new revision.

The repository holds two variants of this engine:

- `subscribe-tool.py` is the newer one. It keys sections by (heading, level),
  and the last old section with a subscribed key wins. It skips pages that
  no longer exist. It fetches the text before comparing revision ids, and a
  `try` around each page abandons that page when something raises.
- `Subscribe_tool.py` is the older one. It keys sections by title, and the
  first old section with a subscribed title wins. It compares the revision
  id before fetching. It has no `try`: an error ends the whole pass, and
  since the module-level loop that calls it (Subscribe_tool.py:96-100) has
  no `try` either, it stops the bot.

Both use the same signature recogniser and the same `save` with retries.

The model has seven modules:

- `Signatures` (`signatures.dfy`) is the recogniser. It covers
  `signature_pattern`, `time_stamp_pattern`, `rx1` and the shape of `rx2`,
  written as functions over the text with Python `re` semantics spelled out:
  - `(?i)` case folding and `\s`;
  - the lazy `.*?`, which stops at the nearest timestamp on the same line;
  - `findall`, a leftmost scan whose matches do not overlap.
- `OwnNames` (`own_names.dfy`) is the user-name part of `rx2` in both
  variants.
- `Detection` (`detection.dfy`) holds what both engines share:
  - the wiki's answer for a page (`Remote`);
  - the decision loop over one section (ignore set, first fresh signature);
  - the delivery of notices, where one send that raises stops the rest.
- `SectionPoll` (`section_poll.dfy`) is the newer engine. `Watchlist` is a
  class whose page dictionary `CheckSubscribedPages` updates in place.
- `TitlePoll` (`title_poll.dfy`) is the older engine, with the class
  `TitledWatchlist`.
- `SaveRetry` (`save_retry.dfy`) is `save`: the bot-may-edit check, edit
  conflicts with a refetch and retry, refusals that stop, and other errors
  that propagate.
- `ConfigPages` (`config_pages.dfy`) covers the parts of `set_page_dict` that
  are logic rather than I/O:
  - the user name taken from the configuration page title;
  - the older variant's `config[:-1]`;
  - the dictionary of watched pages.

The wiki is never called. Everything it would answer is an input:

- each page's `Remote` (missing, unreadable at some revision id, or live with
  an id and a text);
- the answer to each save attempt (`respond(k)`);
- which notices raise when sent (`raises`);
- the section splitter (`split`).

## Model

| member | source | states |
|---|---|---|
| Signatures.TimestampAtIsLayout | subscribe-tool.py:9 | A timestamp is recognised from `i` to `e` exactly when the text between is `YYYY年M月D日 (W) HH:MM (UTC)`. Month and day have one or two digits, W is one of 一二三四五六日, and `(UTC)` is matched without regard to case. |
| Signatures.LinkPrefixAt | subscribe-tool.py:8 | A signature link prefix starts at `i` exactly when one of the alias spellings of `signature_pattern` matches there, case-folded. The prefix ends right after a spelling that matches. |
| Signatures.OneAliasAt | subscribe-tool.py:8 | No alias is a prefix of another: any two aliases that occur at the same position are the same spelling, and the prefix ends after it. Backtracking into a later alternative of `signature_pattern` can never give a different prefix. |
| Signatures.NearestStamp | subscribe-tool.py:10 | The lazy `.*?`: the match ends at the first timestamp at or after `k` that has no newline before it. If no timestamp comes before the next newline, there is no match. |
| Signatures.ScanFrom | subscribe-tool.py:10 | The `findall` scan. Every span it reports is a match, the spans are in order and do not overlap, and no match starts at a position the spans leave uncovered. |
| Signatures.SignatureSpans | subscribe-tool.py:10 | `rx1.findall`: every signature in the text, left to right and without overlap. Every uncovered position starts no match. |
| Signatures.SpaceRun | subscribe-tool.py:52 | `\s*` takes the longest run of whitespace characters. |
| Signatures.SpaceRunStops | subscribe-tool.py:52 | `\s*` can stop at a position exactly when every character before it, back to where it started, is whitespace: that is, anywhere up to the end of the longest run. |
| Signatures.BacktrackExact | subscribe-tool.py:52 | A greedy quantifier that gives back one character at a time succeeds exactly when the rest of the pattern succeeds after some number of the characters it may take, and then it ends where the rest does after the largest such number. |
| Signatures.OwnSignatureAtExact | subscribe-tool.py:52 | `rx2` matches at a link prefix exactly when, after some of the whitespace that follows the prefix, the name and then a timestamp on the same line come. The match ends at the timestamp nearest the name, for the longest whitespace run that works. |
| Signatures.OwnSpans | subscribe-tool.py:52 | `rx2.findall` for a user-name pattern: the subscriber's own signatures, with the same scan guarantees as `rx1`. |
| Signatures.WholeTextSignature | subscribe-tool.py:10 | A text that is one signature from start to end is found as exactly that one signature. |
| OwnNames.SpacedName | Subscribe_tool.py:51 | `user.replace(' ', '[ _]')`: one atom per character of the name, with the class `[ _]` exactly where the name has a space. |
| OwnNames.SpacedNameSpellsUser | Subscribe_tool.py:51 | The name pattern matches exactly the spellings of the user name in which ASCII letters (and the few letters `FoldsTo` maps onto them) may differ in case, other letters are the same, and each space may be written as a space or an underscore. |
| OwnNames.OwnMatchHasName | subscribe-tool.py:52 | Every `rx2` match holds the name pattern right after its link prefix and spaces. |
| OwnNames.EscapedNameNeedsLiteralClass | subscribe-tool.py:52 | As written, the newer pattern for a name with a space matches only where the text holds the four characters `[ _]`. |
| OwnNames.EscapedNameFindsNothing | subscribe-tool.py:52 | As written, for a subscriber whose name has a space, `rx2.findall` finds nothing in any text without an underscore. |
| OwnNames.SampleTimestamp | subscribe-tool.py:9 | The timestamp of the sample signature `[[User:A B]] 2024年1月1日 (一) 10:00 (UTC)` is recognised and ends the text. |
| OwnNames.SampleIsSignature | subscribe-tool.py:10 | `rx1.findall` returns the sample signature. |
| OwnNames.SampleMissedAsWritten | subscribe-tool.py:52 | The newer `rx2` for user "A B" does not find the sample, although "A B" signed it. |
| OwnNames.SampleFoundCorrected | Subscribe_tool.py:51 | The unescaped name pattern for "A B" finds the sample as the user's own signature. |
| Detection.FirstFresh | subscribe-tool.py:76-81 | The loop that decides on a notice. It finds a signature exactly when some signature is neither in the baseline nor the subscriber's own. It stops at the first such signature, and every signature before it is ignored. |
| Detection.Deliver | subscribe-tool.py:78-82 | The notices whose sending was tried are a prefix of those due. After a raise, the last of them is the one whose send raised. |
| Detection.DeliverStopsAtFirstRaise | subscribe-tool.py:71-82 | Sending raises exactly when some due notice raises. The last notice sent is the first that raises, no earlier one raises, and when none raises every notice is sent. |
| Detection.DeliverRaisesIffAny | subscribe-tool.py:71-82 | Delivery raises exactly when some due notice raises. Otherwise every due notice is sent. |
| Detection.DeliverAppend | subscribe-tool.py:71-82 | Sending two batches in turn is the first batch, then the second only if nothing in the first raised. |
| SectionPoll.BuildBaseline | subscribe-tool.py:63-70 | The nested loops build the baseline: the signatures of each subscribed (heading, level) key, where a later old section with the same key overwrites an earlier one. |
| SectionPoll.BaselineKeys | subscribe-tool.py:63-70 | A key has a baseline exactly when it is subscribed and some old section carries it. |
| SectionPoll.BaselineLastWins | subscribe-tool.py:63-70 | For a key that occurs several times, the baseline holds the signatures of its last old occurrence. |
| SectionPoll.ExamineSections | subscribe-tool.py:71-82 | The loop over the new sections sends the due notices in order: at most one per section that fires. It stops at the first send that raises, so the notices sent and whether it raised are those of `Deliver`. |
| SectionPoll.NoticesAppend | subscribe-tool.py:71-82 | The notices for two blocks of sections are the notices for each block in turn. |
| SectionPoll.AtMostOnePerSection | subscribe-tool.py:78-81 | Each new section contributes exactly one notice if it fires and none otherwise, however many fresh signatures it holds. |
| SectionPoll.NoticesComeFromFiringSections | subscribe-tool.py:71-82 | Every notice is addressed to the subscriber. It names the page and the heading of a new section that fires. There are no more notices than sections. |
| SectionPoll.AcknowledgedNeverFires | subscribe-tool.py:76-79 | A section whose signatures are all in the baseline or the subscriber's own sends nothing. |
| SectionPoll.NewSectionNeverFires | subscribe-tool.py:71-75 | A section whose key no old section carried sends nothing. |
| SectionPoll.UnsubscribedNeverFires | subscribe-tool.py:67-69 | A section whose key is not subscribed sends nothing. |
| SectionPoll.SubscribedSectionFires | subscribe-tool.py:63-81 | A subscribed section present before fires exactly when some signature in it is in neither the last old occurrence's signatures nor the subscriber's own. |
| SectionPoll.ProcessPage | subscribe-tool.py:55-84 | One page. A missing or unreadable page is skipped. An unchanged revision id does nothing. A changed page sends its due notices and commits the new text and id unless a send raised. |
| SectionPoll.UnchangedRevisionIsNoOp | subscribe-tool.py:58-60 | At an unchanged revision id the page is fetched, but nothing is sent and the state stays as it was. |
| SectionPoll.AbsentPageSkipped | subscribe-tool.py:55-58 | A page that no longer exists, or whose fetch raises, keeps its state and sends nothing. |
| SectionPoll.ChangedPageCommits | subscribe-tool.py:80-87 | A changed page is committed, text and id together, exactly when no due notice raises. It then has sent every due notice, and polling it again at the same revision does nothing. |
| SectionPoll.RaisedSendRepeats | subscribe-tool.py:80-87 | When a notice send raises, the page keeps its old state. Polling the same dictionary again at the same revision would try the same due notices again, whichever of them raise that time. |
| SectionPoll.RunPass | subscribe-tool.py:53-87 | A pass keeps the set of watched pages. |
| SectionPoll.PassNext | subscribe-tool.py:53-87 | Over distinct pages, each page is polled from the state it had before the pass. |
| SectionPoll.RunPassPage | subscribe-tool.py:53-87 | After a pass, each page holds the state its own poll produced. |
| SectionPoll.Watchlist.CheckSubscribedPages | subscribe-tool.py:51-87 | The per-page loop updates the page dictionary in place. The notices, the pages fetched and the new states are those of the pass. Each page's new state is its own poll's, and the order of pages is kept. |
| SectionPoll.SelfNotificationAsWritten | subscribe-tool.py:52 | As written, subscriber "A B" is notified of a reply they signed themselves. |
| SectionPoll.NoSelfNotificationCorrected | subscribe-tool.py:52 | With the corrected name pattern, that reply sends nothing. |
| TitlePoll.BuildFirstBaseline | Subscribe_tool.py:58-62 | The loop builds the baseline by title. A title already recorded is not overwritten, so the first old section wins. |
| TitlePoll.FirstBaselineKeys | Subscribe_tool.py:58-62 | A title has a baseline exactly when it is subscribed and some old section has it. |
| TitlePoll.FirstBaselineFirstWins | Subscribe_tool.py:58-62 | For a title that occurs several times, the baseline holds the signatures of its first old occurrence. |
| TitlePoll.ExamineTitledSections | Subscribe_tool.py:63-71 | The loop over the new sections sends the due notices in order, at most one per section that fires, and stops at the first send that raises. |
| TitlePoll.TitledNoticesAppend | Subscribe_tool.py:63-71 | The notices for two blocks of sections are the notices for each block in turn. |
| TitlePoll.TitledNoticesFromFiringSections | Subscribe_tool.py:63-71 | Every notice is addressed to the subscriber. It names the page and the title of a new section that fires. There are no more notices than sections. |
| TitlePoll.NewTitleNeverFires | Subscribe_tool.py:63-65 | A section whose title no old section had sends nothing. |
| TitlePoll.ProcessTitledPage | Subscribe_tool.py:53-73 | One page. Reading the revision id of a missing page raises. An unchanged id does nothing, without a fetch. Otherwise an unreadable page raises, and a live page sends its due notices and commits unless a send raised. |
| TitlePoll.PollRaisesIffBroken | Subscribe_tool.py:53-73 | The poll of a page raises exactly when the page is broken: missing, unreadable at a new revision id, or with a due notice that raises. The state is then unchanged. |
| TitlePoll.UnchangedRevisionNotFetched | Subscribe_tool.py:53-55 | The id is compared first. At an unchanged id even an unreadable page passes without effect. |
| TitlePoll.PollTitledCommits | Subscribe_tool.py:54-73 | A changed live page whose notices all send is committed, text and id together, after sending every due notice. A second poll then does nothing. |
| TitlePoll.TitledPassNext | Subscribe_tool.py:52-73 | Over distinct pages that have not raised yet, each page is polled from the state it had before the pass. |
| TitlePoll.RaisedPassStops | Subscribe_tool.py:52-73 | Once a page raises, the rest of the pass changes nothing. |
| TitlePoll.RaisesOnlyOnBrokenPage | Subscribe_tool.py:52-73 | A pass raises exactly when it reaches a broken page. |
| TitlePoll.TitledWatchlist.CheckSubscribedPages | Subscribe_tool.py:50-73 | The loop updates the page dictionary in place until a page raises. The notices sent, the new states and whether it raised are those of the pass. |
| SaveRetry.Save | subscribe-tool.py:14-45 | `save` as written, which is the same in Subscribe_tool.py:13-44. The edits it submits are those of the attempts, and its result is the as-written result of how the attempts ended. |
| SaveRetry.AttemptsShape | subscribe-tool.py:21-43 | The attempts run out exactly when every allowed attempt meets an edit conflict. Otherwise the last attempt is the first answer that is not a conflict, and it decides the ending: saved, another error, or one of the four refusals. |
| SaveRetry.AttemptsEdits | subscribe-tool.py:19-31 | Each attempt appends the message to the latest text: the first to the text fetched before the loop, each later one to the text refetched after the previous conflict. Without `add`, or for a page that does not exist, the message replaces the text. |
| SaveRetry.AsWrittenNeverReturnsFalse | subscribe-tool.py:29-45 | As written, `save` returns false exactly when the bot may not edit or no attempt is allowed. When the bot may edit and at least one attempt is allowed, `save` as written never returns false: it returns true or raises. |
| SaveRetry.LockedPageRaisesAsWritten | subscribe-tool.py:32-34 | On a protected page, `save` as written raises, where the intended result is false. |
| SaveRetry.IntendedResult | subscribe-tool.py:21-45 | Agrees with `save` as written except where an `except … as e` handler ran; there it returns false where the program raises. |
| SaveRetry.IntendedSaveResult | subscribe-tool.py:21-45 | Intended: true exactly when, within the retry budget, an attempt is saved after nothing but edit conflicts. It raises exactly when such an attempt meets another error, and is false otherwise. |
| ConfigPages.NameEnd | subscribe-tool.py:11 | `[^/]+` takes the longest run of characters other than '/'. |
| ConfigPages.ReplaceChar | subscribe-tool.py:95 | `replace("_", " ")` changes each underscore to a space, keeps every other character and keeps the length. |
| ConfigPages.ReplaceCharRoundTrip | subscribe-tool.py:95 | Writing the spaces of a name as underscores and reading the title back restores the name, for any name without underscores. |
| ConfigPages.ConfigUserMatches | subscribe-tool.py:92-95 | A title yields a user exactly when `re.match` of the title pattern succeeds. The user is the name group with underscores turned to spaces, the same for every way of matching. |
| ConfigPages.ConfigUserRoundTrip | subscribe-tool.py:11 | The title of a user's configuration page, with spaces written as underscores, gives back that user, whatever follows the suffix. |
| ConfigPages.NewerAcceptsOlderTitles | Subscribe_tool.py:11 | Every title the older pattern accepts, the newer one accepts for the same user. |
| ConfigPages.SampleConfigUser | Subscribe_tool.py:78-81 | Both variants read `User:A_B/subscription.json` as the configuration of "A B". |
| ConfigPages.TrimConfig | Subscribe_tool.py:85 | `config[:-1]` is the list without its last entry, and an empty list stays empty. |
| ConfigPages.TrimConfigDropsLast | Subscribe_tool.py:85 | Trimming removes exactly the trailing entry. |
| ConfigPages.LoadPagesDistinct | subscribe-tool.py:102-104 | The watched pages read from the configuration are each listed once, and the dictionary's keys are exactly the pages in its order. |
| ConfigPages.LoadPagesLastWins | subscribe-tool.py:102-104 | A page configured and existing is loaded with the sections of its last configuration entry. |
| ConfigPages.LoadPagesOnlyExisting | Subscribe_tool.py:86-88 | A page that is not configured, or does not exist, is not loaded. |

## Left out

- Network, wiki and clock I/O are not modelled: `pywikibot` calls, `time.sleep`, the run loops (subscribe-tool.py:110-123, Subscribe_tool.py:93-104), and printing. The wiki's answers are inputs.
- `textlib.extract_sections` is not modelled. It is an input, `split`.
- `textlib.add_text` is not modelled. An appended edit is the value `Append(base, message)`.
- The text of the talkback message is not modelled. A notice is the triple (subscriber, page, section heading or title).
- JSON parsing, `config_page_content_pattern` (subscribe-tool.py:12), the initial fetch of each watched page and the broad `except:` of `set_page_dict` are left out as I/O.
- The `except:` handler at subscribe-tool.py:105-106 formats `page_name` and `e`, and neither name is bound in `set_page_dict`. The handler therefore raises `NameError`. This is I/O-side error handling and is not modelled.
- Page-title normalisation by `page.title()` (first-letter case, underscores) is left out. Titles are compared as given.
- Signatures.IsDigit: `\d` is modelled as the ASCII digits. Python also accepts every other Unicode decimal digit there.
- Signatures.FoldsTo: case folding covers ASCII letters plus the few non-ASCII characters that Python's `re` folds onto ASCII letters. This is exact for the link aliases, whose other letters are CJK and have no case. It is not exact for the letters of a user name in `rx2`: Python's `(?i)` also folds other cased letters (accented Latin, Greek, Cyrillic), which the model compares exactly, so OwnNames.SpacedNameSpellsUser holds for ASCII case differences only.
- OwnNames.SpacedName: the older variant splices the user name into `rx2` without escaping. A name holding regex metacharacters would change the pattern, and that is not modelled. The model treats every character of the name as a literal.
- SaveRetry.Attempts: `page.exists()` is asked again on each attempt (subscribe-tool.py:23). The model assumes its answer does not change during one `save`. A refetch after an edit conflict that itself raises is not modelled.
- SectionPoll.Watchlist.CheckSubscribedPages: the pass is modelled over distinct page names, which a dictionary guarantees. The `Valid` invariant of the class holds exactly that.
- A changed page is committed only when no notice send raises (SectionPoll.ChangedPageCommits, TitlePoll.PollRaisesIffBroken). The warnings `save` prints and its final `return False` show that a failed delivery was meant to be logged and reported as false, not raised (second row of Findings). The model follows the code as written.
- Detection.Deliver: whether a send raises is a function of the notice (`raises`), so two equal notices share one outcome. Two new sections with the same key give the same notice, and the model cannot express a first send of it that succeeds and a second that raises.

## Findings

| source | as written | input that shows it | evidently intended | confidence | as-written member | corrected member |
|---|---|---|---|---|---|---|
| subscribe-tool.py:52 | `re.escape(user).replace(' ', '[ _]')`. `re.escape` has already turned the space into `\ `, so the result is an escaped `[` followed by the characters ` _]`. | Subscriber "A B" and the reply `[[User:A B]] 2024年1月1日 (一) 10:00 (UTC)`: `rx2` finds nothing, so the user is notified of their own reply. | Each space of the name matches a space or an underscore, as in Subscribe_tool.py:51. | high; not executed | OwnNames.EscapedNameFindsNothing, SectionPoll.SelfNotificationAsWritten | OwnNames.SpacedNameSpellsUser, SectionPoll.NoSelfNotificationCorrected |
| subscribe-tool.py:29-44 (same in Subscribe_tool.py:28-43) | Each handler binds `e` with `except ... as e`, and Python deletes that name when the handler ends. The final message formats `e`, so it raises `UnboundLocalError` whenever a handler ran. `return False` is reached only when no attempt ran. The error then propagates through `send_message`. In the newer variant the per-page `except` catches it and skips that page's commit; `run` (subscribe-tool.py:110-120) polls once per process, so the page would notify again only if the same dictionary were polled again. In the older variant nothing catches it: it ends the pass and escapes the module-level loop (Subscribe_tool.py:96-100), which stops the bot. | A protected talk page: the first attempt raises `LockedPageError`, the loop breaks, and the message line raises instead of `return False`. | A refusal, or running out of retries, logs and returns false. | high; not executed | SaveRetry.AsWrittenNeverReturnsFalse, SaveRetry.LockedPageRaisesAsWritten | SaveRetry.IntendedSaveResult |
