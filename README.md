# Edge IE-mode site list editor, modelled in Dafny

`ie-mode.py` is an interactive Windows tool. It keeps the Microsoft Edge
Enterprise Mode site list (`ie-sitelist.xml`) and the two Edge policy values
that point at it, and it keeps a ledger of removed URLs (`old-site.txt`).

A session runs as follows:

1. It reads the current list from the XML document.
2. It loads the live view of the ledger: the most recent record of each
   removed URL.
3. It applies the user's actions in turn:
   - add a URL, checked for an `http://`/`https://` prefix and stripped of a
     port;
   - delete URLs by their 1-based positions or `all`, appending one ledger
     record per removed URL;
   - restore a URL from the ledger, forget it, or clear the ledger.
4. It writes the list back:
   - for a non-empty list: the document, the two registry values and a
     registry backup;
   - for an empty list: it deletes the document and each value whose
     `reg delete` succeeds.

The model has one module per concern:

- `Text` holds the Python string operations the script relies on: `strip`,
  `in`, `split()`, `isdigit`, `lower() == w` and `int()`. The script's
  `split(sep)` and `split(sep, 1)` are modelled through `Text.Find`, the
  first occurrence of a separator, and `Text.CharIndex`, the first
  occurrence of a character.
- `ListModel` holds the active list:
  - URL validation and port stripping;
  - the duplicate-free append of `add_new_url`;
  - the removal by positions of `delete_urls`: the indices are sorted
    descending, then popped one at a time.
- `LedgerText` holds the ledger file as text and as the lines `readlines()`
  returns.
- `LedgerView` holds the ledger as a sequence of classified lines:
  - the live view (`load_deleted_records`);
  - the lines a removal keeps (`remove_url_from_deleted`);
  - where a removal stops on a malformed line.
- `Ledger` holds the ledger operations on the file text: load, append a
  record, remove every record of a URL, clear.
- `SiteList` holds the XML document as an element tree: `create_xml` builds
  it and `parse_xml` reads it.
- `PolicyMirror` holds the machine state written when the user finishes, in
  a class `Host`:
  - the document;
  - the policy key's values;
  - the last registry backup.
- `Driver` holds the session, in a class `Session`:
  - the list and the ledger text, which the actions change;
  - the live view, which is reloaded after each action;
  - the restore prompt, as a function of the replies the user types;
  - the whole run.

Inputs are parameters:
- what the user types, as strings;
- the clock, as a stamp per appended record and a version string for the
  document;
- the success of each `reg` command, as a boolean.

Where add_new_url's port stripping misbehaves (see Findings), the model
keeps the code as written (`ListModel.Normalize`). It also defines the
evidently intended behaviour (`ListModel.StripPort`), which is what the
model's `AddAttempt` uses. `StripPort` works on everything after the scheme
prefix. The code instead takes `url.split('://')[1]`, which drops whatever
follows a second `://`.

Where the description of the system and the code differ, the model follows
the code:
- The list read from the document is not deduplicated. The model proves
  that a duplicate-free list stays duplicate-free; it does not prove that
  the list is always duplicate-free.
- Setting the registry reports one boolean (both writes succeeded). It does
  not distinguish a partial failure from a total one.
- Clearing the registry ignores the result of each `reg delete`. A value
  whose delete fails stays, so an empty list does not always leave both
  values absent.
- Write failures of the document or the ledger are not caught.

## Model

| member | source | states |
|---|---|---|
| Text.Strip | ie-mode.py:82 | the result is a contiguous slice of the input with no whitespace at either end |
| Text.StripDropsSpace | ie-mode.py:82 | every character `strip()` drops is whitespace, and the result is empty exactly when the whole text is whitespace |
| Text.CharIndex | ie-mode.py:165-166 | the index of the first occurrence of the character, or the length when there is none |
| Text.Words | ie-mode.py:194 | `split()` yields non-empty words with no whitespace in them |
| Text.WordsOfWord | ie-mode.py:194 | a non-empty run without whitespace splits into exactly itself |
| Text.WordsConcat | ie-mode.py:194 | text joined at a whitespace character splits into the words of the left part followed by those of the right part |
| Text.ParseInt | ie-mode.py:228 | `int()` succeeds only on text that is non-empty after stripping |
| Text.ParseIntDigits | ie-mode.py:228 | `int()` of digits surrounded by whitespace is their decimal value |
| Text.ParseIntNegative | ie-mode.py:228 | `int()` of '-' followed by digits is the negated decimal value |
| Text.ParseIntAccepts | ie-mode.py:228 | text `int()` accepts is an optional sign followed by digits and underscores only |
| ListModel.SchemeSeparator | ie-mode.py:163 | in an http(s) URL the first "://" directly follows the scheme name |
| ListModel.HostPart | ie-mode.py:163 | `url.split('://')[1]`: the text after the first "://" up to the next one holds no "://"; SplitSchemeAndHost gives its value for `scheme://rest` |
| ListModel.Normalize | ie-mode.py:162-169 | the port cleanup as written keeps the scheme prefix, and a URL with no ':' from index 8 on is returned unchanged |
| ListModel.SplitSchemeAndHost | ie-mode.py:163-164 | `split('://')` yields the scheme name and the host part when no second "://" follows |
| ListModel.SplitHostPortPath | ie-mode.py:165-166 | in `host:port/path` the first ':' ends the host and the first '/' starts the path |
| ListModel.NormalizeStripsPort | ie-mode.py:162-169 | `scheme://host:port/path` becomes `scheme://host/path` and `scheme://host:port` becomes `scheme://host` |
| ListModel.NormalizeSkipsIndexSeven | ie-mode.py:162 | a ':' directly after `http://` is not seen by the colon test, so the URL is kept |
| ListModel.NormalizeRepeatsPath | ie-mode.py:162-167 | a ':' in the path makes the code repeat the first path segment, so the URL changes although it has no port |
| ListModel.StripPort | ie-mode.py:162-169 | the corrected port stripping keeps the scheme prefix |
| ListModel.StripPortRemovesPort | ie-mode.py:162-169 | the corrected stripping turns `scheme://host:port/path` into `scheme://host/path` for any path |
| ListModel.StripPortKeeps | ie-mode.py:162-169 | the corrected stripping leaves a URL whose authority has no ':' exactly as typed |
| ListModel.StripPortIdempotent | ie-mode.py:162-169 | stripping a stripped URL changes nothing |
| ListModel.CleanupsAgreeOnPort | ie-mode.py:162-169 | on `scheme://host:port/path` with a numeric port the port cleanup as written and the corrected one give the same URL |
| ListModel.CleanupsAgreeWithoutColon | ie-mode.py:162-169 | a URL with no ':' after its scheme prefix is kept unchanged by both the cleanup as written and the corrected one |
| ListModel.AddAttempt | ie-mode.py:153-173 | one typed line: 'back' in any case returns (both directions), a line without an http(s) prefix is rejected (both directions), a URL already present is rejected, otherwise a new http(s) URL is accepted |
| ListModel.AddAttemptStores | ie-mode.py:162-175 | an accepted line is stored as its stripped, port-free form, and a line is rejected as present exactly when that form is already listed |
| ListModel.AddSessionAppendsOnce | ie-mode.py:152-177 | adding leaves the list alone or appends exactly one http(s) URL that was not in it |
| ListModel.AddSessionKeepsNoDup | ie-mode.py:171-177 | adding keeps a duplicate-free list duplicate-free |
| ListModel.AddSession | ie-mode.py:152-177 | the prompt loop returns the old list, possibly followed by one more entry; AddSessionAppendsOnce says which entry and when |
| ListModel.IndicesOf | ie-mode.py:194 | every parsed index is at least -1 (a digit word minus one), and there are no more indices than words |
| ListModel.IndicesOfNumbers | ie-mode.py:194 | words that are all numbers give one index each, the number minus one, in order; words none of which is a number give none |
| ListModel.IndicesOfAppend | ie-mode.py:194 | the indices of two runs of words are those of the first run followed by those of the second |
| ListModel.ParseIndices | ie-mode.py:194 | `choice.split()` and the comprehension give at most one index per typed word; IndicesOfNumbers gives their values |
| ListModel.Insert | ie-mode.py:202 | insertion into a descending sequence keeps it descending and adds exactly the element |
| ListModel.SortDescending | ie-mode.py:202 | `sorted(..., reverse=True)` is descending and a permutation of its input |
| ListModel.SortDistinct | ie-mode.py:202 | sorting distinct indices gives a strictly descending sequence |
| ListModel.PopEach | ie-mode.py:201-204 | the pop loop over the indices in the given order: kept and removed entries together are as many as the list had; PopDescending and PopEachConserves say which |
| ListModel.PopDescending | ie-mode.py:201-204 | popping strictly descending positions removes exactly those positions and collects the removed entries |
| ListModel.PopNoneInRange | ie-mode.py:203 | positions all out of range remove nothing |
| ListModel.RepeatedIndexPopsTwice | ie-mode.py:202-204 | a repeated position pops twice, removing a neighbour too |
| ListModel.PopEachConserves | ie-mode.py:201-204 | kept and removed entries together are the original list, and a duplicate-free list stays duplicate-free |
| ListModel.DeleteOutcome | ie-mode.py:179-205 | every entry ends up either kept or removed, and a duplicate-free list stays duplicate-free |
| ListModel.DeleteDistinctPositions | ie-mode.py:192-204 | with distinct positions, the kept list is the list without those positions and the removed entries come highest position first |
| ListModel.DeleteNoneInRange | ie-mode.py:192-204 | when the choice is not `all` and every typed position is out of range, repeated or not, nothing is removed and nothing is logged |
| ListModel.DeleteAll | ie-mode.py:188-190 | `all` in any case removes every entry |
| LedgerText.SplitLines | ie-mode.py:80 | definition of `readlines()`; SplitLinesWellFormed and JoinSplitLines pin the lines down |
| LedgerText.SplitLinesWellFormed | ie-mode.py:80 | `readlines()` yields non-empty lines, each ending in its '\n' except possibly the last |
| LedgerText.JoinSplitLines | ie-mode.py:80 | the lines joined give back the file text |
| LedgerText.SplitLinesJoin | ie-mode.py:103-111 | writing back well-formed lines and reading them again gives the same lines |
| LedgerText.SplitLinesAppend | ie-mode.py:96-97 | appending to a file ending in '\n' appends the new lines |
| LedgerView.View | ie-mode.py:81-92 | the live view of classified lines holds at most one record per line; ViewUrls, ViewDistinct and the Positions lemmas say which records |
| LedgerView.ViewUrls | ie-mode.py:81-92 | the live view shows exactly the URLs some record line carries |
| LedgerView.ViewDistinct | ie-mode.py:86-88 | the live view shows each URL once |
| LedgerView.PositionsEntries | ie-mode.py:81-92 | each record of the view is read from a record line in the file |
| LedgerView.PositionsLast | ie-mode.py:81-92 | each record of the view is the last record line of its URL |
| LedgerView.PositionsIncreasing | ie-mode.py:91 | the view lists its records in file order |
| LedgerView.ViewOfThree | ie-mode.py:81-92 | records a, b, a give the view b, a, with a's latest record |
| LedgerView.LoadStep | ie-mode.py:81-90 | one step of the backwards scan keeps records and seen set equal to the view of the scanned suffix |
| LedgerView.ViewAppend | ie-mode.py:94-97 | appending a record drops the URL's earlier record from the view and shows the new one last |
| LedgerView.Keep | ie-mode.py:104-111 | the lines the rewrite copies: no more than were read, and none is a record of the target URL; UrlsOfKeep and ViewKeep say what else goes |
| LedgerView.FirstBreak | ie-mode.py:104-111 | the position of the first line on which the rewrite raises, or the number of lines: the line there is malformed and none before it is |
| LedgerView.UrlsOfKeep | ie-mode.py:104-111 | after removing a URL's lines, exactly that URL is no longer carried |
| LedgerView.ViewKeep | ie-mode.py:104-111 | removing a URL's lines removes exactly its record from the view |
| LedgerView.KeepTwice | ie-mode.py:104-111 | removing a URL twice is removing it once |
| LedgerView.KeepNoBreaks | ie-mode.py:104-111 | removal creates no malformed line |
| LedgerView.ReverseTwice | ie-mode.py:81-91 | reversing twice restores the order |
| Ledger.UrlOf | ie-mode.py:85 | `line.split(' \| ', 1)[1]`: the line is the part before its first " \| ", the separator, then the URL |
| Ledger.ShapeOf | ie-mode.py:105-107 | the two tests in their order: a raw line without " \| " is plain; a raw line with " \| " whose stripped form has none (the separator touches the line's ends) is malformed, and unpacking its split raises; otherwise it is a record whose text is the stripped line; StrippedEntry pins down the record |
| Ledger.StrippedEntry | ie-mode.py:82-85 | a line is a record exactly when its stripped form holds " \| ", and its URL is non-empty |
| Ledger.LiveViewOf | ie-mode.py:74-92 | a missing file shows no records; otherwise the view of its lines, which LoadDeletedRecords proves the loop computes |
| Ledger.LoadDeletedRecords | ie-mode.py:74-92 | the loaded records are the live view of the file and show each URL once |
| Ledger.SaveDeletedRecord | ie-mode.py:94-97 | the file gains text at its end and keeps everything before |
| Ledger.RecordLine | ie-mode.py:97 | definition of the written line, the stamp, " \| ", the URL and a newline; RecordLineShape says how it reads back |
| Ledger.RecordLineShape | ie-mode.py:97 | a written record reads back as that URL with the stripped line as its text |
| Ledger.SaveShowsLast | ie-mode.py:94-97 | after an append the view drops the URL's earlier record and shows the new one last |
| Ledger.LiveViewExample | ie-mode.py:81-92 | three written records a, b, a are shown as b, then a's latest |
| Ledger.RemoveLineStep | ie-mode.py:105-111 | each line is copied, dropped, or stops the rewrite, by the code's tests |
| Ledger.RemoveUrlFromDeleted | ie-mode.py:99-111 | a missing file is left missing; otherwise the lines before the first malformed line are written back without the target's records, and success means there was none |
| Ledger.Rewritten | ie-mode.py:103-111 | definition of the text the rewrite leaves; RemoveResult and RemoveWithoutBreak say it is RemovedFile when no line raises |
| Ledger.RemoveResult | ie-mode.py:99-111 | a missing file stays missing, and a rewrite that finishes gives the file without the URL |
| Ledger.RemovedFile | ie-mode.py:99-111 | a removal that gets through every line leaves a file exactly when there was one; RemoveWithoutBreak and RemovedLiveView give its content |
| Ledger.RemoveWithoutBreak | ie-mode.py:99-111 | with no malformed line the removal always finishes |
| Ledger.KeepWellFormed | ie-mode.py:104-111 | the rewritten lines are well formed |
| Ledger.ReadBackKept | ie-mode.py:99-111 | the rewritten file reads back as the kept lines |
| Ledger.RemoveResultTwice | ie-mode.py:99-111 | on any ledger, also one the first call stopped on, a second removal of the same URL gets through every line and leaves the file unchanged |
| Ledger.RemovedLiveView | ie-mode.py:99-111 | after a removal that gets through every line, the view is the old view without the URL |
| Ledger.ClearAll | ie-mode.py:113-118 | an existing file becomes empty, a missing one stays missing, and the view is empty |
| Ledger.AppendRecords | ie-mode.py:206-207 | appending no records leaves the file, appending some creates it |
| Ledger.AppendRecordsShowsAll | ie-mode.py:206-207 | after the appends the view shows every earlier URL and every removed URL |
| Ledger.LiveViewUrlsNonEmpty | ie-mode.py:86 | no record of the view has an empty URL |
| SiteList.BuildSiteList | ie-mode.py:270-274 | the root carries the version and one IE11 site element per URL, in order |
| SiteList.SiteUrls | ie-mode.py:69 | only non-empty url attributes are collected, at most one per child |
| SiteList.SiteUrlsOfSites | ie-mode.py:69 | when every child is a site with a non-empty url, each child's url is collected in order; when none is, nothing is |
| SiteList.SiteUrlsAppend | ie-mode.py:69 | the urls of two runs of children are those of the first run followed by those of the second |
| SiteList.ParseXml | ie-mode.py:63-72 | a missing or unreadable document gives an empty list, and no URL is empty |
| SiteList.RoundTrip | ie-mode.py:63-72 | reading back a written document gives the list of non-empty URLs |
| PolicyMirror.WithSiteList | ie-mode.py:284-305 | a successful write sets the site-list path (string) or the level 1 (DWORD); a failed one leaves that value; nothing else changes |
| PolicyMirror.WithoutIeMode | ie-mode.py:310-324 | both values are gone and nothing else changes |
| PolicyMirror.WithoutDeleted | ie-mode.py:310-324 | a value whose `reg delete` succeeded is gone, one whose delete failed is kept as it was, and nothing else changes |
| PolicyMirror.DeletedBoth | ie-mode.py:310-324 | when both deletes succeed, both IE mode values are gone whether or not they existed before |
| PolicyMirror.Host.CreateXml | ie-mode.py:266-282 | the document becomes the site list of the URLs |
| PolicyMirror.Host.SetRegistry | ie-mode.py:284-308 | success means both writes succeeded; the policy changes as WithSiteList says |
| PolicyMirror.Host.ClearRegistryKeys | ie-mode.py:310-324 | each value whose `reg delete` succeeded is removed, a failed delete is ignored and leaves its value, nothing else changes |
| PolicyMirror.Host.ExportRegistryBackup | ie-mode.py:326-337 | a successful export saves the policy and returns the backup path, a failed one returns nothing |
| PolicyMirror.Host.Finalize | ie-mode.py:488-504 | a non-empty list writes document and policy and backs up only when both values were written; an empty list removes the document and every value whose delete succeeded |
| PolicyMirror.FinalizeConverges | ie-mode.py:488-504 | when every `reg` command succeeds: after saving a non-empty list, the document reads back as the list and the policy points Edge at it in IE mode; after saving an empty list, no IE mode value is left |
| Driver.Pick | ie-mode.py:231-252 | a re-prompt has read both the option and the position; a position out of range leaves list and ledger as they were |
| Driver.ManageRound | ie-mode.py:226-262 | option 0 returns unchanged; a re-prompt consumes at least one reply |
| Driver.RoundOn | ie-mode.py:226-262 | one round once the option is read: a non-number re-prompts after one reply and 0 returns unchanged; RoundOnKeepsOrPicks gives the other options |
| Driver.ManageFrom | ie-mode.py:212-264 | an empty view returns at once unchanged |
| Driver.PickRemoves | ie-mode.py:233-252 | restoring or forgetting position n removes that URL's records, and restoring appends it |
| Driver.RestoreAppends | ie-mode.py:231-243 | restoring appends the URL and drops exactly its record from the view |
| Driver.RestorePresent | ie-mode.py:235-240 | restoring a URL already listed changes nothing |
| Driver.PositionOutOfRange | ie-mode.py:231-243 | a position out of range changes nothing |
| Driver.ForgetOne | ie-mode.py:244-252 | forgetting removes the URL's records and leaves the list |
| Driver.ClearConfirmed | ie-mode.py:253-257 | a confirmed clear empties the view and leaves the list |
| Driver.PickGrows | ie-mode.py:231-252 | a choice appends only URLs of the view and keeps the list duplicate-free |
| Driver.RoundKeepsOrPicks | ie-mode.py:226-262 | a round leaves the list or is a restore/forget choice |
| Driver.RoundGrows | ie-mode.py:226-262 | a round appends only URLs of the view and keeps the list duplicate-free |
| Driver.ManageGrows | ie-mode.py:212-264 | managing appends only URLs of the view and keeps the list duplicate-free |
| Driver.AddKeeps | ie-mode.py:468 | adding keeps the list duplicate-free and free of empty URLs |
| Driver.DeleteKeeps | ie-mode.py:470 | deleting keeps the list free of empty URLs |
| Driver.ManageKeeps | ie-mode.py:471-473 | managing keeps the list duplicate-free and free of empty URLs |
| Driver.Step | ie-mode.py:466-473 | one menu action: adding leaves the ledger, and so does a deletion that removes nothing; StepKeeps gives what every action keeps |
| Driver.StepKeeps | ie-mode.py:466-473 | every action keeps both properties |
| Driver.RunFrom | ie-mode.py:465-481 | main's loop over the actions: a session of additions only leaves the ledger as it was; RunKeeps gives what every session keeps |
| Driver.RunKeeps | ie-mode.py:465-481 | the whole session keeps both properties |
| Driver.ChooseDeletions | ie-mode.py:186-204 | the chosen deletions are the DeleteOutcome of the list and the typed choice |
| Driver.PopInOrder | ie-mode.py:201-204 | popping in the given order gives PopEach's kept and removed entries |
| Driver.Session.constructor | ie-mode.py:457-458 | the list is read from the document and the view from the ledger |
| Driver.Session.AddNewUrl | ie-mode.py:146-177 | the list becomes AddSession of the typed lines; ledger and view are untouched |
| Driver.Session.DeleteUrls | ie-mode.py:179-210 | the list keeps the survivors and the ledger gains one record per removed URL, in order |
| Driver.Session.Manage | ie-mode.py:212-264 | list and ledger become ManageFrom of the replies over the view shown |
| Driver.Session.PickRecord | ie-mode.py:231-252 | list, ledger and re-prompt follow Pick |
| Driver.Session.Reload | ie-mode.py:478 | the view is reloaded from the ledger |
| Driver.Session.Edit | ie-mode.py:465-481 | list and ledger become RunFrom of the actions, and the view matches the ledger |
| Driver.Session.Run | ie-mode.py:465-504 | the session ends with the document and policy of the final list (for an empty list: the values whose delete succeeded are gone); a list without empty URLs reads back exactly; duplicate-freedom is kept |

## Findings

| source | as written | input that shows it | evidently intended | confidence | as-written member | corrected member |
|---|---|---|---|---|---|---|
| ie-mode.py:162-167 | any ':' from index 8 on, including one in the path, triggers the port cleanup; the host is then cut at the first ':' of the whole host part, and the path is appended again from the first '/' | `http://wiki/Help:Contents` becomes `http://wiki/Help/Help:Contents` | only a ':' in the authority starts a port and only the port is dropped; a URL with no port is kept as typed | high, not executed | ListModel.NormalizeRepeatsPath | ListModel.StripPort |

## Left out

- The user interface is not modelled: console output, `display_list`, the elevation re-launch, the security notice, message boxes, the Edge prompt, the desktop guide and `os.startfile`.
- The `get_action` menu loop is not modelled; actions are given already chosen.
- Running out of input is not modelled. Python raises EOFError there; the model returns from the prompt instead.
- Text.ParseInt and Text.AllDigits: only ASCII digits are modelled, because Python's `int()` and `isdigit()` also accept other Unicode decimal digits.
- Text.LowerIs: compares with a lower-case ASCII word only. Full Unicode `lower()` is not modelled.
- The ledger's encoding and newline translation are not modelled. Lines are split at '\n' as the text is given.
- The XML text layout (`toprettyxml`, blank-line removal) is not modelled. The document is modelled as its element tree, and an unparsable document as `Unreadable`.
- Failures to write or delete the document or the ledger are not modelled, because the source does not catch them.
- An exception inside `set_registry_via_cmd` is not modelled separately. It is one of the outcomes a `false` write stands for.
- The `reg` commands run outside the program. Whether each one succeeds is a given outcome: the two `reg add`s, the `reg export` and the two `reg delete`s.
- Ledger.LoadDeletedRecords: does not model the `try`/`except` around the split. It cannot raise, because the line is known to contain " | ".
- The clock is a parameter, `stamp(k)` per appended record and a version string, because reading the time is I/O.
- After restore_from_deleted returns, main reloads the ledger twice. The model reloads once, because the two loads are equal.
- ListModel.AddAttempt: stores the corrected `StripPort` of a typed URL, not the as-written `Normalize`. So `AddSession`, `Driver.Session.AddNewUrl` and `Driver.Session.Run` add `http://wiki/Help:Contents` as typed, where the code adds `http://wiki/Help/Help:Contents` (see Findings). The two agree on URLs with no ':' after the scheme and on `scheme://host:port/path` (`CleanupsAgreeWithoutColon`, `CleanupsAgreeOnPort`).
- Driver.Session.Run: states only the document and the policy. The backup is stated by PolicyMirror.Host.Finalize.
