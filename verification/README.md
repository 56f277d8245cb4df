# LeetBot verified

A Dafny model of the parts of LeetBot whose behaviour can be stated and proved: the text pipeline for
problem and solution text, the per-user solution pager and its button ids, registration and the users
table with its cached profile reads, the description fetch with its retries, the D++ object cache, and
the reader of the credentials files. `dafny verify dfyconfig.toml` checks everything.

| module | what it holds |
|---|---|
| `Strings`, `Options` | string searching and splitting, optional values |
| `Replace` | leftmost non-overlapping replacement, the meaning of the regular expressions; when passes commute |
| `Markdown`, `TagTranslation` | the five tag passes, one-pass form, tag-at-a-time form |
| `Decoder` | the entity decoder loop and its meaning |
| `Pipeline` | decoding after tag translation, on whole documents |
| `Fences` | solution text: control escapes and code fences |
| `Decimal`, `Buttons`, `Dispatch` | ids as decimal text, button prefixes, language menu, click dispatch |
| `Pages`, `Pager` | page windows, the two pager maps, interleaved runs |
| `Description`, `Tokens`, `Stats` | description retry chain and promise, the text that proves ownership, profile statistics |
| `UsersTable`, `Commands`, `BotRuns` | rows and database methods, command handlers, runs of the whole bot |
| `Cache` | object cache and deletion queue |
| `Config` | `key=value` files |

State that the program updates in place is a class here (`Fences`, `Markdown` and `Replace` are pure, as
the code is): `Pager.PerUserPages` is the two global pager maps, `Buttons.LanguageMenu` the language map,
`UsersTable.LeetoDB` the database object, `Cache.ObjectCache` with `Cache.DeletionQueue` the cache, and
`Description.Promise` a promise that refuses a second value. Each method's postcondition gives the new
state as a function of the old one; the theorems over runs are proved about those functions. In `BotRuns`
and in the runs of `Pager` the steps of concurrent commands interleave freely: every database method,
every click and each of the two writes of a solution fetch is one atomic step. A click in a run says who
clicked and what the button's id decodes to (`Buttons.PressOf`).

Where a property is not true of every input, the exact condition is proved as an equivalence:

- tag-at-a-time translation of an input (`AgreesIff`) and of all its prefixes (`AgreesIffClean`);
- piecewise decoding, for two pieces (`DecodeAppendIff`) and for one piece and all that may follow (`HomomorphismIff`);
- control escapes in solution text (`ControlRoundTripIff`) and slugs in button ids (`SlugRoundTrip`);
- the order of statistics entries (`OrderIrrelevantIff`) and the configuration round trip (`RoundTripIff`);
- the text a description fetch delivers (`SettledIff`; a user name that is not a string hides the text, see
  `NumericNameHidesText`);
- which names one user's token verifies (`TokenInTokenIff`);
- cache ownership, for one cache (`RunConservesIff`) and for several over the one queue (`AllRunConservesIff`);
- cached profile reads. `statsExist` succeeds when no row has the given Discord name, so the cached branch of
  `profile` depends on names. Where every user keeps one name, all cached reads made while connected are right
  if and only if no two users share a non-empty name (`CachedReadsCoherentIff`). Under names that change,
  `CachedReadIff` says exactly which reads of which reachable states are right, whatever ran since the stats
  check, and `CachedBranchIff` does so for a check and a read with nothing in between. `SharedNameMisleads`,
  `RenameHidesProfile` and `RaceShowsEmptyRow` are whole runs in which it fails.

The header of `updateProfile` speaks of identifying users by Discord id, but the stats check and the profile
read look rows up by Discord name; the model follows the code.

## Model

| member | source | states |
|---|---|---|
| Replace.LeftmostMatch | src/TextReplace.cpp:5-9 | a replacement pass copies everything before the leftmost match, replaces it, and resumes right after it |
| Replace.NoMatch | src/TextReplace.cpp:5-9 | a pass without a match anywhere leaves the text unchanged |
| Replace.PassesAreSimultaneous | src/TextReplace.cpp:5-8 | any sequence of independent literal passes, any order and repetition, equals one left-to-right scan |
| Replace.PassesCommute | src/TextReplace.cpp:5-8 | orders with the same rules give the same text on every input |
| Replace.ScanLeavesNoMatch | src/TextReplace.cpp:28-30 | after independent passes none of their patterns occurs anywhere, so no pass creates a match for another |
| Markdown.LiteralPassesFuse | src/TextReplace.cpp:3-12 | the four literal passes act as one scan before the strip pass |
| Markdown.LiteralPassesCommute | src/TextReplace.cpp:5-8 | the four literal passes of htmlToMarkdown may run in any order on any input |
| Markdown.NormalForm | src/TextReplace.cpp:3-12 | the output has no `>` after a `<`, and applying the function again changes nothing |
| Markdown.FivePassesAreOnePass | src/TextReplace.cpp:5-9 | on every input the five replacements equal one left-to-right pass that drops a tag up to the first `>` no formatting tag owns |
| TagTranslation.MultiPassRefinesSinglePass | src/TextReplace.cpp:5-9 | without a `<` between a `<` and its closing `>`, the five passes translate one tag at a time |
| TagTranslation.AgreesIff | src/TextReplace.cpp:5-9 | an input is translated one tag at a time if and only if every tag that hides a formatting tag at its end is directly followed by a tag that is not a formatting tag |
| TagTranslation.AgreesIffClean | src/TextReplace.cpp:5-9 | all prefixes of an input are translated one tag at a time if and only if no tag hides a formatting tag at its end |
| TagTranslation.NestedTagDiffers | src/TextReplace.cpp:5-9 | a code tag inside an unclosed tag is an input where the two translations differ |
| Pipeline.CodeOpens | src/TextReplace.cpp:5 | `<code>` becomes one backtick, before any text |
| Pipeline.CodeCloses | src/TextReplace.cpp:6 | `</code>` becomes one backtick, before any text |
| Pipeline.PreOpens | src/TextReplace.cpp:7 | `<pre>` becomes three backticks, before any text |
| Pipeline.PreCloses | src/TextReplace.cpp:8 | `</pre>` becomes three backticks, before any text |
| Pipeline.OtherTagsAreDropped | src/TextReplace.cpp:9 | any other tag without inner angle brackets is dropped, before any text |
| Pipeline.TextIsKept | src/TextReplace.cpp:5-9 | text without `<` is kept, before any text |
| Decoder.HtmlDecoder | src/TextReplace.cpp:37-57 | the loop that jumps to the next `;` computes the left-to-right prefix rewriting and terminates |
| Decoder.DecodeByTable | src/TextReplace.cpp:46-51 | each of the six entities, spelled out, decodes to its character before any text |
| Decoder.DecodeKeepsOthers | src/TextReplace.cpp:41-55 | where none of the six stands, the character is kept |
| Decoder.ScanIsDecode | src/TextReplace.cpp:41-56 | from any position with any output so far, the rest of the loop appends the rewriting of the unread text and never reads its output again |
| Decoder.EntityIsSpelled | src/TextReplace.cpp:42-51 | an entity starting at a position is always recognised by the slice up to the next `;` |
| Decoder.DecodeEncode | src/TextReplace.cpp:41-56 | decoding undoes every spelling of a text in which any characters, and each `&`, are entities |
| Decoder.DecodeEscape | src/TextReplace.cpp:41-56 | decoding undoes escaping of `&`, `<`, `>`, quotes and apostrophes with the entities spelled out, for any string |
| Decoder.DecodeAppendIff | src/TextReplace.cpp:41-56 | decoding two pieces separately is right if and only if no entity begins in the first and ends in the second |
| Decoder.HomomorphismIff | src/TextReplace.cpp:41-56 | decoding two pieces separately is right for every second piece if and only if the first does not break off inside an entity |
| Decoder.ClosedAmpersands | src/TextReplace.cpp:41-56 | in particular when every `&` of the first piece has a later `;` in it |
| Decoder.DecodeLength | src/TextReplace.cpp:38-39 | the output is at most as long as the input, so the reservation suffices, and the input at most six times as long |
| Pipeline.MeaningPreserved | src/http/LeetCodeAPI.cpp:730 | for every document of escaped text and tags, translating and decoding gives text kept exactly, backticks for code and pre, nothing for other tags |
| Pipeline.TextKeptExactly | src/http/LeetCodeAPI.cpp:730 | escaped text between two tags comes out exactly, between the renderings of the tags |
| Fences.Cleaned | src/TextReplace.cpp:14-35 | for a word slug, no control escape is left and every three backticks, overlapping ones included, precede a word character |
| Fences.CleanIsFixed | src/TextReplace.cpp:14-35 | text that is already clean passes through unchanged |
| Fences.Idempotent | src/TextReplace.cpp:28-31 | a second application changes nothing, even with another language |
| Fences.OnlyLabelsAdded | src/TextReplace.cpp:28-31 | the output is the text with its control escapes restored and the slug inserted after each bare fence, leftmost first, and nowhere else |
| Fences.EscapesByLetter | src/TextReplace.cpp:28-30 | a backslash with n, r or t becomes the newline, return or tab, before any text |
| Fences.FenceBeforeWord | src/TextReplace.cpp:31 | a fence directly before a letter of either case, a digit or an underscore is left alone |
| Fences.FenceBeforeOther | src/TextReplace.cpp:31 | a fence before any other character, and a fence at the end, gets the slug |
| Fences.ControlRoundTripIff | src/TextReplace.cpp:28-31 | text whose newlines, returns and tabs were escaped comes back exactly if and only if it has no control escape of its own and no bare fence |
| Fences.ControlRoundTripUpToLabels | src/TextReplace.cpp:28-31 | it comes back up to fence labels if and only if it has no control escape of its own |
| Decimal.ReadPrinted | src/handlers/LeetCodePageHandlers.cpp:7-31 | reading the decimal text of any 64-bit id returns the id, whatever non-digit follows |
| Decimal.DigitByDigit | src/handlers/LeetCodePageHandlers.cpp:31-33 | the text of a number is its decimal digits, the last one last |
| Decimal.ReadSigned | src/handlers/LeetCodePageHandlers.cpp:7 | a sign is accepted, and a minus negates modulo 2^64 |
| Decimal.ReadSpaces | src/handlers/LeetCodePageHandlers.cpp:7 | leading white space is skipped |
| Decimal.ReadNoNumber | src/handlers/LeetCodePageHandlers.cpp:7 | text that begins with nothing that can be read throws |
| Decimal.ReadTooLarge | src/handlers/LeetCodePageHandlers.cpp:7 | a number of more than 64 bits throws |
| Decimal.ToStringInjective | src/commands/RegistryCommands.cpp:47 | different ids have different decimal texts |
| Buttons.PrefixesApart | src/handlers/LeetCodeButtonHandlers.cpp:8-24 | none of the four button prefixes is a prefix of another |
| Buttons.PageIdRoundTrip | src/handlers/LeetCodePageHandlers.cpp:5-33 | a generated page button keeps its direction and the text after its first colon reads back as its owner |
| Buttons.GeneratedPresses | src/handlers/LeetCodePageHandlers.cpp:31-33 | the two generated ids, spelled out, and that the prev id turns back and the next id forward |
| Buttons.PressOfPage | src/handlers/LeetCodePageHandlers.cpp:5-7 | the prefix of any id gives the direction, and what follows it is read as the owner |
| Buttons.PressOfOther | src/handlers/LeetCodePageHandlers.cpp:5 | ids with neither prefix are not for the pager |
| Buttons.PageIdsDistinct | src/http/LeetCodeAPI.cpp:646-652 | two users never share a page button |
| Buttons.NeverBothAct | src/Leeto.cpp:51-59 | of the two handlers called for each click at most one acts |
| Buttons.SlugRoundTrip | src/handlers/LeetCodeButtonHandlers.cpp:8-28 | a generated slug button asks for its slug if and only if the slug does not begin with a space |
| Buttons.TrimSpacesExact | src/handlers/LeetCodeButtonHandlers.cpp:10 | trimming drops exactly the leading spaces |
| Buttons.SlugOf | src/handlers/LeetCodeButtonHandlers.cpp:36-58 | every slug of the language table is a non-empty word |
| Buttons.LanguageTable | src/handlers/LeetCodeButtonHandlers.cpp:36-56 | the slug of each of the nineteen languages |
| Buttons.OtherLanguages | src/handlers/LeetCodeButtonHandlers.cpp:58-66 | nothing else is a language |
| Buttons.OfferedAreAccepted | src/http/LeetCodeAPI.cpp:373-380 | every language the daily-question message offers is accepted by the menu handler |
| Buttons.LanguageMenu.HandleDropdown | src/handlers/LeetCodeButtonHandlers.cpp:32-67 | a known language is stored for the user, an unknown one changes nothing, and stored slugs are words |
| Buttons.LanguageMenu.HandleSolutionButton | src/handlers/LeetCodeButtonHandlers.cpp:5-30 | which prefix leads to which action, the question without a language, and that a solution is only fetched with a word slug |
| Dispatch.OnButtonClick | src/Leeto.cpp:51-59 | a click reaches both handlers, at most one acts, and the pager changes only for the owner's page clicks |
| Pages.WindowsInOrder | src/handlers/LeetCodePageLogic.cpp:8-15 | for any size k, windows below the page count are non-empty, contiguous, in order, and end with the list |
| Pages.WindowsPartition | src/handlers/LeetCodePageLogic.cpp:8-15 | every index lies in exactly one window, number index / k |
| Pages.PagesJoinToList | src/handlers/LeetCodePageLogic.cpp:8-15 | the windows of any list join to the list |
| Pages.BuildSolutionsPage | src/handlers/LeetCodePageLogic.cpp:3-17 | the loop renders the window and never indexes outside the list, for any non-negative page |
| Pages.PageShowsOneEntry | src/handlers/LeetCodePageLogic.cpp:5-16 | a page inside the list shows exactly its own entry, a page outside shows none |
| Pages.PageText | src/handlers/LeetCodePageLogic.cpp:12-15 | the whole text of a page, inside the list or outside, field by field |
| Pager.CollectSolutions | src/http/LeetCodeAPI.cpp:604-623 | the loop keeps the present posts in order and fails exactly when an element or post is not an object, a number is null or a field has the wrong type |
| Pager.ConvertedByField | src/http/LeetCodeAPI.cpp:606-621 | where each field of a stored solution comes from |
| Pager.CollectedInOrder | src/http/LeetCodeAPI.cpp:605-623 | the stored solutions are exactly the elements with a post, in order |
| Pager.CollectedIsClean | src/http/LeetCodeAPI.cpp:607-623 | whatever the posts contain, the list's contents have labelled fences and no control escapes |
| Pager.PerUserPages.HandlePageButton | src/handlers/LeetCodePageHandlers.cpp:3-36 | which clicks are ignored, throw, are refused or turn the page, the new maps, and that the left button of the answer turns the clicker's page back and the right one forward |
| Pager.ClickByCase | src/handlers/LeetCodePageHandlers.cpp:9-18 | the two maps after any click, entry by entry |
| Pager.PerUserPages.PressRightArrows | src/handlers/LeetCodePageHandlers.cpp:26-35 | pressing the right button of each new answer in turn reaches every page and stops at the last |
| Pager.PerUserPages.TurnPage | src/handlers/LeetCodePageHandlers.cpp:14-20 | the bounded move through the map references, with default insertion, and the page shown |
| Pager.PerUserPages.CompleteFetch | src/http/LeetCodeAPI.cpp:599-655 | an undisturbed fetch writes the list, resets the page and shows the first page with the user's left and right buttons, or writes nothing |
| Pager.OutOfRangeOnlyInGap | src/http/LeetCodeAPI.cpp:625-629 | in every interleaving no page is negative or overflows, and a page is outside its list only between the two writes of the list's last writer |
| Pager.GapIsReachable | src/http/LeetCodeAPI.cpp:625-626 | a run in which the page is outside the list |
| Pager.RangeChangesIff | src/http/LeetCodeAPI.cpp:625-626 | exactly which step takes a page out of its list (a list write of the user's that the page does not fit) and which brings it back |
| Pager.RunFollows | src/handlers/LeetCodePageHandlers.cpp:9-20 | in every interleaving a user's list and page are the fold of the user's own list writes, page resets and turns |
| Pager.RunStoresClean | src/http/LeetCodeAPI.cpp:621-625 | in every run all stored solutions are clean |
| Pager.ClampedWalk | src/handlers/LeetCodePageHandlers.cpp:9-18 | in every run without a write for the user, whatever others do, the page walks by the user's own turns clamped to the list |
| Pager.WalkAfterFetch | src/http/LeetCodeAPI.cpp:625-626 | in every run, from the page reset of a fetch on, the walk starts on the first page of the list |
| Pager.Isolation | src/handlers/LeetCodePageHandlers.cpp:9-18 | in every run, clicks that are not a user's own and fetches of others change none of the user's entries |
| Pager.ForwardReaches | src/handlers/LeetCodePageHandlers.cpp:18-33 | pressing the generated next button reaches every page and stops at the last |
| Description.ReadDescription | src/http/LeetCodeAPI.cpp:36-64 | what the promise holds after the try block, including the missing-user branch that falls through |
| Description.FetchDescription | src/http/LeetCodeAPI.cpp:28-81 | number of requests, total delay, the value the promise keeps, and exactly when a second resolution escapes |
| Description.ChainIsBounded | src/http/LeetCodeAPI.cpp:70-75 | at most 4 requests and 6 seconds of delay |
| Description.RetriesIff | src/http/LeetCodeAPI.cpp:70-75 | how many responses are retried, by size, status and count, and the waits of 1, 2 and 3 seconds |
| Description.ResolvesTwiceIff | src/http/LeetCodeAPI.cpp:46-58 | which bodies make the promise be resolved a second time |
| Description.SettledIff | src/http/LeetCodeAPI.cpp:30-69 | the future first receives a text exactly when the first response that is not retried is small enough, has status 200 and carries that text |
| Description.NumericNameHidesText | src/http/LeetCodeAPI.cpp:51-52 | an input with a string aboutMe that still yields none |
| Stats.FoldStats | src/http/LeetCodeAPI.cpp:182-193 | the loop yields the last entry that is not skipped of each difficulty, and throws exactly when an entry it reads has a field of the wrong type |
| Stats.LastOfIsLast | src/http/LeetCodeAPI.cpp:182-193 | an entry that is not skipped and is followed by none of its difficulty is the one that counts |
| Stats.ProfileUsesLastEntries | src/http/LeetCodeAPI.cpp:182-223 | each number of the profile is that of the last entry of its difficulty that is not skipped, and 0 without one |
| Stats.OrderIrrelevantIff | src/http/LeetCodeAPI.cpp:182-223 | every order of the entries gives the same profile if and only if no counted difficulty has two entries with different values |
| Stats.ReadProfile | src/http/LeetCodeAPI.cpp:137-223 | exactly which responses give a profile, and each text and the ranking of the profile with its default |
| Stats.TagAdded | src/http/LeetCodeAPI.cpp:166-173 | each tag is added after a comma and a space, or alone when nothing has been written |
| Stats.TagsInOrder | src/http/LeetCodeAPI.cpp:166-173 | empty tags at the front vanish, and all tags from the first other one on appear in order |
| UsersTable.LeetoDB.RegisterUser | src/database/LeetoDB.cpp:37-70 | inserts one row with the given id and names and null statistics, exactly when connected and no row has the id |
| UsersTable.LeetoDB.GetLeetcodeUsername | src/database/LeetoDB.cpp:72-97 | the name of the id's row, empty without a row, none when not connected |
| UsersTable.LeetoDB.StatsExist | src/database/LeetoDB.cpp:99-124 | the check by Discord name, which also succeeds without a row |
| UsersTable.LeetoDB.GetLeetcodeProfile | src/database/LeetoDB.cpp:126-162 | column by column the first row with the name, null numbers reading 0 and null texts empty |
| UsersTable.LeetoDB.UpdateProfile | src/database/LeetoDB.cpp:192-234 | rewrites, column by column, every row with the id and no other, exactly when connected and there is one |
| Commands.BeginRegister | src/commands/RegistryCommands.cpp:11-42 | which check stops a registration before a description is fetched, and for which name it is fetched |
| Commands.LastNameOption | src/commands/RegistryCommands.cpp:23-29 | the last `leetcode_name` option that holds a text gives the name, and without one it is empty |
| Commands.FinishRegister | src/commands/RegistryCommands.cpp:56-72 | a description is accepted exactly when it is `LeetBot->[name]->Verify` with some text before and after, and then one row is added exactly when connected and the id has none |
| Tokens.TokenInTokenIff | src/commands/RegistryCommands.cpp:61 | one user's token verifies another name exactly when the first name begins with the other name and the token's end, ends with the token's front and the other name, or contains the whole token |
| Tokens.PlainTokenVerifiesOwner | src/commands/RegistryCommands.cpp:61 | the token of a name without brackets verifies that name and no other |
| Tokens.BracketedTokenVerifiesOther | src/commands/RegistryCommands.cpp:61 | a name with brackets whose token verifies another name |
| Commands.LookUpCaller | src/commands/LeetCodeCommands.cpp:23-28 | a name that is found is the one in the caller's own row, and passing it back in a refresh changes no stored name; finding none while connected means that the caller has no row |
| Commands.AnswerProfile | src/commands/LeetCodeCommands.cpp:32-81 | cached row, failure, or fetch, by the stats check and the read |
| Commands.FinishRefresh | src/http/LeetCodeAPI.cpp:216-226 | a complete response updates the caller's row with the name that was read for it |
| BotRuns.StepKeepsInv | src/commands/RegistryCommands.cpp:38-68 | every step of every interleaved command keeps the table's invariant |
| BotRuns.TableSafety | src/database/LeetoDB.cpp:43-97 | in every run at most one row per id and no empty name, so the empty answer means no row |
| BotRuns.RowIsProven | src/commands/RegistryCommands.cpp:51-68 | every row goes back to a response with status 200 in whose text the user's token occurs |
| BotRuns.AccountHeldToken | src/commands/RegistryCommands.cpp:46-68 | when responses speak for the accounts they were asked about, the account stored in a row has held a text with the token of the user who registered it |
| BotRuns.NameIsPermanent | src/database/LeetoDB.cpp:210-226 | a registered LeetCode name never changes although every refresh writes it |
| BotRuns.StatsAllOrNone | src/http/LeetCodeAPI.cpp:223-224 | a row's statistics are all null or all from one update whose total is easy + medium + hard |
| BotRuns.ReadsByName | src/database/LeetoDB.cpp:99-162 | in any reachable state, what the stats check and the cached read amount to for any name |
| BotRuns.CachedReadIsCoherent | src/commands/LeetCodeCommands.cpp:32-54 | with distinct, stable names the cached branch reads exactly the values of the user's own last successful update |
| BotRuns.CachedReadsCoherentIff | src/commands/LeetCodeCommands.cpp:32-54 | where every user keeps one name, all cached reads that all runs make while connected are the reader's own last update if and only if no two users share a non-empty name |
| BotRuns.CachedReadIff | src/commands/LeetCodeCommands.cpp:32-54 | a cached read in any reachable state, whatever ran since its check, is the reader's own last update if and only if a row has the name, the reader's row has statistics, and the first row with the name reads the same |
| BotRuns.CachedBranchIff | src/commands/LeetCodeCommands.cpp:32-54 | when nothing runs between check and read: for a registered user under any name, the cached branch is right if and only if the first row with that name exists and has no statistics or the user's own |
| BotRuns.SharedNameMisleads | src/database/LeetoDB.cpp:126-162 | a run from the start after which a user is shown the profile of another user with the same name |
| BotRuns.RenameHidesProfile | src/commands/LeetCodeCommands.cpp:32-38 | a run from the start in which a user has an update, takes a name no row has, and is shown nothing on the cached branch |
| BotRuns.RaceShowsEmptyRow | src/commands/LeetCodeCommands.cpp:32-54 | a run from the start in which another user registers between check and read and the reader is shown that user's empty row |
| Cache.StepConservesIff | dependencies/include/dpp-10.1/dpp/cache.h:101-139 | one store or remove keeps every stored object in exactly one of map and queue if and only if it is disciplined |
| Cache.RunConservesIff | dependencies/include/dpp-10.1/dpp/cache.h:101-139 | the same for every moment of every run |
| Cache.CallConservesAllIff | dependencies/include/dpp-10.1/dpp/cache.h:101-139 | with several caches over the one queue, a call on one conserves ownership in all if and only if it is disciplined and stores nothing that belongs to another |
| Cache.AllRunConservesIff | dependencies/include/dpp-10.1/dpp/cache.h:101-139 | the same for every moment of every run of calls on any of the caches |
| Cache.LookupReplaysHistory | dependencies/include/dpp-10.1/dpp/cache.h:154-161 | looking up an id agrees with the last call about it, for every run |
| Cache.ObjectCache.Store | dependencies/include/dpp-10.1/dpp/cache.h:101-115 | the new map and queue with the time of the call, exactly when ownership is conserved, and that the other caches over the queue keep theirs |
| Cache.ObjectCache.Remove | dependencies/include/dpp-10.1/dpp/cache.h:128-139 | the new map and queue with the time of the call, exactly when ownership is conserved, and that the other caches over the queue keep theirs |
| Cache.ObjectCache.Find | dependencies/include/dpp-10.1/dpp/cache.h:154-161 | the object under the id, which has that id and is not queued |
| Cache.ObjectCache.Rehash | dependencies/include/dpp-10.1/dpp/cache.h:233-242 | copying into a new map changes neither the mapping nor the count |
| Config.ReadAuthFile | src/ReadAuthFile.cpp:3-20 | the loop assigns the lines of the file in order; a missing file gives the empty map |
| Config.LastAssignmentWins | src/ReadAuthFile.cpp:10-17 | each key has the value of the last line that assigns to it, and lines without `=` do nothing |
| Config.FindSplits | src/ReadAuthFile.cpp:11-15 | a line splits at its first `=`; later ones stay in the value |
| Config.LineAssigns | src/ReadAuthFile.cpp:11-17 | a line with `=` assigns, a line without one does nothing |
| Config.FirstLine | src/ReadAuthFile.cpp:10 | a line ends at its newline |
| Config.RoundTripIff | src/ReadAuthFile.cpp:10-19 | parsing the printed lines of a map, in any order, returns the map if and only if no key has `=` or a newline and no value a newline |

## Left out

- Discord messages, embeds, command registration, HTTP transport, GraphQL text, JSON syntax and threads: foreign code. Responses are values that are already parsed, sleeps a counter.
- SQL exceptions and connection handling: a failed connection is a step that clears the connected flag; statements never fail halfway. A select without an order returns the first matching row, and strings are compared exactly, without the collation of the database.
- Data races inside one click and inside one database method: each is one atomic step.
- Retry chains of the other fetchers: some pass the counter on unchanged, others capture it by reference.
- Text is ASCII for the purpose of word characters, and slugs, which come from the language table, contain no `$`.
- Pager.CollectSolutions: the loop reads its elements through constant references, for which the JSON library leaves a missing key undefined; elements with missing keys are not modelled, only null fields are. In the profile response a missing key reads as null.
- Pager: lists have at most 2^31 - 1 entries, the size that the cast to `int` keeps; longer ones are not modelled.
- Stats.ReadProfile: counts are unbounded integers, so an overflow of the sum of three counts is not modelled.
- Cache: `garbage_collection` is only declared in the header, so queued objects stay queued; locks, `bytes` and the order of hash buckets are not modelled, and the id of an object does not change.
- Config: text-mode newline translation of the platform is not modelled.
- Ping, info, daily-question and activity replies: formatting only.
