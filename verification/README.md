# A verified model of the chat client's core algorithms

This project models the parts of the chat client in which loops, shared state and index arithmetic
decide whether messages are shown correctly, and proves what they promise.  Each Dafny file belongs to
one component:

| file | component |
|---|---|
| `LimitedQueue.dfy` | the bounded message buffer, on a ring buffer with a first index and a size |
| `Channel.dfy` | filling in missed messages while other threads append |
| `ChannelMerge.dfy` | merging the histories of several channels |
| `ChannelHelpers.dfy` | stacking timeouts |
| `SignalVectorModel.dfy` | the observable vector and the table with extra rows on top of it |
| `LinkParser.dfy`, `LinkParserProperties.dfy` | the link scanner, and what a parsed link is |
| `MessageSimilarity.dfy` | longest common substring |
| `MessageBuilder.dfy` | cutting words into emotes and text |
| `Cheermotes.dfy` | accounting for cheered bits |
| `PersonalEmotes.dfy` | putting new personal emotes into an old message |
| `Image.dfy`, `ImageCache.dfy` | the animation clock, and the caches of images |
| `ChoppaChannelImport.dfy` | importing channels from the layouts of other installations |
| `Arithmetic.dfy`, `Sequences.dfy`, `Texts.dfy`, `Wrappers.dfy` | shared helpers |

`dafny verify dfyconfig.toml` checks the whole project.  Automatic induction is switched off on every
lemma, so that each proof is the one that is written down.

How the model is built:

* Classes keep the fields of the originals and change them in place.  Every method is proved against a
  function of the old state, and the theorems are about these functions.  `LimitedQueues.Apply`, for
  example, is what an operation does to a list without a limit; every method of the queue is proved to
  give `KeepLast(limit, Apply(old contents, operation))`, and `RefinesExactly` says exactly when the
  queue is then still the end of the list that never forgets.
* `boost::circular_buffer` is modelled by its documented rules: `push_back` on a full buffer overwrites
  the oldest item, and `insert` on a full buffer drops the oldest item or, at the front, does nothing.
* A lock that is held for one call makes that call one atomic step.  `FillInMissingMessages` holds no
  lock between its calls on the queue; what other threads append meanwhile is the argument `schedule`,
  which may put any messages between any two steps.
* A `QDateTime` is `Invalid` or a number of milliseconds; an invalid one is before all valid ones.
* `QString` is a list of UTF-16 code units (`Texts.QString`) wherever positions matter.
* Parts that the originals look up elsewhere are parameters: the table of top level domains and what Qt
  calls a digit (`LinkParser.Tables`), the emoji parser (its pieces make up its input again), the
  cheermotes of a channel (their expression captures a number without leading zero at the end of a
  text), `toCaseFolded`, the codec between rows and items (decoding undoes encoding), and the order of a
  sorted vector, which is a strict weak one.
* In the import, a process that is stopped before a step leaves the same files behind as one in which
  the step failed, so that every interruption is a value of `Fate`.

Where the code differs from what one might expect, the exact condition is proved:

* A needle that occurs twice can put the bounded queue out of step with the unlimited list
  (`RefinesExactly`, for example `DuplicateNeedleBreaksStep`); message pointers are unique, and then it
  cannot happen (`UniqueNeedlesStayInStep`).
* Editing a cell on a sorted vector keeps the table right exactly if the edited item stays in its place
  (`EditKeepsSyncExactly`, for example `EditOnSortedBreaksSync`).
* A link in other surroundings is found as the same link exactly if the parentheses that it leaves open
  are not all closed behind it (`ParseInContext`, for example `OpenLinkIsExtended`).
* An animation follows the global clock exactly if it is loaded at most a minute into its length
  (`FollowsGlobalClock`, for example `LateAnimationLagsBehind`).
* A cheer that asks for more bits than are left does not get what is left, but its remainder by that
  (`AcceptedAmount`, for example `HundredOfThirty`).
* The style `DontStack` stacks all the same (`DontStackStacks`, for example `DontStackExample`), and
  whether a timeout is counted once depends on the newest earlier timeout in reach
  (`CountedOnceExactly`, for example `SecondWayIsNotCounted`).
* After an import that was stopped between the layout and the marker, doing it again imports nothing and
  does not make the marker either (`StoppedRunIsMadeUpFor`, for example `MarkerStaysMissing`).
* The comment on `flush` in `upsertPersonalSeventvEmotes` asks for words that are not empty; the code
  also flushes empty ones.  Every text element that is appended has words exactly if the last word of
  the text is no emote, every emote right behind an emote is zero-width, and a first word that is an
  emote is zero-width and behind an emote (`FlushesWordsExactly`, for whole messages
  `UpsertHasWordsExactly`; for example `LeadingEmoteFlushesNothing`).
* A negative number of cheered bits is never enough for a cheer: the amounts only grow
  (`NegativeBitsNeverSuffice`).

## Model

| member | source | states |
|---|---|---|
| LimitedQueues.RefinesExactly | src/messages/LimitedQueue.hpp:125-344 | each operation on the queue gives the last `limit` items of what it makes of the unlimited list, if and only if the needle is not both forgotten and remembered or the edit does not show; forgotten needles and needles at the front of a full queue included |
| LimitedQueues.RunRefines | src/messages/LimitedQueue.hpp:125-344 | over every run of operations that stays in step, the queue is the last `limit` items of the list that the same operations build without a limit |
| LimitedQueues.UniqueNeedlesStayInStep | src/messages/LimitedQueue.hpp:220-344 | a run in which every needle occurs at most once never gets out of step |
| LimitedQueues.DuplicateNeedleBreaksStep | src/messages/LimitedQueue.hpp:220-234 | a concrete list with a needle that occurs twice, where the queue replaces another item than the unlimited list |
| LimitedQueues.CircularBuffer.PushBack | src/messages/LimitedQueue.hpp:139-150 | on the array with first index and size, the contents become the last `capacity` items of contents and new item |
| LimitedQueues.CircularBuffer.Insert | src/messages/LimitedQueue.hpp:302-344 | on the array, the contents become the last `capacity` items of the list with the item inserted; nothing changes at the front of a full buffer |
| LimitedQueues.LimitedQueue.PushBack | src/messages/LimitedQueue.hpp:139-150 | the oldest item is handed out exactly if the queue was full, and together with the new contents it makes up the old contents and the new item |
| LimitedQueues.LimitedQueue.PushFrontWhile | src/messages/LimitedQueue.hpp:167-180 | stopping at a full queue pushes just what would be kept of everything that the producer has |
| LimitedQueues.LimitedQueue.PushFront | src/messages/LimitedQueue.hpp:192-209 | pushes and returns the end of the items that fits in front, in order |
| LimitedQueues.LimitedQueue.ReplaceItem | src/messages/LimitedQueue.hpp:220-234 | replaces the first occurrence of the needle and returns its index, or -1 |
| LimitedQueues.LimitedQueue.ReplaceItemAt | src/messages/LimitedQueue.hpp:244-262 | replaces by index if there is such an item, and hands out what stood there |
| LimitedQueues.LimitedQueue.ReplaceItemNear | src/messages/LimitedQueue.hpp:272-291 | replaces the item at the hint if it is the needle, else the first occurrence if there is one; that is what `ReplaceItem` does unless the needle is there twice |
| LimitedQueues.LimitedQueue.InsertBefore | src/messages/LimitedQueue.hpp:302-317 | the bounded insertion in front of the first occurrence, done exactly if the needle is there |
| LimitedQueues.LimitedQueue.InsertAfter | src/messages/LimitedQueue.hpp:328-344 | the bounded insertion behind the first occurrence, done exactly if the needle is there |
| LimitedQueues.LimitedQueue.LastN | src/messages/LimitedQueue.hpp:358-365 | the last items, all of them if there are fewer |
| LimitedQueues.LimitedQueue.RFind | src/messages/LimitedQueue.hpp:455-468 | the last item that satisfies the predicate, and none exactly if no item does |
| Channels.AddingConserves | src/common/Channel.cpp:309-348 | filling in adds all missing messages, once per occurrence, and loses none |
| Channels.FilledInKeepsOrder | src/common/Channel.cpp:309-348 | without the added messages, the filled-in history is the snapshot in its order |
| Channels.FilledInAscending | src/common/Channel.cpp:320-347 | if the snapshot's user messages and the incoming messages are ascending, then the user messages and all added ones together are ascending afterwards |
| Channels.FilledInAdds | src/common/Channel.cpp:288-315 | exactly the incoming messages whose id is not on a user message of the snapshot are added, each once per occurrence |
| Channels.FilledInPlaces | src/common/Channel.cpp:320-347 | every added message stands directly in front of the first user message of the snapshot that is strictly later, with only added ones between them, or behind all of the snapshot |
| Channels.FilledInFront | src/common/Channel.cpp:320-347 | in an ascending channel, an added message is in front of a user message if and only if it is strictly earlier |
| Channels.FillStep | src/common/Channel.cpp:304-347 | one insertion keeps the queue the end of the history followed by what was appended, and keeps `lastMsg` at the end of the history |
| Channels.Channel.FillInMissingMessages | src/common/Channel.cpp:260-355 | with any appends between any two steps, the final queue is the last `limit` items of the filled-in history followed by the appended messages in order; the change is announced exactly if something was missing |
| Channels.Channel.InsertInOrder | src/common/Channel.cpp:320-347 | a missing message goes in front of the first later user message of the snapshot, or behind the end of the history |
| Channels.Channel.CollectIds | src/common/Channel.cpp:288-300 | the ids of the snapshot's messages that are not system messages and have one |
| ChannelMerging.MergeFrom | src/common/Channel.cpp:420-447 | from ascending sources: an ascending history of as many messages as fit, a suffix of every source in its order, and nothing left that is later than anything taken |
| ChannelMerging.TakingNewest | src/common/Channel.cpp:423-446 | taking the latest last message keeps the books, the order, and that nothing later is left |
| ChannelMerging.MergeConserves | src/common/Channel.cpp:420-447 | taken and remaining messages together are the messages of the sources |
| ChannelMerging.PickNewest | src/common/Channel.cpp:424-440 | no source ends with a later message, and which one is picked among equals |
| SignalVectors.InsertKeepsSorted | src/common/SignalVector.hpp:79-85 | inserting at the lower bound keeps a sorted vector sorted |
| SignalVectors.SignalVector.Insert | src/common/SignalVector.hpp:75-106 | the item goes to its place in the order, else to the index, else to the end; the announcement names that place and the copy for other threads is up to date |
| SignalVectors.SignalVector.RemoveAt | src/common/SignalVector.hpp:121-133 | just that item leaves, and the announcement names it |
| SignalVectors.SignalVector.RemoveFirstMatching | src/common/SignalVector.hpp:135-154 | the first matching item leaves; nothing changes exactly if none matches |
| SignalVectorModels.VectorOfModelIndex | src/common/SignalVectorModel.hpp:477-521 | from an item to its row and back gives the item's index |
| SignalVectorModels.ModelOfVectorIndex | src/common/SignalVectorModel.hpp:477-521 | from a row to an index and back gives the row if and only if it stands for an item or is the end |
| SignalVectorModels.InsertKeepsSync | src/common/SignalVectorModel.hpp:44-64 | the answer to an insertion keeps the rows that stand for items decoding to exactly the vector |
| SignalVectorModels.RemoveKeepsSync | src/common/SignalVectorModel.hpp:76-98 | so does the answer to a removal, which always finds its row |
| SignalVectorModels.EditKeepsSyncExactly | src/common/SignalVectorModel.hpp:148-194 | editing a cell keeps table and vector in step if and only if the edited item stays in its place; on an unsorted vector it always does |
| SignalVectorModels.MoveKeepsSync | src/common/SignalVectorModel.hpp:269-295 | moving a row keeps them in step and the items the same |
| SignalVectorModels.MovedRowLands | src/common/SignalVectorModel.hpp:269-295 | where a moved row lands: in the place of an item's row, else behind everything |
| SignalVectorModels.StepKeepsSync | src/common/SignalVectorModel.hpp:40-295 | an operation that the assertions allow keeps table and vector in step, unless it edits the row of an item in a sorted vector so that the item would move, and then it does not |
| SignalVectorModels.EditIsOfCell | src/common/SignalVectorModel.hpp:148-194 | an edit changes just the cell it names; the item of the row is replaced by what the edited cells decode to, on an unsorted vector in its place, and all other items stay as they were |
| SignalVectorModels.StepKeepsCustomRows | src/common/SignalVectorModel.hpp:40-295 | whatever is inserted, removed, edited or moved among the items, the custom rows are all there, as they were and in order |
| SignalVectorModels.RunKeepsIndexMaps | src/common/SignalVectorModel.hpp:477-521 | after every run of operations without such an edit, the two index maps are inverse between the items and their rows, and every row decodes to its item |
| SignalVectorModels.SignalVectorModel.constructor | src/common/SignalVectorModel.hpp:40-101 | a new table is in step with a vector that already has items |
| SignalVectorModels.SignalVectorModel.GetVectorIndexFromModelIndex | src/common/SignalVectorModel.hpp:477-497 | the loop computes the number of rows for items in front of a row, or of all of them past a custom row |
| SignalVectorModels.SignalVectorModel.GetModelIndexFromVectorIndex | src/common/SignalVectorModel.hpp:500-521 | the loop finds the first row for an item with that many of them in front of it, or the end |
| SignalVectorExamples.EditOnSortedBreaksSync | src/common/SignalVectorModel.hpp:148-194 | a concrete sorted vector and an edit after which table and vector differ |
| SignalVectorModels.SignalVectorModel.SetData | src/common/SignalVectorModel.hpp:148-194 | succeeds exactly for a cell of the table, and then changes just that cell; the edited row is read back into the vector, which stays sorted if it was, without the table answering its own announcements |
| SignalVectorModels.SignalVectorModel.MoveRows | src/common/SignalVectorModel.hpp:269-295 | removal and insertion, both answered by the table, give the moved view |
| SignalVectorModels.SignalVectorModel.VectorRemoveFirstMatching | src/common/SignalVector.hpp:135-154 | the table follows the removal of the first match |
| SignalVectorModels.SignalVectorModel.InsertCustomRow | src/common/SignalVectorModel.hpp:414-422 | the row is put in at the index with its cells, and changes nothing that the vector is compared with |
| SignalVectorModels.SignalVectorModel.RemoveCustomRow | src/common/SignalVectorModel.hpp:424-432 | neither does its removal |
| MessageSimilarity.LongestCommon | src/messages/MessageSimilarity.cpp:23-49 | the `z` of the table loop is exactly the length of the longest common substring |
| MessageSimilarity.RelativeSimilarity | src/messages/MessageSimilarity.cpp:19-60 | the result times the length of the longer text is the length of the longest common substring; it is from 0 to 1, and 1 exactly for equal texts that are not empty |
| MessageSimilarity.SimilarityIsSymmetric | src/messages/MessageSimilarity.cpp:19-60 | the order of the texts does not matter |
| MessageSimilarity.SimilarityIsShare | src/messages/MessageSimilarity.cpp:51-59 | the similarity is from 0 to 1, and 1 exactly for equal texts that are not empty |
| LinkParser.LabelsJoin | src/common/LinkParser.cpp:213-230 | splitting a host at its dots is exact: labels without dots that make up the host again |
| LinkParserProperties.AddressExactly | src/common/LinkParser.cpp:53-94 | an address is four texts of one to three digits, each at most 255 as hundreds, tens and ones, with dots between them, and nothing else is |
| LinkParserProperties.PortExactly | src/common/LinkParser.cpp:102-118 | by the run of digits in front: there are five or more, or nothing comes behind them, or there is one and '/', '?' or '#' comes behind |
| LinkParserProperties.IgnoredCharacters | src/common/LinkParser.cpp:120-155 | the documented characters, and no others, are ignored in front and behind |
| LinkParser.IsValidIpv4 | src/common/LinkParser.cpp:53-94 | accepts exactly four groups of one to three digits of at most 255; the 8-bit and 16-bit counters never wrap |
| LinkParser.StartsWithPort | src/common/LinkParser.cpp:102-118 | up to five digits, and then the end or a separator unless there were five |
| LinkParser.Strip | src/common/LinkParser.cpp:131-155 | the ends of what is left when ignored characters are taken off |
| LinkParser.ScanLabels | src/common/LinkParser.cpp:207-259 | the host loop gives up only on a host that cannot be good, and else knows its labels, its dots and its last dot |
| LinkParser.ScanParentheses | src/common/LinkParser.cpp:270-306 | the counter loop, which never underflows, ends at the later of the stripped end and the last return to zero |
| LinkParser.Parse | src/common/LinkParser.cpp:171-316 | the scanner finds exactly the links of the specification `ParseResult` |
| LinkParserProperties.LinkSurroundings | src/common/LinkParser.hpp:84-130 | prefix, link and suffix make up the source, protocol, host and rest the link, and only ignored characters are left out |
| LinkParserProperties.LinkParts | src/common/LinkParser.cpp:184-306 | the protocol is none, "http://" or "https://", the host has at least one dot, no empty label and only domain characters, and is an address or ends in a known domain; the rest, also of an extended link, is a port, path, query or anchor |
| LinkParserProperties.LinkEnd | src/common/LinkParser.cpp:270-306 | the link ends at the stripped end or at the last place in the source where the nesting, counted from the rest and clamped at zero, returns to zero |
| LinkParserProperties.ParseIsIdempotent | src/common/LinkParser.cpp:131-316 | parsing a link alone gives the same link with the same protocol, host and rest, also after it was extended |
| LinkParserProperties.ParseInContext | src/common/LinkParser.cpp:171-316 | between ignored characters a link is found again with the same protocol and host, and as the same link if and only if its open parentheses are not all closed behind it |
| LinkParserExamples.OpenLinkIsExtended | src/common/LinkParser.cpp:270-306 | "a.com/(foo" is a whole link, and so is "a.com/(foo)" |
| LinkParserProperties.ParseOfParts | src/common/LinkParser.cpp:171-316 | a protocol or none, a host and a rest, put together, are taken apart into just these |
| WordBuilding.EmoteStep | src/messages/MessageBuilder.cpp:2656-2681 | an emote at the cursor is emitted, and cursor and rest of the word go on behind its name |
| WordBuilding.TextBeforeEmote | src/messages/MessageBuilder.cpp:2683-2703 | text in front of an emote leaves a rest that is not empty and starts with the emote |
| WordBuilding.LastText | src/messages/MessageBuilder.cpp:2706-2725 | when no emote of the word is left, its rest is text, and the cursor is the offset of the next word |
| WordBuilding.MessageBuilder.AddWord | src/messages/MessageBuilder.cpp:2643-2726 | the loop ends; the elements spell the word with its emotes where they occur, and the cursor is the offset of the next one |
| WordBuilding.MessageBuilder.AddWords | src/messages/MessageBuilder.cpp:2635-2727 | for occurrences in order that lie inside words, every occurrence is emitted exactly once, in order and where it occurs, the elements of each word spell it, and a space follows an emote only at the end of its word |
| Cheermotes.AmountRewrites | src/messages/MessageBuilder.cpp:2882-2920 | writing a captured amount gives the captured digits again, so that chopping the number's length chops the amount |
| Cheermotes.RewritingDescends | src/messages/MessageBuilder.cpp:2916-2923 | a rewritten text is shorter or ends with a smaller number, so that the recursion ends |
| Cheermotes.MessageBuilder.AppendWords | src/messages/MessageBuilder.cpp:2031-2050 | over all words of a message, the bits left are never negative and make up the tag together with the amounts of the accepted cheers; the amounts that can be read in the new elements are those of the cheers with a colour, so that, if all have one, they make up the tag together with what is left; with stacking, nothing is taken and all bits are shown at most once, by the first cheer |
| Cheermotes.BitsAreConserved | src/messages/MessageBuilder.cpp:2859-2945 | the amounts read back from the elements of all words and the bits that are left are the bits of the tag, if the accepted cheers have a colour to show them in |
| Cheermotes.CheerIsShown | src/messages/MessageBuilder.cpp:2925-2943 | a cheer is shown by its static emote, its animated emote and its amount, in this order, each exactly if its tier has it |
| Cheermotes.StackIsShownOnce | src/messages/MessageBuilder.cpp:2884-2910 | with stacking, however many cheers there are, there is at most one amount, it is that of all bits, and the first cheer shows it |
| Cheermotes.AcceptedAmount | src/messages/MessageBuilder.cpp:2912-2923 | a cheer of `n` with `bits` left is given `(n - 1) mod bits + 1`, and shown with the tier of that amount |
| Cheermotes.NegativeBitsNeverSuffice | src/messages/MessageBuilder.cpp:2912-2923 | with fewer than no bits left, every amount is too large, and rewriting an amount makes the text no less |
| CheermoteExamples.HundredOfThirty | src/messages/MessageBuilder.cpp:2912-2923 | "cheer100" with 30 bits left is given 10 of them |
| Cheermotes.MessageBuilder.TryAppendCheermote | src/messages/MessageBuilder.cpp:2859-2945 | takes and shows the accepted amount, or changes nothing; with stacking, shows all bits once |
| PersonalEmotes.UpsertKeepsMeaning | src/common/Channel.cpp:620-744 | words, emote names and layered emote names are read in the same order as before, and everything else is in its place |
| PersonalEmotes.UpsertIsIdempotent | src/common/Channel.cpp:620-744 | doing it again changes nothing |
| PersonalEmotes.UpsertEmotesExactly | src/common/Channel.cpp:620-744 | the emotes of the new message are, in order and with layers and flags, those that were there and those that words of its text name; no such word is left in the text |
| PersonalEmotes.FlushesWordsExactly | src/common/Channel.cpp:625-717 | for a text with words, no text element without words is appended, which is that words are never flushed empty, if and only if the last word is no emote, every emote right behind an emote is zero-width, and a first word that is an emote is zero-width and behind an emote |
| PersonalEmotes.UpsertHasWordsExactly | src/common/Channel.cpp:620-744 | the same for whole messages: all text elements of the new message have words, if and only if that holds of every text of the old one, by what is in front of it there, and its other text elements have words |
| PersonalEmotes.LeadingEmoteFlushesNothing | src/common/Channel.cpp:683-717 | a concrete text that starts with an emote and gets a text element without words in front of it |
| PersonalEmotes.MessageElements.Upsert | src/common/Channel.cpp:719-746 | the loops over elements and words give the specified message, which reads as before |
| PersonalEmotes.FindMessage | src/common/Channel.cpp:590-607 | the last of at most five messages that is from the user |
| ImageFrames.FrameDuration | src/messages/Image.cpp:213-223 | frames of up to 10 ms take 100 ms, of up to 20 ms 20 ms, and the others what they say |
| ImageFrames.ReadFrames | src/messages/Image.cpp:203-238 | the durations are, in order, those for the delays of the images that can be read, and can be played |
| ImageFrames.ShownIfFits | src/messages/Image.cpp:134-155 | a frame with an offset of more than 0 and at most its duration is the one that the closed form gives for its time |
| ImageFrames.Frames.constructor | src/messages/Image.cpp:45-93 | frames start where the global clock is, at most a minute into their length |
| ImageFrames.Frames.Advance | src/messages/Image.cpp:128-132 | after every tick, frame and offset are those of the closed form for the elapsed time modulo the length |
| ImageFrames.Frames.ProcessOffset | src/messages/Image.cpp:134-155 | ends, and gives the frame of the closed form |
| ImageFrames.FollowsGlobalClock | src/messages/Image.cpp:72-88 | an animation is where the global clock is, if and only if it was loaded at most a minute into its length |
| ImageFrames.LateAnimationLagsBehind | src/messages/Image.cpp:84-86 | an animation of 60002 ms that is loaded at 60001 ms starts at 60000 ms |
| ImageFrames.CopiesShowTheSame | src/messages/Image.cpp:72-88 | two such copies show the same frame at the same time |
| ImageCaching.UnexpiredFits | src/messages/Image.cpp:348-351 | a cleanup leaves no more entries than there are images |
| ImageCaching.OneImagePerKey | src/messages/Image.cpp:342-356 | at any time, at most one image per URL is alive |
| ImageCaching.ImageCache.FromUrl | src/messages/Image.cpp:334-357 | gives the image that is alive for the URL, or else a new one; the cache stays smaller than 4096 and the images at the last cleanup together |
| ImageCaching.ImageCache.FromResourcePixmap | src/messages/Image.cpp:367-403 | likewise, but the limit may be reached |
| ChannelImport.FiltersAreNotIdentity | src/util/ChoppaChannelImport.cpp:28-68 | stripping filters changes no channel identity, at every depth |
| ChannelImport.IdentityTellsApart | src/util/ChoppaChannelImport.cpp:28-53 | two trees with channels have the same identity if and only if they show the same channels, by data and case-folded name, in the same arrangement of containers, splits without a channel aside |
| ChannelImport.IdentifiedIfShown | src/util/ChoppaChannelImport.cpp:28-53 | a tree has an identity if and only if it shows a channel at most 32 levels down |
| ChannelImport.CleanedKeepsTheRest | src/util/ChoppaChannelImport.cpp:150-152 | an imported tab is the original without selection and filters, and nothing else is missing |
| ChannelImport.ScanPicks | src/util/ChoppaChannelImport.cpp:130-155 | the imported tabs are, in order, the first ones of their identities among those that were not seen |
| ChannelImport.FiltersAreGone | src/util/ChoppaChannelImport.cpp:55-68 | no node of a stripped tree has filters |
| ChannelImport.ScanCounts | src/util/ChoppaChannelImport.cpp:130-155 | of every identity that was not seen, one tab is imported if there is one; of the others none |
| ChannelImport.ImportCounts | src/util/ChoppaChannelImport.cpp:158-170 | the new layout has just the imported tabs in addition |
| ChannelImport.ImportLands | src/util/ChoppaChannelImport.cpp:156-170 | the imported tabs go, in order, behind those of the last main window, or into a new one if there is none; the other windows stay |
| ChannelImport.ImportsExactly | src/util/ChoppaChannelImport.cpp:104-185 | something is imported if and only if there is no marker, the layout is absent or can be read, an offered tab shows channels in a way that no tab of the layout does, and the backup, if needed, and the layout are written; then every offered tab with channels is shown by a tab of the layout, and the count is that of the tabs in addition |
| ChannelImport.LeftAlone | src/util/ChoppaChannelImport.cpp:104-112 | a marked profile, and one whose layout cannot be read, are left as they are |
| ChannelImport.RunsKeepTabs | src/util/ChoppaChannelImport.cpp:104-185 | over any number of runs, however they are interrupted, all windows, tabs and other settings stay in place and in order |
| ChannelImport.RunsAddOnce | src/util/ChoppaChannelImport.cpp:104-185 | over any number of runs, no identity is added twice, or when it is present |
| ChannelImport.ImportIsIdempotent | src/util/ChoppaChannelImport.cpp:104-185 | after an import, a run with the same sources changes nothing, with or without the marker |
| ChannelImport.StoppedRunIsMadeUpFor | src/util/ChoppaChannelImport.cpp:171-184 | a stopped run that is done again leaves the layout and backup of one that was not stopped; the marker is not made up for |
| ChannelImportExamples.MarkerStaysMissing | src/util/ChoppaChannelImport.cpp:156-184 | a concrete layout that is imported without a marker, and is not given one by the next run |
| ChannelImport.RunsSaveOriginal | src/util/ChoppaChannelImport.cpp:172-175 | a layout that is overwritten has been saved, and a backup is never overwritten |
| ChannelImport.CollectSeen | src/util/ChoppaChannelImport.cpp:113-129 | the identities of all tabs of the destination, and its last main window |
| ChannelImport.CollectNew | src/util/ChoppaChannelImport.cpp:130-155 | the loops over sources, windows and tabs are one scan over all offered tabs |
| ChannelImport.Profile.ImportChoppaChannels | src/util/ChoppaChannelImport.cpp:104-185 | the files and the count after a run, for every way it can be interrupted |
| TimeoutStacking.DecideExactly | src/util/ChannelHelpers.hpp:44-112 | the newest earlier timeout within reach decides; without one the timeout is added |
| TimeoutStacking.StacksExactly | src/util/ChannelHelpers.hpp:30-112 | for every style, what is done with a timeout, by the newest timeout of its user from the same chat among the last 20 messages with nothing from there on that is older than five seconds, an untimeout of the user or, by default, a message of the user that was not disabled; without one it is added |
| TimeoutStacking.BeyondUserMessage | src/util/ChannelHelpers.hpp:59-67 | the default style decides like stacking hard, unless the user said something that was not disabled since; then the timeout is added |
| TimeoutStacking.NeverPastUntimeout | src/util/ChannelHelpers.hpp:44-57 | a timeout is stacked only within 20 messages and 5 seconds, and never past an untimeout of its user |
| TimeoutStacking.DontStackStacks | src/util/ChannelHelpers.hpp:77-111 | not to stack decides like stacking, but adds what that would discard |
| TimeoutStacking.PlacedChanges | src/util/ChannelHelpers.hpp:77-135 | the exact change of every user's counts in every case, forgotten messages and wrap-around included, and a growth of at most one message |
| TimeoutStacking.DontStackExample | src/util/ChannelHelpers.hpp:87-111 | two timeouts in a row that are stacked although the style is not to stack |
| TimeoutStacking.CountedOnceExactly | src/util/ChannelHelpers.hpp:24-136 | apart from what a full history forgets, a call counts the timeout once if and only if there is no earlier timeout in reach, or the newest one was seen on the same way and its count does not wrap around, or it is a PubSub one, the new one is none, and the style is not to stack |
| TimeoutStacking.SecondWayIsNotCounted | src/util/ChannelHelpers.hpp:87-93 | a timeout behind its PubSub message that is not counted |
| TimeoutStacking.CallKeepsOthers | src/util/ChannelHelpers.hpp:77-135 | the counts of other users stay, except for what a full history forgets when a message is added |
| TimeoutStacking.RunConserves | src/util/ChannelHelpers.hpp:24-136 | over every run in which the user's timeouts share the PubSub flag and no counter can wrap around, the counts at the end and those forgotten on the way make up the counts at the start and the timeouts of the user |
| TimeoutStacking.RunCounts | src/util/ChannelHelpers.hpp:24-136 | if, moreover, there is room whenever a message is added, every timeout is counted exactly once; what is stacked takes no room |
| TimeoutStacking.TimeoutChannel.Scan | src/util/ChannelHelpers.hpp:44-112 | the scan with its many exits acts as decided |
| TimeoutStacking.TimeoutChannel.DisableMessages | src/util/ChannelHelpers.hpp:114-130 | exactly the user's messages in the snapshot are disabled, in place |
| TimeoutStacking.TimeoutChannel.AddOrReplaceTimeout | src/common/Channel.cpp:199-210 | the history and all flags after a call |

## Left out

- LimitedQueues.LimitedQueue.ReplaceItemNear: the index that `Channel::replaceMessage` announces for it is the hint (src/common/Channel.cpp:404-408) and not claimed to be where the message is.
- LimitedQueues.LimitedQueue.PushBack: a queue of size zero is excluded, because the original reads the front of an empty buffer there.
- Channels.Channel.FillInMissingMessages: other threads may append, but not insert, replace or clear; the incoming messages are not compared with each other, so that an id that comes twice is added twice, as in the original.
- SignalVectorModels.SignalVectorModel.SetData: on a sorted vector the table is not claimed to stay in step; `EditKeepsSyncExactly` says when it does.
- MessageSimilarity.RelativeSimilarity: the quotient is a real number; rounding to single precision is not modelled.
- LinkParserProperties.LinkParts: of the rest it promises a port only if '(' is no digit in the tables, as it is not in Qt.
- LinkParser.StartsWithPort: no upper bound of the port is claimed, because only the first five characters are looked at.
- WordBuilding.MessageBuilder.AddWords: occurrences end at or behind their start, which the parser of the tag sees to; what `addTextOrEmote` makes of a piece of text (other emotes, links, mentions, cheers) is not modelled, and the text is kept as a piece.
- Cheermotes.MessageBuilder.TryAppendCheermote: without stacking the bits are not negative, because with a negative tag no amount is ever small enough (`NegativeBitsNeverSuffice`).
- Cheermotes.MessageBuilder.AppendWords: an amount is counted as `toInt` reads it, so one that is too large for an `int` counts nothing, as in the original; what a word that is no cheer is shown as is one element.
- PersonalEmotes.MessageElements.Upsert: tooltips, links and trailing spaces of the text elements are not modelled.
- ImageFrames.Frames.Advance: the offset is unbounded; it is a 32-bit number in the original, which a duration close to its limit could exceed.
- ChannelImport.Profile.ImportChoppaChannels: a JSON text is its tree, so writing and reading a layout gives it back, and compact texts are equal exactly for equal trees; creating the directory fails like writing does, and a half-written backup is not modelled.
- TimeoutStacking.TimeoutChannel.AddOrReplaceTimeout: the text of a stacked message is not modelled, and its channel keeps a list on which adding and replacing are the operations proved for `LimitedQueue`.
- Signals, recursion guards and freezing of messages, and `addMessagesAtStart`, `firstN`, `find` and `lastNBy`: they would add only easy members.
- Selections, headers, flags and drag and drop of the table: they do not change rows or vector.
- The order of `moveRows` announcements to Qt's views, and overrides of `beforeInsert` that move a row.
- `choppaLegacyLayoutPaths`, and that two paths may name the same file otherwise than by their text.
- `addOrReplaceChannelClear`, which is a simpler form of the timeout scan.
- Layout and painting, network, settings and file formats: they depend on widgets and services that are not part of this model.
