# A model of a Qt client layer over TDLib

The library keeps what TDLib pushes in list models, renders formatted text, tracks files, folders, chats and calls,
and tells answers apart by tags. This project models its stateful and algorithmic parts in Dafny and proves what they
promise. `dafny verify dfyconfig.toml` checks all of it.

| files | what they model |
|---|---|
| `lists`, `idlists`, `rows`, `albums`, `sequences`, `sequenceflags`, `arranging`, `deletion`, `messagesmodel` | the list of loaded messages: index map, album table, batched deletion, the view that follows row notices, what is shown as one sequence |
| `paging`, `pagingruns`, `pagingsteps`, `pagingexact`, `pagingprogress` | the asynchronous paging protocol: its steps, safety over all runs, when exactly a reset or a previous slice is unsafe, and that fair answers load the whole history |
| `jumpable`, `jumpableruns` | the object that takes these steps, and its runs |
| `mirror` | the inverted list against the plain one |
| `substitution`, `replacements`, `formattedtext`, `escaping`, `markup`, `nesting`, `tagorder`, `hiding`, `singleentity`, `prefixes` | formatted text in both directions, against simultaneous substitution; when its tags are balanced; hidden spoilers and emojis; texts put into a template |
| `filesignals`, `filedownload` | the re-entrant signal queue of a file and its download hold-off |
| `listmoves`, `chatlist`, `folderorder`, `chatfolders` | the sorted chat list; the reconciliation of folder tabs |
| `bits`, `waveform`, `resampling` | 5-bit packing and resampling of waveforms |
| `decimal`, `searchfilters`, `requesttags` | request tags: printers and parsers |
| `calls` | incoming calls, their notifications and the LED |

Objects that change in place are classes; their methods are proved against functions on values, and the lemmas are
about those functions.

## What the code relies on

* Message ids are distinct within a received batch. `moreThan` is the negation of `lessThan`
  (src/chat/messagedata.cpp:288), which is no strict order on equal ids; `std::sort` is modelled by its promise.
* A reply is a contiguous stretch of the history the client knows, around its anchor: a previous slice ends right below
  the anchor, at it, or one message past it (the request's offset of -1, src/chat/jumpablemessagesmodel.h:19), a next
  slice starts at the anchor or right above it, a reload ends there, an empty reply says that nothing is left in its
  direction, and a total count of 0 comes with an empty slice. A new message has a larger id than any before and becomes
  the chat's last message in the same step. A deleted batch comes in list order. (`PagingRuns.Possible`)
* The paging theorems are about disciplined runs (`PagingRuns.Allowed`). Such a run resets the window only if the
  reloads and first slices that are outstanding cannot spoil what follows, for example because there are none; it asks
  for a previous slice, or deletes rows while one is outstanding, only if the slice finds the end reached, a row newer
  than its anchor, or nothing older; and its deletions miss the marker of the batch. Each of these
  conditions is exact: `PagingExact.ResetExact`, `PagingExact.PreviousSliceExact`, `Deletion.DeletionExact`.
* TDLib adds only chats that are not in the list, folders have distinct ids other than 0, the direction of a call never
  changes, and a call that is not pending never is again.

## What turned out

* Batched deletion uses the size of the batch as its mark for "no range yet" (src/chat/messagesmodel.cpp:300, 323).
  `Deletion.DeletionExact` gives the exact condition for it to delete what it is asked to, for every list and every
  batch in list order; `Deletion.MarkerCollision` is an instance where it does not.
* `insertMessages` keeps the order exactly for one-sided batches (`Paging.InsertKeepsOrder`). A previous slice may hold
  one message newer than its anchor, which breaks the order around a single row (`Paging.PreviousSliceAroundSingleRow`).
  Every continuation is gap-free if and only if each outstanding previous slice finds the end reached, a row newer
  than its anchor, or nothing older than the first row; with nothing loaded, this must hold for each message that an
  outstanding first slice or reload may bring alone (`PagingExact.PreviousSliceExact`). So `loadMoreHistory` is unsafe
  exactly with one loaded row, something older and the end not reached (`PagingExact.LoadMoreHistoryExact`).
* Answered calls for more load the whole history: each fair answer leaves less to do, and a call can be made until both
  ends are marked (`PagingProgress.EverythingLoaded`). An answer that repeats the anchor alone is not one of them: it
  does not mark the start, and the same call can be made again and again (`PagingProgress.AnchorAloneMarksNothing`).
* The test for another reload counts the received batch, because the parameter hides the list of loaded messages
  (src/chat/messagesmodel.cpp:537).
* A reload or a first slice that is outstanding when the window is reset can leave a gap or break the order.
  `PagingExact.ResetExact` says exactly when, for `loadHistoryForMessage` and for `loadEnd` with either flag. A reload
  that ends below the target is harmless if no message lies between the two; one that ends above it only if it has no
  message past the target to bring, or at most two in all: with the next newer message alone it can still go around the
  target's row (`PagingExact.NextNewerDoesNotAdjoin`). For the end of the chat no live reload is harmless, and no other
  first slice is. Two first slices are harmless if no message lies between their targets, or only the oldest of the
  chat. The flag that `loadEnd` looks at is one bit for any number of reloads, and `loadHistoryForMessage` does not look
  at it (`PagingExact.SecondReloadUnseen`); neither looks at first slices, one of which stays outstanding when a reload
  overtakes it (`PagingExact.FirstSliceUnseen`).
* The flags of a sent message's row and of the rows around it are not announced when it moves to the end. Without
  albums the view stays right exactly for a row that was joined to neither neighbour, joins no row at the end and leaves
  no two rows that join, or for the last row, if it joins the row before it as it did (`Sequences.SentShownExact`).
* `loadEnd` sets the full-end flag just before the reset that clears it (src/chat/readablemessagesmodel.cpp:103-113).
* An album entry that becomes empty is removed and then stored again as an empty list (src/chat/messagesmodel.cpp:445, 459).
* Folders come out in the requested order exactly when no folder ahead of the main list strays
  (`FolderOrder.OrderExact`); the recorded row of the main list is right exactly then. A position behind all kept
  folders makes the move of the main list leave the list (`ChatFolders.MoveInRange`), as in an ordinary first update
  that does not put the main list in front (`ChatFolders.FirstUpdateLeavesList`).
* `ChatFoldersModel::reset` removes its second range by the row of the main list before the first removal
  (src/chatfoldersmodel.cpp:116-123) and leaves that row recorded: only the main list is left if and only if it was the
  first or the last tab (`ChatFolders.ResetExact`, `ChatFolders.ResetKeepsFolder`). Logging out resets twice
  (src/tdlib/tdlibwrapper.cpp:1638, 1644), which leaves only the main list if and only if it was the first tab; else the
  second reset removes the main list too, or reads behind the end (`ChatFolders.TwoResetsExact`,
  `ChatFolders.SecondResetRemovesMain`).
* The comparator of insertions leaves the order of tags at a shared boundary to the unstable sort. For nested or
  disjoint entities the tags are balanced if and only if the ties happen to come out nested
  (`TagOrder.TagsBalancedExact`).
* Behind a template the address of a link is cut out of the text without the shift that its tags get
  (src/formattedtext.cpp:281, 294), so that it is right only by chance (`Prefixes.TagsExact`,
  `Prefixes.LinkPointsElsewhere`).
* The comparator of replacements does the same with an insertion and a replacement at one place: entities come one after
  another if and only if insertions are first there (`Replacements.FormattedTextEntitiesFromReplacements`,
  `Replacements.EqualStartsMisplace`). The one caller looks for mentions, which are never empty (src/utilities.cpp:65),
  so it meets no such tie.
* The last bar of a resampled waveform leaves out all but one sample of a chunk (`Resampling.LastBarExact`).
* Two error branches do not give the link of the request back: a login link comes back from behind its first colon
  (`RequestTags.LoginLinkShortened`), a link without a known browser only between its first two
  (`RequestTags.BrowserLinkShortened`). The branch for a message that is not found is reached by no tag: `getMessage`
  (src/tdlib/tdlibwrapper.cpp:625-641) asks under an id (`RequestTags.NoMessageNotFound`). The id of a sound whose
  notification fails comes back if it holds no colon (`RequestTags.ErrorRoundTrip`).

## Model

| member | source | states |
|---|---|---|
| Deletion.DeletionExact | src/chat/messagesmodel.cpp:294-328 | Looking a batch up from the end of the list towards its start, with ranges removed as soon as they end, leaves exactly the other rows in order if and only if the row numbered like the batch size is kept or goes together with both neighbours |
| Deletion.MarkerCollision | src/chat/messagesmodel.cpp:300-324 | A list and a batch in list order for which a row that should go stays |
| Rows.LookupIsPosition | src/chat/messagesmodel.cpp:302 | An exact index map answers every lookup like a search through the list |
| Rows.IndexInsert | src/chat/messagesmodel.cpp:384-391 | One row inserted with its index entry leaves all rows up to it indexed |
| Rows.IndexErase | src/chat/messagesmodel.cpp:334-345 | Erasing rows and their ids leaves the map with exactly the loaded ids and the rows before the gap indexed |
| Rows.AlbumsExactMeans | src/chat/messagesmodel.cpp:432-461 | When table and marks agree: each entry is the ascending list of the album's loaded ids, its smallest id is the only unfiltered row and carries the list, every other row carries none |
| Albums.RegisterInAlbum | src/chat/messagesmodel.cpp:486-501 | Entering a new row into its album re-establishes table and marks for it and spoils nothing else |
| Albums.RescanAlbum | src/chat/messagesmodel.cpp:432-461 | Rescanning an album with deleted rows settles that album and touches no other |
| Albums.EraseMakesDirty | src/chat/messagesmodel.cpp:334-351 | Erasing rows makes at most the albums of the erased rows wrong |
| Sequences.InsertKeepsShown | src/chat/readablemessagesmodel.cpp:143-178 | In a chat without albums, a view that computes the flags of inserted rows and re-reads the two roles it is told about equals full recomputation |
| Sequences.RemoveKeepsShown | src/chat/readablemessagesmodel.cpp:126-141 | The same after a range has been removed |
| Sequences.FlagsFromNeighbours | src/chat/readablemessagesmodel.cpp:179-199 | Without albums the flags of a row depend on its neighbours alone |
| SequenceFlags.SequencesExact | src/chat/messagedata.cpp:292-302 | Without albums the rows shown as one sequence are exactly the longest stretches of messages of one sender, no service message among them, at most 15 minutes from one to the next |
| SequenceFlags.InvertedAlone | src/chat/messagesmodel.h:79-80 | In the inverted model every row is a sequence of its own |
| SequenceFlags.AlbumFlags | src/chat/readablemessagesmodel.cpp:179-199 | By rows alone: the first row of an album opens a sequence as any row does and closes one if and only if the last row of the album is the last of all or does not follow on; its other rows open none and close one only at the end of the list |
| SequenceFlags.PlainFlags | src/chat/readablemessagesmodel.cpp:179-199 | Rows outside of albums open and close sequences by their neighbours |
| Sequences.SentShownExact | src/chat/messagesmodel.cpp:164-192 | A row that is replaced and moved to the end without notices is shown with the right flags, and so are the others, if and only if it was joined to neither neighbour, joins no row at the end, and the rows it leaves do not join; or if it was the last row already and joins the row before it as it did; the inverted model's flags are always right |
| Arranging.NewOnesMember | src/chat/messagesmodel.cpp:511-525 | The messages taken from a batch are exactly the received ones that belong to the chat, have an id and are not loaded yet, unmarked |
| Arranging.ArrangedFacts | src/chat/messagesmodel.cpp:527-533 | Sorting a batch keeps its messages and puts them strictly in order |
| Arranging.OrderedIds | src/chat/messagedata.cpp:276-290 | Without sponsored messages that order is the order of the ids, descending in the inverted model |
| Arranging.SponsoredBehind | src/chat/messagedata.cpp:276-290 | Sponsored messages count as newer than all others |
| MessagesModels.MessagesModel.constructor | src/chat/messagesmodel.cpp:15-20 | An empty model meets all invariants |
| MessagesModels.MessagesModel.Clear | src/chat/messagesmodel.cpp:88-101 | Clearing empties list, index and, if there were rows, the album table |
| MessagesModels.MessagesModel.BaseInsertMessagesAt | src/chat/messagesmodel.cpp:378-396 | The batch stands at its row, the index is the exact inverse of the list, the view has computed the flags of the new rows only |
| MessagesModels.MessagesModel.BaseAppendMessages | src/chat/messagesmodel.cpp:398-409 | The same at the end |
| MessagesModels.MessagesModel.BasePrependMessages | src/chat/messagesmodel.cpp:411-430 | The same at the start |
| MessagesModels.MessagesModel.UpdateSequences | src/chat/readablemessagesmodel.cpp:143-178 | The overrides re-read exactly one role of the row before and one of the row after the batch |
| MessagesModels.MessagesModel.InsertMessagesAt | src/chat/readablemessagesmodel.cpp:143-156 | Insertion with the override's notices keeps the view equal to full recomputation |
| MessagesModels.MessagesModel.AppendMessages | src/chat/invertedmediamessagesmodel.h:16-18 | A virtual append, which the inverted model turns into a prepend |
| MessagesModels.MessagesModel.PrependMessages | src/chat/invertedmediamessagesmodel.h:19-21 | A virtual prepend, which the inverted model turns into an append |
| MessagesModels.MessagesModel.InsertMessages | src/chat/messagesmodel.cpp:355-376 | Append or prepend, decided by the last row that is not sponsored |
| MessagesModels.MessagesModel.UpdateAlbumMessages | src/chat/messagesmodel.cpp:432-461 | The entry is sorted and, if asked to, freed of ids that are gone; every row in it is marked, and nothing else about the rows changes |
| MessagesModels.MessagesModel.SetMessageAlbum | src/chat/messagesmodel.cpp:486-501 | One new row is entered into its album; the other new rows stay to be entered |
| MessagesModels.MessagesModel.SetMessagesAlbum | src/chat/messagesmodel.cpp:481-484 | After all new rows are entered, table and marks are exact again |
| MessagesModels.MessagesModel.BaseRemoveRange | src/chat/messagesmodel.cpp:330-353 | The range is cut out, the index is exact again, and so are table and marks |
| MessagesModels.MessagesModel.RemoveRange | src/chat/readablemessagesmodel.cpp:126-141 | With the override's notices the view stays equal to full recomputation; an empty or negative range does nothing |
| MessagesModels.MessagesModel.HandleMessagesDeleted | src/chat/messagesmodel.cpp:294-328 | The list after a pushed deletion is the scan's result, which is the old list without the batch if and only if the marker condition holds; index, albums and view stay exact; another chat's deletion changes nothing |
| MessagesModels.MessagesModel.DeleteBackwards | src/chat/messagesmodel.cpp:298-326 | The plain model looks its batch up backwards, finding rows again after each removed range |
| MessagesModels.MessagesModel.DeleteForwards | src/chat/invertedmediamessagesmodel.cpp:11-44 | The inverted model looks its batch up forwards |
| MessagesModels.MessagesModel.HandleInsertMessages | src/chat/messagesmodel.cpp:511-540 | What a received batch adds, where, whether another reload is wanted, and that index, albums and view stay exact |
| MessagesModels.MessagesModel.HandleMessageSendSucceeded | src/chat/messagesmodel.cpp:164-197 | The row of the sent message is replaced and moved to the end, and the index follows; without albums the view stays right if and only if the row was joined to neither neighbour, joins no row at the end and the rows it leaves do not join, or it was the last row and joins the row before it as it did |
| MessagesModels.MessagesModel.InsertMessageInOrder | src/chat/jumpablemessagesmodel.cpp:118-140 | On a list in order, a message is put in if and only if its id lies between the first and the last row, is newer with the end reached, older with the start reached, or the list is empty with both reached; then the list is still in order, and else unchanged |
| MessagesModels.InOrderExact | src/chat/jumpablemessagesmodel.cpp:118-140 | The same for lists of ids, plain and inverted |
| MessagesModels.LastKnownExact | src/chat/messagesmodel.cpp:360-369 | What decides between append and prepend is the id of the last row that is not sponsored |
| MessagesModels.AllSponsored | src/chat/messagesmodel.cpp:360-369 | Or -1 if there is none |
| MessagesModels.MessagesModel.FindPlace | src/chat/jumpablemessagesmodel.cpp:132-138 | The search for its row |
| MessagesModels.IndexRename | src/chat/messagesmodel.cpp:169-176 | Exchanging a row for one with a new id, with the index entry moved over, keeps the index exact |
| MessagesModels.IndexMoveToEnd | src/chat/messagesmodel.cpp:178-192 | Moving a row to the end keeps the rows before it indexed and all ids distinct |
| Paging.InsertKeepsOrder | src/chat/messagesmodel.cpp:355-376 | Inserting an ascending batch keeps an ascending list ascending exactly for one-sided batches |
| Paging.PreviousSliceAroundSingleRow | src/chat/messagesmodel.cpp:355-376 | A batch around the only row breaks the order |
| PagingSteps.StepKeeps | src/chat/jumpablemessagesmodel.cpp:30-112 | Every load-more, jump, reply, new message and deletion of a disciplined run keeps the run invariant: nothing loaded, or a whole stretch of the history that touches the anchor of every outstanding request that can still bring rows |
| PagingSteps.PagingSafe | src/chat/jumpablemessagesmodel.cpp:30-112 | Over every disciplined run the list is gap-free and in order, the reached flags are true, and a previous or next request is outstanding, once, exactly while it is waited for |
| PagingSteps.AcceptedIsAnchored | src/chat/jumpablemessagesmodel.cpp:81-112 | An accepted slice leaves out no message between its anchor and the nearest row |
| PagingExact.ResetExact | src/chat/readablemessagesmodel.cpp:103-114 | After `loadHistoryForMessage` or `loadEnd`, with either flag and whatever is outstanding, every disciplined continuation is gap-free if and only if, for the new target and that of each outstanding first slice, no live reload is outstanding or each adjoins it, which none does for the end, and two on both sides of an existing target have at most three messages at or below the lower one; and no two of these first slices can come apart, none being for the end if there are two |
| PagingExact.NextNewerDoesNotAdjoin | src/chat/jumpablemessagesmodel.cpp:46-53 | With no message between it and the target, a reload that ends at the next newer message does not adjoin: its slice goes around the target's row out of order |
| PagingExact.SecondReloadUnseen | src/chat/jumpablemessagesmodel.cpp:93-110 | Four disciplined steps from a fresh start `loadEnd` and `loadHistoryForMessage` are both let through although a reload is outstanding for which a continuation spoils the list |
| PagingExact.FirstSliceUnseen | src/chat/jumpablemessagesmodel.cpp:46-53 | Three disciplined steps from a fresh start, with no reload outstanding, `loadEnd` is let through although an earlier first slice is outstanding for which a continuation spoils the list |
| PagingExact.PreviousSliceExact | src/chat/readablemessagesmodel.cpp:75-77 | Every disciplined continuation is gap-free if and only if every outstanding previous slice finds the end reached, a row newer than its anchor, or nothing older than the first row; with nothing loaded, if this holds for each message next to the anchor of an outstanding first slice or reload |
| PagingExact.LoadMoreHistoryExact | src/chat/jumpablemessagesmodel.cpp:30-36 | Asking for a previous slice is safe in this sense if and only if the end is reached, two rows are loaded, or nothing is older than the first row |
| PagingRuns.ReplyEffect | src/chat/jumpablemessagesmodel.cpp:55-112 | A reply leaves the end marked if and only if it was, or it is not answered by a reload and the chat's last message is among the rows or a next or first slice was empty; the start likewise for previous and first slices; a reload is asked for exactly after few new messages |
| PagingProgress.TurnProgress | src/chat/jumpablemessagesmodel.cpp:30-112 | Every call for older or newer messages with an answer that brings one, or says that there is none, leaves fewer messages unloaded, or fewer ends unmarked, or fewer requests outstanding |
| PagingProgress.MoreTurns | src/chat/jumpablemessagesmodel.cpp:30-44 | While an end is unmarked and nothing is waited for, such a call can be made and has such an answer |
| PagingProgress.EverythingLoaded | src/chat/jumpablemessagesmodel.cpp:30-112 | Runs of such turns are bounded in length, and when none is left both ends are marked and the list is the whole history in order |
| PagingProgress.AnchorAloneMarksNothing | src/chat/jumpablemessagesmodel.cpp:55-112 | After a previous slice that holds its anchor alone the start is not marked, and the same call can be made again |
| JumpableMessagesModels.ReadableMessagesModel.constructor | src/chat/readablemessagesmodel.cpp:24-27 | A new model is a cleared window with nothing asked for |
| JumpableMessagesModels.ReadableMessagesModel.Clear | src/chat/jumpablemessagesmodel.cpp:19-28 | All paging state is reset |
| JumpableMessagesModels.ReadableMessagesModel.LoadMoreHistory | src/chat/jumpablemessagesmodel.cpp:30-36 | The object takes the protocol's step: a previous slice is asked for from the first row, unless the start is reached, one is waited for or nothing is loaded |
| JumpableMessagesModels.ReadableMessagesModel.LoadMoreFuture | src/chat/jumpablemessagesmodel.cpp:38-44 | The same for the next slice, from the last row, unless a search narrows the list |
| JumpableMessagesModels.ReadableMessagesModel.LoadHistoryForMessage | src/chat/jumpablemessagesmodel.cpp:46-53 | The window is reset around a message unless a slice is waited for or nothing is loaded |
| JumpableMessagesModels.ReadableMessagesModel.LoadEnd | src/chat/readablemessagesmodel.cpp:103-114 | The same for the end of the chat, which also waits for a reload; the full-end flag does not survive |
| JumpableMessagesModels.ReadableMessagesModel.HandlePrepareMessagesReceived | src/chat/readablemessagesmodel.cpp:63-73 | The end is marked afterwards if and only if it was, the chat's last message is among the rows, or a next or first slice was empty; the start if and only if it was, or a previous or first slice was empty |
| JumpableMessagesModels.ReadableMessagesModel.HandleMessagesReceived | src/chat/jumpablemessagesmodel.cpp:81-112 | A reply moves window and requests as the protocol says, and both flags are exactly what the rows and the reply say; the list holds nothing but what it held and what was received, and albums stay exact |
| JumpableMessagesModels.ReadableMessagesModel.HandleNewMessageReceived | src/chat/readablemessagesmodel.cpp:85-101 | A new message is taken in as it is at a reached end, once, and not during a search; else nothing changes |
| JumpableMessagesModels.SliceReply | src/chat/messagesmodel.cpp:511-540 | A reply that carries a stretch of the history adds exactly the part of it that the runs take it to add |
| JumpableRuns.CarriedCounts | src/chat/jumpablemessagesmodel.cpp:81-112 | Such a reply also counts as many messages as the stretch has |
| JumpableRuns.Deliver | src/chat/jumpablemessagesmodel.cpp:30-112 | Told of any step, the object takes it: its window and the requests it sends are the protocol's; albums stay exact, and without albums so does the view |
| JumpableRuns.Run | src/chat/jumpablemessagesmodel.cpp:30-112 | Over any disciplined run the object's rows are a gap-free stretch of the history, and whatever is outstanding has been sent by it |
| Mirror.InsertRowsOnIds | src/chat/messagesmodel.cpp:355-376 | On lists without sponsored rows `insertMessages` works on the ids alone |
| Mirror.BatchMirrors | src/chat/invertedmediamessagesmodel.h:16-24 | The same one-sided batch leaves the plain list ascending and the inverted list its reverse |
| Mirror.InOrderMirrors | src/chat/jumpablemessagesmodel.cpp:118-140 | So does the same insertion in order, with append and prepend swapped but not the insertion in between |
| Mirror.DeleteMirrors | src/chat/invertedmediamessagesmodel.cpp:11-44 | So does the same deletion, scanned the other way round |
| Mirror.RunMirrors | src/chat/invertedmediamessagesmodel.h:16-31 | Over any run of the three the inverted list is the reverse of the strictly ascending plain list |
| Substitution.RightToLeft | src/formattedtext.cpp:290-295 | Carrying ordered edits out one by one from the right is substituting them all at once |
| Substitution.SortedEditsSubstitute | src/formattedtext.cpp:164-177 | So is carrying out any edits that are pairwise apart in the order of the comparator, however ties are broken |
| Substitution.ClearEditsSubstitute | src/formattedtext.cpp:164-177 | So is carrying out edits that may also insert at one point, in the order of the comparator, which then decides what comes first |
| FormattedTexts.AddInsertionsToForChar | src/formattedtext.cpp:234-238 | One escape for every occurrence of a character, in order |
| FormattedTexts.AddInsertionsToForBreaks | src/formattedtext.cpp:240-246 | One break for every match of an optional CR and LF, in order |
| FormattedTexts.SortInsertions | src/formattedtext.cpp:172-177 | A permutation, sorted by the comparator |
| FormattedTexts.Parse | src/formattedtext.cpp:262-297 | The parsed string is the plain or escaped text if there is nothing to insert, and else the sorted edits carried out one by one, shifted by the prefix |
| FormattedTexts.ParseSubstitutes | src/formattedtext.cpp:262-297 | Without a prefix, edits that are pairwise apart amount to one simultaneous substitution |
| Nesting.ParseIsSpelled | src/formattedtext.cpp:262-297 | For nested or disjoint entities with distinct boundaries, the parsed string is the same edits with whole tags as tokens, spelled out |
| Nesting.TagsBalanced | src/formattedtext.cpp:124-162 | The tags form a well-bracketed sequence |
| Nesting.PairEncloses | src/formattedtext.cpp:124-162 | Each pair of tags encloses exactly the rendering of its own interval |
| Nesting.ScanEscapes | src/formattedtext.cpp:252-254 | One pass over the text does what escaping and then replacing breaks does |
| Nesting.DroppingTagsLeavesText | src/formattedtext.cpp:248-297 | Without its tags the escaped parse is the escaped plain text, if no boundary splits a CRLF |
| Escaping.EscapedReadsBack | src/formattedtext.cpp:252-254 | Read back, the escaped text is the text, with every line break as one character |
| Hiding.ReplacementMeans | src/formattedtext.cpp:102-121 | A hidden spoiler is shown as as many blocks as it has characters, an emoji whose picture is known as that picture in the size asked for, and nothing else is replaced |
| Hiding.ReplacedTextShown | src/formattedtext.cpp:262-297 | However ties are broken, the sorted edits give, apart from whole tags, the text with each replaced interval exchanged for its replacement and all the rest as it is, or escaped |
| Hiding.ParseShows | src/formattedtext.cpp:262-297 | So does the whole parse, also where there is nothing to insert |
| Hiding.ShownPlain | src/formattedtext.cpp:248-254 | Where nothing is replaced this is the plain or escaped text |
| SingleEntity.StyleShown | src/formattedtext.cpp:124-148 | A text with a single bold, italic, underlined, struck out or code entity is the text with that style's tag around the entity |
| SingleEntity.LinkShown | src/formattedtext.cpp:141-162 | With a url, phone number, mail address, bot command, mention or tag, it links to what the entity's text says |
| SingleEntity.TargetShown | src/formattedtext.cpp:141-162 | With a text link or a mention by name, to the address or user that comes with the entity |
| SingleEntity.SpoilerShown | src/formattedtext.cpp:116-137 | With a spoiler, blocks stand for its text, inside of a link that reveals it unless it is revealed |
| SingleEntity.OthersShown | src/formattedtext.cpp:124-162 | Kinds without a tag leave the text as it is |
| Prefixes.AppliedBehind | src/formattedtext.cpp:294 | Edits shifted by the length of a prefix change the text behind it as they would change it alone |
| Prefixes.SameEdits | src/formattedtext.cpp:262-281 | With the same tags, and without escaping, the edits of a text in a template are those of the text |
| Prefixes.TemplateAroundParse | src/formattedtext.cpp:256-260 | Then the parse of the text in the template is the template around the parse of the text |
| Prefixes.TagsExact | src/formattedtext.cpp:124-162 | Tags stay the same in a template if and only if they do not link to their own text, or the template happens to have it at the same place |
| Prefixes.LinkPointsElsewhere | src/formattedtext.cpp:256-260 | A mention behind a template that links to the template's letters |
| TagOrder.BalancedExact | src/formattedtext.cpp:124-162 | Tags that come in pairs are balanced if and only if each opens before it closes and no two pairs cross |
| TagOrder.UntangledExact | src/formattedtext.cpp:164-177 | For nested or disjoint entities and tags in the order of their offsets, this is so if and only if at each shared boundary outer tags open first, inner ones close first, equal ones are closed in reverse, and a closing tag is before an opening one |
| TagOrder.TagsBalancedExact | src/formattedtext.cpp:124-177 | So for any order of the edits that the comparator allows, the tags of the rendered text are balanced if and only if the ties are broken this way |
| Replacements.SortReplacements | src/utilities.cpp:106-108 | A permutation, sorted by start |
| Replacements.FormattedTextEntitiesFromReplacements | src/utilities.cpp:126-142 | For replacements that do not overlap, the recorded entities come one after another if and only if the sort has put insertions first where starts are equal; then the final text is the simultaneous substitution, and every entity cuts its replacement out of the final text |
| Replacements.TiesExact | src/utilities.cpp:106-108 | Replacements that do not overlap, in the order of their starts, come one after another if and only if no insertion stands behind a replacement at its place |
| Replacements.FollowedExact | src/utilities.cpp:131-139 | For any replacements, each recorded entity ends before the next begins if and only if the replacements do so in the original text |
| Replacements.Rewrite | src/utilities.cpp:129-141 | The loop with its running correction, for any replacements |
| Replacements.RewrittenIsSubstitution | src/utilities.cpp:129-141 | Replacements that follow each other without overlap, carried out in order, are substituted all at once, and every entity cuts its replacement out of the final text |
| Replacements.EqualStartsMisplace | src/utilities.cpp:126-142 | With equal starts an insertion can land inside the text of a replacement |
| FileSignals.NothingLost | src/tdlib/tdlibfile.cpp:108-140 | With nothing pending, every queueing has been followed by an emission of its signal |
| FileSignals.NothingSpurious | src/tdlib/tdlibfile.cpp:131-137 | Every emission answers a queueing that no earlier emission has answered |
| FileSignals.InOrderFacts | src/tdlib/tdlibfile.cpp:131-138 | An undisturbed round is the queued signals, each once, ascending |
| FileSignals.TDLibFile.constructor | src/tdlib/tdlibfile.cpp:65-75 | Nothing is queued at first |
| FileSignals.TDLibFile.QueueSignal | src/tdlib/tdlibfile.cpp:108-119 | The signal is added to the queue, and the first queued signal is a lower bound again if it was one |
| FileSignals.TDLibFile.EmitQueuedSignals | src/tdlib/tdlibfile.cpp:121-140 | For any finite tree of handlers that queue and emit again, the outermost call leaves nothing queued, inner calls leave only what was queued before below their start, what is logged is ascending emissions with the handler of each right behind it, and without reactions each queued signal is emitted once in ascending order |
| FileSignals.TDLibFile.React | src/tdlib/tdlibfile.cpp:121-140 | A handler inside a round queues what it has to queue and emits, phase by phase, and leaves nothing queued that was not queued before |
| FileSignals.RoundsAreShort | src/tdlib/tdlibfile.cpp:131-138 | No round has more emissions than there are signals, whatever its handlers do |
| FileDownloads.FileDownload.DownloadFile | src/tdlib/tdlibfile.cpp:200-208 | A request is sent exactly for a downloadable file without a running timer, and starts the timer |
| FileDownloads.FileDownload.Load | src/tdlib/tdlibfile.cpp:191-198 | A manual load ignores the timer |
| FileDownloads.FileDownload.SetAutoLoad | src/tdlib/tdlibfile.cpp:163-172 | Switching automatic loading on asks for the file at once, if it can |
| FileDownloads.FileDownload.UpdateTDLibWrapper | src/tdlib/tdlibfile.cpp:147-161 | So does a new wrapper |
| FileDownloads.FileDownload.UpdateFileInfo | src/tdlib/tdlibfile.cpp:275-341 | What a description changes, and that an invalid one changes nothing or clears everything |
| FileDownloads.FileDownload.SetFileInfo | src/tdlib/tdlibfile.cpp:210-221 | The fields follow the description, completion ends the hold-off; a file to be loaded automatically is never left idle without a running timer |
| FileDownloads.FileDownload.constructor | src/tdlib/tdlibfile.cpp:65-85 | A new file takes its description in |
| FileDownloads.FileDownload.TimerEvent | src/tdlib/tdlibfile.cpp:223-229 | The timer ends the hold-off and tries again |
| ChatList.SortIsUnique | src/chatlistmodel.cpp:16-22 | There is only one sorted list of given chats and places |
| ChatList.RowsByOrder | src/chatlistmodel.cpp:12-22 | In it a chat stands above another if and only if its order is greater, or equal and its id greater; pins decide nothing |
| ChatList.Interleaving | src/chatlistmodel.cpp:305-352 | Two runs that tell each chat the same events in the same order leave the same list, however the events of different chats interleave |
| ChatList.IndexIsInverse | src/chatlistmodel.cpp:305-352 | The index is the inverse of the list in both directions |
| ChatList.ChatListModel.UpdateDamagedPart | src/chatlistmodel.cpp:218-230 | A repair loop changes exactly the entries of its rows |
| ChatList.ChatListModel.HandleChatAddedToList | src/chatlistmodel.cpp:305-324 | After an addition list and index are those of sorting from scratch |
| ChatList.ChatListModel.HandleChatRemovedFromList | src/chatlistmodel.cpp:326-341 | The same after a removal, of a chat that may not be there |
| ChatList.ChatListModel.FindRow | src/chatlistmodel.cpp:205-217 | Bubbling up, or down if it does not go up, finds the row where the chat belongs |
| ChatList.ChatListModel.UpdateChatOrder | src/chatlistmodel.cpp:205-241 | Moving one misplaced chat sorts the list, and repairing the rows passed makes the index exact |
| ChatList.ChatListModel.HandleChatPositionUpdated | src/chatlistmodel.cpp:343-352 | The same after a change of order and pin |
| ChatList.ChatListModel.Run | src/chatlistmodel.cpp:305-352 | After any run of events the list is what sorting the current places from scratch gives, and the index its exact inverse |
| FolderOrder.NothingLost | src/chatfoldersmodel.cpp:218-308 | The reconciled tabs are the main list and every requested folder, each once, with the new descriptions |
| FolderOrder.OrderExact | src/chatfoldersmodel.cpp:218-308 | They are in the requested order, and the main list at its position, if and only if every folder ahead of the main list after its move is asked for at most one place behind it; with position 0 always |
| FolderOrder.StraysShiftMain | src/chatfoldersmodel.cpp:218-308 | A request for which they are not |
| FolderOrder.KeptSize | src/chatfoldersmodel.cpp:224-252 | No more folders stay than are asked for |
| ChatFolders.MoveInRange | src/chatfoldersmodel.cpp:254-272 | The move of the main list stays inside the list exactly if its position is not behind all folders that stay |
| ChatFolders.FirstUpdateLeavesList | src/chatfoldersmodel.cpp:254-272 | With only the main list loaded, one new folder and the main list to stand behind it, the move leaves the list |
| ChatFolders.PlacedInRange | src/chatfoldersmodel.cpp:276-305 | The moves of folders always do |
| ChatFolders.ChatFoldersModel.constructor | src/chatfoldersmodel.h:123-127 | At first there is only the main list |
| ChatFolders.ChatFoldersModel.RemoveRemovedFolders | src/chatfoldersmodel.cpp:224-252 | The removal loop leaves the rows that stay, in order, with an exact index |
| ChatFolders.ChatFoldersModel.MoveMain | src/chatfoldersmodel.cpp:254-272 | The main list moves to its position, and the index follows |
| ChatFolders.ChatFoldersModel.FinishMove | src/chatfoldersmodel.cpp:335-349 | After a move, repairing the rows passed makes the index exact |
| ChatFolders.ChatFoldersModel.PlaceFolder | src/chatfoldersmodel.cpp:276-305 | Updating, inserting or moving a folder is taking it out and putting it at its row |
| ChatFolders.ChatFoldersModel.HandleChatFoldersUpdated | src/chatfoldersmodel.cpp:218-308 | The loops together are the reconciliation, every folder's index entry is exact, and the recorded row of the main list is right exactly if nobody strays; if the position is behind all folders that stay, or a reset has removed the main list, the update ends before the move that would leave the list |
| ChatFolders.ChatFoldersModel.RemoveRange | src/chatfoldersmodel.cpp:351-366 | The range is cut out and the index of the rest is exact |
| ChatFolders.ChatFoldersModel.Reset | src/chatfoldersmodel.cpp:116-123 | For any recorded row what is left and that its index is exact; a recorded row behind the end of the list, for which the first range leaves it, is told apart |
| ChatFolders.ChatFoldersModel.LogOut | src/tdlib/tdlibwrapper.cpp:1636-1648 | After two resets only the main list is left if and only if it was the first tab; else it is gone, or the second reset leaves the list |
| ChatFolders.ResetExact | src/chatfoldersmodel.cpp:116-123 | For any recorded row, only the main list is left if and only if that is its row and it is the first or the last tab, or nothing else is there and the recorded row is below -1 |
| ChatFolders.ResetLeaves | src/chatfoldersmodel.cpp:116-123 | What is left are the rows from the recorded one on, and no more of them behind it than were before it |
| ChatFolders.TwoResetsExact | src/tdlib/tdlibwrapper.cpp:1636-1648 | Two resets leave only the main list if and only if it was the first tab; the second one stays in range if and only if there are at least twice as many tabs as the recorded row, and then removes the main list |
| ChatFolders.SecondResetRemovesMain | src/chatfoldersmodel.cpp:116-123 | Tabs for which it does, and tabs for which it leaves the list |
| ChatFolders.ResetKeepsFolder | src/chatfoldersmodel.cpp:116-123 | Three tabs of which a folder stays |
| Bits.OrBits | src/waveformmanager.cpp:36 | An OR has the bits of both operands |
| Bits.BitsDetermine | src/waveformmanager.cpp:36 | Numbers with the same bits are equal |
| Waveforms.TwoBytes | src/waveformmanager.cpp:35-36 | A shifted sample reaches into two bytes of the 32-bit word; the others stay 0 |
| Waveforms.OredBits | src/waveformmanager.cpp:29-36 | An OR sets the bits of one sample and changes no other bit of the buffer |
| Waveforms.OrWord | src/waveformmanager.cpp:32-36 | Of the buffer, an OR changes two bytes, both in range |
| Waveforms.EncodeWaveform | src/waveformmanager.cpp:23-40 | The buffer has the promised length and exactly the bits of the samples' levels |
| Waveforms.SlotBits | src/waveformmanager.cpp:15-18 | Reading a slot across a byte boundary gives its 5 bits |
| Waveforms.DecodeWaveform | src/waveformmanager.cpp:11-21 | Decoding gives all whole slots, at most 100 |
| Waveforms.RoundTrip | src/waveformmanager.cpp:11-40 | Decoding an encoding of samples between 0 and 1 gives every sample rounded down to a multiple of 1/31, and zeros behind them |
| Waveforms.ReencodingKeepsSlots | src/waveformmanager.cpp:11-40 | Encoding decoded data of up to 63 bytes reproduces every whole slot and sets no other bit |
| Resampling.GetWaveformData | src/waveformmanager.cpp:42-68 | Any count from 1 on gives that many values; a bar before the last stands for the mean of its own chunk, the last one for what is summed of the rest; samples in 0..1 give values in 0..1 |
| Resampling.MeanBetween | src/waveformmanager.cpp:53-60 | Such a bar lies between what its chunk's least and greatest samples would be shown as |
| Resampling.MeanIsLocal | src/waveformmanager.cpp:53-60 | Equal chunks are shown by equal bars |
| Resampling.BarInUnit | src/waveformmanager.cpp:51-60 | Every bar is between 0 and 1, the uneven last one included |
| Resampling.LastBarExact | src/waveformmanager.cpp:59-60 | The last bar is the mean of its chunk if and only if the samples it leaves out add up to 0 |
| Resampling.LastBarMissesLoudness | src/waveformmanager.cpp:59-60 | A waveform for which it is not |
| Decimal.NumberRoundTrip | src/tdlib/tdlibreceiver.cpp:288-319 | A printed integer in range is parsed back |
| SearchFilters.NamesDiffer | src/tdlib/tdlibwrapper.cpp:2168-2207 | Different filters have different names |
| SearchFilters.FilterRoundTrip | src/tdlib/tdlibwrapper.cpp:2168-2244 | Looking up the name of a filter gives the filter |
| RequestTags.JoinSplit | src/tdlib/tdlibwrapper.cpp:1583-1587 | Joining the parts of a text with colons gives the text |
| RequestTags.TagParts | src/tdlib/tdlibwrapper.cpp:472 | Every tag is taken apart into the parts it was made of |
| RequestTags.OnlyIdsAreIds | src/tdlib/tdlibreceiver.cpp:123-134 | Of all tags only those of requests with an id are taken for one, and give it back |
| RequestTags.MessagesRoundTrip | src/tdlib/tdlibreceiver.cpp:288-319 | Answers with messages reach the branch of their request with its chat, thread or topic, filter and extra |
| RequestTags.TextRoundTrip | src/tdlib/tdlibwrapper.cpp:1577-1587 | Paths and links come back whole with their flag, colons and all |
| RequestTags.CountRoundTrip | src/tdlib/tdlibwrapper.cpp:2246-2273 | Message counts and their errors come back with filter, flag and chat |
| RequestTags.OtherErrorsPassedOn | src/tdlib/tdlibwrapper.cpp:1699-1763 | Errors of the other requests are taken for nothing else |
| RequestTags.ErrorRoundTrip | src/tdlib/tdlibwrapper.cpp:1699-1763 | Errors for a forum topic, a sound, a chunk of a chat list and a ping reach their branch with the values of the request; a sound's id does if it holds no colon |
| RequestTags.OkRoundTrip | src/tdlib/tdlibwrapper.cpp:1763-1790 | Loaded chunks of chat lists are told apart by their list |
| RequestTags.NoMessageNotFound | src/tdlib/tdlibwrapper.cpp:1699-1763 | No printed tag reaches the branch for a message that is not found |
| RequestTags.LoginLinkShortened | src/tdlib/tdlibwrapper.cpp:1716-1718 | Of a failed login link the text behind its first colon comes back, or nothing; this is the link only if it is empty |
| RequestTags.BrowserLinkShortened | src/tdlib/tdlibwrapper.cpp:1719-1722 | Of a link without a known browser the text between its first two colons is opened, which is never the whole link; without a colon the access is out of range |
| RequestTags.RequestIds.PrepareRequestWithId | src/tdlib/tdlibwrapper.cpp:324-329 | The tag carries the next id, which is used up |
| RequestTags.RequestIds.SendRequestWithId | src/tdlib/tdlibwrapper.cpp:331-336 | The answer is recognised by the id waited for, which no earlier request had |
| Calls.UpdateExact | src/callsmanager.cpp:107-122 | Right notifications stay right if and only if an update neither makes a waiting call outgoing nor a known call wait that did not; possible updates do neither |
| Calls.NotificationManager.PublishCallNotification | src/notificationmanager.cpp:647-683 | A notification exists and the LED is on; none is shown for a call that is gone |
| Calls.NotificationManager.RemoveCallNotification | src/notificationmanager.cpp:685-696 | With the last notification the LED goes off |
| Calls.CallsManager.HandleCallUpdated | src/callsmanager.cpp:107-122 | After an update its call has a notification if and only if it is incoming and named pending; after a possible one exactly the calls whose latest update is incoming and pending have one |
| Calls.CallsManager.SetCurrentCallId | src/callsmanager.cpp:187-195 | Forgetting the old current call spoils nothing |
| Calls.CallsManager.DiscardCall | src/callsmanager.cpp:437-442 | Nor does forgetting a discarded call |
| Calls.CallsManager.Run | src/callsmanager.cpp:107-195 | So after any run of updates, accepts, discards and changes of the current call; and once a notification has been shown the LED is on exactly while one exists |

## Left out

- Device and network input and output, D-Bus, sounds, JSON, base64, tgcalls, file copying and the calls into TDLib: what
  they deliver are parameters here.
- The `removeMessage` of the message list (src/chat/messagesmodel.cpp:556-566): it does not enter the rows behind the
  removed one again, so the index is not exact after it.
- Sponsored messages are sorted as the comparator says, but the chat model that inserts them between others is not modelled.
- MessagesModels.MessagesModel.HandleMessageSendSucceeded: a final id that is loaded already under another row, which
  would leave two rows with one id; the album of the replaced message is not updated, as the code itself notes, so
  nothing is claimed about albums.
- MessagesModels.MessagesModel.HandleInsertMessages: a received batch that repeats an id; `std::sort` is given by its
  promise on distinct ids.
- MessagesModels.MessagesModel.InsertMessageInOrder: an id that is in the list already, which the code would insert a
  second time.
- JumpableMessagesModels.ReadableMessagesModel.HandleMessagesReceived: sponsored messages and repeated ids in a reply or
  in the list; the loaded list is held as an object of its own, with `flavour` saying which override a virtual call
  reaches; messages are values, so aliasing of message objects and their other fields are not captured.
- PagingSteps.PagingSafe: runs during a search, whose list is another one, and steps that are not disciplined; what a
  deletion that hits the marker does to a later run.
- PagingSteps.StepKeeps: the same steps as for `PagingSafe`.
- Scroll positions, read marks and highlighting are fields of the view and not modelled.
- FormattedTexts.Parse: after `argFrom` the escapes are found in the prefixed text and shifted once more; the shift is
  modelled, the theorems about substitution and tags are for a prefix of length 0 or, in `Prefixes`, without escaping.
- Hiding.ReplacedTextShown: text to escape inside of a replaced interval, where the edits overlap, and boundaries of
  other entities inside of one.
- Nesting.ParseIsSpelled: entities shown by a replacement of their text (unrevealed spoilers, custom emojis), for which
  `Hiding` says what is shown; entities that cross, and boundaries inside a CRLF, are excluded. Entities that share a
  boundary are treated in `TagOrder`, with whole tags as tokens.
- Entities of negative length, links of the text-url kind beyond their address, and the loading of custom emojis.
- Replacements.FormattedTextEntitiesFromReplacements: overlapping replacements, for which only the stepwise result is
  given.
- FileSignals.TDLibFile.EmitQueuedSignals: the queue word is the set of its bits, handlers are finite trees, and which
  signals a description queues is not modelled.
- FileDownloads.FileDownload.UpdateFileInfo: sizes, the path and the remote fields, which do not decide about
  downloading, and the signals they queue.
- FileDownloads.FileDownload.SetFileInfo: the same fields.
- ChatList.ChatListModel.HandleChatAddedToList: additions of chats that are in the list already; TDLib does not send them.
- Move and insert notices of the chat list and the folder tabs, refresh timers, unread counts and roles.
- ChatFolders.ChatFoldersModel.HandleChatFoldersUpdated: what a move that leaves the list does to the rows; icons and
  the chat models per folder.
- ChatFolders.ChatFoldersModel.Reset: what removing a range that leaves the list does to the rows.
- Waveforms.OrWord: the 32-bit access is little-endian, and the bytes it touches behind the buffer, without changing
  them, are not part of the model; bytes are unsigned and samples exact rationals, so rounding of doubles is not captured.
- RequestTags.MessagesRoundTrip: only the tags listed in `Request` and `CountTag`; other answers carry ids or texts of
  their own as they are.
- Calls.CallsManager.HandleCallUpdated: the tgcalls instance, the ringing state and the ringtone; drawing a notification.
- The forum topic model, which orders like the chat list; field getters, filters, settings, sticker maps and photo sizes.
