# A verified model of Pan's threading, transfer encodings and stores

This Dafny 4.11 project models the parts of the Pan newsreader that are hardest to get right and proves what they are
for. It checks with `dafny verify dfyconfig.toml`.

## What is modelled

**Threads.** `load_article` builds one forest per newsgroup out of References headers that arrive in any order and may
be trimmed, duplicated or hostile. `Threading` gives it as functions on a graph of ids; `GroupHeaders` is the code itself,
heap nodes that are relinked in place, and each method is tied to those functions. `ThreadingLaws` proves what holds over
whole runs: the graph is always a forest, honest headers only ever make true links, full headers give the same forest in
any order, and printing a header gives back what was loaded.

**The filtered view.** `MyTree` keeps a second set of heap nodes for the articles a filter lets through, each under its
nearest shown ancestor, updates it in place and publishes a record of every change. `ArticleTree` is that code. Its
invariant says that the tree is the projection of the canonical forest and that a listener who replays the records holds
exactly the tree's parent map. `load_article` can change the forest under the tree without telling it: `AddArticles` says
exactly when the tree is a projection after that, and `ThreadedViews` that full headers keep it one and trimmed ones may
not. `Projection`, `ViewUpdates`, `Descendants`, `Filtering`, `Rules` and `SortedRanges` hold the
specifications and the proofs for single steps.

**Transfer encodings.** `UuTables`, `UuCodec`, `ValidData` (with `VerdictLaws`), `UuPart` (with
`UuLaws`) and `UuRoundTrip` follow uuencoded data from the
encoder through the line recogniser and the decoder's state machine with its three-line hold-back, and `UuMultipart`
over several parts. `Yenc`, `YencStream` and `YencEncoder` are the yEnc encoder with its keyword lines (`YencFields`,
`Numerals`), checksums and parts; `YencPart` is the decoder of one part, and `YencRoundTrip` and `YencMultipart` say
when a file comes back from it. `Base64Lines` has the decoder that carries characters from line to line (RFC 2045,
section 6.8), `Base64Part` and `Base64Parts` the decoder of Base64 parts, `Crc32` the table-driven checksum (RFC 1952,
section 8), and `BinhexRle` the resumable run-length decoder (RFC 1741, Appendix A).

**Stores.** `PartList`, `PartCheck` and `GlobalFileList` are uulib's list of files and their ordered part lists;
`MidStore` the packed Message-IDs of a multipart article; `ArticleCache` the size-bounded cache with its locks, and
`CacheRuns` its byte count over runs of operations; `SkipSearch` the skip-table search; `LineReader` the reader with
the growing buffer.

## How it is modelled

A Message-ID (`Quark`) is a string; where the code compares Quarks or nodes by address, the order is given by an arbitrary
function that tells different ids apart, and the results hold for every such function. A byte is an integer from 0 to
255, registers are 32-bit vectors, a file is a sequence of bytes and a position. Filters, the disk's answer to a save, the
clock and the table of known file extensions are parameters. Lists that the code splices are sequences held in fields;
the nodes of both forests and the buffer of the line reader are heap objects.

## Where the code differs from what one would expect

The code is modelled as it is; these are stated and proved as such.

- The search without regard to case looks up one skip with the byte as it stands (text-match.cc:273). Among patterns of up
  to 126 bytes it misses occurrences for exactly those that have a letter and more than one byte
  (`SkipSearch.SafeByLetters`); `SkipSearch.FoldedExactlyWhen` has the condition for all lengths.
- The skip table holds chars. The search is right on every text for exactly those patterns whose entries are all positive
  (`SkipSearch.FindsExactlyWhen`): all patterns of up to 126 bytes, none of 127 to 255 (`SkipSearch.ForwardByLength`), and
  some longer ones (`SkipSearch.LongPatterns`). Any other pattern has a text on which it leaves the text or stands still.
- `ArticleCache::add` counts the bytes of an article whose id is cached already though it does not enter it; the count
  stays too high by that much (`ArticleCache.ArticleCache.Add`).
- Releasing an id more often than it was reserved leaves it locked (`ArticleCache.ReleaseKeepsBalance`).
- Parts set from a batch in any order but ascending cannot all be found (`MidStore.FoundExactlyWhenSorted`).
- The comment in `UUInsertPartToList` about choosing the better of two equal parts describes a branch that cannot be
  reached: equal part numbers are turned away before (`PartList.Place`).
- A new BinHex file starts with the repeat byte of the file before; it shows exactly when the new file begins with a
  repeat count (`BinhexRle.FileBeforeShows`).
- Loading a cache directory counts the size of a file whose id was there before; the count is exact exactly when all such
  files are empty (`ArticleCache.ArticleCache.constructor`).
- A uuencoded part with fewer than four lines that does not meet the end of the file is lost in the decoder
  (`UuMultipart.RunMiddle`), so such files come back exactly when they are in one part or every part has four lines
  (`UuMultipart.UuPartsEndToEnd`). When the last announced part is exactly full it has no end line
  (`UuMultipart.AnnouncedPartsReachEnd`).
- A yEnc file in a single part whose name contains ` part=`, as far as the decoder reads it, does not come back
  (`YencMultipart.PartInName`): its first data line is taken for a range line, and unless that line contains ` end=` the
  decoding breaks off there. A size of 2 GiB or more is read as a negative or smaller int, and then a part that is not
  the last can be taken for it. `YencMultipart.YencEndToEnd` has the exact condition, `YencMultipart.LargeFiles` the sizes
  up to 4 GiB.
- A Base64 part without padding and with fewer than four lines is lost unless a MIME header vouches for it
  (`Base64Parts.RunPart`); `Base64Parts.Base64EndToEnd` says when a file comes back.
- What of a begin line does not fit the line buffer is read as data (`UuRoundTrip.UuEndToEnd`).
- A last line without a newline that begins with NUL counts as empty and is not delivered
  (`LineReader.DeliveredExactly`, `LineReader.NulIsLost`); an article that begins with NUL is not cached
  (`ArticleCache.ArticleCache.Add`).
- The cache's byte count never recovers from an article added under an id already there, whatever is done afterwards
  (`CacheRuns.RunExcess`).
- A tree does not follow links that `load_article` moves above an article it shows, if that is not below the article
  added (`ThreadedViews.TrimmedHeaderSpoilsView`).
- Rules only take out what a tree shows already: an article that arrives is shown if it passes the filter, whether it
  fails the rules or not (`ArticleTree.MyTree.ArticlesArrive`).

## Model

| member | source | states |
|---|---|---|
| Threading.StepKeeps | pan/data-impl/headers.cc:288-359 | one References token, whatever it says, leaves a forest in which a node is on exactly its parent's child list, once, and gives a next node that is in the graph |
| Threading.AttachKeeps | pan/data-impl/headers.cc:300-321 | hanging a root under a token's node and backing out when that closes a loop keeps the forest; when it stays, exactly that one parent link is new |
| Threading.AttachHalts | pan/data-impl/headers.cc:311-318 | a root is not hung, and nothing changes, exactly when the token is it or a node below it |
| Threading.RemoveKeeps | pan/data-impl/headers.cc:113-121 | removing articles changes no link: the forest and every parent stay |
| Threading.RemoveClears | pan/data-impl/headers.cc:113-121 | removing articles empties exactly the named nodes; every node and every other article stays |
| ThreadingLaws.LoadKeeps | pan/data-impl/headers.cc:249-364 | loading an article with arbitrary References (duplicates, self-references, loops) keeps the forest invariant |
| ThreadingLaws.AnyRunStaysAForest | pan/data-impl/headers.cc:249-364 | after any run of loads and removals, in any order: acyclic; a child list holds exactly the nodes that name its owner as parent, each once, and no node is on two lists |
| ThreadingLaws.AttachSound | pan/data-impl/headers.cc:300-321 | hanging a root under one of its true ancestors never trips the loop check, and links it there |
| ThreadingLaws.StepSound | pan/data-impl/headers.cc:288-359 | one token of an honest header: the walk goes on at a node that all remaining tokens are above, links stay true, and a link that moves goes to a strictly closer true ancestor |
| ThreadingLaws.HonestRunIsSound | pan/data-impl/headers.cc:249-364 | if every header is a subsequence of the article's true path, then in any arrival order every parent link is a true proper ancestor, no cycle-break branch is ever taken, and along the run links only move closer |
| ThreadingLaws.StepDecides | pan/data-impl/headers.cc:288-359 | one honest token: a root, or a node under an id that stands earlier in the header, is hung under the token in front of its children; a node below the token already is left for it; any other stays; no other link changes |
| ThreadingLaws.ThreadParent | pan/data-impl/headers.cc:279-360 | where a node hangs after its honest header has been followed, whatever the graph was: under the last id if it was a root or hung under an earlier one, and as before otherwise |
| ThreadingLaws.LoadChains | pan/data-impl/headers.cc:249-364 | an honest header none of whose ids hangs outside it is threaded just as it stands, so it fills the holes that shorter ones left; no other node changes its parent and no other id gets a node |
| ThreadingLaws.LoadFillsHole | pan/data-impl/headers.cc:331-359 | the last listed id hung under one further up, and a load hangs it under the one in between |
| ThreadingLaws.SpaceEndsHeader | pan/data-impl/headers.cc:281-286 | the walk ends at an empty token |
| ThreadingLaws.StepExact | pan/data-impl/headers.cc:288-321 | one token of a full header gives the node its true parent and goes on there, adding no other node |
| ThreadingLaws.OrderDoesNotMatter | pan/data-impl/headers.cc:279-360 | full headers give the same parent map in any order: the true forest cut to the loaded articles and their ancestors |
| ThreadingLaws.PrintsBackWhatWasLoaded | pan/data-impl/headers.cc:138-150 | the header printed for an article is exactly the reference list it was loaded with, after any run of full headers |
| References.PopUndoesJoin | pan/general/string-view.cc:192-209 | taking the last token off a printed reference list gives the last identifier and the list without it |
| References.TrimStrips | pan/data-impl/headers.cc:284 | white space around an identifier is taken off |
| References.OccursInJoin | pan/data-impl/headers.cc:331-332 | searching the header text for a well-formed identifier finds exactly the identifiers of the list, never part of one or of two |
| GroupHeaders.WalkAfterLink | pan/data-impl/headers.cc:1211-1219 | right after a root is hung under a node, when the graph may have a loop, the search upwards for that node ends, and it finds it exactly when the link closed a loop |
| GroupHeaders.FindAncestor | pan/data-impl/headers.cc:1211-1219 | following parent pointers terminates and returns the first node above with the given id, or null when there is none, also on the graph that has a loop for a moment |
| GroupHeaders.LinkUnlessLoop | pan/data-impl/headers.cc:350-357 | on heap nodes: links a root under another node and takes the link back exactly when it would close a loop; nothing else changes |
| GroupHeaders.GroupHeaders.FindOrCreate | pan/data-impl/headers.cc:265-273 | the node under an id, created blank when there is none; other nodes stay |
| GroupHeaders.GroupHeaders.FollowToken | pan/data-impl/headers.cc:282-360 | on heap nodes: one token changes the graph as the specification step does and continues at its node or gives the header up |
| GroupHeaders.GroupHeaders.LoadArticle | pan/data-impl/headers.cc:249-364 | on heap nodes: the new graph is the specification's load of the old one, and stays valid |
| GroupHeaders.GroupHeaders.BuildReferencesHeader | pan/data-impl/headers.cc:138-150 | prints the ancestors oldest first with one space between them, and nothing for an id that is not there |
| GroupHeaders.GroupHeaders.RemoveArticlesOf | pan/data-impl/headers.cc:113-121 | empties exactly the named nodes and keeps them and their links |
| Forest.LinkAcyclic | pan/data-impl/headers.cc:350-357 | hanging a root under a node that is neither it nor below it keeps a forest |
| Projection.NearestIsNearest | pan/data-impl/headers.cc:1221-1239 | every shown ancestor is the one found or lies above it, so none is found only when no ancestor is shown |
| Projection.NearestInView | pan/data-impl/my-tree.cc:424-433 | walking up the view to the first survivor gives the nearest surviving ancestor in the canonical forest |
| Projection.NearestUnlessBelow | pan/data-impl/my-tree.cc:587-594 | adding articles changes the nearest shown ancestor only of nodes below an added one |
| Projection.ChangesLeadThere | pan/data/data.h:468-507 | applying the exact change record to the old parent map gives the new one |
| Projection.ChangesSay | pan/data/data.h:468-507 | what the record says of each node: its new parent, its old and its new one, or that it is gone |
| ViewUpdates.MoveSurvivor | pan/data-impl/my-tree.cc:416-437 | moving one survivor whose parent was removed keeps all the others settled and the child lists in step |
| ViewUpdates.MovesToFront | pan/data-impl/my-tree.cc:424-437 | a survivor goes in front of the children of its new parent, and no other list changes |
| ViewUpdates.EraseLeavesView | pan/data-impl/my-tree.cc:442-443 | after all survivors are reparented, erasing the removed nodes leaves each survivor under its nearest surviving ancestor in the tree: a forest, and a view if the tree was one |
| ViewUpdates.SettleByMove | pan/data-impl/my-tree.cc:656-664 | relinking a node under its nearest shown ancestor settles it and unsettles nothing |
| ViewUpdates.RelinksToEnd | pan/data-impl/my-tree.cc:656-664 | a node that is rehung leaves its old parent's list and goes to the end of the new one |
| ViewUpdates.OldNodeSettles | pan/data-impl/my-tree.cc:587-604 | added articles do not change the nearest shown ancestor of a node that is not below one; a node that is has a shown ancestor, so the new parent is never null |
| ViewUpdates.SettledIsView | pan/data-impl/my-tree.cc:503-675 | when the added nodes and all shown nodes below them are settled, the tree is a view if and only if every other node hung under its nearest shown ancestor before |
| ArticleTree.ClearArticles | pan/data-impl/my-tree.cc:383-398 | empties the removed nodes and collects the parents of all of them |
| ArticleTree.PruneLists | pan/data-impl/my-tree.cc:400-408 | exactly the removed nodes leave the child lists of the collected parents; order is kept |
| ArticleTree.ReparentOne | pan/data-impl/my-tree.cc:416-437 | a node whose parent was removed goes to the nearest survivor, in front of its children, and is recorded; any other node stays |
| ArticleTree.ReparentSurvivors | pan/data-impl/my-tree.cc:411-438 | one pass over all nodes, in map order, reparents and records exactly the orphaned ones |
| ArticleTree.LinkNew | pan/data-impl/my-tree.cc:552-581 | each new node hangs at the end of its nearest shown ancestor's list and is recorded with that parent |
| ArticleTree.RehangTarget | pan/data-impl/my-tree.cc:637-662 | the walk for a node below an added article finds its nearest shown ancestor, and never null when the node has to move |
| ArticleTree.RehangOne | pan/data-impl/my-tree.cc:631-669 | a node below an added article moves under its nearest shown ancestor, with an exact record, or stays when it is there already |
| ArticleTree.InBoth | pan/data-impl/my-tree.cc:606-626 | the parallel walk over two ordered lists gives exactly the ids in both |
| ArticleTree.ThreadAdded | pan/data-impl/my-tree.cc:547-670 | for every order of node addresses, so whichever of the new nodes survive the pointer-ordered difference, all new and all affected old nodes end up settled and the records are exact |
| ArticleTree.RemovalRecord | pan/data-impl/my-tree.cc:380-438 | the record of a removal is the exact difference of the parent maps |
| ArticleTree.AdditionRecord | pan/data-impl/my-tree.cc:551-667 | the record of an addition is the exact difference of the parent maps |
| ArticleTree.MyTree.constructor | pan/data-impl/my-tree.cc:146-163 | a new tree is filled at once: it holds exactly the articles that its filter and show mode stand for and that do not fail the rules, and the log of records replays to its parent map |
| Rules.RuleOut | pan/data-impl/my-tree.cc:195-250 | the walks up and down the threads of failing candidates single out exactly the specified articles |
| Rules.UpwardGathers | pan/data-impl/my-tree.cc:211-230 | gathering below a node and all nodes above it is gathering its thread |
| Rules.AllRuledOut | pan/data-impl/my-tree.cc:87-115 | with all articles as candidates exactly the failing ones go, in every show mode |
| Rules.RuledOutMeans | pan/data-impl/my-tree.cc:195-250 | only failing articles go: failing candidates, and failing articles of the threads or subthreads of these |
| Rules.FailsMeans | pan/data-impl/my-tree.cc:204-208 | an article fails where the rules do not let it through |
| ArticleTree.MyTree.ApplyRules | pan/data-impl/my-tree.cc:195-250 | takes exactly the singled-out articles out of the view, which stays a view |
| ArticleTree.MyTree.SetRules | pan/data-impl/my-tree.cc:87-115 | leaves of what was shown exactly the articles that do not fail |
| ArticleTree.MyTree.ArticlesArrive | pan/data-impl/my-tree.cc:482-493 | rules, then filter: the tree changes by exactly these selections, and an arriving article that passes the filter is shown even if it fails the rules |
| ArticleTree.MyTree.Publish | pan/data/data.h:535-541 | a record goes to the listeners unless it says nothing |
| ArticleTree.MyTree.RemoveArticles | pan/data-impl/my-tree.cc:377-444 | from any tree that is a forest: exactly the named articles go, each survivor hangs under its nearest surviving ancestor, a view stays a view, and the log replays to the parent map |
| ArticleTree.MyTree.AddArticles | pan/data-impl/my-tree.cc:503-675 | adds exactly the articles; the log replays to the parent map; and the tree is a view afterwards if and only if every shown node not below an added article hung right before, also after the headers have changed under the tree |
| ArticleTree.MyTree.HeadersChange | pan/data-impl/headers.cc:249-364 | when load_article changes the forest under a tree, which is not told, it stays a view if and only if the nearest shown ancestor of all it shows is the same |
| ThreadedViews.LoadStillShows | pan/data-impl/headers.cc:249-364 | loading an article changes no other article, so a tree still shows articles of the forest |
| ThreadedViews.LoadPopulates | pan/data-impl/headers.cc:263-276 | loading puts the article into its own node, be it new, blank or taken, leaves all other articles, and makes nodes without articles for new ids |
| ThreadedViews.FullHeadersKeepView | pan/data-impl/headers.cc:249-364 | when all headers are full, loading one more under a view leaves it a view, whatever is added next |
| ThreadedViews.TrimmedHeaderSpoilsView | pan/data-impl/headers.cc:300-321 | with trimmed headers it need not: three articles after which a shown node belongs under another but is not below the one added |
| ArticleTree.MyTree.ApplyFilter | pan/data-impl/my-tree.cc:292-375 | shows the passing candidates and hides the failing ones, as the filter specification splits them |
| ArticleTree.MyTree.SetFilter | pan/data-impl/my-tree.cc:117-140 | afterwards the tree shows exactly the articles the filter and show mode stand for, whatever it showed before |
| SortedRanges.DifferenceInAnyOrder | pan/data-impl/my-tree.cc:596-604 | std::set_difference on ranges in any order drops only elements of the second range and drops no element that is not in it |
| SortedRanges.DifferenceInOrder | pan/data-impl/my-tree.cc:519-528 | on ordered ranges it is set difference, in order |
| SortedRanges.UnionInOrder | pan/data-impl/my-tree.cc:346-353 | on ordered ranges std::set_union is the union, in order and without duplicates |
| SortedRanges.CommonInOrder | pan/data-impl/headers.cc:210-238 | on ordered ranges std::set_intersection gives exactly the common ids |
| Descendants.AccumulateDescendants | pan/data-impl/my-tree.cc:446-456 | despite the cutoff at nodes visited before, the result gains exactly the articles at or below the node, and stays closed |
| Descendants.AccumulateAll | pan/data-impl/my-tree.cc:331-333 | over a list of nodes the result is exactly the articles at or below any of them |
| Filtering.PassAndFail | pan/data-impl/my-tree.cc:295-310 | splits the candidates into those that pass and those that fail, in order |
| Filtering.ThreadTops | pan/data-impl/my-tree.cc:315-326 | the ordered, duplicate-free tops of the threads of the passing articles |
| Filtering.KeepOrDrop | pan/data-impl/my-tree.cc:336-344 | splits the gathered articles by score and filter |
| Filtering.Select | pan/data-impl/my-tree.cc:292-375 | the lists handed to add and remove meet the specification of the filter |
| Filtering.GatheredIsWanted | pan/data-impl/my-tree.cc:312-364 | with all articles of the group as candidates, the passing list is exactly the passing articles, or the articles in a passing article's thread or subtree that score above -9999 or pass |
| Filtering.WantedMeans | pan/data-impl/my-tree.cc:312-364 | what a filter and a show mode stand for, told by common ancestors instead of thread tops |
| Filtering.PassesMeans | pan/data-impl/my-tree.cc:298-344 | an article passes that the filter lets through, and is kept if it does or is scored above -9999 |
| Filtering.SelectedMeans | pan/data-impl/my-tree.cc:292-375 | which of some candidates and their threads are shown and which hidden, told article by article |
| Filtering.AllCandidates | pan/data-impl/my-tree.cc:366-374 | whatever was shown before, showing the passing and hiding the failing list leaves exactly the wanted articles |
| UuTables.TablesInvert | uulib/uunconc.c:131-181 | each decoding table is the inverse of its encoding table; for UU it says exactly which bytes are second spellings of which value |
| UuTables.Alphabets | uulib/uuencode.c:133-181 | the four alphabets, character by character |
| UuTables.LineLengths | uulib/uunconc.c:150-160 | the length of a line that announces so many bytes |
| UuTables.InitConc | uulib/uunconc.c:131-181 | filling the arrays in place gives those tables and the line lengths |
| UuCodec.EncodeLine | uulib/uuencode.c:589-655 | the loop over groups of three bytes writes the line the specification gives, padding included |
| UuCodec.QuadIsNumber | uulib/uuencode.c:606-628 | the four characters of a group are the digits in base 64 of the number that its three bytes are in base 256 |
| UuCodec.RestIsPadded | uulib/uuencode.c:630-655 | one or two bytes left over are padded, in Base64 with as many equals signs as bytes lack |
| UuCodec.LinesAreFull | uulib/uuencode.c:565-674 | lines hold 45 bytes, in Base64 57, but for the last, and UU and XX lines begin with the number of bytes |
| UuCodec.EncodeStream | uulib/uuencode.c:565-674 | encodes line by line up to the end of the file or the line limit |
| UuCodec.DecodeLine | uulib/uunconc.c:625-657 | the loop with its running count writes what the specification decodes |
| UuCodec.LineRoundTrip | uulib/uunconc.c:625-657 | decoding an encoded UU or XX line of up to 63 bytes gives the bytes back, whatever follows the line |
| UuRoundTrip.EncodedLineAccepted | uulib/uunconc.c:298-530 | before and after data is trusted, every line of the encoder is taken for UU, past the BinHex, Base64, UU and XX tests and the one correction, unless it looks like BinHex after a line of it |
| VerdictLaws.UuMeans | uulib/uunconc.c:428-500 | which lines pass for UU, told by their length and characters |
| VerdictLaws.XxMeans | uulib/uunconc.c:502-560 | which lines pass for XX |
| VerdictLaws.B64Means | uulib/uunconc.c:384-426 | a line passes for Base64 exactly when it is characters of the alphabet and one of the allowed endings |
| VerdictLaws.BinhexMeans | uulib/uunconc.c:340-383 | what passes for BinHex begins with a colon, and goes on only in lines of 40 characters or more that do not end in one |
| VerdictLaws.VerdictOrder | uulib/uunconc.c:298-340 | BinHex, Base64, UU and XX are tried in this order until one is settled on |
| ByteText.LineEnds | uulib/fptools.c:444-461 | a line is delivered with one newline, whether it ended in that or in a carriage return and a newline, and up to a NUL |
| UuRoundTrip.RunText | uulib/uunconc.c:1189-1281 | unless the last line looks like the MIME boundary or an early one like BinHex, reading all data lines holds back or writes exactly the encoded bytes, and it is known when the hold-back ends |
| UuRoundTrip.RunTextDrops | uulib/uunconc.c:1252-1257 | an early line that looks like BinHex is missing in the end, with all that was held back |
| UuRoundTrip.DashesCutShort | uulib/uunconc.c:1058-1067 | thirteen bytes whose line looks like the boundary |
| UuRoundTrip.RunTextStops | uulib/uunconc.c:1058-1067 | a last line that looks like the boundary stops the reading before the end |
| DecoderLines.BoundaryMeans | uulib/uunconc.c:1058-1060 | a boundary line is two dashes and the boundary that was given, whatever follows |
| DecoderLines.CutMeans | uulib/uunconc.c:1055 | the decoder looks at the first 255 bytes of a line |
| UuRoundTrip.EncodeToStream | uulib/uuencode.c:1886-2013 | writes the begin line with the mode in octal, the data lines, an empty data line, the end line and a blank line |
| UuRoundTrip.HeaderReads | uulib/uuencode.c:1935-1945 | the mode reads back from the begin line in octal, and the name stands after it |
| UuRoundTrip.FileEndsBlank | uulib/uuencode.c:1941-2005 | the begin line is first, and the end line and a blank line are last |
| UuPart.DecodePart | uulib/uunconc.c:968-1306 | the reading loop, with tf, tc, the three saved lines in an array, vlc, bhflag and state updated line by line, ends as the state machine does: same outcome, state, flag and output |
| UuRoundTrip.UuEndToEnd | uulib/uunconc.c:968-1306 | for every content, mode, name of any length and boundary: what the overlong part of the begin line leaves decides whether the reading goes on; then DONE is reached if and only if the last line does not look like the boundary, and the content has come back if and only if the overflow left no bytes and no early line is dropped |
| UuRoundTrip.ShortHeader | uulib/uunconc.c:968-1306 | with a begin line that fits the line buffer the content comes back whenever DONE is reached |
| UuRoundTrip.RunBegin | uulib/uunconc.c:1016 | a begin line of any length is read as the begin line and then, in pieces of the line buffer, as data |
| UuRoundTrip.LongNameIsData | uulib/uunconc.c:1016 | the part of a begin line that does not fit the line buffer is read as data: an encoded line there comes out in front of the content |
| UuLaws.BlankLineBetween | uulib/uunconc.c:1038-1042 | a blank line after ten data lines or more makes the decoder hold lines back again, so fewer than four lines after it are lost; after fewer lines it does not |
| UuLaws.EndNeedsShortLine | uulib/uunconc.c:1142-1148 | the word end ends the file after a line that is not full, and not after full lines only |
| UuLaws.FullLinesGoOn | uulib/uunconc.c:1242-1246 | only a line that begins with M, in XX with h, lets the decoder expect more data |
| UuLaws.BeginLines | uulib/uunconc.c:1096-1102 | a begin line may stand in an HTML paragraph and then in any mix of cases |
| UuLaws.ForeignLineForgets | uulib/uunconc.c:1252-1257 | a line of another encoding ends the trust and drops what is held back |
| UuLaws.CutLineDrops | uulib/uunconc.c:1073-1078 | a line that announces a cut drops what is held back while data is not trusted |
| UuLaws.CutPhrases | uulib/uunconc.c:1074-1075 | the two phrases of such a line |
| UuRoundTrip.EncodeAndDecode | uulib/uunconc.c:968-1306 | encoding a file and decoding the result with the two methods gives the file back under exactly those conditions |
| UuMultipart.EncodePartial | uulib/uuencode.c:1290-1575 | one part from where the part before stopped: header lines and begin line in the first, end line only where the end of the file is met |
| UuMultipart.EncodeParts | uulib/uuencode.c:1290-1575 | part after part writes exactly the specified parts |
| UuMultipart.DecodeParts | uulib/uunconc.c:1424-1495 | the loop over the parts carries state, flag and output, and nothing else, from part to part |
| UuMultipart.RunMiddle | uulib/uunconc.c:1220-1250 | a part that does not meet the end of the file comes out whole if it has four lines or more, and not at all if it has fewer |
| UuMultipart.UuPartsEndToEnd | uulib/uunconc.c:1424-1495 | a file written in parts and read back is always complete for the decoder, and its content comes back if and only if there is one part or every part has at least four lines; otherwise only the last part comes out |
| UuMultipart.AnnouncedPartsReachEnd | uulib/uuencode.c:1362-1367 | with the announced number of parts the decoder reaches the end if and only if the file size is not a multiple of the part size |
| Base64Lines.LineDecoder.DecodeLine | uulib/uunconc.c:658-687 | one line with the carried characters in front gives the specified bytes and the new leftover |
| Base64Lines.FeedDecodes | uulib/uunconc.c:658-687 | encoded text cut into lines anywhere, inside a group or its padding, decodes to exactly the data, with at most three characters carried and none left over |
| Base64Lines.EncoderLinesJoin | uulib/uuencode.c:565-674 | the encoder's lines are the unbroken Base64 text, cut |
| Base64Lines.Base64RoundTrip | uulib/uunconc.c:658-687 | decoding the encoder's own lines one by one gives the data back |
| Base64Part.DecodePart | uulib/uunconc.c:968-1306 | the reading loop for Base64, with the three lines held back, the carried characters, the notes about boundaries and Content-Type lines, and the writing after the loop, ends as the state machine does |
| Base64Parts.EncodedLineAccepted | uulib/uunconc.c:298-410 | before and after data is trusted, every line of the encoder is taken for Base64 |
| Base64Parts.RunText | uulib/uunconc.c:1189-1263 | all data lines are written or held back, and a padded one ends the file |
| Base64Parts.RunPart | uulib/uunconc.c:1283-1305 | the bytes of a part come out whole if it is known to be MIME, has no lines or at least four, or ends with padding; otherwise none of them |
| Base64Parts.RunDashLine | uulib/uunconc.c:1080-1090 | what a line of dashes does in every state: the end of the file, or a note of it, or the end of the part in MIME |
| Base64Parts.BoundaryVouches | uulib/uunconc.c:1283-1303 | before a boundary line data comes out whole, however few its lines are |
| Base64Parts.SecondBoundaryEnds | uulib/uunconc.c:1080-1086 | the second boundary line after data ends the file with all of it written |
| Base64Parts.BoundaryAfterContentType | uulib/uunconc.c:1080-1092 | after a Content-Type line the first one does |
| Base64Parts.ContentTypeIsNoted | uulib/uunconc.c:1091-1092 | a Content-Type line is noted unless the mail is known to be MIME |
| Base64Parts.BoundaryEndsProper | uulib/uunconc.c:1190-1192 | in MIME a boundary ends the part and the lines held back are written |
| Base64Parts.ForeignLineForgets | uulib/uunconc.c:1252-1257 | a line of another encoding ends the trust and drops what is held back and the note of a boundary |
| Base64Parts.BlankEndsTrust | uulib/uunconc.c:1038-1042 | after more than five lines in a row a blank line ends the trust, and not after fewer |
| Base64Parts.CutLineDrops | uulib/uunconc.c:1073-1078 | a line that announces a cut drops what is held back while data is not trusted |
| Base64Parts.EncodeParts | uulib/uuencode.c:1290-1575 | part after part writes exactly the specified parts |
| Base64Parts.DecodeParts | uulib/uunconc.c:1424-1495 | the loop over the parts carries output and carried characters from part to part and stops where padding ends the file |
| Base64Parts.Base64EndToEnd | uulib/uunconc.c:1424-1495 | a file written in parts and read back without MIME headers has its content if and only if no part is lost: full parts of at least four lines, and a last one that has four, or padding, or nothing; with MIME always |
| Base64Parts.EncodeAndDecode | uulib/uunconc.c:1424-1495 | encoding a file in parts and decoding them with the methods gives the file back under exactly that condition |
| Crc32.SlicedIsBytewise | uulib/crc32.c:533-535 | four table look-ups on a loaded word do what four single-byte steps do, for every register and every four bytes |
| Crc32.TableIsShifts | uulib/crc32.c:53-489 | entry n of table k is n pushed through k + 1 bytes of zeros |
| Crc32.CheckValue | uulib/crc32.c:498-570 | the check value of this CRC over the nine digits |
| Crc32.CrcChains | uulib/crc32.c:498-530 | the CRC of a whole is the CRC of its second part continued from the first |
| Crc32.ReadsDoNotMatter | uulib/uuencode.c:464-467 | feeding a checksum read by read gives the checksum of everything, however it was read |
| Crc32.DoLit4 | uulib/crc32.c:533-535 | one word step moves the position by four and the register by four bytes |
| Crc32.Crc32Little | uulib/crc32.c:538-570 | for every buffer and alignment the three loops compute the bytewise CRC |
| Yenc.DecodeLine | uulib/uunconc.c:720-735 | the decoding loop is the specification, a lone escape at the end of a line included |
| Yenc.CharactersSay | uulib/uuencode.c:502-541 | how each byte is written, and which are escaped |
| Yenc.LinesAreFull | uulib/uuencode.c:490-500 | every line but the last has at least 128 characters |
| Yenc.LinesDecode | uulib/uuencode.c:445-546 | filling lines from any state: decoding gives back what went in, and every line has the right shape |
| Yenc.YencRoundTrip | uulib/uuencode.c:445-546 | for every byte sequence the lines decode to it, and each has 1 to 129 characters, no NUL, CR or LF, does not start with a dot, and never starts with =y |
| YencStream.EncodeStream | uulib/uuencode.c:445-546 | reads of 128 bytes, two running checksums and lines broken where they are full give the specified lines and the checksums of the bytes read |
| YencStream.PartsReachEnd | uulib/uuencode.c:1362-1367 | numparts parts reach the end of the file and one fewer does not, for every size and line limit; an empty file counts none |
| YencStream.PartsTile | uulib/uuencode.c:1455-1459 | the announced ranges are consecutive, run from 1 to the size of the file, none is empty unless the file is, and each announced size is the length of its range |
| YencStream.SizesAddUp | uulib/uuencode.c:1529-1533 | the announced sizes of all parts add up to the size of the file |
| YencStream.PartReadsItsRange | uulib/uuencode.c:1491-1533 | encoding a part reads exactly the bytes of its announced range |
| Numerals.ReadPadded | uulib/uuencode.c:1529-1544 | a number printed in any base up to 16 with leading zeros reads back, whatever follows it that is no digit |
| Numerals.WrittenDigits | uulib/uuencode.c:1529-1544 | how numbers are written, digit by digit |
| YencFields.Spelling | uulib/uuencode.c:1441-1544 | how the keywords and the names of fields are spelled |
| YencFields.FindField | uulib/uunconc.c:1110-1139 | searching a keyword line for a key finds that field and no other, whatever numbers stand before it |
| YencFields.StrtoulHex8 | uulib/uunconc.c:1154-1169 | a checksum written with eight hexadecimal digits reads back |
| YencFields.SignsAndPrefixes | uulib/uunconc.c:1154-1172 | numbers may have blanks, signs and a prefix in front |
| YencEncoder.EncodePartial | uulib/uuencode.c:1290-1575 | one part with its keyword lines, the checksum of the part, and that of the file where its end is met; the file position and the running checksum go on to the next part |
| YencRoundTrip.HeaderNumbers | uulib/uuencode.c:1439-1475 | from the header line of a part its number, the line length 128, the size and the name read back |
| YencRoundTrip.RangeNumbers | uulib/uuencode.c:1455-1459 | from the range line the first and the last byte of the part read back |
| YencRoundTrip.EndNumbers | uulib/uuencode.c:1529-1541 | from the end line the number and the size of the part read back |
| YencRoundTrip.PartBlanks | uulib/uuencode.c:1424 | a blank line stands before the first part only, and one after every part |
| YencEncoder.EncodeParts | uulib/uuencode.c:1290-1575 | part after part writes exactly the specified parts |
| YencEncoder.StartsAnnounce | uulib/uuencode.c:1455-1459 | every part starts where the part before stopped and announces exactly what it reads |
| YencPart.DecodePart | uulib/uunconc.c:968-1306 | the reading loop over header line, range line, data lines and =yend line, with blank lines and the MIME boundary, ends as the state machine does |
| YencPart.CheckEnd | uulib/uunconc.c:1152-1187 | the three comparisons of the =yend line and the decision whether the file is done |
| YencRoundTrip.BlankEndsTrust | uulib/uunconc.c:1038-1042 | after more than five data lines a blank line ends the trust, and then no line is taken for data |
| YencRoundTrip.EndLineDecides | uulib/uunconc.c:1183-1185 | the file is done exactly when its part is the only one or reaches the announced end; a size that is not known is not compared |
| YencRoundTrip.HeaderNeedsName | uulib/uunconc.c:1110-1139 | a header line without a name is passed over, and one without a size leaves it unknown |
| YencRoundTrip.RangeNeedsEnd | uulib/uunconc.c:1122-1132 | a range line without an end breaks the reading off |
| YencRoundTrip.HeaderSays | uulib/uunconc.c:1110-1139 | what the decoder finds in the encoder's header line after cutting it at 255 characters: the name, the size as an int, and a part field exactly for one of several parts or a name that contains one |
| YencRoundTrip.EndFaults | uulib/uunconc.c:1152-1182 | the decoder finds fault with a =yend line of the encoder exactly where it has itself computed another checksum or size |
| YencRoundTrip.RunBody | uulib/uunconc.c:1152-1215 | all data lines are read and chained into the checksums up to the =yend line, or the reading stops in front of a line that looks like the boundary, and bytes are missing |
| YencRoundTrip.RunCleanPart | uulib/uunconc.c:968-1306 | a part of which nothing is lost adds exactly its bytes, chains the checksum, is taken for the last one by the rule of the code, and is warned of exactly as computed |
| YencRoundTrip.RunPoorPart | uulib/uunconc.c:968-1306 | of any other part bytes are missing when the decoder thinks that it is done |
| YencMultipart.DecodeParts | uulib/uunconc.c:1424-1495 | the loop over the parts carries output and checksum from part to part and stops where the file is done |
| YencMultipart.YencEndToEnd | uulib/uunconc.c:1424-1495 | a file written part by part is read back complete and with its content if and only if no data line looks like the boundary, a single part's name shows no part field, and no part but the last is taken for the last; then nothing is warned of |
| YencMultipart.SmallFiles | uulib/uunconc.c:1118 | below 2 GiB no part is taken for the last too early |
| YencMultipart.LargeFiles | uulib/uunconc.c:1118 | from 2 to 4 GiB the size wraps to a negative int, and the first of several parts ends the file |
| YencMultipart.PartInName | uulib/uunconc.c:1122-1128 | a file in a single part that is named like the field for parts never comes back, whatever it contains |
| YencMultipart.EncodeAndDecode | uulib/uunconc.c:1424-1495 | encoding a file in parts and decoding them with the methods gives the file back under exactly that condition |
| BinhexRle.ExpandSplit | uulib/uuutil.c:217-285 | what a stream stands for does not depend on where it is cut, even between a marker and its count |
| BinhexRle.RunLengthDecoder.Decompress | uulib/uuutil.c:217-285 | with any positive output bound: what came out plus what the new state owes on the rest is what the old state owed, and every call gets further |
| BinhexRle.RunLengthDecoder.Write | uulib/uuutil.c:291-318 | the writing loop ends, eats all input, writes everything owed and leaves nothing owed but an open marker |
| BinhexRle.FileBeforeShows | uulib/uunconc.c:1391 | a new file decompresses the same after any two files with different last bytes if and only if it does not begin with a count; the call that starts a file resets the count only |
| BinhexRle.WriteFile | uulib/uuutil.c:291-318 | for a decoder in any state, the init call and then every way of cutting a stream into calls give the decompression of the whole, continued from the byte the decoder still has |
| BinhexRle.RunsRoundTrip | uulib/uuutil.c:217-285 | data written as runs of 1 to 255 bytes, the marker byte escaped, decompresses to the data |
| BinhexRle.MarkerExamples | uulib/uuutil.c:217-285 | the marker, a count of one, and the marker as a byte |
| PartList.Place | uulib/uucheck.c:1075-1142 | a part goes between its neighbours, or after the last with the next number; the list stays strictly ascending, old parts are kept, and the branch for an equal number is dead |
| PartList.IsBarred | uulib/uucheck.c:1008-1023 | finds exactly whether the part is there already or lies beyond the end part of a file without a MIME id |
| PartList.AcceptsMeans | uulib/uucheck.c:976-1023 | which parts go into which file, condition by condition |
| PartList.InsertInto | uulib/uucheck.c:1025-1142 | the file's head (name, encoding, flags, mode, MIME type, begin, end) is brought up to date and its list gains exactly the one part, in order |
| PartList.UpdatedSays | uulib/uucheck.c:1025-1073 | which names, modes, types and places of begin and end a file has after a part has come in |
| PartList.UpdatedEncoding | uulib/uucheck.c:1030-1060 | which encoding and flags it has |
| PartList.NewFileSays | uulib/uucheck.c:1160-1220 | what a file begins with |
| PartList.MergeParts | uulib/uuutil.c:382-426 | the splice loop gives the strictly ascending union by number, keeping the first list's part where both have a number |
| PartList.MergeCommutes | uulib/uuutil.c:382-426 | two lists without a common number merge into the same list either way |
| PartList.Compare | uulib/uuutil.c:348-371 | finds whether the second list fits into the first and how many numbers lie around its parts |
| PartList.GapMeans | uulib/uuutil.c:356-364 | how many numbers are missing around one, told by its neighbours |
| PartCheck.CheckFile | uulib/uucheck.c:1237-1450 | the loops with their capped arrays give the specified verdict, present and missing part lists, size estimate and name |
| PartCheck.GuessExact | uulib/uucheck.c:1325-1340 | the size guessed for a part is exact when it consists of full lines |
| PartCheck.GuessRounds | uulib/uucheck.c:1325-1340 | for any length the guess is right to within one byte |
| PartCheck.MadeUpDiffer | uulib/uucheck.c:1447-1448 | different numbers make different names |
| PartCheck.GapsExact | uulib/uucheck.c:1350-1352 | the missing numbers are exactly those between two parts that no part has |
| PartCheck.MissingSays | uulib/uucheck.c:1300-1352 | exactly which numbers are recorded as missing |
| PartCheck.ScanStops | uulib/uucheck.c:1346-1385 | where the scan of the parts stops |
| PartCheck.MarksSay | uulib/uucheck.c:1421-1430 | which marks a file gets that is not complete, told by its parts |
| PartCheck.EarlyVerdicts | uulib/uucheck.c:1291-1312 | a file without data, and one of which too much is missing in front |
| PartCheck.SizeAndName | uulib/uucheck.c:1432-1450 | which size and which name a file gets |
| PartCheck.TextIsComplete | uulib/uucheck.c:1252-1263 | text in a single part is complete as it is |
| PartCheck.FirstMadeUp | uulib/uucheck.c:1447 | the made-up names count up from UNKNOWN.001 |
| PartCheck.CappedSays | uulib/uucheck.c:1284-1312 | the lists of numbers stop after 256 |
| PartCheck.CompleteMeansNoGap | uulib/uucheck.c:1280-1450 | a file is marked complete if and only if it has data, starts at part 1 or with the begin line, has every number from there to where the scan stops, and has begin and end or needs none; then it has a name |
| GlobalFileList.GlobalFileList.Insert | uulib/uucheck.c:971-1229 | the part enters the first file that accepts it, or a new one, or is refused; no other file changes and all lists stay strictly ascending |
| PartList.GoesToFirst | uulib/uucheck.c:1003-1023 | of the files that accept a part it goes into the first |
| GlobalFileList.GlobalFileList.CheckAll | uulib/uucheck.c:1236-1451 | every file is judged with the names made up so far, and no part changes |
| GlobalFileList.MadeUpOnce | uulib/uucheck.c:1437-1450 | a check never gives two files the same made-up name |
| GlobalFileList.GlobalFileList.MergeFile | uulib/uuutil.c:320-429 | merges into the first file that qualifies, and into none exactly when none does |
| GlobalFileList.MergeableMeans | uulib/uuutil.c:326-376 | what keeps a file from being merged into another, and that nothing else does |
| GlobalFileList.MergedHeadSays | uulib/uuutil.c:382-393 | the name, mode and places of begin and end of a merged file |
| GlobalFileList.MergeKeepsData | uulib/uuutil.c:348-426 | a merge loses no part with data and invents none |
| GlobalFileList.GlobalFileList.SmartMerge | uulib/uuutil.c:432-478 | unfinished files are merged one by one into files that they fit into, none being merged exactly when none fits, and then all files are checked; the set of parts with data is unchanged, lists stay strictly ascending, and one file goes per merge |
| MidStore.Pack | pan/data/parts.cc:74-102 | the two counting loops give the longest common prefix and suffix, each at most 255 and never overlapping, and the record |
| MidStore.SharedLongest | pan/data/parts.cc:84-97 | the shared prefix is the longest of up to 255 bytes, the suffix the longest that does not meet it |
| MidStore.PackedLayout | pan/data/parts.cc:66-71 | a record is the two lengths, the bytes in between and a NUL |
| MidStore.PackUnpack | pan/data/parts.cc:74-125 | unpacking gives the Message-ID back if and only if its own middle has no NUL, so always for an id without NUL |
| MidStore.Unpack | pan/data/parts.cc:183-192 | reads a record back from anywhere in the buffer |
| MidStore.LowerBoundSorted | pan/data/parts.cc:200-204 | on sorted numbers the search splits smaller from not smaller |
| MidStore.FoundExactlyWhenSorted | pan/data/parts.cc:200-204 | of distinct part numbers the binary search finds every one if and only if they are ascending |
| MidStore.PartBatch.AddPart | pan/data/parts.cc:295-317 | appends the packed part and keeps the counters |
| MidStore.Parts.GetPartInfo | pan/data/parts.cc:194-209 | returns exactly what the search settles on; on parts in order that is the first id and size added under the number |
| MidStore.AnswersExactlyWhenSorted | pan/data/parts.cc:194-209 | of parts with distinct numbers every one is returned under its number if and only if they are in order |
| MidStore.Parts.AddPart | pan/data/parts.cc:240-275 | adds one part and loses none, unless the search finds the number; on parts in order that is exactly when the number is taken, and every other number still finds what it found |
| MidStore.Parts.SetParts | pan/data/parts.cc:215-237 | the contents become those of the batch, in its order |
| MidStore.AddAll | pan/data/parts.cc:240-275 | after adding any parts in any order the store agrees with a map in which the first under a number wins |
| ArticleCache.ArticleCache.ReserveAll | pan/data/article-cache.cc:274-279 | reserving changes the locks and nothing else, as specified |
| ArticleCache.ArticleCache.ReleaseAll | pan/data/article-cache.cc:281-287 | releasing changes the locks and nothing else, as specified |
| ArticleCache.ReserveCounts | pan/data/article-cache.cc:274-279 | reserving adds one per mention, and locks exactly the mentioned ids in addition |
| ArticleCache.ReleaseKeepsBalance | pan/data/article-cache.cc:281-287 | releasing leaves exactly what is still reserved locked if and only if nothing is released more often than it is locked; an id released too often stays locked |
| ArticleCache.ReserveThenRelease | pan/data/article-cache.cc:274-287 | releasing what was reserved, in any order, restores the locks |
| ArticleCache.LockedStay | pan/data/article-cache.cc:309-341 | no locked article is evicted, and if the limit is not met all that is left is locked |
| ArticleCache.EvictsOldest | pan/data/article-cache.cc:315-333 | what is evicted has an earlier date than every unlocked article that stays, or the same date and a lower address |
| ArticleCache.EvictsUntilMet | pan/data/article-cache.cc:312-333 | nothing goes while the limit is met, and no more goes than it takes |
| ArticleCache.SortByAge | pan/data/article-cache.cc:315-319 | orders the entries by date and id, losing none |
| ArticleCache.ArticleCache.EvictOldest | pan/data/article-cache.cc:321-333 | removes the shortest oldest-first prefix of unlocked articles that reaches the limit, or all of them |
| ArticleCache.ArticleCache.ResizeTo | pan/data/article-cache.cc:309-341 | eviction by that rule with exact byte accounting and one removal event |
| ArticleCache.ArticleCache.Resize | pan/data/article-cache.cc:293-300 | the limit is 80 percent of the configured size |
| ArticleCache.LimitIsFourFifths | pan/data/article-cache.cc:295-299 | the limit is 80 percent of the configured size, rounded down |
| ArticleCache.ArticleCache.Clear | pan/data/article-cache.cc:303-307 | only locked articles and empty ones can stay |
| ArticleCache.ArticleCache.Add | pan/data/article-cache.cc:217-268 | an article that is empty or begins with NUL is refused; the byte count is off afterwards by exactly the size of articles added under an id already there; refused or failed saves change nothing |
| ArticleCache.ArticleCache.constructor | pan/data/article-cache.cc:133-173 | the cache holds exactly the ids of the files, and the count is exact if and only if every file whose id was there before is empty |
| CacheRuns.StepExcess | pan/data/article-cache.cc:217-341 | one operation of any kind puts the byte count wrong by the size of an article added under an id already there, and by nothing else |
| CacheRuns.RunExcess | pan/data/article-cache.cc:217-341 | over any run of add, reserve, release, resize and clear the count is exact if and only if it was and no article was added whose id was there at that time; the error never shrinks, not even when the cache is cleared |
| CacheRuns.Perform | pan/data/article-cache.cc:217-341 | each operation of the cache takes exactly the specified step |
| CacheRuns.Run | pan/data/article-cache.cc:133-341 | a cache read from a directory and then operated on: its count is exact in the end if and only if every repeated file was empty and no article was added twice |
| SkipSearch.FillSkip | pan/general/text-match.cc:449-455 | the array holds, as chars, the distance from the last occurrence of each byte to the end of the pattern |
| SkipSearch.SkipIs | pan/general/text-match.cc:449-455 | the distance of a byte is that of its last occurrence, and one more than the length without one |
| SkipSearch.CharIs | pan/general/text-match.cc:449-455 | a char keeps the lowest eight bits of a distance, as a signed number |
| SkipSearch.FindsExactlyWhen | pan/general/text-match.cc:282-321 | the search finds the first occurrence in every text, and -1 where there is none, if and only if every entry of the table is positive |
| SkipSearch.ForwardByLength | pan/general/text-match.cc:449-455 | that holds for patterns of up to 126 bytes, and for none of 127 to 255 |
| SkipSearch.LongPatterns | pan/general/text-match.cc:449-455 | it holds for 300 equal bytes; 127 equal bytes send the search 128 places in front of a text |
| SkipSearch.NoneSkipped | pan/general/text-match.cc:299-301 | no occurrence lies within the distance skipped, whatever byte follows the text |
| SkipSearch.Search | pan/general/text-match.cc:282-321 | where every entry of the table is positive the loop ends and returns the first occurrence, or -1 exactly when there is none |
| SkipSearch.SearchNoCase | pan/general/text-match.cc:237-278 | the loop ends; it returns what the specified moves lead to, and the first occurrence for patterns that are safe |
| SkipSearch.FindsWithoutCapitals | pan/general/text-match.cc:237-278 | it finds the first occurrence when no capital of the text is a letter of the pattern |
| SkipSearch.FoldedExactlyWhen | pan/general/text-match.cc:256-275 | it finds the first occurrence in every text if and only if the pattern is a single byte or its table moves no failed window back or further than is ruled out |
| SkipSearch.SafeByLetters | pan/general/text-match.cc:256-275 | up to 126 bytes that means: one byte, or no letters |
| LineReader.FileLineReader.GetLine | pan/general/line-reader.cc:33-70 | the next line, whatever the buffer holds and however large it is; false exactly at the end and for a last line without newline that begins with NUL |
| LineReader.FileLineReader.Compact | pan/general/line-reader.cc:46-49 | what is in use moves to the front and is unchanged |
| LineReader.FileLineReader.Double | pan/general/line-reader.cc:50-59 | what is in use moves to a buffer of twice the size and is unchanged |
| LineReader.ScriptedLineReader.GetLine | pan/general/line-reader.h:63-76 | the next line of the string, false exactly at its end; a last line that begins with NUL is returned here |
| LineReader.ReadAll | pan/general/line-reader.cc:33-70 | for every initial buffer size, reading until false gives all lines of the file if and only if it does not end in a line that begins with NUL; otherwise all but that one |
| LineReader.DeliveredExactly | pan/general/line-reader.cc:64-68 | the lines up to the first false are all lines exactly when the tail is not lost, and one fewer when it is |
| LineReader.NulIsLost | pan/general/line-reader.cc:64-68 | two files that lose their last line: one NUL, and a NUL after the only newline |
| LineReader.LinesOfWrittenLines | pan/general/line-reader.cc:33-70 | lines written with newlines are delivered as they were |
| LineReader.LinesWriteBack | pan/general/line-reader.cc:33-70 | the lines delivered, written back, are the text with a newline at its end; or, when the last line is lost, the text without it |

## Left out

- Reading headers, newsrc, servers, scores and profiles from files and saving them; user interface, logging, tasks, TLS.
- `articles_changed`, and read, unread and article counters.
- Rules.RuleOut: what a rule notes for later: articles to be marked read, cached, downloaded or deleted.
- ArticleTree.MyTree.ApplyFilter: for a tree that is a view; after the headers have changed under it only additions and
  removals are followed further.
- The order in which articles were given to `add_articles`, and canonical nodes as heap objects inside `ArticleTree`: the
  tree's own nodes are on the heap, the forest it projects is a value there.
- White space outside ASCII: `References.Trim` removes the single-byte characters that `g_unichar_isspace` knows.
- References.PopUndoesJoin: assumes identifiers without spaces, as the code that prints them does.
- Threading.StepKeeps: says nothing about the order of children, which depends on the order of arrival.
- UuRoundTrip.UuEndToEnd: where the overflow of a begin line of tens of thousands of characters has been trusted, and
  then not any more at its end, with BinHex before, it does not say whether the content comes back.
- UuRoundTrip.EncodeAndDecode: the same.
- UuMultipart.UuPartsEndToEnd: the decoder without a MIME boundary, as `UUDecode` calls it, and begin lines that fit the
  line buffer; the MIME header lines of the first part are any that fit and do not look like a begin line.
- UuMultipart.AnnouncedPartsReachEnd: the same.
- XX data in the state machine's round trip: a line of XX that also looks like UU is not corrected; single XX lines are
  covered by `UuCodec.LineRoundTrip`.
- `UURepairData` and the Netscape repair: a line that would need repair ends `UuPart` and `YencPart` with that
  outcome.
- BinHex through the state machine, quoted-printable and plain text, MIME scanning (`uuscan.c`).
- Base64Parts.Base64EndToEnd: parts without their MIME header lines, as scanning hands them over.
- YencMultipart.YencEndToEnd: names of up to 4000 characters, so that the header line fits the line buffer; files smaller
  than 2 to the power of 63 bytes; `atoi` keeps the lowest 32 bits of a number, as glibc's does.
- YencMultipart.EncodeAndDecode: the same names and sizes.
- YencRoundTrip.RunCleanPart: the same names and sizes.
- YencRoundTrip.RunPoorPart: the same names and sizes.
- yEnc headers for a file whose size cannot be found out, and `UUEncodeToStream` and `UUEncodeToMail` for yEnc.
- `UUFNameFilter`: names are taken as it leaves them. `UUDecode`: parts are given in order, none is
  missing, and each is a file of its own, where the code reads a stretch of one.
- The `_byFSize` variants of the encoder.
- Crc32.Crc32Little: the little-endian loop only; the tables are given by their recurrence, not as constants.
- Integer widths of counters, offsets and part numbers, memory exhaustion, progress, cancellation and callbacks of uulib.
- BinhexRle: the BinHex header and forks; only the run-length layer.
- GlobalFileList.GlobalFileList.CheckAll: the back links, and names made up when parts are scanned (uucheck.c:748).
- ArticleCache.ArticleCache.Resize: 80 percent is computed exactly rather than in floating point.
- The cache's file names and the contents of cached files.
- SkipSearch.Search: not the empty pattern, which the code compares with the NUL that ends it; for patterns with an entry
  that is not positive only the moves are specified, and shown to go astray.
- Regular expressions and the other match types of `TextMatch`.
- LineReader.FileLineReader.GetLine: returns a copy of the line, where the code returns a view that the next call
  invalidates.
