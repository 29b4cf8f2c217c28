# libpagebuf: page buffers and hash table

This project models two parts of libpagebuf and proves what they promise.

**Page buffers.** A buffer is a circular doubly linked list of pages around an end page. A page is a window on a
region of memory; regions are counted by reference and may be shared by many pages of many buffers. The promise of the
library is that all this behaves like one flat sequence of bytes. The proof is in two layers. A *ledger*
(`ledger.dfy`) is the state of all buffers as one value: the ring of every buffer as a sequence of cells, the bytes of
every region and who uses it. Everything pointer surgery and counting can do is proved on ledgers. The classes of
`memory.dfy`, `alloc.dfy` and `buffer.dfy` are the objects of the library, changed in place by methods with the loops of
the C code, and every method proves that the heap is still as the ledger says (`Mirrors`), that the ledger is valid, and
what became of the content (`Flat` of the cells). Every allocation may be refused; a count of refusals tells when an
operation must have done all it was asked for. `portions.dfy` says how data is cut into pages and what memory each page is
on, so that sharing, copying, lending and the page size are part of what an insertion promises. `housing.dfy` does the
same for overwriting: which pages are written in place, and which are moved first.

Each buffer keeps a ghost history of its states. `Evolves` says what its revision allows, `RevisionMeansPrefix` is what
readers may conclude, and the data reader, the line reader and the byte iterator (`readers.dfy`, `line_reader.dfy`,
`iterators.dfy`) are proved against it: a cursor is described by a state the buffer has been in, and is still good as long
as the revision is that state's. `positions.dfy` and `lines.dfy` hold what cursors and lines mean, without any heap;
`readings.dfy` puts reads together.

Whole runs begin with nothing (`Runs.Found`) and are scripts of any operations on any number of buffers. `operations.dfy`
gives every operation its meaning as an edit of a flat sequence, `runs.dfy` carries contents, use counts and readers
through any script, `listening.dfy` adds the questions of a line reader, and `streams.dfy` uses one buffer as a queue
while anything happens to the others. `witnesses.dfy` makes, from nothing, the runs in which the library does not do what
its documentation says. The page size and the maximum line size are parameters.

**Hash table.** `layout.dfy` is the shape of a table as a value: items in application order, chains of buckets, and the
finite map the table stands for. `accounts.dfy` adds what decides on doubling the buckets. `table.dfy` is the table on the heap with its two overlaid lists, `refiling.dfy` the
doubling of its buckets, `sorting.dfy` its merge sort, `bits.dfy` the shifts and masks. `table_runs.dfy` runs scripts.

Where the code and its documentation differ the model follows the code. The revision also changes when data is written
to an empty buffer, which the list at `pagebuf/pagebuf.h:640-647` does not say. `insert_buffer` without
`fragment_as_target` does not cut pages to the page size (`PageSizeIff` and `WriteUncut` say exactly when the documented
bound holds all the same, `UncutTooLong` gives a run in which it does not). A data reader that has read everything goes to
the next page without resetting its offset: `ContinuesIff` says when that matters, `Settle` and `Read` when the offset is
behind the page so that the code's unsigned difference wraps round, and `ReadOnBehind` gives such a run. A read of no bytes
may leave a reader behind a page that is not the last (`Lags` says when), and the next read then skips bytes. A line cut at the
maximum size loses a byte (`RejoinIff` says when lines can be put together again). The early exits of seek, trim and
overwriting for a page of length zero are not taken on a buffer without empty pages; the model asserts that in their place.

## Model

| member | source | states |
|---|---|---|
| Ledgers.Ledger.UsersExact | pagebuf/pagebuf_protected.h:127-145 | In any valid state the pages counted as users of a region are exactly the pages of all rings, of whichever buffers, that name it |
| Allocation.UseCountExact | pagebuf/pagebuf_protected.h:127-145 | A region's `use_count` is the number of pages in all buffers that name it plus the holds of code at work, and it is never zero while the region exists |
| Ledgers.Ledger.ReleaseIff | pagebuf/pagebuf.c:209-219 | On the ledger, a put makes a region go exactly when no page names it and the hold given back is the last one; no other region or its bytes change. `Allocator.DataPut` ties the count on the heap to this |
| Ledgers.Ledger.StoredIsUsed | pagebuf/pagebuf.c:254-265 | Between operations every region that exists is named by a page of some buffer: none is leaked |
| Ledgers.Ledger.SoleUser | pagebuf/pagebuf.c:1544-1549 | A use count of one means that no page of any buffer other than this one shows the region, which is what makes writing in place safe |
| Ledgers.Ledger.AloneIffLast | pagebuf/pagebuf.c:1544-1549 | While the pages of a ring get regions of their own one after the other, each finds itself alone on its region exactly if, to begin with, only pages in front of it in its own ring showed it as well |
| Ledgers.Ledger.AddedPage | pagebuf/pagebuf.c:1751-1770 | Creating a page on a new region leaves one reference, the page's, and a creation that fails halfway leaves nothing behind |
| Ledgers.Ledger.LinkValid | pagebuf/pagebuf.c:893-897 | Linking a page into a ring keeps every ring, window, byte and use count in order |
| Ledgers.Ledger.LinkNext | pagebuf/pagebuf.c:893-897 | After linking, exactly one page of all rings has a different `next`: the one before the gap |
| Ledgers.Ledger.LinkPrev | pagebuf/pagebuf.c:893-897 | After linking, exactly one page of all rings has a different `prev`: the one behind the gap |
| Ledgers.Ledger.LinkCounts | pagebuf/pagebuf.c:893-897 | Linking changes no use count: the creator's reference becomes the page's |
| Ledgers.Ledger.UnlinkValid | pagebuf/pagebuf.c:1018-1030 | Taking a page out of a ring keeps every ring, window, byte and use count in order |
| Ledgers.Ledger.UnlinkNext | pagebuf/pagebuf.c:1018-1027 | After unlinking, exactly one `next` is different, and it skips the page |
| Ledgers.Ledger.UnlinkPrev | pagebuf/pagebuf.c:1018-1027 | After unlinking, exactly one `prev` is different, and it skips the page |
| Ledgers.Ledger.UnlinkCounts | pagebuf/pagebuf.c:1018-1030 | Unlinking changes no use count; the reference is still held until the page is destroyed |
| Ledgers.Ledger.ResizeValid | pagebuf/pagebuf_protected.h:275-283 | A page's window may be moved anywhere within its region's bounds and everything stays in order |
| Ledgers.Ledger.RebindValid | pagebuf/pagebuf.c:271-281 | Moving a page to another region with the same bytes keeps every ring, window, byte and use count in order |
| Ledgers.Ledger.RebindCounts | pagebuf/pagebuf.c:271-281 | The use counts of the two regions change by one each and no other does; no region's bytes change |
| Ledgers.Ledger.RebindFrees | pagebuf/pagebuf.c:271-281 | The region a page moves away from goes exactly when its use count was one |
| Ledgers.Ledger.DupFacts | pagebuf/pagebuf.c:1797-1816 | Giving a page a copy of its data changes no byte of any ring, and leaves the page as the only user of the new region |
| Ledgers.Ledger.PokeValid | pagebuf/pagebuf.c:1558-1561 | Writing the bytes of a region with one user changes what that one page shows and nothing else in any buffer |
| Allocation.Allocator.constructor | pagebuf/pagebuf.c:69-75 | An allocator to begin with: no ring, no region, nothing held and nothing refused, and valid |
| Allocation.Allocator.DataCreate | pagebuf/pagebuf.c:152-180 | A region of its own memory, held once, or a refused allocation that leaves no trace |
| Allocation.Allocator.DataCreateRef | pagebuf/pagebuf.c:182-199 | A region lent by a caller, held once, that shows the caller's bytes, or a refusal that leaves no trace |
| Allocation.Allocator.DataGet | pagebuf/pagebuf.c:205-207 | One more reference counted on the heap, and every other count, page and byte as before |
| Allocation.Allocator.DataPut | pagebuf/pagebuf.c:209-219 | One reference less on the heap; the executed test whether the count has come to zero comes out true exactly when no page names the region and the hold given back is the last, and exactly then the region is gone |
| Allocation.Allocator.PageCreate | pagebuf/pagebuf.c:228-237 | A page over the whole of a region, which counts one more reference; a refusal leaves no trace |
| Allocation.Allocator.PageTransfer | pagebuf/pagebuf.c:239-252 | A second page on the same region with the window asked for, and one more reference |
| Allocation.Allocator.PageDestroy | pagebuf/pagebuf.c:254-265 | Destroying a page gives its reference back, touches no ring, and says whether the region went with it |
| Allocation.Allocator.BufferPageCreate | pagebuf/pagebuf.c:1751-1770 | A page on memory of its own with one reference in all, whichever of the three allocations is refused |
| Allocation.Allocator.BufferPageCreateRef | pagebuf/pagebuf.c:1772-1791 | A page on memory of a caller with one reference in all, whichever allocation is refused |
| Allocation.Allocator.Split | pagebuf/pagebuf.c:873-888 | Cutting a page at an offset: a new page shows what is before it, the old one keeps the rest, both on the same region; a refusal changes nothing |
| Allocation.Allocator.Unlink | pagebuf/pagebuf.c:1018-1027 | The pointer surgery on the heap agrees with removing the page from the sequence of its ring |
| Allocation.Allocator.LinkBefore | pagebuf/pagebuf.c:893-897 | The pointer surgery on the heap agrees with inserting the page into the sequence of a ring |
| Allocation.Allocator.Rebind | pagebuf/pagebuf.c:271-281 | The page's fields and both use counts on the heap after a page was given another region |
| Allocation.Allocator.DupPageData | pagebuf/pagebuf.c:1797-1816 | The page is given a new region of its own that holds what it showed before; a refusal changes nothing |
| Allocation.Allocator.PokePage | pagebuf/pagebuf.c:1558-1561 | A copy into the block of a sole user leaves every other page and region of the heap as it was |
| Fragments.FlatConcat | pagebuf/pagebuf.h:51-58 | The flat content of two groups of pages is the one after the other |
| Fragments.SplicedFlat | pagebuf/pagebuf.c:868-902 | Whatever page is cut and however many pages are put into the cut, the content becomes what was before the position, what was put in, and what was behind |
| Fragments.SplicedPacked | pagebuf/pagebuf.c:868-888 | Splicing leaves an empty page exactly when it cuts a page behind its last byte |
| Fragments.EvolvesInsert | pagebuf/pagebuf.c:861-863 | An insertion may leave the revision as it was only when it adds pages behind the last page of a buffer with data |
| Fragments.RunPrefix | pagebuf/pagebuf.h:631-647 | In a run of states, of two with the same revision the earlier one's pages, windows and bytes are the first ones of the later, and an empty state stayed empty |
| Portions.SourcePages | pagebuf/pagebuf.c:1212-1253 | Without a page size the n-th page put in is the n-th page of the source, whole but for the last, which is cut to what was asked for; how many there are is settled by the contributions of the source pages |
| Portions.UncutPages | pagebuf/pagebuf.c:1212-1311 | Pages delivered by variants 1 and 2 have the bytes of the source pages in their order; shared ones name the source page's very region and offset, copied ones a region that was not there before |
| Portions.WithinIff | pagebuf/pagebuf.h:505-526 | Pages put in whole keep to a page size if and only if no source page contributes more than that to the first `len` bytes |
| Portions.LongPage | pagebuf/pagebuf.h:512-518 | A source page of three bytes and a page size of two: one page of three without `fragment_as_target`, two and one with it |
| Portions.PlanCuts | pagebuf/pagebuf.c:1111-1125 | The plan cuts up what a source page gives by itself: as many pages as the size goes into it, rounded up, each full but the last, which holds what is left |
| Portions.PortionsAre | pagebuf/pagebuf.c:1317-1431 | The whole plan is that of the source pages one after the other, with the page size or without |
| Portions.LumpEvenly | pagebuf/pagebuf.c:1111-1125 | Data of a caller, or none, goes on full pages and one for what is left; the pages made before a refusal are the first of them |
| Fragments.DropFirst | pagebuf/pagebuf.c:1009-1030 | Narrowing the first page from its front, and dropping it when nothing is left, drops as many bytes off the front of the content |
| Fragments.DropLast | pagebuf/pagebuf.c:1061-1081 | Narrowing the last page from its back, and dropping it when nothing is left, drops as many bytes off the back of the content |
| Fragments.BackOn | pagebuf/pagebuf.c:1009-1030 | One step more of a seek: what is left are still the last pages of the buffer on the windows they had, but for the first, which lost bytes off its front |
| Fragments.FrontOn | pagebuf/pagebuf.c:1061-1081 | One step more of a trim: what is left are still the first pages of the buffer on the windows they had, but for the last, which lost bytes off its back |
| Fragments.PrecededFlat | pagebuf/pagebuf.c:969-991 | Pages put in front of the first leave the old content behind exactly as many bytes as they hold |
| Fragments.OverwritingOn | pagebuf/pagebuf.c:1540-1567 | Overwriting page by page: the bytes written so far are the first ones of the source, and everything behind them is untouched |
| Housing.HousingAt | pagebuf/pagebuf.c:1544-1549 | The page at hand of an overwriting is to be written in place exactly if copies are made on writing, its region is owned, and no page showed that to begin with but those of this buffer up to this one |
| Housing.RehousedMeans | pagebuf/pagebuf.c:1544-1549 | If all pages written over are to be written in place every page keeps its region and offset; if copies are not made on writing every page written over is on a region that was not there before |
| Housing.OwnStay | pagebuf/pagebuf.c:1544-1549 | Pages that are each the only user of a region that is not lent are all written in place |
| Fragments.ReadingOn | pagebuf/pagebuf.c:1658-1675 | Reading page by page: the bytes read so far are the first ones of the content, whatever pages they lie on |
| Insertions.Insertion.PourOn | pagebuf/pagebuf.c:1111-1137 | One page more of a caller's data: as long as the page size and what is left allow, on a region of its own or in place at the right byte of the caller's memory |
| Insertions.Insertion.CopyOn | pagebuf/pagebuf.c:1225-1250 | One page more of another buffer's data: what is delivered is still the first part of the plan, and the source is read on from the right page and byte |
| Insertions.Insertion.Advance | pagebuf/pagebuf.c:1111-1137 | One page more of an insertion, after any number of them, is the same insertion with its bytes added; the page found again behind what is already in |
| Insertions.Insertion.Refused | pagebuf/pagebuf.c:878-879 | An insertion whose next page is refused stands as it was, and so does its claim on the revision |
| Insertions.Insertion.Outcome | pagebuf/pagebuf.c:1101-1140 | Wherever an insertion stops, the content is the old content with what was brought in at its position; an empty page is left exactly when a page was cut at its very end |
| TrivialBuffer.CreateBuffer | pagebuf/pagebuf.c:625-657 | A new buffer is empty, valid and apart from all others; a refusal leaves no trace |
| TrivialBuffer.Buffer.Insert | pagebuf/pagebuf.c:854-902 | The page is spliced in at the clipped offset, the size grows by its length, and the revision stays only for data put behind data; if the cut is refused its page nothing changes |
| TrivialBuffer.Buffer.GetDataSize | pagebuf/pagebuf.c:676-696 | The audit that adds up the lengths of the pages never disagrees with the stored size, and both are the length of the content |
| TrivialBuffer.Buffer.InsertData | pagebuf/pagebuf.c:1101-1153 | The content becomes old[..p] + buf[..n] + old[p..] where n is what is returned: all of it when no allocation is refused, on new regions, on pages that are full but for one that holds what is left; no other ring changes; empty pages arise exactly when a page is cut behind its last byte; at the end the revision changes exactly when the buffer was empty and n > 0 |
| TrivialBuffer.Buffer.InsertDataRef | pagebuf/pagebuf.c:1157-1206 | The same with the caller's memory used in place: every new page is on a region that is not owned, lies in that very memory and begins at the right byte of it |
| TrivialBuffer.Buffer.InsertBuffer1 | pagebuf/pagebuf.c:1212-1253 | What is brought in is the first part of the source cut without a page size, each page naming the region and offset of the source page; all of it unless an allocation is refused |
| TrivialBuffer.Buffer.InsertBuffer2 | pagebuf/pagebuf.c:1259-1311 | The same cut, each page with a copy of the bytes on a region that was not there before |
| TrivialBuffer.Buffer.InsertBuffer3 | pagebuf/pagebuf.c:1317-1368 | The first part of the source cut to the page size, each page naming the region of the source page at the byte it starts with |
| TrivialBuffer.Buffer.InsertBuffer4 | pagebuf/pagebuf.c:1374-1431 | The first part of the source cut to the page size, each page with a copy of the bytes on a region that was not there before |
| TrivialBuffer.Buffer.InsertBuffer | pagebuf/pagebuf.c:1433-1463 | All four variants mean old[..p] + src[..n] + old[p..] with n the lesser of len and the source's size when nothing is refused; the pages are cut and rooted as the strategy says, and the source keeps its pages and bytes |
| TrivialBuffer.Buffer.PageSizeIff | pagebuf/pagebuf.h:505-526 | For a buffer that does not fragment as target, the pages of a completed insertion keep to its page size if and only if no page of the source contributes more |
| TrivialBuffer.Buffer.WriteData | pagebuf/pagebuf.c:1467-1477 | buf[..n] is appended on new regions, on pages that are full but for one that holds what is left; the pages before stay as they are, and the revision changes exactly when the buffer was empty and n > 0 |
| TrivialBuffer.Buffer.WriteDataRef | pagebuf/pagebuf.c:1479-1490 | The same with every new page on the caller's own memory, at the right byte of it |
| TrivialBuffer.Buffer.WriteBuffer | pagebuf/pagebuf.c:1492-1522 | src[..n] is appended and the source is unchanged; the pages are copies or shared as `clone_on_write` says, and cut to the page size exactly with `fragment_as_target` |
| TrivialBuffer.Buffer.WriteUncut | pagebuf/pagebuf.c:1492-1522 | Executed: unless an allocation is refused, the pages written by a buffer that does not fragment as target keep to its page size if and only if no page of the source contributes more |
| TrivialBuffer.Buffer.Extend | pagebuf/pagebuf.c:906-940 | n bytes of any value are appended, n = len unless refused, on pages that are full but for one that holds what is left |
| TrivialBuffer.Buffer.Reserve | pagebuf/pagebuf.c:944-956 | The buffer is at least `size` long afterwards unless extending is refused or rejected, and its content is still in front |
| TrivialBuffer.Buffer.Rewind | pagebuf/pagebuf.c:960-994 | The old content stands behind n new bytes, n = len unless refused; the new pages are, in the order they were made, full ones and one for what is left, each on a region that was not there before: len over the page size, rounded up, or one if there is no page size |
| TrivialBuffer.Buffer.Seek | pagebuf/pagebuf.c:998-1045 | The content becomes content[k..] with k = min(len, size) returned; what is left are the last pages as they were, but for the first of them, narrowed from its front; the revision changes exactly when k > 0 |
| TrivialBuffer.Buffer.Trim | pagebuf/pagebuf.c:1049-1096 | The content becomes content[..size - k] with k = min(len, size) returned; what is left are the first pages as they were, but for the last of them, narrowed from its back; the revision changes exactly when k > 0 |
| TrivialBuffer.Buffer.Clear | pagebuf/pagebuf.c:1682-1720 | Nothing is left but the end page, empty pages included, the revision has changed, and every page's reference was given back |
| TrivialBuffer.Buffer.Destroy | pagebuf/pagebuf.c:1732-1745 | Of any sound buffer the ring is gone, all other rings are as before, and the use counts of what remains are exact |
| TrivialBuffer.Buffer.RevisionMeansPrefix | pagebuf/pagebuf.h:631-647 | Of two states this buffer has been in, the last one being the present one, with the same revision, the earlier one's pages, windows and bytes are the first ones of the later, and an empty buffer stayed empty |
| TrivialBuffer.Buffer.OwnPage | pagebuf/pagebuf.c:1544-1549 | A page that is the only user of an owned region, where copies are made on writing, is left as it is without an allocation; any other gets a new region with the same bytes, or the refused copy leaves all as it was |
| TrivialBuffer.Buffer.SoleIff | pagebuf/pagebuf.c:1544-1549 | At each step of an overwriting the executed test comes out as the state before the overwriting tells |
| TrivialBuffer.Buffer.OverwriteData | pagebuf/pagebuf.c:1526-1573 | The content becomes buf[..k] + content[k..] and only this ring changes; page by page it is told which keep their regions and which are moved to new ones; k falls short of min(len, size) only at a page that needed a copy which was refused, so never if all pages written over have regions of their own and copies are made on writing; the revision changes exactly when k > 0 |
| TrivialBuffer.Buffer.OverwriteBeside | pagebuf/pagebuf.c:1526-1573 | Overwriting one buffer changes neither the content of another, which may share every page, nor memory lent by reference, under either setting of `clone_on_write` |
| TrivialBuffer.Buffer.Untouched | pagebuf/pagebuf.h:51-58 | An operation that changes no ring but its own leaves every other buffer valid, with its pages and its content |
| TrivialBuffer.Buffer.ReadData | pagebuf/pagebuf.c:1650-1678 | The first min(len, size) bytes of the content are copied out and the rest of the destination is left alone |
| TrivialBuffer.Buffer.ExtendAndTrim | pagebuf/pagebuf.c:906-1096 | Extending and then trimming by what was extended restores the content, also when extending stopped short |
| TrivialBuffer.Buffer.RewindAndSeek | pagebuf/pagebuf.c:960-1045 | Rewinding and then seeking by what was rewound restores the content, also when rewinding stopped short |
| Positions.PosUnique | pagebuf/pagebuf.c:794-802 | Two places of a buffer with the same position are the same page and offset |
| Positions.NextPos | pagebuf/pagebuf.c:804-825 | Stepping on moves one position further and from the end to the beginning: a cycle of size + 1 positions |
| Positions.PrevPos | pagebuf/pagebuf.c:827-848 | Stepping back moves one position back and from the beginning to the end |
| Positions.StepsUndone | pagebuf/pagebuf.c:804-848 | Stepping on and stepping back undo each other everywhere, across page borders and across the end |
| Positions.StepsShow | pagebuf/pagebuf.c:762-825 | The n-th step from the beginning stands on byte n of the content however it is fragmented, and step number size on the end |
| Positions.StepsRepeat | pagebuf/pagebuf.c:762-825 | After size + 1 steps all repeats |
| ByteIterators.ByteIterator.GetBegin | pagebuf/pagebuf.c:762-778 | The iterator stands at position 0, or on the end of an empty buffer |
| ByteIterators.ByteIterator.GetEnd | pagebuf/pagebuf.c:780-787 | The iterator stands on the end, at position size |
| ByteIterators.ByteIterator.Next | pagebuf/pagebuf.c:804-825 | The page, offset and pointer on the heap are those of the next place |
| ByteIterators.ByteIterator.Prev | pagebuf/pagebuf.c:827-848 | The page, offset and pointer on the heap are those of the place before |
| ByteIterators.ByteIterator.IsEnd | pagebuf/pagebuf.c:789-792 | True exactly when the position is the size of the buffer |
| ByteIterators.ByteIterator.Equals | pagebuf/pagebuf.c:794-802 | True exactly when both iterators are at the same position of the content |
| ByteIterators.ByteIterator.Current | pagebuf/pagebuf.c:329-332 | The pointer shows the content's byte at the position, and a null character at the end |
| DataReaders.DataReader.Kept | pagebuf/pagebuf.c:1875-1876 | Whatever operations a buffer goes through, a reader keeps a position of a state the buffer has been in |
| DataReaders.DataReader.Caught | pagebuf/pagebuf.c:1875-1876 | As long as the revisions agree the reader's page is still in the ring, its offset in range, and it stands on the end only of an empty buffer |
| DataReaders.DataReader.Settle | pagebuf/pagebuf.c:1875-1879 | The executed step to the next page leaves the offset within the page exactly if it fitted, and the position is where the read starts |
| DataReaders.DataReader.Read | pagebuf/pagebuf.c:1868-1919 | min(len, size - s) bytes from position s on are copied out, and the reader stands right behind them, where s is 0 for a stale reader; it is then not overtaken, so that the next read starts there, except for a read of nothing past a page as long as the one before; an overrun, where the code would read behind the page, happens exactly when the offset kept does not fit the next page and len > 0 |
| DataReaders.DataReader.ContinuesIff | pagebuf/pagebuf.c:1878-1879 | A reader goes on where it stopped exactly unless it is parked behind the last byte of a page that has since got a successor |
| DataReaders.DataReader.OvertakenIff | pagebuf/pagebuf.c:1878-1879 | Whatever its buffer goes through, a reader that went on where it stopped still does unless it is stale, or it stood at the end of the content and a page was put behind that |
| Readings.ReadTwice | pagebuf/pagebuf.c:1868-1919 | A read of a bytes and then one of b bytes deliver the bytes of one read of a + b |
| Readings.ReadInPieces | pagebuf/pagebuf.c:1868-1919 | Reads of any lengths, one after the other of an unchanged buffer, deliver the bytes of one read of them all |
| DataReaders.ParkedReaderSkips | pagebuf/pagebuf.c:1878-1879 | A reader that has read three bytes when four are appended stands at position 3 and starts its next read at position 6 |
| DataReaders.ParkedReaderLags | pagebuf/pagebuf.c:1878-1885 | With pages of three bytes and more appended behind three that are read, a read of nothing leaves the reader overtaken |
| DataReaders.ParkedReaderOverruns | pagebuf/pagebuf.c:1878-1890 | With two bytes appended its offset is behind the page it goes to, and the start behind the content |
| DataReaders.DataReader.Passed | pagebuf/pagebuf.c:1932-1946 | The pages counted up to the reader's, and its offset, give its position |
| DataReaders.DataReader.Consume | pagebuf/pagebuf.c:1923-1951 | Everything up to the end of the read is taken off the buffer and its length returned; a reader at the head gets the first min(len, size) bytes and is at the head again; where seeking is rejected the reader stands behind what it read; an overrun happens exactly as in a read and takes nothing off |
| Streams.FirstInFirstOut | pagebuf/pagebuf.c:1868-1951 | Over any log of writes and consumes, all that was taken followed by what is left is what was there followed by all that was written |
| Streams.HeadKept | pagebuf/pagebuf.c:1875-1876 | A reader at the head stays at the head whatever else happens to its buffer |
| Streams.Drive | pagebuf/pagebuf.c:1868-1951 | Any script of appends of every kind to one buffer, any operations on others that may share its pages, and consumes, refusals included, produces such a log: each consume takes the first min(len, size) bytes there are |
| Lines.Scan | pagebuf/pagebuf.c:2053-2070 | The first line feed at or below the maximum, with whether a carriage return stands before it; else a cut at the maximum; else no line and no line feed at all |
| Lines.ScanKeeps | pagebuf/pagebuf.c:2047-2048 | A line found stays the first line whatever is appended |
| Lines.ScanStops | pagebuf/pagebuf.c:2053-2070 | What a search from the left that has met no line feed so far may answer at each place it stops |
| LineReaders.Search.KnowsMore | pagebuf/pagebuf.c:2044-2048 | What a parked or finished search knows of a content is still right of any longer content |
| LineReaders.Search.WalkStops | pagebuf/pagebuf.c:2054-2065 | A search taken up again at its parked place ends with the answer of one search over the whole content, and with its carriage return flag |
| LineReaders.Search.WalkEnds | pagebuf/pagebuf.c:2072-2075 | A search that comes to the end finds no line, and steps back onto a byte it may look at again |
| LineReaders.LineReader.Caught | pagebuf/pagebuf.c:2044-2045 | As long as the revisions agree the reader's iterator stands on a byte of a page of the buffer at its offset, and all it knows is right of the current content |
| LineReaders.LineReader.Kept | pagebuf/pagebuf.c:2044-2045 | Whatever the buffer goes through, the reader's memory stays that of a state the buffer has been in |
| LineReaders.LineReader.HasLine | pagebuf/pagebuf.c:2040-2087 | The answer, the offset and the carriage return flag are those of one search over the whole current content, whatever searches and appends came before |
| LineReaders.LineReader.GetLineLen | pagebuf/pagebuf.c:2091-2104 | The length of the line without its terminator; the subtraction for a carriage return never goes below zero |
| LineReaders.LineReader.GetLineData | pagebuf/pagebuf.c:2108-2150 | The first bytes of the line, as many as fit, and the rest of the destination left alone |
| LineReaders.LineReader.SeekLine | pagebuf/pagebuf.c:2154-2173 | The line and the byte it ends at are taken off the buffer, and the reader starts afresh |
| LineReaders.ReadLines | pagebuf/pagebuf.c:2040-2173 | Searching, copying and seeking until there is no line yields exactly the lines of the content, and leaves exactly its rest |
| Listening.Listen | pagebuf/pagebuf.c:2040-2087 | In any run of any operations on any buffers and searches by one reader, each answer is that of one search over all its buffer holds by then, also when a carriage return and its line feed come in different writes |
| Lines.RejoinIff | pagebuf/pagebuf.c:2061-2065 | The lines with their terminators and the rest give back the content if and only if it has no more than the maximum of bytes in a row without a line feed |
| Lines.RestHasNoLine | pagebuf/pagebuf.c:2050-2086 | What is left after all lines is shorter than a line may be and has no line feed |
| Lines.CutLosesByte | pagebuf/pagebuf.c:2163-2166 | With a maximum of 2, the third byte of a longer line is in no line |
| Operations.Locate | pagebuf/pagebuf.c:718-749 | Walking the pages by iterators finds the page and offset of a position of the content, or the end behind the last |
| Operations.Perform | pagebuf/pagebuf.h:51-58 | Each operation is an edit of the flat content of its buffer: bytes at one place replaced by a prefix of what was given, all of it unless refused or rejected; no other ring changes |
| Operations.Step | pagebuf/pagebuf.h:51-58 | The same as seen by all buffers of an allocator, whatever pages they share: one content edited, all others and the memory lent as they were |
| Runs.Drive | pagebuf/pagebuf.h:51-58 | Any script of operations on any buffers, refusals included: the contents go through exactly the edits, all buffers stay valid, every use count is the number of pages that name the region, and every data and line reader keeps a state its buffer has been in |
| Runs.CountsExact | pagebuf/pagebuf_protected.h:127-145 | In a world of any buffers every use count is the number of pages of all buffers that name the region, and is positive |
| Runs.Found | pagebuf/pagebuf.c:625-657 | From nothing: an allocator and as many empty buffers as asked for, fewer only if an allocation is refused |
| Runs.Closed | pagebuf/pagebuf.c:1732-1745 | Destroying one of the buffers leaves the others and their contents |
| Witnesses.UncutTooLong | pagebuf/pagebuf.c:1212-1253 | From nothing: a page longer than the page size written to a buffer that shares pages is one page longer than the page size |
| Witnesses.Park | pagebuf/pagebuf.c:1878-1879 | A new reader that has read all of one page of n bytes when k are written behind it is overtaken, starts at 2n, and fits exactly if n <= k |
| Witnesses.ReadOnBehind | pagebuf/pagebuf.c:1878-1890 | From nothing: written, read to the end, written again and read on by one byte, the reader goes behind its page exactly when the second page is the shorter one |
| Bits.ShiftAndMask | pagebuf/pagebuf_hash.h:683-683 | Shifting and masking by a power of two are division and remainder |
| Bits.MaskTwice | pagebuf/pagebuf_hash.h:207-210 | In a table of twice the size an item goes to its old bucket or to that one's twin |
| Bits.CeilByShift | pagebuf/pagebuf_hash.h:697-699 | The shift and mask compute the quotient rounded up |
| Layouts.Layout.AddValid | pagebuf/pagebuf_hash.h:182-205 | Adding keeps the order, the chains, their total count and the map from keys to items in agreement |
| Layouts.Layout.AddLinks | pagebuf/pagebuf_hash.h:182-205 | Adding changes the `next` of the last item and the back link of one chain head, and no other link |
| Layouts.Layout.DeleteValid | pagebuf/pagebuf_hash.h:224-257 | Deleting keeps the order, the chains, their total count and the map in agreement |
| Layouts.Layout.DeleteLinks | pagebuf/pagebuf_hash.h:224-257 | Deleting makes the two neighbours in the order and the two in the chain skip the item, and changes no other link |
| HashTables.Table.Find | pagebuf/pagebuf_hash.h:103-114 | The item of the map with this key, or null exactly if the map has none |
| HashTables.Table.FindInBucket | pagebuf/pagebuf_hash.h:617-628 | Walking one chain decides for the whole table |
| HashTables.Table.Add | pagebuf/pagebuf_hash.h:182-205 | The map gains the item and the order ends with it. The buckets are doubled exactly when the chain has reached its limit and doubling is not given up; then the ineffective doublings in a row are counted on from the old count; otherwise the counts, the ideal length and every multiplier are as before |
| HashTables.Table.Delete | pagebuf/pagebuf_hash.h:224-257 | The map loses the key, the order the item, the head and tail are right, also for the first, the last and the only item, and the counts and multipliers are as before; with the last item the table goes |
| HashTables.Table.Replace | pagebuf/pagebuf_hash.h:172-180 | The order is the old one without whichever item had the key, followed by the new item; the displaced item is returned; the counts and multipliers are those of deleting the one and adding the other |
| HashTables.Table.Remove | pagebuf/pagebuf_hash.h:224-257 | Finding and deleting an item by its key: the order is the old one without it |
| Accounts.WithoutOrder | pagebuf/pagebuf_hash.h:224-257 | Taking the item of a key out of a table takes it out of the list of its items and leaves the others in their order |
| Accounts.Account.Bounds | pagebuf/pagebuf_hash.h:706-710 | After a doubling the multiplier of each bucket bounds its chain in terms of the ideal length |
| HashTables.Table.Fsck | pagebuf/pagebuf_hash.h:293-343 | The integrity check, which counts all chains and the order and compares all back links, finds nothing wrong with a valid table |
| TableRuns.RunsAs | pagebuf/pagebuf_hash.h:103-257 | At every point of a run the table is the finite map, and its order the plain list of items, that the actions so far make |
| TableRuns.Drive | pagebuf/pagebuf_hash.h:103-257 | Any script of adding, deleting and finding on a real table goes through such a run, and gets the answers of the finite map |
| TableRuns.GivenUpIff | pagebuf/pagebuf_hash.h:725-730 | From an empty table on, in any script, doubling is given up exactly if two successive doublings of the table were both ineffective |
| HashTables.Table.Expand | pagebuf/pagebuf_hash.h:686-732 | Twice the buckets and the same items; the ideal length is the items over the buckets rounded up, the nonideal items those beyond it, each multiplier what goes into its chain, and the count of ineffective doublings in a row goes on or starts again |
| Refilings.Refiling.DoneValid | pagebuf/pagebuf_hash.h:701-720 | After the items of all old chains were moved one by one, each new chain holds those of one old chain that go there; none is lost or in two places |
| Refilings.Refiling.PushStands | pagebuf/pagebuf_hash.h:704-719 | Moving one item more keeps count: what is filed and what is left are all there is |
| Refilings.RefiledTurned | pagebuf/pagebuf_hash.h:713-717 | The items of a doubled bucket stand in the opposite of their old order |
| Sorting.Ordering.TakeLeft | pagebuf/pagebuf_hash.h:780-790 | Taking from the left run when it is not greater keeps the merged part before all that is left, equals in their first order |
| Sorting.Ordering.TakeRight | pagebuf/pagebuf_hash.h:791-797 | Taking from the right run only when the left is greater keeps the merged part before all that is left |
| Sorting.RoundEnds | pagebuf/pagebuf_hash.h:753-811 | Two runs of at most k merged are one sorted run of at most 2k of the same items |
| Sorting.PassEnds | pagebuf/pagebuf_hash.h:748-821 | A pass turns runs of k into runs of 2k, and a pass of one merge leaves a sorted list |
| Sorting.Merging.PassDone | pagebuf/pagebuf_hash.h:748-811 | The list a pass makes has every item of the table once |
| HashTables.Table.MergeRuns | pagebuf/pagebuf_hash.h:764-811 | The relinked part grows by the merge of both runs, and its forward and back links are right |
| HashTables.Table.Pass | pagebuf/pagebuf_hash.h:749-814 | Every item is in some merge, and there is at most one merge exactly when the list is at most two runs long |
| HashTables.Table.Sort | pagebuf/pagebuf_hash.h:739-824 | For any total preorder and any length the order becomes a permutation in which each item compares at most equal to all behind it and equal items keep their places relative to one another, with `prev`, `next`, head and tail right, and every chain, count and multiplier untouched |

## Left out

- More than one allocator in one model: all buffers that share pages use one allocator object, as they must in the library.
- Memory a caller lends by reference is taken to stay as it is while a region refers to it.
- `use_count` is a number without bound, where the library has 16 bits; sizes, offsets, revisions and hash counts do not wrap round either.
- The address arithmetic on base pointers: a page has an offset into its region, and a region one into its block.
- `pb_trivial_buffer_overwrite_buffer`: its write length ignores how far both pages are already used, so that a write can run past a page.
- `terminate_line` and `terminate_line_check_cr`, and the branches of the line reader that only they reach: marked unfinished in the source.
- Readers and buffers destroyed or cloned: allocation of the reader structs is not modelled, and a clone is a copy of the fields.
- `pb_line_reader_is_end`: compares a pointer without looking at the revision.
- The dispatchers and operation tables of buffers and allocators: calls are direct.
- The memory-mapped file buffer, the list buffer's C++ wrappers, and the tests.
- Freeing of memory as such: a region or table that is freed is no longer part of the state, and nothing can reach it.
- The concrete hash functions, the bloom filter, `PB_HASH_SELECT` and the emission of keys: the hash is any fixed function of the key.
- Failure to allocate in the hash table: the library ends the program there.
- The secondary hash handle offset: an item of the model is its own handle.
- DataReaders.DataReader.Read: where the code would read behind its page the model stops and says so; what the code reads there, and where it goes on after that, is not modelled. The same holds for `Consume`.
- TrivialBuffer.Buffer.InsertData: a cut behind the last byte of a page leaves an empty page, after which the buffer is sound, and can be cleared and destroyed, but the other operations are not shown to work on it; the contract says exactly when.
- Runs.Drive: an insertion is at a position of the content, as iterators find it, so that no empty page arises.
- TrivialBuffer.Buffer.InsertBuffer: source and destination must be different buffers.
- Allocation.Allocator.DataCreateRef: memory lent by reference must not be a block the library itself owns, because that goes away with its region.
- Allocation.Allocator.BufferPageCreateRef: the same.
- TrivialBuffer.Buffer.InsertDataRef: the same.
- TrivialBuffer.Buffer.WriteDataRef: the same.
- TrivialBuffer.Buffer.OverwriteData: the source must not be a block of a region, because `memcpy` between overlapping memory is undefined.
- TrivialBuffer.Buffer.ReadData: the destination must not be memory that a region lies in, for the same reason and because it would change the content.
- TableRuns.Drive: scripts add, delete and find; sorting is not one of their steps.
- HashTables.Table.Add: keys must be unique, as the library asks of its users.
