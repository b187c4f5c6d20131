# Virtuelium core, modelled in Dafny

Virtuelium is a spectral ray tracer written in C++, with a few Python
scripts that generate solar illuminants and animation scenes. This project
models the parts of it that are pure logic and states what they promise:

- how the image is cut into task units and in which order the task
  managers list them (line orders, snake mode, spiral);
- how the client/server executor cuts the task list into blocks and deals
  them to MPI processes;
- the older line-band task manager;
- the open-addressing hash map and its hash functors;
- the XML reader, the XML tree and the typed attribute readers;
- the command-line parsing of the render area and the algorithm;
- spectral light (LightData, LightVector, Spectrum);
- bounding boxes, images, the kd-tree of photons and its queries;
- the texture triangulation helpers, the texture BRDF wrapping;
- the sampled-material index, complex numbers and the common helpers;
- the byte layout of the photon-map export;
- the solar scripts: spectrum XML reading, writing and normalising,
  the virtual sun and the animation helpers.

Reals of the source (`float`, `double`) are exact Dafny `real`s. Integers
are unbounded unless a 32-bit wrap-around changes a result, in which case it
is written out. Every file holds one module; modules that serve only as
support are `Wrappers` (Option and Result), `IntArith`, `RealArith`,
`SeqUtil`, `Sorting` and `PosixPath` (the parts of Python's `os.path` the
scripts use).

## Model

| member | source | states |
|---|---|---|
| TaskGrid.Define | sources/src/core/taskmanager/TaskManagerBase.cpp:56-70 | Retrieve after Define returns exactly the four corners that were defined. |
| TaskGrid.CeilDiv | sources/src/core/taskmanager/TaskManagerBase.cpp:105-112 | The tasks per row (column) are the least count of task-wide pieces covering the image width (height). |
| TaskGrid.CeilDivUnique | sources/src/core/taskmanager/TaskManagerBase.cpp:105-112 | That least covering count is unique, so the source's quotient-plus-remainder test computes it. |
| TaskGrid.SetBaseParameters | sources/src/core/taskmanager/TaskManagerBase.cpp:91-116 | The stored image and task sizes are the given ones; the counts are ceiling divisions and the task total is their product. |
| TaskGrid.NoTasksIffEmptyImage | sources/src/core/taskmanager/TaskManagerBase.cpp:105-115 | There are no tasks exactly when the image is zero pixels wide or high. |
| TaskGrid.CreateAreaFromTask | sources/src/core/taskmanager/TaskManagerBase.cpp:127-146 | A task area is non-empty, at most one task size wide and high, and its bottom-right corner never exceeds imgUlx+imgWidth, imgUly+imgHeight. |
| TaskGrid.AreaFollowsRowMajor | sources/src/core/taskmanager/TaskManagerBase.cpp:129-132 | Task h*W+w is a valid task and starts at grid column w, grid row h. |
| TaskGrid.DistinctTasksDistinctCorners | sources/src/core/taskmanager/TaskManagerBase.cpp:127-146 | Two distinct tasks never start at the same upper-left pixel. |
| TaskGrid.AreasConcat | sources/src/core/taskmanager/TaskManagerBase.cpp:127-146 | Turning a list of task indices into areas distributes over concatenation. |
| LineOrder.DirectionOf | sources/src/core/taskmanager/TaskManagerLine.cpp:55-96 | Any direction code outside 0..7 falls back to LRTB. |
| LineOrder.DirectionCodeRoundTrip | sources/src/core/taskmanager/TaskManagerLine.cpp:59-95 | Each of the eight directions is selected by its own enum code. |
| LineOrder.CodeDirectionRoundTrip | sources/src/core/taskmanager/TaskManagerLine.cpp:59-95 | Each code 0..7 selects the direction with that code. |
| LineOrder.SetAdditionalParameters | sources/src/core/taskmanager/TaskManagerLine.cpp:39-53 | Index 0 sets the direction, index 1 the snake flag, each leaving the other unchanged; any other index is an error. |
| LineOrder.TaskOrder | sources/src/core/taskmanager/TaskManagerLine.cpp:99-302 | Every ordering lists each grid index h*W+w exactly once: it is a permutation of 0..W*H-1. |
| LineOrder.TaskOrderPermutation | sources/src/core/taskmanager/TaskManagerLine.cpp:99-302 | For every walk and snake setting, the sweep of all lines is a permutation of the grid indices. |
| LineOrder.GridIndexFacts | sources/src/core/taskmanager/TaskManagerLine.cpp:107-116 | The index written for an in-range cell is a valid task index and lies on the line being read. |
| LineOrder.IndexOnItsLine | sources/src/core/taskmanager/TaskManagerLine.cpp:99-302 | Every grid index appears on the line of its own row (column). |
| LineOrder.LineFacts | sources/src/core/taskmanager/TaskManagerLine.cpp:102-120 | One line has no repeated index and only indices of that line. |
| LineOrder.SweepFacts | sources/src/core/taskmanager/TaskManagerLine.cpp:102-120 | Reading several distinct lines gives one index per cell of those lines, none repeated. |
| LineOrder.CountFacts | sources/src/core/taskmanager/TaskManagerLine.cpp:102-127 | A counting loop visits every value below n exactly once. |
| LineOrder.SweepCovers | sources/src/core/taskmanager/TaskManagerLine.cpp:99-302 | A cell whose line is among the lines read is listed. |
| LineOrder.TaskOrderCovers | sources/src/core/taskmanager/TaskManagerLine.cpp:99-302 | Reading all lines lists every grid index. |
| LineOrder.OuterTimesInner | sources/src/core/taskmanager/TaskManagerLine.cpp:99-302 | Lines times cells per line is W*H whether lines are rows or columns, so nb_tasks entries are written. |
| LineOrder.LrtbIsIdentity | sources/src/core/taskmanager/TaskManagerLine.cpp:99-122 | LRTB without snake places area(k) at position k. |
| LineOrder.RowsAscending | sources/src/core/taskmanager/TaskManagerLine.cpp:99-122 | The first k rows read left to right are indices 0..k*W-1 in order. |
| LineOrder.SweepConcat | sources/src/core/taskmanager/TaskManagerLine.cpp:99-302 | Reading two runs of lines is reading the first and then the second. |
| LineOrder.LineFlip | sources/src/core/taskmanager/TaskManagerLine.cpp:99-302 | Reading a line in the opposite inner direction gives that line reversed, with or without snake. |
| LineOrder.SweepFlip | sources/src/core/taskmanager/TaskManagerLine.cpp:99-302 | Reversing both the line order and the inner direction reverses the whole sweep. |
| LineOrder.CountFlip | sources/src/core/taskmanager/TaskManagerLine.cpp:105-113 | The downward count is the reverse of the upward count. |
| LineOrder.FarCornerOrdersAreReversed | sources/src/core/taskmanager/TaskManagerLine.cpp:124-302 | As coded, LRBT, RLBT, TBRL and BTRL are the exact reverses of LRTB, RLTB, TBLR and BTLR. |
| LineOrder.SnakeReversesOddLines | sources/src/core/taskmanager/TaskManagerLine.cpp:104-130 | In snake mode a line is read against its standard direction iff its absolute index is odd. |
| LineOrder.ReadLine | sources/src/core/taskmanager/TaskManagerLine.cpp:102-120 | One inner loop produces the areas of that line's indices, in reading order. |
| LineOrder.CreateTaskList | sources/src/core/taskmanager/TaskManagerLine.cpp:55-122 | The task list has nb_tasks entries and holds the areas of the ordering chosen by the direction code and snake flag. |
| LineOrder.SweepPrefixStep | sources/src/core/taskmanager/TaskManagerLine.cpp:102-120 | Each completed line leaves only valid task indices in the list built so far. |
| Spiral.SetAdditionalParameters | sources/src/core/taskmanager/TaskManagerSpiral.cpp:38-48 | Index 0 sets the rotation sense; any other index is an error. |
| Spiral.Pivot | sources/src/core/taskmanager/TaskManagerSpiral.cpp:61-68 | The start column (row) is the centre one, the lower centre n/2-1 when the count is even. |
| Spiral.TaskCountBelowSentinel | sources/src/core/taskmanager/TaskManagerSpiral.cpp:56-136 | No task count reaches the sentinel W*H pixels, so a marked cell never looks unmarked. |
| Spiral.CeilAtMostSize | sources/src/core/taskmanager/TaskManagerSpiral.cpp:133-134 | A ceiling count of tasks never exceeds the pixel count it covers. |
| Spiral.CellIndex | sources/src/core/taskmanager/TaskManagerSpiral.cpp:94 | An in-grid cell receives a valid task index h*W+w. |
| Spiral.Mark | sources/src/core/taskmanager/TaskManagerSpiral.cpp:91-101 | A cell is recorded only when it lies inside the grid; the map and the task list stay consistent. |
| Spiral.Record | sources/src/core/taskmanager/TaskManagerSpiral.cpp:94-100 | Recording appends the index, marks it with the current count and increments the count. |
| Spiral.CannotTurnIffVisited | sources/src/core/taskmanager/TaskManagerSpiral.cpp:123-140 | SpiralCanTurn is false exactly for an in-grid cell already visited. |
| Spiral.TurnIsRotation | sources/src/core/taskmanager/TaskManagerSpiral.cpp:113-115 | A turn (dx,dy) to (dir*dy, -dir*dx) keeps the sum of the absolute values of dx and dy and turns a quarter. |
| Spiral.RecursiveSpiral | sources/src/core/taskmanager/TaskManagerSpiral.cpp:84-121 | When the spiral stops, the task count has reached nb_tasks, earlier records are kept and the map stays consistent. |
| Spiral.Start | sources/src/core/taskmanager/TaskManagerSpiral.cpp:56-75 | The spiral starts at the pivot cell heading (0, dir), with no task recorded and every map entry at the sentinel; this state is consistent. |
| Spiral.NoTasksIffEmptyGrid | sources/src/core/taskmanager/TaskManagerSpiral.cpp:104-105 | There are no tasks exactly when the grid has no row or no column. |
| Spiral.CreateTaskList | sources/src/core/taskmanager/TaskManagerSpiral.cpp:50-82 | A completed list has nb_tasks units and starts with the pivot cell's area. |
| Spiral.FirstRecordIsPivot | sources/src/core/taskmanager/TaskManagerSpiral.cpp:91-101 | The first task recorded is the in-grid start cell. |
| TaskBlocks.SetAdditionalParameters | sources/src/core/taskexecutor/ClientServerExecutor.cpp:83-105 | Exactly three parameters set rank, MPI process count and OpenMP thread count; any other count is an error. |
| TaskBlocks.ResolveChunkAsWritten | sources/src/core/taskexecutor/ClientServerExecutor.cpp:213-215 | A chunk of -1 becomes nb_tasks / nb_openmp_process; any other chunk is kept. |
| TaskBlocks.ResolvedChunkCanBeZero | sources/src/core/taskexecutor/ClientServerExecutor.cpp:213-219 | With 3 tasks and 4 threads the computed chunk is 0. |
| TaskBlocks.ResolveChunk | sources/src/core/taskexecutor/ClientServerExecutor.cpp:213-215 | The corrected chunk is at least 1 and equals the written one whenever there are at least as many tasks as threads. |
| TaskBlocks.BlockAt | sources/src/core/taskexecutor/ClientServerExecutor.cpp:222-227 | A block starts at t, has size chunk, except the last, which is clipped to nb_tasks - t. |
| TaskBlocks.ChunkCount | sources/src/core/taskexecutor/ClientServerExecutor.cpp:219 | The loop visits the least number of chunks covering all tasks. |
| TaskBlocks.InitializeBlocks | sources/src/core/taskexecutor/ClientServerExecutor.cpp:207-233 | The blocks kept are those whose chunk number (t/chunk) % nb_mpi equals the rank, in loop order. |
| TaskBlocks.DealtOwned | sources/src/core/taskexecutor/ClientServerExecutor.cpp:219-221 | Every block a process receives starts a chunk whose number is congruent to its rank. |
| TaskBlocks.ChunkOf | sources/src/core/taskexecutor/ClientServerExecutor.cpp:219-227 | Task x lies in the chunk starting at c*chunk iff x / chunk == c. |
| TaskBlocks.DealtCovers | sources/src/core/taskexecutor/ClientServerExecutor.cpp:219-232 | Among the first c chunks a rank covers task x iff x's chunk is one of them and is dealt to that rank. |
| TaskBlocks.BlocksPartitionTasks | sources/src/core/taskexecutor/ClientServerExecutor.cpp:219-232 | Across all ranks the blocks partition 0..nb_tasks-1: each task is covered by exactly the rank (x/chunk) % nb_mpi. |
| TaskBlocks.DealtAscending | sources/src/core/taskexecutor/ClientServerExecutor.cpp:219-232 | Each rank's block list has strictly ascending origins. |
| BandQueue.LineRange | sources/src/raytracers/OldTaskManager.cpp:137-138 | The queued lines are ymin..ymax, both included, in order. |
| BandQueue.InitCamera | sources/src/raytracers/OldTaskManager.cpp:121-163 | Past the last camera the work is finished and nothing is queued; otherwise lines ymin..ymax are queued and the band size is width*channels. |
| BandQueue.NewTaskManager | sources/src/raytracers/OldTaskManager.cpp:33-38 | A new manager starts on camera 0. |
| BandQueue.NextBand | sources/src/raytracers/OldTaskManager.cpp:89-106 | Nothing once the work is finished; otherwise the front line, which moves to the back, leaving the queue's multiset unchanged. |
| BandQueue.RemoveFirst | sources/src/raytracers/OldTaskManager.cpp:185-190 | Erasing a queued line removes one occurrence; an absent line leaves the queue unchanged. |
| BandQueue.RemoveFirstKeepsPrefix | sources/src/raytracers/OldTaskManager.cpp:185-190 | Only the first occurrence is erased: everything before it and after it is kept in order. |
| BandQueue.CopyInto | sources/src/raytracers/OldTaskManager.cpp:176-182 | The memcpy overwrites exactly the copied range with the band and keeps every other value. |
| BandQueue.UpdateImage | sources/src/raytracers/OldTaskManager.cpp:170-190 | Columns xmin..xmax-1 of the band land on the image line; the line leaves the queue; nothing else changes. |
| BandQueue.CommitBand | sources/src/raytracers/OldTaskManager.cpp:53-78 | A band of another camera is dismissed with true; a wrong size or out-of-range line gives false; otherwise the band is committed. |
| BandQueue.LastLineAdvancesCamera | sources/src/raytracers/OldTaskManager.cpp:67-75 | Committing the last queued line moves on to the next camera. |
| HashFunctors.IntHash | sources/include/structures/HashFunctors.hpp:36-41 | An int hashes to its unsigned 32-bit conversion: itself when non-negative, plus 2^32 when negative. |
| HashFunctors.UnsignedIntHash | sources/include/structures/HashFunctors.hpp:46-51 | An unsigned int hashes to itself. |
| HashFunctors.SignedChar | sources/include/structures/HashFunctors.hpp:104 | A char adds its signed 8-bit value, which agrees with its code modulo 256. |
| HashFunctors.HashedLength | sources/include/structures/HashFunctors.hpp:103 | The loop reads at most 5 characters and stops early only at a NUL character. |
| HashFunctors.StringHash | sources/include/structures/HashFunctors.hpp:99-107 | The string hash is a 32-bit unsigned value. |
| HashFunctors.StringHashLoop | sources/include/structures/HashFunctors.hpp:100-106 | The shift-and-add loop, with 32-bit wrap-around, computes the hash of the characters it reads. |
| HashFunctors.EmptyStringHashesToZero | sources/include/structures/HashFunctors.hpp:102-105 | The empty string hashes to 0. |
| HashFunctors.SamePrefixSameHash | sources/include/structures/HashFunctors.hpp:99-107 | Strings that share their first 5 characters hash equally. |
| HashFunctors.HashReadsAtMostFive | sources/include/structures/HashFunctors.hpp:103-104 | A string hashes like its first 5 characters. |
| HashFunctors.HashExample | sources/include/structures/HashFunctors.hpp:103-104 | "ab" hashes to 97*32+98. |
| OpenHashMap.Probe | sources/include/structures/HashMap.hpp:203-208 | The j-th probed slot is (hash + j(j+1)/2) mod capacity, always a slot of the table. |
| OpenHashMap.FindFrom | sources/include/structures/HashMap.hpp:206-210 | A found slot is empty or holds the key; no result means none of the probes up to 2*capacity stops. |
| OpenHashMap.Scan | sources/include/structures/HashMap.hpp:97-102 | The content of the table: a key has a value iff some used slot holds it. |
| OpenHashMap.New | sources/include/structures/HashMap.hpp:104-112 | A new map has the given capacity, size 0 and every slot empty, so no key is present. |
| OpenHashMap.ProbeStep | sources/include/structures/HashMap.hpp:206-208 | The written update index = (index + i++) % capacity walks the triangular probe sequence. |
| OpenHashMap.ProbePeriodic | sources/include/structures/HashMap.hpp:206-208 | The probe sequence repeats after 2*capacity steps. |
| OpenHashMap.ProbeReduce | sources/include/structures/HashMap.hpp:206-208 | Every probed slot is one of the first 2*capacity probes. |
| OpenHashMap.GetMapIndex | sources/include/structures/HashMap.hpp:199-211 | The loop returns the first probed slot that is empty or holds the key, starting at hash % capacity with steps 1, 2, 3, ... |
| OpenHashMap.ProbingNeverEnds | sources/include/structures/HashMap.hpp:206-208 | No slot is found exactly when no probe, however far, stops: the C++ loop never ends. |
| OpenHashMap.ValidKeysUnique | sources/include/structures/HashMap.hpp:130-165 | In a valid map no key occupies two slots. |
| OpenHashMap.ScanAt | sources/include/structures/HashMap.hpp:97-102 | With unique keys the content of a stored key is its slot's value. |
| OpenHashMap.FoundSlotMeaning | sources/include/structures/HashMap.hpp:172-193 | The slot getMapIndex returns is empty iff the key is absent, and otherwise holds its value. |
| OpenHashMap.PresentIsFound | sources/include/structures/HashMap.hpp:199-211 | A stored key is always found. |
| OpenHashMap.Get | sources/include/structures/HashMap.hpp:172-180 | get returns the stored value, or the default value when the key is absent. |
| OpenHashMap.Contain | sources/include/structures/HashMap.hpp:186-193 | contain holds exactly when the key is stored. |
| OpenHashMap.InsertCorrect | sources/include/structures/HashMap.hpp:154-164 | Writing at the slot getMapIndex chose keeps the invariant, binds the key, grows the size only for a new key and changes no other key. |
| OpenHashMap.Store | sources/include/structures/HashMap.hpp:154-164 | After the store the key maps to the value, other keys are unchanged and the size grows by one only for a new key. |
| OpenHashMap.RehashNeverGrows | sources/include/structures/HashMap.hpp:139-148 | Re-adding the old entries into a table twice as large never triggers a nested resize. |
| OpenHashMap.ScanNoneBefore | sources/include/structures/HashMap.hpp:146-148 | A key re-added from slot i was not among the slots re-added before it. |
| OpenHashMap.Rehash | sources/include/structures/HashMap.hpp:146-148 | The refill loop re-adds all old pairs: same content and same size in the doubled table. |
| OpenHashMap.Resize | sources/include/structures/HashMap.hpp:133-152 | The resize doubles the capacity and preserves all key/value pairs and the size. |
| OpenHashMap.Add | sources/include/structures/HashMap.hpp:129-165 | add doubles the capacity when size > 0.6*capacity, then binds the key to the value and leaves every other key unchanged. |
| OpenHashMap.AddThenLookup | sources/include/structures/HashMap.hpp:130-193 | After add(k,v), contain(k) holds, get(k)==v and other keys read as before. |
| OpenHashMap.ReplaceKeepsSize | sources/include/structures/HashMap.hpp:155-164 | Adding an existing key replaces its value without growing size or capacity. |
| XmlParser.NonSpace | sources/src/io/XMLParser.cpp:235 | The extraction operator delivers the input without its blanks, never more characters than there are. |
| XmlParser.JumpToNextMarkup | sources/src/io/XMLParser.cpp:231-236 | The reader stops right after the first '<', or at the end of the input when there is none. |
| XmlParser.GetMarkupType | sources/src/io/XMLParser.cpp:207-225 | The lead character decides: '?' process, "!-" comment, any other '!' escape (the '!' is consumed), '/' closing, anything else normal. |
| XmlParser.JumpToEndOfComment | sources/src/io/XMLParser.cpp:242-275 | The comment skipper stops right after the first "-->", blanks ignored, or at the end of the input. |
| XmlParser.CommentFromCorrect | sources/src/io/XMLParser.cpp:246-274 | The four-state automaton, from any consistent state, stops exactly at the first end of comment. |
| XmlParser.JumpToEndOfMarkup | sources/src/io/XMLParser.cpp:281-308 | The markup skipper stops right after the first '>' outside double quotes, or at the end of the input. |
| XmlParser.MarkupFromCorrect | sources/src/io/XMLParser.cpp:285-307 | The quote automaton stops exactly at the first '>' outside quotes. |
| XmlParser.JumpToEndOfEscape | sources/src/io/XMLParser.cpp:314-344 | The escape skipper stops right after the first '>' outside quotes at bracket depth 0, or at the end of the input. |
| XmlParser.EscapeStep | sources/src/io/XMLParser.cpp:327-340 | One character toggles the quote state on '"' and moves the depth on '[' and ']' only outside quotes. |
| XmlParser.EscapeFromCorrect | sources/src/io/XMLParser.cpp:318-343 | The quote-and-stack automaton stops exactly at the first '>' outside quotes with every '[' closed. |
| XmlParser.ReadWhiteSpace | sources/src/io/XMLParser.cpp:121-126 | All blanks are skipped, up to the first non-blank or the end. |
| XmlParser.AlnumRun | sources/src/io/XMLParser.cpp:143-144 | The run of alphanumerics ends at the first other character or the end. |
| XmlParser.ReadLabel | sources/src/io/XMLParser.cpp:132-149 | A label is read iff the first character is alphabetic and the alphanumerics are followed by another character; the label is that letter and run, and the next character is left. |
| XmlParser.ReadQuotedString | sources/src/io/XMLParser.cpp:155-170 | Success iff the input opens with '"' and has a closing '"'; the result is the text between, which holds no '"'. |
| SeqUtil.FindCharFinds | sources/src/io/XMLParser.cpp:165 | The search for the closing '"' stops at the first '"' after the opening one, whatever follows it. |
| XmlParser.LabelRoundTrip | sources/src/io/XMLParser.cpp:132-149 | A label followed by a non-alphanumeric character reads back as itself. |
| XmlParser.QuotedRoundTrip | sources/src/io/XMLParser.cpp:155-170 | A quoted text without '"' reads back as itself, consuming both quotes. |
| XmlParser.ReadPair | sources/src/io/XMLParser.cpp:185-196 | One name="value" pair: the name is a label and is the text read, the value holds no '"', and the reader moves past what it consumed. |
| XmlParser.AttributeList | sources/src/io/XMLParser.cpp:182-200 | The pairs are read while an alphabetic character follows; the reader stops at the end or before a non-alphabetic character, and every pair read is writable. |
| XmlParser.AttributeListAt | sources/src/io/XMLParser.cpp:182-200 | Pairs written as name="value" followed by the end or a character neither alphabetic nor blank read back as exactly those pairs, stopping right after them. |
| XmlParser.AddAll | sources/src/io/XMLParser.cpp:199 | Adding the pairs in order keeps the label, the children and the table's validity; each name then reads as its binding after the pairs. |
| XmlParser.BindingLast | sources/src/io/XMLParser.cpp:199 | A name no pair mentions keeps its earlier value, and the last pair that names it decides its value: a repeated attribute is overwritten. |
| XmlParser.ReadAttributes | sources/src/io/XMLParser.cpp:177-201 | A failed pair fails the whole read; otherwise the read succeeds iff every insert succeeds, and gives the node with the pairs bound in order, label and children kept, stopping where the pairs end. |
| XmlParser.SkipToMarkup | sources/src/io/XMLParser.cpp:66-86 | Process, escape and comment markups are skipped until a normal or a closing markup starts. |
| XmlParser.ReadOpening | sources/src/io/XMLParser.cpp:88-94 | An opening fails without a label; it gives a well-formed childless node whose label is the label read, and its attributes are those of the pairs that follow the blanks. |
| XmlParser.OpeningAttributes | sources/src/io/XMLParser.cpp:89-94 | The opening fails when the attribute pairs do not read, and otherwise succeeds iff they can all be added to a new node, with that node as its result. |
| XmlParser.GetNextMarkup | sources/src/io/XMLParser.cpp:64-115 | The reader always advances; a closing markup is reported at its '/' right after a '<', and an element is well formed with a valid label. |
| XmlParser.MarkupFromText | sources/src/io/XMLParser.cpp:66-94 | A closing markup found by the skip loop is returned at once; an element returned starts at a normal markup and has the label and attributes of the opening read there. |
| XmlParser.ElementFromOpening | sources/src/io/XMLParser.cpp:88-114 | An element needs its opening and keeps its label and attributes; a '/' after the attributes gives the childless opening node just past it; otherwise the element ends at a closing markup. |
| XmlParser.ReadChildren | sources/src/io/XMLParser.cpp:100-111 | The child loop keeps the label and attributes, only appends children after those already there, and ends at a closing markup's '/'. |
| XmlParser.ChildrenInOrder | sources/src/io/XMLParser.cpp:102-111 | An element read by the loop becomes the next child, in reading order, and reading continues after it. |
| XmlParser.ClosingEndsChildren | sources/src/io/XMLParser.cpp:102-111 | A closing markup ends the loop with the children gathered so far, whatever its name. |
| XmlParser.SelfClosingMarkup | sources/src/io/XMLParser.cpp:86-98 | A normal markup whose attributes are followed by '/' is a childless element ending just after the '/'. |
| XmlParser.ParseAndCreateTree | sources/src/io/XMLParser.cpp:33-39 | A leading closing markup is an error; a tree parsed is well formed with a valid label, and carries the label and attributes of the first opening after the skipped markups. |
| XmlParser.ClosingNameNotChecked | sources/src/io/XMLParser.cpp:64-115 | For every label, blanks, writable attributes, self-closed children and trailing text: the element closed by '</' followed by anything parses as the node with those attributes and children, so the closing name is never compared; an attribute that cannot be added fails the parse. |
| XmlParser.SelfClosingRoundTrip | sources/src/io/XMLParser.cpp:64-98 | For every label, blanks, writable attributes and trailing text, the self-closed element written from them parses back as the node with those attributes; an attribute that cannot be added fails the parse. |
| XmlParser.CommentThenSelfClosing | sources/src/io/XMLParser.cpp:80-98 | A leading comment is skipped and "<a/>" is a childless element. |
| XmlTree.NewNode | sources/include/io/XMLTree.hpp:110-114 | A new node carries the constructor label, no child and no attribute. |
| XmlTree.AddAttribute | sources/include/io/XMLTree.hpp:131-134 | The name now reads as the value (re-adding overwrites); other attributes, the label and the children are kept. |
| XmlTree.GetAttributeValue | sources/include/io/XMLTree.hpp:141-144 | The stored value, or "" for a missing name. |
| XmlTree.AddChild | sources/include/io/XMLTree.hpp:150-161 | addChild appends: the count grows by one, earlier children are kept and the new one is last. |
| XmlTree.GetChild | sources/include/io/XMLTree.hpp:167-173 | getChild(i) is no node exactly when i >= child count, and otherwise the i-th child. |
| XmlTree.FreshNodeHasNoAttributes | sources/include/io/XMLTree.hpp:136-144 | On a fresh node every attribute reads as "". |
| XmlTree.AddChildKeepsEarlier | sources/include/io/XMLTree.hpp:150-173 | Appending a child does not change getChild for any index below the old count. |
| AttributeReaders.DigitRun | sources/include/io/Parser.hpp:90 | strtol reads the longest run of decimal digits. |
| AttributeReaders.Strtol | sources/include/io/Parser.hpp:90 | strtol in base 10 saturates to the range of a 64-bit long. |
| AttributeReaders.ToInt32 | sources/include/io/Parser.hpp:90 | Returning the long as int wraps it modulo 2^32 into the int range and keeps any value already in range. |
| AttributeReaders.NatDigits | sources/include/io/Parser.hpp:90 | The decimal digits of a natural number denote that number. |
| AttributeReaders.StrtolDecimal | sources/include/io/Parser.hpp:86-91 | strtol reads back the decimal form of any 32-bit int. |
| AttributeReaders.GetRealValue | sources/include/io/Parser.hpp:70-75 | An empty or missing attribute yields the default; otherwise strtod of the text. |
| AttributeReaders.GetIntegerValue | sources/include/io/Parser.hpp:86-91 | An empty or missing attribute yields the default; otherwise a 32-bit int. |
| AttributeReaders.GetBooleanValue | sources/include/io/Parser.hpp:102-112 | An empty text yields the default; otherwise true exactly for "true", "TRUE", "True" or "1". |
| AttributeReaders.IntegerAttributeRoundTrip | sources/include/io/Parser.hpp:86-91 | An attribute holding the decimal form of an int reads back as that int. |
| AttributeReaders.MissingGivesDefault | sources/include/io/Parser.hpp:72-105 | A missing attribute gives the default for all three readers. |
| AttributeReaders.OtherSpellingsAreFalse | sources/include/io/Parser.hpp:106-111 | "false", "0", "yes" and "tRUE" read as false. |
| SeqUtil.FindChar | sources/src/core/Virtuelium.cpp:94 | find_first_of(":") returns the first ':' from the start position, or npos (the length) when there is none: no ':' lies before the answer. |
| VirtueliumParams.SplitColon | sources/src/core/Virtuelium.cpp:94-100 | Splitting at the first ':' fails iff there is none; otherwise text before + ":" + text after is the input. |
| VirtueliumParams.ColonsSplit | sources/src/core/Virtuelium.cpp:94-116 | Each split consumes exactly one ':' of the text. |
| VirtueliumParams.AreaFields | sources/src/core/Virtuelium.cpp:94-120 | Fewer than three ':' or any negative component makes the fields fail; the fields read are non-negative. |
| VirtueliumParams.OrderArea | sources/src/core/Virtuelium.cpp:122-137 | Swapped bounds are reordered; the area is accepted iff xmin != xmax and ymin != ymax, and then xmin < xmax and ymin < ymax. |
| VirtueliumParams.ParseAreaParam | sources/src/core/Virtuelium.cpp:90-138 | A missing separator fails; a success has 0 <= xmin < xmax and 0 <= ymin < ymax. |
| VirtueliumParams.NegativeFieldFails | sources/src/core/Virtuelium.cpp:98-120 | Any negative component makes ParseAreaParam fail. |
| VirtueliumParams.DecimalHasNoColon | sources/src/core/Virtuelium.cpp:94-116 | A printed number holds no ':'. |
| VirtueliumParams.SplitBeforeColon | sources/src/core/Virtuelium.cpp:94-100 | A colon-free text followed by ":" splits back into its two parts. |
| VirtueliumParams.AreaTextFields | sources/src/core/Virtuelium.cpp:94-118 | The three splits and four conversions of a printed "a:b:c:d" give back a, b, c and d. |
| VirtueliumParams.AreaRoundTrip | sources/src/core/Virtuelium.cpp:90-138 | Printing four non-negative ints as "a:b:c:d" parses back as the ordered area, unless a width or height is empty, which fails. |
| VirtueliumParams.FieldsOfAreaText | sources/src/core/Virtuelium.cpp:94-120 | The fields of a printed non-negative area are the printed numbers. |
| VirtueliumParams.NamedDirection | sources/src/core/Virtuelium.cpp:144-201 | A name selects the ordering spelled that way, or none when no ordering has that spelling. |
| VirtueliumParams.ParseAlgoParam | sources/src/core/Virtuelium.cpp:140-216 | The line name is checked first, then the snake name, then the two spirals; snake variants append two parameters, all other branches one; the default is Line. |
| VirtueliumParams.ChosenOrderingIsConfigured | sources/src/core/Virtuelium.cpp:140-216 | Handing the appended parameters to a new task manager configures the requested ordering, snaking iff the snake option chose it, or the requested spiral sense. |
| Light.SetIndex | sources/include/structures/LightData.hpp:119-122 | setIndex changes the band index and keeps the light. |
| Light.SetRadiance | sources/include/structures/LightData.hpp:144-150 | setRadiance sets the radiance and zeroes all polarisation components. |
| Light.PPolarised | sources/include/structures/LightData.hpp:155-160 | The P-polarised radiance is never negative. |
| Light.SPolarised | sources/include/structures/LightData.hpp:165-170 | The S-polarised radiance is never negative. |
| Light.PolarisedParts | sources/include/structures/LightData.hpp:155-170 | At most one of the P and S radiances is positive, S - P gives linear0 back, and unpolarised light has neither. |
| Light.DarkNeutral | sources/include/structures/LightData.hpp:104-111 | The default band carries the sentinel index -100000000 and no light, and adding it to a band changes nothing. |
| Light.Plus | sources/include/structures/LightData.hpp:175-184 | operator+ keeps the left operand's index; its light is tied to mul by MulLaws, where scaling by f + g must equal the sum of the two scaled bands. |
| Light.PlusLaws | sources/include/structures/LightData.hpp:175-184 | The light of a sum is commutative and associative, and adding a dark band changes nothing. |
| Light.Mul | sources/include/structures/LightData.hpp:189-195 | mul keeps the band index; its scaling is tied to add by MulLaws (additive in the factor, 1 is neutral, 0 leaves no light). |
| Light.MulLaws | sources/include/structures/LightData.hpp:189-195 | Scaling distributes over sums, two scalings compose into one by the product, scaling by 1 leaves a band alone, scaling by f + g is the sum of the scalings by f and g, a band added to itself is the band doubled, and scaling by 0 leaves no light. |
| Light.ApplyReflectance | sources/include/structures/LightData.hpp:205-231 | The destination keeps its index and takes the source's linear45 and circular components. |
| Light.ReflectanceLaws | sources/include/structures/LightData.hpp:205-222 | applyReflectance(src,1,1) copies src's radiance and polarisation; equal reflectances r scale radiance and linear0 by r. |
| Light.Flip | sources/include/structures/LightData.hpp:272-276 | flip negates linear45 and circular and keeps the index, the radiance and linear0. |
| Light.FlipInvolution | sources/include/structures/LightData.hpp:272-276 | flip is an involution and commutes with sums. |
| Light.Rotate | sources/include/structures/LightData.hpp:257-267 | A rotation keeps the index, the radiance and the circular component. |
| Light.RotateInverse | sources/include/structures/LightData.hpp:257-267 | Turning by A then by -A restores the band, and a rotation keeps the degree of linear polarisation. |
| Light.LinearFilter | sources/include/structures/LightData.hpp:237-251 | A linear filter keeps the index and removes circular polarisation. |
| Light.LinearFilterIdempotent | sources/include/structures/LightData.hpp:237-251 | A second identical polariser changes nothing. |
| LightVectors.Indices | sources/include/structures/LightVector.hpp:329-343 | The band indices of a vector are exactly those of its entries. |
| LightVectors.Find | sources/include/structures/LightVector.hpp:329-343 | The band with a given index exists iff the index is carried, and then has that index. |
| LightVectors.InitSpectralData | sources/include/structures/LightVector.hpp:221-245 | For w >= 0 one dark band with index w; for a negative w, bands 0..n-1; all dark and unpolarised, sorted by index. |
| LightVectors.InitSpectralDataFrom | sources/include/structures/LightVector.hpp:252-275 | Initialising from another vector copies its indices and zeroes all light. |
| LightVectors.Clear | sources/include/structures/LightVector.hpp:290-294 | clear keeps the size and the indices and zeroes every band's light. |
| LightVectors.ClearIsInitFrom | sources/include/structures/LightVector.hpp:252-294 | Clearing a vector gives what initialising from it gives. |
| LightVectors.Merge | sources/include/structures/LightVector.hpp:311-350 | The merge never has more entries than both operands together. |
| LightVectors.MergeAt | sources/include/structures/LightVector.hpp:317-345 | One loop step takes the smaller index first, and sums the two bands on equal indices. |
| LightVectors.MergeLoop | sources/include/structures/LightVector.hpp:311-350 | The while loop computes the merge. |
| LightVectors.MergeIndices | sources/include/structures/LightVector.hpp:311-350 | The merge carries exactly the indices of both operands. |
| LightVectors.TailSorted | sources/include/structures/LightVector.hpp:329-338 | The rest of a sorted vector is sorted and above its first index. |
| LightVectors.PrependSorted | sources/include/structures/LightVector.hpp:329-338 | A band below every index of a sorted vector can go in front of it. |
| LightVectors.MergeSorted | sources/include/structures/LightVector.hpp:311-350 | Merging sorted vectors keeps them sorted. |
| LightVectors.FindAbsent | sources/include/structures/LightVector.hpp:329-343 | An index not carried finds no band. |
| LightVectors.MergeFind | sources/include/structures/LightVector.hpp:311-350 | Each band of the merge of sorted vectors is the band of the one operand carrying it, or the sum when both do. |
| LightVectors.RotateAll | sources/include/structures/LightVector.hpp:460-462 | The framework change turns every band, in place and in order, by the same angle. |
| LightVectors.RotateKeepsIndices | sources/include/structures/LightVector.hpp:445-467 | Turning the bands keeps every index, so a sorted vector stays sorted. |
| LightVectors.FindRotated | sources/include/structures/LightVector.hpp:460-462 | The band of an index in the turned vector is the turned band of that index, and an absent index stays absent. |
| LightVectors.RotateZero | sources/include/structures/LightData.hpp:257-267 | A turn by a zero angle leaves every band as it was. |
| LightVectors.Add | sources/include/structures/LightVector.hpp:299-351 | The sum carries exactly the band indices of both operands. |
| LightVectors.Combine | sources/include/structures/LightVector.hpp:329-343 | A band of the sum exists iff one operand carries it, keeps the receiver's index when the receiver has it, and is the other's band otherwise. |
| LightVectors.AddIsSortedUnion | sources/include/structures/LightVector.hpp:299-351 | add on two sorted vectors, the receiver first turned into the other's framework, is sorted; each band is the sum of the turned receiver's band and the other's when both carry the index, else the one present; the turned band is the receiver's band turned. |
| LightVectors.MergeDark | sources/include/structures/LightVector.hpp:307-350 | Merging the dark copy of a vector with it gives it back. |
| LightVectors.AddEmpty | sources/include/structures/LightVector.hpp:299-308 | Adding an empty vector only turns the receiver, which changes nothing for a zero angle; adding to an empty vector gives the other vector. |
| LightVectors.Mul | sources/include/structures/LightVector.hpp:356-360 | mul keeps the number of bands and scales each band in place. |
| LightVectors.MulDistributes | sources/include/structures/LightVector.hpp:299-360 | Scaling a sum is the sum of the scaled vectors. |
| LightVectors.Flip | sources/include/structures/LightVector.hpp:497-503 | flip keeps the number of bands and flips each band in place. |
| LightVectors.FlipTwice | sources/include/structures/LightVector.hpp:497-503 | Flipping twice gives the vector back. |
| Spectra.Clear | sources/include/structures/Spectrum.hpp:108-111 | clear gives one zero per wavelength of the global table. |
| Spectra.Add | sources/include/structures/Spectrum.hpp:113-118 | add keeps the number of wavelengths; it is tied to mul by SpectrumAlgebra, where the sum of the spectrum scaled by f and by g must be it scaled by f + g. |
| Spectra.Mul | sources/include/structures/Spectrum.hpp:120-125 | mul keeps the number of wavelengths; it is tied to add by SpectrumAlgebra (additive in the factor, 1 is neutral, 0 clears). |
| Spectra.SpectrumAlgebra | sources/include/structures/Spectrum.hpp:108-125 | A cleared spectrum is neutral for add, add is commutative, mul distributes over add, scaling by 0 clears and by 1 changes nothing, scaling by f + g is the sum of the scalings, and a spectrum added to itself is the spectrum doubled. |
| Spectra.GetIndexOfWavelength | sources/include/structures/Spectrum.hpp:146-159 | The binary search returns the band whose wavelength is the last at or below w, 0 below the table and n-2 at or past its last wavelength. |
| Spectra.BracketUnique | sources/include/structures/Spectrum.hpp:146-159 | At most one band brackets a wavelength. |
| Spectra.LinearIndex | sources/include/structures/Spectrum.hpp:146-159 | An independent linear scan: the last index below k whose wavelength is at or below w. |
| Spectra.LinearBrackets | sources/include/structures/Spectrum.hpp:146-159 | The linear scan brackets w. |
| Spectra.SearchIsScan | sources/include/structures/Spectrum.hpp:146-159 | The binary search and the linear scan pick the same band. |
| Spectra.InsideTable | sources/include/structures/Spectrum.hpp:146-159 | For a wavelength inside the table, the band satisfies wl[i] <= w < wl[i+1]. |
| Spectra.MaxFrom0 | sources/include/structures/Spectrum.hpp:162-165 | The running maximum started at 0 bounds every value and is 0 or one of them. |
| Spectra.DivideBy | sources/include/structures/Spectrum.hpp:167-168 | Division keeps the number of wavelengths. |
| Spectra.Normalize | sources/include/structures/Spectrum.hpp:161-169 | normalize fails exactly when no value is positive; otherwise every value is at most 1 and some value is 1. |
| Spectra.Normalize560 | sources/include/structures/Spectrum.hpp:171-178 | A zero value at 560 nm leaves the spectrum alone; otherwise the 560 nm value becomes 1. |
| Spectra.Normalize560Idempotent | sources/include/structures/Spectrum.hpp:171-178 | Normalising at 560 nm twice is normalising once. |
| Spectra.NormalizePower | sources/include/structures/Spectrum.hpp:180-187 | normalizePower fails exactly on a zero sum; otherwise the values sum to 1. |
| Spectra.SumDivide | sources/include/structures/Spectrum.hpp:180-187 | Dividing every value by d divides the sum by d. |
| BoundingBoxes.MakeBox | sources/include/maths/BoundingBox.hpp:71-85 | The box holds exactly the points within the six bounds, and its centre is halfway on every axis. |
| BoundingBoxes.UpdateWithBox | sources/include/maths/BoundingBox.hpp:87-107 | The grown box holds every point of both boxes, stays centred, and is unchanged when the other box already lies inside it. |
| BoundingBoxes.ContainedCorners | sources/include/maths/BoundingBox.hpp:87-107 | A non-empty box inside another has its corners inside it. |
| BoundingBoxes.UpdateWithPoint | sources/include/maths/BoundingBox.hpp:109-129 | The grown box holds the point and every earlier point, stays centred, and is unchanged when the point was inside. |
| BoundingBoxes.PointIsDegenerateBox | sources/include/maths/BoundingBox.hpp:87-129 | Growing by a point is growing by the degenerate box at that point. |
| BoundingBoxes.InsideOriginIntersects | sources/include/maths/BoundingBox.hpp:149-153 | A ray whose origin is inside the box can intersect it. |
| BoundingBoxes.CanIntersectSound | sources/include/maths/BoundingBox.hpp:131-207 | When canIntersect answers true for an ordered box, some point of the ray at t >= 0 lies in the box. |
| BoundingBoxes.HitXSound | sources/include/maths/BoundingBox.hpp:155-170 | A yz-face hit gives a point of the ray in the box. |
| BoundingBoxes.HitYSound | sources/include/maths/BoundingBox.hpp:172-187 | An xz-face hit gives a point of the ray in the box. |
| BoundingBoxes.HitZSound | sources/include/maths/BoundingBox.hpp:189-204 | An xy-face hit gives a point of the ray in the box. |
| BoundingBoxes.FaceReached | sources/include/maths/BoundingBox.hpp:156-164 | Heading towards a face reaches it at a non-negative distance d, and o + d*v lies on it. |
| Images.Clamp | sources/src/structures/Image.cpp:112-115 | A coordinate is kept inside the image, pulled to 0 below it and to n-1 past it. |
| Images.Offset | sources/src/structures/Image.cpp:116 | The channels of a pixel lie inside the raster. |
| Images.GetPixel | sources/src/structures/Image.cpp:110-118 | getPixel returns one value per channel. |
| Images.SetPixel | sources/src/structures/Image.cpp:125-132 | setPixel keeps the image's dimensions and its raster size. |
| Images.Clear | sources/src/structures/Image.cpp:51-54 | After clear every channel of every pixel reads 0. |
| Images.DisjointPixels | sources/src/structures/Image.cpp:116 | Earlier pixels in row-major order own raster runs before later ones. |
| Images.SetThenGet | sources/src/structures/Image.cpp:110-132 | After setPixel the pixel reads back as written, and every pixel with other clamped coordinates is unchanged. |
| Images.GetInterpolatedPixel | sources/src/structures/Image.cpp:139-170 | The interpolated pixel has one value per channel. |
| Images.WeightsSumToOne | sources/src/structures/Image.cpp:148-167 | The four bilinear weights sum to 1, so a constant neighbourhood is reproduced. |
| Images.InterpolationAtPixel | sources/src/structures/Image.cpp:139-170 | At integer coordinates the interpolation returns the stored pixel. |
| KdTrees.Add | sources/include/structures/KdTree.hpp:372-376 | add appends one normal node after the existing ones and keeps them. |
| KdTrees.SetData | sources/include/structures/KdTree.hpp:833-839 | setData stores one normal node per given element. |
| KdTrees.GetData | sources/include/structures/KdTree.hpp:844-853 | getData returns each slot's element, with x set to -1000000 for empty slots. |
| KdTrees.DataRoundTrip | sources/include/structures/KdTree.hpp:372-376 | getData returns what setData stored, and adding an element extends the stored sequence. |
| KdTrees.Elements | sources/include/structures/KdTree.hpp:845-852 | The elements of the slots, in slot order, whatever their flags. |
| KdTrees.LevelsFrom | sources/include/structures/KdTree.hpp:532 | The least k from the start value with 2^k > n. |
| KdTrees.Levels | sources/include/structures/KdTree.hpp:532-533 | The number of levels is ceil(log2(n+1)): the least k with 2^k > n. |
| KdTrees.Capacity | sources/include/structures/KdTree.hpp:529-533 | The capacity 2^levels - 1 holds n elements, and one level fewer would not. |
| KdTrees.BoundsFromContents | sources/include/structures/KdTree.hpp:501-519 | A bound on every stored element is a bound on every node. |
| KdTrees.BoundOfMember | sources/include/structures/KdTree.hpp:501-519 | Every element of a bounded subtree respects the bound. |
| KdTrees.SearchMedian | sources/include/structures/KdTree.hpp:431-447 | searchMedian gives none for no elements and otherwise the element at position size/2. |
| KdTrees.SplitAround | sources/include/structures/KdTree.hpp:439-444 | The elements before, at and after the median are all the elements. |
| KdTrees.SplitAtMedian | sources/include/structures/KdTree.hpp:431-499 | The median splits the elements into a lower part at most one larger than the upper one, below and above it along the dimension, losing none. |
| KdTrees.BalancedNode | sources/include/structures/KdTree.hpp:501-519 | A median over two balanced kd-ordered halves is a balanced kd-ordered tree of all the elements. |
| KdTrees.Balance | sources/include/structures/KdTree.hpp:501-519 | balanceTree builds a kd-ordered tree whose subtrees differ in size by at most one, holding exactly the given elements. |
| KdTrees.BalancedHeight | sources/include/structures/KdTree.hpp:529-533 | A size-balanced tree of fewer than 2^h elements has height at most h. |
| KdTrees.ChildrenSlots | sources/include/structures/KdTree.hpp:517-518 | The children of slot i are stored at 2i+1 and 2i+2, one level deeper. |
| KdTrees.SubDepth | sources/include/structures/KdTree.hpp:517-518 | A slot's depth plus the height of its subtree is at most the tree's height. |
| KdTrees.SlotBound | sources/include/structures/KdTree.hpp:517-533 | Slot j lies within the first depth(j)+1 levels. |
| KdTrees.Pow2Mono | sources/include/structures/KdTree.hpp:533 | Powers of two grow with the exponent. |
| KdTrees.KdChildren | sources/include/structures/KdTree.hpp:517-518 | The children of a kd-ordered node are ordered on the next dimension. |
| KdTrees.NextDim | sources/include/structures/KdTree.hpp:517-518 | Taking the dimension modulo 3 before stepping changes nothing. |
| KdTrees.SubDim | sources/include/structures/KdTree.hpp:517-518 | The node at slot j splits along its depth modulo 3. |
| KdTrees.TreeWithinLevels | sources/include/structures/KdTree.hpp:529-533 | A tree of height at most k uses no slot from 2^k - 1 on. |
| KdTrees.Layout | sources/include/structures/KdTree.hpp:551-556 | The laid-out array has exactly the capacity. |
| KdTrees.Optimize | sources/include/structures/KdTree.hpp:526-561 | optimize resizes the storage to the capacity. |
| KdTrees.OptimizeLayout | sources/include/structures/KdTree.hpp:526-561 | optimize lays out, within the capacity, a kd-ordered tree holding exactly the stored elements. |
| KdQueries.Dist2 | sources/include/structures/KdTree.hpp:764-767 | The squared distance is never negative. |
| KdQueries.DistAtLeastAxis | sources/include/structures/KdTree.hpp:748-760 | The squared distance is at least the squared gap along any one axis. |
| KdQueries.InRadiusMembers | sources/include/structures/KdTree.hpp:764-771 | The reference set: exactly the stored elements strictly inside the sphere. |
| KdQueries.TreeQuery | sources/include/structures/KdTree.hpp:737-774 | The search only appends; it fails only with at least max_size elements, and always fails on a node when already at max_size. |
| KdQueries.KeepContents | sources/include/structures/KdTree.hpp:769-771 | Keeping a node adds it to the found multiset exactly when it is inside. |
| KdQueries.NodeInRadius | sources/include/structures/KdTree.hpp:737-774 | The elements in the sphere of a node are those of both sides and the node's own. |
| KdQueries.TreeQuerySound | sources/include/structures/KdTree.hpp:737-774 | The search adds only elements of the tree inside the sphere. |
| KdQueries.FarSideEmpty | sources/include/structures/KdTree.hpp:753-760 | Nothing beyond a splitting plane at least the radius away lies inside the sphere. |
| KdQueries.PruneStep | sources/include/structures/KdTree.hpp:753-760 | When the plane does not cut the sphere, neither the node nor its far side lies inside it. |
| KdQueries.CompletePruned | sources/include/structures/KdTree.hpp:748-773 | A completed step that skips the far side finds every element inside. |
| KdQueries.CompleteBothSides | sources/include/structures/KdTree.hpp:748-773 | A completed step over both sides finds every element inside. |
| KdQueries.TreeQueryComplete | sources/include/structures/KdTree.hpp:737-774 | On a kd-ordered tree a search that completes finds exactly the elements inside the sphere. |
| KdQueries.InRadiusInContents | sources/include/structures/KdTree.hpp:764-771 | The elements inside the sphere are stored elements. |
| KdQueries.ArrayQuery | sources/include/structures/KdTree.hpp:737-774 | On the slot array the search only appends elements inside the sphere, and fails only with max_size elements. |
| KdQueries.ArrayIsTree | sources/include/structures/KdTree.hpp:741-760 | On a laid-out tree, searching from slot j is searching the subtree stored there. |
| KdQueries.LayoutRadiusQuery | sources/include/structures/KdTree.hpp:737-774 | The search from the root of a laid-out kd tree reports only stored elements inside the sphere, and all of them when it completes. |
| KdQueries.OptimizedRadiusQuery | sources/include/structures/KdTree.hpp:737-774 | After optimize, the radius search reports only stored elements inside the sphere, no more copies than are stored, and all of them when it completes. |
| KdQueries.NearestElement | sources/include/structures/KdTree.hpp:567-600 | getNearestElement is none for an empty tree; otherwise the first element of the descent at the least squared distance. |
| KdQueries.KeepNearest | sources/include/structures/KdTree.hpp:644-649 | The sort and cut keep min(n, count) found elements, ordered by distance. |
| KdQueries.KeepNearestDropsFarther | sources/include/structures/KdTree.hpp:644-649 | Every element cut away is at least as far as every element kept. |
| KdQueries.WithinTwice | sources/include/structures/KdTree.hpp:611-638 | Elements inside a radius up to twice the given one are inside twice the given one. |
| KdQueries.BisectRadius | sources/include/structures/KdTree.hpp:610-642 | The bisection ends on a search whose radius stays between 0 and twice the given one, and every element it found is inside that radius. |
| KdQueries.NearestNeighbors | sources/include/structures/KdTree.hpp:607-663 | getNearestNeighbor returns the nearest neighborsNb of what one radius search (up to twice neighborsNb elements, at a radius between 0 and twice the given one) found, sorted by distance and inside twice the radius; the result is the last one's squared distance, which bounds all of them, or 1 when none was found. |
| KdQueries.NearestAreStored | sources/include/structures/KdTree.hpp:607-663 | On an optimized tree the neighbors kept are stored elements, none reported more often than it is stored. |
| TextureAdjacency.SetRGB | sources/src/structures/Texture.cpp:62-73 | The colour keeps R+G+B as its sum; r and g are the shares of R and G in it, and all three are 0 for a zero sum. |
| TextureAdjacency.ChromaticityScale | sources/src/structures/Texture.cpp:62-73 | Scaling a colour by k > 0 keeps its chromaticities and scales its sum. |
| TextureAdjacency.ChromaticityBounds | sources/src/structures/Texture.cpp:62-73 | For non-negative components r and g are non-negative and r + g <= 1. |
| TextureAdjacency.DistanceFrom | sources/src/structures/Texture.cpp:105-108 | The chromaticity distance is never negative. |
| TextureAdjacency.DistanceLaws | sources/src/structures/Texture.cpp:105-108 | The distance is symmetric and is 0 exactly between colours of equal chromaticities. |
| TextureAdjacency.NewSegment | sources/src/structures/Texture.cpp:110-115 | A new segment joins its two points and has no area attached (kERROR). |
| TextureAdjacency.SegmentContains | sources/src/structures/Texture.cpp:120-125 | A segment contains exactly its two ends. |
| TextureAdjacency.SetArea1 | sources/src/structures/Texture.cpp:135-138 | SetArea1 attaches the area and border and keeps the ends. |
| TextureAdjacency.NewArea | sources/src/structures/Texture.cpp:148-160 | A new area has the three given vertices and no neighbours (kERROR). |
| TextureAdjacency.AreaFromSegment | sources/src/structures/Texture.cpp:162-174 | An area built from a segment is the area of its two ends and the third point. |
| TextureAdjacency.ContainsIsEdge | sources/src/structures/Texture.cpp:178-204 | For a triangle of distinct vertices Contains holds exactly for its edges, in either orientation. |
| TextureAdjacency.ThirdPoint | sources/src/structures/Texture.cpp:206-214 | ThirdPoint returns a vertex, and one off the segment whenever such a vertex exists. |
| TextureAdjacency.EdgeAndThirdPoint | sources/src/structures/Texture.cpp:162-214 | An edge and its opposite vertex rebuild a triangle with the same, distinct, vertices. |
| TextureAdjacency.SetNeighbor | sources/src/structures/Texture.cpp:240-250 | SetNeighbor replaces the neighbour across border 1, 2 or 3, keeps the others and the vertices, and ignores any other border. |
| TextureAdjacency.FindSegmentFrom | sources/src/structures/Texture.cpp:712-722 | The search from i returns the first index joining the two points, or kERROR exactly when none does. |
| TextureAdjacency.FindSegment | sources/src/structures/Texture.cpp:712-722 | FindSegment returns kERROR or an index of the list. |
| TextureAdjacency.FindSegmentLaws | sources/src/structures/Texture.cpp:712-722 | The search ignores the order of the two points, fails exactly when no segment joins them, and otherwise finds the first that does. |
| TextureAdjacency.SegmentAlreadyExists | sources/src/structures/Texture.cpp:724-729 | TheSegmentAlreadyExists holds exactly when some segment joins the two points. |
| TextureAdjacency.FirstContaining | sources/src/structures/Texture.cpp:694-710 | The first area containing the segment, none before it. |
| TextureAdjacency.CountNone | sources/src/structures/Texture.cpp:694-710 | No area before the first containing one contains the segment. |
| TextureAdjacency.IndexOfTheThirdPoint | sources/src/structures/Texture.cpp:694-710 | kERROR when no area contains the segment, the opposite vertex in the one area that does, and -2 when several do. |
| TextureAdjacency.CountGrows | sources/src/structures/Texture.cpp:694-710 | A longer prefix never holds fewer containing areas. |
| TextureBrdf.Wrap | sources/src/materials/TextureBRDF.cpp:86-102 | Off keeps the coordinate; repeat subtracts its truncation; mirror does that on even tiles and reflects on odd ones. |
| TextureBrdf.WrapInTile | sources/src/materials/TextureBRDF.cpp:86-102 | For a non-negative coordinate both repeating modes land in [0, 1], and repeat in [0, 1). |
| TextureBrdf.RepeatPeriodic | sources/src/materials/TextureBRDF.cpp:86-89 | Repeat has period one on non-negative coordinates. |
| TextureBrdf.MirrorPeriodic | sources/src/materials/TextureBRDF.cpp:90-93 | Mirror has period two on non-negative coordinates. |
| TextureBrdf.MirrorReflects | sources/src/materials/TextureBRDF.cpp:90-93 | On [0, 2] mirror reflects the second tile onto the first, so tiles meet without a seam. |
| TextureBrdf.TexturePoint | sources/src/materials/TextureBRDF.cpp:84-104 | A repeating mode maps a non-negative scaled coordinate into the texture's unit square. |
| TextureBrdf.Blend | sources/src/materials/TextureBRDF.cpp:134-136 | alpha 0 gives the embedded radiance, alpha 1 the texture's, and the result moves from the embedded value by alpha times the gap. |
| TextureBrdf.BlendBetween | sources/src/materials/TextureBRDF.cpp:134-136 | An alpha in [0, 1] gives a radiance between the two it mixes. |
| TextureBrdf.MapReflectionLaws | sources/src/materials/TextureBRDF.cpp:107-132 | The texture's own reflection is linear in the amount, zero for light arriving grazing, and never negative for non-negative radiances, texels, cosine and amount. |
| TextureBrdf.GuardsCompare | sources/src/materials/TextureBRDF.cpp:73-174 | The diffuse guard clears whenever the specular one does; they differ exactly when cosOv > 0 and cosOi < 0. |
| TextureBrdf.Reemited | sources/src/materials/TextureBRDF.cpp:106-138 | Without alpha the texture's reflection; with alpha each band is the blend embedded * (1 - alpha) + reflection * alpha, hence the embedded light at alpha 0, the reflection at alpha 1, and a value between the two for alpha in [0, 1]. |
| TextureBrdf.TexturedReemited | sources/src/materials/TextureBRDF.cpp:62-174 | Light the guard rejects is cleared; otherwise the result is the texture read at the wrapped point, blended as above. |
| Complexes.ISquared | sources/include/maths/Complex.hpp:246-279 | i() squared is -1. |
| Complexes.SquareAbs | sources/include/maths/Complex.hpp:155-158 | The squared modulus is never negative and is 0 only for 0. |
| Complexes.NormZero | sources/include/maths/Complex.hpp:155-158 | x^2 + y^2 is non-negative and vanishes only when x = y = 0. |
| Complexes.Div | sources/include/maths/Complex.hpp:264-270 | Division by a nonzero complex number is undone by multiplying back. |
| Complexes.DivisionUndone | sources/include/maths/Complex.hpp:264-270 | The quotient's formula times the divisor gives the dividend. |
| Complexes.ConjugateLaws | sources/include/maths/Complex.hpp:147-158 | Conjugation is an involution that commutes with sums and products, and z times its conjugate is the squared modulus. |
| Complexes.AddLaws | sources/include/maths/Complex.hpp:216-234 | Addition is commutative and associative with 0 as unit, and subtraction undoes it. |
| Complexes.MulLaws | sources/include/maths/Complex.hpp:216-249 | Multiplication is commutative, has 1 as unit and distributes over addition. |
| Complexes.MulAssociative | sources/include/maths/Complex.hpp:246-249 | Multiplication is associative. |
| Complexes.DivSelf | sources/include/maths/Complex.hpp:264-270 | A nonzero number divided by itself is 1. |
| Complexes.AddRealComplex | sources/include/maths/Complex.hpp:211-214 | Real + Complex is the complex sum with the real seen as complex. |
| Complexes.AddComplexReal | sources/include/maths/Complex.hpp:221-224 | Complex + Real is the complex sum with the real seen as complex. |
| Complexes.SubRealComplexAsWrittenDiffers | sources/include/maths/Complex.hpp:226-229 | The written Real - Complex agrees with complex subtraction exactly when the subtrahend is real. |
| Complexes.ZeroMinusIAsWritten | sources/include/maths/Complex.hpp:226-229 | As written, 0 - i gives i. |
| Complexes.SubRealComplex | sources/include/maths/Complex.hpp:226-229 | The corrected Real - Complex is complex subtraction, and adding the subtrahend back gives the real. |
| Complexes.ZeroMinusI | sources/include/maths/Complex.hpp:226-229 | The corrected 0 - i gives -i. |
| Complexes.SubComplexReal | sources/include/maths/Complex.hpp:236-239 | Complex - Real is complex subtraction of the real seen as complex. |
| Complexes.MulRealComplex | sources/include/maths/Complex.hpp:241-244 | Real * Complex is the complex product with the real seen as complex. |
| Complexes.MulComplexReal | sources/include/maths/Complex.hpp:251-254 | Complex * Real is the complex product with the real seen as complex. |
| Complexes.DivRealComplex | sources/include/maths/Complex.hpp:256-262 | Real / Complex is the complex quotient with the real seen as complex. |
| Complexes.DivComplexReal | sources/include/maths/Complex.hpp:272-275 | Complex / Real is the complex quotient by the real seen as complex. |
| Complexes.DivCancel | sources/include/maths/Complex.hpp:272-275 | (a*x)/(x*x) is a/x for x != 0. |
| Common.Minimum | Common/common.hpp:65-69 | minimum is at most both arguments and is one of them. |
| Common.Maximum | Common/common.hpp:71-75 | maximum is at least both arguments and is one of them. |
| Common.MinMaxPair | Common/common.hpp:65-75 | minimum and maximum together are the two arguments in order, whatever their order. |
| Common.TextureModeNames | Common/common.hpp:101-123 | Reading a mode's name back gives the mode for the three enumerators; any other value is named like kTextureOff. |
| Common.EnvironmentTypeNames | Common/common.hpp:131-152 | Reading a type's name back gives the type for the three enumerators; any other value is named like kSphereMapping. |
| Common.AxisNames | Common/common.hpp:157-178 | Reading an axis name back gives the axis for the three enumerators; any other value is named like kAxisX. |
| Common.MediumFlagsDecode | Common/common.hpp:189-197 | A medium type or-ed from the flags tells exactly which properties were chosen. |
| Common.MediumFlagsDistinct | Common/common.hpp:192-197 | The four flags share no bit. |
| SampledMaterial.Clamp | sources/include/materials/SampledMaterial.hpp:148-151 | A coordinate is kept when in range, raised to 0 below and lowered to count-1 at or past the count. |
| SampledMaterial.GetIndex | sources/include/materials/SampledMaterial.hpp:146-154 | The unsigned index is below 2^32 and equals the raw index when that fits. |
| SampledMaterial.AnglesClamped | sources/include/materials/SampledMaterial.hpp:148-153 | Out-of-range angles read the border entries of the table. |
| SampledMaterial.LambdaNotClamped | sources/include/materials/SampledMaterial.hpp:153 | The wavelength is the innermost, unclamped coordinate: the next sample is the next index. |
| SampledMaterial.IndexRoundTrip | sources/include/materials/SampledMaterial.hpp:153 | In-range coordinates give an index inside the table that decodes back to them. |
| SampledMaterial.IndexInjective | sources/include/materials/SampledMaterial.hpp:153 | Distinct in-range coordinates never share a table entry. |
| PhotonExport.EncodeU32 | sources/src/renderers/PhotonMappingRenderer.cpp:282-287 | An unsigned int takes 4 bytes. |
| PhotonExport.DecodeU32 | sources/src/renderers/PhotonMappingRenderer.cpp:226-235 | Four bytes read back a value below 2^32. |
| PhotonExport.U32RoundTrip | sources/src/renderers/PhotonMappingRenderer.cpp:226-282 | Reading the 4 bytes written for x gives x, whatever follows. |
| PhotonExport.FlattenLength | sources/src/renderers/PhotonMappingRenderer.cpp:289-290 | n photons of the same size take n times that size. |
| PhotonExport.MapBlock | sources/src/renderers/PhotonMappingRenderer.cpp:287-290 | One map takes 4 bytes plus its photons. |
| PhotonExport.ObjectBlock | sources/src/renderers/PhotonMappingRenderer.cpp:286-301 | One object takes 12 bytes plus the photons of its three maps. |
| PhotonExport.ObjectBlocks | sources/src/renderers/PhotonMappingRenderer.cpp:286-301 | All objects take 12 bytes each plus all their photons. |
| PhotonExport.ExportData | sources/src/renderers/PhotonMappingRenderer.cpp:261-302 | The buffer has the size computed up front: 12 + 12 per object + the photons. |
| PhotonExport.ReadPhotons | sources/src/renderers/PhotonMappingRenderer.cpp:239-240 | A successful read returns the n photons asked for. |
| PhotonExport.ReadObjects | sources/src/renderers/PhotonMappingRenderer.cpp:233-258 | A successful read returns the n objects asked for. |
| PhotonExport.InitWithData | sources/src/renderers/PhotonMappingRenderer.cpp:214-259 | A successful read holds one entry per scene object, and a map count other than the scene's is an error. |
| PhotonExport.ReadPhotonsRoundTrip | sources/src/renderers/PhotonMappingRenderer.cpp:239-290 | Reading back flattened photons gives them and the rest of the buffer. |
| PhotonExport.ReadMapRoundTrip | sources/src/renderers/PhotonMappingRenderer.cpp:235-290 | Reading back a map block gives the map. |
| PhotonExport.ReadObjectRoundTrip | sources/src/renderers/PhotonMappingRenderer.cpp:233-301 | Reading back an object block gives its three maps. |
| PhotonExport.ReadObjectsRoundTrip | sources/src/renderers/PhotonMappingRenderer.cpp:233-301 | Reading back all object blocks gives the objects. |
| PhotonExport.ExportRoundTrip | sources/src/renderers/PhotonMappingRenderer.cpp:214-302 | InitWithData restores what ExportData wrote for a scene with as many objects, and throws for any other count. |
| PhotonExport.PhotonPower | sources/src/renderers/PhotonMappingRenderer.cpp:304-326 | Each photon carries the total source power divided by the number of photons. |
| XmlSpectrum.ScanFrom | python/solar/XMLSpectrum.py:95-101 | The scan from i finds the first sample at or above 560 nm, or reports that none reaches it. |
| XmlSpectrum.Reference | python/solar/XMLSpectrum.py:95-101 | The reference sample is the first at or above 560 nm; none when the spectrum stays below. |
| XmlSpectrum.Scale | python/solar/XMLSpectrum.py:106 | Scaling keeps every wavelength and multiplies every power by the same factor. |
| XmlSpectrum.Normaliser | python/solar/XMLSpectrum.py:86-108 | normaliser fails (IndexError or ZeroDivisionError) exactly when no sample reaches 560 nm or its power is 0; otherwise it scales all powers so that the reference sample reads 100. |
| XmlSpectrum.SameReference | python/solar/XMLSpectrum.py:95-101 | Spectra with the same wavelengths have the same reference sample. |
| XmlSpectrum.NormaliserIdempotent | python/solar/XMLSpectrum.py:86-108 | Normalising a normalised spectrum changes nothing. |
| XmlSpectrum.KeepInterval | python/solar/XMLSpectrum.py:37-80 | The window keeps only samples strictly inside (lo, hi) and never adds any. |
| XmlSpectrum.KeepIntervalConcat | python/solar/XMLSpectrum.py:79-81 | Filtering a concatenation filters each part. |
| XmlSpectrum.KeepIntervalMembers | python/solar/XMLSpectrum.py:79-81 | A sample is kept exactly when it is in the data and strictly inside the window. |
| XmlSpectrum.KeepIntervalIdempotent | python/solar/XMLSpectrum.py:79-81 | Filtering twice is filtering once. |
| XmlSpectrum.FindFrom | python/solar/XMLSpectrum.py:54-57 | The search finds the first occurrence of the separator from i, or reports that there is none. |
| XmlSpectrum.Split | python/solar/XMLSpectrum.py:54-57 | str.split with a separator always gives at least one piece. |
| XmlSpectrum.SplitJoin | python/solar/XMLSpectrum.py:54-57 | Joining the pieces with the separator gives the text back, and no piece holds the separator. |
| XmlSpectrum.SplitFree | python/solar/XMLSpectrum.py:54-57 | A text without the separator splits into itself. |
| XmlSpectrum.SplitCons | python/solar/XMLSpectrum.py:54-57 | A separator-free head followed by the separator splits off as the first piece. |
| XmlSpectrum.SplitOfJoin | python/solar/XMLSpectrum.py:54-57 | Splitting a join of separator-free pieces gives the pieces back. |
| XmlSpectrum.NoPairFree | python/solar/XMLSpectrum.py:54-57 | A text without the separator's first two characters in a row holds no separator. |
| XmlSpectrum.NoPairConcat | python/solar/XMLSpectrum.py:54-57 | Two such texts stay so when joined without creating the pair at the seam. |
| XmlSpectrum.NoPairWithout | python/solar/XMLSpectrum.py:54-57 | A text without the first character has no such pair. |
| XmlSpectrum.NumericFields | python/solar/XMLSpectrum.py:58 | The filter fails (IndexError) exactly on an empty field, and otherwise keeps fields of the piece that start with a digit or '.'. |
| XmlSpectrum.ToFloats | python/solar/XMLSpectrum.py:59 | map(float) fails exactly when some field is not a number, and otherwise reads each field in order. |
| XmlSpectrum.ReadEntries | python/solar/XMLSpectrum.py:56-61 | Each piece gives at most one sample. |
| XmlSpectrum.XmlToArray | python/solar/XMLSpectrum.py:44-64 | XMLtoArray gives at most one sample per "<entry" piece. |
| XmlSpectrum.SeparatorsHeadUnique | python/solar/XMLSpectrum.py:54-57 | The quote and "<entry" separators cannot overlap themselves. |
| XmlSpectrum.NoQuoteFree | python/solar/XMLSpectrum.py:57 | A text without a quote character holds no quote separator. |
| XmlSpectrum.FieldsSplit | python/solar/XMLSpectrum.py:57-81 | An entry as ArraytoXML writes it splits at quotes into the two attribute names, the two numbers and the tail. |
| XmlSpectrum.FieldsAppend | python/solar/XMLSpectrum.py:81-82 | Appending after an entry appends to its tail. |
| XmlSpectrum.NumericEntryFields | python/solar/XMLSpectrum.py:58-81 | Of those fields exactly the two numbers pass the filter. |
| XmlSpectrum.EntryBodyRead | python/solar/XMLSpectrum.py:55-81 | The written entry, alone or followed by the closing tag, reads back as its sample. |
| XmlSpectrum.TagRead | python/solar/XMLSpectrum.py:55-78 | A tag without quotes reads as no sample. |
| XmlSpectrum.BodyFree | python/solar/XMLSpectrum.py:54-81 | A written entry holds no "<entry" of its own. |
| XmlSpectrum.ReadEntriesCons | python/solar/XMLSpectrum.py:56-61 | Reading a piece then the rest concatenates what each gives. |
| XmlSpectrum.EntryPiece | python/solar/XMLSpectrum.py:54-82 | A written entry is one separator-free piece that reads back as its sample. |
| XmlSpectrum.ReadPieces | python/solar/XMLSpectrum.py:54-82 | The pieces of the written entries read back as the samples, in order. |
| XmlSpectrum.HeadFree | python/solar/XMLSpectrum.py:54-78 | The comment line and opening tag hold no "<entry" and no quote, and start with '<'. |
| XmlSpectrum.ArrayToXmlRoundTrip | python/solar/XMLSpectrum.py:44-84 | XMLtoArray reads back exactly the samples ArraytoXML kept, when the comment has no quote or '<' and every number prints as a non-negative text that float() reads back. |
| Animation.Digit | python/solar/Animation.py:83-84 | A digit character whose value is d. |
| Animation.NatToString | python/solar/Animation.py:83-84 | str(i) of an index is a non-empty run of decimal digits. |
| Animation.NatToStringRoundTrip | python/solar/Animation.py:83-84 | Reading str(i) back as a decimal gives i. |
| Animation.NatToStringInjective | python/solar/Animation.py:83-84 | Different indices print differently. |
| Animation.SplitPathExample | python/solar/Animation.py:43-47 | os.path.split of the docstring's path gives its directory and file name. |
| Animation.SplitExtExample | python/solar/Animation.py:43-48 | os.path.splitext of the docstring's file name gives "exemple" and ".xml". |
| Animation.JoinExample | python/solar/Animation.py:43-53 | The joins of the docstring's example give its result path. |
| Animation.EditerNomExample | python/solar/Animation.py:43-45 | _editerNom reproduces the docstring's example. |
| Animation.EditerNomPlacement | python/solar/Animation.py:32-54 | The new name splits into the sub-directory of the original's directory and the original root followed by the index and the extension. |
| Animation.EditerNomKeepsExtension | python/solar/Animation.py:50-51 | Without an explicit extension the new name keeps the original's extension. |
| Animation.RootNotDots | python/solar/Animation.py:48 | A slash-free name with an extension has a root that is not all dots. |
| Animation.XmlExtensionCheck | python/solar/Animation.py:69-70 | The slice test accepts exactly the names ending in ".xml", short names included. |
| Animation.Interleave | python/solar/Animation.py:82-83 | Replacing the empty key puts the value around every character. |
| Animation.ReplaceAbsent | python/solar/Animation.py:82-83 | A text without the key is left as it is. |
| Animation.ReplaceSame | python/solar/Animation.py:82-83 | Replacing a key by itself changes nothing. |
| Animation.ReplaceOnce | python/solar/Animation.py:82-83 | A key occurring once is replaced by the value in place. |
| Animation.ReplaceUndone | python/solar/Animation.py:82-83 | The reverse substitution undoes a substitution when the value does not occur around the keys. |
| Animation.GenererScenes | python/solar/Animation.py:56-89 | genererScenes raises exactly for a name not ending in ".xml"; otherwise one scene per parameter, the keys replaced by the parameter and the image name. |
| Animation.ScenesNamedApart | python/solar/Animation.py:81-84 | No two scenes are written to the same file. |
| Animation.AppendCancel | python/solar/Animation.py:84 | Equal names with equal prefix and suffix have equal middles. |
| Animation.ScenesWithoutKeys | python/solar/Animation.py:81-83 | A template holding neither key is copied unchanged into every scene. |
| Animation.ParametresAnimation | python/solar/Animation.py:91-110 | int(t * ips) frames (none when that is not positive), frame a carrying a * dlambda / ips. |
| Animation.ParametresProgress | python/solar/Animation.py:91-110 | Frames start at 0, advance by dlambda / ips and stay below t * dlambda. |
| Animation.FrameBeforeEnd | python/solar/Animation.py:110 | A frame before the end carries a value below t * dlambda. |
| Animation.FrameStep | python/solar/Animation.py:110 | Successive frames differ by dlambda / ips. |
| Animation.ParametresExampleLength | python/solar/Animation.py:102-107 | The docstring's example has 50 frames. |
| Animation.ParametresExampleValues | python/solar/Animation.py:102-107 | The docstring's example has 50 values, starting 0.0, 0.04 and ending 1.96. |
| PosixPath.RFind | python/solar/Animation.py:47-48 | rfind gives the last index of the character, or -1 when it is absent. |
| PosixPath.RStrip | python/solar/Animation.py:47 | rstrip removes exactly the trailing run of the character. |
| PosixPath.Join | python/solar/Animation.py:49-53 | os.path.join ends with its second part; an absolute second part replaces the first; otherwise one slash is put between. |
| PosixPath.SplitPath | python/solar/Animation.py:47 | os.path.split gives a slash-free tail ending the path, and a head that is a prefix of it. |
| PosixPath.SplitExt | python/solar/Animation.py:48 | os.path.splitext cuts the path into root and extension, an extension being a dot with no further dot or slash, present exactly when the name has one. |
| PosixPath.SplitOfJoin | python/solar/Animation.py:47-53 | Splitting the join of a canonical directory and a plain name gives them back. |
| PosixPath.RStripOne | python/solar/Animation.py:47 | rstrip of one trailing slash removes it. |
| PosixPath.JoinOfSplit | python/solar/Animation.py:47-49 | Joining the halves of a split gives back a path without double slashes. |
| PosixPath.SplitExtOf | python/solar/Animation.py:48-53 | A slash-free root not made only of dots, followed by an extension, splits into them. |
| VirtualSun.NewSunUnplaced | python/solar/VirtualSun.py:40-49 | A new sun is not placed, and it is night. |
| VirtualSun.JourMonotone | python/solar/VirtualSun.py:44-49 | A higher sun is no less in the day. |
| VirtualSun.FractionalDay | python/solar/VirtualSun.py:60 | The time of day adds less than one day to the day of the month. |
| VirtualSun.ShiftedYearMonth | python/solar/VirtualSun.py:62-64 | January and February become months 13 and 14 of the year before, keeping the month count. |
| VirtualSun.J2000 | python/solar/VirtualSun.py:51-81 | Noon of 1 January 2000 is Julian day 2451545, the epoch placer subtracts. |
| VirtualSun.NextDay | python/solar/VirtualSun.py:51-68 | The next day of the month is one Julian day later. |
| VirtualSun.TimeOfDay | python/solar/VirtualSun.py:51-68 | The time of day moves the Julian day within one day of midnight. |
| VirtualSun.Floor365 | python/solar/VirtualSun.py:68 | int(365.25 * y) is 365y + y/4. |
| VirtualSun.CorrectionStep | python/solar/VirtualSun.py:66-67 | The Gregorian correction drops by one at century years, except every fourth. |
| VirtualSun.JulianDayTerms | python/solar/VirtualSun.py:51-68 | The Julian day's year term is integer arithmetic. |
| VirtualSun.YearTermStep | python/solar/VirtualSun.py:66-68 | Consecutive shifted years differ by 366 days for a Gregorian leap year and 365 otherwise. |
| VirtualSun.QuarterStep | python/solar/VirtualSun.py:68 | y/4 grows by one exactly at multiples of 4. |
| VirtualSun.YearLength | python/solar/VirtualSun.py:51-68 | The same date a year later is 366 days later when a Gregorian 29 February lies between, 365 otherwise. |
| VirtualSun.Azimuth | python/solar/VirtualSun.py:108-111 | The azimuth lies in [0, 360], in the western half exactly when its sine is negative. |
| VirtualSun.AzimuthMirror | python/solar/VirtualSun.py:108-111 | Opposite sines give azimuths mirrored across north. |
| VirtualSun.Place | python/solar/VirtualSun.py:70-111 | placer places the sun at the given altitude, with an azimuth in [0, 360], and it is day exactly above -0.25 degrees. |
| VirtualSun.RadiusAsWrittenTooSmall | python/solar/VirtualSun.py:175 | As written, with a float distance, the sun looks 16/3 arc minutes wide, six times smaller than intended. |
| VirtualSun.IntDistanceRadius | python/solar/VirtualSun.py:175 | With an int distance, Python 2 floors `distance * 16 / 360`: any distance from 0 to 22, the 10 of the module docstring's usage example among them, gives radius 0. |
| VirtualSun.RadiusAsWrittenFacts | python/solar/VirtualSun.py:175 | The radius as written is 16/3 arc minutes wide for a positive float distance and 0 for an int distance below 23. |
| VirtualSun.RadiusApparentDiameter | python/solar/VirtualSun.py:175 | The corrected radius gives the 32 arc minutes of the comment. |
| VirtualSun.PowerIrradiance | python/solar/VirtualSun.py:182 | The power is 200 per unit area of the sphere of the distance (pi as 3.14), so doubling the distance quadruples it. |
| VirtualSun.GenererXml | python/solar/VirtualSun.py:156-182 | genererXML raises exactly for an unplaced sun; otherwise it gives the power of the distance, the comment and the spectrum, and the radius as written: 16/3 arc minutes wide for a positive float distance, 0 for an int distance below 23. |
| VirtualSun.CenterAtDistance | python/solar/VirtualSun.py:172-174 | The sun's centre lies at the given distance from the origin. |
| VirtualSun.SphericalNorm | python/solar/VirtualSun.py:172-174 | The centre's coordinates are spherical coordinates of radius the distance. |
| VirtualSun.Attenuate | python/solar/VirtualSun.py:141-142 | Each power is multiplied by the transmission at its wavelength, wavelengths kept. |
| VirtualSun.GenererSpectre | python/solar/VirtualSun.py:113-154 | genererSpectre raises for an unplaced sun and when normaliser fails; otherwise the file is Soleil<indice>.xml in the folder and the reference sample of the spectrum reads 100. |

## Left out

- Floating-point rounding, NaN and infinities: reals are exact, so each division by zero the source can perform is either excluded by a requires or made an error value; each one is named on a line below.
- TaskGrid.SetBaseParameters: requires a positive task width and height; the source divides the image size by them.
- TaskBlocks.ResolveChunkAsWritten: requires a positive OpenMP thread count when the chunk is -1; the source divides the task count by it.
- TaskBlocks.InitializeBlocks: requires a positive chunk and MPI process count; the source divides and takes the remainder by them (a zero chunk is the finding below).
- OpenHashMap.New: requires a positive capacity; with none every later probe takes a remainder by 0.
- Complexes.DivRealComplex: requires a nonzero divisor; the source divides by its zero norm.
- Complexes.DivComplexReal: requires a nonzero real divisor; the source divides both parts by it.
- KdQueries.NearestNeighbors: the first search starts from an empty result; the source appends to the caller's vector without clearing it (sources/include/structures/KdTree.hpp:617), and every caller passes an empty or cleared one.
- 32-bit integer widths: a wrap-around is written out only in the string hash, the int-to-unsigned hash and the sampled-material index; elsewhere integers are unbounded, since the image, task and photon counts the source uses stay far from the limits.
- Spiral.RecursiveSpiral: takes a fuel bound and answers None when it runs out; the source recursion has no bound, and its termination is not proved here.
- Spiral.CreateTaskList: inherits the fuel bound of RecursiveSpiral.
- Spectra.GetIndexOfWavelength: requires at least two wavelengths; with one the source loops forever, and with none it reads out of bounds.
- Spectra.Normalize: a spectrum with no positive value is a Failure, where the source divides by a maximum of 0.
- Spectra.NormalizePower: a spectrum summing to 0 is a Failure, where the source divides by 0.
- PhotonExport.InitWithData: a buffer too short for its counts is a Failure, where the source reads past its end; float powers are kept as 32-bit patterns and never converted.
- OpenHashMap.Get, OpenHashMap.Contain, OpenHashMap.Add: a Failure stands for the probe loop that never ends once no free slot is reachable.
- BandQueue.InitCamera: the image of a camera starts dark; the source first loads the camera's existing output file to resume a render (sources/src/raytracers/OldTaskManager.cpp:145-158) and clears the image only when that load fails, and file input is not modelled.
- BandQueue.UpdateImage: the progress line divides by ymax - ymin (sources/src/raytracers/OldTaskManager.cpp:194), a division by zero when the window is one line high; printing is not modelled, so that input is not flagged.
- Complexes.Div: requires a nonzero divisor; the source divides by a zero norm.
- PhotonExport.PhotonPower: requires at least one photon; the source divides by a zero photon count.
- XmlParser.AddAll: an attribute insert fails as OpenHashMap.Add does when no free slot is reachable, and the parse then fails; the source loops forever there.
- AttributeReaders.GetRealValue: strtod is a parameter; its parsing of decimal and exponent forms is not modelled.
- HashFunctors.SignedChar: a character is one byte, its code modulo 256; keys holding multi-byte UTF-8 characters are not modelled.
- Spectra.Normalize560: the band holding 560 nm is a parameter; the source finds it with getIndexOfWavelength(560).
- VirtualSun.Radius: the corrected radius takes the distance as a real; the as-written radius takes an int or a float and floors an int product as Python 2 does.
- LightVectors.Add: the geometry of the framework change (cross products, normalisation and atan2) is not modelled; the turn comes in as the cosine and sine of twice the angle.
- LightVectors.Flip: the change of polarisation framework is not modelled; only the flipping of every band is.
- The LightVector copy constructor and assignment: Dafny values are immutable, so a copy is the value itself.
- Complex abs, arg, sqrt, cos, sin and setFromTrigo: transcendental functions, outside exact real arithmetic.
- BoundingBoxes.CanIntersect: only the case of an origin inside the box is stated; the slab tests for an outside origin are modelled without a completeness claim.
- Kd-tree queries that also filter by a normal vector: the same traversal as the plain radius query with an extra floating-point test.
- Texture geometry (IsInsideBorder, segment crossing, the matrices of the triangulation): floating-point geometry.
- Image file input and output, channel names and getMinAndMaxGreyLevel.
- Saving images and printing progress in OldTaskManager: output only.
- MPI and OpenMP communication: only the dealing of blocks to ranks is modelled.
- Python file reading and writing, directory creation, os.system, calculerScenes and print: input and output.
- Python float() and str() on numbers: passed in as functions, since their decimal formats are not modelled.
- VirtualSun.Place: the ephemeris trigonometry of placer is passed in as the altitude, the acos of the azimuth and the sine of the azimuth.
- VirtualSun.GenererSpectre: the atmospheric attenuation, exp and the Python 2 integer division 32/3 == 10 in its exponent are passed in as one transmission function.
- VirtualSun.GenererXml: the numbers of the source block are modelled, not the XML text they are formatted into.
- The datetime day is not checked against the month's length; Python's datetime guarantees it.
- toXMLSpectrum: only its wavelength filter is modelled, not the parsing of its input lines.
- Animation.Replace: str.replace with an empty key is modelled as inserting the value around every character, as Python does.

## Findings

| source | as written | input that shows it | evidently intended | confidence | as-written member | corrected member |
|---|---|---|---|---|---|---|
| sources/include/maths/Complex.hpp:226-229 | operator-(Real, Complex) keeps the imaginary part of the subtrahend | 0 - i evaluates to i | the imaginary part negated, so 0 - i is -i | not executed | Complexes.SubRealComplexAsWrittenDiffers | Complexes.SubRealComplex |
| python/solar/VirtualSun.py:175 | rayon = distance * 16 / 360 * pi / 180 | any float distance > 0: the sun spans 16/3 arc minutes (an int distance below 23, such as the 10 of the docstring's example at line 22, even gives radius 0) | 16/60 of a degree, the 32 arc minutes of the apparent diameter | not executed | VirtualSun.RadiusAsWrittenTooSmall | VirtualSun.RadiusApparentDiameter |
| sources/src/core/taskexecutor/ClientServerExecutor.cpp:213-219 | a chunk of -1 becomes nb_tasks / nb_openmp_process | 3 tasks and 4 OpenMP threads: chunk 0, then t / chunk divides by zero | a chunk of at least 1 | not executed | TaskBlocks.ResolvedChunkCanBeZero | TaskBlocks.ResolveChunk |
