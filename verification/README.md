# A verified model of the web server's configuration, log, CRUD store, routing and form handling

The server reads an nginx-style configuration, routes requests to handlers by the
longest matching location, keeps objects of a CRUD service in files, logs through
two swapped buffers, and takes images out of posted forms. This project models the
five parts where its correctness is decided, in the form the code has (classes and
loops where the code mutates, functions where it computes), and proves what each
part promises over all inputs, all runs or all interleavings. `dafny verify
dfyconfig.toml` checks everything.

- **Configuration language** (`ConfigTree`, `ConfigLexer`, `ConfigGrammar`,
  `ConfigRoundTrip`, `ConfigCharacters`, `ConfigObjects`, `ConfigParser`). The lexer works on
  characters with one character of pushback; the parser builds the tree of heap objects through a
  stack of open blocks; the printer walks that tree. The parser is proved against a
  pushdown automaton, the automaton against the grammar `stmt+` with
  `stmt := word+ ';'` or `word+ '{' stmt* '}'`, and the printer against both: printing and
  parsing is the identity exactly on the printable trees, comments between tokens do
  not matter, and a bare word or comment that the end of the file cuts off is dropped
  without an error. A carriage return does not end a bare word, and quotes stay in the
  token, as in the code. `ConfigCharacters` says with the characters written out what separates
  words, what is a token of its own, and what the printer writes.
- **Double-buffered log** (`LoggingProtocol`, `LoggingObjects`). `LoggingProtocol` is a
  step system: any number of writers, the logging thread and the thread that ends the
  program, interleaved at the granularity of single reads and writes. `LoggingObjects`
  has the same objects and loops as the code, with an arbitrary schedule of the other
  threads let in between the reads. Nothing is lost, duplicated or reordered; when the
  loop exits, everything stored before the termination flag was set has been emitted.
  Which later entries are emitted is characterised exactly: those not stored in the window
  in which `empty` has already seen the first buffer empty while it is the available one. A run
  that loses an entry is given.
- **CRUD store** (`Text`, `CrudStore`, `CrudRuns`, `EntityIds`, `FileSystem`, `CrudFiles`,
  `CrudPaths`, `CrudFileManagers`, `CrudHandlers`, `CrudReplies`, `CrudService`). A file system
  is a map from paths to directories and texts. The id file is text, read and rewritten word by
  word; it is proved to be a map from entity names to recorded maxima, and files, directories
  and id file together to represent an abstract store. Names may have colons; stems tell the
  names of a set apart exactly when none continues another after a colon, and one that does has
  its word misread for the shorter name. The handlers are proved to answer and act as the store
  prescribes, over whole runs of requests, also to several data paths on one disk, and with the
  targets that routing splits: after an accepted configuration, a PUT to one spelling of an
  address is read back by a GET of any other, whatever calls to other addresses come in between,
  POSTs to the same entity included while no counter wraps. The record of an entity covers all
  ids written for it exactly until a request writes to an entity whose record stands at 2^64-1.
  While it covers them, the id of a POST is unused exactly if the record is below 2^64-1 or the
  id 0 is unused. Once it does not, a later POST can overwrite an object
  (`WrappedPostOverwrites`), even with a record below 2^64-1 (`PostAfterWrapRepeats`). What a PUT
  to a numeric id has written is read back exactly if the id has no slash; with one it is
  answered with 201 although nothing is stored. Dots in front of an id are followed segment by
  segment: a request disturbs objects of another entity exactly if it is a DELETE that they lead
  to one (`DotsReachOtherEntities`); without such dots none does.
  The answers are given word for word, and a client's reading of a listing gives its names back
  exactly if none of them holds a comma and a space.
- **Routing** (`Routing`, `CrudAddresses`, `ConfigInterpreters`, `ConfigTables`). Target
  normalisation is splitting at slashes and rejoining. Each of the three routing functions
  is proved to select the unique longest matching location of its tables; the order and
  partition of the tables do not matter exactly when that location is of one kind only. The
  static file handler always agrees with the dispatcher; the CRUD handler agrees exactly
  when the location is not an echo location as well, because the two scan these tables in
  opposite order. The interpreter of the configuration is proved to accept exactly the
  configurations in which every location is legal and named once, and its tables to be
  pairwise distinct, which discharges that condition; `ConfigTables` says, with handler names and
  keys written out, which statement fills which table. A CRUD address is split back
  into its parts exactly when the location does not end in a slash; after one that does, as
  after `/`, the entity name loses its first character. Conversely, the address determines the
  target exactly when a slash, or nothing, follows the location: any other character is dropped.
- **Form and reply of the app handler** (`FormExtraction`, `FormEncoding`, `FormRoundTrip`,
  `AppReplies`). The find-and-cut loop is modelled with the wrap-around of `npos` and the
  narrowing to `int`. Only the first line of a value is ever extracted. On encoded forms
  (RFC 7578, RFC 2046), with boundary lines or, as in the handler's unit tests, without them,
  the images come back in order exactly when the announced number is right and each is a single
  line; the form of the landing page reaches the handler unchanged exactly when every image and
  the text are single lines. A text of several lines, which the page's text area can send, is cut
  to its first. When more images are announced than sent, later text is taken for images, and an
  error is raised exactly beyond a number of rounds that is computed from what follows the last
  image. A missing field is not noticed unless the body is very short; a missing number of images
  raises an error unless the text taken for it begins with a number. The escaped caption, read
  by a JSON reader (RFC 8259, section 7), is the caption without line ends and tabs, exactly when
  the caption has no other control character.

## Model

| member | source | states |
|---|---|---|
| ConfigLexer.ParseToken | src/config_parser.cc:67-148 | the lexer loop with get and unget computes the state machine on the remaining text, and consumes at least one character unless it reports the end or an open quote |
| ConfigLexer.Scan | src/config_parser.cc:70-147 | a token that neither ends the input nor is an error makes the remaining text strictly shorter |
| ConfigLexer.ScanWord | src/config_parser.cc:104-137 | a bare or quoted word followed by a delimiter is read back as that word and nothing more |
| ConfigLexer.ScanYieldsWords | src/config_parser.cc:75-137 | every word the lexer yields, from any text, is bare or quoted in the sense the round trip needs |
| ConfigGrammar.SignificantTerminated | src/config_parser.cc:156-167 | the comment-free token stream of any text is finite and ends in exactly one end or error token |
| ConfigGrammar.RunSound | src/config_parser.cc:169-224 | the tree an accepting run returns derives exactly the tokens consumed, and each of its statements has a word |
| ConfigGrammar.DerivationIsAccepted | src/config_parser.cc:169-224 | every derivation of `stmt+` is accepted, with its own tree |
| ConfigGrammar.AcceptsExactlyDerivations | src/config_parser.cc:150-229 | the automaton accepts a token string with a tree if and only if that tree is non-empty, well formed and derives the string |
| ConfigGrammar.DepthCountsBraces | src/config_parser.cc:193-209 | at each step the stack depth is the initial depth plus opening minus closing braces |
| ConfigGrammar.RunRebased | src/config_parser.cc:150-229 | parsing into a configuration that already has statements appends the parsed tree and accepts the same texts |
| ConfigRoundTrip.RoundTrip | src/config_parser.cc:20-51 | for every tree and start depth, parsing the printed text gives the tree back if and only if the tree is non-empty and printable at every depth |
| ConfigRoundTrip.SignificantTree | src/config_parser.cc:20-51 | the printed text of a tree, followed by any text, is read as the derivation of the tree followed by the tokens of that text |
| ConfigRoundTrip.ParsedTreesArePrintable | src/config_parser.cc:150-229 | the tree of any successful parse meets the conditions of the round trip |
| ConfigRoundTrip.ParsingNormalises | src/config_parser.cc:150-229 | parse after print after parse equals parse, and printing a parsed tree is a normal form |
| ConfigRoundTrip.ParsesExactlyTheGrammar | src/config_parser.cc:150-229 | a text parses to a tree if and only if its comment-free tokens derive that tree from `stmt+` |
| ConfigRoundTrip.CommentsDoNotMatter | src/config_parser.cc:164-167 | a comment line anywhere between tokens, even inside a statement, changes neither tokens nor outcome |
| ConfigRoundTrip.CutOffTailIsDropped | src/config_parser.cc:141-147 | a bare word or comment cut off by the end of the file is dropped and the text judged without it |
| ConfigCharacters.WordIsRead | src/config_parser.cc:104-137 | a bare word, whose characters are written out, is read up to a blank, a tab, a line feed, a semicolon or a brace, and a blank behind it is dropped |
| ConfigCharacters.BlankIsSkipped | src/config_parser.cc:99-103 | blanks, tabs, line feeds and carriage returns between tokens mean nothing |
| ConfigCharacters.DelimitersAreRead | src/config_parser.cc:78-98 | semicolons and braces are tokens of their own |
| ConfigCharacters.QuotedIsRead | src/config_parser.cc:109-122 | a quoted word goes to the next quote of its kind and keeps its quotes |
| ConfigCharacters.CommentIsSkipped | src/config_parser.cc:124-129 | a comment goes to the next line feed or carriage return and is dropped |
| ConfigCharacters.OpenQuoteIsBroken | src/config_parser.cc:141-145 | a quote that is open at the end of the text breaks the parse |
| ConfigCharacters.OpenWordIsDropped | src/config_parser.cc:147-147 | a bare word at the end of the text is dropped |
| ConfigCharacters.IndentIsSpaces | src/config_parser.cc:30-32 | the indentation is two spaces for each level, and none for a negative one |
| ConfigCharacters.WordsAreSpaced | src/config_parser.cc:33-38 | words are printed with one space between them |
| ConfigCharacters.StatementIsALine | src/config_parser.cc:39-50 | a statement is printed as a line that ends in a semicolon, a block as a line that ends in a brace, its body one level deeper, and a closing line |
| ConfigCharacters.TreeIsPrintedInOrder | src/config_parser.cc:20-26 | statements are printed one after the other |
| ConfigObjects.NginxConfig.ToString | src/config_parser.cc:20-26 | the printer loop over heap objects yields the printed text of the tree they hold |
| ConfigObjects.NginxConfigStatement.ToString | src/config_parser.cc:28-51 | the same for one statement, with its indentation and block |
| ConfigParser.NginxConfigParser.Parse | src/config_parser.cc:150-229 | the parse loop terminates on every input, succeeds exactly when the text is accepted, and then the objects hold the previous statements followed by the parsed tree |
| ConfigParser.TakeToken | src/config_parser.cc:157-223 | one round of the loop moves stack and automaton alike, and leaves the outcome of the rest of the text as it was |
| ConfigParser.ReadToken | src/config_parser.cc:157-171 | one lexer call and what its token means for the rest of the run |
| ConfigParser.Advance | src/config_parser.cc:169-223 | one token moves the stack of open blocks as the automaton moves, or fails when it rejects |
| ConfigParser.AddWord | src/config_parser.cc:172-183 | a word starts a statement on top of the stack or joins the open one |
| ConfigParser.AddBlock | src/config_parser.cc:193-201 | an opening brace gives the open statement an empty block and pushes it |
| ConfigParser.BlockEnds | src/config_parser.cc:202-209 | a closing brace finishes the top block and its statement without touching another object |
| LoggingProtocol.ReachableInv | src/logging_buffer.cc:14-71 | every interleaving keeps the invariant: conservation, which buffer is empty at which point, the flag and the history |
| LoggingProtocol.LogIsPrefixOfAdds | src/logging_buffer.cc:14-67 | in every interleaving, emitted, in-flight, retired and available entries, in that order, are the adds in lock order, so the log is a prefix of the adds |
| LoggingProtocol.ShutdownFlushes | src/server.cc:67-79 | when the loop has exited, every entry stored before the flag was set is emitted, the terminating message included |
| LoggingProtocol.HistoryGrows | src/logging_buffer.cc:14-67 | no step withdraws an entry from the history or the log |
| LoggingProtocol.DrainWorkShrinks | src/logging_buffer.cc:43-58 | the drain loop takes a bounded number of steps of the logging thread, whatever the writers do |
| LoggingProtocol.ShutdownCompletes | src/server.cc:67-79 | once the flag is set and writers are quiet, the logging thread exits within a bounded number of steps, whether or not entries came after the flag; it has then emitted everything if and only if no entry was waiting in the window |
| LoggingProtocol.OnlyLateEntriesAreLost | src/server.cc:67-79 | at exit, the entries not emitted are exactly those in the available buffer, all stored after the flag |
| LoggingProtocol.NothingIsLoggedAfterExit | src/server.cc:67-71 | nothing is emitted after the exit |
| LoggingProtocol.EmittedUnlessInWindow | src/logging_buffer.cc:69-71 | from every state that meets the invariant and for every continuation that exits, an entry stored next is emitted if and only if it was not stored in the window between the two reads, or after the exit |
| LoggingProtocol.LateEntryIsLost | src/logging_buffer.cc:69-71 | an entry added without interruption is lost if and only if it came in that window |
| LoggingProtocol.WindowStaysOpen | src/logging_buffer.cc:69-71 | once the window is open nothing more is emitted, whatever the other threads do |
| LoggingProtocol.LateEntryCanBeLost | src/server.cc:67-79 | a concrete run from the start, for any two messages, in which a late entry is lost for good |
| LoggingObjects.LoggingBuffer.AddToBuffer | src/logging_buffer.cc:14-20 | appends one entry to the available queue and to the history |
| LoggingObjects.LoggingBuffer.SwitchBuffer | src/logging_buffer.cc:28-41 | exchanges the available and the retired queue, pointer and index together |
| LoggingObjects.LoggingBuffer.WriteToLog | src/logging_buffer.cc:22-67 | everything that was in the available queue is emitted in order, whatever other threads add meanwhile, and the retired queue is empty again |
| LoggingObjects.LoggingBuffer.TakeBuffer | src/logging_buffer.cc:23-41 | the queue that was available becomes the retired one with all it holds, whatever other threads add meanwhile, and an empty one becomes available |
| LoggingObjects.LoggingBuffer.Drain | src/logging_buffer.cc:43-58 | empties the retired queue into the log in order, without the lock |
| LoggingObjects.LoggingBuffer.IsEmpty | src/logging_buffer.cc:69-71 | if both reads find their queue empty, everything stored before the call has been emitted |
| LoggingObjects.OtherThreads.KillServer | src/server.cc:73-79 | stores the terminating message, then sets the flag |
| LoggingObjects.HandleLogging | src/server.cc:67-71 | the loop ends under every schedule that stops the program, with everything stored before the flag in the log, in order |
| Text.WordReader.Next | src/crud_file_manager.cc:130-130 | extraction skips white space and yields the next word of the remaining text, or fails when there is none |
| Text.StoullDecimal | src/crud_handler.cc:33-33 | the conversion to an unsigned 64-bit number undoes the conversion to decimal text |
| Text.DecimalIsNumeral | src/crud_file_manager.cc:136-136 | a number is printed with digits only and without a zero in front of another digit |
| Text.NumeralIsUnique | src/crud_file_manager.cc:136-136 | a digit string without such a zero is the printed form of a number if and only if it has its value |
| Text.WordsAreSeparated | src/crud_file_manager.cc:130-130 | extraction ends a word at white space, whose six characters are written out, and at nothing else |
| Text.StoullMeans | src/crud_file_manager.cc:43-43 | after white space and a sign, the digits are converted whatever follows; from 2^64 on an error is raised, and a minus sign negates modulo 2^64 |
| Text.StoullRefuses | src/crud_file_manager.cc:43-43 | without a digit there the conversion raises an error |
| CrudReplies.ListIsReadBack | src/crud_handler.cc:69-80 | a reader that strips the brackets and splits at the separator gets the names back if and only if none of them holds the separator |
| CrudReplies.ListingIsRead | src/crud_handler.cc:67-88 | what a client reads out of a listing are exactly the ids that hold a body, in increasing order |
| CrudReplies.LessMeans | src/crud_file_manager.cc:99-99 | that order compares the first different characters, and a proper prefix comes first |
| CrudReplies.PostsCountUp | src/crud_handler.cc:31-50 | POSTs to a new entity are given 1, 2, 3 and so on, in the answer as it is written |
| CrudReplies.PostContinues | src/crud_file_manager.cc:135-136 | a POST to a known entity is given the number after its record, and 0 after 2^64-1 |
| CrudReplies.PostIsReadBack | src/crud_handler.cc:31-50 | after any run, a GET of the id that a POST answers is answered with its body |
| CrudReplies.DeletedIsNotFound | src/crud_handler.cc:184-207 | after a DELETE a GET of the address is answered with 404 |
| CrudReplies.RefusedIdIsRecorded | src/crud_file_manager.cc:30-43 | a PUT to an id that is no number raises an error after a new entity was recorded, so that its first POST is given 2 |
| CrudReplies.DirectoriesAreEmpty | src/crud_file_manager.cc:11-26 | a GET that dots lead to a directory is answered with an empty text |
| CrudReplies.RefusedRequests | src/crud_handler.cc:210-236 | requests with another method, without a name, or without the id they need, or with one they must not have, get the 400 answers of the code and change nothing |
| CrudRuns.CoverageStep | src/crud_file_manager.cc:29-57 | the record of an entity still covers all its ids after a request if and only if the request does not write to it past the end of the counter |
| CrudRuns.CoversUntilItWraps | src/crud_file_manager.cc:29-57 | along a run, the records cover all ids ever written after every request if and only if no request writes to an entity that stands at 2^64-1 |
| CrudRuns.PostIdIsAboveAll | src/crud_file_manager.cc:135-136 | the id of a POST is above every id ever written for the entity if and only if the record is below 2^64-1 |
| CrudRuns.PostIsFreshExactly | src/crud_file_manager.cc:129-142 | while the record covers the ids of the entity, a POST gets an unused id, and so overwrites nothing, if and only if the record is below 2^64-1 or the id 0 is unused |
| CrudRuns.PostIsFresh | src/crud_handler.cc:31-50 | in a run that never wraps and while the record is below 2^64-1, a POST gets an id above all used before, even by a deleted object, overwrites nothing and answers 201 |
| CrudRuns.PostAfterWrapRepeats | src/crud_file_manager.cc:43-45 | after PUTs to 2^64-1 and 2^64-2 the record is below 2^64-1, yet a POST repeats 2^64-1 and overwrites its object |
| CrudRuns.PutIsReadBackExactly | src/crud_handler.cc:91-158 | what a PUT to a numeric id has written is read back by the next GET if and only if the id has no slash; otherwise the GET is answered with 404 |
| CrudRuns.PutIsReadUntilTouched | src/crud_handler.cc:91-208 | after a PUT, whatever came before, a GET of its address is answered with its body as long as no PUT or DELETE names that address and no DELETE has dots in front of its id; POSTs to the entity leave it alone while the run never wraps |
| CrudRuns.SlashedPutStoresNothing | src/crud_handler.cc:142-158 | a PUT to a numeric id with a slash is answered with 201, stores nothing, and a GET of it is answered with 404 |
| CrudRuns.PostsGetDifferentIds | src/crud_handler.cc:31-50 | two POSTs to one entity in such a run get different, increasing ids, different as numbers and as text |
| CrudRuns.RunsKeepInvariants | src/crud_file_manager.cc:29-57 | after every run, maxima fit 64 bits and were written or are the initial 1, and every object was written at an id of the history |
| CrudRuns.WrappingForgets | src/crud_file_manager.cc:43-45 | a write to an entity at 2^64-1 lowers its record to the number written; a POST is given the id 0 |
| CrudRuns.WrappedPostOverwrites | src/crud_file_manager.cc:43-45 | a run of three PUTs after which a POST is given the id 1, which is in use, and overwrites its object |
| CrudRuns.ObjectsAreLastBodies | src/crud_handler.cc:91-208 | the store holds exactly the last body written at an address and not deleted since |
| CrudRuns.AnswersFollowHistory | src/crud_handler.cc:91-208 | at an address without dots, the whole answer of each verb, as the history has the object or not: GET the last body or 404, PUT 200 or 201, DELETE 200 or 204, POST 400 |
| CrudRuns.AnswersFollowSpot | src/crud_handler.cc:91-208 | the same for GET and DELETE when dots lead from the address to the place of an object, of whatever entity |
| CrudRuns.PlainRunsAreServed | src/crud_file_manager.cc:11-83 | a run whose ids have no dots in front and whose names stems tell apart has all its outcomes determined by the store |
| CrudRuns.ListingFollowsHistory | src/crud_handler.cc:67-88 | LIST names exactly the ids that hold a body, strictly increasing in lexicographic order |
| CrudRuns.OthersAreUndisturbed | src/crud_handler.cc:18-208 | a request changes no object but the one it stores or its address leads to, and no record of another entity |
| CrudRuns.OtherEntitiesDisturbedExactly | src/crud_file_manager.cc:59-73 | a request changes objects of other entities if and only if it is a DELETE that dots lead to an existing object of one |
| CrudRuns.PlainRequestsKeepOthers | src/crud_file_manager.cc:59-73 | a request without dots in front of its id keeps the objects of all other entities |
| CrudRuns.DotsReachOtherEntities | src/crud_file_manager.cc:59-73 | a DELETE of `../f/i` under any known entity removes the object `i` of `f`, and nothing else |
| CrudStore.NamesWithoutColons | src/crud_file_manager.cc:131-132 | names without colons are always told apart |
| CrudStore.PlainLanding | src/crud_file_manager.cc:11-83 | an id without dots in front leads to the object it names, or nowhere if it has a slash or the entity is unknown |
| CrudStore.NumbersAreIds | src/crud_file_manager.cc:43-47 | an id that is read as a number has no dots in front, so that no write is led astray |
| CrudStore.PlainNeverEscapes | src/crud_file_manager.cc:11-83 | a request without dots in front of its id never escapes the store |
| CrudStore.IncreasingIsUnique | src/crud_file_manager.cc:99-99 | a set of names has only one strictly increasing listing |
| EntityIds.StemIsExact | src/crud_file_manager.cc:131-132 | among the words of names told apart, comparing the stem finds exactly the word of the entity, and the rest of the word is its number |
| EntityIds.AppendDenotes | src/crud_file_manager.cc:166-173 | appending a word for a new entity adds one key to the map the file denotes |
| EntityIds.ReplaceDenotes | src/crud_file_manager.cc:189-197 | rewriting word by word changes the value of exactly one key |
| EntityIds.ColonConfusesStems | src/crud_file_manager.cc:191-192 | the word of one entity is taken for that of another if and only if the names are the same or the first continues the second after a colon |
| EntityIds.ToldApartExactly | src/crud_file_manager.cc:131-132 | stems tell the names of a set apart if and only if none continues another after a colon |
| EntityIds.ColonNameIsMisread | src/crud_file_manager.cc:131-136 | the word of a name that continues another after a colon and digits is taken for that of the shorter one, with the digits for its number |
| CrudFiles.EmptyDiskRepresentsEmpty | src/crud_file_manager.cc:152-164 | an empty disk represents the empty store, for every data path that leaves the temporary file writable |
| CrudFiles.TempIsWritableExactlyForBases | src/crud_file_manager.cc:149-181 | the temporary file can be written if and only if it is not the data directory or one of its ancestors |
| CrudFiles.OtherDataPathKept | src/crud_file_manager.cc:30-47 | a request to one data path keeps what another represents, if neither lies in the other |
| CrudFiles.SlashedIdIsClosed | src/crud_file_manager.cc:47-50 | the file of an id with a slash can never be opened for writing |
| CrudFiles.WalkLands | src/crud_file_manager.cc:12-13 | resolving any routed path on the disk, dots included, leads where it leads in the store, unless beyond the data path |
| CrudFiles.ReadLands | src/crud_file_manager.cc:12-23 | what is read there is what the store has there, unless the path leaves it; a directory opens and has no text |
| CrudFiles.DeleteLands | src/crud_file_manager.cc:59-73 | what can be removed there is exactly an object of the store, whichever entity it belongs to, unless the path leaves the store |
| CrudFileManagers.CrudFileManager.ReadObject | src/crud_file_manager.cc:11-27 | for a path that does not leave the store, succeeds exactly when it leads to something there, and returns its text |
| CrudFileManagers.CrudFileManager.ExistsObject | src/crud_file_manager.cc:75-83 | true exactly when the path leads to something; for an id without dots, when the object exists |
| CrudFileManagers.CrudFileManager.DeleteObject | src/crud_file_manager.cc:59-73 | for a path that does not leave the store, the disk then represents the store without the object it leads to and nothing else changes; true exactly when that existed |
| CrudFileManagers.CrudFileManager.ListObjects | src/crud_file_manager.cc:85-102 | the ids of the entity, strictly increasing |
| CrudFileManagers.CrudFileManager.GenerateEntityId | src/crud_file_manager.cc:104-143 | the recorded maximum plus one modulo 2^64, or 1 for a new entity; the store is unchanged and the mutex free |
| CrudFileManagers.CrudFileManager.FindWord | src/crud_file_manager.cc:129-140 | finds the word of the entity if and only if the map has it |
| CrudFileManagers.CrudFileManager.FindStem | src/crud_file_manager.cc:129-140 | the loop over the words of the file finds one with the stem if and only if there is one |
| CrudFileManagers.CrudFileManager.NextOfText | src/crud_file_manager.cc:128-142 | the id that the text of the file gives next is the one that the map it denotes gives |
| CrudFileManagers.CrudFileManager.WriteEntityId | src/crud_file_manager.cc:145-206 | a one-key update of the map the id file denotes, by appending or by rewriting, with everything else kept |
| CrudFileManagers.CrudFileManager.ReplaceWords | src/crud_file_manager.cc:188-197 | the loop writes the words of the file, the one of the entity replaced |
| CrudFileManagers.CrudFileManager.WriteObject | src/crud_file_manager.cc:29-57 | the disk then represents the store with the object written and the record updated; for an id with a slash only the record is made and the result is false; a non-numeric id throws after the entity was recorded |
| CrudHandlers.CrudHandler.HandlePost | src/crud_handler.cc:18-51 | answers and acts as the store prescribes for a POST |
| CrudHandlers.CrudHandler.HandleList | src/crud_handler.cc:53-89 | answers the sorted listing |
| CrudHandlers.CrudHandler.HandleGet | src/crud_handler.cc:91-118 | answers as the store prescribes for a GET, unless it escapes the store |
| CrudHandlers.CrudHandler.HandleObject | src/crud_handler.cc:96-117 | answers 200 with the text of what the path leads to in the store, or 404, unless the path leaves it |
| CrudHandlers.CrudHandler.HandlePut | src/crud_handler.cc:120-168 | answers and acts as the store prescribes for a PUT |
| CrudHandlers.CrudHandler.HandleDel | src/crud_handler.cc:170-208 | answers and acts as the store prescribes for a DELETE, unless it escapes the store |
| CrudHandlers.CrudHandler.HandleRequest | src/crud_handler.cc:210-251 | for every method and split target that does not escape the store, the answer and the new disk are those of the store, and nothing outside the data path changes |
| CrudHandlers.CrudHandler.ServeAll | src/crud_handler.cc:210-251 | a whole run of requests from an empty directory gives the answers of the abstract run and ends in its store |
| CrudHandlers.CrudHandler.ServeLocations | src/crud_handler.cc:210-251 | requests to several data paths in any order are answered as if those to the other paths had not happened |
| CrudService.HandleCall | src/crud_handler.cc:210-251 | a call is answered and carried out as the store prescribes for the address that routing finds in its target |
| CrudService.ServeCalls | src/request_dispatcher.cc:280-304 | calls to any locations in any order are each answered by the store of the data path that routing finds, after the calls that went there before |
| CrudService.SpellingIsAddressed | src/request_dispatcher.cc:180-255 | after an accepted configuration, every spelling of an address that is routed by its location comes to its data path, name and id |
| CrudService.PutIsReadAtAnySpelling | src/crud_handler.cc:210-251 | after an accepted configuration, a GET of any spelling of an address is answered with the body of a PUT to any other spelling, if the calls in between that go to its data path leave the address alone in the sense of `PutIsReadUntilTouched` |
| Routing.NormalizeTarget | src/request_dispatcher.cc:41-53 | the two loops compute the normal form of the target |
| Routing.NormalForm | src/request_dispatcher.cc:135-145 | a normalised target has no double slash, no trailing slash except in `/`, and normalising again changes nothing |
| Routing.NormalizeRejoins | src/request_dispatcher.cc:190-200 | for absolute targets, normalising is splitting at slashes, dropping empty segments and rejoining |
| Routing.BestIsBest | src/request_dispatcher.cc:56-103 | the reference search yields a longest non-empty location that begins the target, or none |
| Routing.BestIsUnique | src/request_dispatcher.cc:56-103 | there is only one such location, so no scan order can find another |
| Routing.ScanKeys | src/request_dispatcher.cc:58-75 | scanning one table in any order keeps the longest match of all tables scanned so far |
| Routing.ScanList | src/request_dispatcher.cc:76-103 | the same for a table that is a list |
| Routing.GetRequestType | src/request_dispatcher.cc:37-122 | the kind of the unique longest location that begins the normalised target, and None if there is none or the static file does not open |
| Routing.GetStaticFilePath | src/request_dispatcher.cc:124-178 | the path of the longest static or echo location, if that is static |
| Routing.GetCrudEntityPath | src/request_dispatcher.cc:180-255 | data path, name and id for the longest static, echo or crud location, if that is crud |
| Routing.ScanAll | src/request_dispatcher.cc:55-103 | the six scans find the longest location of all tables and its kind |
| Routing.TableGivesKind | src/request_dispatcher.cc:56-122 | the table that has the longest location gives the kind of request, Static only if the file behind its root opens; of several tables static, crud, echo, health, sleep and app count in that order |
| Routing.UnknownIsNone | src/request_dispatcher.cc:105-108 | a target that no location begins is of no kind |
| Routing.RootReplacesLocation | src/request_dispatcher.cc:149-176 | the file of a static location is its root followed by what follows the location in the target |
| Routing.NoFileForEcho | src/request_dispatcher.cc:168-171 | if the longest static or echo location is an echo location, or there is none, no file is looked up |
| Routing.AddressIsCut | src/request_dispatcher.cc:235-254 | behind a crud location one character is dropped, then the name goes to the next slash and the id behind it |
| Routing.NoAddressElsewhere | src/request_dispatcher.cc:229-233 | where the longest of the scanned locations is not a crud location, or there is none, the address is empty |
| Routing.StaticRoutesAgree | src/request_dispatcher.cc:150-178 | whenever the answer is Static, the file handler selects the same location and the very path whose opening succeeded |
| Routing.CrudRoutesAgree | src/request_dispatcher.cc:203-233 | whenever the answer is CRUD, the CRUD handler selects the same location, and takes it for one if and only if it is not an echo location as well |
| Routing.ScanSelects | src/request_dispatcher.cc:56-103 | scanning any sequence of tables selects the longest location of all of them, with the kind of the first table that has it |
| Routing.SixTablesScan | src/request_dispatcher.cc:58-103 | scanning the six tables in the order of the code selects the location and kind of the dispatcher |
| Routing.OrderIsFreeExactly | src/request_dispatcher.cc:56-103 | every other order and partition of the same tables gives the same result if and only if the selected location is of one kind |
| Routing.KindIsOrderFree | src/request_dispatcher.cc:56-103 | with distinct locations, scanning the tables in any other order, split or joined in any way, gives the location and kind of the dispatcher |
| Routing.SameSegmentsSameRoute | src/request_dispatcher.cc:41-53 | targets with the same non-empty segments are routed alike by all three functions |
| CrudAddresses.AddressRoundTrip | src/request_dispatcher.cc:235-254 | an address written with any numbers of slashes is split back into data path, name and id if and only if its location does not end in a slash; otherwise the name loses its first character |
| CrudAddresses.EntityRoundTrip | src/request_dispatcher.cc:235-254 | the same for the address of an entity without an id |
| CrudAddresses.LocationIsSelected | src/request_dispatcher.cc:202-227 | a location is selected if and only if it is a scanned one that begins the target and no longer scanned one does |
| CrudAddresses.AddressDeterminesTarget | src/request_dispatcher.cc:235-245 | the address rebuilds the normalised target if and only if a slash, or nothing, follows the location |
| CrudAddresses.FollowingCharacterIsDropped | src/request_dispatcher.cc:237-245 | targets that differ only in the character after the location have the same address |
| CrudAddresses.RoutedParts | src/request_dispatcher.cc:190-245 | for every target, the name has no slash, and the id has only single ones, each between two segments |
| ConfigInterpreters.FindMeans | src/config_interpreter.cc:84-112 | one pass over a block succeeds if and only if every statement has a word and the key is given at most once and with a value, and finds that value |
| ConfigInterpreters.ConfigInterpreter.FindKey | src/config_interpreter.cc:84-112 | the loop over a static or crud block finds what the pass finds, or throws when it fails |
| ConfigInterpreters.ConfigInterpreter.FindAppKeys | src/config_interpreter.cc:127-147 | the loop over an app block sets key and address from their only statements |
| ConfigInterpreters.ConfigInterpreter.InterpretLocation | src/config_interpreter.cc:67-150 | one location statement is accepted exactly when it is legal and its location unused, and then enters exactly one table |
| ConfigInterpreters.ConfigInterpreter.InterpretServer | src/config_interpreter.cc:63-152 | the block of a server is accepted exactly when its location statements extend the legal ones before it |
| ConfigInterpreters.ConfigInterpreter.InterpretTop | src/config_interpreter.cc:60-64 | one statement of the configuration is accepted exactly when it has a word and, if it is a server, a block whose location statements extend the legal ones |
| ConfigInterpreters.ConfigInterpreter.SetServerPaths | src/config_interpreter.cc:51-163 | succeeds if and only if every server has a block, every statement read has its words, every location is legal and none is named twice; the tables are then those of the location statements, and otherwise stay as they were |
| ConfigInterpreters.OfKindComesFrom | src/config_interpreter.cc:78-127 | a list table has a location if and only if a location statement of that kind names it |
| ConfigInterpreters.ValueOfLocation | src/config_interpreter.cc:83-113 | a static or crud location is in its table if and only if its block gives a path, and with that path |
| ConfigInterpreters.AcceptedTablesAreDistinct | src/config_interpreter.cc:71-75 | the tables of every accepted configuration name pairwise different locations across all six kinds |
| ConfigInterpreters.AcceptedConfigRoutesAgree | src/config_interpreter.cc:51-163 | after every accepted configuration, all three routing functions agree on the location |
| ConfigTables.ListsHoldAssigned | src/config_interpreter.cc:78-127 | after an accepted configuration the echo, health, sleep and app tables have exactly the locations that a location statement of a server assigns to EchoHandler, HealthHandler, SleepHandler and AppHandler |
| ConfigTables.PathsAreThoseSet | src/config_interpreter.cc:83-113 | the static and crud tables have exactly the locations assigned to StaticHandler with a root and to CrudHandler with a data_path, with that path |
| ConfigTables.HandlersAskFor | src/config_interpreter.cc:78-147 | which handlers need a block, and which keys it may give at most once and with a value |
| ConfigTables.AcceptedMeans | src/config_interpreter.cc:60-75 | a configuration is accepted if and only if its statements have words, its servers blocks, its location statements what their handlers ask for, and no location is named twice |
| ConfigTables.LastAppDecides | src/config_interpreter.cc:127-147 | the last app location that gives a setting decides it, and without one it stays as it was |
| FormExtraction.GetImages | src/app_handler.cc:251-274 | reads the number of images and returns what the cutting loop returns |
| FormExtraction.TakeImages | src/app_handler.cc:260-273 | the loop that finds, copies and cuts computes repeated extraction, error cases included |
| FormRoundTrip.CutOut | src/app_handler.cc:244-271 | from any body, the field is the first line behind the first header, or behind the wrapped-around index if there is none, and an error exactly if that index is past the end; what is left starts behind the line end |
| FormRoundTrip.FieldIsALine | src/app_handler.cc:246-247 | from any body below 2^31 characters, only single lines are ever extracted |
| FormRoundTrip.TakenAreLines | src/app_handler.cc:260-271 | so are all values of the loop |
| FormRoundTrip.CutLocated | src/app_handler.cc:262-270 | if the first header found is followed by a value and a rest, one round of the loop yields the first line of the value and, if that is all of it, the rest |
| FormExtraction.StoiDecimal | src/app_handler.cc:255-255 | the conversion to `int` undoes the conversion to decimal text, and raises an error exactly from 2^31 on |
| FormExtraction.StoiMeans | src/app_handler.cc:255-255 | after white space and a sign, the digits are converted whatever follows, and outside the range of an `int` an error is raised |
| FormExtraction.StoiRefuses | src/app_handler.cc:255-255 | without a digit there the conversion raises an error |
| FormExtraction.TargetsAreHeaders | src/app_handler.cc:245-261 | the three headers that are searched for, written out |
| FormExtraction.NoneAnnounced | src/app_handler.cc:260-273 | no images are taken if none are announced, or fewer |
| FormEncoding.FormIsWritten | src/app_handler.cc:245-261 | the text of an encoded form, written out line by line |
| FormEncoding.SearchLine | src/app_handler.cc:262-263 | the search for a header passes over a line unless it ends with that header and an empty line follows |
| FormEncoding.SearchValue | src/app_handler.cc:262-263 | the search passes over a value of any number of lines unless it holds such a line |
| FormEncoding.FieldIsLocated | src/app_handler.cc:244-249 | in an encoded form the first header found is that of the first part with the name, and its value and the rest of the form follow |
| FormRoundTrip.FieldComesBack | src/app_handler.cc:244-249 | of a field of an encoded form, wherever it stands, the first line is returned; all of it if and only if it is a single line |
| FormRoundTrip.ValuesComeBack | src/app_handler.cc:260-271 | repeated extraction returns the values with one name in order |
| FormRoundTrip.CountedValues | src/app_handler.cc:260-273 | for any field name, extracting the announced number of values returns all of them in order if and only if that is their number and each is a single line |
| FormRoundTrip.ImagesComeBack | src/app_handler.cc:251-274 | the images of an encoded form come back in order if and only if the announced number is their number and each is a single line; if fewer are announced, that many come back |
| FormRoundTrip.PageFormComesBack | src/app_handler.cc:244-274 | every image of the form of the landing page comes back unchanged beside any text, and of the text the first line, with boundary lines and without |
| FormRoundTrip.PageFormExactly | src/app_handler.cc:244-274 | images and text of the form of the landing page come back unchanged if and only if every image and the text are single lines |
| FormRoundTrip.TwoLineTextIsCut | src/app_handler.cc:247-247 | a text of several lines comes back as its first line |
| FormRoundTrip.MissingFieldIsMisread | src/app_handler.cc:246-247 | a missing field raises an error if and only if the body is shorter than the wrapped-around index; otherwise the first line of the text behind that index is taken for its value |
| FormRoundTrip.MissingNumberIsMisread | src/app_handler.cc:251-256 | without a number of images the extraction of images raises an error unless the text taken for the number begins with one |
| FormRoundTrip.RoundsExactly | src/app_handler.cc:260-271 | on a body without the header, values can be taken exactly as many times as rounds of misreading leave text enough |
| FormRoundTrip.TooManyAnnounced | src/app_handler.cc:251-274 | when more images are announced than sent, an error is raised if and only if more are announced than the images and those rounds together |
| AppReplies.EscapeCaption | src/app_handler.cc:58-67 | the loop over the characters computes the escaped caption |
| AppReplies.CharacterIsEscaped | src/app_handler.cc:58-67 | quotes and backslashes get a backslash, line feeds, carriage returns and tabs are dropped, and every other character stays |
| AppReplies.CleanedKeepsOthers | src/app_handler.cc:63-65 | of the caption a reader gets, only line feeds, carriage returns and tabs are missing |
| AppReplies.OtherControlsAre | src/app_handler.cc:63-65 | the control characters that make the reply unreadable are those below the space that are not dropped |
| AppReplies.ReplyIsWritten | src/app_handler.cc:46-69 | the text of the reply, with its keys and the error caption written out |
| AppReplies.CaptionComesBack | src/app_handler.cc:57-69 | a JSON reader stops at the quote the handler adds and has the caption without line ends and tabs; it rejects the text if and only if the caption has another control character |
| AppReplies.ReplyTo | src/app_handler.cc:46-71 | a reader of the reply learns the cleaned caption and the index, or the error text when the index is out of range |

## Left out

- Sockets, sessions, the accept loop, the thread pool and signal wiring: asynchronous input and output of a library.
- Boost.Log and its severity mapping: emitting an entry is appending it to the log, whatever its severity.
- The calls to the language model, its replies and the landing page: the best index and the caption are parameters of `ReplyTo`.
- Echo, health, sleep, static and not-found handlers, the content types, the handler registry and `getPort`: they would only add easy members.
- Failures of the real file system and its permissions: operations succeed whenever the nodes allow them, and whether a static file opens is a parameter of routing.
- Different spellings of one data path: configured data paths are compared as text, so `.`, `..`, links and doubled slashes in them are not resolved. In ids, `.` and `..` are.
- An empty request target: the code then reads the last character of an empty string, which has no defined result; the routing methods require a target.
- ConfigParser.NginxConfigParser.Parse: a closing brace with only the root on the stack pops the root and has no defined result afterwards; it is modelled as a rejection, which is what the repository's own parser test expects. What a failed parse leaves in the configuration is not described, and opening the file by name is not modelled.
- LoggingProtocol.ShutdownCompletes: bounds only the steps of the logging thread running alone; a scheduler that never runs it, or writers that never pause, are outside the claim (what is emitted at an exit, however it comes about, is not).
- Memory-level races of the unlocked reads of the log: each read and write is one atomic step, and the interleaving of steps is kept.
- The start of the logging thread inside the constructor of the server, and queues that already hold entries at the start: the flag is taken to be initialised and the queues to be empty.
- CrudHandlers.CrudHandler.HandleRequest: requests are handled one at a time. Allocating an id and recording it are separate critical sections, and each request has a mutex of its own, so nothing is claimed of concurrent requests. The target is already split, and protocol version and content length are not part of an answer.
- Entity names with white space, or equal to `maxEntityIds`, `.` or `..`: the CRUD proofs exclude them. Of a write that brings in a name which continues a known one after a colon, or is continued by one, no outcome is claimed beyond `ColonConfusesStems` and `ColonNameIsMisread`.
- CrudHandlers.CrudHandler.HandleDel: no outcome is claimed for a request that dots lead to the id file, above the data path, to a name that no entity can have, or, for a DELETE, to the empty directory of an entity (`Escapes` is the exact condition). Dots are resolved without regard to links.
- CrudHandlers.CrudHandler.HandleGet: the same for a GET.
- CrudHandlers.CrudHandler.ServeLocations: data paths that lie in one another are outside the claim.
- CrudService.ServeCalls: calls that the dispatcher gives to other handlers are not part of a run, and neither is the empty answer to an empty target or an unknown method.
- A data path with `temp` as itself or an ancestor: the temporary file could then not be written, exactly as `TempIsWritableExactlyForBases` says.
- The order of a `std::map`: the model scans a table of paths in an arbitrary order, which includes the sorted one.
- Routing.NormalizeTarget: one method for the three copies of the same two loops.
- CrudFileManagers.CrudFileManager.ListObjects: sorting is by insertion, since only the sorted result matters.
- ConfigInterpreters.ConfigInterpreter.SetServerPaths: a missing block is an error, where the code dereferences a null pointer; `api_key` and `chatgpt_url` after a rejected configuration are not described, nor which of several errors is reported first.
- FormRoundTrip.ImagesComeBack: for forms below 2^31 characters, since the code keeps positions in an `int`; for longer ones the model has the narrowing but no claim is made.
- Form parts with more than one header line, as browsers send for whole files: the landing page sends the images as text fields, which have one.
- Escaped surrogate pairs in the JSON reader: the handler never writes one. Characters stand for bytes; the escaping touches ASCII only.
