# The SQL handler, verified

The SQL handler gives a Hyrax data server access to relational databases. A dataset is a text file of
sections, each naming a database and a query; a request selects attributes, is turned into SQL, tried on the
sections in turn, and its result is streamed row by row. These modules model the parts of it in which state
and order matter, in the form the source has them, and prove what they are for.

- `Cursor`, `ResultStream`, `SequenceReader`, `ColumnPass`, `Response`: the two-dimensional cursor over a
  result, the driver fetches it defers, the column pass before reading, and the delivery of all rows. The
  reference is a flat position in a table. Unsigned 64-bit arithmetic is modelled as it is.
- `TextMatch`, `AttributeList`, `Attribute`, `Query`: splitting, loading, projecting and joining attribute
  lists. The regular expressions are stated as written, and the matchers are proved to find what section 9.1
  of IEEE Std 1003.1 (XBD) prefers.
- `Variables`, `Lines`, `Dataset`, `TextContainer`, `DatasetText`: the dataset parser. `Dataset` says what a file means,
  section by section; `TextContainer` is the streaming parser with its completion diary and side buffers, and
  the section cursor. `DatasetText` writes files out with their literal tags and keys and shows what reading them
  gives back.
- `Registry`, `Failover`: the wrap counts of commands across plugins, and trying section after section.
- `Cache`: parsed datasets stored under their file name, with a tolerance of ten seconds.
- `Actions`: the manager that runs lists of actions for status codes, with the exceptions it tells apart.
- `TemplateFilter`: the script that cuts plugin sources out of a template.

`dafny verify dfyconfig.toml` checks everything.

Where the code and its documentation disagree, the code is modelled:

- A substitution keeps only as many characters behind a variable as the reference itself has
  (container/SQLTextContainer.cc:853), while the comment at line 584 speaks of substituting everywhere on the
  row. `Variables.EverywhereIffTailsFit` gives the exact condition, `Variables.TailIsLost` an example.
- The same cut can take a reference away before the loop gets to it, so an undefined variable is not always the
  error that lines 855-856 make of it. `Variables.ExpandFailsIff` and `Variables.UndefinedIsReportedIff` say when
  it is, `Variables.UndefinedIsLost` is a row that is accepted.
- `buildContainer` promises a BESInternalError if a container cannot be set up
  (container/SQLContainerFactory.h:140-142), but `read` throws plain BESError for mistakes of a file's author.
  Under the exception specification that ends the process; `Cache.Server.GetContainer` and `Cache.Serve` say when.
  The same holds of `getActions` and codes without a list (`Actions.OdbcCheck`).
- A result without rows is reported as not ended (connector/SQLTypeConnector.h:225-228) and delivered as one
  blank row. All results below count rows as the code does; `SequenceReader.DeliveredIsTheTable` says when
  that is the table.
- `isUpToDate` accepts any time less than ten seconds away, while its comment asks for the same time stamp.
  `Cache.TwoVersions` gives both sides.
- A jump of whole rows may wrap the row counter. `Cursor.JumpSafe` is the condition a caller can check;
  `Cursor.UnsafeJumpGoesBack` shows that it is exact.
- A result whose announced count is too large repeats its last row (`SequenceReader.OvercountRepeatsLastRow`). This
  rests on the assumption below that a fetch past the last row leaves the column buffers alone.

## Model

| member | source | states |
|---|---|---|
| `Cursor.TypeConnector.SetRow` | connector/SQLTypeConnector.h:62-87 | With 64-bit wrap-around: the row moves down by the increment, or the cursor ends with row and column past the last; without wrap-around the number of rows is returned exactly when it ended |
| `Cursor.TypeConnector.Reset` | connector/SQLTypeConnector.h:221-229 | The cursor is on the first cell; it counts as not ended unless there are neither rows nor columns |
| `Cursor.TypeConnector.Carry` | connector/SQLTypeConnector.h:288-301 | The tail of a move: within the row, to the next row, or to the end, where the row count is returned whatever the remainder wrapped to |
| `Cursor.TypeConnector.Step` | connector/SQLTypeConnector.h:271-308 | A move told in rows and columns, with the exact landing place of jumps that wrap the row counter |
| `Cursor.TypeConnector.SetNext` | connector/SQLTypeConnector.h:271-308 | Below the end, a move by n is a move of the flat index by n, returns the rows passed, and ends exactly when the table is left; an ended cursor never comes back; a jump that wraps 2^64 lands exactly 2^64 rows too high |
| `Cursor.UnsafeJumpGoesBack` | connector/SQLTypeConnector.h:280-284 | A jump that wraps should have ended the cursor but moves it backwards: the wrap condition is exactly where the flat meaning fails |
| `Cursor.LandingRefinesAdvance` | connector/SQLTypeConnector.h:280-301 | Dividing the increment, with one carry, is moving the flat index; the rows passed are the difference of the row numbers |
| `Cursor.RowMajor` | connector/SQLTypeConnector.h:280-284 | The recursive row and column of a flat index are quotient and remainder by the row length |
| `Cursor.JumpRest` | connector/SQLTypeConnector.h:281-284 | The wrapping subtraction and product of the source leave the ordinary remainder |
| `Cursor.Locate` | connector/SQLTypeConnector.h:206-213 | Row, column and flat index determine each other |
| `Cursor.MoveTwice` | connector/SQLTypeConnector.h:271-308 | Two moves are one by the sum: the same place, and the same rows passed while not ended |
| `ResultStream.OdbcConnector.Query` | unixODBC/ODBCConnector.cc:500-578 | After a query the reader is on the first cell of the result with one fetch owed and none done |
| `ResultStream.OdbcConnector.FetchOwed` | unixODBC/ODBCConnector.cc:614-617 | Exactly the owed fetches are done |
| `ResultStream.OdbcConnector.GetNext` | unixODBC/ODBCConnector.cc:601-632 | Reading with any increment gives the cell at the flat position, keeps fetches done plus fetches owed equal to the row plus one, never fetches past the counted rows, and fails without effect at the end |
| `ResultStream.ReadStep` | unixODBC/ODBCConnector.cc:601-632 | Lazy reading refines the eager reference stream: same cell or failure, same position |
| `ResultStream.ReadRun` | unixODBC/ODBCConnector.cc:601-632 | Over a whole run of reads, whatever the increments, every answer is that of the reference, and the driver is never asked for more rows than were counted |
| `ResultStream.OdbcConnector.Reset` | connector/SQLTypeConnector.h:221-229 | Resetting keeps the owed fetches, so reading stays in step exactly when fetched and owed rows are one together |
| `ResultStream.OutcomesArePrefixSums` | unixODBC/ODBCConnector.cc:601-632 | Any run of reads with any increments yields the cells at the prefix sums of the increments, and failures from the first sum past the end |
| `ResultStream.CellInTable` | unixODBC/ODBCConnector.cc:619-620 | The cell at a flat position is the cell of that row and column of the table |
| `SequenceReader.Sequence.ReadVariable` | DTM/SQLSimpleType.h:181-207 | With the flags written out: a variable that was read, or is neither sent nor used by the selection, is left alone; a column takes the next cell or fails at the end; a placeholder takes its fixed text |
| `SequenceReader.Sequence.ReadRow` | DTM/SQLSequence.h:205-215 | The j-th taking variable gets the j-th cell from the position; the row fails exactly when too few cells are left |
| `SequenceReader.Sequence.Read` | DTM/SQLSequence.h:181-236 | All outcomes of one call: nothing to do, a row, the end with the flags it sets, or a failure that closes the connector |
| `SequenceReader.DemandIsCount` | DTM/SQLSequence.h:206-207 | The place of a variable's cell in its row is the number of columns before it that are sent or used by the selection |
| `SequenceReader.WholeRow` | DTM/SQLSequence.h:205-215 | A row in which every variable takes a cell is the whole table row |
| `SequenceReader.Turn` | DTM/SQLSequence.h:181-236 | One turn of the serialiser, for any selection, gives a row while a whole one is left, ends at the end, and fails in between |
| `SequenceReader.Drain` | DTM/SQLSequence.h:181-236 | For any selection taking k > 0 cells a row, k being the number of columns sent or used by the selection: in row r such a variable gets the cell at r * k plus the number of such variables before it, and the run ends cleanly exactly when k divides the number of cells |
| `SequenceReader.IdleTurns` | DTM/SQLSequence.h:181-236 | When every variable is a placeholder or neither sent nor used by the selection the sequence never ends: any number of calls give rows |
| `SequenceReader.DrainTable` | DTM/SQLSequence.h:181-236 | With every variable a column that is sent or used by the selection the run delivers every row in order, in one call per row and one more, with one driver fetch per row |
| `SequenceReader.DeliveredIsTheTable` | unixODBC/ODBCConnector.cc:500-501 | What is delivered is the result exactly when the announced count is right, an empty result counting as one row |
| `SequenceReader.OvercountRepeatsLastRow` | unixODBC/ODBCConnector.cc:635-649 | If the count is too large the last row is repeated, as a fetch past the last row is taken to leave the buffers alone |
| `SequenceReader.EmptyResultDeliversOneRow` | connector/SQLTypeConnector.h:225-228 | An empty result is delivered as one blank row |
| `ColumnPass.BuildNext` | handler/connector/SQLNextTypeAction.h:157-215 | Builds the object of the column the cursor is at after p moves, if the factory makes one, and moves on; past the end nothing is built, and a fatal error closes the connector |
| `ColumnPass.BuildColumns` | handler/SQLBuildDATA.h:336-395 | The variables are those of the pass over the column types, or the pass is stopped by an unsupported column; variable i stands for column i for all i exactly when the factory made an object of every column; the cursor ends on the first cell with reading still in step |
| `ColumnPass.PassIsUnique` | handler/SQLBuildDATA.h:336-395 | The column types determine which column each variable stands for, and whether the pass is stopped |
| `ColumnPass.ColumnIsPassedOver` | handler/SQLBuildDATA.h:383 | After the first column without an object the next variable stands for the column after the next: one column is passed over |
| `Response.Respond` | handler/SQLBuildDATA.h:336-395 | For any outcome of the factory: refused exactly when the column pass is stopped, endless without a column, or rows of as many cells as variables stand for columns, clean exactly when they use the cells up; with an object for every column they are the counted rows, one fetch each |
| `AttributeList.FindIsPreferred` | utils/StringMatch.cc:57 | The search finds the match that POSIX prefers among all ways to read the attribute-list expression, and none only if there is none |
| `AttributeList.MatchBodySound` | container/SQLQueryDefinitions.h:56-57 | What the matcher finds is a reading of the expression |
| `AttributeList.MatchBodyComplete` | container/SQLQueryDefinitions.h:56-57 | Whatever the expression reads at a place, the matcher finds something at least as preferred |
| `AttributeList.MatchAll` | utils/StringMatch.cc:57-80 | The match-and-erase loop terminates, returns the attributes in order and leaves no match behind |
| `AttributeList.NothingLeft` | utils/StringMatch.cc:57-80 | No way to read the expression remains in the text left over |
| `AttributeList.SplitJoin` | container/SQLTextContainer.cc:175-183 | Joining attribute texts with commas and splitting again is the identity |
| `AttributeList.SplitJoinAfterBlank` | container/SQLQueryDefinitions.h:56-57 | A blank before a list of attributes makes no difference to what is split off |
| `AttributeList.Erase` | utils/StringMatch.cc:77 | What is left after a match keeps its order: the characters before the match, then those after it |
| `AttributeList.AttributesAreListable` | container/SQLQueryDefinitions.h:56-57 | Every text split off can be put in a list again, unless it is a single blank |
| `Attribute.ParseSound` | container/SQLAttribute.h:56-59 | Only texts the expression describes are accepted, with parts it describes |
| `Attribute.ParseComplete` | container/SQLAttribute.h:56-59 | Every text the expression describes is accepted with those parts: plain, aliased and starred attributes are unambiguous |
| `Attribute.GetNext` | utils/StringMatch.h:177-187 | The next set bit: none is skipped |
| `Attribute.FoundGroups` | utils/StringMatch.h:277-299 | Exactly the wanted groups that took part in the match are marked |
| `Attribute.Compact` | utils/StringMatch.h:277-317 | The stored texts are indexed by rank: the text of a found group is at the number of found groups below it |
| `Attribute.DecodeIsMeaning` | container/SQLAttribute.h:205-225 | The running counter reads the right full name and name for all three forms |
| `Attribute.LoadAttribute` | container/SQLAttribute.h:179-234 | Loading a text gives the attribute it means, and fails exactly on texts that are none |
| `Attribute.DottedIsLoaded` | container/SQLAttribute.h:56-59 | Words with dots between them, and blanks around: the name is the last word, the full name all of them |
| `Attribute.AliasIsLoaded` | container/SQLAttribute.h:56-59 | With an alias after blanks or ` as ` in any case, the name is the alias, the full name what stands before it |
| `Attribute.StarIsLoaded` | container/SQLAttribute.h:56-59 | A star between blanks has itself as name and no full name |
| `Query.LoadAttributes` | container/SQLQuery.cc:40-67 | A list gives one attribute per name, the first one of the name, with its place in the list as position; it fails exactly if some text is no attribute |
| `Query.SetOfIsFirstOfEachName` | container/SQLQuery.cc:55-63 | The names are those of the texts, and each keeps the attribute of the least place that bears it |
| `Query.LoadJoin` | container/SQLQuery.cc:40-67 | Loading joined texts with distinct names gives them back, the i-th with position i |
| `Query.Select` | container/SQLQuery.cc:146-180 | The loop gives, in order of position, exactly the names the client asked for with nothing before or after them if the dataset has a star, and else exactly the dataset's attributes of the names asked for |
| `Query.SelectAll` | container/SQLQuery.cc:181-196 | The fallback is the whole dataset in order of position |
| `Query.AttrToSelect` | container/SQLQuery.cc:103-203 | The projection is exactly that when the client asks for something and the dataset has a star or one of the names, and otherwise the whole dataset, in strictly increasing position |
| `Query.ProjectionIsNonEmptySubset` | container/SQLQuery.cc:181-203 | The projection of a non-empty dataset is not empty, and part of the dataset unless it has a star |
| `Query.OrderedIsUnique` | container/SQLAttribute.h:398-407 | The order by position determines the projection |
| `Query.InsertKeepsOrder` | container/SQLAttribute.h:398-407 | Inserting by position keeps the order and adds exactly the attribute |
| `Query.BareKeepsName` | container/SQLQuery.cc:168-176 | Cutting an attribute down to its name gives the attribute that is this name alone, with its position |
| `Query.SelectList` | container/SQLTextContainer.cc:173-183 | The joining loop writes the attribute texts with commas between them |
| `Query.ProjectionReloads` | container/SQLTextContainer.cc:173-183 | Reading the SELECT list back gives the projection: its texts in order and its names |
| `Query.BuildSelect` | container/SQLTextContainer.cc:123-192 | The SELECT clause lists the projection; for a dataset with attributes the empty-SELECT exception cannot occur |
| `Query.AttributePartIs` | container/SQLTextContainer.cc:147-168 | The client's list is what stands before the first `&` of its constraint, or all of it |
| `Variables.FindRef` | container/SQLTextDefinitions.h:117 | The leftmost variable reference, if there is any |
| `Variables.SubstituteLowersDollars` | container/SQLTextContainer.cc:837-859 | A substitution removes at least two dollar signs, even with the end cut off |
| `Variables.ExpandVariables` | container/SQLTextContainer.cc:585-587 | The rescanning loop terminates, leaves no reference, and fails exactly when some variable it gets to is undefined |
| `Variables.ExpandFailsIff` | container/SQLTextContainer.cc:847-857 | An undefined variable is an error exactly when the loop gets to it; which ones it gets to depends on the row alone |
| `Variables.ReachedIsPrefix` | container/SQLTextContainer.cc:853 | The loop gets to the first variables of the row, and to all of them when every tail fits |
| `Variables.UndefinedIsReportedIff` | container/SQLTextContainer.cc:853-857 | Every undefined variable of a row is reported, whatever is defined, exactly when the loop gets to every variable the row refers to |
| `Variables.UndefinedIsLost` | container/SQLTextContainer.cc:853-857 | A row whose undefined variable is cut away unnoticed |
| `Variables.ExpandIsOnePass` | container/SQLTextContainer.cc:585-587 | The loop equals one pass from left to right: a substituted value is never read again |
| `Variables.TailSurvivesIff` | container/SQLTextContainer.cc:851-853 | The rest of the row survives a substitution exactly when it is no longer than the reference |
| `Variables.EverywhereIffTailsFit` | container/SQLTextContainer.cc:584-587 | "Substitute everywhere", with an error for undefined variables, holds exactly when every reference is at least as long as what follows it or an undefined variable is met |
| `Variables.TailIsLost` | container/SQLTextContainer.cc:853 | A row that loses its end |
| `Lines.Classify` | container/SQLTextContainer.cc:559-605 | Defined values have no dollar sign, so a definition is never its own value |
| `Lines.ClassifyIff` | container/SQLTextContainer.cc:559-605 | A line is skipped, a definition, a tag or content by what the expressions match, tried in that order |
| `Lines.CommentIff` | container/SQLTextDefinitions.h:131 | The test for comments is the expression |
| `Lines.TagComplete` | container/SQLTextDefinitions.h:138 | Whenever the tag expression matches, in the only way it can, the tag is found |
| `Lines.TagSound` | container/SQLTextDefinitions.h:138 | A tag found is a match |
| `Lines.DefinitionComplete` | container/SQLTextDefinitions.h:123-124 | Whenever the definition expression matches, the search finds a match further left, or the same with the value POSIX prefers |
| `Lines.DefinitionAtSound` | container/SQLTextDefinitions.h:123-124 | A definition found is a match |
| `Lines.FindKeyValueComplete` | container/SQLTextDefinitions.h:145-147 | Whenever the key=value expression matches, the search finds the match POSIX prefers |
| `Lines.FindKeyValueSound` | container/SQLTextDefinitions.h:145-147 | What the search finds is a match |
| `Lines.KeyValue` | container/SQLTextContainer.cc:983-990 | A value is never empty |
| `Dataset.ContentIsFinal` | container/SQLTextContainer.cc:694-699 | What was read of a section does not change once the next one begins |
| `Dataset.LegalBySection` | container/SQLTextContainer.cc:878-1124 | A file is free of illegal lines exactly when its sections are |
| `Dataset.ValuesAreNonEmpty` | container/SQLTextContainer.cc:995-1042 | Reserved keys never get an empty value |
| `Dataset.SectionsAreUsable` | container/SQLTextContainer.cc:770-788 | Every section a file yields has a non-empty api and server and a non-empty select, so the empty-api and empty-SELECT exceptions are unreachable |
| `Dataset.FirstDefinitionCounts` | container/SQLTextContainer.cc:823 | A variable is defined exactly if a line above defines it, with the value of the first such line |
| `DatasetText.WrittenIsRead` | container/SQLTextContainer.cc:672-726 | A file of sections written out with literal tags and keys is read back section by section and field by field, in order, exactly when every section has an api, a server, attributes to select, a FROM text and a WHERE text that can be read if it has one; otherwise it is rejected |
| `DatasetText.ReadWritten` | container/SQLTextContainer.cc:486-661 | The container's streaming parser holds those sections and is ready, under exactly the same condition |
| `DatasetText.PairIsRead` | container/SQLTextDefinitions.h:145-160 | A line written as key=value is read as that key and that value |
| `DatasetText.DefinitionIsRead` | container/SQLTextContainer.cc:801-826 | A line written as a definition defines that variable with that value |
| `DatasetText.AttributesAreRead` | container/SQLQuery.cc:40-67 | A select part of one row with commas between attributes of distinct names is read as those attributes, the i-th with position i |
| `DatasetText.FirstEntriesCount` | container/SQLTextContainer.cc:1065-1067 | Of several optional entries under one key the first counts, and there are no other entries |
| `DatasetText.UnknownKeyIsRejected` | container/SQLTextContainer.cc:1037-1042 | A key other than the six in a section rejects the file |
| `DatasetText.FreeRowIsRejected` | container/SQLTextContainer.cc:908-911 | So does a row of another form in a section |
| `TextContainer.AddReserved` | container/SQLTextContainer.cc:993-1048 | In the section part only reserved keys are legal, others a plain error; the last value wins, and the section bit is set exactly when api and server are |
| `TextContainer.SQLTextContainer.AddKeyValue` | container/SQLTextContainer.cc:970-1124 | A key=value row is gathered into its part, or rejected exactly when it is illegal there |
| `TextContainer.SQLTextContainer.AddFreeForm` | container/SQLTextContainer.cc:878-956 | A free row is gathered into its part, skipped, or rejected exactly when it is illegal there |
| `TextContainer.SQLTextContainer.LoadWhere` | container/SQLTextContainer.cc:741-751 | The where text is read and its buffer emptied |
| `TextContainer.SQLTextContainer.LoadSelect` | container/SQLTextContainer.cc:753-768 | The select text is read and its buffer emptied |
| `TextContainer.SQLTextContainer.AddNewSection` | container/SQLTextContainer.cc:738-789 | A section is stored exactly when it is complete, as its lines describe it, and fails with an internal or a plain error otherwise; neither buffer leaks into the next |
| `TextContainer.SQLTextContainer.PartTracking` | container/SQLTextContainer.cc:672-726 | A tag starts its part; a later [section] closes the one before |
| `TextContainer.SQLTextContainer.TakeTag` | container/SQLTextContainer.cc:575-579 | After a tag line the parser state still stands for the lines read |
| `TextContainer.SQLTextContainer.TakeContent` | container/SQLTextContainer.cc:582-605 | After a content line the parser state still stands for the lines read |
| `TextContainer.SQLTextContainer.TakeRow` | container/SQLTextContainer.cc:554-607 | Each line keeps the streaming invariant, or has exactly the fault its place gives it |
| `TextContainer.SQLTextContainer.Finish` | container/SQLTextContainer.cc:618-627 | The end of the file closes the last section |
| `TextContainer.SQLTextContainer.Read` | container/SQLTextContainer.cc:486-651 | The streaming parser equals the declarative one: same sections in the same order, same empty files, same rejections with the same class of exception |
| `TextContainer.FollowsNext` | container/SQLTextContainer.cc:694-699 | Closing a section stores what its lines describe and starts an empty one |
| `TextContainer.IncompleteIsRejected` | container/SQLTextContainer.cc:777-788 | A section that is over and lacks something fails the file whatever follows |
| `TextContainer.FirstFaultIff` | container/SQLTextContainer.cc:554-627 | A file has a fault, line by line, exactly when it is rejected section by section |
| `TextContainer.FaultIsVerdict` | container/SQLTextContainer.cc:554-627 | What a file is rejected with is its first fault: internal errors for texts that cannot be read and undefined variables, plain errors for mistakes of its author |
| `TextContainer.SQLTextContainer.Setup` | container/SQLContainer.h:249-260 | Clear, read, stamp and reset: the container holds what the file says with the time of the file; an exception leaves readiness as it was |
| `TextContainer.SQLTextContainer.SetNext` | container/SQLTextContainer.h:266-279 | The section cursor advances by one and stays at the end |
| `TextContainer.SQLTextContainer.Copy` | container/SQLContainer.cc:162-194 | A copy is ready only if the original is and is up to date; its cursor is its own |
| `Registry.Gain` | SQLRequestHandler.cc:247-260 | Counting one plugin more keeps every wrap count equal to the number of plugins serving the command |
| `Registry.Loss` | SQLRequestHandler.cc:262-276 | A plugin that serves a command has it counted, and counting it no more keeps every wrap count right |
| `Registry.InstalledIsServed` | SQLRequestHandler.cc:250-260 | A command other than those of the base handler is installed exactly when some plugin serves it |
| `Registry.Plugin.constructor` | SQLPlugin.h:128-136 | A new plugin serves nothing and changes no count |
| `Registry.Plugin.AddHandler` | SQLPlugin.cc:48-71 | Adds the handler and its wrapper, does nothing if there is one, and fails without effect exactly when a listed plugin bears the name of the command |
| `Registry.Plugin.RemoveHandler` | SQLPlugin.cc:73-99 | Removes the handler, and the wrapper with the last plugin that needed it; the exception for an unwrapped command is unreachable |
| `Registry.Plugin.RemoveHandlers` | SQLPlugin.cc:34-46 | All handlers go, and commands of no concern to the plugin stay |
| `Registry.RequestHandler.AddSqlWrapper` | SQLRequestHandler.cc:247-260 | One use more of a wrapper, unless a plugin bears its name |
| `Registry.RequestHandler.RemoveSqlWrapper` | SQLRequestHandler.cc:262-276 | One use less, and the method with the last |
| `Registry.RequestHandler.UpdateWrapCount` | SQLRequestHandler.cc:278-304 | Counts up or down; keys exist for positive counts only, and it fails exactly when an uncounted command is to be counted down |
| `Registry.RequestHandler.AddSqlHandler` | SQLRequestHandler.cc:236-245 | Lists a plugin under a free name |
| `Registry.RequestHandler.RemoveSqlHandler` | SQLRequestHandler.cc:208-220 | A plugin leaves the list, and its share of every wrap count with it |
| `Failover.FindSqlPlugin` | SQLRequestHandler.cc:457-492 | The cursor moves to the next section with a plugin other than the base one, or to the end; an empty api on the way is an exception |
| `Failover.TryNext` | SQLRequestHandler.cc:338-409 | The handler of the next such section runs, exceptions count as no answer, and the cursor moves past it |
| `Failover.LastChanceRunner` | SQLRequestHandler.cc:314-452 | The handlers that run are those of the sections having one, in order, each once, up to the first that answers done; the command is served exactly when, before any section without an api, some section's plugin is not the base one and has a handler for the command that answers done |
| `Failover.Serve` | SQLRequestHandler.cc:314-452 | For a dataset read from a file the command is served exactly when the handler of some section answers done, whatever the other handlers answer |
| `Cache.Server.LookFor` | container/SQLContainerStorageVolatile.cc:47-93 | A copy of what is stored, read again if too old; the storage never shares a container with a caller |
| `Cache.Server.Update` | container/SQLContainerStorageVolatile.cc:32-45 | The stored container is replaced by a copy |
| `Cache.Server.BuildContainer` | container/SQLContainerFactory.cc:155-177 | A container read from its file; an exception that is no internal error ends the process, as the exception specification has it |
| `Cache.Server.GetContainer` | container/SQLContainerFactory.cc:91-127 | Over any history of writes: the returned container is ready and holds some version of the file less than 10 s from the current one, the current one if versions are 10 s apart; there is one exactly when the stored one is up to date or the file can be read; the process ends exactly when nothing is stored and the file has a mistake of its author first |
| `Cache.Server.Refresh` | container/SQLContainerFactory.cc:69-86 | A container brought by the request is read and stored |
| `Cache.Server.Write` | container/SQLContainer.cc:60-79 | Writing a file leaves what is stored a version of it |
| `Cache.Serve` | container/SQLContainerFactory.cc:91-127 | Over every run of writes, deletions and requests each request is answered right, up to the first that ends the process, and the run is cut short nowhere else |
| `Cache.Handle` | container/SQLContainerFactory.cc:91-127 | One event keeps the server in line with the run; a request is answered right or, exactly under that condition, ends the process |
| `Cache.SpacedIsLast` | container/SQLContainer.cc:64 | Among versions 10 s apart only the last passes for it |
| `Cache.TwoVersions` | container/SQLContainer.cc:64 | After two versions a request gives the first exactly when their times are less than 10 s apart |
| `Actions.ActionList.DoNext` | action/SQLStaticActionList.h:86-88 | The list is past an action before it runs |
| `Actions.Factory.GetActions` | DEM/SQLErrorFactory.h:89-94 | A list is handed out from its start, whatever state it was left in |
| `Actions.Treatment.Abort` | action/SQLActionManager.h:171-186 | The first action that neither gives a value nor throws a BESInternalError, all before it having done so |
| `Actions.TryNext` | action/SQLActionManager.h:217-269 | A BESInternalError becomes no value, another BESError a fatal error; everything else passes as it is |
| `Actions.DoOne` | action/SQLActionManager.h:170-182 | One turn of the inner loop runs the next action with its own message, or the first one |
| `Actions.DoList` | action/SQLActionManager.h:165-186 | On what the actions do: the values before the first exception that is no BESInternalError are merged; if there is none or it is an SQLInternalError the merge is kept, a fatal or other BESError escapes as fatal, anything else as it is; and so many messages are asked for |
| `Actions.DoActions` | action/SQLActionManager.h:142-202 | The loops equal a fold of join over codes of folds of merge over actions, independent of the state of the lists |
| `Actions.RunOneCode` | action/SQLActionManager.h:142-202 | One code of that fold, on what its actions do: join the merge and go on unless the code stops, or throw, by the class of the first exception that is no BESInternalError |
| `Actions.RunEnds` | action/SQLActionManager.h:142-202 | Without a code the fold returns what was joined; a code without a list throws, or ends the process where the exception specification does not allow what is thrown |
| `Actions.NothingAfterAStop` | action/SQLActionManager.h:199 | Nothing after a code that stops is looked at |
| `Actions.DefaultsReturnNothing` | action/SQLActionManager.h:84-112 | With the default merge and join nothing is ever returned |
| `Actions.OdbcCheck` | unixODBC/ODBCErrorFactoryComponent.cc:33-109 | The first status code decides: success, information and no data return, error and invalid handle are fatal, and any other ends the process, since what is thrown for it is not in the exception specification |
| `TemplateFilter.PlaceStep` | bin/filter.awk:54-84 | The parity of the markers before a line is the toggled state |
| `TemplateFilter.Filter.Toggle` | bin/filter.awk:54-71 | A response marker opens a block if none is open and closes whichever is |
| `TemplateFilter.Filter.Row` | bin/filter.awk:54-145 | Each line is printed exactly when the response block and the mode block it stands in are asked for |
| `TemplateFilter.Filter.Run` | bin/filter.awk:54-145 | For any text the script prints what its markers say |
| `TemplateFilter.DocumentPrints` | bin/filter.awk:54-145 | Within any place a well-formed document prints its selected lines or nothing, and restores the state |
| `TemplateFilter.WholeDocument` | bin/filter.awk:54-145 | For documents made of blocks the toggles equal the structural filter |
| `TemplateFilter.MarkersAre` | bin/filter.awk:54-84 | A line with one of the five markers and no other hash counts as that marker |
| `TemplateFilter.RunBlocks` | bin/filter.awk:54-145 | A text with a block of each marker prints the lines of exactly the blocks asked for, in order |

## Left out

- ODBC calls, buffer binding, SQL error text and the replacement of NULL cells: only "a fetch puts the next row into the column buffers" is kept, and a fetch past the last row is taken to leave them alone.
- Casting of cells to DAP types, and the additional cast that debug output makes in DTM/SQLSimpleType.h.
- Errors the type or error factories raise while reading; `BuildNext` takes the outcome of the factory for each column as a parameter.
- `ResultStream.OdbcConnector.Query`: bounds the row count by a signed 64-bit long and the columns by a signed 16-bit short, the types they are read into.
- The row count query (`buildCountQuery`), which ignores the client's constraint and parses its own text: the count is a parameter that need not be right.
- WHERE predicates: constraint expressions, comparator substitution and their set order, which is no strict order; the parser takes the reading of a WHERE text as a parameter that may fail.
- Decoding of escaped characters in a constraint (`BESUtil::www2id`), and character ranges in locales other than the POSIX one.
- Content before the first tag of a file, where the source reads an unset variable (container/SQLTextContainer.cc:544): such files are excluded by `Dataset.NoOrphans`.
- `TextContainer.SQLTextContainer.Read`: starts from empty side buffers, as every container in the source does; a container whose reading failed is given up.
- Exceptions that are no BESError, such as running out of memory, while a file is read.
- Reading a file and asking for its time are one step in `Cache`; the request's attributes and constraint, set on the returned container, are not part of its state.
- The branch of `getContainer` that returns a container already ready without looking at the file (container/SQLContainerFactory.cc:61-67), and the one without storage.
- `remove_sql_handlers`, which uses its iterator after erasing (SQLRequestHandler.cc:225-233): plugins are removed one at a time.
- The copy constructor of plugins, which copies handlers without counting them, and null handler pointers.
- `Registry.InstalledIsServed`: says nothing about the base handler's own commands, which go with the last plugin that served one of the same name.
- Errors raised while an action asks for its argument, and null merge or join functions, which stand for the defaults.
- The text substitution of the template filter is a parameter.
- Singletons and their locks, module loading, dump, version and help responses, smart pointers and clones, the sqlite plugin and the C++ templates.
