# MiniSQL engine, modelled in Dafny

This project models the storage and command engine of MiniSQL (`minisql.cpp`), a small SQL-like interpreter. The engine keeps a global catalog that maps each table name to its column list. It stores everything in plain text files:

- `catalog.txt` is an append-only log of table definitions, one `name,col1,…,colN` line each;
- `<t>.txt` holds the rows of table `t`, one comma-joined line per row;
- `temp_<t>.txt` is the scratch file that a `DELETE FROM` fills and then renames over `<t>.txt`.

The read loop left-trims each input line and upper-cases it. It then hands the line to `createTable`, `insertInto`, `selectFrom` or `deleteFrom` by prefix, stops at `EXIT`, and refuses anything else. At start-up the catalog is rebuilt by replaying the log; a later line for a name overrides an earlier one.

The model is organised as follows:

- The state is a catalog `map<string, seq<string>>` and a file system `map<string, seq<string>>` from file name to lines.
- The C++ stream reads used for parsing are modelled exactly in `streams.dfy`:
  - `stream >> word` skips `isspace` characters, then sets eof at the end and fail on nothing read.
  - `getline(stream, s, d)` consumes the delimiter; on a stream that is not good it fails and leaves `s` unchanged.
- Each command is defined twice:
  - `semantics.dfy` gives it as a function from the old state to a `Step` (new state, printed messages, whether the loop goes on);
  - the class `MiniSql.Database` in `minisql.dfy` redoes it imperatively, loop by loop, with the catalog and the files as fields. Each method is proved to end exactly in the state its function describes.
- The remaining files prove properties of those functions:
  - `catalog_log.dfy`: the catalog log and replay;
  - `delete_filter.dfy`: the delete filter;
  - `extraction.dfy`: what each handler takes out of its command line;
  - `parsing.dfy`: dispatch and per-command effects.

Where the program does something other than its command syntax suggests, the model follows the program:

- `insertInto` opens the table's file with `ios::app`, which creates it. So an insert into a table that was never created succeeds and creates `<t>.txt`; it does not fail with a storage error.
- In `createTable`, when there is no `(` the first `getline` takes the whole rest of the line and the second one fails without clearing it. The rest of the line then becomes the column text, instead of a parse error or an empty column list.
- `deleteFrom` on a command whose first `WHERE` (or, without one, whose first `where`) ends it throws `out_of_range` from `substr` and ends the process (`Aborted`), instead of reporting a parse error.
- An unknown `WHERE` column on an empty table never clears `whereColumnValid`. The empty scratch file therefore replaces the table, and "no matching rows" is printed.
- A table named exactly `catalog` has the log as its record file. `createTable` appends the definition and then truncates the file, which wipes the log.
- The in-memory catalog and the catalog a restart rebuilds agree after every command in all but three cases. The three exceptions are a name containing a comma, a definition whose last column is empty (`( a, )`), and a table named exactly `catalog`. Names that reach the log's file under another spelling (`./catalog`, or `CATALOG` on a case-insensitive file system) are outside the model; see "Left out". `CreateKeepsSynced`, `TrailingEmptyColumnLost`, `CommaInNameSplits` and `CreateCatalogWipesLog` state this.

## Model

| member | source | states |
|---|---|---|
| Text.TrimStart | minisql.cpp:19 | the index `find_first_not_of(" \t\n\r")` returns: everything before it is a trim character, the character at it is not, and the length of the text stands for `npos` |
| Text.LTrim | minisql.cpp:18-21 | the result starts with a character other than space, tab, LF or CR, and is "" exactly when every input character is such a character |
| Text.LTrimIsSuffix | minisql.cpp:18-21 | `ltrim` returns a suffix of its input, and what it drops consists of trim characters only |
| Text.ToUpper | minisql.cpp:23-26 | upper-casing keeps the length |
| Text.ToUpperMeaning | minisql.cpp:23-26 | each lower-case ASCII letter becomes its capital, every other character is kept, no lower-case letter remains, and upper-casing twice is upper-casing once |
| Text.Find | minisql.cpp:68-69 | `find(pat, from)` returns the first position at or after `from` where `pat` occurs, or none when it occurs nowhere from there |
| Text.FindChar | minisql.cpp:79-80 | `find(c, from)` returns the first index at or after `from` holding `c`, or none when no such index exists |
| Text.FindFirst | minisql.cpp:68-69 | `find(pat)` from the start reports none exactly when `pat` occurs nowhere, and otherwise the position of its first occurrence |
| Text.IndexOf | minisql.cpp:203-205 | `std::find` over the columns returns the first index holding the name, and `size()` exactly when the name is absent |
| Text.FindAtZeroIsPrefix | minisql.cpp:303 | `find(p) == 0` holds exactly when `p` is a prefix, so the `DELETE FROM` test is a prefix test like the `rfind(…, 0) == 0` ones |
| Text.RemoveIf | minisql.cpp:50 | the erase-remove idiom leaves no dropped character and never lengthens the text |
| Text.RemoveIfAppend | minisql.cpp:50 | erasing keeps the surviving characters in their order: erasing a concatenation erases each part |
| Text.RemoveIfLTrim | minisql.cpp:196-201 | erasing every white-space character after `ltrim` gives what erasing alone gives |
| Text.RemoveIfNothing | minisql.cpp:77 | erasing a text that has no droppable character leaves it unchanged |
| Text.RemoveIfMembers | minisql.cpp:200-201 | a character survives erasing exactly when it was present and is not one of the erased characters |
| Text.Split | minisql.cpp:49 | the pieces repeated `getline(…, d)` yields contain no `d`, and there are none exactly when the text is empty |
| Text.SplitRejoins | minisql.cpp:49 | joining the pieces with `d` gives the text back, or the text without its final `d` |
| Text.JoinSnoc | minisql.cpp:31-33 | writing one more column appends a comma and the column to the line |
| Text.SplitJoin | minisql.cpp:279-281 | splitting a comma-joined line gives the fields back, provided no field contains a comma and the last field is not empty |
| Streams.SkipSpace | minisql.cpp:40 | `>>` skips exactly the leading `isspace` characters |
| Streams.WordEnd | minisql.cpp:41 | a word read by `>>` extends up to the next `isspace` character or the end |
| Streams.ReadWord | minisql.cpp:40-41 | `>>` fails exactly on a stream that is not good or has only white space left; otherwise it reads a non-empty run of non-space characters, sets eof exactly at the end, and stops before a space |
| Streams.GetLine | minisql.cpp:44-45 | `getline` fails exactly when the stream is not good or exhausted, and never moves past the end |
| Streams.GetLineNext | minisql.cpp:49 | one `getline` delivers the first remaining field and moves forward, or fails exactly when no field remains |
| Streams.Clean | minisql.cpp:50-51 | storing the fields keeps their number, and without erasing keeps them as read |
| Streams.CleanErases | minisql.cpp:92-93 | each stored field is the read field with its spaces erased |
| Streams.ReadFields | minisql.cpp:49-52 | the `while (getline(…, ','))` push-back loop collects exactly the fields `Split` gives of the rest of the stream, each cleaned |
| Commands.Classify | minisql.cpp:294-310 | which handler the read loop gives a line to; its properties are in `Parsing.ClassifyIgnoresCase`, `Parsing.ClassifyIgnoresPadding` and `Parsing.ClassifyOrder` |
| Commands.ParseCreate | minisql.cpp:38-52 | the name and columns `createTable` reads with `>>` and `getline`; stated by `Extraction.ParseCreateColumns`, `Extraction.ParseCreateNoParen`, `Extraction.ParseCreateAt` and `Extraction.ParseCreateShape` |
| Commands.ParseInsert | minisql.cpp:66-94 | the name and values `insertInto` extracts, or its syntax error; stated by `Extraction.InsertNeedsKeywords`, `Extraction.InsertNoOpenParen`, `Extraction.InsertNoCloseParen`, `Extraction.InsertValuesAt` and `Extraction.InsertValuesShape` |
| Commands.ParseSelect | minisql.cpp:113-121 | the table name `selectFrom` extracts; stated by `Extraction.SelectAfterFrom` |
| Commands.ParseDelete | minisql.cpp:145-164 | the table name and clause `deleteFrom` extracts; stated by `Extraction.DeleteNameAt`, `Extraction.DeleteClauseAfterUpper`, `Extraction.DeleteClauseAfterLower` and `Extraction.DeleteWithoutKeyword` |
| Commands.ParseWhere | minisql.cpp:194-201 | there is no clause exactly when the clause text is empty, the clause is malformed exactly when it is non-empty without `=`, and the column and value contain no white space |
| Commands.ParseWhereMeaning | minisql.cpp:194-201 | the clause has a column and a value exactly when it contains `=`; they are the texts before and after its first `=`, each with every white-space character erased |
| Semantics.CatalogLine | minisql.cpp:28-35 | the log line of a definition; its round trip is `CatalogLog.CatalogLineRoundTrip` |
| Semantics.CatalogEntry | minisql.cpp:275-281 | the definition a log line is read back as; see `CatalogLog.CatalogLineRoundTrip` and `CatalogLog.CommaInNameSplits` |
| Semantics.Replay | minisql.cpp:274-283 | the catalog-load loop; its last-wins meaning is `CatalogLog.ReplayLastWins` |
| Semantics.Startup | minisql.cpp:271-284 | the state after loading; see `CatalogLog.StartupSynced` and `MiniSql.Database.Open` |
| Semantics.CreateStep | minisql.cpp:37-63 | `createTable` on the state; stated by `CatalogLog.CreateEffects` |
| Semantics.InsertStep | minisql.cpp:65-110 | `insertInto` on the state; stated by `Parsing.InsertEffects` |
| Semantics.SelectOutput | minisql.cpp:112-140 | what `selectFrom` prints; stated by `Parsing.SelectShowsRows` and `Parsing.SelectMissingTable` |
| Semantics.KeepRow | minisql.cpp:189-225 | whether the row loop writes a line to the scratch file; used by `DeleteFilter.KeptRowsCounts` and `DeleteFilter.DeleteKnownColumn` |
| Semantics.KeptRows | minisql.cpp:188-227 | the row loop writes no more lines than the table has |
| Semantics.DeleteLoopStep | minisql.cpp:188-227 | one more line of the loop appends it to the scratch file exactly when it is kept, sets `deleted` exactly when it is not, and adds one warning exactly when the clause is malformed |
| Semantics.DeleteRows | minisql.cpp:166-256 | `deleteFrom` from opening the table on; stated by the `DeleteFilter.Delete…` lemmas |
| Semantics.DeleteStep | minisql.cpp:144-256 | `deleteFrom` on the state; see `Parsing.DeleteAborts` and `DeleteFilter.MixedCaseWhereEmptiesTable` |
| Semantics.ExecuteStep | minisql.cpp:294-310 | one pass of the read loop; see `Parsing.DispatchFallThrough` and `MiniSql.Database.Execute` |
| CatalogLog.TableFileIsLog | minisql.cpp:59 | a table's record file has the name `catalog.txt` exactly when the table is called `catalog`; file names are compared as texts, not as paths |
| CatalogLog.TempFileIsNotLog | minisql.cpp:172 | no scratch file of a delete is the catalog log |
| CatalogLog.CatalogLineRoundTrip | minisql.cpp:28-35 | a log line written by `saveTable` reads back at start-up as the definition it came from, when neither the name nor a column contains a comma and the last column is not empty |
| CatalogLog.ReplaySnoc | minisql.cpp:282 | a log line added at the end overrides the entry of its name and nothing else |
| CatalogLog.ReplayIsOverlay | minisql.cpp:274-283 | replaying the log writes its entries into the catalog one after another |
| CatalogLog.OverlayKeys | minisql.cpp:282 | a name is in the replayed catalog exactly when some entry defines it |
| CatalogLog.OverlayLast | minisql.cpp:282 | the replayed catalog holds, for a name, the columns of the last entry that defines it |
| CatalogLog.ReplayLastWins | minisql.cpp:271-284 | start-up is last-wins: a name is loaded exactly when a log line carries it, with the columns of the last such line |
| CatalogLog.StartupSynced | minisql.cpp:271-284 | at start-up the in-memory catalog is the one a restart would rebuild, and no file is touched |
| CatalogLog.CreateColumnsClean | minisql.cpp:47-52 | every column `createTable` stores is free of commas and spaces |
| CatalogLog.CreateEffects | minisql.cpp:54-62 | after `createTable` the catalog maps the name to the parsed columns and `<name>.txt` exists and is empty. Unless the table is `catalog`, the log gains exactly one line, `name,c1,…,cn`. No other file changes. |
| CatalogLog.TrailingEmptyColumnLost | minisql.cpp:31-33 | the columns `a,` (last one empty) are logged as `t,a,` and read back as `a` alone |
| CatalogLog.CommaInNameSplits | minisql.cpp:277 | a name containing a comma is logged as is and read back split at that comma |
| CatalogLog.CreateKeepsSynced | minisql.cpp:55-57 | `createTable` keeps the catalog and the log in agreement unless the name contains a comma, the last column is empty, or the table is `catalog` |
| CatalogLog.CreateCatalogWipesLog | minisql.cpp:57-60 | creating a table called `catalog` leaves the log empty, so a restart knows no table |
| CatalogLog.InsertKeepsSynced | minisql.cpp:96-106 | `insertInto` keeps the catalog and the log in agreement unless it writes to `catalog.txt` |
| CatalogLog.DeleteKeepsSynced | minisql.cpp:166-256 | `deleteFrom` keeps the catalog and the log in agreement unless it rewrites `catalog.txt` |
| DeleteFilter.KeptRowsInOrder | minisql.cpp:188-227 | the rewritten table is a subsequence of the old one: the kept rows keep their order |
| DeleteFilter.SubsequenceOfFront | minisql.cpp:188-227 | a subsequence of a prefix of the rows is a subsequence of the rows |
| DeleteFilter.SubsequenceShrink | minisql.cpp:188-227 | dropping the last kept row keeps a subsequence |
| DeleteFilter.KeptRowsCounts | minisql.cpp:213-224 | every line occurs in the rewritten table as often as before when the keep rule keeps it, and not at all otherwise |
| DeleteFilter.SomeDroppedMeans | minisql.cpp:185-214 | `deleted` ends up set exactly when some line was not kept |
| DeleteFilter.KeptRowsAll | minisql.cpp:222-225 | when every line is kept, the table comes back unchanged |
| DeleteFilter.KeptRowsNone | minisql.cpp:189-192 | without a clause no line is kept |
| DeleteFilter.DeleteNoClause | minisql.cpp:189-192 | without a clause the table becomes empty, the scratch file is gone, the catalog is unchanged, and "Deleted" is printed exactly when the table had a line |
| DeleteFilter.DeleteUnknownColumn | minisql.cpp:218-237 | a clause on an unknown column, on a non-empty table, leaves `<name>.txt` unchanged, removes the scratch file, leaves the catalog alone, and prints only the column error |
| DeleteFilter.DeleteUnknownColumnEmptyTable | minisql.cpp:186-188 | the same clause on an empty table replaces the table by the empty scratch file, leaves the catalog alone, and prints "no matching rows" |
| DeleteFilter.DeleteMalformedClause | minisql.cpp:222-225 | a clause without `=` gives back exactly the table's lines, with one format warning per line, then "no matching rows", and leaves the catalog alone |
| DeleteFilter.DeleteKnownColumn | minisql.cpp:203-217 | a known column at index i keeps the old lines in order, minus exactly those whose i-th comma field equals the value. It removes the scratch file, prints "Deleted" exactly when some line matched, and changes neither the catalog nor any other file. |
| DeleteFilter.MixedCaseWhereEmptiesTable | minisql.cpp:155-164 | `DELETE FROM t Where a = 1` finds neither `WHERE` nor `where`, so it empties the whole table |
| Parsing.UpperKeepsTrimSpace | minisql.cpp:294-295 | upper-casing neither creates nor removes the characters `ltrim` skips |
| Parsing.TrimStartUpper | minisql.cpp:294-295 | upper-casing leaves the number of leading trim characters alone |
| Parsing.LTrimUpper | minisql.cpp:294-295 | left-trimming and upper-casing commute |
| Parsing.ClassifyIgnoresCase | minisql.cpp:294-305 | dispatch gives the same handler to a line and its upper-cased copy |
| Parsing.TrimStartPadded | minisql.cpp:19 | a prefix of trim characters adds its length to the trimmed start |
| Parsing.ClassifyIgnoresPadding | minisql.cpp:294-305 | dispatch ignores leading spaces, tabs, LFs and CRs |
| Parsing.ClassifyOrder | minisql.cpp:297-310 | a handler gets the line exactly when its prefix matches the trimmed, upper-cased line and no earlier prefix does; anything else that is not `EXIT` is refused |
| Parsing.DispatchFallThrough | minisql.cpp:305-310 | a refused line prints "Invalid command" and changes nothing, and `EXIT` ends the loop and changes nothing |
| Parsing.InsertEffects | minisql.cpp:71-107 | a rejected insert writes nothing. An accepted one appends exactly one line, the values joined by single commas, to `<name>.txt` (creating it), and changes no other file and not the catalog. |
| Parsing.SelectShowsRows | minisql.cpp:129-139 | on an existing table `selectFrom` prints a header, then the file's lines in order, then "(no data found)" exactly when there was no line |
| Parsing.SelectMissingTable | minisql.cpp:123-127 | on a missing table `selectFrom` prints only "does not exist" |
| Parsing.DeleteAborts | minisql.cpp:162-164 | a `WHERE` that ends the command aborts the program with no state change |
| Extraction.ReadWordAt | minisql.cpp:40-41 | `>>` on a word preceded only by white space and followed by a space reads exactly that word |
| Extraction.GetLineAt | minisql.cpp:44-45 | `getline` reads up to the first delimiter and consumes it |
| Extraction.ParseCreateAt | minisql.cpp:38-52 | on a line of three words, ` (`, a text without `)`, then `)`, the name is the third word and the columns are the comma fields of that text with spaces erased |
| Extraction.CreateLineLayout | minisql.cpp:38-45 | where the words, the spaces and the parentheses of `CREATE TABLE name (body)` sit |
| Extraction.ParseCreateShape | minisql.cpp:38-52 | `CREATE TABLE name (body)…` parses to that name and the comma fields of `body`, spaces erased |
| Extraction.ParseCreateColumns | minisql.cpp:43-52 | with any spacing, once the three words are read, the columns are the comma fields between the first `(` and the next `)`, spaces erased; text between the name and that `(` is dropped |
| Extraction.ParseCreateNoParen | minisql.cpp:43-52 | with no `(` after the name, the rest of the line becomes the column text |
| Extraction.CreateNameAt | minisql.cpp:38-41 | three words followed by a space: the third is the table name, and the stream stands at that space |
| Extraction.ColumnsDefAt | minisql.cpp:43-45 | from any stream position, the two `getline` reads leave in `columnsDef` exactly the text between the first `(` and the next `)` |
| Commands.ValuesTextAt | minisql.cpp:79-86 | once the `(` search from `VALUES` returns o and the `)` search from o returns c, the values text is the one between them, and there is none (the syntax error) exactly when c is o + 1 |
| Extraction.InsertNeedsKeywords | minisql.cpp:66-74 | "Invalid INSERT syntax" is reported exactly when `INTO` or `VALUES` occurs nowhere in the upper-cased command |
| Extraction.InsertNoOpenParen | minisql.cpp:79-83 | with no `(` after the first `VALUES` the insert is refused with "Invalid VALUES syntax" |
| Extraction.InsertNoCloseParen | minisql.cpp:79-83 | with no `)` after the first such `(` the insert is refused the same way |
| Extraction.InsertValuesAt | minisql.cpp:76-94 | with `INTO` first at t, `VALUES` first at v, the first `(` after it at o and the next `)` at c: `()` is refused, and otherwise the name is the text between the keywords (all of the rest when `VALUES` comes first) with spaces erased, and the values are the comma fields between the parentheses with spaces erased |
| Extraction.InsertMissingOpenParen | minisql.cpp:79-83 | `INSERT INTO t VALUES 1,2)` is refused with "Invalid VALUES syntax" |
| Extraction.InsertExample | minisql.cpp:66-94 | `INSERT INTO t VALUES (1, 2)` inserts the values `1` and `2` into `t` |
| Extraction.InsertValuesShape | minisql.cpp:86-94 | an accepted insert has at least one value, none contains a comma or a space, and the written line splits back into the values unless the last one is empty |
| Extraction.SelectAfterFrom | minisql.cpp:113-121 | the table name is the left-trimmed text after the first `FROM` of the upper-cased command |
| Extraction.SelectKeepsTrailingText | minisql.cpp:120-121 | trailing text stays in the name: `SELECT * FROM t;` looks for table `t;` |
| Extraction.ReadWordToEnd | minisql.cpp:150 | `>>` on a word that runs to the end of the line reads it and sets eof without failing |
| Extraction.ThirdWordAt | minisql.cpp:148-150 | two `>>` reads and a third one take the third word, whether a space or the end follows it |
| Extraction.DeleteNameAt | minisql.cpp:148-153 | `deleteFrom` takes the third word as the table name and does not report it missing |
| Extraction.DeleteClauseAfterUpper | minisql.cpp:157-164 | with the first `WHERE` at i the clause is the text from i + 6 on, and a `WHERE` that ends the line aborts |
| Extraction.DeleteClauseAfterLower | minisql.cpp:157-164 | only when there is no `WHERE` is the first `where` used, in the same way |
| Extraction.DeleteWithoutKeyword | minisql.cpp:157-164 | with neither `WHERE` nor `where`, mixed case included, the clause is empty |
| Extraction.DeleteMixedCaseWhere | minisql.cpp:157-164 | `DELETE FROM t Where a = 1` targets table `t` with no clause |
| MiniSql.Database.Open | minisql.cpp:271-284 | the catalog-load loop ends with the catalog replayed from `catalog.txt` (empty when there is no log) and the files as found |
| MiniSql.Database.SaveTable | minisql.cpp:28-35 | `saveTable` appends exactly the line `name,c1,…,cn` to the log and leaves the catalog alone |
| MiniSql.Database.CreateTable | minisql.cpp:37-63 | the handler ends in the state and prints the messages that `CreateStep` gives |
| MiniSql.Database.InsertInto | minisql.cpp:65-110 | the handler ends in the state and prints the messages that `InsertStep` gives |
| MiniSql.Database.JoinValues | minisql.cpp:102-105 | the write loop produces the values joined by single commas, with none after the last |
| MiniSql.Database.SelectFrom | minisql.cpp:112-140 | the handler prints exactly `SelectOutput` and changes nothing |
| MiniSql.Database.DeleteFrom | minisql.cpp:144-164 | the handler ends in the state, prints the messages and takes the status that `DeleteStep` gives |
| MiniSql.Database.DeleteRows | minisql.cpp:166-256 | from opening the table on, the handler ends as `Semantics.DeleteRows` describes |
| MiniSql.Database.FilterRows | minisql.cpp:184-227 | the row loop fills the scratch file with exactly `KeptRows`, sets `deleted` exactly when a line was dropped, clears `whereColumnValid` exactly on an unknown column with at least one line, and prints one warning per line for a malformed clause |
| MiniSql.Database.FilterRow | minisql.cpp:189-226 | one pass of the loop writes the line exactly when the keep rule keeps it and updates the two flags and the warnings accordingly |
| MiniSql.Database.Execute | minisql.cpp:294-310 | one pass of the read loop ends in the state, prints the messages and takes the status that `ExecuteStep` gives |

## Left out

- File system failures are not modelled: a file that cannot be opened, a scratch file that cannot be created, and a failing `remove` or `rename`. Every open, remove and rename succeeds, and the remove-then-rename replace is one step. The "Could not open file", "Could not create temporary file" and rename or delete error branches are therefore absent, and so is the window between the two calls.
- Console text is not modelled: `cout`/`cerr` wording, `printHelp` and the welcome banner. Each printed line is a `Message` constructor.
- The read loop itself (`getline(cin, input)` at minisql.cpp:292) is not modelled. `Execute` is one pass of it, and the line is a parameter.
- `::toupper` and `::isspace` are taken in the "C" locale, on ASCII. Other locales are not modelled.
- Flushing (`endl`) and process exit are not modelled.
- File names are compared as texts. The model does not resolve paths, so it does not know that `./catalog.txt`, `a/../catalog.txt` or, on a case-insensitive file system, `CATALOG.txt` are the log too; the statements about a table named `catalog` cover only that exact spelling.
- Lines are atomic: a value or column containing a newline, which would split a stored line in two, is not modelled.
- MiniSql.Database.InsertInto: takes the name and values from the pure `ParseInsert` instead of re-running the value-reading `getline` loop inside the method, because that loop and the parse of the positions together exceeded the verifier's budget. `ReadFields` proves the same `getline` loop once, for `createTable`, the start-up loop and the delete loop.
- Semantics.KeptRows: its own contract states only the length bound. The meaning of the filter is in `KeptRowsInOrder`, `KeptRowsCounts` and `SomeDroppedMeans`.
- Text.ToUpper: its own contract states only the length. The character-by-character meaning is in `ToUpperMeaning`.
- Text.RemoveIf: its own contract states only what is dropped and the length bound. That the survivors keep their order is `RemoveIfAppend`.
- Text.Split: its own contract states only that no piece holds the delimiter and when there are none. That the pieces rejoin to the text is `SplitRejoins`.
- Commands.ParseWhere: its own contract states the three shapes. Where the column and the value come from is `ParseWhereMeaning`.
