# A verified model of git-chat

This Dafny project models the parts of git-chat in which data is parsed, stored, rearranged or printed, and proves what they promise. It stands beside the C sources; every path below is relative to the root of that repository. `dafny verify dfyconfig.toml` checks everything.

There are two layers. Pure functions describe what the C code computes on values: the key language, a tree of sections, the printer and the line parser, the record framing, the commit header parser, the option scanner. Classes and methods follow the C code step by step: buffers and arrays are shifted in place, the config tree and the gpg key list live in the heap with their pointers, loops carry their cursors. Each method is proved to do what its function says, and the theorems are about the functions. Where the code does not do what it promises, there is a theorem that says exactly when it does. What is accepted as a key, a config line, a config file, a numeral or a commit stream is also described by a grammar, which names none of the scanning functions, and for each of them a theorem says that exactly its texts are read, and as what they mean.

What the project shows, main results first:

* **The config file.** Writing a tree and parsing the text gives the tree back, without sections that hold no property, *if and only if* all names on the way to a value are non-empty and printable and all values are printable (`RoundTripIff`). A run of `--set`, `--unset` and `--get` commands on a good file behaves like the same run on a finite map, output and exit codes included (`RunRefinesMap`). Setting a key works if and only if its components are good and the value is printable (`SetWorksIff`); the key `""` passes the validity test and leaves a file that no longer parses (`EmptyQuotedKeyBreaksFile`). The reader runs off its buffer if and only if, behind lines it reads without an error, a value in quotes ends in an odd number of backslashes (`ParseOverrunIff`, `OverrunIff`). No written file with printable names and values has such a line, but setting a value that has a quote and a line feed makes one (`WrittenStaysInside`, `LineFeedValue`).
* **Files written by hand.** A text is read without an error if and only if its lines are white space, section heads and property lines of the grammar and no path is set twice (`ParseIff`), and the tree then stands for exactly the settings that are written there (`ParseMeans`). A line is a given property with a given value if and only if it is written so (`ReadPropertyIff`).
* **The config tree.** Insert, update, delete and find refine a finite map from paths to values and keep siblings unique and all other properties in their order; in the heap, parent links, child lists and positions agree after every operation. The visitor returns the sections in preorder, each once, with the stack equal to the way from the root. Releasing frees each section once, children first.
* **The key language.** A text is a valid key if and only if it is parts with periods between them, each a bare word or escaped text in double quotes (`ValidKeyIff`), and isolating gives what these mean (`IsolateIff`). Isolating and merging are inverse on lists of good components, and isolation distributes over a period. What merging writes is the shortest spelling of each component (`EscapeIsShortest`).
* **The commit stream.** However the output of `git cat-file` is cut into chunks, each commit is delivered once and in order, whatever its bytes look like. The read loop stops if and only if the stream consists of whole records, fails if and only if one is malformed, and never ends on a stream that breaks off inside a record (`RunEndsIff`).
* **Commits.** Parsing a written commit gives back every part it was written from, offsets in minutes (`CommitReads`); without a tree, author or committer line, or with a broken one, it is rejected (`TreeRejected`, `AuthorRejected`, `CommitterRejected`).
* **Environment merging.** No child entry and no parent entry with a key of its own is ever lost. The result is exactly right, for all lists with keys from a given set, if and only if no key of the set is continued in another one by a character below `=` (`MergeRightIff`). For one pair of lists it is right if and only if, at each common key, the sorted lists have the same key just before it wherever one of them has there a key that continues it below `=` (`MergeRightExactly`).
* **Option parsing.** Every command line written in the documented syntax is read as it was meant, both when the scan stops at the first unknown argument, as all commands have it, and when it goes on (`CommandLineReads`). Numerals store their value, clamped to a `long` and narrowed to an `int` (`NumeralReads`, `NarrowedIff`); every group of short flags is one of the kinds described (`EveryGroup`). What is left of the argument vector is an order-preserving subsequence, a suffix when the scan stops at the first unknown argument, and untouched behind a `--`. The scan reads behind the last argument if and only if that argument is not taken as a value and is a group of boolean flags that ends in a flag taking a number (`CrashIff`, `GroupCrashesIff`, `LineCrashesIff`); `git chat read -n` does it (`ReadWithoutNumber`).
* **Recipients.** The keys encrypted to are exactly the usable, public, requested and trusted ones, and nothing is encrypted exactly if the number of keys that answer is not that of the recipients (`SelectedNoneIff`). The test that the number of keys equals the number of recipients can be trusted if and only if no two keys answer to the same name (`CountTestSoundIff`).
* **Channels.** Every channel is printed exactly once, local ones first, then one group for each origin in the order of first appearance. Refs are taken apart as they were put together.

## Files

| file | source |
|---|---|
| Text, Decimal, Filter, Source, Wrappers | C library classes and numbers, `xread`, shared vocabulary |
| StrBuf, StrArray, Split | src/strbuf.c, src/str-array.c, src/argv-array.c |
| KeyLanguage, KeyInverse, KeyGrammar, KeyScanner | src/config/config-key.c |
| ConfigTree, ConfigOrder, TreePaths, ConfigData, ConfigRelease | src/config/config-data.c |
| NodeVisitor | src/config/node-visitor.c |
| ConfigFile, LineGrammar, FileGrammar, ParseConfig, RoundTrip | src/config/parse-config.c |
| ConfigRun, ConfigCommand | src/builtin/config.c |
| ObjectId, CommitParse, GitCommit | src/git/git.c, src/git/commit.c |
| CommitStream, StreamGrammar, GraphTraversal | src/git/graph-traversal.c |
| MergeEnv, MergeExact | src/run-command.c |
| ParseOptions, Numeral, CommandLine, OptionParser | src/parse-options.c |
| KeyList, Recipients | src/gnupg/key-filter.c, src/gnupg/key-manager.c, src/builtin/message.c |
| Channels | src/builtin/channel-list.c |

## Model

| member | source | states |
|---|---|---|
| RoundTrip.RoundTripIff | src/config/parse-config.c:212-382 | Writing a tree succeeds and parsing the text gives the tree back, up to sections without properties, if and only if every name on the way to a value is good and every value printable |
| RoundTrip.ParseWritten | src/config/parse-config.c:290-382 | Parsing a written text is inserting its properties, in preorder, under their joined keys, for every tree with printable property names and values, also where the inserting then fails |
| RoundTrip.ParseReadable | src/config/parse-config.c:212-270 | A text that parses gives a tree with unique siblings, a nameless root, and printable names and values |
| FileGrammar.ParseIff | src/config/parse-config.c:212-270 | Every text is read without an error if and only if it is lines of the grammar, each white space, a section head, or a property line whose property is a key, and no path is set twice |
| FileGrammar.ParseMeans | src/config/parse-config.c:212-270 | The tree read from lines of the grammar stands for exactly the settings written in them, each under the parts of its section and its property |
| FileGrammar.UserFileReads | test/resources/good_2.config:1-2 | A section with a value that has a blank in it is read as one setting with the whole value |
| FileGrammar.SectionKeyIff | src/config/parse-config.c:44-77 | A line is a section head with a given key if and only if it is that key, or nothing, in brackets, with any white space inside and around them |
| LineGrammar.ReadPropertyIff | src/config/parse-config.c:86-163 | A line is a given property with a given value, or overruns its buffer, if and only if it is written so: property, equals sign and value with white space around each; a bare property or value is its whole trimmed text, one in equal quotes of either kind is the text between them, a property with its quotes and a value without its escapes |
| LineGrammar.EntryLineIs | src/config/parse-config.c:320-346 | A property is written behind a tab, if it is in a section, with one blank on both sides of the equals sign, and both sides are spelled as words or in double quotes with quotes and backslashes escaped |
| LineGrammar.SectionHeadIs | src/config/parse-config.c:290-320 | A section head is written with one blank inside each bracket |
| ConfigRun.KeyOperations | src/config/config-data.c:198-406 | With a key of the grammar, inserting, updating, deleting and finding act at what its parts mean; any other text gives -1, or nothing, and no change |
| ConfigRun.UnreadUntouched | src/builtin/config.c:31-146 | On a file that is not read no command changes the file, and every command fails |
| ConfigRun.RunRefinesMap | src/builtin/config.c:31-146 | After every run of commands on a good file the file is good again (it parses, so no read leaves its buffer), stands for the map of the same run on a plain map, and every command ended with the same code and output |
| ConfigRun.StepRefines | src/builtin/config.c:31-146 | One command on a good file does to its map what it does to a plain map, including the rejection of invalid keys and the code 1 for a missing key |
| ConfigRun.SetWorksIff | src/builtin/config.c:84-146 | On a good file, setting a key changes that key only and leaves a readable file if and only if the key is valid with good components and the value is printable |
| ConfigRun.EmptyQuotedKeyBreaksFile | src/config/config-key.c:18-40 | The key that is an empty pair of quotes is valid, setting it reports success, and the file no longer parses |
| RoundTrip.ParseOverrunIff | src/config/parse-config.c:212-270 | Reading lines leaves a buffer if and only if some line that is not a section head has an overrunning value and all lines before it are read |
| ConfigFile.OverrunIff | src/config/parse-config.c:137-149 | A value makes the reader leave its buffer if and only if it is in quotes and the text between them ends in an odd number of backslashes |
| RoundTrip.WrittenStaysInside | src/config/parse-config.c:290-382 | Reading back a written tree with printable property names and values never leaves a buffer |
| ConfigRun.DanglingFile | src/config/config-key.c:227-235 | Whatever follows the line whose quoted value is one letter and a backslash, reading the file leaves the buffer, and so does every query on it |
| ConfigRun.LineFeedValue | src/builtin/config.c:84-146 | Setting a value of a letter, a quote, a line feed and a letter in an empty file reports success, and reading the file it leaves overruns the buffer |
| ConfigRun.WrittenFile | src/builtin/config.c:135-140 | Writing a tree for a good map gives a good file for the same map |
| ConfigCommands.ConfigSetValue | src/builtin/config.c:84-146 | For every way to read the file in chunks, the new file and the ending are those of the step that the run theorem is about |
| ConfigCommands.ConfigQueryValue | src/builtin/config.c:31-72 | A query ends with the value found, or with code 1, or dies on a file that does not parse |
| ConfigTree.InsertRefinesMap | src/config/config-data.c:155-173 | Inserting adds the path only if it is absent, says which, and changes no other path |
| ConfigTree.UpdateRefinesMap | src/config/config-data.c:215-241 | Updating replaces the value only if the path is present, says which, and changes no other path |
| ConfigTree.DeleteRefinesMap | src/config/config-data.c:283-305 | Deleting removes the path if it is present, says which, and changes no other path |
| ConfigOrder.InsertKeepsOrder | src/config/config-data.c:155-173 | Inserting keeps the preorder list of all other properties as it is |
| ConfigOrder.DeleteKeepsOrder | src/config/config-data.c:283-305 | Deleting keeps the preorder list of all other properties as it is |
| ConfigOrder.UpdateKeepsOrder | src/config/config-data.c:215-241 | Updating keeps the preorder list of all other properties as it is |
| ConfigOrder.UpdateInPlace | src/config/config-data.c:215-241 | Updating leaves the preorder list of paths as it is, so the updated property keeps its place |
| ConfigTree.InsertWellFormed | src/config/config-data.c:155-173 | Inserting keeps sibling sections and properties unique, also where it creates the way there |
| ConfigTree.Rebuild | src/config/config-data.c:155-173 | Inserting the properties of a tree in preorder into an empty tree rebuilds that tree, in order, up to sections without properties |
| ConfigTree.FlatGet | src/config/config-data.c:347-366 | The preorder list of properties and look-up agree: a pair is listed if and only if it is found |
| ConfigDatas.ConfigData.constructor | src/config/config-data.c:9-27 | A new section is empty, has no parent, and is a valid root |
| ConfigDatas.ConfigData.AtNode | src/config/config-data.c:85-126 | In every reachable heap, children and parent point at each other, child k has position k, and only the root has neither name nor parent |
| ConfigDatas.ConfigData.LookupSection | src/config/config-data.c:85-126 | Finds the first section along the path or creates exactly the missing ones, keeping all links |
| ConfigDatas.ConfigData.AddSubsection | src/config/config-data.c:109-122 | One new empty section is linked as the last child and nothing else changes |
| ConfigDatas.ConfigData.HasProp | src/config/config-data.c:133-147 | The index of the first property with the name, or the number of properties |
| ConfigDatas.ConfigData.InsertInternal | src/config/config-data.c:155-173 | In the heap, status and new tree are those of inserting into the tree, and all links hold |
| ConfigDatas.ConfigData.UpdateInternal | src/config/config-data.c:215-241 | In the heap, status and new tree are those of updating, no section is created |
| ConfigDatas.ConfigData.DeleteInternal | src/config/config-data.c:283-305 | In the heap, status and new tree are those of deleting, no section is created |
| ConfigDatas.ConfigData.FindInternal | src/config/config-data.c:347-366 | The value at the path, or nothing; no section is created |
| ConfigDatas.ConfigData.InsertAtKey | src/config/config-data.c:198-213 | With a textual key: -1 and no change if it is not valid, otherwise inserting at its components |
| ConfigDatas.ConfigData.UpdateAtKey | src/config/config-data.c:266-281 | With a textual key: -1 and no change if it is not valid, otherwise updating at its components |
| ConfigDatas.ConfigData.DeleteAtKey | src/config/config-data.c:330-345 | With a textual key: -1 and no change if it is not valid, otherwise deleting at its components |
| ConfigDatas.ConfigData.FindAtKey | src/config/config-data.c:391-406 | With a textual key: nothing if it is not valid, otherwise the value at its components |
| ConfigDatas.ConfigData.GetSectionKey | src/config/config-data.c:408-432 | Climbing to the root collects the names of the way, and merging succeeds exactly if all are good |
| ConfigDatas.ConfigData.SectionKeyLeadsBack | src/config/config-data.c:408-432 | Isolating the key of a section gives the names of its way from the root, and looking these up finds that section and no other |
| ConfigRelease.ConfigDataRelease | src/config/config-data.c:29-61 | Every section is freed exactly once, in reverse preorder, so children before their parent and the root last; the walk ends |
| TreePaths.FindPathOfNames | src/config/config-data.c:85-126 | With unique siblings, the names on the way to a section lead back to its position |
| TreePaths.InsertVia | src/config/config-data.c:155-173 | Inserting by recursion on the path is creating the section path and appending to the section found there |
| TreePaths.ChangeVia | src/config/config-data.c:215-366 | Looking up, updating and deleting by recursion are doing so in the section found along the path |
| TreePaths.PreorderLists | src/config/node-visitor.c:57-96 | The preorder list has exactly the positions of all sections, in strictly increasing order of the walk: a parent before what is below it, and otherwise by the first child index that differs |
| TreePaths.ClimbIsSuccessor | src/config/node-visitor.c:74-91 | Climbing until a parent has a further child leads to the next section in preorder |
| NodeVisitors.NodeVisitor.Next | src/config/node-visitor.c:57-96 | Call number k returns section number k of the preorder, with the stack equal to its way from the root, and the call after the last one reports the end |
| NodeVisitors.NodeVisitor.NextSibling | src/config/node-visitor.c:74-91 | The climbing loop never pops an empty stack and finds the next section or the end |
| NodeVisitors.NextPosition | src/config/node-visitor.c:57-96 | The step of the walk leads from one section of the preorder to the next, and from the last one to the end |
| KeyGrammar.ValidKeyIff | src/config/config-key.c:18-115 | A text is a valid key if and only if it is one or more parts with periods between them: words of letters, digits and underscores, or double quotes around printable characters that are no quote or backslash and backslashes each followed by any character |
| KeyGrammar.IsolateIff | src/config/config-key.c:117-151 | Isolating gives a list exactly if the key is parts that mean it: words as they are, quoted text without quotes and without the backslash of each escape |
| KeyGrammar.BareKeyIff | src/config/config-key.c:55-66 | Without quotes, a key is valid if and only if it is word characters and single periods inside |
| KeyGrammar.HyphenNeedsQuotes | src/config/config-key.c:58-62 | A key without quotes in which there is a hyphen is not valid |
| KeyGrammar.EscapeIsShortest | src/config/config-key.c:187-225 | Of all parts that mean a text, the one that escaping writes is the shortest, and the only one of that length |
| KeyGrammar.JoinIs | src/config/config-key.c:153-185 | Components are written as words where they are words, and otherwise in double quotes with exactly the quotes and backslashes escaped |
| KeyInverses.IsolateJoin | src/config/config-key.c:117-185 | Isolating joined components gives the components back if all are good, and fails otherwise |
| KeyInverses.MergeIsolate | src/config/config-key.c:117-185 | Merging succeeds exactly on non-empty lists of good components, and isolating undoes it |
| KeyInverses.IsolateConcat | src/config/config-key.c:91-151 | Isolating two keys with a period between them concatenates their component lists |
| KeyInverses.NormalForm | src/config/config-key.c:117-185 | Isolating and merging gives a key with the same components, and doing it again changes nothing |
| KeyLanguage.DanglesIff | src/config/config-key.c:227-235 | Removing escapes from the left ends with a backslash that escapes nothing if and only if the text ends in an odd number of backslashes |
| KeyLanguage.UnescapeEscapeBody | src/config/config-key.c:187-235 | Unescaping undoes escaping, for every text |
| KeyScanner.IsValidKey | src/config/config-key.c:91-115 | The scanner accepts exactly the keys of the key language |
| KeyScanner.IsValidQuotedComponent | src/config/config-key.c:18-40 | The scanner finds the end of a quoted component, or rejects it, as the key language says |
| KeyScanner.ComponentCloses | src/config/config-key.c:91-151 | No component that the scanner accepts ends in an odd number of backslashes, so unescaping the parts of a valid key stays inside the buffer |
| KeyScanner.IsolateKey | src/config/config-key.c:117-151 | Appends the decoded components, or changes nothing and returns 1 |
| KeyScanner.MergeKey | src/config/config-key.c:153-185 | Appends the joined key if merging succeeds, or changes nothing and returns a code |
| KeyScanner.EscapeBuffer | src/config/config-key.c:187-225 | The buffer holds the escaped text of what it held |
| StrBufs.UnescapeBuffer | src/config/config-key.c:227-235 | Removing backslashes in place leaves the unescaped text, or moves past the end of the buffer exactly if the last backslash escapes nothing |
| StrBufs.StrBuf.constructor | src/strbuf.c:12-19 | A new buffer is valid and empty |
| StrBufs.StrBuf.Grow | src/strbuf.c:29-38 | More room with the same bytes, and never less |
| StrBufs.StrBuf.Attach | src/strbuf.c:40-52 | The text is extended up to the first NUL of the argument; terminator and room stay in order |
| StrBufs.StrBuf.Trim | src/strbuf.c:106-149 | The text is stripped in place, and the result is the number of characters removed |
| StrBufs.StrBuf.Remove | src/strbuf.c:151-170 | Exactly the characters of the range are removed, as far as there are any |
| StrBufs.StrBuf.Clear | src/strbuf.c:214-218 | The buffer is empty and valid |
| Text.Classes | src/strbuf.c:106-149 | White space, word characters and printable characters are those of the C locale, listed one by one |
| Text.StripMiddle | src/strbuf.c:106-149 | Stripping is the one way to split white space off both ends so that a tight middle is left |
| Sources.Source.Read | src/utils.c:105-121 | A read hands out the next chunk, and nothing exactly at the end of the input |
| ParseConfigs.ReadLine | src/config/parse-config.c:173-210 | For every chunking, a call takes the first non-blank trimmed line off the whole remaining input, or reports its end; an unterminated last line counts |
| ParseConfigs.ExtractSectionKey | src/config/parse-config.c:44-77 | In-place reading of a section head agrees with its description on values, malformed heads included |
| ParseConfigs.ExtractProperty | src/config/parse-config.c:86-163 | In-place reading of a property line agrees with its description on values, malformed lines and overrunning values included |
| ParseConfigs.ParseConfigFd | src/config/parse-config.c:212-270 | For every chunking, status and tree are those of parsing the lines of the whole input, an overrun being a status of its own |
| ParseConfigs.WriteForNode | src/config/parse-config.c:290-350 | The text written for a section is the one the round trip is about |
| ParseConfigs.WriteConfigFd | src/config/parse-config.c:352-382 | The walk over all sections writes the text of the tree, or stops where a section key cannot be merged |
| ParseConfigs.WritePreorder | src/config/parse-config.c:352-382 | Writing section by section in preorder is writing the tree by recursion |
| CommitStream.RunEnds | src/git/graph-traversal.c:197-306 | For every chunking the loop stops exactly if the stream consists of whole records, with all commits delivered in order; it fails exactly if one is malformed, and otherwise never ends |
| StreamGrammar.RunEndsIff | src/git/graph-traversal.c:58-306 | For every stream and every chunking: the loop stops if and only if the stream is whole records, and has delivered their commits in order; it goes on forever if and only if the beginning of a record is left behind them; it fails if and only if anything else is |
| StreamGrammar.WaitIff | src/git/graph-traversal.c:58-169 | The parser waits if and only if there is no line feed yet, or a well-formed summary line with too little behind it |
| StreamGrammar.GarbageFails | src/git/graph-traversal.c:58-189 | The parser gives up if and only if the buffer is no beginning of a record and has no record at its front |
| StreamGrammar.FrameReads | src/git/graph-traversal.c:58-189 | A summary line with any separators and any numeral for the length, and an object of that length, is delivered, whatever follows |
| CommitStream.EachCommitOnce | src/git/graph-traversal.c:155-306 | For every list of records and every chunking the callback sees each commit once and in order; a stream that breaks off inside a record is never left |
| CommitStream.PassesKeep | src/git/graph-traversal.c:197-234 | After any number of passes, what was delivered, the buffer and the unread chunks together stand for the whole stream |
| CommitStream.DrainMore | src/git/graph-traversal.c:155-189 | Parsing what has arrived and then going on with later bytes is parsing all at once |
| CommitStream.StreamDrains | src/git/graph-traversal.c:155-189 | A stream of records and the beginning of another one gives the commits of the records and leaves the beginning in the buffer |
| CommitStream.RecordReads | src/git/graph-traversal.c:58-189 | A record is delivered by its announced length, whatever its object looks like and whatever follows |
| CommitStream.RecordWaits | src/git/graph-traversal.c:58-189 | Every proper prefix of a record is waited for |
| GraphTraversal.ParseCatFileOutput | src/git/graph-traversal.c:155-189 | Removing records from the front of the buffer delivers exactly the drained commits and leaves the rest |
| GraphTraversal.ReadMessagesSinglePass | src/git/graph-traversal.c:197-234 | A pass over the real buffer is the pass that the run theorems are about |
| GraphTraversal.TraverseCommitGraph | src/git/graph-traversal.c:300-306 | The loop ends on every stream that is malformed or consists of whole records, and delivers all commits of the latter |
| CommitParse.CommitReads | src/git/commit.c:220-303 | Parsing a written commit recovers ids, trimmed names and emails, time, offset as sixty times the hours plus the minutes of the zone, with its sign, and the trimmed body, for any parents, repeated authors and extra header lines |
| CommitParse.SignatureReads | src/git/commit.c:136-205 | A signature line, with a time and a zone, a time alone, or neither, is read back; what is missing or out of range reads as zero |
| CommitParse.SignatureRejected | src/git/commit.c:150-184 | A signature line without an address, with one that is not closed, or with anything but white space behind the digits of its time or zone is rejected |
| CommitParse.TreeRejected | src/git/commit.c:220-236 | Without a tree line a commit is rejected; an id that is not hex ends the program |
| CommitParse.AuthorRejected | src/git/commit.c:261-275 | A commit is rejected if an author line is missing behind the parents, or broken |
| CommitParse.CommitterRejected | src/git/commit.c:276-283 | A commit is rejected if a committer line is missing behind the authors, or broken |
| CommitParse.OidReads | src/git/commit.c:94-134 | An id is read behind its prefix with any character behind it, ends the program if it is not hex, and is not there if the text is too short or has another prefix |
| CommitParse.HeadersWithoutBody | src/git/commit.c:285-298 | Without an empty line behind the headers the body is empty |
| CommitParse.ParentsRead | src/git/commit.c:237-259 | Any number of parent lines is read back in order, up to the first other line |
| CommitParse.HeadersSkimmed | src/git/commit.c:285-298 | Extra header lines, none of them empty, are skipped up to the empty line before the body |
| GitCommits.GitCommit.Parse | src/git/commit.c:220-303 | Filling in the commit in place gives the value, the rejection or the death that the parsing function describes |
| GitCommits.ReadHeaderSignature | src/git/commit.c:136-205 | Reading a signature by positions agrees with the function on suffixes and ends behind a line feed |
| GitCommits.SkipHeaders | src/git/commit.c:285-298 | The loop that looks back at the character before the line finds the empty line of the header |
| ObjectIds.DecodeEncode | src/git/git.c:8-46 | Decoding undoes encoding for every id |
| ObjectIds.EncodeDecode | src/git/git.c:8-46 | Encoding a decoded hex text gives the text in lower case |
| ObjectIds.DecodeIsNumber | src/git/git.c:8-33 | The bytes are those of the number that the hex text stands for |
| ObjectIds.StrToOid | src/git/git.c:8-33 | Fills in the bytes of the hex text, or dies exactly if a character is not hex |
| ObjectIds.OidToStr | src/git/git.c:35-46 | Fills in two lower-case hex digits for each byte |
| Decimals.StrToIMaxReads | src/git/commit.c:164-185 | A signed decimal number before another character is read exactly, clamped to the range of the type |
| Decimals.StrToLReads | src/git/graph-traversal.c:118-123 | A number as git prints it is read exactly by the base-0 reading, and all of it is used |
| MergeEnvs.MergeRightIff | src/run-command.c:313-360 | For all lists of distinct keys from a set, the result is the child entries and the parent entries the child does not set, if and only if no key of the set is continued in another by a character below the equals sign |
| MergeExact.MergeRightExactly | src/run-command.c:313-360 | For two lists with distinct keys each, the result is right if and only if, for every common key, the sorted lists have the same key in front of it as soon as one of them has there a continuation of it below the equals sign |
| MergeEnvs.MergeRight | src/run-command.c:313-360 | The result is right if the keys of each list are distinct and orderly, which can be checked before the call |
| MergeEnvs.MergeWrong | src/run-command.c:331-353 | For every key and such a continuation of it, lists with these keys for which a parent entry is kept although the child sets its key |
| MergeEnvs.NothingLost | src/run-command.c:313-360 | Without any assumption every child entry survives, and every parent entry whose key the child does not set |
| MergeEnvs.OrderOfKeys | src/run-command.c:328-342 | Entries with different keys are ordered like their keys unless one key is continued in the other below the equals sign |
| MergeEnvs.SortSorts | src/str-array.c:140-152 | Sorting gives an ordered permutation |
| MergeEnvs.MergeInto | src/run-command.c:313-360 | Inserting at the front of the list that is being walked terminates and gives the merged list |
| StrArrays.StrArray.Push | src/str-array.c:90-109 | The strings are appended, with a NULL entry after them |
| StrArrays.StrArray.InsertSlot | src/str-array.c:120-138 | Shifting the later entries up inserts at the position, or at the end if there is none |
| StrArrays.StrArray.Remove | src/str-array.c:164-180 | Shifting the later entries down removes the entry and hands out its string |
| StrArrays.StrArray.Delete | src/str-array.c:182-188 | Exactly the entries of the range are removed, as far as there are any |
| StrArrays.StrArray.Reverse | src/str-array.c:154-162 | Swapping in place reverses the entries and keeps the NULL entry |
| StrArrays.StrArray.Set | src/str-array.c:54-78 | Replaces one entry, or returns 1 and changes nothing |
| StrArrays.StrArray.Clear | src/str-array.c:190-201 | No entries are left and the room stays |
| StrArrays.StrArray.Detach | src/str-array.c:205-248 | The strings are handed out with a NULL after them, and the array starts over |
| Splits.JoinSplit | src/strbuf.c:181-212 | Collapsing the pieces of a text with its delimiter gives the text back |
| Splits.SplitClean | src/strbuf.c:181-212 | No piece contains the delimiter |
| Splits.SplitJoin | src/argv-array.c:60-90 | For a one-character delimiter, splitting undoes collapsing of strings without it |
| Splits.StrbufSplit | src/strbuf.c:181-212 | Appends the pieces and returns their number; without a delimiter the whole text is one piece |
| Splits.CollapseDelim | src/argv-array.c:60-90 | The counted room is never too small, and exact if no string is NULL; NULL strings are skipped |
| Channels.ParseRefReads | src/builtin/channel-list.c:220-264 | Every ref of two components, an origin if remote, and a name that may have slashes is taken apart as it was put together |
| Channels.ParseRefRejoins | src/builtin/channel-list.c:220-264 | On success the origin has no slash, and the dropped components, origin and name rejoin to the ref |
| Channels.ParseRefInto | src/builtin/channel-list.c:220-264 | Splitting, deleting and collapsing on the array gives the parts of the ref, or fails on too few components |
| Channels.NothingShadows | src/builtin/channel-list.c:394-435 | Exactly the remote channels go for which there is a local one at the same commit with the same short name; all others stay, as often as they were there |
| Channels.ChannelArray.FilterUninteresting | src/builtin/channel-list.c:394-435 | Deleting while walking leaves exactly the interesting channels, in order, for all channels whose comparison reads no missing name |
| Channels.ChannelArray.PrintChannels | src/builtin/channel-list.c:487-557 | Exactly the selected channels are printed in order, channels without a short name included, and exactly the others are left in order |
| Channels.ChannelArray.List | src/builtin/channel-list.c:606-625 | The grouping loop ends with an empty list, never meets a local channel, and prints the listing |
| Channels.EachChannelOnce | src/builtin/channel-list.c:606-625 | Every channel of the list is printed exactly once |
| Channels.ListingIs | src/builtin/channel-list.c:606-625 | The listing is the local channels in order, and then for each origin of a remote one, in the order of first appearance, its heading and its channels in order |
| Channels.GroupsByOrigin | src/builtin/channel-list.c:610-625 | The groups are those of the origins in the order of first appearance, each with all its channels in their order |
| Channels.OriginsOnce | src/builtin/channel-list.c:610-625 | No origin has two groups, and exactly those that have a channel have one |
| ParseOptions.KeptInOrder | src/parse-options.c:18-61 | The arguments left are a subsequence of those given |
| ParseOptions.KeptIsSuffix | src/parse-options.c:18-61 | With stopping at the first unknown argument, the arguments left are a suffix |
| ParseOptions.AfterDashes | src/parse-options.c:33-37 | Behind a `--` that is reached everything is kept, and has no influence on what was taken and stored before |
| ParseOptions.CrashIff | src/parse-options.c:18-61 | For every argument list in both modes, the NULL behind the last argument is read if and only if a round starts at that argument and its group of flags, with nothing behind it, asks for a number |
| ParseOptions.CrashAtEnd | src/parse-options.c:177-206 | The last argument is then a group of short flags, and its last letter is that of a number option |
| CommandLines.GroupCrashesIff | src/parse-options.c:148-228 | In a table where commands and group titles have no flag, a last argument asks for a missing number if and only if it is a hyphen, boolean flags, and a flag that takes a number |
| CommandLines.LineCrashesIff | src/parse-options.c:18-228 | A line of proper items and one last argument reads behind its end if and only if that argument is such a group, in both modes |
| CommandLines.ReadWithoutNumber | src/builtin/read.c:86-93 | With the table of the read command, the line that is just its number flag reads behind the end of the arguments |
| CommandLines.NumberStored | src/parse-options.c:95-105 | A printed number that fits an `int`, with or without a minus sign, is stored as that number |
| CommandLines.StoreReads | src/parse-options.c:95-206 | A numeral stores its value, clamped to a `long` and narrowed to an `int`, a string and an entry of a list their text |
| CommandLines.StoreRefuses | src/parse-options.c:95-206 | An option refuses exactly what is no numeral, where it takes numbers, and everything where it takes no value |
| Numerals.NumeralReads | src/parse-options.c:95-105 | White space, a sign and decimal, octal or hexadecimal digits with their prefix are read as their value, and all of it is used |
| Numerals.DigitsOfBase | src/parse-options.c:95-105 | The digits of base 8, 10 and 16 are those listed |
| Numerals.NumeralOf | src/parse-options.c:95-105 | A text that is used up as a number is such a numeral, or empty |
| Numerals.NarrowedIff | src/parse-options.c:201-201 | The stored number is the only `int` that differs from the one read by a multiple of two to the power of 32 |
| ParseOptions.LastStored | src/parse-options.c:95-206 | The number or string that is stored last is what the value of the option holds |
| ParseOptions.ListAfter | src/parse-options.c:111-114 | A list holds exactly the texts appended to it, in order, behind those it held; a value that nothing is stored to stays as it is |
| CommandLines.ReadFive | src/builtin/read.c:86-93 | With the table of the read command, five given behind its number flag is stored as five |
| CommandLines.EveryGroup | src/parse-options.c:148-228 | Every group of short flags is one of the items of a command line, or asks for a value behind it |
| CommandLines.NumberRefused | src/parse-options.c:190-206 | A number flag with anything but a numeral behind it is left, and so is what follows it |
| CommandLines.RefusedGoesOn | src/parse-options.c:63-146 | A long flag whose value is refused does not end the search, which goes on with the value in place of the flag |
| CommandLines.CommandLineReads | src/parse-options.c:18-248 | In both modes, every command line made of long flags, attached and separate values, groups of short flags, numbers behind a flag, arguments, and flags that are unknown or have text attached that is not taken, is read as it was meant: numerals store their number, strings and list entries their text, in order, and all arguments are kept in order. It may end, and everything kept then follows as written, behind a `--`, at a subcommand, which is stored, with a flag whose value is missing, or, when stopping at unknown arguments, at the first of these |
| CommandLines.ItemReads | src/parse-options.c:29-58 | In both modes a round of the loop takes exactly the tokens of the next item, stores what it means and keeps it if it is an argument or unknown, or stops at it there |
| CommandLines.ShortBoolsRead | src/parse-options.c:148-228 | Boolean flags of a group are set one by one, and the rest of the group is read as if it stood alone |
| ParseOptions.LongValue | src/parse-options.c:63-146 | A value attached with an equals sign and one given as the next argument store the same |
| OptionParser.Parse | src/parse-options.c:18-61 | The shifted vector, its new length and all stored values are those of the scan; every shift is in range and the loop ends |
| OptionParser.ParseLongOption | src/parse-options.c:63-146 | The loop over the options shifts and stores as described, including going on with the value after a number that does not parse |
| OptionParser.ParseShortOption | src/parse-options.c:148-228 | The loops over flags and options shift and store as described |
| OptionParser.ParseSubcommand | src/parse-options.c:230-248 | The first command with that name is found, and its value set if it has one |
| OptionParser.ArrayShift | src/parse-options.c:375-386 | Exactly the given arguments are cut out, and a NULL follows the rest |
| KeyLists.KeyList.Push | src/gnupg/key-manager.c:250-270 | The new node is the tail and all links agree |
| KeyLists.KeyList.FilterByPredicate | src/gnupg/key-filter.c:6-37 | Unlinking while walking leaves exactly the keys that satisfy the predicate, in order, with all links consistent, and returns how many were removed |
| KeyLists.KeyList.Release | src/gnupg/key-manager.c:229-244 | Every node is freed once and the list is empty |
| Filters.FilterKeeps | src/gnupg/key-filter.c:6-37 | Filtering keeps each element that satisfies the predicate as often as it was there, and no other |
| Recipients.SelectedEntitled | src/builtin/message.c:296-336 | The keys selected in stages are exactly the usable, public, requested and trusted ones in the order of the keyring |
| Recipients.CountTest | src/builtin/message.c:307-319 | Where no two keys answer to the same name, the test on the number of keys passes exactly if every recipient has a key and no two stand for the same one |
| Recipients.CountTestSoundIff | src/builtin/message.c:283-319 | The test passes only if every recipient has a key, for all lists of recipients, if and only if no two keys answer to the same name |
| Recipients.SelectedNoneIff | src/builtin/message.c:307-319 | The encryption is refused if and only if recipients are named and the number of usable public keys that answer to one of them is not that of the recipients |
| Recipients.SelectedSomeIff | src/builtin/message.c:307-319 | Where no two usable public keys answer to the same name, the encryption takes place if and only if no recipient is named, or each has a key and no two the same one |
| Recipients.EncryptMessageAsym | src/builtin/message.c:296-336 | On the linked list, the result is -1 and nothing is encrypted exactly if the encryption is refused; otherwise the keys handed to it are exactly those that the fields of the keys entitle, in order, and the result is their number |
| Recipients.FetchGpgKeys | src/gnupg/key-manager.c:197-227 | The list has all keys of the keyring in order |

## Left out

The model takes these decisions:

- Bytes: a `char` is a byte, character classes are those of the C locale, and texts handed to buffers have no NUL, because `strbuf_attach` stops at one (src/strbuf.c:40-52).
- Input and output: a file is the list of chunks its reads return; writes are complete. A write that stops at a section key that cannot be merged leaves the part written so far, as the file has been truncated.
- Allocation: byte counts passed to `realloc`, memory failure, and the capacity of the subsection list and of the visitor's stack; these lists are sequences.
- Signals of failure: the calls that end the program are an outcome of their own, and logging is dropped.
- A backslash at the end of a key, section head or property is rejected as the comment in src/config/config-key.c:26 says; the C scanner would step over the terminator. In a quoted value, where nothing rejects it, `unescape_buffer` leaves its buffer, although include/config/config-key.h:56 speaks of an error code; this is an outcome of its own, behind which nothing is promised.
- A duplicate property makes the parser fail, as in src/config/config-data.c:161-165; the header comment speaks of overriding.
- The visitor is not called again after it reported the end.

Weaker than the code or its promise:

- ConfigCommands.ConfigQueryValue: does not fall back to the table of default values.
- NodeVisitors.NodeVisitor.Next: promises nothing about its fields after the end was reported, because the C visitor leaves its stack and its current node out of step there.
- StrArrays.StrArray.Push: growing always asks for more room; called from outside, `str_array_grow` would also shrink an array to a size above its length.
- GitCommits.GitCommit.Parse: numbers are read within the commit's own text, while `strtoimax` would run on into the buffer behind a text that ends in digits; an id line that ends the text without a line feed is rejected, where the C code steps one byte past the end.
- CommitStream.RunEnds: a negative object length is malformed, and an object length is not added to pointers that it would make overflow.
- CommitStream.EachCommitOnce: the callback returns zero; after a non-zero result the C loop goes on while the buffer is not empty.
- Channels.ChannelArray.List: takes the list as sorted by the caller; remote channels have an origin, which the C code passes to `strcmp` without a test. A remote ref of three components, like `refs/remotes/trunk`, leaves its channel without one and is excluded. Filtering likewise needs the short names that it compares. Colours, widths, counts and descriptions of a printed line are not modelled.
- Recipients.SelectedEntitled: a key without a fingerprint is not in a trust list, where the C code would compare NULL.
- KeyLists.KeyList.Release: the freed nodes are a list of the order of freeing; use after free is not modelled.
- OptionParser.Parse: two options do not share a value pointer.
- MergeEnvs.MergeInto: the library sort is the insertion of each entry into a sorted list, which has the only possible result, as equal entries cannot be told apart.

Not modelled:

- Process control, pipes, paging, and the rest of src/run-command.c.
- gpgme calls, key import and export, passphrases; encryption is opaque.
- File and directory operations, the working tree, `init`.
- Usage texts, date formatting, message printing, default config values, the editor.
- The random delimiter: any delimiter of the right length without a line feed.
- The validation of recognized keys in src/config/parse-config.c:384-450, which is a table look-up.
