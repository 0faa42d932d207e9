# Ayahesa core, modelled and verified in Dafny

A model of the parts of the Ayahesa core that transform data: the template rewriter, the base64url codec, the
key/value tree, the INI parser with the configuration handler behind it, and the issue and check of JSON Web Tokens.

| file | what it models |
|---|---|
| `Base64Url.dfy` | the codec of RFC 4648 (section 5, without padding), its loops, its lengths |
| `CString.dfy`, `Compat.dfy` | C strings, bounded searches, trimming, bounded copies, decimal text of an `int` |
| `KoreBuf.dfy` | the growable buffer and the two splice routines |
| `Macro.dfy`, `Nested.dfy` | a rescanning macro pass as rewriting of a string; one left-to-right pass, and recursive expansion |
| `References.dfy`, `NestedDocs.dfy` | how deep values nest, ranks and cycles; documents whose values are documents |
| `Parsing.dfy`, `View.dfy` | the parser on the buffer, the passes for includes and user variables |
| `Arguments.dfy`, `Functions.dfy` | the argument list, split in memory; the pass for view functions |
| `Template.dfy`, `Comment.dfy`, `Statement.dfy`, `Predef.dfy` | the other passes |
| `Rereading.dfy` | which values of the predefined variables are read again |
| `Pages.dfy` | each kind of markup as it is written in a view, and what it comes to |
| `Slots.dfy`, `Tree.dfy` | the slot array as a value with its run properties; the nodes on the heap with exact ownership |
| `Ini.dfy`, `Config.dfy`, `Application.dfy` | line parser, configuration handler, application root |
| `Jwt.dfy` | tokens in the compact serialization (section 7.1 of RFC 7515) with `exp` (section 4.1.4 of RFC 7519) |

Where the C code works in place the model has methods over arrays and objects, proved against functions on strings and
slots; the theorems are about those functions.

## Assumptions

- A `char` is one byte. Lengths are unbounded: `size_t` arithmetic does not wrap around. Allocation succeeds.
- A search (`strchr`, `strlen`, `kore_mem_find`) never leaves the used part of the buffer it starts in.
- `kore_mem_find` returns the first occurrence; `kore_buf_replace_string` replaces every occurrence from left to right
  and does not search what it put in; `kore_split_string` drops empty pieces.
- `dlsym` lookups are parameters: a map from symbol to asset, a function from argument list to result, a function from
  variable name to value (below zero for an unknown one). View functions return a string.
- MAC, JSON text and its parser are functions in `Jwt.Library`, with the laws `Laws()`: the MAC is 32 bytes, and parsing
  undoes generating. The readings of the clock and the random identifier are parameters. `kore_strtonum` is a function.
- The array of child pointers of a node is a `seq` together with a block that stands for its allocation.
- A tree that is put to has a root; the C code aborts otherwise.

## Where code and documentation differ

The model follows the code.

- `ini_parse_stream` stops at the first malformed or rejected line; its header (src/core/ini.h:31-32) says that it goes on.
- `process_statement` never renders the text behind `@else`: it is removed whatever the condition is.
- `process_statement` finds its `@endif` only in a window that can end before the buffer does, and looks for an `@else`
  in one that reaches past the start of the `@endif`, by four characters and one more for each blank the argument opens
  with. The else of a later conditional is then taken for its own, and the pass goes astray (`BlanksReachElse`: seven blanks are
  enough). `CondRound` has a round do its work exactly when neither happens.
- `process_template` skips one character of the block for each blank the argument opens with; when the block is shorter
  than that, the rest of the end marker and the text behind it are rendered in its place (`MarkerRendered`).
  `WholeBlockRendered` says exactly when the block is rendered whole.
- Assets that include each other in a ring keep `process_include` busy for ever (`IncludeCycleNeverEnds`); `IncludesEnd`
  says exactly when it ends, for assets in which no text before an include ends in part of the token.
- `split_arguments` does not look at the character behind a comma, so an empty argument in the middle swallows the comma
  behind it (`SplitUndoesJoin` says exactly when splitting the argument text undoes joining).
- `process_function` passes it the length that the argument had before it was trimmed. After two or more blanks the split
  of a list therefore also looks at characters behind the bracket: a comma there is taken for a separator and lost from
  the page, and blanks at the end of the page become NUL (`SplitTooFar`). `SplitExactly` says exactly when the list is
  that of the argument alone and nothing behind the bracket changes.
- `jwt_verify` ignores what stands behind the signature and further dots, which section 7.1 of RFC 7515 does not allow
  (`OnlySignedTokensPass`, `FurtherPartsIgnored`).
- `process_comment` goes astray when the first closer ends before the first opener (`StrayCloser`).
- `base64url_decode` does not set its length for an input of one character; `DecodeInto` returns `Unset` there.
- `tree_get_*` on a writable tree can return an older duplicate that stands behind a hole just filled (`StaleRead`;
  `PutThenGet` says exactly when a get sees the value just put).

## Model

| member | source | states |
|---|---|---|
| Base64Url.EncodeIsTheRegrouping | src/core/base64url.c:47-87 | a text is the encoding exactly when it is the one alphabet text of that length whose sextets are the bit stream of the bytes, filled up with zero bits (section 5 of RFC 4648) |
| Base64Url.EncodeRegroups | src/core/base64url.c:47-87 | as numbers, sextets and bytes are the same bit stream, behind whatever came before |
| Base64Url.DecodeEncode | src/core/base64url.c:47-144 | decoding the encoding of any bytes gives exactly these bytes |
| Base64Url.EncodeDecode | src/core/base64url.c:89-144 | encoding a decoded alphabet text gives it back if and only if its length is no 1 modulo 4 and its fill bits are zero |
| Base64Url.EncodeImage | src/core/base64url.c:47-144 | those texts are exactly the encodings of bytes |
| Base64Url.AlphabetInOrder | src/core/base64url.c:15-45 | both tables are those of the alphabet of section 5 of RFC 4648 in its order; what is not in it counts as zero |
| Base64Url.DecodeSeesDigits | src/core/base64url.c:89-144 | decoding depends on the digits of the characters alone |
| Base64Url.DecodeDropsLoneCharacter | src/core/base64url.c:89-111 | with a lone character at the end decoding is decoding without it |
| Base64Url.EncodeInto | src/core/base64url.c:47-87 | the loops write the encoding and a NUL, stay in a buffer of the encoded length plus one, and return that length |
| Base64Url.DecodeInto | src/core/base64url.c:89-144 | the loops write the decoding, and the length unless there is just one character |
| Jwt.EncodeText | src/core/jwt.c:56-58 | the allocated size holds the encoding and its NUL, and the C string in the buffer is the whole encoding |
| Jwt.IssuedTokenVerifies | src/core/jwt.c:87-219 | a token issued for claims is accepted under its key if and only if the first reading of the clock is not before issue and the second not after expiry, and all claims come back |
| Jwt.TokenIsSignedText | src/core/jwt.c:107-120 | a token is header, dot and payload, and behind another dot the encoded MAC over just that text |
| Jwt.SignedTextPasses | src/core/jwt.c:126-219 | of the texts with this header only such a one gets to its payload |
| Jwt.HeaderText | src/core/jwt.c:18 | the header decodes to that of an HS256 token |
| Jwt.OnlySignedTokensPass | src/core/jwt.c:126-219 | of all strings only those whose first three pieces between dots are the header, a payload and the signature over both, and that open with the header, get to the payload |
| Jwt.FurtherPartsIgnored | src/core/jwt.c:185-219 | an issued token with another part behind it gets the verdict of the token |
| Jwt.OtherKeyRejects | src/core/jwt.c:126-149 | a key with another MAC over the signing input rejects the token |
| Jwt.TokenPieces | src/core/jwt.c:87-124 | splitting a token at its dots gives its three parts back, since encoder output has no dot |
| Jwt.TokenNew | src/core/jwt.c:20-124 | the buffers end up with the token of the claims; the object gets issue time and expiry |
| Jwt.CheckSignature | src/core/jwt.c:126-149 | answers whether the presented text is the encoded MAC over header, dot and payload |
| Jwt.ParsePayload | src/core/jwt.c:151-183 | decodes, terminates and parses the payload into the fields |
| Jwt.JwtVerify | src/core/jwt.c:185-219 | the early returns amount to the verdict on the string, with the claims in the fields |
| Compat.Itoa | src/core/compat.c:121-141 | for every 32-bit int, the lowest included, stays in 21 bytes and leaves its decimal text |
| Compat.DecimalIsCanonical | src/core/compat.c:121-141 | that text has a sign only below zero and no leading zeros, and reads back as the int |
| Compat.DecimalIsUnique | src/core/compat.c:121-141 | any canonical text that reads as the int is that text |
| Compat.StrNCpy0 | src/core/compat.c:27-33 | copies what fits, always with a NUL |
| Compat.StrLCpy | src/core/compat.c:35-59 | copies what fits, and returns the length it tried to make |
| Compat.StrLCat | src/core/compat.c:61-92 | appends what fits behind the text that is there, and returns the length it tried to make |
| Compat.RStrip | src/core/compat.c:144-151 | every blank at the end becomes NUL, and nothing else changes |
| Compat.RStrippedWithin | src/core/compat.c:144-151 | inside the C string what is left once trimmed stays, and every char behind it becomes NUL |
| CString.SpacesInOrder | src/core/compat.c:144-160 | the blanks are those of isspace |
| Compat.LSkip | src/core/compat.c:153-160 | the index of the first char that is no blank |
| Buffers.KoreBuf.ReplaceString | src/core/util.c:233-254 | exactly the span is replaced; used length and capacity are what the source sets |
| Buffers.KoreBuf.ReplaceFirstString | src/core/util.c:256-282 | exactly the first occurrence is replaced |
| Buffers.ReplaceFirstIs | src/core/util.c:256-282 | the text before and behind the first occurrence stays in its place |
| Parsing.OpenMacro | src/core/view.c:118-138 | finds token and bracket, and cuts and trims the argument in place, or reports that there is none |
| Macro.ParseInside | src/core/view.c:118-138 | the first macro of a piece is the first macro of the buffer around it, when the text before seals |
| Macro.FlatPass | src/core/view.c:335-354 | with values free of opening brackets the rescanning loop ends on every buffer, and its only result is that of one pass from left to right |
| Macro.FlatDocument | src/core/view.c:335-354 | on a document of text and macros that result is the document with each macro its value and a NUL, and no other char changed |
| Macro.FlatUpToStop | src/core/view.c:335-354 | on a document whose last text stops the pass, what stands before is substituted, and the rest is as the stop leaves it |
| Macro.StopsAsItIs | src/core/view.c:118-138 | a token without bracket or argument stops the pass and changes nothing |
| Macro.StopsUnknown | src/core/view.c:206-219 | an unknown argument stops it, with NUL in place of its bracket and the blanks before that |
| Macro.ScanSubstitutes | src/core/view.c:118-138 | the pass from left to right takes a document apart as it was written |
| Nested.NestedPass | src/core/view.c:199-223 | with clean seams, a text that expands recursively within some depth has that expansion for its only result; no token is left unless a macro stopped the pass |
| Nested.EndsIffExpands | src/core/view.c:199-223 | with clean seams the pass ends if and only if the text expands recursively at all |
| References.EndsWithinValues | src/core/view.c:199-223 | the number of values is depth enough: the pass ends if and only if the text expands within it |
| References.NeverStopped | src/core/view.c:199-223 | when every token of the text and of what it reaches opens a well-formed and known macro, nothing stops the expansion |
| References.EndsIffAcyclic | src/core/view.c:199-223 | then the pass ends if and only if what the text reaches can be ranked, that is, has no cycle |
| References.CycleNeverEnds | src/core/view.c:199-223 | a text that leads into values which all lead back among themselves has no result |
| NestedDocs.NestedDocument | src/core/view.c:199-223 | on a document that reaches only documents the results are the recursive substitutions of documents, and hold no token |
| References.SelfReferenceRounds | src/core/view.c:206-222 | a value that is its own macro gives one more NUL each round |
| References.SelfReferenceNeverEnds | src/core/view.c:206-222 | so that pass has no result |
| Arguments.SplitArguments | src/core/view.c:29-58 | the loop leaves list and memory of the split, for the length it is given, or finds argv full |
| Arguments.SplitExactly | src/core/view.c:29-58 | with the blanks before and behind the argument in that length, the list is that of the argument alone and nothing from the bracket on changes if and only if the argument has no comma or none is within reach behind the bracket |
| Arguments.SplitUndoesJoin | src/core/view.c:29-58 | splitting the argument text undoes joining, up to blanks, if and only if no argument between the first and the last is empty |
| Arguments.OneArgument | src/core/view.c:36-41 | a text without a comma is the only argument |
| Arguments.SixteenFit | src/core/view.c:32-56 | a split that keeps to its argument finds argv full if and only if there are more than sixteen |
| Pages.Include | src/core/view.c:199-223 | an include on a page is the asset of its name and a NUL, nothing else changes |
| Pages.Variable | src/core/view.c:321-355 | a variable is its last string and a NUL |
| Pages.Call | src/core/view.c:225-253 | a call without arguments is what its function returns and a NUL |
| Pages.Commented | src/core/view.c:180-197 | a comment leaves nothing |
| Pages.Conditional | src/core/view.c:255-318 | a conditional with an else leaves a NUL and its body, or nothing |
| Pages.ShortConditional | src/core/view.c:255-318 | so does one without |
| Pages.Layout | src/core/view.c:140-178 | the block of a template stands where its layout yields |
| View.ProcessInclude | src/core/view.c:199-223 | the buffer ends up as the pass says, whenever its end can be foreseen: no value has an opening bracket, or the buffer expands no deeper than there are assets |
| View.ForeseenExactly | src/core/view.c:199-223 | with the number of values for the depth a pass is foreseen to end if and only if it does |
| Functions.ProcessFunction | src/core/view.c:225-253 | the loop ends with the result of the pass, or where argv overruns |
| Functions.RoundAgrees | src/core/view.c:234-252 | a round whose split keeps to the argument puts what the call returns for it, and a NUL, in place of the macro |
| Functions.SplitTooFar | src/core/view.c:239-242 | a page on which a comma behind the bracket is taken for a separator and lost |
| Functions.FunctionsEnd | src/core/view.c:225-253 | when no result has an opening bracket the pass ends on every buffer, also where a split looks too far |
| Functions.FunctionsExpand | src/core/view.c:225-253 | with clean seams, tight arguments and nothing that stops it, the only result is the recursive expansion, without a token |
| View.ProcessUserVars | src/core/view.c:321-355 | the same for the strings of the session tree |
| View.IncludesForeseen | src/core/view.c:199-223 | for includes that depth is the number of assets |
| View.UserVarsForeseen | src/core/view.c:321-355 | for user variables it is the number of strings in the session, the empty one included |
| View.IncludesEnd | src/core/view.c:199-223 | with clean seams the includes of a buffer end if and only if it expands no deeper than there are assets, and then leave the expansion |
| View.SymbolOfName | src/core/view.c:60-66 | a short name gives the symbol made of it, a long one only counts with its first chars |
| View.NamesApart | src/core/view.c:60-66 | different names of up to 52 chars have different symbols |
| View.IncludesSubstitute | src/core/view.c:199-223 | a page that is a document, as is everything it reaches, with includes that all resolve: the results are the recursive substitutions of documents, and hold no include |
| View.IncludeCycleNeverEnds | src/core/view.c:199-223 | a page that leads into a ring of assets, of whatever length, is never done |
| View.UserVarsFlat | src/core/view.c:321-355 | for a session without opening brackets the pass ends on every buffer, with the result of one pass from left to right |
| View.UserVarsFilled | src/core/view.c:321-355 | on a document whose names have only strings that result has each variable replaced by its last string, or nothing, and a NUL |
| View.UserVarIsLast | src/core/tree.c:272-287 | when a name has only strings, its value is the last of them, or nothing |
| Functions.FunctionsFlat | src/core/view.c:225-253 | when no result has an opening bracket and no split of the page looks too far, the only result is that of one pass from left to right |
| Template.ProcessTemplate | src/core/view.c:140-178 | the buffer is swapped for what the pass makes of it |
| Template.TemplateRenders | src/core/view.c:140-178 | the asset's text before and behind its first yield stays, and between them stands the block from the char on that as many leading blanks of the argument say, or the remains of the end marker when there are more blanks than chars; an asset without a yield stays as it is |
| Template.WholeBlockRendered | src/core/view.c:153-162 | the whole block is rendered if and only if the argument opens with no blank, or with so many that the remains of the marker read like the block |
| Template.NoTemplate | src/core/view.c:148-151 | without token, bracket or argument nothing changes |
| Template.TemplateUnknown | src/core/view.c:153-167 | for an unknown asset, or without end marker, only bracket and blanks before it are overwritten |
| Comment.ProcessComment | src/core/view.c:180-197 | the loop ends on every buffer, with the result of the pass or where it goes astray |
| Comment.StripsComments | src/core/view.c:180-197 | a document loses exactly its comments when no closer stands before a block's own; an opener without a closer behind them stays |
| Comment.BlockRoundExactly | src/core/view.c:184-195 | a round takes out just the block behind clean text if and only if no closer stands before its own |
| Comment.StrayCloser | src/core/view.c:186-195 | with a closer before the first opener nothing is stripped |
| Comment.SharedSlash | src/core/view.c:186-195 | an opener that shares the slash of a closer before it loses just that char |
| Statement.ProcessStatement | src/core/view.c:255-318 | the loop ends on every buffer with the result of the pass |
| Statement.CondRound | src/core/view.c:264-317 | a conditional behind clean text is resolved if and only if its endif lies in the searched window and no later else within reach; without the former the pass stops, without the latter a true one goes astray |
| Statement.BlanksReachElse | src/core/view.c:280-313 | seven blanks before the name are enough for the else of another conditional |
| Statement.PassKeepsBodies | src/core/view.c:255-318 | true conditionals keep a NUL and their body, all else of a conditional goes, and other text stays |
| Statement.UnknownStops | src/core/view.c:282-285 | an unknown condition stops the pass, whatever stands behind it, with only its bracket and blanks overwritten |
| Statement.PassStopsAtUnknown | src/core/view.c:255-318 | a document is resolved up to its first unknown condition, and all else stays |
| Statement.EndlessStops | src/core/view.c:274-277 | so does a conditional when there is no endif |
| Statement.BareIfStops | src/core/view.c:266-269 | an if without bracket or argument stops it and changes nothing |
| Statement.LaterElseTaken | src/core/view.c:279-316 | a false conditional that takes a later else loses all up to the endif behind that |
| Predef.ProcessPredefVars | src/core/view.c:389-403 | the fifteen calls are the fifteen bindings one after the other |
| Predef.SequentialIsSimultaneous | src/core/view.c:389-403 | replacing one after the other is one simultaneous substitution, when no later key can start in a value (with no at sign in any value none can: `PlainIsHarmless`) and no key is cut short by the next one |
| Predef.PredefinedAtOnce | src/core/view.c:389-403 | this holds of the fifteen variables, in whatever order they are replaced, as long as no later key can start in a value |
| Predef.WholeKeysAtOnce | src/core/view.c:389-403 | this holds whenever no later key can start in a value and each at sign of the buffer starts a whole key |
| Predef.FifteenKeysGood | src/core/view.c:389-403 | no key is the beginning of another, and each has just its first at sign |
| Predef.AtSignInValue | src/core/view.c:389-403 | with the application called "@user" the fifteen replacements put the user in its place, and are no simultaneous substitution |
| Predef.KeyBecomes | src/core/view.c:389-403 | what each of the fifteen keys becomes |
| Rereading.HarmlessExactly | src/core/view.c:389-403 | with at signs in one value only, the replacements are the simultaneous substitution on all texts without cut keys if and only if no later key can start in that value |
| Rereading.NameExactly | src/core/view.c:389-403 | so for the name of the application among the fifteen variables |
| Slots.CapacityIsLeast | src/core/tree.c:16-60 | after any run the capacity is the least multiple of ten that holds the most slots ever occupied at once, and ten at least |
| Slots.ReadonlyIsLog | src/core/tree.c:127-170 | in a read-only tree the occupied slots are all puts in their order, across every expansion |
| Slots.LaterPutWins | src/core/tree.c:232-307 | there a typed get returns the last put value of a key whose entries share that type |
| Slots.GetOnLog | src/core/tree.c:232-307 | a typed get of any log is its scan up to the first entry of another type |
| Slots.WritableRun | src/core/tree.c:108-307 | a run that puts only absent keys makes the slots represent the typed map that the run makes |
| Slots.ReadsAgree | src/core/tree.c:108-125 | contains and typed get agree with that map |
| Slots.PutThenGet | src/core/tree.c:150-307 | with duplicates and holes, a get sees the value just put exactly when all older entries stand before the first hole |
| Slots.EachTypeReadsBack | src/core/tree.c:172-307 | a value under a fresh key comes back through the get of its own type and no other |
| Slots.OtherTypeEndsGet | src/core/tree.c:232-307 | an entry of another type ends a get, and nothing behind it is seen |
| Slots.RemovedIsGone | src/core/tree.c:127-145 | a removed key has no entry left, and every other key reads as before |
| Slots.StaleRead | src/core/tree.c:150-307 | a run after which a get returns the older value |
| Trees.Node.NewRoot | src/core/tree.c:16-23 | ten empty slots in a fresh array that the node owns |
| Trees.Node.GetNewIndex | src/core/tree.c:25-43 | the first hole, or that there is no root or no room |
| Trees.Node.Expand | src/core/tree.c:45-60 | ten more empty slots, the others as they were; the old array is freed |
| Trees.Node.NewIndex | src/core/tree.c:150-167 | an index of an empty slot, after expansion if need be; put never fails |
| Trees.Node.PutItem | src/core/tree.c:172-230 | the slots become those with the entry put; the tree owns just the new blocks in addition |
| Trees.Node.Contains | src/core/tree.c:108-125 | answers for the slots |
| Trees.Node.Get | src/core/tree.c:232-307 | the scan of the typed gets |
| Trees.Node.Remove | src/core/tree.c:127-145 | empties all slots with the key, frees exactly the blocks of their children, and leaves the other children in place; does nothing on a read-only tree |
| Trees.TreeFree | src/core/tree.c:62-103 | frees each block of the subtree once, but not the node itself and no pointer value, and leaves every other block live |
| Ini.FindCharsOrComment | src/core/ini.c:28-39 | the first char of the set, or a semicolon behind a blank, or the end |
| Ini.ParseLine | src/core/ini.c:63-122 | cutting the line buffer in place gives the meaning of the line |
| Ini.HandleLine | src/core/ini.c:63-122 | section, previous name, handler call and failure of one line |
| Ini.IniParseStream | src/core/ini.c:42-127 | 0 exactly when every line, up to a NUL in it, is good; else the first that is not, with exactly the calls of the lines up to it |
| Ini.LineMeans | src/core/ini.c:63-122 | headers, settings with blanks and remarks, further values, remark lines, empty lines and junk read as what they are |
| Ini.ParseUndoesPrint | src/core/ini.c:28-127 | the calls for a file of such lines are exactly its settings and further values, each under its section and name; junk is never good, remarks, empty lines and headers always are |
| Ini.ParsePrinted | src/core/ini.c:28-127 | on such lines that fit the buffer the parser returns 0 exactly when there is no junk and every call is accepted, else the first line where that fails, with the calls up to it |
| Config.LoadAllIsLog | src/core/application.c:102-159 | the config tree is the log of the entries the calls make |
| Config.DebugIsLastSetting | src/core/application.c:102-190 | app_isdebug is the last debug setting of file, then environment, or 0 |
| Config.DebugSettingRead | src/core/application.c:116-124 | the last setting called debug turns it on for "true" and "1" and off for all else |
| Config.NoDebugSetting | src/core/application.c:186-189 | without one it is off |
| Config.PrintedDebugReadBack | src/core/application.c:116-124 | so for a printed file |
| Config.LaterSourceWins | src/core/application.c:102-190 | a string setting is the last one of file, then environment |
| Config.StringSettingRead | src/core/application.c:139-158 | a setting is read back under section, dot and name, or its bare name, when no later one has that key |
| Config.UnsetStringRead | src/core/application.c:139-158 | a key that is never set is not found |
| Config.SessionSettingRead | src/core/application.c:127-132 | the last session time in section app is the number its text reads as |
| Config.InstanceLoaded | src/core/application.c:135-140 | the instance name is that of the last call of this name |
| Config.CompleteExactly | src/core/application.c:161-184 | the required settings are there exactly when the file has all three |
| Config.SessionIsExactly | src/core/application.c:424-431 | the session lifetime, also when a bare string of the same key gets in the way |
| Config.DebugEntry | src/core/application.c:112-118 | no call other than a debug one makes an entry of that key, and that entry is an int |
| Config.PrintedSettingsReadBack | src/core/application.c:102-159 | of every printed file and every environment, a reader of a string key gets the last value, environment over file |
| Application.BuildKey | src/core/application.c:139-156 | section, dot and name, or the bare name |
| Application.App.constructor | src/core/application.c:40-76 | root, config tree and cache tree, each owning its own blocks, and all of them live |
| Application.App.LoadConfigTree | src/core/application.c:102-159 | a call changes config tree and instance name as the handler's function says, or aborts; the cache stays |
| Application.App.ValidateConfig | src/core/application.c:161-190 | aborts exactly when a required key is missing, else puts the default |
| Application.App.IsDebug | src/core/application.c:388-395 | the debug setting of the state |
| Application.App.Release | src/core/application.c:276-300 | every block of the application is freed, and no other |

## Left out

- HTTP: the order of passes in `http_view`, its headers and responses, routes, sessions, cookies and basic auth.
- PostgreSQL, argon2, OpenSSL, the encrypted file, quid, MIME types, events, validators, logging, counters: foreign or plain I/O.
- `application_env`: the environment is a list of handler calls; how a variable is split into section and name is not modelled.
- `application_config`: opening and reading files; the lines come as a sequence, each shorter than the line buffer.
- `tree_dump`, `generate_instance_id`, `date_year`, `strtolower`, `strisalpha`: easy or random.
- Includes, functions and conditions are looked up in parameters; a view function that returns NULL is not modelled.
- View.ProcessInclude: requires that the end of the loop can be foreseen, since there are buffers on which it has none. Where a text before an include ends in part of the token, nothing better is known than that it ends.
- Functions.ProcessFunction: the depth within which a buffer expands is a ghost parameter, since the results of view functions need not be finite in number; stops where the source would write behind its sixteen arguments.
- Functions.FunctionsFlat: with opening brackets in results, only tight arguments are covered (`FunctionsExpand`), whose split cannot look too far whatever stands behind the macro.
- ProcessTemplate: a block that would begin past the end of the buffer is empty in the model.
- ProcessComment: stops where a closer before the opener makes the length of the span zero or wrap around.
- ProcessStatement: nested conditionals, and arguments with an else or endif marker inside, are in the pass function but not in the theorem on documents.
- Next: the values are parameters; the copies of domain and method name into buffers of 128 and 8 bytes are not modelled.
- JwtVerify: a payload that does not parse has no verdict, since the source reads through a null pointer there.
- Trees.Node.PutFloat: floats are reals, without rounding.
