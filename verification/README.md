# What `ikigai-cli` promises, and where it holds

This project models the parts of the `ikigai-cli` crate whose correctness is not plain from
reading one function, and proves what they promise for every input, every run or every
interleaving.

- **`LinkedCrates`** is the walk of `build.rs` over a Cargo lock. It answers the least fixed point
  of the feature rules, on every lock and every set of manifests, cyclic ones included; so the
  order in which packages are popped cannot matter.
- **`Editor`**, **`EditorLaws`** and **`Tui`** are the line and scratch editor. `Editor` says on
  character positions what each action means and proves what kills, yanks, vertical motions and the
  history promise; `EditorLaws` says where every action goes and what it takes, on the characters.
  `Tui` is the editor as it runs, on byte offsets into UTF-8, where a slice off a character
  boundary is an error; it does what `Editor` says and stays legal over every sequence of events.
- **`Turtle`**, **`TurtleDoc`**, **`Base64`**, **`LayerEntry`** and **`FileEntry`** are the layer
  entry codec: a reader for the subset of RDF 1.1 Turtle (section 6.4 for escapes, section 6.5 for
  the grammar) and of base64 (section 4 of RFC 4648) that entries use, the code that writes them,
  and the round trips between the two.
- **`Sessions`**, **`Words`** and **`Frontends`** are the session that refuses after a failed
  `cap`, the `script` line, and the loops that feed a session. The engine is any function of what
  it has been given so far.
- **`Mounts`**, **`LazyMount`**, **`McpReload`**, **`Front`** and **`RateLimits`** are the host:
  certificates on the command line, the mount that connects on first use (over every interleaving
  of its callers), the live narrowing of an MCP session, the HTTPS router, and the rate rules.
- **`Strings`**, **`Numbers`** and **`Utf8`** are the pieces of the Rust library these share.

Code that changes state step by step is a method or a class; each is tied to a function or a
relation that says what it computes, and the promises are lemmas about that.

## Where the code does something other than it says

Each of these is stated exactly, for all inputs, beside what does hold.

- vi's `d$`, `d0` and `dd` act on the whole text, not the line. They agree with the line-relative
  kills exactly when no line follows, precedes, or either (`Editor.DeleteToEndIsTextWide`,
  `Editor.DeleteToStartIsTextWide`, `Editor.DeleteLineIsTextWide`). vi's `e` does not move on when
  pressed again (`Editor.WordEndStays`).
- Down on a line being typed empties it (`Editor.DownWhileTyping`).
- An empty literal directly followed by a quote reads as a long string; every other literal reads
  back whatever follows (`Turtle.LiteralReadsBack`). An entry never writes that, so entries always
  read back (`LayerEntry.EntryReads`).
- `serve` and `mcp` share one certificate accumulator, so a later mount takes over an earlier
  mount's flags, and `serve`'s own identity changes too. `Mounts.ServeAgrees` says exactly when
  that differs from the REPL's rule; `Mounts.ServeLeaks` is a two-mount line where it does.
- The `Allow` of a 405 for an entry, graph or receipt called `tuples` names POST, which is refused
  too; for every other path it is exact (`Front.AllowIsExact`, `Front.MisnamedEntry`).
- The thirty seconds between an enumeration's failed dials are not kept when two callers list at
  once: on a new resolver both dial, and fail, at the same moment (`LazyMount.BothListFails`). They
  are kept in every run in which only certain callers list, however those and everyone's
  resolutions interleave, if and only if no two callers do (`LazyMount.SpacedExactly`).
- A kill that takes what the kill buffer already holds is not copied to the clipboard, so a yank
  after it pastes what another program has put there since. `Editor.YankAfterKill` says exactly
  when the text comes back.

## Model

The last four rows re-list a definition's cases, to be read against the source's own table or arms;
they carry less than the rest.

| member | source | states |
|---|---|---|
| `LinkedCrates.ExpandFeatures` | crates/ikigai-cli/build.rs:301-318 | the worklist ends on every feature table and answers the least set that holds the request and all it lists |
| `LinkedCrates.ClosureLeast` | crates/ikigai-cli/build.rs:298-318 | any closed set holding the request holds the expansion |
| `LinkedCrates.ClosureMonotone` | crates/ikigai-cli/build.rs:298-318 | asking for more brings no less |
| `LinkedCrates.ClosureUnion` | crates/ikigai-cli/build.rs:133-140 | expanding request by request comes to expanding all at once, in any order |
| `LinkedCrates.WeakNeverActivates` | crates/ikigai-cli/build.rs:320-329 | a weak `key?/feature` never turns its dependency on |
| `LinkedCrates.ForwardAll` | crates/ikigai-cli/build.rs:149-155 | the forwarded features are exactly those some enabled feature names for the key |
| `LinkedCrates.ActiveMonotone` | crates/ikigai-cli/build.rs:142-144 | an active dependency stays active as features grow |
| `LinkedCrates.EdgeRequests` | crates/ikigai-cli/build.rs:122-131 | a crate without a manifest asks `default` of every package its lock edges name, and nothing else |
| `LinkedCrates.ManifestRequests` | crates/ikigai-cli/build.rs:142-164 | a crate with a manifest asks exactly what its active dependencies say, along its lock edges |
| `LinkedCrates.LeastIsUnique` | crates/ikigai-cli/build.rs:109-177 | the least fixed point is unique, so the answer does not depend on the pop order |
| `LinkedCrates.AsksMonotone` | crates/ikigai-cli/build.rs:109-177 | a package that has reached more asks for no less |
| `LinkedCrates.ClosedGrants` | crates/ikigai-cli/build.rs:109-177 | a fixed point above what is reached grants whatever is asked so far |
| `LinkedCrates.VisitKeepsPending` | crates/ikigai-cli/build.rs:109-177 | whatever is asked and not yet granted is still queued, after every turn |
| `LinkedCrates.VisitKeepsForced` | crates/ikigai-cli/build.rs:109-177 | nothing is reached or queued that some fixed point above could do without |
| `LinkedCrates.NamesInPlay` | crates/ikigai-cli/build.rs:142-164 | the walk only ever meets finitely many feature names |
| `LinkedCrates.FillingShrinks` | crates/ikigai-cli/build.rs:133-140 | a visit or a new feature shrinks what is still to be filled, which is why the walk ends |
| `LinkedCrates.VisitByEdges` | crates/ikigai-cli/build.rs:122-132 | a turn on an edge-walked package queues its edges once |
| `LinkedCrates.VisitByManifest` | crates/ikigai-cli/build.rs:133-164 | a turn on a manifest-walked package revisits its dependencies exactly when its features grew |
| `LinkedCrates.WalkLock` | crates/ikigai-cli/build.rs:109-177 | the worklist answers the least fixed point of the activation rules; it fails only when there is no fixed point, at a member without a manifest |
| `LinkedCrates.Linked` | crates/ikigai-cli/build.rs:63-186 | the answer is exactly the names and versions of the `ikigai-*` packages that every set closed under the rules reaches, the start left out; it fails exactly for a package not in the lock, or when no closed set exists |
| `LinkedCrates.AsksAre` | crates/ikigai-cli/build.rs:109-177 | what each package asks of which, on the manifest's fields |
| `LinkedCrates.TurnsOnBy` | crates/ikigai-cli/build.rs:320-329 | which feature texts turn a dependency on |
| `LinkedCrates.ForwardsTo` | crates/ikigai-cli/build.rs:149-155 | `key/feature` and `key?/feature` forward the feature to that key alone |
| `LinkedCrates.AskedFor` | crates/ikigai-cli/build.rs:145-155 | a dependency asks its own features, `default` unless declined, and what is forwarded, and nothing else |
| `LinkedCrates.EntryNames` | crates/ikigai-cli/build.rs:398-410 | which packages the three forms of a lock entry name |
| `LinkedCrates.WalkedBy` | crates/ikigai-cli/build.rs:117-129 | which packages are walked by manifest, by edges, or are an error |
| `Editor.KillSplits` | crates/ikigai-cli/src/tui.rs:813-884 | every kill splits the text around the cursor into what remains and the kill buffer, and an immediate yank restores the text |
| `Editor.CopyKeepsText` | crates/ikigai-cli/src/tui.rs:822-884 | copy and vi yank leave the text and take a stretch that reaches the cursor |
| `Editor.TextChangeDropsMark` | crates/ikigai-cli/src/tui.rs:778-895 | whatever changes the text drops the mark, and only kills and copies touch the kill buffer |
| `Editor.BackspaceUndoesInsert` | crates/ikigai-cli/src/tui.rs:789-801 | backspace takes back what was typed |
| `Editor.DeleteUndoesInsert` | crates/ikigai-cli/src/tui.rs:789-807 | delete does, from the left of it |
| `Editor.LineDownMoves` | crates/ikigai-cli/src/tui.rs:994-1014 | down goes one row at the same column clamped to that line, and up comes back exactly when that line holds the column |
| `Editor.LineUpMoves` | crates/ikigai-cli/src/tui.rs:982-1014 | the same for up |
| `Editor.EdgesStay` | crates/ikigai-cli/src/tui.rs:982-1002 | down stays put exactly on the last line, up exactly on the first |
| `Editor.DeleteToEndIsTextWide` | crates/ikigai-cli/src/tui.rs:897-911 | `d$` is the line-relative kill exactly when no line follows |
| `Editor.DeleteToStartIsTextWide` | crates/ikigai-cli/src/tui.rs:897-911 | `d0` is, exactly when no line precedes |
| `Editor.DeleteLineIsTextWide` | crates/ikigai-cli/src/tui.rs:897-911 | `dd` empties the text, and takes the cursor's line alone exactly when there is one line |
| `Editor.WordEndStays` | crates/ikigai-cli/src/tui.rs:935-942 | `e` pressed twice is `e` pressed once, and it does not move exactly on a word's last character or at the end |
| `Editor.RunKeepsApart` | crates/ikigai-cli/src/tui.rs:749-769 | over every run each buffer is out of the other's reach, and the history only grows |
| `Editor.NextKeepsApart` | crates/ikigai-cli/src/tui.rs:1089-1123 | the same for one event |
| `Editor.UpsReachBack` | crates/ikigai-cli/src/tui.rs:1272-1288 | `n` Ups show the `n`-th newest line, the oldest once they run out |
| `Editor.DownAfterUp` | crates/ikigai-cli/src/tui.rs:1272-1288 | when Down undoes Up, exactly |
| `Editor.DownWhileTyping` | crates/ikigai-cli/src/tui.rs:1272-1288 | Down on a typed line changes nothing exactly when there is no history or nothing typed |
| `Editor.YankAfterKill` | crates/ikigai-cli/src/tui.rs:727-742 | on either buffer, through the clipboard, a yank after a kill restores the text exactly when the kill changed the kill buffer or the clipboard held nothing else |
| `EditorLaws.WordMotionsLand` | crates/ikigai-cli/src/tui.rs:915-942 | word left, word right, `w` and `e` go exactly to where the whitespace and words of the text say, and touch nothing else |
| `EditorLaws.CharacterMotionsLand` | crates/ikigai-cli/src/tui.rs:807-808 | Left and Right go one character and stay in the text |
| `EditorLaws.LineMotionsLand` | crates/ikigai-cli/src/tui.rs:811-812 | Home and End go to the two ends of the line that holds the cursor |
| `EditorLaws.OneLineHoldsIt` | crates/ikigai-cli/src/tui.rs:970-978 | there is exactly one such line |
| `EditorLaws.ModeAfter` | crates/ikigai-cli/src/tui.rs:842-884 | which actions end in which vi mode |
| `EditorLaws.TypingInserts` | crates/ikigai-cli/src/tui.rs:789-793 | a typed character stands at the cursor, which is then after it |
| `EditorLaws.ErasedComesBack` | crates/ikigai-cli/src/tui.rs:794-806 | typing back what was erased restores the text, and nothing is erased only at an end |
| `EditorLaws.MarkThenCut` | crates/ikigai-cli/src/tui.rs:821-835 | a cut after any motion from the mark takes exactly what lies between |
| `EditorLaws.KillTakes` | crates/ikigai-cli/src/tui.rs:813-911 | each kill takes exactly one stretch, given on the characters, out of the text and into the kill buffer |
| `EditorLaws.CopyTakes` | crates/ikigai-cli/src/tui.rs:822-884 | each copy takes its stretch and leaves the text |
| `EditorLaws.EditsEither` | crates/ikigai-cli/src/tui.rs:749-769 | every text edit does the same to either buffer and leaves all else alone |
| `EditorLaws.LinesOwnActions` | crates/ikigai-cli/src/tui.rs:749-769 | scrolling and clearing, on the line and on the scratch buffer |
| `EditorLaws.ScratchRows` | crates/ikigai-cli/src/tui.rs:1107-1123 | Up and Down go by rows at the same column, clamped, and stay where there is no such row |
| `EditorLaws.SubmitKeepsTheLine` | crates/ikigai-cli/src/tui.rs:1198-1210 | what submitting keeps and what it resets |
| `EditorLaws.SourceIsRegion` | crates/ikigai-cli/src/tui.rs:1027-1032 | what the scratch buffer submits |
| `Tui.PrevBoundary` | crates/ikigai-cli/src/tui.rs:1141-1146 | the boundary one character left |
| `Tui.NextBoundary` | crates/ikigai-cli/src/tui.rs:1150-1155 | the boundary one character right |
| `Tui.WordLeftFrom` | crates/ikigai-cli/src/tui.rs:1158-1175 | the byte loops stop on a boundary, one word left in characters |
| `Tui.WordRightFrom` | crates/ikigai-cli/src/tui.rs:1178-1195 | the same to the right |
| `Tui.NextWordFrom` | crates/ikigai-cli/src/tui.rs:915-932 | the same for vi's `w` |
| `Tui.WordEndFrom` | crates/ikigai-cli/src/tui.rs:935-942 | the same for vi's `e` |
| `Tui.LineStartFrom` | crates/ikigai-cli/src/tui.rs:970-972 | the byte search for a newline finds the line's start |
| `Tui.LineEndFrom` | crates/ikigai-cli/src/tui.rs:976-978 | and the line's end |
| `Tui.ByteAtCol` | crates/ikigai-cli/src/tui.rs:1005-1014 | the boundary `col` characters into a line, clamped to its end |
| `Tui.LineUpFrom` | crates/ikigai-cli/src/tui.rs:982-990 | up, in bytes, is up in characters, for multi-byte text too |
| `Tui.LineDownFrom` | crates/ikigai-cli/src/tui.rs:994-1002 | down, likewise |
| `Tui.ViewDetermines` | crates/ikigai-cli/src/tui.rs:156-214 | a legal buffer is determined by its character view: the refinement forgets nothing |
| `Tui.ClampKeepsMark` | crates/ikigai-cli/src/tui.rs:963-966 | the clamp never moves a mark |
| `Tui.RegionOf` | crates/ikigai-cli/src/tui.rs:963-966 | the region is legal and is the one between mark and cursor |
| `Tui.KillRange` | crates/ikigai-cli/src/tui.rs:946-958 | a range moves into the kill buffer, the cursor left where it began |
| `Tui.PasteAt` | crates/ikigai-cli/src/tui.rs:836-841 | a text is inserted at the cursor, which moves past it |
| `Tui.ViRange` | crates/ikigai-cli/src/tui.rs:901-911 | the operator's byte range is legal and is its character span |
| `Tui.Operate` | crates/ikigai-cli/src/tui.rs:864-884 | `d`, `c` and `y` with a motion do what the specification says |
| `Tui.EditText` | crates/ikigai-cli/src/tui.rs:778-895 | every editing action on every legal buffer leaves a legal one and does what the specification says |
| `Tui.State.Recall` | crates/ikigai-cli/src/tui.rs:1272-1288 | history recall keeps the state valid and does what the specification says |
| `Tui.State.EditLine` | crates/ikigai-cli/src/tui.rs:749-769 | an action on the REPL line, likewise |
| `Tui.State.EditScratch` | crates/ikigai-cli/src/tui.rs:1107-1123 | an action on the scratch buffer, likewise |
| `Tui.State.Submit` | crates/ikigai-cli/src/tui.rs:1198-1210 | submitting takes the line and resets what it resets |
| `Tui.State.Handle` | crates/ikigai-cli/src/tui.rs:731-742 | a yank takes the clipboard's text first, and a changed kill buffer is copied out |
| `Tui.State.Drive` | crates/ikigai-cli/src/tui.rs:731-895 | over every sequence of actions, recalls, submits and clipboard contents the state stays valid and every slice is legal |
| `Tui.State.ScratchSrc` | crates/ikigai-cli/src/tui.rs:1027-1032 | an evaluation takes the marked region, or all of the text |
| `Utf8.IndexOfOffset` | crates/ikigai-cli/src/tui.rs:1141-1155 | boundaries and character positions are each other's inverse |
| `Utf8.DecodeEncode` | crates/ikigai-cli/src/layer.rs:817-827 | the bytes of a text read as that text |
| `Utf8.EncodeDecode` | crates/ikigai-cli/src/layer.rs:817-827 | bytes that read as a text are that text's bytes |
| `Base64.DecodeEncode` | crates/ikigai-cli/src/layer.rs:817-827 | base64 decodes to the bytes it encodes |
| `Base64.EncodeDecode` | crates/ikigai-cli/src/layer.rs:1264-1272 | decoding accepts exactly what encoding writes |
| `Base64.EncodeLength` | crates/ikigai-cli/src/layer.rs:1129-1137 | four characters for every three bytes begun |
| `Base64.AlphabetIs` | crates/ikigai-cli/src/layer.rs:817-827 | the alphabet of section 4 of RFC 4648 |
| `Base64.GroupsAre` | crates/ikigai-cli/src/layer.rs:817-827 | the bits of one, two and three bytes, and their padding |
| `Turtle.WriteLiteral` | crates/ikigai-cli/src/layer.rs:623-641 | the loop writes the escaped literal |
| `Turtle.LiteralReadsBack` | crates/ikigai-cli/src/layer.rs:623-641 | a literal reads back as its text and leaves what follows, exactly unless it is empty and a quote follows |
| `Turtle.EscapeReads` | crates/ikigai-cli/src/layer.rs:623-641 | each written character is read as itself, whatever follows |
| `Turtle.EscapedIsPlain` | crates/ikigai-cli/src/layer.rs:619-641 | no control character is left in a literal |
| `Turtle.Iri` | crates/ikigai-cli/src/layer.rs:645-656 | an IRI reference is written exactly for what an IRI may hold |
| `TurtleDoc.PairReads` | crates/ikigai-cli/src/layer.rs:695-712 | one property and object read back as meant |
| `TurtleDoc.PairsRead` | crates/ikigai-cli/src/layer.rs:695-712 | statements joined by `;` read back, all and in order |
| `LayerEntry.DirectiveReads` | crates/ikigai-cli/src/layer.rs:695-712 | a prefix directive binds its prefix for the rest |
| `LayerEntry.TermsDeclared` | crates/ikigai-cli/src/layer.rs:704-708 | the second vocabulary is declared exactly when a statement uses it |
| `LayerEntry.EntryReads` | crates/ikigai-cli/src/layer.rs:695-712 | a composed entry parses to exactly its class, statements and thread, whatever their texts hold; composing fails exactly for a link that is not an IRI |
| `FileEntry.WriteDigest` | crates/ikigai-cli/src/layer.rs:804-812 | the loop writes the digest's name |
| `FileEntry.ContentDecodes` | crates/ikigai-cli/src/layer.rs:817-827 | whatever the bytes are, what they are sent as decodes to them |
| `FileEntry.SentAsText` | crates/ikigai-cli/src/layer.rs:817-827 | bytes are sent as text exactly when they are one without control characters but tab, newline and carriage return, and then as that text |
| `FileEntry.HexSpells` | crates/ikigai-cli/src/layer.rs:804-812 | the digest is two lowercase digits a byte, high one first |
| `FileEntry.ReadNode` | crates/ikigai-cli/src/layer.rs:1216-1247 | the loop collects the types and literals said of one entry |
| `FileEntry.EntryAnswers` | crates/ikigai-cli/src/layer.rs:1216-1247 | a composed entry reads back as its one class and its literals |
| `FileEntry.ComposesExactly` | crates/ikigai-cli/src/layer.rs:1094-1127 | composing fails exactly for an unsafe name, an untakeable media type or a link that is not an IRI |
| `FileEntry.FileReadsBack` | crates/ikigai-cli/src/layer.rs:1094-1294 | for every byte string and accepted name, the entry read back passes every check and gives exactly those bytes, and says `text` exactly when they can be sent so |
| `FileEntry.BytesAreAsStated` | crates/ikigai-cli/src/layer.rs:1264-1294 | bytes that are given back have the stated size and hash to the stated hash, whoever answered |
| `FileEntry.BytesExactly` | crates/ikigai-cli/src/layer.rs:1264-1294 | when bytes are given back at all, both ways |
| `FileEntry.NodeHolds` | crates/ikigai-cli/src/layer.rs:1216-1247 | a node holds exactly what is stated of its own entry, in order |
| `FileEntry.OneExactly` | crates/ikigai-cli/src/layer.rs:1249-1258 | a property is read only when it has one value |
| `FileEntry.HexInjective` | crates/ikigai-cli/src/layer.rs:804-812 | the digest's text determines the hash |
| `FileEntry.GuessIsMediaType` | crates/ikigai-cli/src/layer.rs:1058-1083 | a guessed media type is one a layer takes |
| `FileEntry.GuessFallsBack` | crates/ikigai-cli/src/layer.rs:1068-1085 | what a file without a media type is given, the two fallbacks included |
| `FileEntry.MediaTypeLooks` | crates/ikigai-cli/src/layer.rs:1056-1066 | what a layer takes for a media type |
| `FileEntry.Base64BoundIsExact` | crates/ikigai-cli/src/layer.rs:1129-1145 | a base64 file passes the size check if and only if it has at most `bound / 4 * 3` bytes |
| `FileEntry.PassingFits` | crates/ikigai-cli/src/layer.rs:1129-1145 | content that passes has at most `bound` characters and bytes |
| `FileEntry.BoundIsExact` | crates/ikigai-cli/src/layer.rs:1129-1145 | any content passes exactly when its bytes and those escaping adds are within the bound |
| `Words.SplitWords` | crates/ikigai-cli/src/script.rs:64-97 | the nested loops split as the grammar says |
| `Words.WordsReadBack` | crates/ikigai-cli/src/script.rs:64-97 | any list of words, quoted and joined by spaces, is split into itself |
| `Words.PlainWordsReadBack` | crates/ikigai-cli/src/script.rs:64-97 | plain words need no quotes, whatever whitespace is between them |
| `Words.SpanJoinsItsWord` | crates/ikigai-cli/src/script.rs:64-66 | a quoted span goes on with the word it follows |
| `Words.ReadParams` | crates/ikigai-cli/src/script.rs:99-117 | the loop takes the arguments, or refuses as the first bad one is |
| `Words.ParamsExact` | crates/ikigai-cli/src/script.rs:99-117 | arguments are taken exactly when each is `name=value` and no name repeats, and give exactly their map |
| `Words.CommandReadsBack` | crates/ikigai-cli/src/script.rs:35-62 | a printed `script` line is accepted exactly when its IRI and arguments can be, and then gives them back |
| `Words.InvocationReadsBack` | crates/ikigai-cli/src/script.rs:35-117 | an IRI with any map of parameters, printed in any order of its names, is read back as that IRI and that map if and only if the IRI and every name can be given |
| `Words.OnlyScriptIsTaken` | crates/ikigai-cli/src/script.rs:35-45 | a line is taken exactly when its first word is `script` |
| `Words.QuotesMustClose` | crates/ikigai-cli/src/script.rs:75-88 | an unclosed quote and a lone backslash are refused |
| `Words.OtherEscapesStay` | crates/ikigai-cli/src/script.rs:80-83 | a backslash before anything else is kept with it |
| `Sessions.EvalKeepsSound` | crates/ikigai-cli/src/session.rs:28-56 | an evaluation keeps the refusal promise, and the flag says exactly whether a failed `cap` is unsettled |
| `Sessions.LispKeepsSound` | crates/ikigai-cli/src/session.rs:59-65 | so does a scratch evaluation |
| `Sessions.OnlyErrorsRefuse` | crates/ikigai-cli/src/session.rs:28-56 | a session starts refusing only by answering with an error |
| `Sessions.RefusingIsSilent` | crates/ikigai-cli/src/session.rs:28-65 | while refusing, the engine is given a line exactly when it is a recovery |
| `Sessions.RecoveryIsWritten` | crates/ikigai-cli/src/session.rs:28-36 | on the text: a recovery is `cap` and anything but `seal` alone |
| `Sessions.RefusingPassesNarrowing` | crates/ikigai-cli/src/session.rs:28-56 | a refusing session gives the engine every such line, and resumes exactly when it is answered without an error |
| `Sessions.RefusingKeepsTheRest` | crates/ikigai-cli/src/session.rs:37-46 | every other line, `cap` and `cap seal` included, is answered by the session, which stays as it was |
| `Sessions.UnrefusedPasses` | crates/ikigai-cli/src/session.rs:47-56 | an unrefused session gives the engine every line, and refuses exactly after a `cap` answered by an error |
| `Sessions.LispPassesUnrefused` | crates/ikigai-cli/src/session.rs:59-65 | a scratch evaluation passes exactly when the session is not refusing |
| `Sessions.GuardedIsWritten` | crates/ikigai-cli/src/session.rs:3-5 | the promise, on the texts of the lines |
| `Sessions.Session.Eval` | crates/ikigai-cli/src/session.rs:28-56 | the method does that, on its fields |
| `Sessions.Session.EvalLisp` | crates/ikigai-cli/src/session.rs:59-65 | likewise |
| `Frontends.ScriptRunsPrefix` | crates/ikigai-cli/src/script.rs:123-149 | a script evaluates a prefix of its lines, once each and in order |
| `Frontends.ScriptStopsAtFirst` | crates/ikigai-cli/src/script.rs:123-149 | the prefix ends at the first error or `quit`, or with the script, and a failure names its line |
| `Frontends.ScriptNeverAsksRefusing` | crates/ikigai-cli/src/script.rs:123-149 | a script begun unrefused evaluates nothing while refusing |
| `Frontends.RunBound` | crates/ikigai-cli/src/script.rs:129-148 | the loop runs the bound lines so |
| `Frontends.RunScript` | crates/ikigai-cli/src/script.rs:123-149 | a script that does not bind runs no line |
| `Frontends.RunInvocation` | crates/ikigai-cli/src/script.rs:153-176 | a stored script is read through the session and then run |
| `Frontends.StoredRunsAsTyped` | crates/ikigai-cli/src/script.rs:164-176 | a stored script is its text, bound with the invocation's own parameters, run as if typed |
| `Frontends.CommandDoes` | crates/ikigai-cli/src/repl.rs:31-61 | what one command does, and when it fails or quits |
| `Frontends.ScriptCodeTells` | crates/ikigai-cli/src/repl.rs:152-180 | exit code 2 exactly when the script is refused for no line, 1 exactly when its last line failed once it runs |
| `Frontends.FedIsRun` | crates/ikigai-cli/src/repl.rs:25-146 | the loops take each command once and in order, from the session the one before left, up to the first that halts |
| `Frontends.RunIsFed` | crates/ikigai-cli/src/repl.rs:25-146 | and there is exactly one such run |
| `Frontends.Obey` | crates/ikigai-cli/src/repl.rs:31-61 | one command: a stored script, or a line |
| `Frontends.FeedBatch` | crates/ikigai-cli/src/repl.rs:25-75 | the batch loop is that run, ending also at a failure that leaves the session refusing; its code is 1 exactly when something failed |
| `Frontends.FeedRepl` | crates/ikigai-cli/src/repl.rs:89-146 | the REPL loop goes on after failures |
| `Frontends.BatchNeverAsksRefusing` | crates/ikigai-cli/src/repl.rs:25-75 | a batch never evaluates anything while refusing, even through stored scripts |
| `Frontends.BatchGoesOn` | crates/ikigai-cli/src/repl.rs:25-75 | a batch ends only at a `quit` or a failure that leaves it refusing |
| `Frontends.ReplGoesOn` | crates/ikigai-cli/src/repl.rs:89-146 | the REPL ends only at a `quit` |
| `Frontends.RunCommands` | crates/ikigai-cli/src/repl.rs:25-75 | the same of a batch on its own session |
| `Frontends.RunRepl` | crates/ikigai-cli/src/repl.rs:89-146 | the REPL on its own session |
| `Frontends.EveryRunIsGuarded` | crates/ikigai-cli/src/session.rs:1-65 | in every run that mixes typed lines, scratch evaluations, scripts, stored scripts, batches and the REPL, after a `cap` answered by an error the engine is given only lines that ask for a narrowing, until one is answered without |
| `Mounts.MountPrefixes` | crates/ikigai-cli/src/main.rs:665-717 | a prefix list is accepted exactly when its prefixes differ, none is the kernel's, and none of several is empty |
| `Mounts.FaultIsFirst` | crates/ikigai-cli/src/main.rs:683-701 | which prefix is refused, and as what |
| `Mounts.KernelsOwn` | crates/ikigai-cli/src/main.rs:704-717 | the prefixes that are the kernel's |
| `Mounts.ArgumentReads` | crates/ikigai-cli/src/main.rs:871-889 | each flag takes the next word, and is refused without one |
| `Mounts.SpecsRefused` | crates/ikigai-cli/src/main.rs:722-728 | a spec without `=`, or with refused prefixes, stops the parse |
| `Mounts.WrittenLineReads` | crates/ikigai-cli/src/main.rs:1804-1918 | any line of mounts and certificate flags, written out in words, is read as exactly those |
| `Mounts.GroupedSaysAll` | crates/ikigai-cli/src/main.rs:1804-1918 | grouping a command line by mount loses and reorders nothing |
| `Mounts.LineIsGrouped` | crates/ikigai-cli/src/main.rs:1804-1918 | and a line written out groups into itself |
| `Mounts.ReplCerts` | crates/ikigai-cli/src/main.rs:1804-1918 | the own set is the flags before the first mount; each mount has it overridden field by field by its own flags |
| `Mounts.ReplRuleSettles` | crates/ikigai-cli/src/main.rs:1806-1817 | that rule settles every certificate |
| `Mounts.ServeCerts` | crates/ikigai-cli/src/main.rs:1510-1554 | `serve`'s and `mcp`'s loop: each mount has everything given before the next, and the own set has all of it |
| `Mounts.ServeRuleSettles` | crates/ikigai-cli/src/main.rs:1728-1751 | that rule settles every certificate too |
| `Mounts.ServeAgrees` | crates/ikigai-cli/src/main.rs:1510-1517 | the two loops agree on a mount exactly when it gives again every field an earlier mount changed, and on the own set exactly when no mount changes it |
| `Mounts.ServeLeaks` | crates/ikigai-cli/src/main.rs:1510-1517 | a two-mount line on which they differ |
| `LazyMount.StepKeepsTimely` | crates/ikigai-cli/src/main.rs:3137-3279 | a connection that is held was reached, and no stamp is in the future, after every step of every caller |
| `LazyMount.StaysConnected` | crates/ikigai-cli/src/main.rs:3153-3165 | once connected, connected whatever the callers do, and no dial begins again |
| `LazyMount.EnumerationsAreSpaced` | crates/ikigai-cli/src/main.rs:3235-3271 | in every interleaving with at most one enumeration past the negative cache, whoever else is on the way to it, none dials within thirty seconds of a failed one |
| `LazyMount.SpacedExactly` | crates/ikigai-cli/src/main.rs:3137-3271 | on a new resolver the spacing holds in every run in which only the given callers list, if and only if they are at most one |
| `LazyMount.BothListFails` | crates/ikigai-cli/src/main.rs:3235-3271 | the run of two callers on a new resolver in which it does not |
| `LazyMount.OverlapBreaksSpacing` | crates/ikigai-cli/src/main.rs:3246-3271 | from any unconnected world, two callers past the negative cache can fail together |
| `LazyMount.ResolvedIsARun` | crates/ikigai-cli/src/main.rs:3156-3165 | a resolution alone is one of the interleaved runs |
| `LazyMount.EnumeratedIsARun` | crates/ikigai-cli/src/main.rs:3235-3271 | so is an enumeration |
| `LazyMount.CallsKeepQuiet` | crates/ikigai-cli/src/main.rs:3137-3279 | between calls at most one dial has ever succeeded, the last, and it is what is held |
| `LazyMount.EveryUseIsQuiet` | crates/ikigai-cli/src/main.rs:3137-3279 | over every sequence of resolutions, lists and waits on a new resolver that stays so, and the lists' dials are spaced |
| `LazyMount.ListDialsExactly` | crates/ikigai-cli/src/main.rs:3235-3271 | over every sequence of uses a list dials if and only if nothing was reached and no list's dial failed under thirty seconds ago, and a resolution if and only if nothing was reached |
| `LazyMount.CallsDialWhen` | crates/ikigai-cli/src/main.rs:3156-3271 | when a call dials, and what it leaves |
| `LazyMount.CacheOpensAfterThirty` | crates/ikigai-cli/src/main.rs:3246-3253 | among other callers, one at the negative cache goes on to dial exactly when thirty seconds are over |
| `LazyMount.ResolutionsPassTheCache` | crates/ikigai-cli/src/main.rs:3156-3165 | a resolution never stops there |
| `LazyMount.LazyResolver.Get` | crates/ikigai-cli/src/main.rs:3156-3165 | dials exactly when nothing is connected |
| `LazyMount.LazyResolver.Issue` | crates/ikigai-cli/src/main.rs:3171-3209 | a resolution dials every time it finds nothing connected, whatever an enumeration remembers |
| `LazyMount.ProbesChangeNothing` | crates/ikigai-cli/src/main.rs:3211-3279 | `is_cached` and `transport` can be taken out of any run, wherever they fall in it: they dial nothing and change nothing |
| `LazyMount.LazyResolver.Connected` | crates/ikigai-cli/src/main.rs:3211-3279 | whoever is asked what is cached, or over what, is whoever the last dial reached, and nobody when it failed or there was none |
| `LazyMount.LazyResolver.TryEntries` | crates/ikigai-cli/src/main.rs:3235-3271 | an enumeration uses a connection at once, and otherwise dials unless the last failure is under thirty seconds old |
| `McpReload.ReloadedIsTheMeet` | crates/ikigai-cli/src/main.rs:2424-2440 | a reload keeps the most that is within both the start and the reading, and the waiting scopes are exactly those past the start |
| `McpReload.NeverWider` | crates/ikigai-cli/src/main.rs:2666-2686 | never wider than the start, nothing while the reading fails, and all of it back exactly when the reading covers it |
| `McpReload.Poller.Wake` | crates/ikigai-cli/src/main.rs:2660-2705 | one wake: nothing unless the file changed; told exactly when something changed; the waiting scopes reported are exactly those past the start |
| `McpReload.Poller.Watch` | crates/ikigai-cli/src/main.rs:2657-2705 | over every sequence of wakes the authority is a function of the start and the latest reading only |
| `Front.Route` | crates/ikigai-cli/src/front.rs:139-276 | the router, with its loop over the names seen |
| `Front.IriIsThePath` | crates/ikigai-cli/src/front.rs:139-225 | a route's IRI is `urn:` and its segments joined by colons (`tuples` for `rd`, `out` and `take`), and splits back into them |
| `Front.PathIsItsSegments` | crates/ikigai-cli/src/front.rs:140 | a path written from segments is read as them |
| `Front.ArgumentsAreSafe` | crates/ikigai-cli/src/front.rs:242-276 | argument names are distinct, never `principal`, `content` exactly for a Sink and then the body; the rest of the query is forwarded in order |
| `Front.OwnNameIsTheVerbs` | crates/ikigai-cli/src/front.rs:43 | the tuples' own name is `rd`, `out` and `take` by another name, for every request |
| `Front.HeadIsGet` | crates/ikigai-cli/src/front.rs:117-119 | HEAD routes as GET on every request |
| `Front.AllowIsExact` | crates/ikigai-cli/src/front.rs:226-241 | a 405 names exactly the methods that pass, if and only if the path does not end in an entry, graph or receipt called `tuples` |
| `Front.MisnamedEntry` | crates/ikigai-cli/src/front.rs:226-241 | POST to such a path is refused with an `Allow` that names POST |
| `Front.AcceptedExactly` | crates/ikigai-cli/src/front.rs:139-276 | which requests are accepted, and what each other is refused for |
| `Front.QueryIsForwarded` | crates/ikigai-cli/src/front.rs:242-276 | every parameter but two is forwarded, with its value |
| `Front.GivenJoins` | crates/ikigai-cli/src/front.rs:244-249 | in the query's order |
| `Front.RepeatedNameIsTold` | crates/ikigai-cli/src/front.rs:250-261 | the name refused is the first given before |
| `Front.SlashesSeparate` | crates/ikigai-cli/src/front.rs:140 | slashes separate segments, however many there are |
| `Front.DeleteInAnyCase` | crates/ikigai-cli/src/front.rs:205-209 | DELETE overrides in any mix of cases |
| `RateLimits.WholeNumber` | crates/ikigai-cli/src/rate_limits.rs:120-132 | an accepted number is from 1 to 2^64-1 |
| `RateLimits.ParseRule` | crates/ikigai-cli/src/rate_limits.rs:94-117 | an accepted rate has from 1 to 2^32-1 requests and from 1 to 2^64-1 seconds |
| `RateLimits.WholeReadsBack` | crates/ikigai-cli/src/rate_limits.rs:120-132 | every number in that range can be given |
| `RateLimits.SeparatorsAreNothing` | crates/ikigai-cli/src/rate_limits.rs:120-122 | an underscore anywhere in a number changes nothing |
| `RateLimits.OnlyDigitsCount` | crates/ikigai-cli/src/rate_limits.rs:120-125 | what is no number |
| `RateLimits.SpacesAreNothing` | crates/ikigai-cli/src/rate_limits.rs:101-104 | a rule's two words, whatever whitespace is around them |
| `RateLimits.KeysAre` | crates/ikigai-cli/src/rate_limits.rs:52-80 | which keys are known, and how each is read |
| `RateLimits.RuleReadsBack` | crates/ikigai-cli/src/rate_limits.rs:94-117 | a rule written down is read back exactly, if and only if its prefix has a colon |
| `RateLimits.AskedSays` | crates/ikigai-cli/src/rate_limits.rs:52-66 | the lines' own table is exactly what the lines say |
| `RateLimits.MaxSourcesSays` | crates/ikigai-cli/src/rate_limits.rs:67-73 | the table size is the one given, or the default |
| `RateLimits.EffectiveSays` | crates/ikigai-cli/src/rate_limits.rs:43-91 | a rule is in force exactly when a line gives it, or it is a default no line names |
| `RateLimits.DefaultsAre` | crates/ikigai-cli/src/rate_limits.rs:35-50 | the defaults and the default table size |
| `RateLimits.BagDecides` | crates/ikigai-cli/src/rate_limits.rs:43-91 | what makes lines acceptable does not look at their order |
| `RateLimits.OrderIsNothing` | crates/ikigai-cli/src/rate_limits.rs:43-91 | any permutation of the lines is accepted or refused alike and makes the same rules and table size |
| `RateLimits.LimitsFrom` | crates/ikigai-cli/src/rate_limits.rs:43-91 | accepted exactly when every line reads, no prefix is named twice and the size is set once; then the defaults overridden, each prefix once, and no limits exactly when every rule is off; refused at the first line that cannot be taken, for its reason |
| `RateLimits.LongestGoverns` | crates/ikigai-web/src/source_limit.rs:131-169 | the first match longest-first is the rule of the longest prefix |
| `RateLimits.OrderGovernsNothing` | crates/ikigai-web/src/source_limit.rs:131-169 | so the same lines in any order govern every target alike |
| `Numbers.DecimalParses` | crates/ikigai-cli/src/layer.rs:1276-1283 | a printed size parses as itself |
| `Numbers.ParsesExactly` | crates/ikigai-cli/src/layer.rs:1276 | what parses as a size |
| `Editor.KillCutsSpan` | crates/ikigai-cli/src/tui.rs:813-911 | which stretch each killing action takes |
| `Front.OnlyPostWrites` | crates/ikigai-cli/src/front.rs:139-276 | only POST writes or takes, only GET and HEAD read, and a body is under the path's layer |
| `Front.VerbByName` | crates/ikigai-cli/src/front.rs:28-43 | which requests write, which take, and that all others read |
| `Front.FaceByName` | crates/ikigai-cli/src/front.rs:28-43 | the default face of every route, given only where the query names none |

## Left out

- Reading TOML, the environment variables that say which features are on, and resolving a dependency through the workspace's table: the walk starts from manifests already read.
- Key tables, drawing, tabs, the transcript and the clipboard's own I/O: the editor starts at the decoded action, a yank is given the clipboard's text, and a copy to the clipboard is taken to succeed.
- The display width of the scroll is a `u16`; rows and columns for drawing (`cursor_row_col`) are not modelled.
- SHA-256, the rule for safe file names and the media-type table are parameters; nothing is assumed of them.
- The Turtle reader takes the subset entries are written in; IRIs are checked for their characters, not against RFC 3987; blank nodes, language tags and datatypes are not read.
- The other entry kinds (messages, briefs, issues) are instances of `LayerEntry.EntryReads` and add nothing to it.
- The engine, the parser and binder of scripts, cache tallies, fan-out and contract notes, and what is printed: an answer is its result, and a script is its bound lines.
- The text of error messages: a fault is a case with what it names.
- Every other command-line argument is a parameter that says how many words it takes or why it stops the parse; `-h`, which stops it for the usage text, is such a reason.
- What a connected peer answers, and its own redialling a layer down.
- A change of the grants file between the session's start and the poller's first look at its time, and one too quick for the file's time to show.
- Capabilities are sets of scopes or root, and attenuation is intersection.
- The HTTPS front's transport, tokens and JSON-LD context; percent-decoding happens before the router.
- The rate limiter's windows: only which rule governs a target is modelled.
- The other argument loops, `take_dir_flag`, banners, postures and signals: bookkeeping with easier claims than these.
