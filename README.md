# obsidian-manim, modelled in Dafny

obsidian-manim renders `manim` code blocks in an Obsidian note. The plugin's
`ManimRenderer` reads the options on the fence line (`scene=…`, `format=…`,
`quality=…`) and fills the gaps with its configured defaults. It POSTs the code
to a local render server at `<serverUrl>/render`. It then shows the reply as a
video, an image or a download link, or as a "Render failed: …" status text. The
server (`manim-server.py`) does four things:

- validates the JSON request;
- maps the quality to a manim CLI flag;
- runs manim;
- walks the media directory for the newest file whose name contains the scene
  and whose extension suits the requested format, falling back to any of the
  four supported extensions.

The project models both sides and the way they meet:

| file | module | what it models |
|---|---|---|
| `wrappers.dfy` | `Wrappers` | `Option` |
| `text.dfy` | `Text` | JavaScript `\s` whitespace, ASCII lower-casing, `split` on one character, the last piece after a separator, `rfind`, `sub in s`, and Python's order on strings |
| `info_string.dfy` | `InfoString` | `parseInfoString`: the token loop as a method over a `map`, proved against a left fold, with the properties of the fold |
| `manim_renderer.dfy` | `ManimRenderer` | the constructor's defaults, the payload and URL, `extToMime`, extension extraction, the choice of element, and the status texts |
| `blob.dfy` | `Blob` | `base64ToBlob` after `atob`: the slicing loop and the inner loop that fills an array with char codes |
| `manim_server.dfy` | `PosixPath` | `os.path.join`, `basename`, `splitext` and `lstrip` |
| `manim_server.dfy` | `ManimServer` | request validation, the quality flag, `find_latest_render` as nested loops plus a maximum, and the reply after manim has run |
| `interop.dfy` | `RenderProtocol` | what the server decides for each payload the renderer can build, and what the renderer shows for each reply the server can give |

Where the code and its own documentation disagree, the model follows the code:

- A token `scene=` records the empty string. The payload then uses `"Scene"`,
  because `||` treats `""` as missing. The same happens for the format and the
  quality.
- The renderer knows `webm` (a video, `video/webm`). The server rejects it with
  400 "unsupported format: webm".
- A name that is only dots and an extension (`.mp4`, `..mp4`) has no extension
  for the server. `os.path.splitext` ignores leading dots.
- A non-ok reply whose body is not JSON, such as Flask's own 400 or 500 page,
  shows "Render failed: Server returned <status>".
- A success reply without `data` leaves the block empty. The status node is
  removed before `atob` throws, so the "Render error" text of the catch goes to
  a node that is no longer shown.

## Model

| member | source | states |
|---|---|---|
| Text.Lower | src/manimRenderer.ts:75 | the result has the input's length, and each character is lower-cased on its own |
| Text.LowerIsLower | src/manimRenderer.ts:145 | lower-casing leaves no upper-case letter and is idempotent |
| Text.LowerOfLower | src/manimRenderer.ts:145 | a string with no upper-case letter is its own lower-case form |
| Text.Split | src/manimRenderer.ts:112 | `split` gives at least one piece, and no piece holds the separator |
| Text.SplitCount | src/manimRenderer.ts:113 | there is exactly one more piece than there are separators |
| Text.Concat | src/manimRenderer.ts:128-140 | strings one after another (the slices of `base64ToBlob` and the tokens of the options line concatenate back to their text: `Blob.ChunksConcat`, `InfoString.TokensPartitionLine`) |
| Text.JoinSplit | src/manimRenderer.ts:112 | joining the pieces with the separator gives the string back |
| Text.SplitJoin | src/manimRenderer.ts:112 | splitting undoes a join of separator-free pieces |
| Text.SplitWithoutSeparator | src/manimRenderer.ts:112 | a string without the separator is its own only piece |
| Text.SplitAfterPrefix | src/manimRenderer.ts:112 | the first separator ends the first piece |
| Text.SplitAtLeastTwo | src/manimRenderer.ts:113 | a string holding the separator splits into two or more pieces |
| Text.SplitLastOfTail | src/manimRenderer.ts:75 | dropping a first character that does not end the last piece keeps the last piece |
| Text.LastPiece | src/manimRenderer.ts:75 | the last piece is a separator-free suffix, preceded by a separator when it is shorter than the string, and is the whole string when there is no separator |
| Text.LastIndexOf | manim-server.py:45 | `None` exactly when the character is absent; otherwise an index holding the character with none after it |
| Text.LastIndexOfAt | manim-server.py:45 | an occurrence with none after it is the one `LastIndexOf` finds |
| Text.ContainsAt | manim-server.py:43 | `sub in s` holds exactly when `sub` occurs at some position of `s` |
| Text.StrLessIrreflexive | manim-server.py:51 | no string sorts before itself |
| Text.StrLessTransitive | manim-server.py:51 | the string order is transitive |
| Text.StrLessTotal | manim-server.py:51 | any two different strings are ordered one way or the other |
| InfoString.TrimStartDropsLeadingWhitespace | src/manimRenderer.ts:114-115 | `trimStart` keeps a suffix that starts with non-whitespace and drops only whitespace |
| InfoString.TrimEndDropsTrailingWhitespace | src/manimRenderer.ts:114-115 | `trimEnd` keeps a prefix that ends with non-whitespace and drops only whitespace |
| InfoString.TrimWithoutWhitespace | src/manimRenderer.ts:114-115 | trimming a whitespace-free string changes nothing |
| InfoString.SplitWhitespace | src/manimRenderer.ts:110 | splitting at whitespace runs gives at least one token |
| InfoString.SplitWhitespaceTokens | src/manimRenderer.ts:110 | no token holds whitespace |
| InfoString.NonWhitespaceSkipsLeading | src/manimRenderer.ts:110 | leading whitespace contributes no characters |
| InfoString.SplitWhitespaceKeepsText | src/manimRenderer.ts:110 | the tokens, concatenated, are the non-whitespace characters after the current token |
| InfoString.TokensPartitionLine | src/manimRenderer.ts:110 | `info.split(/\s+/)` loses only whitespace: the tokens concatenate to the line's non-whitespace characters, and none holds whitespace |
| InfoString.Tokens | src/manimRenderer.ts:110 | `info.split(/\s+/)` (stated by `TokensPartitionLine` and `TokensOfJoin`) |
| InfoString.SplitWhitespaceWord | src/manimRenderer.ts:110 | non-whitespace characters only extend the current token |
| InfoString.JoinStartsWithFirst | src/manimRenderer.ts:110 | a joined line starts with its first word |
| InfoString.SplitWhitespaceOfJoin | src/manimRenderer.ts:110 | words joined by single spaces split back into those words |
| InfoString.TokensOfJoin | src/manimRenderer.ts:110 | round trip: non-empty whitespace-free words joined by spaces tokenise back to the same words |
| InfoString.TokenEntryCases | src/manimRenderer.ts:112-118 | a token records its trimmed pair exactly when it splits into two parts whose trimmed key is recognized |
| InfoString.TokenEntry | src/manimRenderer.ts:112-118 | what one token records (stated by `TokenEntryCases`, `WellFormedTokenRecorded`, `MalformedTokenIgnored`) |
| InfoString.Fold | src/manimRenderer.ts:111-120 | the options a sequence of tokens records (stated by `FoldKeys`, `FoldLastSetter`, `LastOccurrenceWins`) |
| InfoString.ParseInfo | src/manimRenderer.ts:106-122 | `parseInfoString` (the loop `ParseInfoString` is proved equal to it; stated by `ParseInfoKeys`, `LastOccurrenceWins`, `LineRecordsPair`) |
| InfoString.ApplyPair | src/manimRenderer.ts:113-118 | a two-part token sets its trimmed key to its trimmed value if the key is recognized, and changes nothing otherwise |
| InfoString.ApplyOther | src/manimRenderer.ts:113 | a token that does not split into exactly two parts changes nothing |
| InfoString.FoldStep | src/manimRenderer.ts:111-120 | one more loop iteration applies one more token to the fold |
| InfoString.SetOption | src/manimRenderer.ts:116-118 | the three `if`s set the key to the value exactly when the key is `scene`, `format` or `quality` |
| InfoString.ApplyToken | src/manimRenderer.ts:112-119 | the loop body updates the result as the fold's step does |
| InfoString.ParseInfoString | src/manimRenderer.ts:106-122 | the loop returns the fold of the tokens over the empty map, and the empty map for an empty line |
| InfoString.EmptyLineRecordsNothing | src/manimRenderer.ts:109 | an empty info line gives the empty map |
| InfoString.FoldKeys | src/manimRenderer.ts:116-118 | the fold records only `scene`, `format` and `quality` |
| InfoString.ParseInfoKeys | src/manimRenderer.ts:116-118 | the parsed keys are among `scene`, `format` and `quality` |
| InfoString.MalformedTokenIgnored | src/manimRenderer.ts:112-113 | a token with no `=` or with two or more records nothing |
| InfoString.RecognizedKeysArePlain | src/manimRenderer.ts:116-118 | the recognized keys hold neither `=` nor whitespace |
| InfoString.SplitPair | src/manimRenderer.ts:112 | `key=value` with no other `=` splits into exactly the key and the value |
| InfoString.EntryOfPair | src/manimRenderer.ts:114-118 | a whitespace-free recognized key and value are recorded unchanged |
| InfoString.WellFormedTokenRecorded | src/manimRenderer.ts:112-118 | `key=value` with a recognized key records exactly that pair, including an empty value |
| InfoString.TrimsAreNoOps | src/manimRenderer.ts:110-115 | every part of every token is already trimmed, so the two `trim()` calls change nothing |
| InfoString.PieceOfJoin | src/manimRenderer.ts:112 | each character of a piece occurs in the joined string |
| InfoString.Entries | src/manimRenderer.ts:111-119 | entry `j` is what token `j` records |
| InfoString.FoldByEntries | src/manimRenderer.ts:111-120 | folding the tokens equals folding what each token records |
| InfoString.LastEntryWins | src/manimRenderer.ts:111-120 | a key is present exactly when some entry sets it, and its value is that of the last entry setting it |
| InfoString.LastOccurrenceWins | src/manimRenderer.ts:111-120 | for a non-empty line, a key is recorded exactly when some token sets it, and the last such token gives its value |
| InfoString.NoWhitespaceSuffix | src/manimRenderer.ts:110-115 | a suffix of a whitespace-free string is whitespace-free |
| InfoString.FoldLastSetter | src/manimRenderer.ts:111-120 | the last token setting a key gives its value |
| InfoString.LineRecordsPair | src/manimRenderer.ts:106-122 | on a line of space-separated words, the last `key=value` word for a recognized key records exactly `value` |
| ManimRenderer.Or | src/manimRenderer.ts:32-34 | `value \|\| fallback` is the given value exactly when it is present and non-empty, and the fallback otherwise; never empty when the fallback is not |
| ManimRenderer.Configure | src/manimRenderer.ts:30-36 | every configured field is non-empty |
| ManimRenderer.ConfigureKeepsGivenValues | src/manimRenderer.ts:30-35 | each field is the given value when it is non-empty, and the built-in default when it is absent or empty |
| ManimRenderer.ConfigureWithoutOptions | src/manimRenderer.ts:30-35 | without options the defaults are `http://localhost:8000`, `mp4` and `low` |
| ManimRenderer.BuildPayload | src/manimRenderer.ts:41-46 | the code is sent unchanged; each of scene, format and quality is the parsed value when that is present and non-empty, and otherwise `"Scene"` or the configured default; with populated options none is empty |
| ManimRenderer.PayloadTakesOption | src/manimRenderer.ts:43-45 | a recorded non-empty option is the value of its payload field |
| ManimRenderer.InfoLineReachesPayload | src/manimRenderer.ts:40-46 | on a line of space-separated words, the last `scene=X`, `format=X` or `quality=X` with a non-empty `X` puts `X` into that payload field |
| ManimRenderer.StripTrailingSlash | src/manimRenderer.ts:54 | `replace(/\/$/, "")`: drops one trailing `/` (stated by `RequestUrlDropsOneSlash`) |
| ManimRenderer.RequestUrl | src/manimRenderer.ts:54 | the server URL without one trailing `/`, then `/render` (stated by `RequestUrlDropsOneSlash`) |
| ManimRenderer.PlanRequest | src/manimRenderer.ts:38-57 | the URL and payload of one render (stated by `RequestFieldsPopulated`, `RequestDefaults`, `InfoLineReachesPayload`) |
| ManimRenderer.RequestFieldsPopulated | src/manimRenderer.ts:41-46 | every payload a constructed renderer builds carries the code and a non-empty scene, format and quality |
| ManimRenderer.RequestDefaults | src/manimRenderer.ts:41-46 | a line that sets nothing gives `"Scene"` and the configured format and quality |
| ManimRenderer.EmptyOptionFallsBack | src/manimRenderer.ts:43 | an empty parsed scene falls back to `"Scene"` |
| ManimRenderer.RequestUrlDropsOneSlash | src/manimRenderer.ts:54 | exactly one trailing `/` is dropped before `/render` is appended, and a URL without one is kept |
| ManimRenderer.ExtToMimeMatchesTable | src/manimRenderer.ts:143-153 | the MIME type is the table's entry for the lower-cased extension, and `application/octet-stream` for an empty or unknown one |
| ManimRenderer.ExtToMimeIgnoresCase | src/manimRenderer.ts:143-153 | the MIME type does not depend on case |
| ManimRenderer.ExtToMime | src/manimRenderer.ts:143-153 | `extToMime`: the MIME type of an extension (stated against the table by `ExtToMimeMatchesTable`) |
| ManimRenderer.ExtOf | src/manimRenderer.ts:75 | `filename.split('.').pop().toLowerCase()` (stated by `ExtensionAfterLastDot`, and against the server's extension by `RenderProtocol.ExtensionsAgree`) |
| ManimRenderer.ExtensionAfterLastDot | src/manimRenderer.ts:75 | the extension is the lower-cased dot-free suffix after the last dot, or the whole lower-cased name without a dot |
| ManimRenderer.LastPieceAfterSeparator | src/manimRenderer.ts:75 | what comes before a separator does not change the last piece |
| ManimRenderer.ExtOfStemAndExtension | src/manimRenderer.ts:75 | `stem.ext` with a dot-free `ext` has extension `ext`, lower-cased |
| ManimRenderer.ExtOfAfterDot | src/manimRenderer.ts:75 | with a dot at `d` and none after it, the extension is the lower-cased text after `d` |
| ManimRenderer.ExtOfLowerExtension | src/manimRenderer.ts:75 | a lower-case dot-free extension is read back as it is |
| ManimRenderer.ElementMatchesMime | src/manimRenderer.ts:79-100 | for a non-empty extension, a video goes with a `video/` type, an image with an `image/` type, and a link with an octet stream |
| ManimRenderer.ElementFor | src/manimRenderer.ts:81-100 | the element chosen by the extension (stated by `ElementMatchesMime`, `ShowsVideo`, `ShowsImage`, `ShowsDownloadLink`) |
| ManimRenderer.NatToDecimal | src/manimRenderer.ts:62 | the status code prints as decimal digits with no leading zero |
| ManimRenderer.DigitValue | src/manimRenderer.ts:62 | each printed digit reads back as its value |
| ManimRenderer.NatToDecimalRoundTrip | src/manimRenderer.ts:62 | reading the printed status code gives the code back |
| ManimRenderer.Settle | src/manimRenderer.ts:60-103 | what the block shows once the response is in (stated by `ShownOnlyOnSuccess`, `NonOkMessage`, `UnsuccessfulMessage`, `SettleNamedFile`, `MissingDataClears`) |
| ManimRenderer.ShownOnlyOnSuccess | src/manimRenderer.ts:60-103 | media is shown exactly for an ok response whose body reports success, names a file and carries data; without data the status is removed and nothing is shown; a missing body or file name is a render error; every status text starts with "Render failed: " |
| ManimRenderer.NonOkMessage | src/manimRenderer.ts:60-65 | a non-ok response shows "Render failed: " and the error, or "Server returned <status>" when there is none |
| ManimRenderer.UnsuccessfulMessage | src/manimRenderer.ts:67-71 | `success: false` shows "Render failed: " and the error, or "unknown" |
| ManimRenderer.SettleNamedFile | src/manimRenderer.ts:73-100 | a file with an extension and data is shown with the element and MIME type of that extension |
| ManimRenderer.MissingDataClears | src/manimRenderer.ts:74-79 | a success without `data` removes the status and shows nothing: `atob` throws after `status.remove()`, and the catch writes into the detached node |
| ManimRenderer.ShowsVideo | src/manimRenderer.ts:82-87 | `.mp4` and `.webm` files play as video with their MIME type |
| ManimRenderer.ShowsImage | src/manimRenderer.ts:88-92 | `.gif`, `.png` and `.svg` files show as images with their MIME type |
| ManimRenderer.ShowsDownloadLink | src/manimRenderer.ts:93-99 | any other extension gives a link labelled "Download " and the file name, over an octet stream |
| ManimRenderer.ExampleVideo | src/manimRenderer.ts:82-87 | `scene.mp4` shows as a `video/mp4` video |
| ManimRenderer.ExampleImage | src/manimRenderer.ts:88-92 | `scene.png` shows as an `image/png` image |
| ManimRenderer.ExampleDownloadLink | src/manimRenderer.ts:93-99 | `scene.xyz` gives the link "Download scene.xyz" |
| ManimRenderer.ExampleServerError | src/manimRenderer.ts:60-63 | a 500 with error "boom" shows "Render failed: boom" |
| ManimRenderer.ExampleUnknownFailure | src/manimRenderer.ts:68-69 | `success: false` without an error shows "Render failed: unknown" |
| Blob.Uint8ArrayOf | src/manimRenderer.ts:136 | `new Uint8Array` keeps the length and stores each number modulo 256 |
| Blob.CharCodes | src/manimRenderer.ts:131-136 | a string gives as many bytes as it has characters |
| Blob.CharCodesAt | src/manimRenderer.ts:133 | byte `i` is the char code at `i`, modulo 256 |
| Blob.CharCodesAppend | src/manimRenderer.ts:128-138 | the bytes of two strings joined are the bytes of each, joined |
| Blob.CodesOfAt | src/manimRenderer.ts:136-137 | part `k` holds the bytes of slice `k` |
| Blob.ChunksConcat | src/manimRenderer.ts:128-129 | the slices, concatenated in order, give the decoded string back |
| Blob.ChunkLengths | src/manimRenderer.ts:128-129 | every slice is non-empty and at most `sliceSize` long, and all but the last are exactly `sliceSize` long |
| Blob.ChunkCount | src/manimRenderer.ts:128 | there are ceil(n / sliceSize) slices, none for the empty string |
| Blob.ChunkAt | src/manimRenderer.ts:129 | character `i` of slice `k` is character `k * sliceSize + i` of the string |
| Blob.FlattenCodes | src/manimRenderer.ts:140 | the parts' bytes, in order, are the bytes of the concatenated slices |
| Blob.ChunksFrom | src/manimRenderer.ts:128-129 | the slice taken at `offset` is followed by the slices of the rest |
| Blob.SliceToBytes | src/manimRenderer.ts:131-136 | the inner loop fills the number array by index, and the `Uint8Array` holds the slice's char codes |
| Blob.CodesFrom | src/manimRenderer.ts:128-137 | the parts from `offset` on are the next slice's bytes, then those of the rest |
| Blob.Base64ToBlob | src/manimRenderer.ts:124-141 | for the binary string `atob` gives, the blob keeps the content type and its parts are the slices' bytes; together they are the string's bytes in order, each equal to its character's code, there are ceil(n / sliceSize) of them, and all but the last have exactly `sliceSize` bytes |
| Blob.BinaryStringBytes | src/manimRenderer.ts:133-136 | on a binary string the `Uint8Array` modulo changes nothing: each byte is its character's code |
| Blob.Chunks | src/manimRenderer.ts:128-129 | the slices the outer loop takes (stated by `ChunksConcat`, `ChunkLengths`, `ChunkCount`, `ChunkAt`) |
| Blob.CodesOf | src/manimRenderer.ts:131-137 | the byte arrays of the slices, one per slice (stated by `CodesOfAt`, `FlattenCodes`) |
| Blob.BlobParts | src/manimRenderer.ts:124-141 | the parts cut from a string hold its bytes in order and have the stated count and lengths |
| Blob.PartByteAt | src/manimRenderer.ts:129-133 | byte `i` of part `k` is the char code at position `k * sliceSize + i` |
| PosixPath.JoinPath | manim-server.py:44 | `os.path.join(root, f)` for a relative `f` (stated by `JoinPathLength`, `BasenameOfJoin`) |
| PosixPath.Basename | manim-server.py:117 | `os.path.basename` (stated by `BasenameOfJoin`) |
| PosixPath.JoinPathLength | manim-server.py:44 | joining never shortens the file name |
| PosixPath.BasenameOfJoin | manim-server.py:117 | the basename of `join(root, f)` is `f` for a name without `/` |
| PosixPath.LStrip | manim-server.py:45 | `lstrip` keeps a suffix that does not start with the stripped character, and everything it drops is that character |
| PosixPath.LStripEmpty | manim-server.py:45 | `lstrip` leaves nothing exactly when every character is the one stripped |
| PosixPath.ExtDot | manim-server.py:45 | when `splitext` splits, it does so at the last dot |
| PosixPath.SplitextAtLastDot | manim-server.py:45 | in a name without `/`, `splitext` splits at the last dot exactly when a character other than a dot comes before it |
| PosixPath.StemDotExt | manim-server.py:45 | the shape of `stem.ext`: its last dot is right after a stem that is not all dots |
| PosixPath.SplitextOfStem | manim-server.py:45 | `splitext("stem.ext")` splits off `.ext` |
| PosixPath.StripDotOfLowered | manim-server.py:45 | lower-casing `.tail` and stripping the dot leaves `tail` lower-cased |
| PosixPath.SplitextExt | manim-server.py:45 | `os.path.splitext(f)[1]` (stated by `SplitextAtLastDot`, `SplitextStartsAtLastDot`, `SplitextOfStem`) |
| PosixPath.FileExt | manim-server.py:45 | `splitext(f)[1].lower().lstrip('.')` (stated by `FileExtAfterLastDot`, `FileExtOfStem`, `FileExtOfDotName`) |
| PosixPath.SplitextStartsAtLastDot | manim-server.py:45 | a non-empty `splitext` extension is the dot and what follows the last dot |
| PosixPath.FileExtAfterLastDot | manim-server.py:45 | a non-empty extension is the lower-cased text after the last dot |
| PosixPath.FileExtOfStem | manim-server.py:45 | `stem.ext` has extension `ext`, lower-cased, when the stem is not all dots |
| PosixPath.FileExtOfDotName | manim-server.py:45 | `.mp4`, `..mp4` and the like have no extension |
| ManimServer.AllExtensionsIsUnion | manim-server.py:77-82 | the four extensions are exactly the union of the format map's sets |
| ManimServer.QualityFlag | manim-server.py:68-74 | the quality flag (stated by `QualityFlagChoice`) |
| ManimServer.QualityFlagChoice | manim-server.py:68-74 | the flag is `-ql`, `-qm` or `-qh`; `-qm` exactly for `"medium"`, `-qh` exactly for `"high"`, `-ql` for anything else |
| ManimServer.ValidateRequest | manim-server.py:55-84 | `render` up to running manim (stated by `ValidationOrder`, `FormatDecides`, `AbsentFormatIsMp4`, `NonStringFormatAborts`) |
| ManimServer.ValidationOrder | manim-server.py:56-84 | "invalid json" exactly for a falsy payload; "missing 'code' or 'scene'" exactly for a non-empty object whose format is a string or absent and whose code or scene is falsy; any later rejection has both; an accepted request has code, scene, a known format and a known flag |
| ManimServer.FormatDecides | manim-server.py:62-84 | once code and scene are present, the lower-cased format, given or `"mp4"` when absent, decides: mp4, gif, png and svg are accepted in any case, and anything else gets "unsupported format: " and its lower-cased name |
| ManimServer.AbsentFormatIsMp4 | manim-server.py:62 | a request without a format, with code and scene, is accepted as mp4 |
| ManimServer.WebmRejected | manim-server.py:83-84 | `webm` is rejected with 400 |
| ManimServer.NonStringFormatAborts | manim-server.py:62 | a non-string format fails with 500 before code and scene are checked |
| ManimServer.DirCandidates | manim-server.py:42-47 | the candidates of one directory (stated by `DirCandidatesAre`, `DirCandidatesStep`) |
| ManimServer.WalkCandidates | manim-server.py:41-47 | the candidates of the whole walk (stated by `WalkCandidatesAre`, `CandidateOrigin`, `SelectedFileIsCandidate`; `CollectCandidates` is proved equal to it) |
| ManimServer.DirCandidatesStep | manim-server.py:42-47 | one more file of a directory appends at most that file's candidate |
| ManimServer.WalkCandidatesStep | manim-server.py:41-47 | one more directory appends its candidates |
| ManimServer.WantedFile | manim-server.py:43-47 | a file is kept exactly when its name contains the scene and its extension is in the whitelist |
| ManimServer.BeforeTransitive | manim-server.py:51 | the `(mtime, path)` order is transitive |
| ManimServer.BeforeTotal | manim-server.py:51 | any two candidates are comparable in the `(mtime, path)` order |
| ManimServer.DirCandidatesAre | manim-server.py:42-47 | a directory's candidates are exactly its selected files, with joined path and mtime |
| ManimServer.WalkCandidatesAre | manim-server.py:41-47 | the walk's candidates are exactly those of its directories |
| ManimServer.CandidateOrigin | manim-server.py:41-47 | every candidate is a selected walked file found under its directory's root |
| ManimServer.SelectedFileIsCandidate | manim-server.py:41-47 | every selected walked file is a candidate |
| ManimServer.CandidatesGrow | manim-server.py:107-110 | widening the whitelist keeps every candidate |
| ManimServer.CollectFile | manim-server.py:43-47 | the inner loop body appends the file exactly when it passes both filters |
| ManimServer.CollectCandidates | manim-server.py:40-47 | the nested loops collect exactly the selected files, in walk order |
| ManimServer.Newest | manim-server.py:50-52 | `sort(reverse=True)[0]` is a candidate no other candidate comes after in `(mtime, path)` order |
| ManimServer.FindLatestRender | manim-server.py:34-52 | `None` without a media directory or without candidates; otherwise the path of a newest candidate |
| ManimServer.ReturnedCandidate | manim-server.py:41-47 | a candidate's path is non-empty for a non-empty scene; in a well-formed walk its basename names a file that contains the scene and has a whitelisted extension |
| ManimServer.CandidateNamed | manim-server.py:117 | a walked file is the basename of its joined path |
| ManimServer.Respond | manim-server.py:95-118 | a non-zero exit is "manim failed"; no candidate under either whitelist is "rendered file not found"; a match for the format wins over the fallback, and without one the newest match for any of the four extensions is returned; a success names a candidate for the four extensions, by its basename, containing the scene |
| RenderProtocol.PayloadValidated | manim-server.py:56-84 | a payload with a scene is judged on its code and lower-cased format alone, and its quality becomes the flag |
| RenderProtocol.ClientRequestValidated | src/manimRenderer.ts:41-57 | every request the renderer sends is "missing" exactly when the code block is empty, else accepted or rejected by its lower-cased format |
| RenderProtocol.DefaultRequestAccepted | src/manimRenderer.ts:30-46 | a default renderer with a line that sets nothing gets an mp4 render of `Scene` at `-ql` |
| RenderProtocol.WebmRequestRejected | src/manimRenderer.ts:44 | a block asking for `webm` is turned away by the server |
| RenderProtocol.StoppedRequestReported | src/manimRenderer.ts:60-65 | a request the server stops ends as "Render failed: " and the server's error, or the status for Flask's own error page |
| RenderProtocol.FailedRenderReported | src/manimRenderer.ts:60-65 | a failed render shows the server's error text |
| RenderProtocol.ExtensionsAgree | src/manimRenderer.ts:75 | the renderer's extension equals the server's for every name the server can find |
| RenderProtocol.KnownExtensionDisplayed | src/manimRenderer.ts:79-92 | a name with any of the server's extensions is shown as a video (mp4) or an image, with its MIME type |
| RenderProtocol.RenderedFileDisplayed | src/manimRenderer.ts:73-92 | any file the server returns is displayed, with the matching element and MIME type |

## Left out

- `fetch`, `resp.json()`, the DOM (the status node, `<video>`, `<img>`, `<a>`) and `URL.createObjectURL`: the response is an input value (`HttpResponse`), and what is shown is an `Outcome` value.
- A fetch that throws, or a reply body that is not JSON on an ok response: both become `RenderError`. The exception text is not modelled.
- `atob`, the `Blob` constructor and `base64.b64encode`: the decoded binary string is the input of `Base64ToBlob`, and a blob is its list of parts and its type. The reply's `data` field is carried as an opaque string.
- `ManimRenderer.Settle`: a `data` string that `atob` rejects is not told apart from a valid one. In the source it ends like a missing `data` (`Cleared`): the status node is already removed when `atob` throws, and the catch writes into the detached node.
- `Blob.Base64ToBlob` requires a binary string (every character below 256), which is what `atob` returns. `charCodeAt` reads UTF-16 code units, and a Dafny `char` is a Unicode scalar value; the two agree only below 256.
- `Blob.Base64ToBlob` takes the slice size as a parameter. The renderer always uses the default 512 (`Blob.SliceSize`).
- The subprocess that runs manim, `tempfile`, the file writes and reads, `shutil.rmtree` and `time.sleep`. The exit code is a parameter of `ManimServer.Respond`.
- `os.walk` and `os.path.getmtime`: the walk is an input list of directories with their files and modification times; `os.path.exists` is whether that list is present.
- Flask routing, `argparse`, `app.run`, and the `stdout`/`stderr` fields of failure replies.
- The `except Exception` path of `render` and its `str(e)` text.
- A non-string `code` or `scene` that makes manim or the file write raise.
- src/main.ts (plugin registration), and concurrent renders.
- `ManimServer.Json`: JSON numbers are integers; floating point is not modelled.
- `ManimServer.FileEntry`: modification times are reals, not floats.
- `Text.Lower`: lower-cases ASCII letters only. JavaScript's `toLowerCase` and Python's `lower` also map non-ASCII letters.
- `ManimServer.Newest`: states the element `sort(reverse=True)` puts first (a greatest `(mtime, path)`), not the order of the rest of the sorted list, which is never read.
- `ManimServer.Respond`: the filename and extension facts of a success are stated for a well-formed walk, whose file names are non-empty and hold no `/` (as `os.walk` guarantees).
