# RoboGuide exhibit lookup and upload intake, modelled in Dafny

RoboGuide is a small Flask app (`app.py`). This project models the three
pieces of it that hold logic:

- **`allowed_file`**: the upload extension check. A file name is allowed when
  it contains a `.` and the text after its *last* `.` (Python's
  `rsplit('.', 1)[1]`), lowercased, is one of `mp4`, `mov`, `avi`, `mkv`.
  This lives in module `UploadIntake`, with concrete names in `UploadExamples`, and uses the string operations of
  module `Text`.
- **`ask`**: the exhibit lookup. It walks the fixed four-entry table
  `exhibit_info` in declaration order. It answers with the description of the
  first exhibit whose lowercased name occurs in the lowercased query. When no
  name occurs, it answers with `"I don't have information on that exhibit."`.
  This lives in module `ExhibitLookup`: `FirstMatch` is the first-match rule as
  a recursive function, and `AskIn`/`Ask` is the source's loop with its early
  return, proved equal to it. `ExhibitExamples` holds concrete queries.
- **`upload_file` / `uploaded_file`**: validate-then-store. The upload folder
  is a class `UploadFolder` whose field `files` maps a file name to the stored
  bytes. A refused name leaves the folder as it was. An accepted name creates
  or overwrites exactly the entry under the literal client-supplied name.
  `UploadedFile` reads an entry back, or reports it missing. The pure functions
  `AfterUpload` and `Retrieve` state the same effects, and the lemmas beside
  them relate several calls: round trip, overwrite, other names untouched, and
  only allowed names ever stored.

Strings are `seq<char>`. Lowercasing is ASCII only (`Text.Lower`). File
contents are `seq<byte>`. The Python `in` test on two strings is
`Text.Contains`: some index `i` at which `text[i..i+|pattern|] == pattern`.

Two consequences of the code worth stating:

- A query that names several exhibits gets the description of the one
  declared first, not every description it names (`LookupIff`,
  `FirstDeclaredWins`).
- Only files the app itself wrote are known to carry an allowed extension
  (`UploadFolder.Valid`); files put into `uploads/` by other means would be
  served too.

## Model

| member | source | states |
|---|---|---|
| `Text.LowerChar` | app.py:18 | the result is never an ASCII capital; a non-capital is kept; a capital moves to its lower-case letter |
| `Text.Lower` | app.py:123 | `str.lower()` restricted to ASCII: the length is kept and each character is lowered by `LowerChar` at its own position |
| `Text.LowerAppend` | app.py:123 | lowering a concatenation is the concatenation of the lowered parts |
| `Text.LowerIdempotent` | app.py:123 | lowering twice is the same as lowering once |
| `Text.LowerKeepsNonLetter` | app.py:18 | lowering neither adds nor removes a non-letter such as `.` |
| `Text.ContainsInfix` | app.py:123 | the `in` test finds a pattern wherever it sits in the text |
| `Text.Contains` | app.py:123 | `pattern in text`: a pattern longer than the text never occurs; the empty pattern occurs in every text |
| `Text.LastDotBelow` | app.py:18 | among the first `n` characters: none exactly when none is a `.`; otherwise the index of a `.` with no `.` after it below `n` |
| `Text.LastDot` | app.py:18 | none exactly when the name has no `.`; otherwise the index of a `.` with no `.` after it |
| `Text.LastDotOfSplit` | app.py:18 | in `before + "." + after` with a dot-free `after`, the last dot is the middle one |
| `Text.RSplitDot` | app.py:18 | `rsplit('.', 1)` gives `[s]` without a dot; otherwise two parts that rejoin with `.` to `s`, the second dot-free |
| `Text.RSplitDotUnique` | app.py:18 | the split of `before + "." + after` with dot-free `after` is exactly `[before, after]` (the last dot, not the first) |
| `Text.RSplitDotLower` | app.py:18 | splitting the lowered name gives the lowered parts of the split |
| `UploadIntake.AllowedFile` | app.py:17-18 | `allowed_file`: an allowed name is at least four characters long, has a `.` fourth from the end, and its last three characters lowered are an allowed extension |
| `UploadIntake.NoDotRejected` | app.py:18 | a name without `.`, the empty name included, is refused |
| `UploadIntake.AllowedFileBySuffix` | app.py:17-18 | `before + "." + after` with dot-free `after` is allowed exactly when lowered `after` is in the allow-list, whatever `before` is |
| `UploadIntake.AllowedFileOfLower` | app.py:17-18 | lowering the whole name never changes the verdict |
| `UploadIntake.AllowedFileIgnoresCase` | app.py:6-18 | two names equal up to ASCII case get the same verdict (`clip.MP4` and `clip.mp4`) |
| `UploadExamples.DotOnlyNameAllowed` | app.py:18 | `.mp4` and `.mkv` are allowed: the text before the last dot may be empty |
| `UploadExamples.LastDotDecidesAllowed` | app.py:18 | `a.tar.MP4` is allowed |
| `UploadExamples.LastDotDecidesRefused` | app.py:18 | `a.mp4.txt` is refused |
| `UploadExamples.BadExtensionsRefused` | app.py:18 | `video.` (empty extension) and `clip.txt` are refused |
| `UploadExamples.DotlessNamesRefused` | app.py:18 | `noext` and the empty name are refused |
| `UploadExamples.UpperCaseExtensionAllowed` | app.py:18 | `clip.MP4` is allowed |
| `UploadExamples.BothCasesSameAnswer` | app.py:6-18 | `clip.mp4` and `clip.MP4` get the same answer |
| `UploadIntake.Accepts` | app.py:134 | the refusal test of `upload_file` (`filename == ''` or not allowed) accepts exactly what `allowed_file` accepts |
| `UploadIntake.AfterUpload` | app.py:134-139 | a refused name leaves the folder unchanged; an accepted one adds or replaces exactly its own entry with the content, all other entries kept |
| `UploadIntake.Retrieve` | app.py:145-147 | the stored bytes when the name is in the folder, not found otherwise |
| `UploadIntake.AfterUploadOnlyAllowed` | app.py:134-139 | uploads keep every stored name an allowed one |
| `UploadIntake.RetrieveAfterUpload` | app.py:134-147 | an accepted upload reads back byte for byte |
| `UploadIntake.RetrieveAfterRefusedUpload` | app.py:134-135 | after a refused upload every name reads back as before |
| `UploadIntake.RetrieveOtherAfterUpload` | app.py:138-139 | an upload changes what no other name reads back |
| `UploadIntake.UploadOverwrites` | app.py:138-139 | uploading the same name twice leaves only the second content |
| `UploadIntake.UploadFolder.constructor` | app.py:150 | the folder starts empty and valid |
| `UploadIntake.UploadFolder.UploadFile` | app.py:134-139 | answers uploaded exactly when the name is accepted, leaves the folder as `AfterUpload` of the old one, keeps only allowed names stored |
| `UploadIntake.UploadFolder.UploadedFile` | app.py:145-147 | returns what `Retrieve` gives for the current folder |
| `UploadIntake.UploadAndPlay` | app.py:128-147 | a client that uploads an allowed name reads the same bytes back, finds a refused name missing, and after re-uploading the same name reads the new bytes |
| `ExhibitLookup.FirstMatch` | app.py:122-124 | a found index matches and no earlier exhibit matches; none found means no exhibit matches |
| `ExhibitLookup.FirstMatchIff` | app.py:122-124 | the found index is `k` exactly when exhibit `k` matches and no earlier one does |
| `ExhibitLookup.LookupIn` | app.py:122-126 | the answer over a table is either the sentinel or the description of one of its exhibits |
| `ExhibitLookup.Lookup` | app.py:122-126 | the answer of `ask` is either the sentinel or one of the four table descriptions |
| `ExhibitLookup.AskIn` | app.py:122-126 | the loop with its early return answers as the first-match rule over the table |
| `ExhibitLookup.Ask` | app.py:117-126 | `ask` on the app's table answers as the first-match rule |
| `ExhibitLookup.AnswersDistinct` | app.py:9-14 | the four descriptions differ from each other and from the sentinel |
| `ExhibitLookup.LookupIff` | app.py:9-14 | the answer is exhibit `k`'s description exactly when `k`'s lowered name occurs in the lowered query and no earlier exhibit's does |
| `ExhibitLookup.LookupNoMatchIff` | app.py:122-126 | the answer is the sentinel exactly when no lowered name occurs in the lowered query |
| `ExhibitLookup.LookupIgnoresCase` | app.py:123 | asking with the lowered query gives the same answer |
| `ExhibitLookup.LookupSameUpToCase` | app.py:123 | two queries equal up to ASCII case get the same answer |
| `ExhibitLookup.LowerKeepsContains` | app.py:123 | a text the query holds is still held, lowered, by the lowered query |
| `ExhibitLookup.MentionedFirstExhibit` | app.py:10 | any query that holds `Mona Lisa` verbatim, anywhere, gets the Mona Lisa description |
| `ExhibitLookup.ShortQueryUnknown` | app.py:122-126 | a query shorter than every exhibit name gets the sentinel |
| `ExhibitExamples.AskAboutMonaLisa` | app.py:122-124 | `Tell me about the Mona Lisa` gets the Mona Lisa description |
| `ExhibitExamples.FirstDeclaredWins` | app.py:122-124 | in `The Thinker and Mona Lisa` both `the thinker` and `mona lisa` occur, and the answer is the Mona Lisa description, the exhibit declared first |
| `ExhibitExamples.AskByName` | app.py:122-124 | `Mona Lisa` gets its description |
| `ExhibitExamples.AskInCapitals` | app.py:123 | `MONA LISA` gets the Mona Lisa description |
| `ExhibitExamples.AskUnknown` | app.py:126 | `xyz` gets the sentinel |

## Left out

- Flask routing, the HTML page and its script, `render_template_string`, `redirect`, `url_for` and `jsonify`: framework and UI glue. The JSON reply texts are not modelled. `UploadResult.Uploaded` carries the literal file name in place of the URL that `url_for` would build.
- Reading `request.json['input']`, and the `KeyError` when the field is missing: HTTP layer. Likewise the redirect when the form has no `video` field.
- A missing file name on the uploaded part (`filename` being `None`): HTTP layer. The model takes the name as a string.
- Real file-system I/O: `file.save`, `send_from_directory`, `os.makedirs` and `app.run`. The folder is an abstract map, created empty. Files already on disk are not modelled.
- How names map to paths: path traversal through `os.path.join`, and names containing `/`. A name such as `sub/clip.mp4` passes `allowed_file` and is saved when that directory exists, but the `/uploads/<filename>` route does not match a `/`, so it cannot be fetched back; `RetrieveAfterUpload` treats every name as a plain map key and so says it reads back.
- Python's full Unicode `str.lower()`: lowercasing is ASCII only. Non-ASCII case changes, including those that change a string's length, are not modelled.
- Concurrent uploads racing on one name: concurrency. Each upload here is one atomic map update.

