# Gerador de Documentos: a verified model of the templating step

Gerador de Documentos is a Streamlit app. It takes a spreadsheet and a
`.docx` template, and for each spreadsheet row it writes one personalised
document, then offers all of them in one zip archive. This project models
the core of that app, the function `gerar_docs` in `main.py`, together with
the session-state updates around it (`validate`, the markers set by `main`).
The model is in Dafny and its properties are proved.

- `Text` (text.dfy): Python's `p in s` (`Contains`) and `s.replace(p, v)`
  (`Replace`) on strings. `Replace` is tied to an independent
  characterisation: `s.replace(p, v) == v.join(s.split(p))`, where the split
  is proved to be the unique cut of `s` at the leftmost non-overlapping
  occurrences of `p`.
- `Placeholder` (placeholder.dfy): the token `{{{column}}}`. One column's
  guarded replace (`SubstituteColumn`). The loop over the columns in column
  order (`Substitute`, and the method `SubstituteText` that reassigns the
  text as the source does).
- `RunText` (runtext.dfy): a run's text as literal pieces and placeholders.
  For brace-free pieces, names and values, the whole column loop is proved to
  give every placeholder of a column that column's value at once, however
  many placeholders the run holds and however often one repeats
  (`SubstituteFillsPlaceholders`).
- `Docx` (docx.dfy): the document as a datatype. Body paragraphs have an
  alignment and runs; each run has its text plus bold, italic, underline,
  font size and font name. A `DocumentBuilder` class models `Document()`,
  `add_paragraph` and `add_run`. The method `RenderRow` runs the paragraph
  and run loops for one row.
- `Batch` (batch.dfy): the table (column names plus rows of cell texts); the
  file name `FileName`; the temporary directory as a `TempDir` class holding a
  name-to-document map; the spec function `Directory` for that map after the
  first `n` rows; and the zip loop `BuildArchive`.
- `App` (session.dfy): the `Session` class for the session-state keys
  `cont`, `success`, `hide_button`, `sheet_path` and `model_path`, each of
  which may be absent. It has the methods `Initialize` (start of `main`),
  `Clear` (restart button), `Validate` and `GenerateDocuments`.

Behaviour worth knowing, all proved:

- A run written as brace-free literals and placeholders, say
  `Prezado {{{nome}}}, CPF {{{cpf}}}; {{{nome}}}`, comes out of the whole
  loop with each placeholder of a column replaced by the value of the first
  column of that name and everything else as written. This needs brace-free
  column names and values, and covers several placeholders and repeated ones
  (`SubstituteFillsPlaceholders`, `TwoPlaceholders`).
- A known column's token, with brace-free text around it, comes out of the
  whole loop as that column's value (`KnownTokenThroughLoop`). This needs
  brace-free column names and value, and no other column of the same name.
  It fails when the text around the token holds braces. The run
  `{{{{{{ab}}}b}}}` with `ab` = `a` becomes `{{{ab}}}`, the column's own
  token again, though no name or value contains a brace
  (`TokenRecreatedByReplace`). So "no token is left after substitution"
  does not hold in general.
- A token whose name is not a column stays in the output verbatim. The text
  on each side of it is substituted as if it stood alone. This holds when
  the column names and the token's name contain no braces. If a column name
  contains braces, its token can overlap a different token. A column named
  `a}}}{{{b` consumes the `{{{b}}}` in `{{{a}}}{{{b}}}`, though `b` names no
  column (`BracedColumnSwallowsToken`).
- Substitution can create tokens. A value that is a later column's token is
  replaced again (`SubstitutionCascades`). Text with no `{{{` in it is never
  changed.
- Two rows whose first-column values differ only by `/` versus `_` get the
  same file name (`FileNamesCollide`). The later row's document overwrites
  the earlier one. The counter still counts both rows, so the archive can
  hold fewer entries than the number of documents the success message
  reports (`ArchiveSize`, `GenerateDocuments`).

The model follows the code as written. The code processes body paragraphs only. Each new
paragraph comes from `add_paragraph()` with the default style; only its
alignment is copied. So the template paragraph's style (a heading, a list
item) and its other paragraph properties are not carried over. Of each run
only bold, italic, underline, font size and font name are copied, not its
character style. The code does not
process tables, force heading text to black, copy colours or highlights,
draw cell borders, or apply the file-name prefix (`docs_name` is stored and
never read). A second batch in one session regenerates everything; nothing
is cached. It also does not reset the counter, so `cont` keeps adding up.
The code's only guard against a repeat is `hide_button`, which disables the
generate button.

## Model

| member | source | states |
|---|---|---|
| `Text.Contains` | main.py:101 | `p in s` is true exactly when `p` occurs in `s` at some index |
| `Text.ReplaceIsJoinOfSplit` | main.py:102 | `s.replace(p, v)` equals the pieces of `s.split(p)` joined with `v` |
| `Text.SplitIsLeftmost` | main.py:102 | the split pieces join back to `s` with `p`; the scan finds no occurrence before the end of any piece but the last; the last piece holds no occurrence |
| `Text.LeftmostSplitIsSplit` | main.py:102 | any decomposition with those properties is the split, so the replace acts on exactly the leftmost non-overlapping occurrences |
| `Text.ReplaceAbsent` | main.py:101-102 | replacing a pattern that does not occur returns the text unchanged |
| `Text.ReplaceConcat` | main.py:102 | replacing distributes over a concatenation when no occurrence straddles the seam |
| `Text.ReplaceChar` | main.py:115 | a one-character replace keeps the length and rewrites exactly the positions holding that character |
| `Placeholder.SubstituteText` | main.py:97-102 | the per-run loop yields each column's token substituted in column order, every column over the text produced so far |
| `Placeholder.SubstituteColumnIsReplace` | main.py:100-102 | the `in` guard never changes the outcome: one column's pass equals an unguarded replace |
| `Placeholder.SubstituteColumnReplacesEveryOccurrence` | main.py:100-102 | one column's pass puts the row's value in place of every token occurrence the left-to-right scan finds, and changes nothing else |
| `Placeholder.SubstituteWithoutTokens` | main.py:99-102 | text containing no column's token comes out unchanged |
| `Placeholder.TokenOccursOpen` | main.py:100 | a text containing any token contains `{{{` |
| `Placeholder.SubstituteWithoutOpenDelimiter` | main.py:99-102 | text containing no `{{{` comes out unchanged for any columns and row |
| `Placeholder.TokenIsolated` | main.py:100 | with brace-free names, one token cannot occur overlapping an occurrence of a different token |
| `Placeholder.TokenNotInOther` | main.py:100 | with brace-free names, a token does not occur inside a different token |
| `Placeholder.ReplaceAroundToken` | main.py:102 | with brace-free names, replacing one column's token keeps a different token in place; the text on each side is replaced independently |
| `Placeholder.SubstituteAroundUnknownToken` | main.py:99-102 | with brace-free names, a token naming no column passes through the whole loop verbatim; the text on each side is substituted as if alone |
| `Placeholder.UnknownTokenSurvives` | main.py:99-102 | with brace-free names, if the text contains a token naming no column, so does the result |
| `Placeholder.BraceFreeHasNoToken` | main.py:100-101 | text with no brace in it contains no token |
| `Placeholder.ReplaceSoleToken` | main.py:102 | one token between brace-free text is replaced by the value and the surrounding text is kept |
| `Placeholder.KnownTokenThroughLoop` | main.py:99-102 | with brace-free column names, value and surrounding text, and no other column of the same name, one occurrence of a column's token comes out of the whole loop as that column's value, the text around it kept |
| `Placeholder.TokenRecreatedByReplace` | main.py:99-102 | without brace-free surrounding text the loop can leave a column's token in the result: `{{{{{{ab}}}b}}}` with `ab` = `a` becomes `{{{ab}}}` |
| `Placeholder.BracedColumnSwallowsToken` | main.py:99-102 | a column name with braces (`a}}}{{{b`) makes a token that spans the unknown token `{{{b}}}`, which is then gone from the result |
| `RunText.ValueOf` | main.py:99-102 | the value a name gets is that of the first column of that name; there is none exactly when no column has the name |
| `RunText.StepIsReplace` | main.py:100-102 | on a run of brace-free literals and placeholders, one column's pass replaces exactly that column's placeholders by the value, piece by piece |
| `RunText.SubstituteFillsPlaceholders` | main.py:99-102 | with brace-free column names and values, the whole loop turns a run of brace-free literals and placeholders into the run with each placeholder of a column replaced by the first such column's value, all else as written, for any number of placeholders, repeated ones included |
| `RunText.TwoPlaceholders` | main.py:99-102 | a run `x{{{a}}}y{{{b}}}z{{{a}}}` with brace-free parts and values becomes `x` + value of `a` + `y` + value of `b` + `z` + value of `a` |
| `Placeholder.GreetingExample` | main.py:99-102 | the run `Olá, {{{nome}}}!` with `nome` = `Ana` becomes `Olá, Ana!` |
| `Placeholder.SubstitutionCascades` | main.py:99-102 | a value inserted for an earlier column that is a later column's token is itself replaced |
| `Docx.RenderIsCopy` | main.py:90-112 | the rendered document has the template's paragraph count and order, alignments, run counts and run formats; each run's text is the substituted source text |
| `Docx.CopyIsUnique` | main.py:90-112 | those properties determine the generated document completely |
| `Docx.RenderWithoutPlaceholders` | main.py:90-112 | when no run holds `{{{`, the modelled body (paragraph alignments, runs, their text and five attributes) comes out unchanged |
| `Docx.DocumentBuilder.constructor` | main.py:64 | a new document has an empty body |
| `Docx.DocumentBuilder.AddParagraph` | main.py:92-93 | appends one empty paragraph with the given alignment and returns its position |
| `Docx.DocumentBuilder.AddRun` | main.py:105-112 | appends one run with the given text and formatting to that paragraph; every other paragraph is unchanged |
| `Docx.RenderRow` | main.py:90-112 | the nested paragraph and run loops build exactly the copy of the template for the row |
| `Batch.FileName` | main.py:115 | the name is the value with every `/` turned into `_` and every other character kept, followed by `.docx`; it has the value's length plus 5 and contains no `/` |
| `Batch.FileNamesCollide` | main.py:115 | different first-column values (`A/B`, `A_B`) give the same file name, `A_B.docx` |
| `Batch.DirectoryNames` | main.py:115-116 | after the first `n` rows the directory holds exactly those rows' file names |
| `Batch.DirectoryLastRowWins` | main.py:115-116 | a name holds the document of the last row saved under it |
| `Batch.DirectorySize` | main.py:115-116 | the directory has at most one file per row, and exactly one per row iff the rows' file names are pairwise different |
| `Batch.TempDir.constructor` | main.py:52 | a new temporary directory is empty |
| `Batch.TempDir.Save` | main.py:116 | saving puts the document under the name and overwrites any earlier file of that name |
| `Batch.BuildArchive` | main.py:120-123 | the zip has one entry per file in the directory, under that file's name, holding its content, with no name twice, in any order |
| `Batch.ArchiveSize` | main.py:115-123 | the archive has one entry per distinct file name: at most one per row, and one per row iff no two rows share a file name |
| `App.Session.Initialize` | main.py:159-168 | `cont`, `success` and `hide_button` are set to 0, empty and false only when absent, so a counter already present keeps its value; the uploads are untouched |
| `App.Session.Clear` | main.py:23 | the restart button removes every key |
| `App.Session.GenerateDocuments` | main.py:50-132 | the counter grows by exactly the number of rows; `success` becomes "OK" and `hide_button` true; the archive is the one built from the directory after all rows |
| `App.Session.Validate` | main.py:30-47 | with both the table and the template present the batch runs as above; otherwise `success` becomes "FALTA", nothing else changes and no archive is produced |

## Left out

- The Streamlit interface: widgets, uploaders, select boxes, the dialog,
  balloons, messages, the download button and page layout
  (main.py:130-146, 170-261). This is interface code with no logic of its own.
- Spreadsheet parsing (`pd.read_excel`) and template parsing (`Document(path)`):
  the session holds the table and the template already parsed. A file that
  fails to parse raises an error before any state changes; that path is not
  modelled.
- The conversion `str(row[col])` of numbers, blanks and dates: every cell is
  a string here. For the file name the source calls `.replace` on the raw
  first-column value, which fails when that value is not a string; the model
  does not capture this failure.
- Column labels that are not strings: the model types column names as
  strings. The spreadsheet reader can produce a numeric or date header
  label. Then `"{{{" + coluna + "}}}"` (main.py:100) raises a TypeError, and
  it does so after `cont` has already been incremented for the first row
  (main.py:61). That failure is not modelled.
- A table with data rows but no columns: `WellFormed` excludes it, because
  the spreadsheet reader takes the columns from the header row.
- Paragraph style and paragraph properties other than alignment, and the
  run's character style, strike-through, capitals, colour and other font
  properties. The source does not copy them (main.py:92-93, 108-112): a new
  paragraph gets the default style. The `Paragraph` and `RunFormat`
  datatypes do not carry them, so the model cannot express what the source
  loses.
- The `'Normal'` style's font set to Arial, and the header and footer images
  with the spacing paragraph (main.py:64-87). These are calls into the `docx`
  library and do not touch the body the model describes. The
  `image_path`/`image_footer_path` session keys that they read are left out
  with them.
- What python-docx drops or converts on its own: runs inside hyperlinks and
  other non-run content are not in `paragraph.runs`; tabs and line breaks in
  run text become separate elements. The template here is already the list
  of runs the library exposes.
- `Batch.TempDir.Save`: the directory map assumes a case-sensitive POSIX
  file system, where two file names are one file only when they are equal
  strings. On a case-insensitive file system `Ana.docx` and `ANA.docx` are
  one file, so a later row overwrites an earlier one. There, the "one file
  per row iff the names differ" claims of `DirectorySize` and `ArchiveSize`
  do not hold. On Windows, `\` and `:` in a value are path syntax. A save
  that fails is not modelled either, such as a name over 255 bytes
  (`OSError`) or a NUL character in it (`ValueError`). Both raise after
  `cont` was already incremented for that row (main.py:61).
- Zip compression, `BytesIO`, creating and deleting the temporary directory
  (main.py:52, 119-126, 149-150). These are file-system and byte-level work.
  The directory is a map and the archive is a sequence of name/document
  entries; the content is the document value, not its bytes.
- The listing order of the directory. `BuildArchive` picks any remaining
  file at each step, so every order is allowed.
- `App.Session.Validate`, `App.Session.GenerateDocuments`: both require `cont`
  to be present. `main` always initialises it before the generate button can
  be pressed (main.py:159-160). If it were absent, the source would fail when
  incrementing it.
- `Text.Replace` requires a non-empty pattern. Every call in the source
  passes a token of at least six characters or `"/"`.
  Python's behaviour for an empty pattern is not modelled.
