# Shadow Slave chapter reader: a Dafny model of its range reader

The reader is a one-page Flask application. At start-up it lists the story
folder and keeps the `.docx` files, sorted by name, as the chapter catalog.
On each request it reads the `start` and `end` query arguments. When both
name catalog chapters and `start` does not come after `end`, it concatenates
the selected chapters' text. Each chapter contributes a heading line
`"\n\n----- <name> -----\n\n"`, where the name is the file name with
`.docx` removed, followed by its paragraphs joined by newlines. When `start`
comes after `end`, the text is a one-line warning. In every other case the
text is empty.

The model has three modules:

- `Text` (`text.dfy`) defines the Python string operations the handler uses:
  `str.endswith`, `str.replace(pat, "")` (`RemoveAll`), `sep.join`, and the
  string order that `sorted` uses (`LexLe`). It also defines a splitter on
  one character (`SplitOn`), the inverse against which `Join`'s round-trip
  lemmas are proved.
- `Catalog` (`catalog.dfy`) builds the catalog from a directory listing:
  filter on the `.docx` ending, then sort. It proves that the result is
  sorted, is a permutation of the `.docx` entries, has no repeats when the
  listing has none, and does not depend on the order of the listing.
- `Reader` (`reader.dfy`) covers the handler `index()`. It defines the
  three-way outcome of the argument checks (`Select`) and the rendered text
  (`Render`, `Content`). The handler itself is the method `Index`, whose
  loop appends each chapter's heading and paragraphs to `content`. Its loop
  invariant ties `content` to `Render` over the chapters handled so far.

Inputs the program gets from outside are parameters:

- the directory listing that `os.listdir` returns;
- the query arguments, as `Option<string>` (`None` when absent);
- the paragraph texts of a chapter file, as the function
  `paras: string -> seq<string>`.

The catalog is a module-level value in the program. Here the handler takes
it as a parameter, and the lemmas that need its shape require
`Catalog.WellFormed`, which `Catalog.BuildSpec` proves of every catalog
built from a listing without repeats.

## Model

| member | source | states |
|---|---|---|
| `Catalog.DocxEntries` | main.py:11 | the filtered listing holds exactly the listing's names that end in ".docx", and is no longer than the listing |
| `Catalog.Sort` | main.py:11 | `sorted` returns a nondecreasing sequence, in Python's string order, holding the same names with the same multiplicities |
| `Catalog.SortedUnique` | main.py:11 | two sorted sequences with the same names are equal, so the insertion sort gives what `sorted` gives |
| `Text.EndsWith` | main.py:11 | `s.endswith(suffix)` holds exactly when `s` is some string followed by `suffix` |
| `Text.LexLe` | main.py:11 | Python's `<=` on strings: a prefix, the string itself included, sorts no later than the string; when a non-empty string sorts no later than another, the other is non-empty and its first character is no smaller |
| `Text.LexLeTotal` | main.py:11 | any two strings are ordered one way or the other |
| `Text.LexLeAntisymmetric` | main.py:11 | two strings each sorting no later than the other are equal |
| `Text.LexLeTransitive` | main.py:11 | the string order is transitive |
| `Catalog.Build` | main.py:11 | the catalog is sorted, and a name is in it exactly when it is in the listing and ends in ".docx" |
| `Catalog.BuildSpec` | main.py:11 | a listing without repeats gives a catalog without repeats whose entries all end in ".docx" |
| `Catalog.ChapterTenSortsBeforeTwo` | main.py:11 | chapters sort by plain string order: the listing ["Chapter 2.docx", "notes.txt", "Chapter 10.docx"] gives the catalog ["Chapter 10.docx", "Chapter 2.docx"] |
| `Catalog.BuildIgnoresListingOrder` | main.py:11 | the catalog depends only on the names in the folder, not on the order of the directory listing |
| `Text.RemoveAll` | main.py:84 | `replace(pat, '')` never lengthens a string, and for a non-empty pattern leaves it unchanged exactly when the pattern does not occur in it |
| `Reader.DisplayName` | main.py:84 | the name shown is no longer than the file name, and equals it exactly when ".docx" does not occur in it |
| `Text.RemoveAllSuffixOnly` | main.py:84 | when the only occurrence of the pattern is the suffix, `replace` with an empty string cuts off exactly that suffix |
| `Reader.DisplayNameDropsExtension` | main.py:84 | the name shown for a chapter whose only ".docx" is its ending is the file name without its last five characters |
| `Text.Join` | main.py:85 | `sep.join(parts)` of no parts is empty, and of n parts is as long as the parts together plus n - 1 separators |
| `Text.JoinSplitOn` | main.py:85 | joining with "\n" the pieces of any text split at "\n" gives the text back |
| `Text.SplitOnJoin` | main.py:85 | a non-empty list of paragraphs without newlines is recovered from its "\n"-join by splitting at "\n" |
| `Reader.IndexOf` | main.py:77-78 | `chapters.index(x)` is a position holding `x`, and no earlier position holds `x` |
| `Reader.Select` | main.py:76-81 | a selection is made only when both arguments are truthy catalog entries; it is non-empty, starts with `start` and ends with `end` |
| `Reader.SelectOutcome` | main.py:76-87 | nothing is selected exactly when an argument is missing, empty or unknown; the range is invalid exactly when start's index exceeds end's; otherwise the selection has length end index - start index + 1 and is the catalog's run between them |
| `Reader.ContentEmptyUnlessBothInCatalog` | main.py:74-76 | missing, empty or unknown arguments leave the content empty |
| `Reader.IndexOrderIsStringOrder` | main.py:11 | in a sorted catalog without repeats, one entry's index is at most another's exactly when it sorts no later |
| `Reader.InvalidRangeIffEndSortsFirst` | main.py:80-87 | for such a catalog, the warning is chosen exactly when the end name sorts strictly before the start name |
| `Reader.RangeIsStringInterval` | main.py:80-81 | for such a catalog, a chapter is selected exactly when it sorts between start and end, both included |
| `Reader.SingleChapter` | main.py:80-81 | the same chapter as start and end selects that chapter alone |
| `Reader.Heading` | main.py:84 | a heading is as long as the opener, the display name and the closer together, and starts with "\n\n----- " |
| `Reader.HeadingNameBetween` | main.py:84 | the display name stands between the heading's opener and its closer " -----\n\n", so it can be read back from the heading |
| `Reader.Section` | main.py:84-85 | a chapter's section starts with its heading, and hence with "\n\n----- ", and what follows the heading is its paragraphs joined by "\n" |
| `Reader.Render` | main.py:82-85 | the text of a selection is empty exactly when the selection is, and otherwise is longer than the heading opener and starts with "\n\n----- " |
| `Reader.RenderStep` | main.py:82-85 | handling one more chapter of the selection appends its heading and then its joined paragraphs to the text of those before it |
| `Reader.Content` | main.py:74-87 | the content is empty exactly when nothing is selected; the warning on an inverted range is one line; a valid range's text starts with a heading |
| `Reader.RenderAppend` | main.py:82-85 | the text of two runs of chapters is the text of the first run followed by that of the second |
| `Reader.RenderAt` | main.py:82-85 | at every selected chapter, the text is what precedes it, then its own section (its heading, then its paragraphs joined by "\n"), then what follows it, so each selected chapter gets one heading, in order |
| `Reader.SectionKeepsParagraphs` | main.py:84-85 | a section starts with its chapter's heading, and the rest splits on "\n" into the chapter's paragraphs when there is at least one paragraph and none holds a newline |
| `Reader.WarningHasNoNewline` | main.py:87 | the invalid-range warning is a single line |
| `Reader.WarningHasNoHeading` | main.py:87 | the invalid-range warning contains no chapter heading |
| `Reader.Index` | main.py:71-89 | the handler's `content` is empty, the warning, or the rendered selection, as `Select` decides; the loop keeps `content` equal to the text of the chapters handled so far |
| `Reader.ReaderShownIffBothInCatalog` | main.py:46 | for a catalog of ".docx" names, the page shows its reader block (`{% if content %}`) exactly when both arguments are catalog entries, whether the range is valid or inverted |

## Left out

- Flask set-up, routing and `request.args.get` (main.py:1, 5, 70-73, 91-92) are framework input and output. The arguments are `Option<string>` parameters.
- `os.listdir` (main.py:11) is file-system input. The listing is a parameter. A missing folder, which makes start-up fail, is not modelled.
- `docx.Document(...).paragraphs` (main.py:83, 85) parses a binary file format in a foreign library. It is the parameter `paras`. An unreadable or malformed file, which aborts the request with an exception, is not modelled.
- `render_template_string` and the HTML template (main.py:13-68, 89) are an external template engine. This includes autoescaping, the `<option ... selected>` lists, and the "Reading: X to Y" line. The model stops at the `content` string handed to the template. `Reader.ReaderShownIffBothInCatalog` states only the template's `{% if content %}` test.
- The browser's speech-synthesis script (main.py:55-65) is client-side code.
- The program's catalog is a module-level global computed once. Here it is a parameter of the handler.
- Several described behaviours are not in the program, so the model follows the code: dropping blank or whitespace-only paragraphs, numeric chapter ordering, HTML escaping in the handler, and no-cache response headers. Chapters sort by plain string order, so "Chapter 10.docx" comes before "Chapter 2.docx" (`Catalog.ChapterTenSortsBeforeTwo`).
- Chapter files are read again on every request (main.py:83). The model takes `paras` as the paragraphs the files hold at the time of the request, so two identical requests give the same text only while the files stay unchanged.
- Names are Dafny strings of Unicode scalar values. A file name that Python holds with lone surrogates (undecodable bytes kept by `surrogateescape`) cannot be represented, nor can its place in the sorted order.
- The invalid-range warning is shown inside the reader block, like chapter text, not as a separate inline notice. This is because `content` holds the warning and the template tests only `content`.
