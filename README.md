# Quote slideshow generator: a Dafny model

`make_slideshow.py` reads quotes from a semicolon-separated CSV file. For every
row it picks a random background image from `image/warrior/`, converting a
`.webp` file to `.png` first. It then writes one image per non-blank field of the
row, with the field's text wrapped and centred on the background in white with a
black outline. Each row ends with a closing image that carries a fixed text.

This project models that core in Dafny. It covers:

- the CSV row transform of `get_data_from_csv`;
- candidate selection and conversion in `get_random_image` and
  `convert_image_to_png`;
- the greedy word wrapper `wrap_text`;
- the integer layout of `add_text_to_image`;
- the output plan of `create_slideshow`: which background, which text and which
  file name for every image written;
- `main`.

It also proves the properties these functions are meant to have.

Modules:

- `Text`: the Python string operations the script relies on: `str.isspace`,
  `str.split()`, `str.split(sep)`, `sep.join`, `str.strip`, `str.replace`,
  `str.endswith`, and f-string decimals.
- `Paths`: POSIX `os.path.join`, `os.path.basename` and `os.path.splitext`.
- `CsvData` (`get_data_from_csv`), `Images` (`get_random_image`,
  `convert_image_to_png`), `Wrap` (`wrap_text`), `Layout` (`add_text_to_image`)
  and `Slideshow` (`create_slideshow`, `main`).
- `Wrappers`: the `Option` type.

The loops of `wrap_text`, of the drawing in `add_text_to_image` and of
`create_slideshow` are written as methods with the same loops. Each is proved
equal to a recursive specification function (`Wrap.Wrapped`, `Layout.Rendered`,
`Slideshow.Plan`). The lemmas state what the script promises about those
functions.

How the model treats the surroundings:

- The font is a function from a string to its bounding box.
- The file system enters as inputs: whether the output directory exists,
  whether the image directory exists, and what it lists.
- `random.choice` is a draw `roll(idx)` per row; the chosen candidate is
  `roll(idx) % n`.
- `datetime.now().strftime(...)` is a formatted reading `clock(idx, col)` per
  row and column.

Two behaviours of the code are kept as written:

- `timestamp` is only bound for fields with content. The closing image of a row
  therefore reuses the last reading, possibly one from an earlier row. When the
  first row that gets an image has no field with content, `timestamp` was never
  bound, and Python raises `UnboundLocalError` at `make_slideshow.py:201`.
  `Slideshow.Plan` records that as `crashed`, and
  `Slideshow.PlanWithImagesStops` states exactly when it happens.
- Output paths are written as `'slideshow/output/' + '/slideshow_...'`, with the
  doubled separator of the source.

Column images are named `slideshow_{timestamp}_{name}_{idx+1}_{col+1}.png` and
closing images `slideshow_{timestamp}_{name}_{idx+1}_final.png`
(`Slideshow.ColumnPath`, `Slideshow.FinalPath`).

## Model

| member | source | states |
|---|---|---|
| Text.Words | make_slideshow.py:120 | `paragraph.split()`: every element is a non-empty run of non-whitespace |
| Text.WordsSpaceJoin | make_slideshow.py:120 | splitting `a + c + b` at a whitespace character `c` gives the words of `a` followed by those of `b` |
| Text.WordsAppendWord | make_slideshow.py:126 | `(line + " " + word).split()` is `line.split()` followed by `word` |
| Text.Split | make_slideshow.py:118 | `text.split("\n")` returns at least one piece, and no piece holds the separator |
| Text.JoinSplit | make_slideshow.py:118 | joining the pieces of `text.split(sep)` with `sep` gives back `text` |
| Text.SplitJoin | make_slideshow.py:118 | splitting a join of separator-free pieces gives back the pieces |
| Text.WordsOfSplit | make_slideshow.py:118-120 | cutting at newlines first and then splitting each paragraph yields the words of the whole text |
| Text.TrimStart | make_slideshow.py:190 | the result is a suffix of the input, every character removed is whitespace, and the result does not start with whitespace |
| Text.TrimEnd | make_slideshow.py:190 | the mirror image of `TrimStart` at the end of the string |
| Text.Strip | make_slideshow.py:190 | `text.strip()` is empty exactly when every character is whitespace, and otherwise starts and ends with non-whitespace |
| Text.Replace | make_slideshow.py:50 | `s.replace(pat, rep)`: non-overlapping occurrences, left to right; its properties are `ReplaceAbsent`, `ReplaceLeavesNone`, `ReplaceSuffix` and `ReplaceIdempotent` |
| Text.ReplaceAbsent | make_slideshow.py:50 | `str.replace` leaves a string that holds no occurrence of the pattern unchanged |
| Text.ReplaceLeavesNone | make_slideshow.py:50 | after a replacement that cannot recreate the pattern, no occurrence of the pattern is left |
| Text.ReplaceSuffix | make_slideshow.py:66 | a string that ends with the pattern ends with the replacement after `str.replace` |
| Text.ReplaceIdempotent | make_slideshow.py:50 | such a replacement applied twice equals it applied once |
| Text.Decimal | make_slideshow.py:193 | `f"{n}"` is a non-empty string of decimal digits |
| Text.DecimalRoundTrip | make_slideshow.py:193 | reading the decimal text back gives the number |
| Text.DecimalInjective | make_slideshow.py:193 | different numbers are written differently |
| Paths.LastIndex | make_slideshow.py:93 | the last position of a character, or -1; no later position holds it |
| Paths.Basename | make_slideshow.py:93 | `os.path.basename(p)`: a suffix of `p` with no separator, preceded by a separator when shorter than `p` |
| Paths.SplitExt | make_slideshow.py:93 | `os.path.splitext(p)`: the two parts concatenate to `p`; the extension is non-empty exactly when the last component has a dot after a non-dot character, and then starts with its only dot |
| Paths.Stem | make_slideshow.py:93 | `image_name` is a prefix of the base name and holds no separator |
| Paths.BasenameOfJoin | make_slideshow.py:87-93 | joining an entry onto `image/warrior/` appends it, and the base name of the result is the entry |
| CsvData.UnescapeIsSafe | make_slideshow.py:50 | replacing backslash-n with a line break cannot create a new backslash-n |
| CsvData.Unescape | make_slideshow.py:50 | `entry.replace('\\n', '\n')`; `UnescapeLeavesNoEscape`, `UnescapeKeepsPlain` and `UnescapeIdempotent` state what it does |
| CsvData.UnescapeLeavesNoEscape | make_slideshow.py:50 | no backslash-n escape is left in a loaded field |
| CsvData.UnescapeKeepsPlain | make_slideshow.py:50 | a field without the escape is loaded unchanged |
| CsvData.UnescapeIdempotent | make_slideshow.py:50 | unescaping twice equals unescaping once |
| CsvData.DataFromRows | make_slideshow.py:46-50 | the header row is dropped; data row `i` is reader row `i+1` with the same number of fields, each unescaped |
| CsvData.DataHasNoEscapes | make_slideshow.py:46-50 | no field of the loaded data holds the escape |
| CsvData.DataReloadIsStable | make_slideshow.py:46-50 | loading already loaded data again, behind any header row, gives the same data |
| Images.Candidates | make_slideshow.py:82 | the filtered listing is no longer than the listing |
| Images.CandidatesMembers | make_slideshow.py:82 | the candidates are exactly the listed names that end in png, jpg, jpeg or webp |
| Images.ConversionIsSafe | make_slideshow.py:66 | replacing `.webp` with `.png` cannot create a new `.webp` |
| Images.ConvertedPath | make_slideshow.py:66 | `image_path.replace('.webp', '.png')`; `UsablePathIsUsable` and `EntryFile` state its result |
| Images.UsablePath | make_slideshow.py:90-91 | the path `get_random_image` goes on with; `UsablePathIsUsable` states it never ends in `.webp` |
| Images.DrawIndex | make_slideshow.py:87 | the draw is `roll % n`: a valid position, and a roll below the number of candidates picks that position |
| Images.ChosenEntry | make_slideshow.py:87 | `random.choice(images)` returns a candidate |
| Images.PickImage | make_slideshow.py:74-96 | `(None, None)` exactly when the directory is missing or holds no candidate; otherwise the chosen path is the directory joined with a candidate, the path used is the converted one for `.webp`, and the name is the stem of the path used |
| Images.EveryCandidateReachable | make_slideshow.py:87 | every candidate is chosen by some draw |
| Images.UsablePathIsUsable | make_slideshow.py:61-71 | the path used never ends in `.webp`; a converted path ends in `.png` and holds no `.webp` |
| Images.ReplaceAfterPlainPrefix | make_slideshow.py:66 | a directory prefix without a dot is untouched by the `.webp` replacement |
| Images.ReplaceKeepsOut | make_slideshow.py:66 | the replacement introduces no separator into an entry |
| Images.EndsWithAfterDirectory | make_slideshow.py:90 | the joined path ends in `.webp` exactly when the entry does |
| Images.EntryFile | make_slideshow.py:87-93 | the chosen path is the directory followed by the entry; the converted file sits beside it, with every `.webp` of the entry replaced; the name is that file's `splitext` stem |
| Images.ListingAfter | make_slideshow.py:67 | the listing after a pick extends the listing before it |
| Images.ListingAfterMembers | make_slideshow.py:67 | the listing after a pick holds the old entries and, after a conversion, the saved `.png` file |
| Wrap.Fill | make_slideshow.py:121-130 | placing the words of one paragraph emits at least one line and at most one line per word plus one |
| Wrap.WrapParagraphs | make_slideshow.py:119-131 | the outer loop over paragraphs; `WrapParagraphsShape`, `WrapParagraphsWords` and `WrapParagraphsLineWidth` state its shape, words and widths |
| Wrap.Wrapped | make_slideshow.py:116-132 | `wrap_text(text, font, max_width)`; `WrappedShape`, `WrappedWords` and `WrappedWidth` state its properties |
| Wrap.WrapText | make_slideshow.py:116-132 | the loops of `wrap_text` compute `Wrapped(text)` |
| Wrap.WrapParagraphsShape | make_slideshow.py:119-131 | each paragraph contributes at least two lines, and the last line is the blank separator |
| Wrap.WrappedShape | make_slideshow.py:116-132 | the wrapped text has at least two lines per `text.split("\n")` paragraph, and it ends with "" |
| Wrap.ParagraphFirstLine | make_slideshow.py:120-130 | a paragraph without words gives just ""; the first line is "" exactly when there are no words or the first word does not fit after a space |
| Wrap.FillFirstLine | make_slideshow.py:123-130 | the first line emitted extends the line being built, by nothing or by a space and more |
| Wrap.FillWords | make_slideshow.py:122-130 | the words of the emitted lines are the words of the line being built followed by the paragraph's words, in order |
| Wrap.WrapParagraphsWords | make_slideshow.py:119-131 | the words of all emitted lines are the words of all paragraphs, in order |
| Wrap.WrappedWords | make_slideshow.py:116-132 | no word is lost, duplicated or reordered: the words of the wrapped lines are `text.split()` |
| Wrap.FillLineKinds | make_slideshow.py:123-130 | every emitted line is the starting line, a single word, or a joined line that was measured to fit |
| Wrap.WrapParagraphsLineWidth | make_slideshow.py:119-131 | each line is "", a single word, or no wider than `max_width` |
| Wrap.WrappedWidth | make_slideshow.py:116-132 | every wrapped line is "", a single overlong word, or fits within `max_width` |
| Wrap.FillFirstWords | make_slideshow.py:123-130 | the words of the first line emitted start with the words of the line being built |
| Wrap.FillGreedy | make_slideshow.py:123-129 | a new line starts only when the next word does not fit after the previous line and a space |
| Layout.RenderedWithinPadding | make_slideshow.py:112-113 | what `max_width = img.width - 2 * padding` is for: every line that is neither "" nor a single word is drawn in white at least 55 pixels from both edges (with `make_slideshow.py:148`) |
| Layout.TotalHeight | make_slideshow.py:138 | `text_height`, the sum of the line heights; it fixes the start height in `RenderedLine` |
| Layout.StartY | make_slideshow.py:141 | the first `y_position`, `h//3 - (text_height//3 - 20)`; `RenderedLine` places line 0 there |
| Layout.Advance | make_slideshow.py:156 | how far `y_position` has moved after some lines; `AdvanceStep` and `AdvanceGrows` state its steps |
| Layout.Rendered | make_slideshow.py:135-156 | everything `add_text_to_image` draws; `RenderedLine`, `RenderedWithinPadding` and `RenderedEndsBlank` state where |
| Layout.CenteredX | make_slideshow.py:148 | the line is centred: the right margin equals the left margin or exceeds it by one pixel |
| Layout.Outline | make_slideshow.py:151-152 | one black draw per stroke offset |
| Layout.LineDraws | make_slideshow.py:151-155 | five draws per line |
| Layout.Placed | make_slideshow.py:144-156 | five draws for every line |
| Layout.DrawLine | make_slideshow.py:151-155 | the offset loop and the white draw compute `LineDraws` |
| Layout.AddTextToImage | make_slideshow.py:112-156 | wrapping, measuring and drawing compute `Rendered` |
| Layout.LineDrawsOrder | make_slideshow.py:151-155 | black at (x-5,y-5), (x-5,y+5), (x+5,y-5) and (x+5,y+5), then white at (x,y) |
| Layout.PlacedLine | make_slideshow.py:144-156 | line k's draws are the k-th group of five, at its centred x and at the start height plus the advance over the lines above |
| Layout.AdvanceStep | make_slideshow.py:156 | after each line the pen moves down by the line's height plus 30 |
| Layout.AdvanceGrows | make_slideshow.py:156 | with non-negative box heights, each line is at least 30 pixels below the one before |
| Layout.RenderedLine | make_slideshow.py:135-156 | the whole drawing has five draws per wrapped line, placed at `h//3 - (text_height//3 - 20)` plus the advance, and centred |
| Layout.RenderedEndsBlank | make_slideshow.py:131-156 | at least ten draws are made, and the last five are of the blank separator line |
| Slideshow.ContentFields | make_slideshow.py:188-190 | the kept fields are no more than the fields |
| Slideshow.ContentFieldsMembers | make_slideshow.py:188-190 | the kept fields are exactly the fields with a non-whitespace character |
| Slideshow.ContentColumns | make_slideshow.py:188-190 | the columns with content, strictly increasing; every column with content is listed |
| Slideshow.ColumnJobs | make_slideshow.py:188-196 | the column loop writes at most one image per field |
| Slideshow.LastStamp | make_slideshow.py:190-192 | `timestamp` stays as it was when no field has content, and is bound afterwards exactly when it was bound before or some field has content |
| Slideshow.LastStampIsLastReading | make_slideshow.py:188-192 | after a row with a field with content, `timestamp` holds the reading taken for its last column with content |
| Slideshow.WriteColumns | make_slideshow.py:188-196 | the column loop appends `ColumnJobs` and leaves `timestamp` at `LastStamp` |
| Slideshow.CreateSlideshow | make_slideshow.py:170-202 | the output directory is created exactly when it is missing; the images written and whether the run stops are those of `Plan(data)` |
| Slideshow.AfterPick | make_slideshow.py:183-202 | the rest of one row once `get_random_image` returned; `RowJobs` and `RowStops` state its outcome |
| Slideshow.RowStep | make_slideshow.py:179-202 | one iteration of the row loop; `RowJobs`, `RowStops` and `RowTexts` state its outcome |
| Slideshow.RowJobs | make_slideshow.py:182-202 | a row without an image writes nothing and leaves `timestamp`; a row with one that goes on writes its column images and then `_final.png`, named with the reading of its last column with content, or with the earlier `timestamp` when it has none |
| Slideshow.Plan | make_slideshow.py:178-202 | the loop over the rows, with the stop on an unbound `timestamp`; `PlanWithImagesStops`, `PlanWithImagesTexts`, `NoImageNoJobs` and `PlanCrashSticky` state its outcome |
| Slideshow.MainProcess | make_slideshow.py:213-225 | with no data row nothing happens; otherwise the result is `create_slideshow` on the loaded data |
| Slideshow.PlanCrashSticky | make_slideshow.py:192-202 | once the run has stopped, later rows change nothing |
| Slideshow.NoImageNoJobs | make_slideshow.py:182-185 | with no image directory or no candidate in it, every row is skipped, nothing is written, and nothing stops the run |
| Slideshow.CandidatesKept | make_slideshow.py:82 | a listing that keeps the old entries keeps a candidate |
| Slideshow.RowKeepsCandidates | make_slideshow.py:178-202 | a row never takes away the last candidate |
| Slideshow.ImagesStayAvailable | make_slideshow.py:178-202 | when the directory holds a candidate at the start, it holds one before every row |
| Slideshow.Texts | make_slideshow.py:196 | one text per image written |
| Slideshow.TextsAppend | make_slideshow.py:196 | the texts of two runs of images in a row are concatenated |
| Slideshow.ColumnJobsAt | make_slideshow.py:188-196 | the k-th column image carries the k-th field with content, on the row's background, under the file named after that row and column |
| Slideshow.ColumnJobsCount | make_slideshow.py:188-196 | one image per field with content |
| Slideshow.ColumnTexts | make_slideshow.py:188-196 | the column images carry the fields with content, in column order |
| Slideshow.ContentFieldsEmpty | make_slideshow.py:190 | no field is kept exactly when no field has content |
| Slideshow.PlannedTexts | make_slideshow.py:178-202 | at least one text per row |
| Slideshow.RowStops | make_slideshow.py:188-202 | with an image available, a row stops the run exactly when it has no field with content and `timestamp` is unbound; after a row that goes on, `timestamp` is bound |
| Slideshow.RowTexts | make_slideshow.py:188-202 | a row that goes on adds its fields with content and then the fixed closing text |
| Slideshow.PlanRowStops | make_slideshow.py:178-202 | the same, for the last row of a plan |
| Slideshow.PlanRowTexts | make_slideshow.py:178-202 | the same, for the last row of a plan |
| Slideshow.PlanFirstRowStops | make_slideshow.py:178-202 | a single row with an image stops the run exactly when it has no field with content |
| Slideshow.PlanWithImagesStops | make_slideshow.py:178-202 | with an image available, the run stops exactly when the first row has no field with content; `timestamp` is bound after any row of a run that goes on |
| Slideshow.PlanWithImagesTexts | make_slideshow.py:178-202 | with an image available and no stop, for each row the images carry its fields with content in column order, then the fixed text |
| Slideshow.NoUnderscore | make_slideshow.py:193 | a decimal number holds no `_` |
| Slideshow.CutAtUnderscore | make_slideshow.py:193 | two strings of the form `a_b` that agree have the same parts when the first parts hold no `_` |
| Slideshow.ColumnPathInjective | make_slideshow.py:193 | for one timestamp and image name, different (row, column) pairs give different file names |
| Slideshow.ColumnPath | make_slideshow.py:193 | the file of a column image; `ColumnPathInjective` and `ColumnPathNotFinal` state that names do not collide |
| Slideshow.FinalPath | make_slideshow.py:201 | the file of a closing image; `ColumnPathNotFinal` states no column image has its name |
| Slideshow.ColumnPathNotFinal | make_slideshow.py:193-201 | a column image's file never has the name of a closing image's file |
| Slideshow.PickedPathNotEmpty | make_slideshow.py:182-183 | a picked image's path is never empty, so `if not image_path` skips exactly the rows without a pick |
| Slideshow.UsableNotEmpty | make_slideshow.py:90-91 | conversion keeps a non-empty path non-empty |

## Left out

- Pixels are left out: opening, drawing on and saving images through PIL. A
  rendering is the ordered list of `draw.text` calls (`Layout.Draw`), and a
  saved image is a `Slideshow.Job` that names its background, text and output
  file.
- Font loading and metrics are left out. The font is an arbitrary function from
  a string to its `getbbox` box, and nothing about its values is assumed except
  where a lemma says so (`Layout.AdvanceGrows`).
- The image size is an input to `Layout.AddTextToImage`. The background is not
  opened to read it.
- Logging, colours and the `time.sleep` delays of `log_with_color` are left out:
  they change no output.
- The file system is described by inputs (directory existence and listing), not
  queried. `os.makedirs` is reported as the `makeDir` result. Collisions with
  files already in the output directory are not modelled.
- `random.choice` is the input draw `roll(idx)`; its distribution is not
  modelled.
- `datetime.now().strftime('%Y%m%d_%H%M%S')` is the input reading
  `clock(idx, col)`, already formatted.
- Images.ListingAfter: a converted `.png` is added to the listing at its end. On
  a real file system `os.listdir` order is unspecified.
- `csv.reader` parsing of the file (quoting, the `;` delimiter, encoding) is left
  out. `CsvData.DataFromRows` starts from the rows the reader yields.
- Exceptions other than the unbound `timestamp` are left out: a missing or
  unreadable image, a font that cannot be loaded, a failed save.
- The other scripts of the repository are not part of this model: `main.py`,
  `easy.py`, `easy_quote.py`, `video.py`, `aws.py` and
  `social_media/tiktok.py`.
- Unicode handling is limited. Strings are sequences of code points, and
  `str.isspace` is the fixed set of whitespace code points in `Text.IsSpace`.
