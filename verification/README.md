# Academic transcript extraction, modelled in Dafny

This project models `extractDataFromText` from `server/utils/pdfParser.js`. The
function takes the text that a PDF library extracted from a student's academic
transcript ("histórico") and returns a record in two parts:

- **Header fields.** These are registration number, name, date and place of
  birth, identity document, mother's name, course, municipality, modality, the
  two academic performance indices (IRA), the normative-act year/period and the
  expected conclusion. Each is found with a first-match regular expression over
  the whole text, except course, municipality and modality. Those three are
  searched only inside the course-data block, between "Dados do Curso" and
  "Dados da Instituição", and are all the sentinel when that block is absent.
  Any field that is not found is the sentinel `"Não encontrado"`.
- **Curricular components.** The component list comes from a line scan. The
  scan starts after the "Componentes Curriculares Cursados/Cursando" marker. It
  reads a fixed-shape group of lines after each term line such as `2021.2`, and
  it stops at the first term beyond two distinct ones.

The regular expressions are modelled concretely, as the searches that
JavaScript's backtracking matcher performs:

- the leftmost start position;
- the captures that the greedy quantifiers settle on (lazy for the course block);
- the exact JavaScript set of `\s` and `trim` whitespace;
- ASCII `\d`.

The labelled-field, course-block, identity and figures searches each have a
declarative "the pattern matches here" predicate as their partner. The search
and its predicate are tied by an if-and-only-if on "not found", and a found
value is stated to come from the leftmost matching position. The IRA and
normative-act searches get the same two statements under the premise that
every literal piece of the key starts with a non-whitespace character. All
three keys of the record meet that premise (`Header.DecimalKeysStartNonSpace`).

The component loop is a method. It is proved equal to a recursive reference
scan (`Scan`, which reads a group at each term line that `Starts` lists). The scan's properties are proved as lemmas about that
reference.

Files:

- `wrappers.dfy`: the `Option` type.
- `text.dfy`: JavaScript string primitives. It covers `trim`, `includes`, `indexOf`, `replace` with a string pattern, `split('\n')`, `split(/\s+/)[0]`, and the line list the scanner walks over.
- `header.dfy`: the header fields (source lines 5-62).
- `scanner.dfy`: the component scanner (source lines 64-120).
- `pdf_parser.dfy`: the whole function (source lines 2-124).
- `scenarios.dfy`: worked inputs.

The IRA and normative-act patterns in the code are `\d+\.\d+`, which allows
one or more fraction digits. The model follows the code.

When the course-data section is empty and the closing heading occurs again
later in the text, the block is not read as empty. `\s*` after "Dados do
Curso" swallows the newline that begins the first closing marker, so the lazy
capture runs on to the later heading. With a single closing heading, `\s*`
backs off and the block is empty. The model keeps both behaviours, and
`Scenarios.CourseBlockOfEmptyBlock` exhibits the first.

## Model

| member | source | states |
|---|---|---|
| Text.Span | server/utils/pdfParser.js:81 | a greedy run of one character class stops at the first character outside the class, or at the end |
| Text.TrimEnd | server/utils/pdfParser.js:66 | cutting trailing whitespace leaves a prefix whose last character is not whitespace, and only whitespace was cut |
| Text.Trim | server/utils/pdfParser.js:66 | `trim` yields a string with no whitespace at either end and no longer than the input |
| Text.TrimSlice | server/utils/pdfParser.js:66 | the trim is a contiguous slice of the input, and everything cut off on either side is whitespace |
| Text.TrimSkipsLeadingSpace | server/utils/pdfParser.js:66 | leading whitespace never changes the trim |
| Text.TrimKeepsClass | server/utils/pdfParser.js:66 | trimming only keeps characters that were there, so it preserves any character class the input is made of |
| Text.TrimTrimmed | server/utils/pdfParser.js:66 | trim is idempotent: a trimmed text is its own trim |
| Text.TrimAllSpace | server/utils/pdfParser.js:66-67 | a whitespace-only line trims to the empty string, which the filter then drops |
| Text.TrimOfPadded | server/utils/pdfParser.js:66 | trimming whitespace padding around an already trimmed text gives that text back exactly |
| Text.Contains | server/utils/pdfParser.js:75 | `includes` is true exactly when the pattern occurs at some index |
| Text.ContainsTrans | server/utils/pdfParser.js:66-75 | a pattern inside a piece of the text is inside the text, so a marker on a scanned line is a marker in the text |
| Text.IndexOf | server/utils/pdfParser.js:111-112 | the search returns an occurrence at or after the start, and no earlier occurrence exists; "none" means there is no occurrence at all |
| Text.RemoveFirst | server/utils/pdfParser.js:112 | `replace` with a string pattern removes exactly the first occurrence and leaves the text unchanged when there is none |
| Text.FirstToken | server/utils/pdfParser.js:81 | `split(/\s+/)[0]` is a whitespace-free prefix of the line, followed by whitespace or the end of the line |
| Text.SplitLines | server/utils/pdfParser.js:66 | `split('\n')` gives at least one piece, no piece holds a newline, and joining the pieces with newlines restores the text |
| Text.SplitJoin | server/utils/pdfParser.js:66 | splitting undoes joining for newline-free pieces, the inverse direction of the round trip |
| Text.NonBlank | server/utils/pdfParser.js:66 | trim then filter empty strings: no more lines than pieces, and every kept line is non-empty and trimmed |
| Text.NonBlankProvenance | server/utils/pdfParser.js:66 | when every piece is newline-free and occurs in the text, so does every kept line |
| Text.NonBlankKeeps | server/utils/pdfParser.js:66 | lines that are already non-empty and trimmed pass through trim and filter unchanged |
| Text.Lines | server/utils/pdfParser.js:66 | every scanned line is non-empty, trimmed, free of newlines and occurs in the text; a text without newlines gives its own trim as its only line, or no line when it is blank |
| Text.LinesOfJoin | server/utils/pdfParser.js:66 | the line list of non-empty trimmed lines joined by newlines is those lines, in order |
| Text.NonBlankConcat | server/utils/pdfParser.js:66 | trim-and-filter works piece by piece: on two lists joined it gives the two results joined, so every non-blank piece is kept, in order |
| Text.JoinAppend | server/utils/pdfParser.js:66 | joining two lists of pieces is joining each and putting one newline between them |
| Text.SplitSingle | server/utils/pdfParser.js:66 | a text without newlines splits into itself alone |
| Text.SplitAppend | server/utils/pdfParser.js:66 | splitting two texts joined by a newline gives the pieces of the first followed by those of the second |
| Text.LinesAppend | server/utils/pdfParser.js:66 | the scanned lines of two texts joined by a newline are the lines of the first followed by those of the second, so every non-blank line of the text is listed, in order |
| Text.JoinCons | server/utils/pdfParser.js:66 | a character put in front of the first piece is put in front of the join |
| Text.SplitCons | server/utils/pdfParser.js:66 | a character other than a newline joins the first piece of the split |
| Header.LabelledValueAt | server/utils/pdfParser.js:16-17 | `Label:\s*([^\n]+)` fails at a position exactly when no capture start there fits the pattern; a success is group 1 trimmed: from the furthest capture start that fits (where greedy `\s*` stops, or where it backs off to) to the end of that line, so it is trimmed and on one line |
| Header.LabelCaptureLast | server/utils/pdfParser.js:16-17 | when something other than whitespace follows the key, the capture start where the whitespace run ends is the furthest that fits |
| Header.LabelCaptureInSpace | server/utils/pdfParser.js:16-17 | when only whitespace follows the key, `\s*` backs off to the last character that is not a newline, the furthest capture start that fits, and group 1 trims to "" |
| Header.LastLineChar | server/utils/pdfParser.js:16-26 | the last index before the bound that holds something other than a newline, with only newlines after it: where `\s*` in `Label:\s*([^\n]+)` backs off to when only whitespace follows the key |
| Header.LabelledValueFrom | server/utils/pdfParser.js:16-26 | the search finds nothing exactly when the pattern matches at no position; otherwise its value comes from the leftmost matching position |
| Header.LabelledValue | server/utils/pdfParser.js:16-26 | a labelled lookup finds nothing exactly when the pattern matches nowhere; a found value is the trimmed capture at the leftmost matching position, on one line |
| Header.LabelledField | server/utils/pdfParser.js:16-26 | a labelled field is the trimmed capture of the leftmost match, or the sentinel exactly when the pattern matches nowhere; it is a single-line trimmed value either way |
| Header.KeyEnd | server/utils/pdfParser.js:52-58 | where the greedy key match ends is a real match of the key pieces, each followed by some whitespace, and it stops before a non-whitespace character |
| Header.KeyEndForced | server/utils/pdfParser.js:52-58 | when each key piece starts with non-whitespace, any match of the key that stops before a non-whitespace character is the greedy one |
| Header.KeyMatchBound | server/utils/pdfParser.js:52-58 | a key match never ends before it starts |
| Header.DecimalAt | server/utils/pdfParser.js:52-59 | `(\d+\.\d+)` fails at a position exactly when no digits-dot-digits split fits there; a success takes every fraction digit (it ends before a non-digit), has the decimal shape and occurs at that position |
| Header.DecimalValueFrom | server/utils/pdfParser.js:52-59 | a value found after the IRA or normative-act key has the `\d+\.\d+` shape, occurs in the text, and is group 1 of a match of the whole pattern at or after the start |
| Header.DecimalFieldAtPosition | server/utils/pdfParser.js:52-59 | at one position, the greedy key match followed by a decimal is group 1 of a match of the whole pattern, and for non-whitespace-led keys the whole pattern matches there exactly when both succeed |
| Header.DecimalValueFromNone | server/utils/pdfParser.js:52-59 | for non-whitespace-led keys, the search from a position finds nothing exactly when the pattern matches at no position from there |
| Header.DecimalValueFromLeftmost | server/utils/pdfParser.js:52-59 | for non-whitespace-led keys, a value found from a position comes from the leftmost match from there |
| Header.DecimalFieldInside | server/utils/pdfParser.js:52-59 | the key-and-decimal pattern only matches at a position inside the text |
| Header.DecimalValue | server/utils/pdfParser.js:52-59 | a found value is a decimal; when the key pieces start with non-whitespace, nothing is found exactly when the pattern matches nowhere, and a found value comes from the leftmost match |
| Header.DecimalIsField | server/utils/pdfParser.js:53 | a decimal capture is unchanged by `trim` and lies on one line |
| Header.DecimalField | server/utils/pdfParser.js:52-59 | each index field is the sentinel or a decimal; for keys whose pieces start with non-whitespace it is group 1 of the leftmost match, or the sentinel exactly when there is no match |
| Header.DecimalKeysStartNonSpace | server/utils/pdfParser.js:52-58 | the three keys `IRA\s*-\s*Individual:`, `IRA\s*-\s*Geral:` and `Ato Normativo:` start every literal piece with non-whitespace |
| Header.CourseBlockAt | server/utils/pdfParser.js:29-31 | at a position, the course pattern fails exactly when no closing marker follows the opening one there; a success is the trimmed text from the end of the whitespace after the opening marker to the first closing marker from there, or empty when the only closing markers start inside that whitespace |
| Header.CourseCaptureFromSpace | server/utils/pdfParser.js:29-31 | whitespace taken by `\s*` before the lazy capture does not change the trimmed block |
| Header.CourseCaptureInSpace | server/utils/pdfParser.js:29-31 | when the closing marker starts inside that whitespace, the trimmed block is empty |
| Header.CourseBlockFrom | server/utils/pdfParser.js:29 | the course-block search finds nothing exactly when no opening and closing marker pair exists after the start; otherwise its block is cut at the leftmost opening marker that has a closing marker after it |
| Header.CourseBlock | server/utils/pdfParser.js:29-31 | the course block is found exactly when some opening and closing marker pair exists; it is the block cut at the leftmost such opening marker |
| Header.IdentityMatchForced | server/utils/pdfParser.js:6 | a match of `(\d+)\s*([A-Z\s]+)\s*Nome:` leaves no choice: group 1 is the whole digit run, and "Nome:" ends the capitals-and-space run |
| Header.IdentityAt | server/utils/pdfParser.js:6-9 | at a position, the joint pattern fails exactly when no digits-run/name-run/"Nome:" split fits; otherwise the captures are the digits and the trimmed run |
| Header.IdentityAbsent | server/utils/pdfParser.js:6 | when the digit run at a position is not followed by a capitals-and-space run ending in "Nome:", the joint pattern cannot match there |
| Header.IdentityFrom | server/utils/pdfParser.js:6 | the joint search finds nothing exactly when the pattern matches at no position after the start, and otherwise reads the leftmost matching position |
| Header.IdentityShape | server/utils/pdfParser.js:8-9 | the captures of a joint match are a non-empty digit string and a trimmed run of capitals and whitespace |
| Header.IdentityOf | server/utils/pdfParser.js:6-9 | the joint lookup fails exactly when the pattern matches nowhere; otherwise both values are the captures of the one leftmost match, the name trimmed, with the shapes above |
| Header.IdentityFromFirst | server/utils/pdfParser.js:6-9 | what the joint search from the start finds are the captures of the leftmost match, with their shapes |
| Header.IdentityLeftmost | server/utils/pdfParser.js:6-9 | a match at a position with none before it is the leftmost one, and what is read there are its captures, with their shapes |
| Header.NotFoundIsNoIdentity | server/utils/pdfParser.js:11-12 | the sentinel is neither a registration number nor a name, so a defaulted field is always recognisable |
| Header.IdentityFields | server/utils/pdfParser.js:6-13 | registration number and name are the two captures of the same leftmost joint match, or both the sentinel exactly when the pattern matches nowhere |
| Header.CourseFields | server/utils/pdfParser.js:29-49 | with no course block, all three course fields are the sentinel; with one, each field is what its labelled lookup gives over the block's text only |
| Header.CourseFieldsScoped | server/utils/pdfParser.js:31-43 | a course field that was found is the leftmost labelled value inside the course-data block, and its key occurs in that block |
| Header.LabelFoundOccurs | server/utils/pdfParser.js:34-43 | a key whose pattern matches occurs in the searched text |
| Header.MatriculaIsField | server/utils/pdfParser.js:8 | a registration number is a single-line trimmed value |
| Header.ExtractHeader | server/utils/pdfParser.js:5-62 | every field is what its own lookup defines: the identity pair from the leftmost joint match or both the sentinel; labelled and index fields from their leftmost matches over the whole text; the course trio from the course-data block only, all three the sentinel without it; every field except the name is single-line and trimmed, and the indices are decimals when found |
| Scanner.SplitFigures | server/utils/pdfParser.js:100-106 | the four groups of a match have the code, attendance, grade and workload shapes |
| Scanner.FiguresAt | server/utils/pdfParser.js:100 | at a position, the combined pattern fails exactly when no digit-count split fits, and otherwise its groups come from a fitting split |
| Scanner.FiguresCounts | server/utils/pdfParser.js:100 | a match can only use the six digit counts that `\d{1,3}` and `\d{1,2}` allow |
| Scanner.FiguresFrom | server/utils/pdfParser.js:100 | the combined search finds nothing exactly when the pattern matches at no position after the start, and otherwise reads the leftmost matching position |
| Scanner.FiguresOf | server/utils/pdfParser.js:99-107 | a figures line yields nothing exactly when the pattern matches nowhere; otherwise all four groups come from one match at the leftmost matching position, each in its shape |
| Scanner.FiguresLeftmost | server/utils/pdfParser.js:100-106 | the groups read at the leftmost matching position are the four groups of one match there |
| Scanner.FiguresSplitUnique | server/utils/pdfParser.js:100 | two matches at the same position use the same digit counts, so the four groups of a match are determined by where it starts |
| Scanner.FixedDecimalDot | server/utils/pdfParser.js:100 | two readings of `\d{n}\.\d{f}` at the same place put the dot in the same place |
| Scanner.NotFoundIsNoFigure | server/utils/pdfParser.js:98 | the sentinel has none of the four figure shapes and is not a term |
| Scanner.BodyStart | server/utils/pdfParser.js:89-91 | the group body is read after the term line, or one line later exactly when the next line also matches the term pattern |
| Scanner.IsTermLine | server/utils/pdfParser.js:80 | `/^\d{4}\.\d/` holds of a line exactly when it starts with four digits, a dot and a digit (a predicate; `BodyStart` and `ReadGroup` state what follows from it) |
| Scanner.LineOr | server/utils/pdfParser.js:93-95 | `lines[k] || 'Não encontrado'` is never empty; it is the line when the line exists and is non-empty, and the sentinel otherwise |
| Scanner.DocenteOf | server/utils/pdfParser.js:110-113 | without the marker the instructor is the sentinel; with it, it is the trim of the line with the first occurrence of the marker cut out, so it is trimmed and shorter than the line by at least the marker |
| Scanner.ReadGroup | server/utils/pdfParser.js:80-81 | a component's term is the first token of its term line, and a component read at a term line is well formed |
| Scanner.GroupLayout | server/utils/pdfParser.js:89-115 | name, class and status come from the three lines after the (possibly repeated) term line; the four figures are found together exactly when the fourth body line matches, and then they are the four groups of that line's leftmost match; the instructor comes from the fifth body line only when it has the marker |
| Scanner.ReadAll | server/utils/pdfParser.js:115 | one component per term line read, in order |
| Scanner.Scan | server/utils/pdfParser.js:68-120 | the reference scan: the groups read at the term lines the scan reaches, from the seeking state with no term seen (its properties are `ScanProperties`) |
| Scanner.Starts | server/utils/pdfParser.js:72-120 | the lines the scan reads as term lines lie ahead of its position and match the term pattern |
| Scanner.StartsSkipMarkers | server/utils/pdfParser.js:75-80 | a marker line is never read as a term line, because the marker test comes first |
| Scanner.StartsGaps | server/utils/pdfParser.js:89-117 | each term line read is at least six lines after the previous one |
| Scanner.StartsAfterMarker | server/utils/pdfParser.js:70-80 | from the seeking state, every term line read has a marker line before it |
| Scanner.ReadAllSnoc | server/utils/pdfParser.js:115 | reading one more term line appends exactly its component |
| Scanner.TermAdvance | server/utils/pdfParser.js:80-118 | the term lines read so far, followed by this one, followed by those read from six lines after the group start, are all the term lines of the scan |
| Scanner.TermInvariant | server/utils/pdfParser.js:80-118 | reading a group keeps the loop's account: the components so far are those of the term lines read so far, and those plus the rest of the scan are all of it |
| Scanner.TermStep | server/utils/pdfParser.js:80-118 | at a term line within the two-term limit, the scan reads it and resumes six lines after the group start, with the term recorded |
| Scanner.MarkerStep | server/utils/pdfParser.js:75-78 | a marker line switches the scan to collecting, even while already collecting, and is never read as a term |
| Scanner.SkipStep | server/utils/pdfParser.js:72-80 | any other line is passed over without changing the scan state |
| Scanner.StopStep | server/utils/pdfParser.js:84-86 | a term beyond two distinct ones ends the scan |
| Scanner.PeriodsPrepend | server/utils/pdfParser.js:118 | the terms of a component list with one component in front are that component's term plus the terms of the rest |
| Scanner.PeriodsOfReadAll | server/utils/pdfParser.js:81-118 | the terms of the components read are the first tokens of their term lines |
| Scanner.TermsBoundStep | server/utils/pdfParser.js:84-118 | reading one more group adds exactly its term to the terms so far |
| Scanner.StartsTermsBound | server/utils/pdfParser.js:70-118 | counting the terms already seen, the scan never holds more than two distinct terms |
| Scanner.ScanAtMostTwoTerms | server/utils/pdfParser.js:84-86 | the components carry at most two distinct terms |
| Scanner.GapsAccumulate | server/utils/pdfParser.js:117 | term lines at least six apart after line 1 put the k-th at line 1 + 6k or later |
| Scanner.ScanCount | server/utils/pdfParser.js:117 | there are at most (number of lines + 4) / 6 components |
| Scanner.ScanNeedsMarker | server/utils/pdfParser.js:75-80 | a non-empty component list implies that some line holds the section marker |
| Scanner.ScanWellFormed | server/utils/pdfParser.js:80-107 | every component has a term token and its four figures together, in their shapes, or all four sentinel |
| Scanner.ScanProperties | server/utils/pdfParser.js:68-120 | the components of the scan carry at most two terms, are well formed, number at most (lines + 4) / 6, and do not exist without a marker line |
| Scanner.ScanComponents | server/utils/pdfParser.js:68-120 | the loop computes exactly the reference scan, so the properties above hold of its result |
| Scenarios.FiguresOfTypicalLine | server/utils/pdfParser.js:100 | "MAT1011085.030.075.00" splits into "MAT1011", "085.03", "0.0" and "75.00"; the dots leave only this split |
| Scenarios.CourseBlockOfEmptyBlock | server/utils/pdfParser.js:29-31 | an empty course-data section directly followed by the institution heading, a line and the heading again yields the heading and that line as the block, not an empty block |
| PdfParser.ExtractDataFromText | server/utils/pdfParser.js:2-124 | the record is the header fields plus the reference scan of the text's lines; there are no components without the marker in the text; otherwise the components carry at most two terms, are well formed, and are bounded in number |

## Left out

- The rest of the repository: the Express server, routes, controller, upload middleware, database models and the React front end. They do I/O or rendering and hold no extraction logic.
- `server/controllers/historicoController.js` imports the module object rather than the function it exports. That wiring lies outside the extractor and is not part of this model.
- The PDF-to-text step is not modelled. The model starts from the extracted text, as the function does.
- Floating point is not involved. Every value stays a string, as in the source.
- Header.DecimalValueFrom: states the shape and provenance of a found value; the if-and-only-if for "not found" and the leftmost clause are stated in `DecimalValueFromNone` and `DecimalValueFromLeftmost`, and only for keys whose literal pieces start with non-whitespace, which every key of the record does. For a key piece led by whitespace the greedy `\s*` before it could take whitespace the piece needs, and backtracking is not modelled for that case.
- Header.ExtractHeader: the name is only stated to be trimmed, not single-line, because `[A-Z\s]` admits newlines and the name can run over several lines of the text.
- Any regular-expression behaviour beyond the patterns of this function, such as flags, Unicode case folding or `lastIndex`, is not used by the source and not modelled.
