# Address normaliser, modelled in Dafny

`soln.py` reads address files in three formats and writes one list of
address records, sorted by zip code. This project models how it turns each
format into records and how it merges them:

- **Markup files** (`parse_xml`). Each `ENT` element becomes one record.
  - NAME or COMPANY decides between a person and an organisation.
  - STREET, STREET_2 and STREET_3 are joined into one street.
  - The postal code is cut at its first `" -"`.
  - COUNTRY is kept only when it is not blank.
- **Tab-separated files** (`parse_tsv`). Each row becomes one record.
  - An `organization` value of `N/A` marks a person. Their name is built
    from the non-blank `first`, `middle` and `last` columns.
  - `zip4` extends the zip to ZIP+4.
  - `county` is kept unless the raw value is empty.
- **Plain-text files** (`parse_txt`). The file is split into blocks on blank
  lines. Each block is read by line position:
  - a name line;
  - a street line;
  - an optional county line, recognised by the word `COUNTY`;
  - a `city, state zip` line.
- **The run** (`main`).
  - Each path is routed by its suffix.
  - Paths with other suffixes are skipped.
  - The records are concatenated in argument order.
  - The result is stable-sorted by the `zip` string, with `"99999"` standing
    in for a missing zip.
  - Any failure while reading or normalising a file aborts the whole run.

Every Python exception the source can raise on malformed input is modelled as
a `Failure` value of the `Records.Error` datatype:
- `AttributeError` on a missing element or on an element without text;
- `KeyError` on a missing column;
- `IndexError` on a missing line, comma part or token.

The string operations the source uses are defined once in module `Strings`,
each with its Python meaning:
- `strip` (`Trim`);
- `in` (`Contains`);
- `split(sep)` (`Split`);
- `sep.join` (`Join`);
- `replace(pat, '')` (`RemoveAll`);
- `endswith` (`EndsWith`);
- `filter(None, ...)` (`NonEmpty`).

Each operation has a lemma that ties it to a reference definition, an
inverse or a composition law:
- `Split` and `Join` undo each other;
- `RemoveAll` for a single character equals the `Without` filter;
- `NonEmpty` distributes over concatenation;
- `Join` of two lists is the two joins around one separator.

The modules follow the program:

| Module | Models |
|---|---|
| `Wrappers` | `Result` and `Option` |
| `Strings` | the string operations |
| `Records` | the record and error types |
| `Markup` | `parse_xml` |
| `Tabular` | `parse_tsv` |
| `BlockText` | `parse_txt` |
| `Ordering` | the final sort |
| `Aggregator` | the loop in `main` |

Reading files, the XML library and the CSV reader are parameters of the
model, in `Aggregator.Sources`:
- a markup file arrives as its sequence of `ENT` entities, each given by what
  `find` returns for each child tag;
- a tab-separated file arrives as its rows, as column-to-value maps;
- a text file arrives as its content.

## Behaviour worth knowing

The model follows the code in each case below. Each item names the line of
`soln.py` it comes from.

- **Blank text file** (soln.py:71). `strip().split('\n\n')` turns an empty
  or whitespace-only `.txt` file into one empty block, not into no blocks.
  Reading that block's street line raises `IndexError`, so the run fails
  (`BlockText.BlankTextFails`).
- **COUNTRY** (soln.py:35-36). The comment at line 35 calls the country
  optional "if it's included". The code reads `.text` on the result of
  `find`, so an entity without a COUNTRY element fails. The same holds for
  NAME and COMPANY (soln.py:15-16).
- **Empty STREET_2 or STREET_3** (soln.py:25-26). An element with no text
  fails when it is stripped. Only a missing element is skipped.
- **Blank STREET** (soln.py:27). The stripped STREET always takes the first
  place in the join, even when it is "". A blank STREET with a kept STREET_2
  gives a street with a leading space, such as " Suite 5"
  (`Markup.BlankStreetLeadingSpace`).
- **Blank NAME and COMPANY** (soln.py:19-22). An entity with both blank gets
  neither a `name` nor an `organization` key
  (`Markup.BlankIdentityGivesNeither`).
- **TSV `organization`** (soln.py:51). The value is copied without
  stripping.
- **TSV `county`** (soln.py:58). Presence is decided on the raw value, before
  stripping. A county of only spaces therefore gives a `county` key holding
  "". A row without a `county` column fails.
- **TSV `zip4`** (soln.py:61-62). Presence is also decided on the raw value.
  A `zip4` of only spaces gives a zip ending in a bare hyphen
  (`Tabular.BlankZip4KeepsHyphen`).
- **Two spaces between state and zip** (soln.py:88-90). The text format's
  state and zip are the first two tokens of a split on single spaces. Two
  spaces between them give an empty zip (`BlockText.DoubleSpaceEmptyZip`).
- **County marker** (soln.py:83). The marker is removed in a single
  left-to-right pass, so a new `COUNTY` formed by the removal stays
  (`Strings.CountyRemovedOnce`).
- **Three line breaks between blocks** (soln.py:71). `split('\n\n')` cuts
  at the first of two overlapping blank-line separators, so the next block
  starts with a line break and its first line is empty
  (`Strings.SplitOverlappingBlankLine`).

## Model

| member | source | states |
|---|---|---|
| Wrappers.Traverse | soln.py:13-41 | A per-item loop that appends one result per item succeeds exactly when every item succeeds. It then keeps the items' results in order. Otherwise it fails with the error of the first failing item, and every item before that one succeeded. |
| Strings.Trim | soln.py:15 | `strip()` gives a string that neither starts nor ends with whitespace and is no longer than its input. |
| Strings.TrimIsMiddle | soln.py:15 | What `strip()` keeps is a contiguous slice of the input, with only whitespace before and after it. |
| Strings.TrimOfTrimmed | soln.py:20 | Stripping a string that is already stripped changes nothing. |
| Strings.TrimIdempotent | soln.py:20 | Stripping twice is the same as stripping once, so the second `strip()` of a NAME has no effect. |
| Strings.TrimKeepsAbsent | soln.py:87-90 | Stripping never introduces a character, so a comma-free or space-free token stays so. |
| Strings.Find | soln.py:76 | The search behind `in` finds the first index where the pattern occurs. It finds none exactly when the pattern occurs nowhere. |
| Strings.ContainsChar | soln.py:76 | `',' in line` is membership of the character in the line. |
| Strings.Split | soln.py:73 | `split(sep)` always gives at least one piece, and no piece contains the separator. The first piece ends exactly where the first occurrence of the separator begins, or is the whole string when there is none. Joining the pieces with the separator gives back the input. |
| Strings.SplitRest | soln.py:71-73 | After the first piece, the remaining pieces are the split of the text that follows the first separator. |
| Strings.SplitOverlappingBlankLine | soln.py:71 | For `a` and `b` without line breaks, splitting `a` + "\n\n\n" + `b` on "\n\n" cuts at the first blank line and gives `a` and "\n" + `b`. |
| Strings.Join | soln.py:27 | Joining no parts gives "", and joining one part gives that part. |
| Strings.JoinAppend | soln.py:55 | Joining two non-empty lists is the first join, one separator, then the second join. |
| Strings.Contains | soln.py:76 | `pat in s` holds exactly when the pattern occurs at some index of `s`. |
| Strings.EndsWith | soln.py:109-113 | A string that ends with a suffix is some text followed by that suffix. |
| Strings.EndsWithAppend | soln.py:109-113 | Any text followed by a suffix ends with that suffix. |
| Strings.SplitJoinChar | soln.py:73 | Joining lines that lack the separator and splitting again gives back exactly those lines. |
| Strings.SplitPiecesLack | soln.py:88 | No piece of a split holds a character that the split string lacks. |
| Strings.RemoveAllIsSplitJoin | soln.py:83 | `replace(pat, '')` equals splitting on the pattern and joining the pieces with nothing between them. |
| Strings.RemoveCharIsWithout | soln.py:77 | `replace(',', '')` removes exactly the commas and keeps every other character in order. |
| Strings.RemoveCharRemoves | soln.py:77 | No comma is left after `replace(',', '')`. |
| Strings.RemoveAllSinglePass | soln.py:83 | A single left-to-right pass can leave a new occurrence: when the first occurrence is the middle one of `x + pat + y`, with `pat == x + y`, the result is `pat`. |
| Strings.CountyRemovedOnce | soln.py:82-83 | "COUCOUNTYNTY" loses its inner "COUNTY" and still reads "COUNTY". |
| Strings.NonEmpty | soln.py:55 | `filter(None, ...)` keeps exactly the non-empty strings. |
| Strings.NonEmptySingle | soln.py:55 | A single string is kept exactly when it is not empty. |
| Strings.NonEmptyAppend | soln.py:55 | Filtering a concatenation is filtering each part and concatenating, so the kept strings keep their order and their repeats. |
| Strings.JoinNonBlankTrimmed | soln.py:53-55 | Joining the non-empty stripped names with single spaces gives a stripped string. It is empty exactly when every name is empty. |
| Markup.LenientText | soln.py:15-16 | NAME, COMPANY: fails exactly when the element is missing. Otherwise it gives the stripped text, with "" for an element without text. |
| Markup.StrictText | soln.py:30-32 | STREET, CITY, STATE, POSTAL_CODE: succeeds exactly when the element exists and has text, and then gives the stripped text. |
| Markup.ExtraStreet | soln.py:25-26 | STREET_2 and STREET_3 fail exactly when the element exists without text. A line is kept exactly when its stripped text is not blank, and it is kept stripped. |
| Markup.CleanPostalCode | soln.py:33 | The cleaned postal code is a prefix of the code with no " -" in it. It ends where the first " -" begins, and it is the whole code when there is none. |
| Markup.CleanPostalCodeIdempotent | soln.py:33 | Cleaning a cleaned postal code changes nothing. |
| Markup.CleanPostalCodeCut | soln.py:33 | A code made of a base without " -", then " -", then anything, is cleaned to the base; for example "12345 -6789" becomes "12345". |
| Markup.NormalizeEntity | soln.py:14-40 | The entity succeeds exactly when it is `Readable`. The record then has at most one of name and organisation: the name when NAME is not blank, otherwise the company when COMPANY is not blank. The street is the stripped STREET followed by the non-blank extra lines, separated by single spaces. The zip is the cleaned postal code. County is absent, and country is present exactly when not blank. |
| Markup.ParseEntities | soln.py:12-41 | A document succeeds exactly when every entity is readable. It then gives one record per entity, in document order. |
| Markup.ParsedEntitiesHaveOneIdentityAtMost | soln.py:19-22 | No record from a markup file has both a name and an organisation. |
| Markup.BlankIdentityGivesNeither | soln.py:15-22 | A readable entity with blank NAME and COMPANY yields a record with neither key. |
| Markup.BlankStreetLeadingSpace | soln.py:25-27 | A readable entity with a blank STREET and a non-blank STREET_2 gets a street that is a space followed by the kept extra lines. |
| Tabular.Column | soln.py:50 | `row[col]` fails exactly when the row lacks the column. |
| Tabular.FullName | soln.py:53-55 | A person's name is a stripped string. It is empty exactly when first, middle and last are all blank. |
| Tabular.FullNameWords | soln.py:53-55 | When no stripped name part contains a space, the words of the name are the non-empty stripped parts in the order first, middle, last. |
| Tabular.PersonName | soln.py:52-55 | The name succeeds exactly when the row has all three name columns. |
| Tabular.County | soln.py:58 | A row without a county column fails. Otherwise county is present exactly when the raw value is not "", and it holds the stripped value. |
| Tabular.ZipPlus4 | soln.py:61-62 | An empty raw zip4 gives the stripped zip. Any other zip4 gives the stripped zip, a hyphen, then the stripped zip4. |
| Tabular.Zip | soln.py:61-62 | The zip succeeds exactly when both zip columns exist, and follows the ZIP+4 rule. |
| Tabular.NormalizeRow | soln.py:49-64 | A row succeeds exactly when it has the columns the loop reads. `N/A` gives a person's name and no organisation. Any other value is copied verbatim as the organisation. Street, city and state are stripped. County follows the raw-value test. The zip follows the ZIP+4 rule, and there is no country. |
| Tabular.ParseRows | soln.py:45-65 | A file succeeds exactly when every row does. It then gives one record per row, in order. |
| Tabular.NoRowsNoRecords | soln.py:45-65 | A file with no data rows contributes no records. |
| Tabular.ZipPlus4OfStripped | soln.py:61-62 | On stripped values, ZIP+4 is zip, hyphen, zip4, and an empty zip4 leaves the zip alone. |
| Tabular.BlankZip4KeepsHyphen | soln.py:61-62 | A zip4 of only whitespace still adds the hyphen and nothing after it. |
| Tabular.ParsedRowsHaveOneIdentityAtMost | soln.py:50-55 | No record from a tab-separated file has both a name and an organisation. |
| BlockText.NameFromLine | soln.py:75-79 | The name has no comma. A line with commas loses exactly its commas and is not stripped. A line without commas is stripped. |
| BlockText.ParsePlace | soln.py:84-90 | The line succeeds exactly when it has a comma and the stripped text after it holds a space. The city is the stripped text before the first comma. State and zip are the first two space-separated tokens after it. All three are stripped and comma-free, and state and zip contain no space. |
| BlockText.ParseBlock | soln.py:73-92 | A block succeeds exactly when its lines fit the layout, and the record has the text-record shape. Name and street come from lines 1 and 2. County is present exactly when line 3 mentions COUNTY. City, state and zip then come from line 4, otherwise from line 3. |
| BlockText.Blocks | soln.py:71 | There is at least one block and no block contains a blank line. There is one block exactly when the stripped content has no blank line. Otherwise the first block ends where the first blank line begins. The blocks joined with blank lines give back the stripped file content. |
| BlockText.ParseText | soln.py:69-93 | A text file succeeds exactly when every block fits the layout. It then gives one record per block, in order. |
| BlockText.ParsedTextShaped | soln.py:72-92 | Every record of a text file has a comma-free name, no organisation or country, and stripped fields. |
| BlockText.BlankTextFails | soln.py:71-81 | An empty or whitespace-only text file fails. |
| BlockText.BlockOfLines | soln.py:73 | A block built from lines without line breaks splits back into exactly those lines. |
| BlockText.CountyLineShifts | soln.py:82-84 | With a COUNTY line, the county is that line without "COUNTY", stripped. City, state and zip come from the next line. |
| BlockText.NoCountyLine | soln.py:85-86 | Without a COUNTY line there is no county, and city, state and zip come from the third line. |
| BlockText.DoubleSpaceEmptyZip | soln.py:88-90 | For single words, "city, state  zip" with two spaces gives that city and state and an empty zip. |
| Ordering.LexLe | soln.py:124 | When the smaller string is not empty, the larger is not empty either and its first character is at least as large. |
| Ordering.LexLeIsLexicographic | soln.py:124 | String `<=` holds exactly when the first string is a prefix of the second, or is smaller at the first position where they differ. |
| Ordering.SortKey | soln.py:124 | The key is the record's zip when it has one, and "99999" otherwise. |
| Ordering.LexLeTotal | soln.py:124 | Any two zip strings are comparable. |
| Ordering.LexLeTransitive | soln.py:124 | The string order is transitive. |
| Ordering.LexLeAntisymmetric | soln.py:124 | Two strings that are each at most the other are equal. |
| Ordering.Insert | soln.py:124 | Inserting into a sorted sequence keeps it sorted and adds exactly the one record. |
| Ordering.SortByZip | soln.py:124 | The sort yields a permutation of its input, ordered by zip, with "99999" for a missing zip. |
| Ordering.SortStable | soln.py:124 | For every zip, the records with that zip keep their input order. |
| Ordering.SortOfSorted | soln.py:124 | An already sorted list is left unchanged, so sorting is idempotent. |
| Ordering.SortExample | soln.py:124 | Zips compare as strings: "10001-0001", "30301" and "90210" come out in that order from the input order "30301", "10001-0001", "90210". |
| Aggregator.FormatOf | soln.py:109-118 | The format is xml, tsv or txt exactly when the path ends in that suffix, checked in that order. Otherwise it is unsupported. |
| Aggregator.ParseFile | soln.py:108-118 | An unsupported path contributes no records and cannot fail. A supported path fails when its reader fails, and otherwise gives what its parser gives. |
| Aggregator.MergeAll | soln.py:106-121 | The merge succeeds exactly when every item parses. Otherwise it reports the first failing item's error. |
| Aggregator.MergeAppend | soln.py:107-114 | Merging two lists in turn gives the first list's records followed by the second's. |
| Aggregator.Collect | soln.py:106-121 | The paths merge exactly when every file parses. Otherwise the first failing file's error is reported. |
| Aggregator.CollectAppend | soln.py:107-114 | The records of `p + q` are those of `p` followed by those of `q`. |
| Aggregator.CollectSingle | soln.py:107-121 | One path alone gives exactly its file's result. |
| Aggregator.UnsupportedSkipped | soln.py:115-118 | Dropping the unsupported paths changes neither the records nor the outcome. |
| Aggregator.Run | soln.py:106-124 | The run succeeds exactly when every file parses. The output is then a permutation of the merged records, sorted by zip, with records of equal zip in merge order. |
| Aggregator.FileOneIdentity | soln.py:108-114 | No record of a file that parses has both a name and an organisation, whatever its format. |
| Aggregator.MergeOneIdentity | soln.py:106-114 | When every file's records have at most one identity, so do the merged records. |
| Aggregator.RunAtMostOneIdentity | soln.py:106-124 | No record of a successful run has both a name and an organisation. |
| Aggregator.NothingSupportedNothingOut | soln.py:106-124 | With only unsupported paths the run succeeds with no records. |

## Left out

- Command-line parsing: `argparse` already demands at least one file, so
  the later empty-list check never fires.
- Messages written to standard error, and the exit status. A failing file is
  `Failure(e)`, and the exception's text is not modelled.
- Writing `output.json`. The JSON encoding and the key order of each
  dictionary are not modelled. A record is a datatype with one optional field
  per key.
- The XML parser, the `.//ENT` search and `find`'s choice among repeated
  children. An entity is given as what `find` returns for each tag.
- The CSV reader: dialect, quoting, and reading the header are not modelled.
  A row is given as a column-to-value map.
- Tabular.NormalizeRow: a row shorter than the header makes the reader fill
  the missing columns with `None`. The model treats such a column as absent,
  so the row fails. The source can instead carry `None` into the
  organisation, or skip the hyphen for a `None` zip4.
- Opening and decoding files, and the newline translation of text mode. A
  text file is given as its content after that translation.
- Strings.Trim: strips only space, tab, line feed, carriage return, vertical
  tab and form feed. Python also strips the ASCII separators `\x1c`-`\x1f` and
  Unicode whitespace.
- Strings.RemoveAll: its own contract gives only a length bound. Its meaning
  is stated by `Strings.RemoveAllIsSplitJoin` and
  `Strings.RemoveCharIsWithout`.
