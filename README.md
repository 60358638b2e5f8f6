# ingestion_game in Dafny

`ingestion_game` reads lines of loosely structured `key=value,key=value` text.
It checks each line against a typed schema of important keys and writes the
surviving records as CSV, grouped by a caller-given hierarchy of entity types.
The repository does this twice:

- `core.py` and `models.py` define an `IngestionEngine` with a `Schema` built
  by `Schema.from_string`. It tokenizes each line, validates and coerces it
  (`int`, `float`, `str`, `bool`), buffers the accepted `Entity` values, and
  sorts them with a stable `sorted` keyed by hierarchy rank, so types outside
  the hierarchy come last.
- `src/ingestion_game/cli.py` is a stand-alone filter. `parse_schema`,
  `is_valid` and its own `parse_line` feed a `main` that fills one bucket per
  hierarchy type in input order and writes the buckets in hierarchy order. It
  drops types outside the hierarchy.

The model follows the program's structure. Each Python `for` loop is a
Dafny method with loop invariants. Each method is proved equal to a
specification function. That function is a fold over the input where the
loop accumulates: `parse_line`, `from_string`, `parse_schema`,
`process_file`, and the grouping loop of `main`. Otherwise it is a plain
description of the result: a map comprehension for `validate_and_convert`,
a quantifier for the `ok` loop of `main`, and concatenation for the writing
loops. The Python comprehensions have no loop state, so they are functions:
`hierarchy_map`, `keys_order`, `types_order`, `parse_line`'s fragment list
and `to_csv_row`'s generator. The properties are proved as lemmas about the
specification functions.

| file | module | models |
|---|---|---|
| `wrappers.dfy` | `Wrappers` | `Option`, `Result`, and `Somes`, which keeps the values of the `Some` entries |
| `text.dfy` | `Text` | the `str` builtins the program uses: `isspace`/`strip`, `split`, `split(c, 1)`, `join`, `int()` on decimal text, `str(int)` |
| `models.dfy` | `Models` | `Schema` (an insertion-ordered dict), `Schema.from_string`, `Entity`, `Entity.to_csv_row` |
| `hierarchy.dfy` | `Hierarchy` | the rank map of a hierarchy, Python's stable `sorted` by a key, the bucket concatenation of `cli.py`, and how these relate |
| `fragments.dfy` | `Fragments` | the `key=value` fragment fold that both `parse_line` functions share |
| `core.dfy` | `Core` | the `IngestionEngine` class: its constructor, `parse_line`, `validate_and_convert`, the loop of `process_file`, `get_sorted_entities`/`sort_key`, and the lines `output_results` prints |
| `cli.dfy` | `Cli` | `parse_schema`, `is_valid`, `parse_line`, and the filter/group/emit logic of `main` |
| `variants.dfy` | `Variants` | lemmas that compare the two implementations on the same input |

## Model

| member | source | states |
|---|---|---|
| Text.StripSpec | ingestion_game/core.py:17-18 | `strip()` never lengthens its text and leaves no whitespace at either end; it leaves nothing exactly when the line is all whitespace |
| Text.SplitFirst | ingestion_game/core.py:27 | `split(c, 1)` gives the text before the first `c` and the rest, and the first part contains no `c` |
| Text.Split | ingestion_game/core.py:24 | `split(sep)` always returns at least one part, and no part contains the separator |
| Text.SplitJoin | ingestion_game/models.py:48 | splitting a join of separator-free parts gives back the same parts |
| Text.IntRoundTrip | ingestion_game/core.py:47-48 | `int(str(i)) == i` for every integer `i` |
| Hierarchy.RankMap | ingestion_game/core.py:9 | `hierarchy_map` has exactly the hierarchy's labels as keys; each key maps to a position holding that label, and to its LAST position when the label repeats |
| Hierarchy.SortByKeySpec | ingestion_game/core.py:103 | `sorted(..., key=...)` returns a permutation that is ordered by key; each key's elements keep their input order (stability) |
| Hierarchy.SortStable | ingestion_game/core.py:103 | for every key, the elements with that key appear in the sorted result in their input order |
| Hierarchy.SortVersusBuckets | ingestion_game/core.py:91-103 | with distinct labels, the rank sort equals the hierarchy buckets in hierarchy order, followed by the unknown-type elements in input order |
| Hierarchy.UnknownKeptLast | ingestion_game/core.py:95-103 | under rank infinity, unknown types are kept: they come after every known type, in their input order |
| Hierarchy.BucketsOfLabel | ingestion_game/src/ingestion_game/cli.py:95-97 | the concatenated buckets hold each label's elements in input order, once for every time the label appears in the order |
| Hierarchy.BucketsMembers | ingestion_game/src/ingestion_game/cli.py:94-97 | every emitted element is an input element whose label appears in the order |
| Hierarchy.BucketsOrdered | ingestion_game/src/ingestion_game/cli.py:94-97 | with distinct labels, the buckets are a sub-multiset of the input, ordered by hierarchy position |
| Fragments.CollectKeys | ingestion_game/core.py:24-28 | a key is collected exactly when some fragment contains `=` and names that key; fragments without `=` add nothing |
| Fragments.CollectLastWins | ingestion_game/core.py:28 | when a key repeats within a line, the value of its last fragment wins |
| Fragments.FragmentAtFirstEquals | ingestion_game/core.py:27-28 | a fragment splits at its first `=`: the value keeps every later `=`, and key and value are trimmed |
| Fragments.FragmentOfStripped | ingestion_game/src/ingestion_game/cli.py:42-46 | whitespace around a fragment changes neither whether it has `=` nor its trimmed key and value |
| Core.ParsedLineNone | ingestion_game/core.py:17-21 | `parse_line` returns `None` exactly for a line that is blank after stripping, and a possibly empty dict otherwise |
| Core.Validated | ingestion_game/core.py:36-63 | a record is accepted exactly when every schema key is present and converts, and `type` is a `str` (or `bool`) field; the entity then has exactly the schema's keys, and its type is the raw `type` value |
| Core.ValidatedValues | ingestion_game/core.py:46-52 | an accepted `int` field holds the parsed integer; a `str` or `bool` field holds the raw text verbatim |
| Core.IntMismatchRejects | ingestion_game/core.py:46-55 | an `int` field whose text is not a decimal integer rejects the record |
| Core.EmptyRawRejected | ingestion_game/core.py:39-43 | the empty dict is always rejected, so the `if raw_data:` test changes no outcome |
| Core.AcceptAllMembers | ingestion_game/core.py:71-76 | the buffer receives only entities that some line yields, every such entity, and at most one per line |
| Core.AcceptAllAppend | ingestion_game/core.py:71-76 | reading two inputs one after the other buffers the same as reading their concatenation, in input order |
| Core.BlankLineSkipped | ingestion_game/core.py:72-73 | a blank line contributes nothing: removing it changes nothing |
| Core.IngestionEngine.constructor | ingestion_game/core.py:6-10 | the engine keeps its schema and hierarchy, its rank map is `hierarchy_map`, and its buffer starts empty |
| Core.IngestionEngine.ParseLine | ingestion_game/core.py:12-29 | the loop fills `raw_data` as the fragment fold specifies; it returns `None` exactly for a blank line |
| Core.IngestionEngine.ValidateAndConvert | ingestion_game/core.py:31-63 | the loop with its early returns computes `Validated` |
| Core.IngestionEngine.AcceptOne | ingestion_game/core.py:72-76 | one line yields the entity that parsing and validation accept, and nothing for a blank line or an empty dict |
| Core.IngestionEngine.ProcessLines | ingestion_game/core.py:65-76 | the loop appends exactly the accepted entities of the lines to the buffer, in input order, and keeps the engine consistent |
| Core.IngestionEngine.GetSortedEntities | ingestion_game/core.py:91-103 | the result is a permutation of the buffer sorted by rank. It is stable within each rank. Unknown types come last, in buffer order |
| Core.IngestionEngine.OutputLines | ingestion_game/core.py:105-121 | the printed lines are the header (the schema keys joined by `,`), then one `to_csv_row` per sorted entity, unknown types included |
| Models.TypeNamed | ingestion_game/models.py:16-21 | `type_map` knows exactly `int`, `str`, `float` and `bool` |
| Models.FieldOfAtFirstColon | ingestion_game/models.py:26-32 | a typed fragment splits at its first `:`, so later `:` stay in the type name; key and type name are trimmed; a known name gives its type, and an unknown one fails with `Unsupported type: ` and the trimmed name |
| Models.UntypedFragmentField | ingestion_game/models.py:33-35 | a fragment without `:` declares, or retypes, the `str` field named by the trimmed fragment |
| Models.FieldsOfValid | ingestion_game/models.py:23-35 | a successful parse is a consistent ordered dict: distinct names, and exactly those names typed |
| Models.FromString | ingestion_game/models.py:12-37 | the `from_string` loop computes the fragment fold, and a successful result is a consistent schema |
| Models.FieldsOfFailure | ingestion_game/models.py:30-31 | `ValueError` is raised exactly when some fragment has an unknown type name |
| Models.FirstBadFragment | ingestion_game/models.py:25-31 | the `ValueError` is that of the first fragment with an unknown type |
| Models.FieldOrder | ingestion_game/models.py:23-35 | field order is the order of first occurrence of each key |
| Models.LastTypeWins | ingestion_game/models.py:32 | a repeated key takes the type of its last fragment |
| Models.EmptyFragmentField | ingestion_game/models.py:33-35 | an empty fragment, as a trailing comma leaves, declares the `str` field named by the empty string, appended at the end |
| Models.CsvCells | ingestion_game/models.py:47-48 | one cell per header, in header order: the rendered value, or `''` for a missing key |
| Models.CsvRowSplits | ingestion_game/models.py:47-48 | when no cell contains a comma, the row splits back into exactly its cells |
| Cli.ParseSchema | ingestion_game/src/ingestion_game/cli.py:19-28 | the `parse_schema` loop computes the fragment fold, including its exit |
| Cli.SchemaFailure | ingestion_game/src/ingestion_game/cli.py:24-25 | `parse_schema` exits exactly when some non-blank fragment lacks `:`; the message names the first such fragment, stripped |
| Cli.SchemaPairs | ingestion_game/src/ingestion_game/cli.py:20-27 | otherwise it returns the trimmed first-`:` split of every non-blank fragment in fragment order, and skips the blank ones |
| Cli.SchemaRoundTrip | ingestion_game/src/ingestion_game/cli.py:19-28 | fields written as `k:t,k:t,...` parse back to the same fields, in order |
| Cli.IsValidInt | ingestion_game/src/ingestion_game/cli.py:30-38 | `str(i)` of any integer is a valid `int` value |
| Cli.ParseLine | ingestion_game/src/ingestion_game/cli.py:40-47 | the loop fills `d` by the fragment fold over the stripped non-blank fragments |
| Cli.LineFieldsKeys | ingestion_game/src/ingestion_game/cli.py:42-46 | a key of the parsed line comes from a fragment that has `=`, and every such fragment contributes its key |
| Cli.NonBlankMembers | ingestion_game/src/ingestion_game/cli.py:42 | the fragment list holds exactly the stripped non-blank fragments |
| Cli.NonEmptyMembers | ingestion_game/src/ingestion_game/cli.py:59 | `types_order` holds exactly the non-empty hierarchy labels |
| Cli.CheckRow | ingestion_game/src/ingestion_game/cli.py:82-88 | the `ok` loop with its `break` is true exactly when every schema key is present and valid |
| Cli.Group | ingestion_game/src/ingestion_game/cli.py:72-90 | after the loop, `grouped` has one entry per hierarchy type, holding the values of that type's kept lines in input order |
| Cli.WriteRows | ingestion_game/src/ingestion_game/cli.py:96-97 | the inner loop writes every value list of a type, in order, after the rows already written |
| Cli.Emit | ingestion_game/src/ingestion_game/cli.py:94-97 | the writing loops emit the header, then each type's rows in `types_order` |
| Cli.Run | ingestion_game/src/ingestion_game/cli.py:57-97 | `main` exits with the `parse_schema` message on a bad schema; otherwise it writes the header, then the concatenated buckets |
| Cli.KeptValues | ingestion_game/src/ingestion_game/cli.py:74-90 | a line is kept exactly when it is non-blank, has the type field, its type is in the hierarchy and every schema key is present and valid. The kept values are listed in key order, and the `''` default never appears |
| Cli.KeptInHierarchy | ingestion_game/src/ingestion_game/cli.py:79-80 | every kept record has a hierarchy type |
| Cli.EmittedFromInput | ingestion_game/src/ingestion_game/cli.py:71-97 | every written row comes from an input line and has a hierarchy type |
| Cli.GroupsInInputOrder | ingestion_game/src/ingestion_game/cli.py:95-97 | each type's rows are written in input order, once for every time the type is listed |
| Cli.EmittedInHierarchyOrder | ingestion_game/src/ingestion_game/cli.py:94-97 | with no type listed twice, at most one row is written per input line, in hierarchy order |
| Variants.CollectNonBlank | ingestion_game/src/ingestion_game/cli.py:42 | dropping the blank fragments and stripping the others before the fold changes nothing |
| Variants.ParseLineAgrees | ingestion_game/src/ingestion_game/cli.py:40-47 | both `parse_line` functions read a non-blank line into the same dict; for a blank line `core.py` returns `None` and `cli.py` returns `{}` |
| Variants.ValidationDiffers | ingestion_game/src/ingestion_game/cli.py:30-38 | on non-empty `int` text, `is_valid` agrees with `core.py`'s coercion; `is_valid` rejects `''` for every type but accepts any non-empty `float` text, whereas `core.py` accepts `''` for `str` and `bool` fields |
| Variants.GroupingIsRankSort | ingestion_game/src/ingestion_game/cli.py:94-97 | with distinct types, on the records `cli.py` keeps, its bucket emission equals `core.py`'s stable rank sort |

## Where the two implementations differ

`core.py` with `models.py` and `cli.py` do not treat the same input alike.
The model keeps each difference as the code has it:

- Types outside the hierarchy. `main` in `cli.py` drops them
  (`cli.py:79-80`). `core.py` keeps them and sorts them last, with rank
  infinity (`core.py:95-103`, `Hierarchy.UnknownKeptLast`).
- A schema fragment without `:`. `models.py` turns it, even an empty one,
  into a `str` field (`models.py:33-35`, `Models.UntypedFragmentField`,
  `Models.EmptyFragmentField`). `cli.py` skips blank fragments and exits only
  on a non-blank fragment without `:` (`cli.py:22-25`, `Cli.SchemaFailure`).
- An empty value. `is_valid` rejects `''` for every type (`cli.py:31-32`).
  `core.py` accepts it for `str` and `bool` fields (`core.py:51-52`,
  `Variants.ValidationDiffers`).
- A repeated hierarchy label. In `core.py` the label's last position is its
  rank (`core.py:9`, `Hierarchy.RankMap`). `cli.py` writes the label's bucket
  once per occurrence, so the output can have more rows than there are
  input lines (`cli.py:95-97`, `Cli.GroupsInInputOrder`).

## Left out

- Reading the input is not modelled: opening the file, `FileNotFoundError`, `sys.exit`, stdin and `rstrip('\n')`. Each operation takes a `seq<string>` of lines instead; since every line is stripped before use, the trailing newline makes no difference.
- argparse is not modelled: `--keys`, `--hierarchy` and `--type-field` become parameters of `Cli.Run`, and `core.py`'s hierarchy is a given `seq<string>`.
- `print` and `csv.writer` quoting and escaping are not modelled: `Cli.Run` returns the rows as lists of cells, and `Core.IngestionEngine.OutputLines` returns the printed lines without writing them.
- `float()` is not interpreted. The engine takes a `parseFloat: string -> Option<string>` parameter: `None` is the `ValueError`, and `Some(t)` is the text `str(float(raw))` renders.
- Text.PyInt: accepts only an optional sign followed by ASCII digits, with whitespace around them. It does not accept the rest of Python's `int()` grammar (underscores between digits, non-ASCII digits). It also leaves out the limit on integer string conversion of recent CPython releases (3.11 and later, 3.10.7, 3.9.14). There, `int()` raises `ValueError` on a decimal text of more than 4300 digits, so `core.py` rejects such a record (`core.py:47-55`) and `is_valid` returns `False` (`cli.py:34-37`); the model accepts both. For the same reason, `Text.IntRoundTrip` does not hold in those releases for integers of more than 4300 digits, because there `str(i)` raises as well.
- Text.IsSpace: lists the characters Python's `str.isspace` accepts. No Unicode normalisation is modelled.
- `sort_key`'s `float('inf')` is the hierarchy's length, which is larger than every real rank and compares the same way.
- `ingestion_game_cli.py` is not part of this model; it only parses arguments and wires the engine together.
- `Cli.Run`: parses lines only with the fixed `,` delimiter that `main` uses; `Cli.ParseLine` itself takes any one-character delimiter.
