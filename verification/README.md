# Text, path and data-shaping rules of a small collection of Python tools

This Dafny project models the pure logic inside three small Python programs.

- **The xlsx converter** (`xlxs/converter.py`) does five things:
  - recognises Google Sheets links;
  - turns a share link into its xlsx export link, or raises `ValueError` when the link carries no sheet id;
  - sanitises file names (drops ten characters, strips whitespace, cuts to `max_len`);
  - names the output folder after the input;
  - names one CSV file per sheet.
- **The notepad tracker** (`notepad_tracker/app.py`) turns the `filename` field of a `/load` or `/save` request into a `.txt` file directly inside the notes folder.
- **The Northwind API** contributes two pieces:
  - the recursive `_serialize` of the order service, which turns PynamoDB model instances, objects, dicts, lists and tuples into plain JSON data;
  - `Config`, which reads three settings from the environment, and the `Meta` entries that `Config.pynamodb_meta_for` returns for a table name.

Modules:

- `Results`: `Option` and `Result`. A `Failure` carries the exception the Python code would raise.
- `PyText`: the parts of Python's `str` the programs rely on:
  - `isspace`;
  - `strip`;
  - the `in` substring test;
  - the slice `s[:n]`, negative `n` included;
  - a ghost notion of subsequence used to state that characters keep their order.
- `PosixPath`: the parts of `pathlib.PurePosixPath` used here: components, `name`, `suffix`, `stem` and `/`.
- `SheetsConverter`, `NotepadNames`, `OrderSerialize` and `NorthwindConfig`: one per program part.

The environment, the HTTP request body and the notes folder are parameters of the model.

## Model

| member | source | states |
|---|---|---|
| PyText.Strip | xlxs/converter.py:41 | `str.strip()` yields a contiguous slice of its input. It has no whitespace at either end, and everything cut off on either side is whitespace. |
| PyText.StripEmptyIffAllSpace | notepad_tracker/app.py:70-72 | Stripping leaves the empty string exactly when the text is all whitespace. |
| PyText.StripKeepsCounts | xlxs/converter.py:41 | Stripping never loses a non-whitespace character. |
| PyText.PyPrefix | xlxs/converter.py:42 | `s[:n]` is a prefix of `s`. Its length is `n` when `0 <= n <= len(s)`, `len(s) + n` for negative `n` down to `-len(s)`, and the whole string for `n >= len(s)`. It is empty below `-len(s)`. |
| PyText.Contains | xlxs/converter.py:11 | The `in` test is true exactly when the pattern occurs at some index. |
| PyText.FindFrom | xlxs/converter.py:11 | Substring search returns the first occurrence at or after the start, or -1 when there is none. |
| PosixPath.Name | xlxs/converter.py:46-50 | `Path.name` is the last of the path's named components, and it contains no `/`. It is empty exactly when the path has no named component. |
| PosixPath.Suffix | xlxs/converter.py:47 | The suffix is empty, or starts with the last `.` of the name. That dot is not the first character, and at least one character follows it. |
| PosixPath.Stem | xlxs/converter.py:48 | The stem followed by the suffix gives back the name. With a suffix, the stem is non-empty and shorter than the name. |
| PosixPath.SuffixAt | xlxs/converter.py:47-48 | A dot that is neither the first nor the last character, with no dot after it, starts the suffix. The stem is everything before it. |
| PosixPath.JoinComponents | xlxs/converter.py:69 | Joining a relative path appends its components to the base's components. |
| PosixPath.SingleComponentJoin | notepad_tracker/app.py:74 | Joining a single component to a directory gives the directory's components plus that one. Its name is the component. |
| SheetsConverter.IsGoogleSheetsUrl | xlxs/converter.py:10-11 | A link counts as a Google Sheets link exactly when `docs.google.com/spreadsheets` occurs in it. |
| SheetsConverter.FirstIdMatch | xlxs/converter.py:20 | `re.search` finds the leftmost `/d/` that an id character follows. No match means no such position exists. |
| SheetsConverter.IdRunEnd | xlxs/converter.py:20 | The greedy `+` runs to the first character that is not an id character, or to the end. |
| SheetsConverter.SheetId | xlxs/converter.py:20-23 | There is no id exactly when no `/d/` is followed by an id character. Otherwise the id is the non-empty maximal run after the leftmost such `/d/`. |
| SheetsConverter.ExportUrl | xlxs/converter.py:13-25 | Raises `ValueError("Couldn't find sheet ID in the Google Sheets URL.")` exactly when the link has no id. Otherwise returns `https://docs.google.com/spreadsheets/d/<id>/export?format=xlsx` for that id. |
| SheetsConverter.SheetIdOfExportLink | xlxs/converter.py:24 | The id read back from an export link is the id it was built from. |
| SheetsConverter.ExportUrlRoundTrip | xlxs/converter.py:10-25 | An export link is itself a Google Sheets link and carries the same sheet id. Converting it again gives the same link. |
| SheetsConverter.RemoveForbidden | xlxs/converter.py:40 | The `re.sub` result contains none of `\ / * ? < > \| : " '` and is no longer than its input. |
| SheetsConverter.RemoveForbiddenFixesClean | xlxs/converter.py:40 | A name without those characters passes through unchanged. |
| SheetsConverter.RemoveForbiddenCounts | xlxs/converter.py:40 | Each forbidden character disappears entirely. Every other character keeps its number of occurrences. |
| SheetsConverter.RemoveForbiddenKeepsOrder | xlxs/converter.py:40 | The surviving characters are a subsequence of the input. |
| SheetsConverter.Sanitize | xlxs/converter.py:38-42 | `sanitize_filename` returns a prefix of the name with the ten characters removed and the edges stripped. It has `max_len` characters when `0 <= max_len` and that many are available. It has `len + max_len` characters for a negative `max_len` down to `-len`, and none below that. It is the whole stripped name when `max_len` reaches its length. It is free of the ten characters and never starts with whitespace. |
| SheetsConverter.SanitizeIsPrefix | xlxs/converter.py:40-42 | The result is the first characters of the stripped substitution result, and their number is the one Python's slice gives for `max_len`. |
| SheetsConverter.SanitizeKeepsOrder | xlxs/converter.py:40-42 | The sanitised name is a subsequence of the original name. |
| SheetsConverter.SanitizeLosesOnlyForbiddenAndSpace | xlxs/converter.py:40-42 | When the cut does not bite (`max_len` is at least the length of the stripped, cleaned name), every character that is neither forbidden nor whitespace survives as often as it occurred. |
| SheetsConverter.SanitizeFixesCleanName | xlxs/converter.py:38-42 | A clean, trimmed name within `max_len` is returned unchanged. |
| SheetsConverter.SanitizeNotIdempotent | xlxs/converter.py:41-42 | Cutting after stripping can leave trailing whitespace. For example, `sanitize_filename("ab c", 3)` is `"ab "` and sanitising that again gives `"ab"`. |
| SheetsConverter.OutputDir | xlxs/converter.py:44-53 | The folder name is never empty and contains no `/`. With a suffix it is the stem. Without one it is the sanitised name, or `output` when that is empty. |
| SheetsConverter.DotDotXlsxIsCurrentDir | xlxs/converter.py:46-53 | For the input `..xlsx` the folder is `.`, the current directory. |
| SheetsConverter.SheetCsvName | xlxs/converter.py:66-68 | The CSV name is the sanitised sheet name plus `.csv`, or `Sheet.csv` when that name is empty. Its stem is non-empty, clean, at most 200 characters long and does not start with whitespace. |
| SheetsConverter.SheetCsvInOutputDir | xlxs/converter.py:67-69 | Every CSV file lands directly inside the output folder. Its name is one component and names the file. |
| NotepadNames.ReplaceSeparators | notepad_tracker/app.py:57 | Same length. Every `/` and `\` becomes `_`, and every other character stays at its position. |
| NotepadNames.Sanitize | notepad_tracker/app.py:55-57 | Each character of the stripped name is kept, except that `/` and `\` become `_`. So the result is as long as the stripped name and has no separators and no edge whitespace. It is empty exactly when the name is blank. |
| NotepadNames.SanitizeFilename | notepad_tracker/app.py:55-57 | `None` and blank names give the empty string. Any other name gives the sanitised string. |
| NotepadNames.SanitizeFixesSafeName | notepad_tracker/app.py:55-57 | A trimmed name without separators is returned unchanged. |
| NotepadNames.SanitizeIdempotent | notepad_tracker/app.py:55-57 | Sanitising twice equals sanitising once. |
| NotepadNames.SeparatorAndUnderscoreCollide | notepad_tracker/app.py:57 | `a/b` and `a_b` name the same note. |
| NotepadNames.SeparatorBetween | notepad_tracker/app.py:55-57 | For any two ordinary characters around a `/` or `\`, the name sanitises to the same file name as the one with `_` in its place. |
| NotepadNames.RequestData | notepad_tracker/app.py:69 | A falsy body becomes the empty mapping. A truthy body that is not a JSON object fails on `.get`. Otherwise the fields are exactly the object's. |
| NotepadNames.RequestedName | notepad_tracker/app.py:70 | A missing or falsy filename gives `""`. A string gives its stripped form. Any other truthy value fails on `.strip`. |
| NotepadNames.ChosenName | notepad_tracker/app.py:69-72 | A blank filename becomes `note`. A real one is stripped. It fails exactly when neither case applies. |
| NotepadNames.NoteStem | notepad_tracker/app.py:69-73 | The stem is the sanitised filename, or `note`. It is non-empty, trimmed and free of separators. |
| NotepadNames.NoteFileName | notepad_tracker/app.py:73-74 | The file name is the stem plus `.txt`. It is a single path component. |
| NotepadNames.NotePath | notepad_tracker/app.py:86-92 | The note's path lies directly inside the notes folder. Its name is the resolved file name. `/load` and `/save` resolve the same way. |
| NotepadNames.SaveRequest | notepad_tracker/app.py:86-98 | `/save` writes to the same path `/load` reads. The content is `data.get('content', '')`. A content value that is not a string makes the write fail. |
| NotepadNames.SafeNameRoundTrip | notepad_tracker/app.py:69-74 | A filename that is already trimmed and separator-free is stored as exactly `<filename>.txt`. |
| OrderSerialize.PublicAttrs | northwind-api/app/services/order_service.py:34 | Keeps each attribute whose name does not start with `_` exactly as often as it occurs, and drops every other one. |
| OrderSerialize.PublicAttrsKeepOrder | northwind-api/app/services/order_service.py:34 | The kept attributes appear in `__dict__` order: they are the attributes with the private ones deleted. |
| OrderSerialize.Serialize | northwind-api/app/services/order_service.py:18-37 | The result contains only dicts, lists and primitives. A model instance serialises as its `attribute_values`, whatever its other attributes. A dict keeps its keys in order, and each value is the serialised original value. A list or tuple becomes a list of the same length whose items are the serialised original items. An object without `attribute_values` becomes a dict of at most as many entries as it has attributes. Primitives are unchanged. |
| OrderSerialize.PlainFixed | northwind-api/app/services/order_service.py:18-37 | Plain data passes through unchanged. |
| OrderSerialize.SerializeIdempotent | northwind-api/app/services/order_service.py:18-37 | Serialising twice equals serialising once. |
| OrderSerialize.SerializeJsonReady | northwind-api/app/services/order_service.py:11-12 | Data built only from JSON values, dicts, lists, tuples and objects serialises to JSON-ready data, with no pass-through value left anywhere. |
| OrderSerialize.InstanceEntries | northwind-api/app/services/order_service.py:33-34 | An object without `attribute_values` becomes a dict with one entry per kept attribute, in order. Each entry is keyed by the attribute's name and holds its serialised value. |
| OrderSerialize.DistinctAttributeKeys | northwind-api/app/services/order_service.py:33-34 | When the `__dict__` names are distinct, as they are in Python, the resulting dict never repeats a key. |
| OrderSerialize.PublicAttributesOnly | northwind-api/app/services/order_service.py:33-34 | The keys of an object's dict are exactly its public attribute names. |
| OrderSerialize.PublicAttributeValues | northwind-api/app/services/order_service.py:33-34 | Each entry of an object's dict maps an attribute name to that attribute's serialised value. |
| NorthwindConfig.LoadConfig | northwind-api/app/config.py:17-24 | A set variable is used as it is, even when empty. Only an unset `AWS_REGION` falls back to `us-east-1`, and only an unset `LOG_LEVEL` to `INFO`. The endpoint is present exactly when its variable is set, and then holds its value. |
| NorthwindConfig.MetaFor | northwind-api/app/config.py:34-43 | `table_name` and `region` are always present. `host` appears exactly when the endpoint is set and non-empty, and then equals the endpoint. No other keys appear. |
| NorthwindConfig.MetaFromEnvironment | northwind-api/app/config.py:18-43 | The entries `pynamodb_meta_for` returns, in terms of the environment. They have two entries without a host and three with one. |
| NorthwindConfig.EmptyVariablesDiffer | northwind-api/app/config.py:18-41 | In every environment, an empty `DYNAMODB_ENDPOINT` gives the same `Meta` entries as an unset one. An empty `AWS_REGION` is kept as an empty region, whereas an unset one gives `us-east-1`. |

Behaviour the model makes visible:

- For the input `..xlsx` the suffix is `.xlsx` and the folder name is the stem `.`, so the CSV files go into the current directory.
- Nothing in the notepad tracker stops `a/b` and `a_b` from sharing one note.

## Left out

- Downloading (`download_to_tempfile`), reading the workbook with pandas, writing the CSV files, and `main`'s argument handling, exit codes and temp-file cleanup (xlxs/converter.py:27-36, 55-119): these are I/O.
- The notepad tracker's file reads and writes, directory creation, git discovery and commits, the per-path lock registry and the `/meta` route (notepad_tracker/app.py:29-53, 63-65, 75-82, 93-118): these are I/O and concurrency. The notes folder is a parameter; the `DEFAULT_NOTES_DIR` fallback to the home directory is not modelled.
- NotepadNames.SaveRequest: models only the write failure caused by content that is not a string, not I/O errors.
- NotepadNames.RequestData: for a body that is not JSON, `request.json` inside the handler (notepad_tracker/app.py:69, 86) gives `None` or raises, depending on the Flask version. The `None` case is the `Null` body, which falls back to `note`. The case where it raises is not modelled.
- JSON numbers are integers; floats, and Python's `True == 1` equality of dict keys, are not modelled.
- OrderSerialize.Serialize: dict keys are `Prim` values and are kept as they are; distinctness of keys is not tracked.
- OrderSerialize.Serialize: an `Instance` without `attributeValues` whose attributes include one named `attribute_values` is not excluded. Python's `hasattr` would take the first branch for such an object, whereas the model builds a dict from it.
- OrderSerialize.Serialize: values are finite trees, so the `RecursionError` that Python raises on a cyclic or very deeply nested value is not modelled.
- NorthwindConfig.MetaFor: the PynamoDB models (northwind-api/app/models/order.py, customer.py, product.py) build their `Meta` inline from `os.environ.get` and do not call `pynamodb_meta_for`. Those model classes are not part of this model.
- The other service, model, schema, controller and script files of the Northwind API: they are thin wrappers over DynamoDB, Flask and marshmallow, whose behaviour is not part of this model.
- Paths are POSIX paths. Windows drive letters and backslash separators of `pathlib.Path` on Windows are not modelled.
- PosixPath.Suffix: follows CPython 3.8 to 3.13, where a name like `a.` has no suffix; later versions differ.
- Characters are Unicode code points; `str.isspace` is written out as its code-point set, with no normalisation.
