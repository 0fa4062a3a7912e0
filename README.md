# squirrel: the XML documents of a writing project

squirrel tracks a writing project's word count. Each project keeps two small XML
documents:

- the **project descriptor** is a `squirrel` root with a `name` attribute and the children
  `path` (attribute `src`), `description`, `due-date`, `goal` and `project-type`;
- the **watch ledger** is a `squirrel` root that opens with a disclaimer comment and then
  holds one `watches` bucket per calendar date. A bucket has the attributes `date`
  (`DD/MM/YYYY`) and `prev_count`, and holds the `watch` entries recorded that day
  (attribute `datetime`, text the count).

This project models `squirrel/xml.py`: building both documents, reading the descriptor
back, partial updates of it, bucket lookup, and recording counts with de-duplication.

Layout:

- `wrappers.dfy`: `Option` and `Result`.
- `decimal.dfy`: Python's `str` on integers, and zero padding.
- `dates.dfy`: day/month/year dates and `strftime('%d/%m/%Y')`.
- `xml_tree.dfy`: the element tree (elements and comments), `find`, `findall`, appending a
  child and setting a child's text.
- `project_file.dfy`: the descriptor. Covers what `build_project_file` builds, what
  `get_data_from_project_file` reads, and what `update_project_file` writes, as functions
  on trees, with lemmas about them.
- `watch_ledger.dfy`: the ledger. Covers the initial tree, bucket lookup, last counts,
  `make_watch_entry`, and `add_watch_entry` both as written and corrected, plus the
  ledger's invariants.
- `documents.dfy`: `parse`, and the class `ProjectFiles`. The class's two fields are the
  documents on disk (`None` when a file does not exist). Its methods are the operations
  of `xml.py` that load or store a document:
  - the `Build*` methods construct a tree by successive appends and store it;
  - `UpdateProjectFile` and `AddWatchEntry` parse, change the loaded tree step by step
    as the source does, and store the result;
  - `GetDataFromProjectFile`, `GetWatchesData` and `GetWatchesEntry` parse and read,
    changing nothing.

  Each method is proved against the functions above. `get_watches_last_count` and
  `make_watch_entry` touch no file, so they are functions in `watch_ledger.dfy`.

Where the code and the intended behaviour differ, the model follows the code:

- `prev_count` for a new bucket is `root[-1][-1].text`. `root[-1]` is the root's last
  child of any kind, not the last bucket.
- `parse` ends the process when a file is missing. So `get_watches_entry` always returns a
  root, and the `else: return False` branch of `add_watch_entry` (xml.py:238-239) can never
  run. The model has no such branch.
- The line xml.py:237 is a defect. It is modelled both as written and corrected; see
  "## Findings".

## Model

| member | source | states |
|---|---|---|
| Decimal.IntToString | squirrel/xml.py:39 | `str` of an integer is never empty; `IntToStringRoundTrip` and `IntToStringInjective` pin its value |
| Decimal.NatToString | squirrel/xml.py:39 | `str` of a natural number is a non-empty string of digits without a leading zero |
| Decimal.IntToStringRoundTrip | squirrel/xml.py:39 | reading back `str(goal)` as an integer gives `goal` back, negative values included |
| Decimal.IntToStringInjective | squirrel/xml.py:218 | two totals have the same `str` exactly when they are equal, so comparing texts compares counts |
| Decimal.ZeroPadRoundTrip | squirrel/xml.py:36 | a number below 10^w, zero-padded to w digits, reads back as itself |
| Dates.Format | squirrel/xml.py:36 | `'%d/%m/%Y'` gives ten characters: two digits, `/`, two digits, `/`, four digits |
| Dates.FormatRoundTrip | squirrel/xml.py:84 | the formatted date parses back to the same day, month and year |
| Dates.FormatInjective | squirrel/xml.py:190 | two dates give the same bucket key exactly when they are the same date |
| XmlTree.FindIndex | squirrel/xml.py:70 | `find` picks the first child with the tag; `None` exactly when no child has it |
| XmlTree.FirstWithTag | squirrel/xml.py:111-135 | `find` returns a child exactly when some child has the tag, and what it returns has the tag and is one of the children |
| XmlTree.FirstWithTagIsFirst | squirrel/xml.py:111-135 | what `find` returns is the child at the first position with the tag |
| XmlTree.Find | squirrel/xml.py:111-135 | `node.find(tag)` on a node's direct children; a comment has none, so it finds nothing |
| XmlTree.FindAll | squirrel/xml.py:160 | `findall` keeps every child with the tag, and only those |
| XmlTree.FindAllSnoc | squirrel/xml.py:160 | `findall` keeps document order: a child appended last is found last exactly when it has the tag |
| XmlTree.FindIndexAfterSetText | squirrel/xml.py:70 | setting one child's text does not change what `find` selects |
| XmlTree.FirstWithTagWithout | squirrel/xml.py:104-138 | removing every element with one tag makes a lookup of that tag fail and leaves lookups of other tags unchanged |
| ProjectFile.InitialTree | squirrel/xml.py:26-43 | the descriptor a new project is given; its shape and contents are stated by `InitialTreeShape` and `ReadInitialTree` |
| ProjectFile.InitialTreeShape | squirrel/xml.py:26-43 | a new descriptor is `squirrel` with only the `name` attribute and exactly the five leaves `path`, `description`, `due-date`, `goal`, `project-type`, in that order |
| ProjectFile.Read | squirrel/xml.py:104-148 | the six keys, each read on its own; `ReadInitialTree`, `ReadDamaged` and `ReadWithoutSource` state what it returns |
| ProjectFile.FindBuiltShape | squirrel/xml.py:26-43 | in the descriptor `build_project_file` writes, `find` reaches each of the five leaves at its own position |
| ProjectFile.ReadBuiltShape | squirrel/xml.py:26-148 | reading a descriptor of that shape gives back the name, the directory and the four texts it was built with, and every tag is found |
| ProjectFile.ReadInitialTree | squirrel/xml.py:104-148 | reading a new descriptor gives back its name (`''` by default, `'None'` for None) and directory, the description, `str(goal)`, the formatted due date or None, and the project type (`text` by default or for None), with every element found |
| ProjectFile.ReadDamaged | squirrel/xml.py:104-138 | a missing `name` attribute, or missing elements with a key's tag, make that key None and leave every other key unchanged |
| ProjectFile.WithoutSource | squirrel/xml.py:111-114 | strips `src` from every `path` element and changes no tag |
| ProjectFile.PathWithoutSource | squirrel/xml.py:110-114 | once `src` is stripped, the path lookup reads None |
| ProjectFile.ChildTextWithoutSource | squirrel/xml.py:115-138 | stripping `src` from the `path` elements leaves the text of every other tag as it was |
| ProjectFile.ReadWithoutSource | squirrel/xml.py:110-114 | a `path` element without `src` (the KeyError) reads the path as None and every other key as before |
| ProjectFile.TagField | squirrel/xml.py:68-94 | each of the four tags of an update belongs to exactly one field |
| ProjectFile.Target | squirrel/xml.py:68-94 | a child is rewritten only by a field that is given and has been processed, and only when it is the first child with that field's tag |
| ProjectFile.Skipped | squirrel/xml.py:68-94 | a field is reported missing exactly when it is given and the descriptor has no element with its tag |
| ProjectFile.UpdatedWith | squirrel/xml.py:65-94 | the tree after the name and the fields in `done` have been processed; `ApplyFieldStep` and `UpdatedWithNothing` tie it to the source's steps |
| ProjectFile.Updated | squirrel/xml.py:60-96 | the tree `update_project_file` writes back; `ReadUpdated`, `UpdatedFrame`, `UpdateWithNothing` and `UpdateIdempotent` state its properties |
| ProjectFile.ApplyField | squirrel/xml.py:68-94 | one `if` block: a given field rewrites the text of its first element, if there is one |
| ProjectFile.ApplyFieldStep | squirrel/xml.py:68-94 | processing one more field gives the tree with that field applied too; the order of the blocks does not matter |
| ProjectFile.UpdatedWithNothing | squirrel/xml.py:65-66 | before any field is processed, only the `name` attribute may have changed |
| ProjectFile.ReadUpdatedNameAndPath | squirrel/xml.py:65-66 | after an update the name reads as the new name when one is given, else as before, and the path is unchanged |
| ProjectFile.ChildTextUntouched | squirrel/xml.py:68-94 | a field the update does not give reads back as before |
| ProjectFile.ReadUpdated | squirrel/xml.py:60-96 | after an update, every given field reads back as its new text unless its element is missing; all other fields, and the path, read back as before |
| ProjectFile.UpdatedFrame | squirrel/xml.py:65-94 | an update keeps the root's tag, text, other attributes and number of children; each child is unchanged or has only its text rewritten by a given field |
| ProjectFile.UpdateWithNothing | squirrel/xml.py:60-96 | an update with every field None writes back the same tree |
| ProjectFile.UpdateIdempotent | squirrel/xml.py:60-96 | applying the same update twice equals applying it once |
| ProjectFile.ReadAfterGoalUpdate | squirrel/xml.py:75-80 | updating only the goal changes only the goal, which reads back as `str(goal)` |
| ProjectFile.NovelScenario | squirrel/xml.py:26-96 | a project "Novel" due 31/12/2025 with goal 50000, re-goaled to 60000, reads back as "Novel", "60000", "31/12/2025", "text" |
| WatchLedger.InitialTree | squirrel/xml.py:50-57 | the ledger `build_watch_file` writes; `InitialTreeHasNoBuckets` and `InitialTreeInvariants` state its properties |
| WatchLedger.InitialTreeHasNoBuckets | squirrel/xml.py:50-57 | a new ledger holds only the disclaimer comment and no bucket |
| WatchLedger.FirstBucket | squirrel/xml.py:188-196 | the lookup finds the first `watches` child in document order whose `date` equals the key; buckets without `date` never match; `None` exactly when nothing matches |
| WatchLedger.LastCount | squirrel/xml.py:171-178 | `get_watches_last_count`: the int 0 for a bucket without children, else the last child's text; `PrevCountIsLastCount` and `UnchangedIffSameCount` use it |
| WatchLedger.MakeWatchEntry | squirrel/xml.py:199-202 | exactly one `watch` child with `datetime` equal to the stamp becomes the last child, its text the new last count; nothing before it changes |
| WatchLedger.PrevCount | squirrel/xml.py:228-231 | `root[-1][-1].text` with the "0" fallback; `PrevCountIsLastCount` relates it to `LastCount` |
| WatchLedger.NewBucket | squirrel/xml.py:233-236 | a new bucket is a `watches` element keyed by the formatted date, with exactly the attributes `prev_count` and `date` and no children |
| WatchLedger.RecordInBucket | squirrel/xml.py:212-223 | on an existing bucket a call either changes nothing or records; it never fails |
| WatchLedger.Record | squirrel/xml.py:205-244 | `add_watch_entry` with line 237 corrected; it never raises |
| WatchLedger.RecordAsWritten | squirrel/xml.py:205-237 | `add_watch_entry` as written; it never reaches the write on the new-bucket branch, so it never fails there |
| WatchLedger.PrevCountIsLastCount | squirrel/xml.py:228-231 | the new bucket's `prev_count` is the last count of the root's last child, with the int 0 written as "0"; a trailing comment gives "0" |
| WatchLedger.UnchangedIffSameCount | squirrel/xml.py:217-221 | on an existing bucket, nothing is recorded exactly when its last count is already `str(total)` |
| WatchLedger.RecordExistingBucket | squirrel/xml.py:212-223 | otherwise exactly one entry stamped `str(dt)` with text `str(total)` is appended to that bucket, and nothing else in the ledger changes |
| WatchLedger.RecordNewDate | squirrel/xml.py:225-236 | with no bucket for the date, one bucket is appended at the end. It has exactly the attributes `prev_count` (the computed one) and `date` (the formatted date). Its only child is `<watch datetime=str(dt)>str(total)</watch>`. Every existing child is kept |
| WatchLedger.RecordNewDateBuckets | squirrel/xml.py:225-236 | the new bucket comes last among the buckets `get_watches_data` reports, after all the earlier ones in order |
| WatchLedger.RecordedLastCount | squirrel/xml.py:212-244 | after a call, the date's bucket reports `str(total)` as its last count; the write fails only for a new bucket whose `prev_count` has no text |
| WatchLedger.RecordTwiceSameTotal | squirrel/xml.py:217-221 | recording the same total twice on one date leaves one entry: the second call changes nothing |
| WatchLedger.AsWrittenNeverOpensBucket | squirrel/xml.py:237 | as written, a ledger without a bucket for the date raises and records nothing, whatever buckets it holds for other dates; a new ledger never records anything |
| WatchLedger.AsWrittenAgreesOnExistingBucket | squirrel/xml.py:212-223 | where a bucket for the date exists, the code as written and the corrected one behave the same |
| WatchLedger.InitialTreeInvariants | squirrel/xml.py:50-57 | a new ledger has no repeated neighbouring entries and no two buckets with one date |
| WatchLedger.RecordKeepsNoRepeats | squirrel/xml.py:217-221 | recording never puts two equal counts next to each other in a bucket |
| WatchLedger.RecordKeepsUniqueDates | squirrel/xml.py:225-236 | recording never creates a second bucket for a date |
| WatchLedger.RecordOnlyAppends | squirrel/xml.py:212-236 | a recorded call removes and rewrites nothing, and adds exactly one entry |
| WatchLedger.RecordAllKeepsInvariants | squirrel/xml.py:205-244 | every ledger reached by a series of calls keeps both invariants |
| WatchLedger.ChangingTotalsOnOneDate | squirrel/xml.py:205-244 | totals 0, 50, 50, 120 on one date give one bucket with `prev_count` "0" and the entries 0, 50, 120 |
| Documents.Parse | squirrel/xml.py:247-256 | a stored document is returned as is; a missing one is the not-found exit |
| Documents.RewriteField | squirrel/xml.py:68-94 | one `if` block of the update applies its field and reports it missing exactly when it is given but has no element |
| Documents.RewriteFields | squirrel/xml.py:68-94 | the four blocks in order produce the updated tree and the list of missing fields |
| Documents.ProjectFiles.BuildProject | squirrel/xml.py:11-23 | a new project holds the initial descriptor and the initial ledger |
| Documents.ProjectFiles.BuildProjectFile | squirrel/xml.py:26-47 | the successive `SubElement` calls store exactly the initial descriptor; the ledger is untouched |
| Documents.ProjectFiles.BuildWatchFile | squirrel/xml.py:50-57 | the stored ledger is the disclaimer-only tree; the descriptor is untouched |
| Documents.ProjectFiles.UpdateProjectFile | squirrel/xml.py:60-96 | the stored descriptor becomes the updated tree and the missing fields are reported; a missing file is the not-found exit and nothing changes |
| Documents.ProjectFiles.GetDataFromProjectFile | squirrel/xml.py:99-148 | returns the six-key record of the stored descriptor, or the not-found exit |
| Documents.ProjectFiles.GetWatchesData | squirrel/xml.py:151-178 | succeeds exactly when every bucket has `date` and `prev_count`, and then returns one (date, prev_count, last count) summary per bucket in document order; otherwise the process exits |
| Documents.ProjectFiles.GetWatchesEntry | squirrel/xml.py:181-196 | returns the position of the first bucket keyed by the formatted date, or none, together with the loaded root |
| Documents.ProjectFiles.AddWatchEntry | squirrel/xml.py:205-244 | returns False with the ledger unchanged when the count is a repeat; otherwise stores the corrected recorded ledger and returns True; fails on a None `prev_count`; reports not-found for a missing ledger |

## Left out

- File system effects are not modelled: `os.mkdir`, creating the empty files, `tree.write`, `ET.parse`, `ET.indent` whitespace, the XML declaration and the encoding. A document is a tree or absent.
- Printing, logging and `sys.exit` are error outcomes (`Failure`), or for `update_project_file` the list of skipped fields. The message texts are not modelled.
- Malformed XML (`ParseError` from `ET.parse`) is not modelled; only a missing file is.
- File paths: `squirrel/vars.py` is not part of this model. Each `ProjectFiles` object holds one project's two documents, so the `basedir` argument of `get_data_from_project_file` and the `file` arguments of the build functions do not appear. `os.path.dirname(file)` is the `dir` parameter.
- The `str(dt)` timestamp is an opaque string in `Timestamp.text`. Only the calendar date of `dt` is modelled.
- Dates.Format: pads the year to four digits. The C library's `%Y` does not pad years below 1000.
- Value semantics: element identity and aliasing are not modelled. The element `find` returns is given by its position, and a change to it is a change at that position.
- Documents.ProjectFiles.AddWatchEntry: on a new bucket whose `prev_count` would be None, the method reports `UnwritableAttribute` but does not state what stays on disk. A write that fails part way leaves a file the model does not describe.
- ProjectFile.NewProject: `goal` is an integer. `str` of a non-integer goal, such as None giving "None", is not modelled.
- ProjectFile.NewProject: `description`, `due` and `goal` are always present. `build_project_file` reads them with `data[...]` (xml.py:32, 35, 39), so a `data` without one of them raises a KeyError. That happens after the directory and the empty files have been created, and it is not modelled.
- Documents.ProjectFiles.AddWatchEntry: `total` is an integer, and `str(total)` is its decimal text. `str` of any other value is not modelled.
- Serialising and re-parsing is assumed to give the same tree back. Not modelled: an empty text reads back as None, and the whitespace added by `ET.indent` becomes text and tails.
- Element tails are not modelled.

## Findings

| source | as written | input that shows it | evidently intended | confidence | as-written member | corrected member |
|---|---|---|---|---|---|---|
| squirrel/xml.py:237 | when no bucket matches the date, `make_watch_entry(watches_date, ...)` runs with `watches_date` None, so `ET.SubElement(None, ...)` raises a `TypeError` before the write | a new ledger (only the disclaimer) and any `add_watch_entry(total, dt)`: the first count of a date is never recorded | `make_watch_entry(watches, ...)`: the entry goes into the bucket created at line 233 and the ledger is written | not executed | WatchLedger.AsWrittenNeverOpensBucket | WatchLedger.Record |

`WatchLedger.RecordAsWritten` models the code as written and `WatchLedger.AsWrittenNeverOpensBucket` proves its behaviour. The corrected
behaviour is proved by `WatchLedger.RecordNewDate`, `WatchLedger.RecordedLastCount` and
`WatchLedger.ChangingTotalsOnOneDate`. `Documents.ProjectFiles.AddWatchEntry` implements
the corrected one.
