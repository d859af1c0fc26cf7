# Session file registry of the solar radio telescope dashboard

The dashboard page (`dashboard.py`) keeps, for the length of a browser session,
an ordered list of uploaded CSV files in `st.session_state.file_data`. Each
entry holds the file name, the time it was uploaded and the table that the
solar analyser returned for it. This project models that registry and the three
things the page does with it:

- **Upload a batch.** The files are handled one at a time. A file whose name is
  already in the list gets an "already uploaded" warning and is skipped. That
  membership test runs against the list as it grows, so a name repeated within
  one batch is also rejected. Any other file is read as a two-column CSV and
  passed to the analyser. If the analyser raises, the error is reported and the
  file is skipped. Otherwise a new entry is appended at the end. The CSV read
  and the column renaming are outside the `try`. A file that pandas cannot
  parse, or that does not have exactly two columns, therefore stops the whole
  batch, and the entries appended before it stay.
- **Delete by name.** If the choice is not `"None"` and the button is pressed,
  the list is replaced by the entries with a different name.
- **Views.** These are the list of file names, the table of
  (name, upload time) rows, and the entries whose name is selected, in list order.

Layout:

- `registry.dfy`, module `Registry`: the data model, the specification
  functions (`Ingest` for a batch, `Handle` for one file, `Without` for a
  deletion, `Shown`, `Names` and `RecordTable` for the views), and the lemmas
  about them.
- `session.dfy`, module `Dashboard`: class `Session`, whose field
  `fileData: seq<Record>` is the session list. `Upload` is the loop of the
  page, proved equal to `Ingest`. `Delete` reassigns the field with the filter.
  The class invariant `Valid()` says that file names are unique.

The analyser, the CSV reader and the clock are foreign code. They enter the
model as values:

- The analyser is a function parameter `analyse: Table -> Result<Frame>`, so it
  is deterministic. `Failure` stands for an exception.
- What reading a file gives (a table, or the reader's error) is the field
  `read` of each incoming file. The clock reading taken for it is the field
  `at`. The loop only looks at both when the name is new, as the page does.

Each file that the batch reaches gets an `Outcome`: `Duplicate` (the warning),
`AnalysisFailed` (the reported error), `ReadFailed` (the exception that ends
the batch) or `Added(entry)`.

One might expect every malformed CSV to be reported per file, leaving the
other files of the upload unaffected. The code does that only for files that
the analyser rejects. The read at `dashboard.py:70` and the column renaming at
line 71 are outside the `try` at lines 73-77. A file that pandas cannot parse,
or whose table does not have exactly two columns, raises there and ends the
batch. A two-column file with non-numeric cells does not raise there: pandas
reads those cells as text, and the analyser inside the `try` decides what
happens to the file. This model follows the code, so a failed read ends the
batch (`IngestShape`, `IngestItem`).

The uploader keeps handing its files to every rerun of the page. So a file
deleted with the button while it is still in the uploader comes back on the
next rerun, appended at the end with a new clock reading (`DeletedComesBack`).

## Model

| member | source | states |
|---|---|---|
| `Dashboard.Session.constructor` | dashboard.py:60-61 | A new session starts with an empty list, which satisfies the uniqueness invariant. |
| `Dashboard.Session.Upload` | dashboard.py:66-85 | The loop leaves exactly the registry and per-file outcomes that `Ingest` specifies for the old registry and the batch. It keeps file names unique. |
| `Dashboard.Session.Delete` | dashboard.py:93-97 | With a choice other than `"None"` and the button pressed, the new list is the old one without the entries of that name. Otherwise the list is unchanged. Names stay unique. |
| `Registry.IngestAppends` | dashboard.py:79-83 | After a batch the registry is the old registry followed by the entries of the `Added` outcomes, in batch order. Earlier entries keep their contents and order. |
| `Registry.IngestGrows` | dashboard.py:79-83 | The registry before a batch is a prefix of the registry after it. |
| `Registry.IngestShape` | dashboard.py:67-77 | A batch reaches every file, or it stops at a file whose read failed, which is then the last outcome. No earlier outcome is a read failure, so an analyser failure never stops the batch. |
| `Registry.IngestConcat` | dashboard.py:67-85 | Handling `a + b` equals handling `a` and then `b` from the registry `a` left, unless `a` stopped at a failed read. |
| `Registry.IngestItem` | dashboard.py:67-85 | File `i` of a batch is judged against the registry the earlier files left. It is a duplicate iff its name is there. It is a read failure iff the name is new and the read fails. It is an analyser failure iff the name is new, the read succeeds and the analyser raises. In the remaining case it appends `Record(name, clock reading, analysed table)` at the end. Only an append changes the registry. |
| `Registry.KnownBefore` | dashboard.py:68 | The membership test for file `j` runs against the old registry plus the entries appended by files `0..j-1`. |
| `Registry.AddedName` | dashboard.py:79-81 | An appended entry carries the name of the uploaded file it came from. |
| `Registry.IngestDuplicate` | dashboard.py:68-85 | File `j` gets the warning iff its name was registered before the batch, or an earlier file of the same batch with that name was appended. Both directions are proved. |
| `Registry.IngestUnique` | dashboard.py:66-83 | If the names of the registry are unique before a batch, they are unique after it. |
| `Registry.RerunUnchanged` | dashboard.py:64-85 | Take a registry that agrees on the batch's names with the registry the batch produced. Handling the same files again on it changes nothing, whatever clock readings the second run takes. |
| `Registry.RerunIdempotent` | dashboard.py:64-85 | The uploader hands the same files to every rerun of the page, and the loop reads the clock again. Handling the same files a second time, with any new clock readings, leaves the registry as the first time left it. |
| `Registry.KeepWhere` | dashboard.py:96 | A filter of the registry is no longer than the registry. |
| `Registry.KeepWhereMembers` | dashboard.py:96 | An entry is in a filter result iff it is in the registry and its name passes the filter. |
| `Registry.KeepWhereConcat` | dashboard.py:102-103 | Filtering distributes over concatenation, so kept entries stay in registry order. |
| `Registry.KeepWhereAll` | dashboard.py:102-103 | A filter that passes every name returns the whole registry. |
| `Registry.KeepWhereUnique` | dashboard.py:96 | Filtering a registry with unique names gives a registry with unique names. |
| `Registry.DeleteExact` | dashboard.py:96 | For any list, deleting a name keeps exactly the entries with another name, in registry order: it distributes over any split of the list. |
| `Registry.DeleteKeepsUnique` | dashboard.py:96 | Deleting a name keeps registered names unique. |
| `Registry.DeletedComesBack` | dashboard.py:64-96 | When a deleted file is handled again and the read and the analyser succeed, it is appended at the end of the remaining list. Its entry has its name, the new clock reading and the analysed table. |
| `Registry.DeleteAbsent` | dashboard.py:96 | Deleting a name that is not registered leaves the list unchanged. |
| `Registry.DeleteCount` | dashboard.py:96 | With unique names, deleting a registered name makes the list exactly one entry shorter. |
| `Registry.ShownExact` | dashboard.py:89-103 | The displayed entries are exactly the registered ones whose name is selected, in registry order. With the default selection (every name) the whole list is displayed. |
| `Registry.TableAfterIngest` | dashboard.py:66-99 | After an upload batch the record table is the old table followed by one row per appended file, in batch order. |
| `Registry.TableAfterDelete` | dashboard.py:96-99 | After a deletion the table holds exactly the old rows with another name. With unique names, no two rows share a file name. |

## Left out

- The solar analyser `analyze_solar_data` is not part of this model. It is imported from `solar_analysis`, which is not shown here. It is a deterministic function parameter that returns a table or fails.
- CSV parsing with pandas and the renaming of the two columns (lines 70-71) are foreign library code. Their result is an input of each incoming file. Both raise outside the `try`, so they are modelled together as one read that can fail.
- A `Table` is a sequence of pairs of reals, so it cannot hold the text columns pandas produces for non-numeric cells. Such a file is modelled as a successful read of some table, and the analyser decides whether it is skipped or appended.
- The wall clock (line 69) is an input: each incoming file carries the formatted clock reading the loop would take for it.
- Loading and base64-encoding the background image (lines 10-16) is file I/O, and the CSS and HTML styling (lines 18-58) is presentation.
- Streamlit widgets, the sidebar and the messages are not modelled. The message text is left out; the per-file `Outcome` records which message a file gets. The user's batch, delete choice, button press and selection are method or function parameters.
- Streamlit stops the page run when an exception escapes. The model captures the effect on the registry only: the batch ends and earlier appends stay. It does not model that the rest of that page run is skipped.
- `Registry.RerunUnchanged` and `Registry.RerunIdempotent` assume a deterministic analyser and unchanged file contents between reruns; the clock readings may differ. The model does not cover a page run as a whole.
- The minimum and maximum of the sensor output (lines 105-106) are floating-point reductions used only for display. They are left out.
- The Plotly chart, the dataframe display, the CSV export and the download button (lines 111-118) are rendering and serialisation, and are left out.
- A file named `"None"` is not treated specially: the delete choice `"None"` means "delete nothing" even if a file had that name. The uploader only accepts `.csv` files, so no registered name can equal it. The model does not restrict names.
