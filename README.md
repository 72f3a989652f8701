# Manager mapping, modelled in Dafny

The tool reads a spreadsheet of employees. Each row holds a first name, a
usergroup and up to two reporting managers. For every manager named
anywhere, the tool writes one summary line: the manager's name, the
usergroups of the rows that name that manager, and a label saying whether
the manager is a direct manager, an indirect one (two or more reporting
steps above some employee), both, or neither.

This project models the core of the upload handler in `app.py`:

- `normalize` turns a cell into a trimmed string, or None when the cell is
  missing or blank (module `Normalizer`).
- `bfs` is a breadth-first search over the "reports to" graph. It returns
  the hop distance to every name it reaches (module `Bfs`).
- The first pass over the rows records each normalised row, collects the
  manager set, and appends each user's managers to that user's graph entry.
  The second pass builds one summary line per manager, in ascending name
  order (module `Mapping`).

Python's string order and `sorted()` over a set are modelled in
`StringOrder`. The `Option` type is in `Wrappers`.

The model follows the code. Edges go from each user up to that user's
managers, and a search runs from every row's user. A manager counts as
indirect when some user reaches them in two or more hops. There are no
counts and no own-group category. Every modelled name in the manager set
also names some row, so its label is always "Direct" or
"Direct + Indirect" (`Mapping.ListedLabel`).

Distances are specified by `Bfs.WithinHops`, which says a name is reachable
from `start` in at most `n` edges. `Bfs.ShortestHops` says `n` is the least
such count. Inside `Bfs.Search`, a ghost log records every name put on the
queue, in order. The loop invariant (`Bfs.Queued`) ties the queue to the
tail of that log and keeps the log free of repeats, so no name is queued
twice. The log's length is bounded by the graph's names, which proves that
the loop terminates.

## Model

| member | source | states |
|---|---|---|
| Normalizer.Normalize | app.py:9-13 | The result is None exactly when the cell is missing or all whitespace. Otherwise it is a non-empty string whose ends are not whitespace, obtained from the cell by removing whitespace from both ends. |
| Normalizer.Strip | app.py:12 | `str.strip()`: the result has no whitespace at either end. It is the input with only whitespace cut from each end. It is empty exactly when the input is all whitespace. |
| Normalizer.NormalizeIdempotent | app.py:9-13 | Normalising a normalised value gives the same value back. |
| Bfs.Search | app.py:16-26 | `start` maps to 0. The keys are exactly the names reachable from `start`. Each value is that name's shortest hop count. Every other key has a predecessor key one hop closer with an edge to it. The loop terminates. The returned log lists the keys without repeats; that the log is the sequence of queued names is part of the loop invariant, not of the contract. |
| Bfs.Expand | app.py:21-25 | Popping a node and visiting its out-neighbours keeps the search invariant. Afterwards every out-neighbour is discovered. Names discovered before keep their distances. Each newly discovered name is an out-neighbour at distance `d + 1`. The old queue is a prefix of the new one, and every entry behind it is a new name at distance `d + 1`. |
| Bfs.WithinOne | app.py:22 | A name is within one hop of `start` exactly when it is `start` or one of `start`'s own out-neighbours. |
| Bfs.ShortestUnique | app.py:24 | A name has only one shortest hop count, so the distance recorded is the distance. |
| Bfs.DiscoveredWithin | app.py:20-25 | Once every name still queued is at least `n` hops away, every name within `n` hops has been discovered. This is the breadth-first property at the heart of correctness. |
| StringOrder.Sorted | app.py:117 | `sorted()` of a set of strings: it holds the set's elements, has the same length, and is strictly ascending in Python's string order. |
| StringOrder.LessTotal | app.py:117 | Python's string `<` relates any two different strings one way or the other. |
| StringOrder.LessTransitive | app.py:117 | Python's string `<` is transitive. |
| Mapping.ToRow | app.py:101-106 | Each field of a recorded row is clean: absent, or non-empty and trimmed. Each field is absent exactly when its cell is missing or blank, and otherwise is its cell's text with whitespace cut from the ends. |
| Mapping.RowsMeans | app.py:100-106 | One row is recorded per input row, in input order. Row `i` is input row `i` normalised. |
| Mapping.ManagerSetMeans | app.py:108-109 | A name is in the manager set exactly when it is non-empty and some row names it as first or second manager. |
| Mapping.UpLinksAppend | app.py:111-113 | The links of two batches of rows are those of the first batch, then those of the second, so row order is kept. |
| Mapping.UpLinksMeans | app.py:111-113 | `m` is among `u`'s links exactly when `u` and `m` are non-empty and some row of user `u` names `m` as a manager. |
| Mapping.UpGraphMeans | app.py:97-113 | The graph's edges out of `u` are `u`'s links. `u` is a key exactly when it has at least one link, as with a `defaultdict(list)` that is only appended to. |
| Mapping.AddManagers | app.py:108-109 | One row adds its non-empty first and second managers to the manager set, and nothing else. |
| Mapping.AddLinks | app.py:111-113 | For a row with a user, the first manager is appended to that user's list and then the second, each only when present. A row without a user leaves the graph unchanged. |
| Mapping.BuildTables | app.py:96-113 | After the first pass, the rows are the normalised input rows, the manager set is their manager set, and the graph is exactly the user-to-managers graph they determine. |
| Mapping.DirectRows | app.py:118 | `direct_users` holds exactly the rows that name the manager as first or second manager, and no more rows than the input. |
| Mapping.FarMeans | app.py:121-128 | A user is "far" from a manager exactly when the manager is reachable but is neither the user nor one of the user's own managers. |
| Mapping.FarByDistance | app.py:127 | On a search result, `mgr in dist and dist[mgr] >= 2` holds exactly when the manager is reachable and more than one hop away. |
| Mapping.IndirectFlag | app.py:121-128 | `indirect_flag` is set exactly when some row's user reaches the manager in two or more hops. |
| Mapping.Kind | app.py:130-137 | The label is one of the four strings. It is "Direct + Indirect" exactly when both flags hold, "Direct" exactly when only the direct flag holds, "Indirect" exactly when only the indirect flag holds, and "-" exactly when neither does. |
| Mapping.Usergroups | app.py:139 | The usergroup list is strictly ascending. It holds exactly the non-empty usergroups of the direct rows. |
| Mapping.DirectGroupsMeans | app.py:139 | The usergroups of the direct rows are the non-empty usergroups of the rows that name the manager. |
| Mapping.SummaryLine | app.py:118-144 | A manager's line carries its name, the label from its direct and indirect flags, and its usergroups, ascending and without repeats. |
| Mapping.Summarize | app.py:115-144 | The summary has one line per manager and no other lines, strictly ascending by name, and every line describes its manager. |
| Mapping.InOrder | app.py:117 | Lines that follow the sorted manager set one for one list each manager exactly once, in ascending order. |
| Mapping.Process | app.py:96-144 | The whole handler core: one line for every manager named in the sheet, ascending. Each line describes its manager from the normalised rows and their graph. Its label is "Direct + Indirect" when some user is two or more hops away, and "Direct" otherwise. |
| Mapping.ListedIsDirect | app.py:118-119 | A name in the manager set has at least one direct row. |
| Mapping.ListedLabel | app.py:130-137 | A listed manager's label is never "Indirect" or "-". It is "Direct + Indirect" exactly when some user is two or more hops away. |

## Left out

- The Flask application, its imports, routes and templates (`app.py:1-7` and `app.py:28-84`) and the upload checks (`app.py:85-95`) are web plumbing, not logic.
- Reading and writing Excel through pandas: the first-sheet pick, the column-name stripping at line 94 and the output workbook are I/O. The model takes the sheet as a sequence of rows of four optional cells.
- `pd.isna` and `str()` of non-string cells are not modelled. A missing or NaN cell is `None`, a present cell is its text, and how floats and dates print is not captured.
- Normalizer.Normalize: does not model `str()` of numeric cells, because the model's cells are already text.
- The ", " join of the usergroups is left out. The summary line keeps the sorted list, which determines the joined text.
- StringOrder.Less compares Dafny `char`s, which are Unicode scalar values. Python strings can also hold lone surrogates, which are not modelled.
- The `deque`'s constant-time operations are not modelled. The queue is a sequence, and only its contents and order matter.
