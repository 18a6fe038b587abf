# Smart-Agenda to-do board, modelled in Dafny

Smart-Agenda is a React to-do board. Its tasks fall into four categories (Lavoro, Casa, Corsi, Allenamento). Each category is a board column. A column lists its tasks by date and then by time. A task card links to Google Maps. A form creates and edits tasks, asking a Maps lookup for a link and a description. A button opens one Google Maps link for the route through every task with a location, across all categories, in date-and-time order.

This project models the board's logic:

- **the data model**: the categories and the task record;
- **the task list**: the component state, its three updates, and the save effect that writes it to local storage;
- **the columns**: grouping by category, and sorting;
- **the route**: its task order and the Maps URL built for it, including `encodeURIComponent`;
- **the task card**: its link fallback and badges;
- **the form**: its defaults, prefill, and the task its submit handler builds.

Modules follow the source files:

| module | models |
|---|---|
| `Types` | `types.ts` |
| `Store` | `App.tsx`: the task state, its updates and the save effect |
| `Itinerary` | `App.tsx`: `viewFullRoute` |
| `Column` | `components/Column.tsx` |
| `KanbanBoard` | `components/KanbanBoard.tsx` |
| `TaskCard` | `components/TaskCard.tsx` |
| `NewTaskModal` | `components/NewTaskModal.tsx` |

Four supporting modules model the JavaScript built-ins the code relies on, and the reading of a link back into its parts:

| module | models |
|---|---|
| `Seqs` | `filter` and `join`, plus the splitting a URL parser does when it reads a link back |
| `Collation` | `localeCompare`, as it behaves on the board's date and time strings |
| `StableSort` | `Array.prototype.sort`, which is stable as ECMA-262 specifies since its 2019 edition |
| `Uri` | `encodeURIComponent`, and the way a URL parser reads a query string back |

Every optional field of a task (`time`, `date`, `mapsUrl`, `mapsDetails`) is a `string` in which `""` means absent. Every reader tests these fields by truthiness, so an absent field and an empty one behave the same.

The task list is a class, `Store.TaskStore`, because the component replaces its state in place. Its ghost field `saved` stands for the storage slot. Every update keeps `Valid()`: the slot holds the current list. Everything else is pure and is modelled as functions with lemmas about them.

Both the columns and the route sort with one stable insertion sort. `StableSort.SortIsDetermined` proves that this choice of algorithm is invisible for a consistent comparator: every sorted result that keeps equal elements in input order is this sort's result.

The column comparator is consistent (`Column.ColumnComparatorConsistent`). The route comparator is not: `Itinerary.RouteComparatorInconsistent` exhibits a cycle among tasks with mixed date and time presence. For some such lists, such as that cycle, the route's order is engine-defined, so for lists with missing dates or times the model claims only which tasks the route holds. When every task on the route has a date and a time, it also claims the (date, time) order and stability.

The Maps page addresses appear once, as the constants `Itinerary.SearchPage` and `Itinerary.DirectionsPage`, shared by the route and the task card.

## Model

| member | source | states |
|---|---|---|
| `Types.Parse` | types.ts:2-7 | A string names a category exactly when it is that category's string value, so the enum is closed under reading back |
| `Types.NameInjective` | types.ts:3-6 | The four category strings are pairwise distinct: equal strings mean equal categories |
| `Types.LocationAt` | App.tsx:83 | Position `i` of the mapped locations is the location of task `i` |
| `Types.LocationsAppend` | App.tsx:83 | Mapping to locations distributes over concatenation |
| `Seqs.Filter` | components/KanbanBoard.tsx:21 | A filter keeps exactly the elements that satisfy the predicate, and never lengthens the list |
| `Seqs.FilterMultiset` | components/KanbanBoard.tsx:21 | A filter keeps every occurrence of a kept value and none of a dropped one |
| `Seqs.FilterIsSubsequence` | components/KanbanBoard.tsx:21 | A filter keeps the relative order of what it keeps |
| `Seqs.FilterAll` | App.tsx:71 | A filter whose predicate holds everywhere changes nothing |
| `Seqs.Join` | App.tsx:92 | Joining no parts gives "", and joining one part gives that part |
| `Seqs.SplitJoin` | App.tsx:92 | Splitting at the separator undoes the join when no part holds the separator |
| `Seqs.CutAfterPrefix` | App.tsx:90 | Cutting at the first `c` after a `c`-free prefix returns that prefix and the rest |
| `Collation.CompareIsLexicographic` | components/Column.tsx:18 | The string comparison says "before" exactly in lexicographic order |
| `Collation.CompareZero` | components/Column.tsx:18 | The comparison is 0 exactly for equal strings |
| `Collation.CompareAntisymmetric` | components/Column.tsx:18 | Swapping the operands flips the comparison's sign |
| `Collation.CompareTransitive` | components/Column.tsx:18 | "At or before" is transitive |
| `StableSort.Sort` | components/Column.tsx:15 | The sorted list is a permutation of the input, whatever the comparator |
| `StableSort.SortSorted` | components/Column.tsx:15 | With a consistent comparator the result is sorted |
| `StableSort.SortStable` | components/Column.tsx:15 | Elements the comparator ranks equal keep their input order |
| `StableSort.SortIsDetermined` | components/Column.tsx:15 | Any sorted list that keeps equal elements in input order is the sort's result |
| `StableSort.SortSortedIsIdentity` | components/Column.tsx:15 | Sorting an already sorted list changes nothing |
| `StableSort.SortAgrees` | App.tsx:75-81 | Two comparators that agree on the list's elements sort it the same way |
| `Column.CompareTasksMeaning` | components/Column.tsx:16-26 | The comparator says "before" exactly on the key (date absent, date, time absent, time), present before absent, and "tie" exactly on equal dates and times |
| `Column.CompareTasksAntisymmetric` | components/Column.tsx:16-26 | Swapping two tasks flips the comparator's sign |
| `Column.CompareTasksTransitive` | components/Column.tsx:16-26 | The comparator's "at or before" is transitive |
| `Column.ColumnComparatorConsistent` | components/Column.tsx:15-27 | The column comparator is consistent in the sense of ECMA-262 |
| `Column.InColumnOrderIff` | components/Column.tsx:17-25 | A task may stand before another exactly when dated precedes undated, dates ascend, timed precedes untimed within a date, and times ascend |
| `Column.ColumnOrderedIsSorted` | components/Column.tsx:15-27 | Column order is exactly "sorted by the comparator" |
| `Column.PeersAreSlot` | components/Column.tsx:26 | The tasks the comparator ties with a task are those sharing its date and time |
| `Column.SortColumnCorrect` | components/Column.tsx:15-27 | The sorted column is a permutation of its input, in column order, and tasks with the same date and time keep their input order |
| `Column.SortColumnDetermined` | components/Column.tsx:15-27 | Any list in column order that keeps each date-and-time slot's input order is the sorted column |
| `Column.SortColumnIdempotent` | components/Column.tsx:15-27 | Sorting a column already in order changes nothing, and sorting twice is sorting once |
| `KanbanBoard.CategoriesListEachOnce` | components/KanbanBoard.tsx:13 | Every category has a column, and no category has two |
| `KanbanBoard.Board` | components/KanbanBoard.tsx:13-21 | The board has four columns, in the order Lavoro, Casa, Corsi, Allenamento |
| `KanbanBoard.ColumnContents` | components/KanbanBoard.tsx:21 | A column receives exactly the tasks of its category, each as often as in the list, in list order |
| `KanbanBoard.FiltersPartition` | components/KanbanBoard.tsx:13-21 | The four category filters together hold each task exactly as often as the list |
| `KanbanBoard.BoardPartitions` | components/KanbanBoard.tsx:13-21 | The concatenated sorted columns are a permutation of the list, and their sizes add up to its length |
| `KanbanBoard.EachTaskInOneColumn` | components/KanbanBoard.tsx:13-21 | A task shows in a column exactly when the column is its category's |
| `Uri.Utf8` | App.tsx:90 | A character encodes to one to four bytes, and to one exactly when it is ASCII |
| `Uri.PercentByte` | App.tsx:90 | A byte is written as `%` and two hexadecimal digits whose values are its high and low halves |
| `Uri.Encode` | App.tsx:90 | `encodeURIComponent`'s output holds only unescaped characters and `%` |
| `Uri.EncodeKeepsUnescaped` | App.tsx:90 | A string of letters, digits and `-_.!~*'()` is left as it is |
| `Uri.EncodeHasNoDelimiters` | App.tsx:93 | An encoded value holds no `&`, `=`, `?`, `#`, `/`, `|`, space or `+` |
| `Uri.DecodePercentBytes` | App.tsx:90 | Percent triples decode back to their bytes |
| `Uri.DecodeEncode` | App.tsx:90 | Percent-decoding an encoded string yields exactly the string's UTF-8 bytes |
| `Uri.ParseQueryString` | App.tsx:93 | A query built from well-formed `key=value` parameters parses back to exactly those parameters |
| `Uri.ParseUrl` | App.tsx:90-93 | A URL of a `?`-free page, `?` and such a query splits back into that page and those parameters |
| `Itinerary.WithLocationAll` | App.tsx:71 | When every task has a location, none is dropped |
| `Itinerary.LocationsSort` | App.tsx:75-83 | Sorting with any comparator keeps the multiset of locations |
| `Itinerary.RouteIsPermutation` | App.tsx:71-83 | The route holds exactly the tasks with a location, each as often as in the list, whatever their dates and times; its stops are their locations, rearranged |
| `Itinerary.RouteStopsPresent` | App.tsx:71-83 | No stop of the route is empty |
| `Itinerary.FullRouteNoneIff` | App.tsx:71-72 | No link is produced exactly when no task has a location |
| `Itinerary.RouteComparatorAgrees` | App.tsx:75-81 | On tasks with a date and a time, the route comparator equals the column comparator |
| `Itinerary.RouteIsColumnSort` | App.tsx:75-81 | When every task with a location has a date and a time, the route is those tasks sorted as a column |
| `Itinerary.RouteOrderScheduled` | App.tsx:75-83 | When every task with a location has a date and a time, the route ascends by date and then by time, and tasks with the same date and time keep their list order |
| `Itinerary.ComparedByDate` | App.tsx:77 | Two tasks with different dates are compared by date |
| `Itinerary.ComparedByTime` | App.tsx:79 | Two timed tasks whose dates do not decide are compared by time |
| `Itinerary.CycleComparisons` | App.tsx:75-81 | A task dated 2024-05-02 at 08:00 is before an undated one at 09:00, which is before one dated 2024-05-01 at 10:00, which is before the first |
| `Itinerary.RouteComparatorInconsistent` | App.tsx:75-81 | The route comparator is not consistent in the sense of ECMA-262 |
| `Itinerary.ExampleSort` | App.tsx:75-81 | Office (05-01 09:00), Gym (05-01 08:00), Home (05-02 10:00) sort to Gym, Office, Home |
| `Itinerary.WorkedExample` | App.tsx:71-83 | The route of those three tasks visits Gym, Office, Home |
| `Itinerary.SingleStopUrl` | App.tsx:89-90 | One stop gives the search page with exactly the parameters `api=1` and `query` set to the encoded stop |
| `Itinerary.DirectionsQueryText` | App.tsx:93 | The directions template is the directions page, `?`, and the query string of its parameters |
| `Itinerary.DirectionsUrl` | App.tsx:91-93 | Several stops give the directions page with exactly `api=1`, the encoded origin, the encoded destination, the encoded joined waypoints when not empty, and `travelmode=driving`, in that order |
| `Itinerary.WaypointsIffThreeStops` | App.tsx:92-93 | With non-empty stops the waypoints parameter is present exactly when there are three stops or more, and it is the encoded `|`-join of the middle stops |
| `Itinerary.PipeSplitsStop` | App.tsx:92-93 | A middle stop `a|b` gives the same link as the two stops `a` and `b` |
| `Itinerary.FullRouteWaypoints` | App.tsx:70-94 | With two or more located tasks the link carries waypoints exactly when three or more tasks have a location |
| `TaskCard.SearchUrlIsSingleStopRoute` | components/TaskCard.tsx:12 | The card's search link equals the route link for that location alone |
| `TaskCard.SearchUrlFindsLocation` | components/TaskCard.tsx:12 | The search link reads back as the search page with `api=1` and a query that percent-decodes to the location's UTF-8 bytes |
| `TaskCard.RouteLinkChoice` | components/TaskCard.tsx:13 | A stored link wins; without one the card falls back to the search page with exactly `api=1` and the encoded location as `query`, the same link as the route for that location alone |
| `TaskCard.Badges` | components/TaskCard.tsx:32-43 | The date badge shows exactly when the date is present, the time badge exactly when the time is, and nothing else shows |
| `NewTaskModal.Submit` | components/NewTaskModal.tsx:38-72 | No task exactly when the title or the location is blank; otherwise the task's title, description, location, category, time and date are the form's |
| `NewTaskModal.SubmitId` | components/NewTaskModal.tsx:63 | An edited task keeps its id unless that id is empty, in which case it gets the fresh id; a new task gets the fresh id |
| `NewTaskModal.SubmitMapsFields` | components/NewTaskModal.tsx:52-60 | The Maps fields come from the lookup exactly for a new task or a changed location; otherwise they are the edited task's and the lookup plays no part |
| `NewTaskModal.EditUnchangedIsIdentity` | components/NewTaskModal.tsx:23-72 | For a task with an id, a title and a location, opening it and saving the form unchanged gives back the same task |
| `NewTaskModal.NewFormIsBlank` | components/NewTaskModal.tsx:14-38 | A new task's form opens blank with category Lavoro and cannot be saved as it is |
| `Store.Replace` | App.tsx:34 | Each position holds the updated task when its id matches, and the old task otherwise; the length is kept |
| `Store.ReplaceKeepsIds` | App.tsx:34 | Updating keeps every id in its place |
| `Store.ReplaceAbsentIsNoOp` | App.tsx:34 | Updating with an id no task has changes nothing |
| `Store.ReplaceIdempotent` | App.tsx:34 | Updating twice with the same task is updating once |
| `Store.ReplaceInstalls` | App.tsx:34 | After an update the updated task is in the list exactly when its id was, and is the only task with that id |
| `Store.ReplaceWithSameIsNoOp` | App.tsx:34 | With unique ids, updating with a task already in the list changes nothing |
| `Store.RemoveKeepsOthers` | App.tsx:40 | Deleting keeps exactly the tasks with another id, in their order, each as often as before |
| `Store.RemoveAbsentIsNoOp` | App.tsx:40 | Deleting an id no task has changes nothing |
| `Store.RemoveIdempotent` | App.tsx:40 | Deleting twice is deleting once |
| `Store.AddThenRemove` | App.tsx:28-40 | Adding a task with a fresh id and deleting that id restores the list |
| `Store.UniqueIdsAfterAdd` | App.tsx:29 | Adding a task with a fresh id keeps ids unique |
| `Store.UniqueIdsAfterReplace` | App.tsx:34 | Updating keeps ids unique |
| `Store.UniqueIdsAfterRemove` | App.tsx:40 | Deleting keeps ids unique |
| `Store.TaskStore.constructor` | App.tsx:16-26 | The list starts as what the slot held, or empty, and the slot then holds it |
| `Store.TaskStore.AddTask` | App.tsx:24-29 | The task is appended, every earlier task stays in place, and the slot holds the new list |
| `Store.TaskStore.UpdateTask` | App.tsx:24-34 | The list becomes the update of the old list, and the slot holds it |
| `Store.TaskStore.DeleteTask` | App.tsx:24-40 | The list becomes the old list without that id, and the slot holds it |
| `Store.TaskStore.Save` | App.tsx:177 | Saving the form updates while a task is being edited and appends otherwise |
| `Store.EditUnchangedKeepsList` | components/NewTaskModal.tsx:23-72 | With unique ids, opening a stored task that has an id, a title and a location and saving it unchanged leaves the list as it was |

## Left out

- Rendering, CSS, icons and the UI flags (`isModalOpen`, `editingTask`, `loading`, `aiAnalysis`) carry no logic with a contract. They are not modelled.
- `localStorage` and JSON are not modelled. Loading takes the parsed contents of the slot as a parameter. The slot itself is the ghost field `saved`. The order of the two mount effects is not modelled.
- `navigator.geolocation`, `async`/`await`, `window.open` and the `getMapsInfo` call are not modelled. The lookup's answer is a parameter of `NewTaskModal.Submit`, used only where the handler awaits it.
- `Date.now().toString()` is not modelled. The fresh id is a parameter, and its freshness is a precondition wherever a lemma needs it.
- Store lemmas that mention `UniqueIds` take it as a precondition. The code never enforces unique ids.
- `optimizeSchedule`, `handleOptimize` with its `alert`, the whole Gemini service and the unused `AIOptimization` interface are not modelled. They are AI-client plumbing.
- `toLocaleDateString` formatting of the date badge is not modelled: `TaskCard.Badges` carries the stored date string.
- Collation.Compare: `localeCompare` is modelled as lexicographic order of characters. That agrees with locale collation on the zero-padded `YYYY-MM-DD` and `HH:MM` strings the date and time inputs produce, but not on arbitrary text.
- Itinerary.RouteOrder: for some lists that mix tasks with and without a date or time, such as the cycle in `Itinerary.RouteComparatorInconsistent`, the comparator is inconsistent on the list's elements and the engine may return any order. Other mixed lists (for instance undated tasks that all have a time) are ordered consistently. The model sorts every list with the same insertion sort as the columns. Order is claimed only when every task on the route has a date and a time; for all other lists only the permutation lemmas are claimed.
- Uri.Encode: Dafny characters are Unicode scalar values, so the `URIError` that `encodeURIComponent` throws on a lone surrogate cannot arise and is not modelled.
- Itinerary.PipeSplitsStop shows that a `|` inside a middle location reads as a stop boundary. No claim is made that waypoints are injection-safe. The proved claim is that no location can add, drop or reorder a query parameter.
- Loading storage has no recovery path: App.tsx:19 calls `JSON.parse` with no `try`, so the model's constructor takes the parsed list and models no fallback for malformed text.
- The waypoint separator `|` is not escaped: App.tsx:92-93 joins the middle stops with `|` before encoding, so a `|` inside a location cannot be told from the separator.
