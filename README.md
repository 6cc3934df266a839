# Prerequisite graph of a course catalog

This project models the core of `parse-drps.py`, which scrapes a university
course catalog and turns it into a prerequisite graph for a hierarchical
visualisation. It models these stages:

- **Course-code recogniser.** The regular expression `[A-Z]{4}\d{4,}`. It is
  used anchored on the first cell of a subject-table row, and as a leftmost
  search on the text of a prerequisite sibling (`CourseCodes`).
- **`get_subject_courses`.** The subject-table rows that become new `Course`
  objects with unset prerequisite lists (`Pages`, `Courses`).
- **`fill_course_prereqs`.** The walk over the siblings of the first
  "MUST"/"RECOMMEND" text node. A two-marker state machine sorts the
  siblings' courses into `required` and `recommended`, then writes both
  fields of the course (`Pages`, `Courses`).
- **`create_all_courses_dictionary`.** Builds an insertion-ordered registry
  from code to course, starting from a copy of the parent registry. It fills
  the courses whose lists are unset, inserts first-write-wins, and, when
  recursing, builds on from the prerequisites not yet registered
  (`Registries`, `Builder`).
- **`create_adjacency_dataframe`.** The 0/1 matrix of "requires" links,
  built column by column, whose rows the driver relabels with the codes
  (`Adjacency`).
- **The driver's trimming loop.** Drops every course whose row and column
  both sum to zero, and keeps the titles aligned (`Frames`, `Trimming`).
- **`create_json_df`.** One record per row: the importing courses, a size,
  the title, and a colour index given by the subject prefix (`Hierarchy`).

How the source's entities map into the model:

- HTML pages become values: a page is a list of rows of cells, plus the
  sibling nodes of the marker's parent. The catalog is a map from page id to
  page, and `Fetch` is a total lookup into it.
- `Course` is a class: its code, page id and title are constants, and its two
  lists are mutable fields.
- The registry is a value: a key sequence plus a map to courses. That makes
  `.copy()` the value itself.
- Exceptions that escape the parser (`TypeError` on a missing link,
  `KeyError` on a missing `href`) become `Err` results.
- The exceptions the source catches become skipped rows or siblings.

Termination of the recursive builder is proved. The measure is
lexicographic:

1. the number of codes not yet registered, out of a finite set holding every
   code the run can meet;
2. whether every seed of the call is still unregistered;
3. the number of seeds;
4. a call rank.

## Model

Every source cell below refers to `codes/2018-07-15-hierarchical-courses/parse-drps.py`.

| member | source | states |
|---|---|---|
| CourseCodes.DigitRun | codes/2018-07-15-hierarchical-courses/parse-drps.py:13 | `\d{4,}` is greedy: the run consumed is all digits and is followed by the end of the text or a non-digit |
| CourseCodes.MatchAt | codes/2018-07-15-hierarchical-courses/parse-drps.py:13 | an anchored match is a code (4 capitals, then at least 4 digits) occurring at the position and ending the digit run; no match means no substring starting there is a code |
| CourseCodes.MatchStart | codes/2018-07-15-hierarchical-courses/parse-drps.py:54 | `match` finds a code that is a prefix of the text and takes the whole digit run after the capitals, or no prefix of the text is a code |
| CourseCodes.SearchFrom | codes/2018-07-15-hierarchical-courses/parse-drps.py:86 | the scan returns the first position from `i` where the anchored match succeeds, and no earlier one succeeds |
| CourseCodes.Search | codes/2018-07-15-hierarchical-courses/parse-drps.py:86-87 | `search` returns the leftmost code occurring in the text, taking the whole digit run there; no match means no substring at all is a code |
| CourseCodes.MatchIsLongest | codes/2018-07-15-hierarchical-courses/parse-drps.py:13 | wherever a code occurs, the anchored match succeeds there and is at least as long (the whole digit run) |
| Text.Contains | codes/2018-07-15-hierarchical-courses/parse-drps.py:77 | `re.search("MUST", markup)` succeeds exactly when the word occurs somewhere in the markup |
| Text.Strip | codes/2018-07-15-hierarchical-courses/parse-drps.py:88 | `strip()` removes only whitespace from both ends, and the result neither starts nor ends with whitespace |
| Text.SliceTo | codes/2018-07-15-hierarchical-courses/parse-drps.py:88 | `s[:e]` counts a negative end from the end of the string and clamps it |
| Pages.Title | codes/2018-07-15-hierarchical-courses/parse-drps.py:88 | the title is the stripped text before the character preceding the code; a code at position 0 gives the whole text minus its last character |
| Pages.Fetch | codes/2018-07-15-hierarchical-courses/parse-drps.py:31-47 | the page for an id is the catalog's page, and a page the catalog lacks has no rows and no marker |
| Pages.SubjectStubs | codes/2018-07-15-hierarchical-courses/parse-drps.py:51-61 | the subject list succeeds exactly when no row raises an escaping exception, and never has more stubs than rows |
| Pages.StubRows | codes/2018-07-15-hierarchical-courses/parse-drps.py:51-58 | the rows that yield a stub, strictly increasing, are exactly the rows whose stub is present |
| Pages.SubjectStubsAreRowStubs | codes/2018-07-15-hierarchical-courses/parse-drps.py:51-60 | a successful parse lists one stub per yielding row, in row order, each the stub of its row |
| Pages.RowStubFromFirstAndThirdCell | codes/2018-07-15-hierarchical-courses/parse-drps.py:53-58 | a row's stub has the code matched at the start of the first cell, and the href and text of the third cell's link |
| Pages.RowStub | codes/2018-07-15-hierarchical-courses/parse-drps.py:53-60 | a row with fewer than three cells or no code at the start of its first cell is skipped; a failing row fails with NoLink exactly when its third cell has no link |
| Pages.RowStubCases | codes/2018-07-15-hierarchical-courses/parse-drps.py:53-60 | a row with at least three cells and a leading code is never skipped; it fails with NoLink exactly when its third cell has no link, and yields a stub exactly when that link has an href |
| Pages.ClassifySnoc | codes/2018-07-15-hierarchical-courses/parse-drps.py:76-98 | one more sibling extends the walk's lists and steps its state |
| Pages.Step | codes/2018-07-15-hierarchical-courses/parse-drps.py:76-82 | a sibling that is not a marker leaves the state as it was; a marker sets it to a section |
| Pages.NodeStub | codes/2018-07-15-hierarchical-courses/parse-drps.py:84-96 | a classified sibling fails, with NoHref, exactly when its text holds a code and it has no href |
| Pages.NodeStubCases | codes/2018-07-15-hierarchical-courses/parse-drps.py:84-96 | a sibling is skipped exactly when it has no text or no code in its text, yields a stub exactly when it has a code and an href, and that stub's title is the stripped text before the code |
| Pages.Extend | codes/2018-07-15-hierarchical-courses/parse-drps.py:84-96 | one more sibling never clears a failure, and the only failure it adds is NoHref |
| Pages.Classify | codes/2018-07-15-hierarchical-courses/parse-drps.py:74-98 | the walk fails only with NoHref |
| Pages.ClassifyLastOk | codes/2018-07-15-hierarchical-courses/parse-drps.py:84-98 | the walk succeeds on one more sibling exactly when it succeeded before and that sibling, if classified, does not fail |
| Pages.PagePrereqs | codes/2018-07-15-hierarchical-courses/parse-drps.py:64-101 | a page without a marker gives two empty lists; a page fails only with NoHref |
| Pages.Contributors | codes/2018-07-15-hierarchical-courses/parse-drps.py:84-96 | the siblings contributing to a section, in document order, are exactly those that do |
| Pages.ContributorsSnoc | codes/2018-07-15-hierarchical-courses/parse-drps.py:76-98 | contributors of a prefix are those of the whole list that lie in it |
| Pages.ClassifyFailsOnlyWithoutHref | codes/2018-07-15-hierarchical-courses/parse-drps.py:84-98 | the walk succeeds exactly when every sibling it classifies after a marker has no code or has an href |
| Pages.ClassifyCollectsContributors | codes/2018-07-15-hierarchical-courses/parse-drps.py:76-98 | `required` holds the stubs of the siblings under a MUST marker and `recommended` those under a RECOMMEND marker, each in document order |
| Pages.UnclassifiedBeforeMarkers | codes/2018-07-15-hierarchical-courses/parse-drps.py:75-82 | before any marker the state is "" |
| Pages.LastMarkerDecides | codes/2018-07-15-hierarchical-courses/parse-drps.py:76-82 | after a marker the state is set by the last marker seen, MUST winning within one sibling, and never goes back to "" |
| Pages.NodeStubCode | codes/2018-07-15-hierarchical-courses/parse-drps.py:86-89 | a sibling's stub carries the leftmost code of its text, which the recogniser accepts, and the sibling's href |
| Pages.ClassifiedCodesAreCodes | codes/2018-07-15-hierarchical-courses/parse-drps.py:84-96 | every classified stub names a recognised code that occurs in a sibling's text |
| Pages.PrereqCodesInText | codes/2018-07-15-hierarchical-courses/parse-drps.py:63-101 | every code a page lists is one of the codes written in the catalog, a finite set |
| Courses.Course.constructor | codes/2018-07-15-hierarchical-courses/parse-drps.py:17-24 | a new course has the given code, page id and title, and both lists unset |
| Courses.SubjectCourses | codes/2018-07-15-hierarchical-courses/parse-drps.py:48-61 | `get_subject_courses` returns one new course with unset lists per stub of the subject page, in row order, or the exception the page raises |
| Courses.SubjectStubsFailAt | codes/2018-07-15-hierarchical-courses/parse-drps.py:53-60 | an exception escaping at one row fails the whole subject list with it |
| Courses.FillPrereqs | codes/2018-07-15-hierarchical-courses/parse-drps.py:63-101 | on success both lists are set to new unfilled courses whose data are the walk's stubs (both empty without a marker); an escaping exception leaves the course as it was |
| Courses.WalkSiblings | codes/2018-07-15-hierarchical-courses/parse-drps.py:74-98 | the loop's two lists are new courses carrying exactly the walk's stubs, or it fails with the walk's exception |
| Courses.AddSibling | codes/2018-07-15-hierarchical-courses/parse-drps.py:84-96 | a sibling in an active section appends a new course to that section's list exactly as the walk extends it |
| Courses.NewStubCourse | codes/2018-07-15-hierarchical-courses/parse-drps.py:86-89 | the body of the walk's `try`: a new course built from the sibling's stub, nothing when AttributeError is caught, failure when `href` is missing |
| Courses.ClassifyFailsAt | codes/2018-07-15-hierarchical-courses/parse-drps.py:84-98 | an exception at one sibling is the outcome of the whole walk |
| Registries.EmptyRegistry | codes/2018-07-15-hierarchical-courses/parse-drps.py:104-105 | a new OrderedDict is valid and has no keys and no courses |
| Registries.Registry.Set | codes/2018-07-15-hierarchical-courses/parse-drps.py:111-112 | setting a key maps it to the course and keeps the old keys first, in place |
| Registries.Registry.Register | codes/2018-07-15-hierarchical-courses/parse-drps.py:111-112 | registering a course under a free code maps the code to it; an existing code leaves the registry unchanged |
| Registries.SetValid | codes/2018-07-15-hierarchical-courses/parse-drps.py:111-112 | inserting keeps keys distinct and listed; a new key goes last, leaving the rest in place |
| Registries.UpdateByExtension | codes/2018-07-15-hierarchical-courses/parse-drps.py:117-118 | `update` with a sub-result that extends the registry yields exactly that sub-result: nothing present is replaced or moved |
| Registries.Update | codes/2018-07-15-hierarchical-courses/parse-drps.py:117-118 | after `update` every key of the sub-result maps to its course there, every other key keeps its course, the keys are the union, and the old keys stay first |
| Registries.UpdateWithEntries | codes/2018-07-15-hierarchical-courses/parse-drps.py:117-118 | setting keys in order gives each key its new course, leaves the others, and keeps the old keys first |
| Registries.Merge | codes/2018-07-15-hierarchical-courses/parse-drps.py:108-112 | with recursion off, every course already in the parent keeps its entry and the parent's keys stay first |
| Registries.MergeValid | codes/2018-07-15-hierarchical-courses/parse-drps.py:108-112 | without recursion the registry stays valid, extends the parent, and holds exactly the parent's codes plus the seeds' codes |
| Registries.MergeKeys | codes/2018-07-15-hierarchical-courses/parse-drps.py:108-112 | without recursion the keys are the parent's, then the seeds' new codes, each once, in order of first occurrence |
| Registries.MergeEntries | codes/2018-07-15-hierarchical-courses/parse-drps.py:108-112 | first write wins: each new code maps to the first seed carrying it |
| Builder.Unregistered | codes/2018-07-15-hierarchical-courses/parse-drps.py:114-115 | the filter keeps exactly the courses whose code is not yet registered |
| Builder.UnregisteredEmpty | codes/2018-07-15-hierarchical-courses/parse-drps.py:114-115 | filtering an empty list gives an empty list |
| Builder.UnregisteredSnoc | codes/2018-07-15-hierarchical-courses/parse-drps.py:114-115 | the filter keeps order and repeats: a course at the end is kept at the end exactly when its code is not registered |
| Builder.FilterCovers | codes/2018-07-15-hierarchical-courses/parse-drps.py:114-118 | filtering before recursing loses nothing once the filtered courses are registered |
| Builder.FillWithin | codes/2018-07-15-hierarchical-courses/parse-drps.py:110 | filling succeeds exactly when the page's walk does; the course's lists then carry exactly the walk's required and recommended stubs, as new unfilled courses whose codes are written in the catalog; failure reports the walk's exception and changes nothing |
| Builder.FillIfUnset | codes/2018-07-15-hierarchical-courses/parse-drps.py:109-110 | a filled course is left alone and succeeds; an unfilled one gets exactly its page's required and recommended stubs, or the walk's exception with the course unchanged |
| Builder.Enter | codes/2018-07-15-hierarchical-courses/parse-drps.py:109-112 | fill if unset, then insert under the course's code only if that code is free |
| Builder.RegisterGood | codes/2018-07-15-hierarchical-courses/parse-drps.py:111-112 | first-write-wins insertion of a filled course keeps the registry valid and keyed, and adds at most that course |
| Builder.Visit | codes/2018-07-15-hierarchical-courses/parse-drps.py:109-118 | one pass of the loop body registers and fills the course, makes it the entry of its code when that code was free, keeps that entry through the recursion, and, when recursing, registers every code it lists |
| Builder.Deepen | codes/2018-07-15-hierarchical-courses/parse-drps.py:113-118 | after both recursive builds every code the course lists is registered, the registry extends the one holding the course's own entry (so that entry is not overwritten), and earlier entries keep their lists |
| Builder.Descend | codes/2018-07-15-hierarchical-courses/parse-drps.py:114-117 | both lists are filtered against the registry before the required recursion runs |
| Builder.BuildRecommended | codes/2018-07-15-hierarchical-courses/parse-drps.py:118 | the recommended recursion uses the list filtered before the required one ran |
| Builder.BuildOn | codes/2018-07-15-hierarchical-courses/parse-drps.py:117-118 | a recursive call on the current registry, merged back by `update`, extends it |
| Builder.Step | codes/2018-07-15-hierarchical-courses/parse-drps.py:108-118 | one iteration extends the registry so far, makes its seed the entry of its code when that code was free, and keeps every earlier seed registered and filled |
| Builder.Iterate | codes/2018-07-15-hierarchical-courses/parse-drps.py:108-118 | one iteration with the registries so far recorded keeps first write wins across the loop |
| Builder.FirstWriteWinsSnoc | codes/2018-07-15-hierarchical-courses/parse-drps.py:109-112 | an iteration that extends the registry and writes its seed when its code is free extends the record of first writes by one |
| Builder.Build | codes/2018-07-15-hierarchical-courses/parse-drps.py:104-119 | the loop yields a valid keyed registry extending the parent, holding every seed filled, closed under the listed codes when recursing, and equal to the first-write-wins merge otherwise; with or without recursion, each seed whose code was free when its iteration began is that code's entry at the end (`FirstWriteWins` over the registries before each iteration) |
| Builder.CreateAllCoursesDictionary | codes/2018-07-15-hierarchical-courses/parse-drps.py:103-119 | the result extends the start registry and holds every given course filled; with recursion every entry's listed codes are keys; new keys are reachable codes or catalog codes; without recursion it is the ordered first-write-wins merge, and in both modes each course whose code was free when its iteration began is that code's entry |
| Builder.Start | codes/2018-07-15-hierarchical-courses/parse-drps.py:104-107 | with no parent the build starts from an empty valid registry, otherwise from the parent itself |
| Frames.SubFrame | codes/2018-07-15-hierarchical-courses/parse-drps.py:175-176 | the frame restricted to some positions is square, with the picked labels and entries |
| Frames.SubFrameIdentity | codes/2018-07-15-hierarchical-courses/parse-drps.py:171-173 | restricting to every position changes nothing |
| Frames.DropSubFrame | codes/2018-07-15-hierarchical-courses/parse-drps.py:175-176 | dropping a row and column of a restriction gives the restriction without that position |
| Frames.SumZero | codes/2018-07-15-hierarchical-courses/parse-drps.py:174 | a sum of non-negative entries is zero exactly when every entry is |
| Frames.SumPick | codes/2018-07-15-hierarchical-courses/parse-drps.py:174 | leaving out only zero entries keeps the sum |
| Frames.ColumnSum | codes/2018-07-15-hierarchical-courses/parse-drps.py:174 | on a non-negative frame a column sums to zero exactly when every entry in it is zero |
| Frames.RowSum | codes/2018-07-15-hierarchical-courses/parse-drps.py:174 | on a non-negative frame a row sums to zero exactly when every entry in it is zero |
| Frames.DropRow | codes/2018-07-15-hierarchical-courses/parse-drps.py:175 | dropping a row keeps the columns and removes that row label |
| Frames.DropColumn | codes/2018-07-15-hierarchical-courses/parse-drps.py:176 | dropping a column keeps the rows and removes that column label |
| Frames.DropEntry | codes/2018-07-15-hierarchical-courses/parse-drps.py:175-176 | after dropping row and column `p`, each entry is the original one shifted past `p` |
| Frames.IncreasingUnique | codes/2018-07-15-hierarchical-courses/parse-drps.py:173-179 | two increasing position lists with the same members are equal |
| Trimming.Kept | codes/2018-07-15-hierarchical-courses/parse-drps.py:174 | the kept positions, increasing, are exactly those whose row or column sum is non-zero |
| Trimming.SubFrameSums | codes/2018-07-15-hierarchical-courses/parse-drps.py:174 | with only unlinked courses dropped, the sums the loop tests are those of the original frame |
| Trimming.LocateColumn | codes/2018-07-15-hierarchical-courses/parse-drps.py:173-178 | the loop finds each original code at its position in the current frame |
| Trimming.TrimStep | codes/2018-07-15-hierarchical-courses/parse-drps.py:174-176 | dropping an unlinked code moves the current frame on to the next restriction |
| Trimming.TrimAt | codes/2018-07-15-hierarchical-courses/parse-drps.py:174-178 | one iteration drops the code when both sums are zero and otherwise appends its title |
| Trimming.TrimUnlinked | codes/2018-07-15-hierarchical-courses/parse-drps.py:171-179 | the loop leaves the frame restricted to the linked codes of the original, in order and whatever the drop order, with their titles aligned |
| Trimming.TrimmedLinked | codes/2018-07-15-hierarchical-courses/parse-drps.py:171-179 | every course left after trimming still has a link in the trimmed frame |
| Trimming.TrimIdempotent | codes/2018-07-15-hierarchical-courses/parse-drps.py:171-179 | trimming the trimmed frame again keeps every position |
| Adjacency.AdjacencyOf | codes/2018-07-15-hierarchical-courses/parse-drps.py:121-132 | the matrix has one column per key, in registry order, and its rows labelled by the titles |
| Adjacency.LinkColumn | codes/2018-07-15-hierarchical-courses/parse-drps.py:126-129 | a course's column has one entry per registered course |
| Adjacency.Requirements | codes/2018-07-15-hierarchical-courses/parse-drps.py:127 | one list of required codes per registered course, in key order |
| Adjacency.RequirementsMembers | codes/2018-07-15-hierarchical-courses/parse-drps.py:127 | a course requires a code exactly when a course on its required list has that code |
| Adjacency.Relabel | codes/2018-07-15-hierarchical-courses/parse-drps.py:168 | relabelling the rows with the codes gives a square frame |
| Adjacency.AdjacencyEntries | codes/2018-07-15-hierarchical-courses/parse-drps.py:126-129 | entry (row j, column i) is 1 exactly when course i requires code j, and 0 otherwise; the matrix need not be symmetric |
| Adjacency.UnlinkedIff | codes/2018-07-15-hierarchical-courses/parse-drps.py:174 | a course is trimmed exactly when it requires no registered course and no registered course requires it |
| Adjacency.Titles | codes/2018-07-15-hierarchical-courses/parse-drps.py:131 | the row labels are the registered courses' titles in key order |
| Adjacency.LinkColumnSnoc | codes/2018-07-15-hierarchical-courses/parse-drps.py:127-129 | one more required code sets the entry at its key's position, or nothing when it is not registered |
| Adjacency.CreateAdjacencyFrame | codes/2018-07-15-hierarchical-courses/parse-drps.py:121-132 | the nested loops produce exactly the adjacency matrix of the registry's required codes, or fail when some course's required list is unset |
| Hierarchy.Prefix | codes/2018-07-15-hierarchical-courses/parse-drps.py:135 | `x[:4]` is the first four characters, or the whole string when shorter |
| Hierarchy.Insert | codes/2018-07-15-hierarchical-courses/parse-drps.py:135 | inserting into a strictly sorted list keeps it strictly sorted and adds exactly the element |
| Hierarchy.SortedPrefixes | codes/2018-07-15-hierarchical-courses/parse-drps.py:135 | the distinct prefixes of the columns, strictly sorted, holding exactly the columns' prefixes |
| Hierarchy.SortedUnique | codes/2018-07-15-hierarchical-courses/parse-drps.py:135 | a strictly sorted list is determined by its elements, so `sorted(set(...))` has one outcome |
| Hierarchy.ColourOrder | codes/2018-07-15-hierarchical-courses/parse-drps.py:135-145 | colour indices follow the prefix order and are equal exactly for equal prefixes |
| Hierarchy.ImportsMembers | codes/2018-07-15-hierarchical-courses/parse-drps.py:144 | the imports of a row are exactly the labels of the columns non-zero in that row |
| Hierarchy.Imports | codes/2018-07-15-hierarchical-courses/parse-drps.py:144 | the imports of a row are column labels of the frame |
| Hierarchy.CreateJsonRecords | codes/2018-07-15-hierarchical-courses/parse-drps.py:134-147 | one record per row, in row order: its code, `size == len(imports) + 1`, its title, the colour index of its prefix and its imports; a missing title or unknown prefix fails the call |
| Hierarchy.SquareHasRecords | codes/2018-07-15-hierarchical-courses/parse-drps.py:145 | when the rows carry the column labels every prefix has a colour |
| Hierarchy.ImportsAreDependents | codes/2018-07-15-hierarchical-courses/parse-drps.py:144 | on the relabelled matrix, whole or trimmed, a course's imports are exactly the kept courses that require it |
| Hierarchy.DependentImport | codes/2018-07-15-hierarchical-courses/parse-drps.py:144 | one code is imported by a row exactly when it is a kept course requiring that row's course |
| Hierarchy.DependentCell | codes/2018-07-15-hierarchical-courses/parse-drps.py:144 | an entry of the trimmed, relabelled matrix is non-zero exactly when its column's course requires its row's course |
| Text.LessTotal | codes/2018-07-15-hierarchical-courses/parse-drps.py:135 | Python's string order is total |
| Text.LessTransitive | codes/2018-07-15-hierarchical-courses/parse-drps.py:135 | Python's string order is transitive |
| Text.LessAsymmetric | codes/2018-07-15-hierarchical-courses/parse-drps.py:135 | Python's string order is asymmetric |

## Left out

- Fetching: `scrape_urlid` (HTTP, the on-disk cache, status logging) is replaced by a total lookup in an abstract catalog, where a missing page is empty.
- Parsing: BeautifulSoup is replaced by abstract rows, cells and sibling nodes. Their `.text`, markup and `href` are given as data.
- Colours: matplotlib colour maps and `rgb2hex` are left out. A record keeps the index of its prefix among the sorted prefixes.
- Containers and files: pandas, numpy, CSV and JSON writing are left out. The frame is a column-major sequence of integer columns, and int8 storage is not modelled, since entries are only 0 and 1.
- The driver: it is left out except for the trimming loop, including the CSV-cache branch and its use of an undefined `all_courses`. `Adjacency.Relabel` models line 168 only.
- Builder.CreateAllCoursesDictionary: takes a ghost set `objs` of the reachable courses, closed under their filled lists, which stands in for Python's heap. Its new keys are proved to lie within those courses' codes plus the codes written in the catalog, and with recursion to be closed under the listed codes. Equality with the exact reachable set is not stated.
- Builder.Build: the loop body is split into `Step`, `Visit`, `Enter`, `Deepen`, `Descend`, `BuildRecommended` and `BuildOn`. Each is one piece of lines 109-118, and together they do what the body does.
- Builder.Build: the ghost `trace` it returns is constrained to start at the parent, end at the result and grow from one iteration to the next. The contract does not state that `trace[i]` is exactly the registry before iteration `i`, though the loop builds it so. The per-iteration rule is stated exactly by `Builder.Step` (and `Builder.Visit`, `Builder.Deepen`).
- Builder.Build: does not restate the page contents of each course it fills. Those are stated by `Courses.FillPrereqs` and passed on by `Builder.FillWithin` and `Builder.FillIfUnset`.
- Trimming.TrimUnlinked: requires distinct codes and non-negative entries. Both hold for the relabelled adjacency matrix, since registry keys are distinct and entries are 0 or 1. With duplicate labels, pandas would drop every copy at once.
- Courses.WalkSiblings and Trimming.TrimUnlinked: the loop body is a separate method (`AddSibling`, `TrimAt`).
- Fill idempotence: calling `fill_course_prereqs` twice is not modelled. The builder calls it only on a course with an unset list, and `Builder.FillIfUnset` states that a filled course is left alone.
