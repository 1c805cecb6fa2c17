# IIST-connect: a Dafny model of the portal's page logic

IIST-connect is a college portal with a student side and an admin side. Students sign in, browse and
search events, clubs and placements, join clubs (the club page refuses a third; the dashboard's Join button does not check), rate events, read study notes by year,
see notifications and keep their own profile. Admins filter the student table, import students
from CSV, edit club details, upload notes, print check-in QR codes, look at analytics and download
CSV reports. All data lives in a hosted Postgres backend, and each page works on the rows it fetched.

This project models the logic of those pages, one Dafny module per component:
- what each page filters, sorts, merges or builds from the rows it has;
- which write it sends;
- how its state changes in response.

Every answer from the backend is a parameter of the model:
- query results;
- error codes;
- upload URLs;
- the signed-in user.

Other parameters:
- `Math.random()` text;
- `window.location.origin`;
- the QR encoder;
- the local-calendar view of a timestamp;
- `toLowerCase` and `localeCompare`;
- `toUpperCase`, on the whole string, so it may lengthen it.

What is proved covers these areas:
- filter specifications, as if-and-only-if membership plus order preservation;
- the sort orders of the three dashboard lists, with stability;
- round trips: split/join, `parseInt` of `String(n)`, club details saved and re-opened;
- counter invariants of the notification badge;
- the batch partition of the CSV import;
- the shape of generated CSV reports and file names.

Shared modules:
- `Wrappers`: `Option`.
- `Seqs`: JavaScript `filter`, `map`, the index-filter `filter((_, i) => i !== index)`, stable `sort`, `reverse` and sums.
- `Text`: ECMAScript whitespace, `trim`, `split`/`join`, `includes`, `parseInt` and `String(n)`.
- `Initials`: the `getInitials` helper that two pages share.
- `ClubBlob`: the loosely typed leadership value of a club's `details`.
- `Uploads`: the image checks both image pickers make.

## Model

| member | source | states |
|---|---|---|
| Seqs.Filter | src/pages/StudentDashboard.tsx:213-222 | every kept element satisfies the predicate and the result is no longer than the input |
| Seqs.FilterMembership | src/pages/StudentDashboard.tsx:213-216 | an element is in `filter(p)` exactly when it is in the list and satisfies `p` |
| Seqs.FilterIsSubsequence | src/pages/StudentDashboard.tsx:213-216 | `filter` keeps the surviving elements in their original order |
| Seqs.SubsequenceTransitive | src/pages/AdminDashboard.tsx:117-131 | an order-preserving sub-list of one is a sub-list of the original list |
| Seqs.FilterMultiplicity | src/pages/AdminDashboard.tsx:117-131 | `filter` keeps every copy of a passing element and no copy of a failing one |
| Seqs.FilterIdempotent | src/pages/AdminDashboard.tsx:117-131 | filtering twice with the same predicate equals filtering once |
| Seqs.FilterFilter | src/pages/AdminDashboard.tsx:117-131 | two successive filters keep what the conjunction keeps |
| Seqs.FilterAll | src/pages/AdminDashboard.tsx:117-131 | a predicate true of every element keeps the whole list |
| Seqs.FilterCongruent | src/pages/AdminDashboard.tsx:117-131 | predicates that agree on the list's elements filter it alike |
| Seqs.FilterThen | src/pages/AdminDashboard.tsx:117-131 | two successive filters equal one filter by their conjunction |
| Seqs.FilterCommute | src/pages/AdminDashboard.tsx:117-131 | the order of two successive filters does not matter |
| Seqs.FilterPartition | src/pages/StudentDashboard.tsx:218-222 | a filter and its negation split a list: the lengths add up and each element lands in exactly one part |
| Seqs.Map | src/components/admin/ReportsGeneration.tsx:25-28 | `map(f)` keeps the length and puts `f` of each element at its index |
| Seqs.MapAppend | src/components/admin/AnalyticsDashboard.tsx:82-94 | mapping a concatenation maps each part |
| Seqs.RemoveAt | src/components/admin/EditClubDialog.tsx:137 | `filter((_, i) => i !== index)` drops exactly the element at an in-range index; out of range it keeps the list |
| Seqs.RemoveAtMultiset | src/components/admin/EditClubDialog.tsx:162-168 | removing at an in-range index takes out exactly one occurrence of that element |
| Seqs.SetAt | src/components/admin/EditClubDialog.tsx:106-107 | a copy with `[index] = v` has `v` there and every other position unchanged |
| Seqs.FilterSorted | src/components/EventCalendar.tsx:28-35 | filtering a sorted list leaves it sorted |
| Seqs.Insert | src/pages/StudentDashboard.tsx:224-229 | insertion keeps the multiset of elements plus the new one |
| Seqs.SortBy | src/pages/StudentDashboard.tsx:224-229 | the stable sort returns a permutation of its input |
| Seqs.InsertSorted | src/pages/StudentDashboard.tsx:224-229 | inserting into a sorted list by a total preorder keeps it sorted |
| Seqs.SortBySorted | src/pages/StudentDashboard.tsx:224-229 | with a consistent comparator the sort yields a sorted permutation |
| Seqs.SortByAllEqual | src/pages/StudentDashboard.tsx:228 | a comparator that returns 0 for every pair leaves the order unchanged |
| Seqs.SumAppend | src/components/admin/AnalyticsDashboard.tsx:72 | a sum over a concatenation is the sum of the two sums |
| Seqs.Reverse | src/components/admin/AnalyticsDashboard.tsx:45 | `reverse()` puts the element at `i` at position `n - 1 - i` |
| Text.TrimStart | src/components/admin/BulkStudentImport.tsx:33 | the result is a suffix; what was dropped is whitespace; it does not start with whitespace |
| Text.TrimEnd | src/components/admin/BulkStudentImport.tsx:33 | the result is a prefix; what was dropped is whitespace; it does not end with whitespace |
| Text.Trim | src/components/admin/BulkStudentImport.tsx:33 | `trim()` is a slice with only whitespace around it, with no whitespace at either end |
| Text.TrimEmptyIffBlank | src/components/admin/BulkStudentImport.tsx:32 | a line is falsy after `trim` exactly when it is all whitespace |
| Text.Split | src/components/admin/BulkStudentImport.tsx:32 | `split` on one character gives at least one piece, and no piece holds the separator |
| Text.JoinAvoids | src/components/ProfileManagement.tsx:64-67 | a character in neither the pieces nor the separator is not in their join |
| Text.JoinSplit | src/components/admin/BulkStudentImport.tsx:32 | joining the pieces of a split with the separator gives the string back |
| Text.SplitJoin | src/components/admin/BulkStudentImport.tsx:47 | splitting a join of separator-free pieces gives the pieces back |
| Text.SplitNoSeparator | src/components/ProfileManagement.tsx:27 | a string without the separator splits into itself alone |
| Text.SplitWithSeparator | src/components/admin/BulkStudentImport.tsx:47 | splitting `a + sep + b`, `a` separator-free, gives `a` followed by the pieces of `b` |
| Text.LastPieceIsSuffix | src/components/ProfileManagement.tsx:27 | `split(sep).pop()` is the separator-free text after the last separator, or the whole string when there is none |
| Text.LastPieceAfter | src/components/admin/NotesManager.tsx:196 | `stem + sep + ext`, `ext` separator-free, has `ext` as its last piece |
| Text.LastOfJoin | src/components/ProfileManagement.tsx:27 | the last of the joined pieces follows the last separator of the join |
| Text.ContainsAt | src/pages/StudentDashboard.tsx:214 | `includes` holds exactly when the needle occurs at some position |
| Text.ContainsWitness | src/pages/StudentDashboard.tsx:214 | a string that includes the needle has a position where it occurs |
| Text.OccursContains | src/pages/StudentDashboard.tsx:214 | an occurrence at a position makes `includes` true |
| Text.ContainsEmpty | src/pages/StudentDashboard.tsx:214 | every string includes the empty string |
| Text.EmptyTermMatchesAll | src/pages/StudentDashboard.tsx:213-216 | with an empty search term every item matches |
| Text.DigitChar | src/components/admin/NotesManager.tsx:68 | the digit character of `d < 10` has value `d` |
| Text.NatToString | src/components/admin/NotesManager.tsx:68 | `String(n)` is a non-empty digit string with no leading zero unless it is "0" |
| Text.ValueOfNatToString | src/components/admin/NotesManager.tsx:68 | the decimal value of `String(n)` is `n` |
| Text.TakeWhileDigits | src/components/admin/BulkStudentImport.tsx:56-57 | `parseInt` reads the longest digit prefix and stops at the first non-digit |
| Text.ParseUnsignedDigits | src/components/admin/BulkStudentImport.tsx:56-57 | `parseInt` of a plain decimal digit string is its value |
| Text.ParseIntNatToString | src/pages/AdminDashboard.tsx:121 | `parseInt(String(n)) === n` for every `n >= 0` |
| Text.ParseIntIntToString | src/pages/AdminDashboard.tsx:124 | `parseInt(String(i)) === i` for every integer, negative ones included |
| Text.NatToStringInjective | src/components/admin/NotesManager.tsx:68 | `String(m) === String(n)` exactly when `m === n` |
| Initials.Words | src/pages/StudentDashboard.tsx:202-205 | the words that have a first character are non-empty |
| Initials.FirstCharsOfWords | src/pages/StudentDashboard.tsx:205-206 | `map(n => n[0]).join('')` is the first characters of the non-empty words, in order |
| Initials.Letters | src/pages/StudentDashboard.tsx:205 | one letter per word, the word's first character |
| Initials.GetInitials | src/pages/StudentDashboard.tsx:202-209 | at most two characters: the first two of the upper-cased joined first characters, all of them when fewer |
| Initials.CharwiseInitials | src/pages/StudentDashboard.tsx:202-209 | when upper-casing maps character by character, each initial is the upper-cased first character of the next non-empty word |
| Initials.UpperCaseCanLengthen | src/pages/StudentDashboard.tsx:207-208 | when upper-casing turns 'ß' into "SS", the name "ßa b" gets the initials "SS" |
| Initials.SingleWord | src/components/ProfileManagement.tsx:63-70 | a name with no space gives its upper-cased first character, cut to two |
| Initials.TwoWords | src/components/ProfileManagement.tsx:63-70 | "First Last" gives the upper-cased two first characters, cut to two |
| AdminDashboard.StepIsFilter | src/pages/AdminDashboard.tsx:120-130 | each guarded `filter` step filters by "all, or this dimension matches" |
| AdminDashboard.ApplyFiltersIsConjunction | src/pages/AdminDashboard.tsx:117-133 | the four steps together filter by the conjunction of the four choices |
| AdminDashboard.ListedIff | src/pages/AdminDashboard.tsx:117-133 | a student is listed exactly when fetched and matching every dimension that is not "all" |
| AdminDashboard.ListedInOrder | src/pages/AdminDashboard.tsx:117-133 | the listed students keep the fetched order |
| AdminDashboard.ApplyFiltersIdempotent | src/pages/AdminDashboard.tsx:117-133 | filtering the listed students again with the same choices changes nothing |
| AdminDashboard.AllShowsEverything | src/pages/AdminDashboard.tsx:117-133 | with every select at "all" the whole list is shown |
| AdminDashboard.DimensionsCommute | src/pages/AdminDashboard.tsx:117-133 | the four dimensions can be applied in any order |
| AdminDashboard.YearChoice | src/pages/AdminDashboard.tsx:120-121 | choosing year `n` keeps exactly the students whose year is `n` |
| AdminDashboard.TotalLabelCount | src/pages/AdminDashboard.tsx:328 | the "Total" count never exceeds the number of fetched students |
| AdminDashboard.AttendanceCounts | src/pages/AdminDashboard.tsx:71-81 | with events fetched, one entry per event id holding its exact count or 0; with none, no map |
| AdminDashboard.NewEvent | src/pages/AdminDashboard.tsx:134-147 | the inserted event carries the form's fields and status 'active' |
| AdminDashboard.NewPlacement | src/pages/AdminDashboard.tsx:158-169 | the inserted placement carries the form's fields, status 'active' and semesters exactly 7 and 8 |
| StudentDashboard.FilteredEvents | src/pages/StudentDashboard.tsx:212-230 | the list is a permutation of the events that match the search and the upcoming/past choice |
| StudentDashboard.FilteredClubs | src/pages/StudentDashboard.tsx:232-247 | the list is a permutation of the clubs that match the search |
| StudentDashboard.FilteredPlacements | src/pages/StudentDashboard.tsx:249-260 | a "company" sort over two or more matches with one lacking a company throws; otherwise the list is a permutation of the placements that match the search |
| StudentDashboard.EventListedIff | src/pages/StudentDashboard.tsx:212-230 | an event is listed exactly when fetched, matching the search and on the chosen side of now |
| StudentDashboard.UpcomingPastPartition | src/pages/StudentDashboard.tsx:218-222 | "upcoming" and "past" split the searched events with nothing lost or shared |
| StudentDashboard.DateAscSorted | src/pages/StudentDashboard.tsx:225 | "date-asc" lists events in non-decreasing time |
| StudentDashboard.DateDescSorted | src/pages/StudentDashboard.tsx:226 | "date-desc" lists events in non-increasing time |
| StudentDashboard.TitleSorted | src/pages/StudentDashboard.tsx:227 | "title" lists events in `localeCompare` order |
| StudentDashboard.EventsUnknownSortKeepsOrder | src/pages/StudentDashboard.tsx:228 | any other sort key keeps the filtered order |
| StudentDashboard.ClubListedIff | src/pages/StudentDashboard.tsx:232-236 | a club is listed exactly when fetched and its name or description matches |
| StudentDashboard.MembersSorted | src/pages/StudentDashboard.tsx:240-244 | "members" lists clubs by non-increasing member count, a missing count as 0 |
| StudentDashboard.NameSorted | src/pages/StudentDashboard.tsx:239 | "name" lists clubs in `localeCompare` order |
| StudentDashboard.ClubsUnknownSortKeepsOrder | src/pages/StudentDashboard.tsx:245 | any other sort key, the default "date-desc" included, keeps the searched order |
| StudentDashboard.RecentSorted | src/pages/StudentDashboard.tsx:256 | "recent" never throws and lists placements newest first |
| StudentDashboard.CompanySorted | src/pages/StudentDashboard.tsx:257 | with every company present, "company" succeeds; when it succeeds, the placements are in `localeCompare` order of the company |
| StudentDashboard.CompanyCompareAgrees | src/pages/StudentDashboard.tsx:257 | the comparator throws exactly when its left placement has no company, and otherwise compares the company with the right one's, null as "null" |
| StudentDashboard.CompanyOrderSorted | src/pages/StudentDashboard.tsx:257 | a list sorted by the company comparator has every pair's companies in `localeCompare` order |
| StudentDashboard.PlacementListedIff | src/pages/StudentDashboard.tsx:249-253 | when the sort does not throw, a placement is listed exactly when fetched and its title or company matches |
| StudentDashboard.PlacementsUnknownSortKeepsOrder | src/pages/StudentDashboard.tsx:258 | any other sort key keeps the searched order and never throws |
| StudentDashboard.NewPlacementsReachEligible | src/pages/StudentDashboard.tsx:121 | a student loads placements exactly in the semesters the admin's new placements are open to |
| BulkStudentImport.NonBlankLines | src/components/admin/BulkStudentImport.tsx:32 | no kept line is all whitespace |
| BulkStudentImport.Fields | src/components/admin/BulkStudentImport.tsx:33 | one trimmed field per comma-separated piece |
| BulkStudentImport.Assign | src/components/admin/BulkStudentImport.tsx:50-53 | the record's keys are exactly the headers |
| BulkStudentImport.BatchesPartition | src/components/admin/BulkStudentImport.tsx:63-68 | the batches cover every row once, in order, each of 1 to 100 rows, all but the last of exactly 100 |
| BulkStudentImport.InsertBatches | src/components/admin/BulkStudentImport.tsx:63-77 | the loop sends those batches; success plus error counts equal the row count; success counts the accepted batches |
| BulkStudentImport.CollectStudents | src/components/admin/BulkStudentImport.tsx:45-60 | the row loop yields the records of the data lines that fit the header count |
| BulkStudentImport.HandleFileUpload | src/components/admin/BulkStudentImport.tsx:24-87 | no file does nothing; no non-blank line fails; a missing header is refused; otherwise the parsed rows are batched and counted |
| BulkStudentImport.RecordsOf | src/components/admin/BulkStudentImport.tsx:46-59 | one record per fitting line |
| BulkStudentImport.ParsedRowsKeep | src/components/admin/BulkStudentImport.tsx:46-60 | the row loop is a filter on field count followed by a map to records |
| BulkStudentImport.RowRecordFields | src/components/admin/BulkStudentImport.tsx:51-57 | with distinct headers each header maps to its column's field, `year`/`semester` to its `parseInt` |
| BulkStudentImport.BlankInputFails | src/components/admin/BulkStudentImport.tsx:32-33 | an all-whitespace file fails before any insert |
| BulkStudentImport.MissingHeaderRejected | src/components/admin/BulkStudentImport.tsx:36-43 | a header row lacking a required column is refused |
| BulkStudentImport.FieldsOfJoin | src/components/admin/BulkStudentImport.tsx:47 | a line of plain cells joined by commas has those cells as its fields |
| BulkStudentImport.JoinedCellsLine | src/components/admin/BulkStudentImport.tsx:32 | such a line is one non-blank line |
| BulkStudentImport.TwoLines | src/components/admin/BulkStudentImport.tsx:32 | two non-blank lines, each ended by a line feed, are the file's two lines |
| BulkStudentImport.OneRowFile | src/components/admin/BulkStudentImport.tsx:32-60 | a header line and one equal-width data line parse to that one row |
| BulkStudentImport.TemplateParsesToOneStudent | src/components/admin/BulkStudentImport.tsx:13 | the downloadable template passes the header check and parses to exactly one student |
| BulkStudentImport.TemplateStudent | src/components/admin/BulkStudentImport.tsx:13 | that student has year `parseInt("2")`, semester `parseInt("4")` and the example cells |
| EditClubDialog.NormalizeToArray | src/components/admin/EditClubDialog.tsx:96-100 | an array is kept, a string with content becomes `[s]`, anything else `[""]`; never empty |
| EditClubDialog.MigrateActivity | src/components/admin/EditClubDialog.tsx:75-78 | stored `images` win, else a truthy legacy `image` becomes a one-element list, else `[]` |
| EditClubDialog.LoadDetails | src/components/admin/EditClubDialog.tsx:64-80 | `details || {}` read with defaults: empty strings, normalized lists, migrated activities |
| EditClubDialog.Load | src/components/admin/EditClubDialog.tsx:62-83 | the opened form holds the club's name, `description || ""` and the loaded details |
| EditClubDialog.Store | src/components/admin/EditClubDialog.tsx:197-207 | the update writes the form's details with every key present |
| EditClubDialog.StoreThenLoad | src/components/admin/EditClubDialog.tsx:62-83 | saving the form and re-opening the dialog shows exactly the same details |
| EditClubDialog.LoadStable | src/components/admin/EditClubDialog.tsx:62-83 | a loaded form, saved and loaded again, is unchanged |
| EditClubDialog.WithList | src/components/admin/EditClubDialog.tsx:110 | `{ ...details, [field]: list }` sets that list and leaves the rest |
| EditClubDialog.DetailsChange | src/components/admin/EditClubDialog.tsx:85-93 | only the named text field takes the new value |
| EditClubDialog.ArrayChange | src/components/admin/EditClubDialog.tsx:102-113 | on a list key only position `index` changes; on any other key nothing does |
| EditClubDialog.AddArrayItem | src/components/admin/EditClubDialog.tsx:115-127 | on a list key one empty entry is appended |
| EditClubDialog.RemoveArrayItem | src/components/admin/EditClubDialog.tsx:129-141 | on a list key the entry at `index` is dropped, the others keep their order |
| EditClubDialog.AddThenRemoveLast | src/components/admin/EditClubDialog.tsx:115-141 | appending an entry and removing it again restores the details |
| EditClubDialog.ArrayChangeSameValue | src/components/admin/EditClubDialog.tsx:102-113 | writing the value already there changes nothing |
| EditClubDialog.EditsKeepListNonEmpty | src/components/admin/EditClubDialog.tsx:296 | a non-empty list stays non-empty under every edit the dialog offers |
| EditClubDialog.EditActivity | src/components/admin/EditClubDialog.tsx:145 | `{ ...activity, [field]: value }` changes only that field |
| EditClubDialog.ActivityChange | src/components/admin/EditClubDialog.tsx:143-150 | only the named field of the activity at `index` changes |
| EditClubDialog.AddActivity | src/components/admin/EditClubDialog.tsx:152-160 | a blank activity with no images goes last |
| EditClubDialog.RemoveActivity | src/components/admin/EditClubDialog.tsx:162-168 | exactly the activity at `index` is dropped |
| EditClubDialog.EditCustomField | src/components/admin/EditClubDialog.tsx:172 | only the named field of the entry changes |
| EditClubDialog.CustomFieldChange | src/components/admin/EditClubDialog.tsx:170-177 | only the named field of the entry at `index` changes |
| EditClubDialog.AddCustomField | src/components/admin/EditClubDialog.tsx:179-187 | a blank entry goes last |
| EditClubDialog.RemoveCustomField | src/components/admin/EditClubDialog.tsx:189-195 | exactly the entry at `index` is dropped |
| EditClubDialog.AddThenRemoveEntry | src/components/admin/EditClubDialog.tsx:152-195 | adding a blank activity or custom field and removing the last restores the details |
| EditClubDialog.ActivityChangesCommute | src/components/admin/EditClubDialog.tsx:143-150 | edits of two different activities commute |
| ClubDetails.IdsOf | src/pages/ClubDetails.tsx:98 | the joined set holds exactly the fetched membership club ids |
| ClubDetails.FetchClubData | src/pages/ClubDetails.tsx:70-104 | a missing club goes to the dashboard; otherwise the count, joined set and spinner are set as fetched |
| ClubDetails.JoinResult | src/pages/ClubDetails.tsx:106-133 | at 2 clubs no insert; '23505' is "already a member"; other errors fail; otherwise joined |
| ClubDetails.WarningMeansRefused | src/pages/ClubDetails.tsx:360 | the yellow limit warning shows exactly when a join would not send the insert |
| ClubDetails.JoinAsWritten | src/pages/ClubDetails.tsx:106-133 | a successful join refreshes with no club id; other outcomes keep the page |
| ClubDetails.JoinAsWrittenLeavesPage | src/pages/ClubDetails.tsx:128 | as written, every successful join sends the user to the dashboard without the club in the joined set |
| ClubDetails.Join | src/pages/ClubDetails.tsx:106-133 | a successful join refreshes the route's club |
| ClubDetails.JoinShowsMembership | src/pages/ClubDetails.tsx:106-133 | a successful join keeps the user on the page, shown as a member with the fresh count |
| ClubDetails.LeaveAsWritten | src/pages/ClubDetails.tsx:135-150 | as written, a successful leave goes to the dashboard with the joined set unchanged |
| ClubDetails.Leave | src/pages/ClubDetails.tsx:135-150 | a failed delete keeps the page; a successful one refreshes the route's club |
| ClubDetails.LeaveShowsJoin | src/pages/ClubDetails.tsx:135-150 | after a successful leave the page offers Join again |
| ClubDetails.PluralSuffix | src/pages/ClubDetails.tsx:265 | the 's' appears exactly for an array of more than one name |
| ClubDetails.RoleLines | src/pages/ClubDetails.tsx:269-277 | an array renders one line per name, a string one line |
| ClubDetails.PluralIffSeveralLines | src/pages/ClubDetails.tsx:261-277 | the title is plural exactly when the card has several lines |
| ClubDetails.RoleLinesMatchEditor | src/pages/ClubDetails.tsx:269-277 | the page lists what the editor opens with, except a whitespace-only string |
| ClubDetails.SavedClubShowsLeadership | src/pages/ClubDetails.tsx:227 | a club saved by the editor always shows the Leadership section |
| ClubDetails.SavedActivitiesShown | src/pages/ClubDetails.tsx:306 | a saved club shows activities and More Info exactly when those lists are non-empty |
| NotificationCenter.CountUnread | src/components/NotificationCenter.tsx:42 | the unread count is at most the list length |
| NotificationCenter.MarkRead | src/components/NotificationCenter.tsx:76-78 | entries with that id become read, the rest are unchanged |
| NotificationCenter.MarkAll | src/components/NotificationCenter.tsx:92 | every entry becomes read and nothing else changes |
| NotificationCenter.Center.Fetch | src/components/NotificationCenter.tsx:29-44 | signed in with rows: list replaced and counter recomputed; else nothing changes |
| NotificationCenter.Center.OnInsert | src/components/NotificationCenter.tsx:56-61 | the new row goes first and the counter rises by one |
| NotificationCenter.Center.MarkAsRead | src/components/NotificationCenter.tsx:70-80 | the id is marked read and the counter drops by one, never below 0 |
| NotificationCenter.Center.Click | src/components/NotificationCenter.tsx:127 | a click on a read entry does nothing; on an unread one it marks it; with distinct ids the counter stays exact |
| NotificationCenter.Center.MarkAllAsRead | src/components/NotificationCenter.tsx:82-94 | signed in: everything read and the counter 0 |
| NotificationCenter.UnreadExists | src/components/NotificationCenter.tsx:101 | the badge count is positive exactly when some entry is unread |
| NotificationCenter.MarkOneRead | src/components/NotificationCenter.tsx:70-80 | with distinct ids, marking an unread entry lowers the unread count by exactly one |
| NotificationCenter.MarkReadAbsent | src/components/NotificationCenter.tsx:76-78 | marking an id no entry has changes nothing |
| NotificationCenter.MarkAllNoneUnread | src/components/NotificationCenter.tsx:92-93 | after marking all, the unread count is 0 |
| NotificationCenter.MarkAllIdempotent | src/components/NotificationCenter.tsx:92 | marking all twice equals once |
| NotificationCenter.MarkReadNotMore | src/components/NotificationCenter.tsx:76-78 | marking read never raises the unread count |
| NotificationCenter.MarkReadKeepsIds | src/components/NotificationCenter.tsx:76-78 | marking keeps every entry's id in place |
| NotificationCenter.Session | src/components/NotificationCenter.tsx:29-94 | a fetch, then inserts with fresh ids, clicks and mark-all in any interleaving keep the badge equal to the unread entries, positive exactly when one is unread |
| AnalyticsDashboard.TitleOf | src/components/admin/AnalyticsDashboard.tsx:56 | the bucket title is never empty and is the event title when that is non-empty |
| AnalyticsDashboard.TitlesSpec | src/components/admin/AnalyticsDashboard.tsx:55-63 | the dictionary keys are distinct and are exactly the ratings' titles that `Object.prototype` does not already supply |
| AnalyticsDashboard.BucketRatings | src/components/admin/AnalyticsDashboard.tsx:55-63 | one bucket per own title, holding the sum and the count of that title's ratings; an inherited title gets no bucket |
| AnalyticsDashboard.NoTitleNoWeight | src/components/admin/AnalyticsDashboard.tsx:57-58 | a title that is not a key has nothing summed under it |
| AnalyticsDashboard.BucketsCoverAll | src/components/admin/AnalyticsDashboard.tsx:55-63 | over distinct keys covering every own title, the bucket sums add up to the ratings whose title is not inherited |
| AnalyticsDashboard.BucketSums | src/components/admin/AnalyticsDashboard.tsx:55-72 | with an accumulator that inherits nothing, the bucket counts add up to `ratings.length` and the totals to `totalRatings` |
| AnalyticsDashboard.NothingInherited | src/components/admin/AnalyticsDashboard.tsx:55-63 | with nothing inherited, the own weight is the whole weight |
| AnalyticsDashboard.OwnCountBelow | src/components/admin/AnalyticsDashboard.tsx:55-63 | the own count never exceeds `ratings.length` |
| AnalyticsDashboard.PrototypeTitleLost | src/components/admin/AnalyticsDashboard.tsx:55-63 | a rating of an event titled like an `Object.prototype` member gets no bucket, so the counts add up to less than `ratings.length` |
| AnalyticsDashboard.ConstructorTitleNoBar | src/components/admin/AnalyticsDashboard.tsx:55-68 | one rating of an event titled "constructor" gives no bar as written and one bar with a clean accumulator |
| AnalyticsDashboard.UnknownMerges | src/components/admin/AnalyticsDashboard.tsx:56 | a missing or empty title shares the bucket of an event titled "Unknown" |
| AnalyticsDashboard.Label | src/components/admin/AnalyticsDashboard.tsx:66 | `substring(0, 15)` is a prefix of at most 15 characters, the whole name when short |
| AnalyticsDashboard.RatingBars | src/components/admin/AnalyticsDashboard.tsx:65-68 | one bar per own key in insertion order, labelled by the truncated title |
| AnalyticsDashboard.SameLabelTwoBars | src/components/admin/AnalyticsDashboard.tsx:65-68 | two titles equal in their first 15 characters give two bars under one label |
| AnalyticsDashboard.AttendanceSeries | src/components/admin/AnalyticsDashboard.tsx:38-45 | the series is the fetched rows in reverse order, a null count as 0 |
| AnalyticsDashboard.ClubSeries | src/components/admin/AnalyticsDashboard.tsx:95 | every charted club has members |
| AnalyticsDashboard.ClubSeriesSpec | src/components/admin/AnalyticsDashboard.tsx:95 | a club is charted exactly when it has members, in fetched order |
| ReportsGeneration.Quoted | src/components/admin/ReportsGeneration.tsx:27 | the field wrapped in quotes, its content unchanged |
| ReportsGeneration.LengthOr0 | src/components/admin/ReportsGeneration.tsx:26 | `list?.length \|\| 0` |
| ReportsGeneration.EventTitle | src/components/admin/ReportsGeneration.tsx:47 | "Unknown" exactly for a missing or empty title or a title "Unknown" |
| ReportsGeneration.Render | src/components/admin/ReportsGeneration.tsx:24-28 | the header, then each row's line, each followed by "\n" |
| ReportsGeneration.GenerateReport | src/components/admin/ReportsGeneration.tsx:16-62 | each report type gives its header, its rows' lines and its file name; an unknown type gives nothing |
| ReportsGeneration.SplitTerminated | src/components/admin/ReportsGeneration.tsx:24-28 | newline-free lines, each terminated, split back into the lines and a final "" |
| ReportsGeneration.ReportLines | src/components/admin/ReportsGeneration.tsx:24-61 | a report over newline-free rows has the header line and one line per row |
| ReportsGeneration.AttendanceTextOneLine | src/components/admin/ReportsGeneration.tsx:27 | an attendance line has no newline when the title and date have none |
| ReportsGeneration.PlacementTextOneLine | src/components/admin/ReportsGeneration.tsx:37 | likewise for a placement line, whose missing company prints as `null` |
| ReportsGeneration.NullCompanyPrinted | src/components/admin/ReportsGeneration.tsx:37 | a placement without a company is written with the quoted text "null" in its company field |
| ReportsGeneration.RatingTextOneLine | src/components/admin/ReportsGeneration.tsx:48 | likewise for a rating line |
| ReportsGeneration.ClubTextOneLine | src/components/admin/ReportsGeneration.tsx:59 | likewise for a club line |
| ReportsGeneration.AttendanceReportLines | src/components/admin/ReportsGeneration.tsx:24-28 | the attendance report has `events + 2` pieces when split on "\n" |
| ReportsGeneration.FieldsNotEscaped | src/components/admin/ReportsGeneration.tsx:27 | a newline inside a title is written through, unescaped |
| ImageUpload.HandleFileChange | src/components/ui/image-upload.tsx:18-49 | no file, not an image, too large, uploaded (with the URL) and upload failed, each exactly in its case |
| ImageUpload.ClearImage | src/components/ui/image-upload.tsx:51-53 | clearing hides the preview |
| ImageUpload.RefusalKeepsValue | src/components/ui/image-upload.tsx:18-49 | a refused or failed selection leaves the value as it was |
| ImageUpload.LimitInclusive | src/components/ui/image-upload.tsx:29 | a 5 MB image is uploaded and one byte more is refused |
| MultiImageUpload.HandleFileChange | src/components/ui/multi-image-upload.tsx:25-70 | no files: nothing; over the cap: refused; a thrown upload fails; else the URLs of accepted files are appended |
| MultiImageUpload.FailedStaysFailed | src/components/ui/multi-image-upload.tsx:37-63 | once an upload has thrown the outcome stays a failure |
| MultiImageUpload.PushedSpec | src/components/ui/multi-image-upload.tsx:38-55 | one URL per accepted file, never more than the files looked at |
| MultiImageUpload.RejectedNeverUploaded | src/components/ui/multi-image-upload.tsx:41-53 | the result does not depend on uploads of rejected files |
| MultiImageUpload.ChangedWithinCap | src/components/ui/multi-image-upload.tsx:29-57 | a successful change keeps the old URLs first and stays within `maxFiles` |
| MultiImageUpload.RemoveShowsAddButton | src/components/ui/multi-image-upload.tsx:72-75 | removing an image from a full list shows the add button again |
| NotesManager.FilteredNotes | src/components/admin/NotesManager.tsx:65-70 | every listed note matches the search and the year |
| NotesManager.FilteredNotesSpec | src/components/admin/NotesManager.tsx:65-70 | a note is listed exactly when fetched and matching, in fetched order |
| NotesManager.YearFilterExact | src/components/admin/NotesManager.tsx:68 | choosing year `n` keeps exactly the notes of year `n` |
| NotesManager.UploaderLabel | src/components/admin/NotesManager.tsx:130 | the uploader's name, or "Unknown" |
| NotesManager.ChooseFile | src/components/admin/NotesManager.tsx:168-178 | only a PDF or Word file replaces the chosen file |
| NotesManager.ImageRejected | src/components/admin/NotesManager.tsx:171-175 | an image never becomes the note's file |
| NotesManager.FileType | src/components/admin/NotesManager.tsx:196 | "unknown" exactly for an empty name or one ending in '.', otherwise the dot-free text after the last '.' |
| NotesManager.EmptyLastPiece | src/components/admin/NotesManager.tsx:196 | the text after the last '.' is empty exactly when the name is empty or ends in '.' |
| NotesManager.FileTypeOfPdf | src/components/admin/NotesManager.tsx:196 | a name ending in ".pdf" is stored with type "pdf" |
| NotesManager.Submit | src/components/admin/NotesManager.tsx:180-226 | missing file or year stops early; the row is inserted and the form reset exactly when every step succeeds |
| NotesManager.SavedYearParsed | src/components/admin/NotesManager.tsx:207 | a year chosen from the select is stored as that number |
| NotesViewer.NotesByYear | src/components/student/NotesViewer.tsx:35-37 | every note in a tab has that tab's year |
| NotesViewer.NotesByYearSpec | src/components/student/NotesViewer.tsx:35-37 | a tab lists exactly the notes of its year, in fetched order |
| NotesViewer.OutOfRangeInNoTab | src/components/student/NotesViewer.tsx:56 | a note of a year outside 1 to 4 is in no tab |
| NotesViewer.InExactlyOneTab | src/components/student/NotesViewer.tsx:56 | every note of years 1 to 4 is in exactly one tab |
| NotesViewer.YearWord | src/components/student/NotesViewer.tsx:58 | First, Second and Third for 1 to 3, Fourth for anything else |
| NotesViewer.HeadingsDistinct | src/components/student/NotesViewer.tsx:58 | the four tabs have four different headings |
| NotesViewer.DescriptionText | src/components/student/NotesViewer.tsx:77 | the description, or the placeholder when it is missing or empty |
| EventRating.FilledIsPrefix | src/components/EventRating.tsx:113 | the filled stars are always the first ones |
| EventRating.SubmitWrite | src/components/EventRating.tsx:43-87 | rating 0 sends nothing; an existing row is updated by id; otherwise a row is inserted |
| EventRating.EnabledButtonWrites | src/components/EventRating.tsx:133 | an enabled button never sends the refused write |
| EventRating.ButtonLabel | src/components/EventRating.tsx:135 | "Update Rating" exactly when a rating exists |
| EventRating.Widget.constructor | src/components/EventRating.tsx:17-21 | no rating, no hover, empty review, no existing row |
| EventRating.Widget.Load | src/components/EventRating.tsx:28-41 | a found row is copied in, a missing review as ""; no row changes nothing |
| EventRating.Widget.Click | src/components/EventRating.tsx:119 | the rating becomes the star; nothing else changes |
| EventRating.Widget.Hover | src/components/EventRating.tsx:117 | the hovered star is set; nothing else changes |
| EventRating.Widget.Leave | src/components/EventRating.tsx:118 | the hover is cleared; nothing else changes |
| EventRating.Widget.Submit | src/components/EventRating.tsx:43-99 | the write chosen from the old state; no write or a failed one changes nothing; after a successful write a found row is copied in and a missing one changes nothing |
| EventRating.ClickThenLeave | src/components/EventRating.tsx:113-119 | after a click and leaving, exactly the stars up to the clicked one are filled |
| EventRating.RunCompletesIff | src/components/EventRating.tsx:17-28 | a component body renders exactly when every name is bound before it is read |
| EventRating.RunAfterBinds | src/components/EventRating.tsx:17-22 | the state hooks bind their names and leave the rest of the body to run |
| EventRating.RenderAsWrittenThrows | src/components/EventRating.tsx:24-28 | the effect's dependency array reads `fetchExistingRating` before its `const`, so the first render throws a ReferenceError |
| EventRating.RenderReorderedCompletes | src/components/EventRating.tsx:24-41 | with the effect placed after the callback it depends on, the body renders |
| EventRating.RateTwice | src/components/EventRating.tsx:43-99 | a first submit inserts; once read back, a second one updates the same row |
| EventCalendar.DayEvents | src/components/EventCalendar.tsx:28-35 | every listed event falls on the selected local day |
| EventCalendar.DayEventsSpec | src/components/EventCalendar.tsx:28-35 | the day's list is exactly the fetched events on that day, in fetched order |
| EventCalendar.DayEventsChronological | src/components/EventCalendar.tsx:45 | fetched in ascending time, the day's events are listed earliest first |
| EventCalendar.Refresh | src/components/EventCalendar.tsx:26-38 | with a date the day's list is recomputed; without one it stays |
| EventCalendar.Select | src/components/EventCalendar.tsx:77 | selecting sets the date, keeps the events and marked dates, and lists the chosen day's events; clearing keeps the shown list |
| EventCalendar.Fetch | src/components/EventCalendar.tsx:40-52 | returned rows become the events, with one marked date per event in order |
| EventCalendar.ClearKeepsList | src/components/EventCalendar.tsx:27 | clearing the selection keeps the list that was shown, even after a fetch |
| EventCalendar.SelectedAreMarked | src/components/EventCalendar.tsx:47-51 | every event of the selected day is on a marked date |
| EventCalendar.CountLabel | src/components/EventCalendar.tsx:91 | the label names the count and is singular only for 1 |
| EventCalendar.CountLabelPlural | src/components/EventCalendar.tsx:91 | plural exactly when the count is not 1 |
| EventQRCode.CheckInUrl | src/components/admin/EventQRCode.tsx:20 | the origin, then "/events/", the event id and "/checkin" |
| EventQRCode.CheckInUrlsDistinct | src/components/admin/EventQRCode.tsx:20 | different events get different check-in URLs |
| EventQRCode.RunLength | src/components/admin/EventQRCode.tsx:39 | the leading run `\s+` matches, ended by a non-space or the end |
| EventQRCode.CollapseRuns | src/components/admin/EventQRCode.tsx:39 | the replacement is never longer than the title |
| EventQRCode.DownloadName | src/components/admin/EventQRCode.tsx:39 | the name has no whitespace and is the replaced title followed by "_QR.png" |
| EventQRCode.CollapseRemovesRuns | src/components/admin/EventQRCode.tsx:39 | no whitespace survives the replacement |
| EventQRCode.CollapseNoRuns | src/components/admin/EventQRCode.tsx:39 | a title without whitespace is left as it is |
| EventQRCode.CollapseIdempotent | src/components/admin/EventQRCode.tsx:39 | replacing again changes nothing |
| EventQRCode.CollapseAroundRun | src/components/admin/EventQRCode.tsx:39 | each maximal run becomes exactly one '_' between the replacements of its neighbours |
| EventQRCode.CollapseKeepsText | src/components/admin/EventQRCode.tsx:39 | every non-whitespace character survives, in order |
| EventQRCode.FilterSkipsRun | src/components/admin/EventQRCode.tsx:39 | a leading run contributes no non-whitespace character |
| EventQRCode.Click | src/components/admin/EventQRCode.tsx:18-50 | an encoded image opens the dialog with it; an encoder error keeps the image and still toggles the dialog |
| EventQRCode.ClickOpens | src/components/admin/EventQRCode.tsx:45-50 | a click on a closed dialog opens it, so after an encoder error the dialog opens without a download button |
| EventQRCode.DownloadNeedsImage | src/components/admin/EventQRCode.tsx:57-62 | the download button shows only after a non-empty image was encoded |
| StudentProfile.Get | src/pages/StudentProfile.tsx:29 | reading a missing key gives `undefined` |
| StudentProfile.Merge | src/pages/StudentProfile.tsx:44-50 | the keys of both rows plus avatar and name; avatar from the profile; name the profile's if truthy, else the student's `full_name` |
| StudentProfile.CheckAuth | src/pages/StudentProfile.tsx:15-50 | no session: sign in; a missing or non-student profile: home; otherwise the merged record |
| StudentProfile.ProfileOnlyKeyKept | src/pages/StudentProfile.tsx:45 | a key only the profile has keeps its value |
| StudentProfile.SharedKeyFromStudent | src/pages/StudentProfile.tsx:46 | a key both rows have takes the students row's value |
| StudentProfile.AvatarAlwaysFromProfile | src/pages/StudentProfile.tsx:48 | the avatar is the profile's whatever the students row holds |
| StudentProfile.NameFallback | src/pages/StudentProfile.tsx:49 | the profile's name if truthy, else the student's `full_name`, else `undefined` |
| StudentProfile.NoStudentRow | src/pages/StudentProfile.tsx:44-50 | without a students row the record is the profile with avatar and name set |
| StudentProfile.NoStudentRowIdentity | src/pages/StudentProfile.tsx:44-50 | a profile with both keys and a non-empty name comes back unchanged |
| StudentProfile.NonStudentNotMerged | src/pages/StudentProfile.tsx:29-32 | a profile whose role is not 'student' is never shown |
| ProfileManagement.AvatarFallback | src/components/ProfileManagement.tsx:82 | the initials of the name, or the upper-cased "U" cut to two when there is none; at most two characters |
| ProfileManagement.Extension | src/components/ProfileManagement.tsx:27 | the dot-free text after the last '.', the whole name when there is none |
| ProfileManagement.AvatarPath | src/components/ProfileManagement.tsx:28-29 | under "avatars/" with the profile id, ending in "." plus the extension |
| ProfileManagement.HandleAvatarUpload | src/components/ProfileManagement.tsx:21-61 | no file does nothing; the avatar URL is written only after the upload succeeds; `uploading` is always cleared |
| ProfileManagement.ExtensionAfterLastDot | src/components/ProfileManagement.tsx:27-29 | a file `stem.ext` is stored with extension `ext` |
| ProfileManagement.RandomSeparatesPaths | src/components/ProfileManagement.tsx:28 | different random numbers of the same length give different paths |

## Left out

- Network, storage and authentication calls are not modelled as calls: their answers are parameters. The same goes for toasts, navigation side effects beyond the page's location, and console output.
- Every `loading`/`uploading`/`generating` flag is left out, except ProfileManagement's `uploading`.
- Concurrency is not modelled: `Promise.all` in the analytics page and the interleaving of asynchronous handlers. Each handler runs to completion on the answers it is given.
- Dates: `new Date()` and timestamps are integers. The local-calendar view of a timestamp is a parameter. `toLocaleDateString` output is an opaque string. Timezones and formatting are not modelled.
- Floating-point averages are not modelled: `(total / count).toFixed(1)` and `totalRatings / ratings.length || 0`. The model keeps the exact integer sum and count behind each average.
- The pie chart's percentages are not modelled.
- `toLowerCase`, `toUpperCase` and `localeCompare` are function parameters. No Unicode case mapping or collation is modelled.
- Initials.FirstCharsOfWords and AnalyticsDashboard.Label work on characters, while JavaScript's `n[0]` and `substring(0, 15)` work on UTF-16 code units. A word starting with a character outside the Basic Multilingual Plane gives a lone surrogate in JavaScript; the model gives the whole character.
- The order of `Object.entries` for integer-like keys is not modelled. JavaScript lists such keys first, in numeric order, while the model uses insertion order.
- `Blob`/anchor download plumbing, the QR encoder's image format and the Cloudinary upload are left out.
- The QR encoder and the upload are parameters that may fail.
- EditClubDialog.ArrayChange, EditClubDialog.ActivityChange and EditClubDialog.CustomFieldChange require an in-range index. JavaScript would extend the array with holes for an index past the end, and the dialog never produces such an index.
- ProfileManagement.AvatarFallback requires the name to be a string or falsy. A truthy non-string name is not something the profile column holds.
- StudentProfile.Truthy has no `NaN`. Numbers are integers.
- StudentDashboard.FilteredPlacements treats the "company" sort as throwing whenever two or more placements are listed and one has no company. Which pairs the engine compares depends on its sort algorithm; an engine that only ever passes the company-less placement as the right operand would compare against "null" and succeed.
- StudentDashboard.CompanySorted states the order only when every listed placement has a company; with a missing one the sort throws.
- AnalyticsDashboard.BucketRatings models the loss of a rating whose title names an `Object.prototype` member. For the title "__proto__" JavaScript also writes `NaN` onto `Object.prototype.total`; that pollution of the global prototype is not modelled.
- NotificationCenter.Session assumes the realtime channel delivers only the signed-in user's rows. The subscription at src/components/NotificationCenter.tsx:50-55 sets no per-user filter, so that rests on the backend's row-level security, which is not part of this model.
- EventRating.Widget models the rating component as if it rendered. As written its first render throws (see Findings), so none of the widget's handlers is ever reachable.
- StudentDashboard.FilteredEvents, StudentDashboard.FilteredClubs and StudentDashboard.FilteredPlacements rely on the stable sort of ES2019. An engine with an unstable sort could order equal keys differently.
- The sort lemmas over `localeCompare` assume a comparator that is a consistent total order.
- NotificationCenter.Session assumes one live subscription that delivers each inserted row once. The mount effect at src/components/NotificationCenter.tsx:24-27 discards the `removeChannel` cleanup that `subscribeToNotifications` returns (lines 65-67), so the channel outlives the component and each remount subscribes again; mounting and unmounting are not modelled.
- NotificationCenter.Center.Click keeps the counter exact only when ids are distinct and the counter was already exact. The source promises nothing when a row is delivered twice.
- BulkStudentImport.HandleFileUpload models the text of the file as given. Reading the file and the final reset of the input are left out.
- Pages and components outside this core are not part of this model: StudentAuth, Index, EventTemplates, SearchFilters and the notification edge function.

## Findings

| source | as written | input that shows it | evidently intended | confidence | as-written member | corrected member |
|---|---|---|---|---|---|---|
| src/pages/ClubDetails.tsx:128,146 | after a successful join or leave the page calls `fetchClubData(profile.id)` without the club id, so the club query gets `undefined`, fails, and the user is sent to the dashboard | a student in fewer than 2 clubs presses Join and the insert succeeds | refresh with `fetchClubData(profile.id, id)` so the page shows the new membership | not executed | ClubDetails.JoinAsWrittenLeavesPage | ClubDetails.JoinShowsMembership |
| src/components/EventRating.tsx:24-28 | the `useEffect` dependency array `[fetchExistingRating]` is evaluated before `const fetchExistingRating` is initialised, a ReferenceError of the temporal dead zone | the first render of any rating widget | declare the `useCallback` first and the `useEffect` after it | not executed | EventRating.RenderAsWrittenThrows | EventRating.RenderReorderedCompletes |
| src/components/admin/AnalyticsDashboard.tsx:55-63 | the `reduce` accumulator is `{}`, so a title such as "constructor" or "toString" finds an inherited member, gets no bucket of its own and its rating is lost from the chart | one rating of an event titled "constructor" | an accumulator with no prototype (`Object.create(null)` or a `Map`) | not executed | AnalyticsDashboard.PrototypeTitleLost | AnalyticsDashboard.BucketSums |
