# Learning-management system core in Dafny

This project models the computational core of a Next.js learning-management system. It covers:

- SCORM package handling: manifest validation, metadata extraction, ISO 8601 durations, and the SCORM run-time API object the course player exposes to content.
- The progress and report aggregations.
- The course-access rules.
- Course listing and creation.
- The fan-out of course assignments into enrollments and notifications.
- The notification WebSocket server's connection registry.

Everything is a pure function over explicit inputs. Database query results, sessions, request bodies and socket states are plain values. The answers of the database and of the network are parameters: whether a write succeeds, whether a fetch resolves, what a lookup returns.

Modules, one per source file, plus shared helpers:

| module | models |
|---|---|
| `Wrappers`, `Json`, `JsNumber`, `Strings` | Option/Result; JavaScript values with truthiness, `a.b` and `a?.b`; `parseInt`, `Number#toString`, `Math.round`, `Math.ceil`; string order, ASCII case folding, `includes` |
| `Auth` | the session object a route handler receives |
| `Records`, `Buckets`, `Pairs` | enrollment records and month keys; month tallies and their sort; the user-major cross product |
| `ScormValidator` | `app/lib/scorm-validator.ts` |
| `ScormPlayer` | the API object and progress handling of `app/components/scorm-player.tsx` |
| `TeamProgress` | `app/api/team-progress/route.ts` |
| `ReportHelpers` | `groupByMonth` and `formatCSVReport` of `app/lib/report-helpers.ts` |
| `CourseAccess` | `app/lib/course-access.ts` (and the identical `hasAccess` in the access-control route) |
| `AccessControlRoute` | `app/api/courses/access-control/route.ts` |
| `CoursesRoute` | `app/api/courses/route.ts` |
| `AssignmentRequest`, `AssignRoute`, `EnrollmentStatusRoute`, `NotificationService` | the two assignment routes and the assignment notification text |
| `WebSocketRegistry` | `app/lib/websocket-server.ts` |

Where the system's documented design and its code differ, the model follows the code:

- The manifest is looked up only at the archive root, under the exact name `imsmanifest.xml`.
- No launch URL (`href`) is checked.
- The SCORM API has no Initialize/Terminate state machine and no non-zero error codes.
- A completion status is not de-duplicated: every `SetValue("cmi.core.lesson_status", "completed")` posts a completion request.

The player's `GetValue` is built in an effect keyed on the course id, so in the running component it reads the `progress` captured when the effect ran (app/components/scorm-player.tsx:38-86). The model reads the current progress instead: `ScormPlayer.Session` is explicit state. A stale read after a `SetValue` is therefore possible in the component but not in the model.

## Model

| member | source | states |
|---|---|---|
| ScormValidator.StructureErrors | app/lib/scorm-validator.ts:86-103 | each of the organizations, resources and version messages is reported exactly when its part is falsy; all three checks run, so there are at most three messages, in check order |
| ScormValidator.ValidateManifestStructure | app/lib/scorm-validator.ts:78-104 | a document without a truthy `manifest` yields exactly `Invalid manifest structure` and nothing else; otherwise the three checks' messages; a nullish document throws |
| ScormValidator.Validate | app/lib/scorm-validator.ts:25-76 | valid iff no errors, and metadata present iff valid; at most three errors; an HTTP failure, a zip rejection or a parser throw gives exactly one message; no root `imsmanifest.xml` gives exactly the missing-manifest message; for a parsed document, a nullish one gives the single TypeError message, one without a truthy `manifest` the single structure message, otherwise the errors are exactly the structure checks' messages, and a valid result carries the metadata of that `manifest` |
| ScormValidator.ValidIffWellFormed | app/lib/scorm-validator.ts:36-69 | an unzipped package is valid exactly when the root manifest exists, parses to a non-nullish document, and its `manifest` element has organizations, resources and a version |
| ScormValidator.ValidCarriesMetadata | app/lib/scorm-validator.ts:62-69 | a valid result carries the metadata extracted from the parsed `manifest` element |
| ScormValidator.NoManifestRoot | app/lib/scorm-validator.ts:81-84 | a parsed document without a `manifest` root is invalid with the single message `Invalid manifest structure` |
| ScormValidator.EntryText | app/lib/scorm-validator.ts:125 | `entry.string['#text']` throws exactly when the entry or its `string` is nullish |
| ScormValidator.EntryTexts | app/lib/scorm-validator.ts:124-125 | mapping the entries keeps length and order, and throws iff some entry throws |
| ScormValidator.EntryList | app/lib/scorm-validator.ts:122-135 | a falsy declaration leaves the key unset; an array maps to a list of the same length and order; a single entry becomes a one-element list |
| ScormValidator.ExtractMetadata | app/lib/scorm-validator.ts:106-141 | the title prefers the organization title over the LOM title; a duration is set iff the manifest declares a truthy string one, as its parsed minutes; objectives and prerequisites follow `EntryList`; a throw is caught, keeping only the fields set before it: a non-string duration leaves both lists unset, and a throwing objectives list leaves the prerequisites unset too, so extraction never fails |
| ScormValidator.FindPT | app/lib/scorm-validator.ts:145 | the unanchored match starts at the first occurrence of `PT`, and there is none when `PT` does not occur |
| ScormValidator.ParseDuration | app/lib/scorm-validator.ts:143-152 | a string without `PT` gives 0 |
| ScormValidator.ParseDurationOfDesignators | app/lib/scorm-validator.ts:145-151 | any `PT[nH][nM][nS]` duration reads back as `60*H + M + ceil(S/60)`, absent components counting 0 |
| ScormValidator.GroupOfComponent | app/lib/scorm-validator.ts:145 | an optional group `(\d+)X` consumes exactly its rendered digits and designator, and matches nothing when absent |
| ScormValidator.ComponentBlocksGroup | app/lib/scorm-validator.ts:145 | a present component cannot be taken for a group with another designator |
| ScormValidator.MinutesMonotonic | app/lib/scorm-validator.ts:149-151 | the result is non-decreasing in each of hours, minutes and seconds |
| ScormValidator.DurationExampleHoursMinutes | app/lib/scorm-validator.ts:144 | `PT1H30M` is 90 minutes |
| ScormValidator.DurationExampleSeconds | app/lib/scorm-validator.ts:151 | `PT45S` rounds up to 1 minute |
| ScormValidator.DurationExampleHours | app/lib/scorm-validator.ts:149 | `PT2H` is 120 minutes |
| ScormValidator.DurationExampleDays | app/lib/scorm-validator.ts:145-146 | a duration with a date part and no literal `PT` (`P1D`, `P1DT2H`) reads as 0 |
| ScormValidator.RenderHoursMinutes | app/lib/scorm-validator.ts:144 | the designator rendering of 1 hour 30 minutes is `PT1H30M` |
| ScormPlayer.Clamp | app/components/scorm-player.tsx:120 | the result is in [0, 100], equals the input when in range, and is 0 below and 100 above |
| ScormPlayer.ClampGauge | app/components/scorm-player.tsx:120 | `NaN` stays `NaN`; a number is clamped |
| ScormPlayer.ParseGauge | app/components/scorm-player.tsx:61 | the score is `NaN` exactly when `parseInt` finds no number, and otherwise the parsed number |
| ScormPlayer.GaugeString | app/components/scorm-player.tsx:48 | the decimal string of the progress parses back to it; `NaN` prints as `NaN` |
| ScormPlayer.UpdateProgress | app/components/scorm-player.tsx:118-139 | progress becomes the clamped value, and the request carries the clamped value as progress and the raw value as score |
| ScormPlayer.ReadElement | app/components/scorm-player.tsx:43-52 | lesson status is `completed` iff progress is exactly 100, else `incomplete`; the raw score is the progress string; any other element is empty |
| ScormPlayer.Api | app/components/scorm-player.tsx:39-71 | Initialize, Terminate and Commit answer `true`, the error calls answer `0`, `No error` and `No diagnostic info`, every SetValue answers `true`; only a raw-score SetValue changes state, and only SetValue sends requests |
| ScormPlayer.CompletionSettled | app/components/scorm-player.tsx:141-153 | a resolved completion request sets progress to 100; a rejected one changes nothing |
| ScormPlayer.ClampProperties | app/components/scorm-player.tsx:120 | clamping lands in [0, 100] and clamping twice is clamping once |
| ScormPlayer.SetScore | app/components/scorm-player.tsx:60-62 | setting the raw score answers `true`, stores the clamped number and posts it with the unclamped score |
| ScormPlayer.ScoreReadBack | app/components/scorm-player.tsx:47-48 | an in-range score reads back as the score set |
| ScormPlayer.CompletionNotDeduplicated | app/components/scorm-player.tsx:55-58 | every completed status posts one completion request, also on a repeated call, and leaves the state alone |
| ScormPlayer.OtherStatusIgnored | app/components/scorm-player.tsx:55-59 | any other lesson status answers `true` and changes and sends nothing |
| ScormPlayer.RunKeepsRange | app/components/scorm-player.tsx:120-149 | over any sequence of calls and settlements, progress stays in [0, 100] or is `NaN` |
| ScormPlayer.RunCompletionRequests | app/components/scorm-player.tsx:55-58 | over any run, the number of completion requests equals the number of completed-status calls |
| ScormPlayer.RunAnswersEveryCall | app/components/scorm-player.tsx:39-71 | over any run, every API call is answered, whatever the call order |
| ScormPlayer.Run | app/components/scorm-player.tsx:39-153 | a run never answers more calls than there are events |
| ScormPlayer.RunExtends | app/components/scorm-player.tsx:39-153 | a run over the first events is the start of the whole run: later events never change an answer given or a request sent |
| TeamProgress.CountInProgress | app/api/team-progress/route.ts:93-99 | completed plus in-progress enrollments is the member's enrollment count |
| TeamProgress.AverageProgress | app/api/team-progress/route.ts:101-104 | no enrollments averages to 0 |
| TeamProgress.AverageProgressInRange | app/api/team-progress/route.ts:101-117 | with percentages in [0, 100], missing progress counting 0, the rounded average is in [0, 100] |
| TeamProgress.Latest | app/api/team-progress/route.ts:106-108 | the chosen date is one of the members' access dates, missing progress counting as the epoch, and none is later |
| TeamProgress.LastActive | app/api/team-progress/route.ts:106-108 | the latest access date, or the epoch for a member without enrollments |
| TeamProgress.LastActiveAsWritten | app/api/team-progress/route.ts:106-118 | the handler as written fails exactly for a member without enrollments |
| TeamProgress.Summarize | app/api/team-progress/route.ts:92-120 | the member's summary: completed count, completed plus in progress equal to the enrollment count, the average, and the last-active date |
| TeamProgress.SummarizeAsWritten | app/api/team-progress/route.ts:92-120 | the summary as written fails exactly when the member has no enrollments |
| TeamProgress.AsWrittenFailsForIdleMember | app/api/team-progress/route.ts:104-108 | a member without enrollments breaks the summary, though the average guards that same case |
| TeamProgress.AsWrittenAgreesWhenActive | app/api/team-progress/route.ts:106-118 | with at least one enrollment, the as-written and corrected summaries agree |
| TeamProgress.GetTeamProgress | app/api/team-progress/route.ts:57-150 | 401 exactly without a truthy session id and an admin or manager role; the report's totals, one summary per member in order, an average that is absent exactly when there are no members, and the monthly breakdown |
| TeamProgress.GetTeamProgressAsWritten | app/api/team-progress/route.ts:92-148 | as written, the report is a 500 exactly when some member has no enrollments, and otherwise agrees with the corrected report |
| TeamProgress.MonthlyTallyCounts | app/api/team-progress/route.ts:171-192 | each enrollment adds one in its enrollment month and, if completed, one completion in its completion month; months unique and non-empty; totals are the row count and the completed count |
| TeamProgress.MonthlyTally | app/api/team-progress/route.ts:171-192 | the tally counts every enrollment once and every completed enrollment once |
| TeamProgress.MonthlyProgress | app/api/team-progress/route.ts:194-199 | sorting the tally loses no enrollment and no completion |
| TeamProgress.MonthlyProgressCounts | app/api/team-progress/route.ts:152-200 | the output is strictly ascending by month, each month carries its own counts and at least one of them, every month with activity is listed, and the totals are preserved |
| TeamProgress.MonthlyMatchesAssigned | app/api/team-progress/route.ts:129-134 | when the monthly rows are the members' enrollments, the monthly enrollments add up to `totalAssignedCourses` |
| TeamProgress.AllEnrollmentsLength | app/api/team-progress/route.ts:131-134 | the members' enrollments together number `totalAssignedCourses` |
| ReportHelpers.GroupByMonthTallies | app/lib/report-helpers.ts:17-28 | each enrollment adds one to its enrollment month, and a completion is counted under the enrollment month; months unique, completions at most enrollments, totals the input length and the completed count |
| ReportHelpers.GroupByMonthBuckets | app/lib/report-helpers.ts:17-33 | each bucket holds the counts of its own month |
| ReportHelpers.GroupByMonthFirstSeen | app/lib/report-helpers.ts:30-33 | the output lists exactly the input's months, in order of first occurrence |
| ReportHelpers.GroupByMonth | app/lib/report-helpers.ts:17-33 | the buckets count every enrollment once and every completed enrollment once |
| ReportHelpers.EnrollmentMonths | app/lib/report-helpers.ts:19 | the bucket key of each enrollment is its month key |
| ReportHelpers.SplitFormatted | app/lib/report-helpers.ts:47 | the report is the completion heading, the completion table, a blank line, the enrollment heading and the enrollment table: both tables are recovered from it when the first has no blank line |
| ReportHelpers.FormatCsvReport | app/lib/report-helpers.ts:36-48 | the report opens with the `Completion Rates` heading and is exactly as long as the two headings, the two tables and the separating blank line |
| Records.MonthOf | app/lib/report-helpers.ts:19 | the month key is a prefix of the ISO date, exactly seven characters long (`YYYY-MM`) unless the date string is shorter |
| Buckets.Tally | app/api/team-progress/route.ts:175-191 | a month is updated in place or appended when new; the totals grow by the amounts added |
| Buckets.TallyAt | app/lib/report-helpers.ts:20-26 | tallying adds to the month it names and to no other |
| Buckets.TallyKeepsUnique | app/lib/report-helpers.ts:20-22 | tallying keeps months unique |
| Buckets.TallyKeepsBounded | app/lib/report-helpers.ts:23-26 | adding at least as many enrollments as completions keeps completions at most enrollments |
| Buckets.Sort | app/api/team-progress/route.ts:194-199 | the sort is a permutation that keeps the totals |
| Buckets.SortAscending | app/api/team-progress/route.ts:199 | sorting buckets with unique months gives strictly ascending months |
| Buckets.InsertAscending | app/api/team-progress/route.ts:199 | inserting a new month into an ascending list keeps it ascending |
| CourseAccess.HasAccess | app/lib/course-access.ts:11-34 | an unknown user never has access and an empty rule list grants none; otherwise access holds iff some rule grants it |
| CourseAccess.AnyGrants | app/lib/course-access.ts:28-33 | `some` holds iff some rule's check holds |
| CourseAccess.GrantsByOwnField | app/lib/course-access.ts:29-31 | a rule grants exactly when the id of its own type equals the user's id of that type; the other ids are ignored |
| CourseAccess.HasAccessAppend | app/lib/course-access.ts:28-33 | access under more rules is access under either part, so adding rules never revokes access |
| CourseAccess.HasAccessOrderFree | app/lib/course-access.ts:23-33 | the answer does not depend on the order the rules are returned in |
| AccessControlRoute.GetAccess | app/api/courses/access-control/route.ts:25-63 | 401 exactly without a session user, 400 exactly for an id `parseInt` rejects, otherwise the course's rules partitioned by type |
| AccessControlRoute.RulesOf | app/api/courses/access-control/route.ts:46-49 | the query never returns more rules than the table has rows |
| AccessControlRoute.RulesOfMembers | app/api/courses/access-control/route.ts:46-49 | a rule is returned exactly when the table has it filed under the course |
| AccessControlRoute.PartitionCovers | app/api/courses/access-control/route.ts:51-61 | every record lands in exactly one of the three lists |
| AccessControlRoute.PostAccess | app/api/courses/access-control/route.ts:73-156 | 401 exactly for a non-admin, 400 for a bad id, and 401, 400 or a bad format leave the table untouched, as does a failure before a body was read; the bad-format 400 comes exactly when some list is not an array; success exactly when all three are number arrays and the transaction commits, and then the table is the other courses' rows followed by the inserted department, role and location rows; a failure once a body was read leaves the table with that course's rules deleted |
| AccessControlRoute.PostThenGet | app/api/courses/access-control/route.ts:51-146 | after a successful replacement a GET, reading rows in insertion order, lists the posted departments, roles and locations in posted order, and every other course's rules are unchanged |
| AccessControlRoute.PostThenGetAnyOrder | app/api/courses/access-control/route.ts:46-61 | in whatever order the unordered query returns the course's rows, each list holds exactly the posted ids of its type, each as often as posted |
| AccessControlRoute.IdsOfKindPermutation | app/api/courses/access-control/route.ts:51-61 | reordering the records reorders each partition list and changes nothing else |
| AccessControlRoute.FailedPostRevokesAll | app/api/courses/access-control/route.ts:105-146 | a failed insert transaction leaves the course without rules, so nobody has access |
| AccessControlRoute.HasAccessOfLists | app/api/courses/access-control/route.ts:159-182 | the route's `hasAccess` holds for a known user iff their department, role or location is in the matching list the GET shows |
| AccessControlRoute.IdsOfKindMember | app/api/courses/access-control/route.ts:51-61 | an id is in a partition list iff a record of that type carries it |
| AccessControlRoute.DeleteCourseRules | app/api/courses/access-control/route.ts:106 | the delete removes every rule of the course and no rule of another |
| AccessControlRoute.DeleteCourse | app/api/courses/access-control/route.ts:106 | the delete never adds rows |
| AccessControlRoute.DeleteCourseMembers | app/api/courses/access-control/route.ts:106 | a row survives the delete exactly when it belongs to another course |
| AccessControlRoute.NewRule | app/api/courses/access-control/route.ts:109-125 | an inserted rule is tagged with its type and carries the id in that type's column |
| AccessControlRoute.NewRows | app/api/courses/access-control/route.ts:109-125 | one row per listed id, in list order |
| AccessControlRoute.ReplacedRules | app/api/courses/access-control/route.ts:106-146 | after delete and insert, the course's rules are the department rows, then the role rows, then the location rows |
| AccessControlRoute.ReplacedIds | app/api/courses/access-control/route.ts:51-125 | each partition list of the inserted rules is the posted list of that type |
| AccessControlRoute.ReplacedLists | app/api/courses/access-control/route.ts:51-125 | the three lists read back are the three posted lists |
| Json.NumberItems | app/api/courses/access-control/route.ts:109-125 | the ids are the numbers of an all-number array, in order; otherwise some element is not a number |
| CoursesRoute.PageCount | app/api/courses/route.ts:110 | `ceil(total/limit)` pages: the last page is reached and none is left over |
| CoursesRoute.PageOf | app/api/courses/route.ts:83-90 | the page is the window of `limit` courses starting at `skip`, cut at the end of the listing |
| CoursesRoute.PageOfPosition | app/api/courses/route.ts:110 | every listed position lies in the window of a page between 1 and the page count |
| CoursesRoute.PagesDisjoint | app/api/courses/route.ts:32 | no position lies in two pages' windows |
| CoursesRoute.VisibleOnPage | app/api/courses/route.ts:83-104 | a visible course is shown, summarised, on the page whose window covers it |
| CoursesRoute.VisibleCourses | app/api/courses/route.ts:50-90 | a course is listed iff it is in the catalogue and visible to the user, and the listing never exceeds the catalogue |
| CoursesRoute.VisibleCoursesAppend | app/api/courses/route.ts:84-90 | the listing keeps the query's order |
| CoursesRoute.AdminSeesTitleMatches | app/api/courses/route.ts:52-67 | for an admin only the case-insensitive title filter applies |
| CoursesRoute.DepartmentRulesIgnored | app/api/courses/route.ts:53-66 | a department-type rule never changes visibility; only the course's own department, role rules and location rules count |
| CoursesRoute.EmptySearchVisibility | app/api/courses/route.ts:50-67 | with no search term a course is visible exactly to an admin, a user of its department, or a user some role or location rule admits |
| CoursesRoute.VisibleOrderFree | app/api/courses/route.ts:56-65 | visibility does not depend on the order of the course's rules |
| CoursesRoute.OwnEnrollments | app/api/courses/route.ts:71-80 | the included enrollments are exactly the signed-in user's |
| CoursesRoute.Summarize | app/api/courses/route.ts:95-104 | `enrolled_count` counts the user's enrollments, `is_enrolled` holds iff there is one, and `progress` is the first one's percentage, 0 when it has none or when the user is not enrolled |
| CoursesRoute.ListCourses | app/api/courses/route.ts:83-114 | the pagination block is total, page count, page and limit; the page holds the summaries of the listing's window at `(page-1)*limit` |
| CoursesRoute.GetCourses | app/api/courses/route.ts:21-119 | 401 exactly without a session user, 404 exactly for an unknown user, a 500 exactly for an unparsable session id or a missing role; a listing exactly when the user is known with a role and page and limit parse to at least 1, equal to that page of the visible courses |
| CoursesRoute.MapField | app/api/courses/route.ts:157-168 | `.map` on a field succeeds exactly on an array, tagging each element |
| CoursesRoute.AccessCreateList | app/api/courses/route.ts:155-170 | the create list is the department entries, then role entries, then location entries, each tagged; it throws unless all three are arrays |
| CoursesRoute.AccessCreateListShape | app/api/courses/route.ts:155-170 | the create list's length is the sum of the three lengths, and each entry's tag says which list it came from |
| CoursesRoute.PostCourse | app/api/courses/route.ts:121-204 | 401 exactly for a non-admin; 400 exactly when title, description or package URL is falsy; a 500 upload failure exactly for a missing or null body or an access list that is not an array; for an admin's request passing those checks, created exactly when the database accepts the course and a database error otherwise; a created course has the body's title, description, duration and package URL, thumbnail defaulting to `''`, status `active`, and the access create list |
| CoursesRoute.Tagged | app/api/courses/route.ts:157-168 | one entry per id, in order, with the given type |
| AssignmentRequest.ParseRequest | app/api/courses/assign/route.ts:40-52 | 400 exactly when either list's `length` is falsy; otherwise both lists are non-empty arrays, or the request throws |
| AssignmentRequest.NonEmptyArraysAccepted | app/api/courses/assign/route.ts:42-47 | any two non-empty id arrays pass the check |
| AssignmentRequest.Enrollments | app/api/courses/assign/route.ts:50-64 | one enrollment per (user, course) pair, `|U|·|C|` in all, each of type `assigned` by the session user |
| AssignmentRequest.EnrollsEveryPair | app/api/courses/enrollment-status/route.ts:47-55 | the `i`-th user and `j`-th course are enrolled at position `i·|C|+j`, user-major |
| AssignmentRequest.EnrollsOnlyListed | app/api/courses/assign/route.ts:51-52 | every enrollment is for a listed user and a listed course |
| AssignRoute.Assign | app/api/courses/assign/route.ts:30-108 | 401 exactly without an admin or manager session user, 400 exactly for a missing or empty list; success exactly when everything is written, with `assignedCount = |U|·|C|`; any failure reports `success=false` and 0; for an accepted request the enrollments written are one per (user, course) pair, assigned by the session user, and the notifications one per user and found title, none when the enrollment write failed |
| AssignRoute.AssignedEnrollment | app/api/courses/assign/route.ts:50-64 | on success the `i`-th user is enrolled in the `j`-th course at position `i·|C|+j`, as `assigned`, by the session user |
| AssignRoute.AssignedNotification | app/api/courses/assign/route.ts:77-89 | on success the `i`-th user is told of the `k`-th found title, naming the session user as assigner |
| AssignRoute.Notifications | app/api/courses/assign/route.ts:77-89 | one notification per user and found title |
| AssignRoute.NotifiesEveryTitle | app/api/courses/assign/route.ts:77-89 | each user is told of each found title, naming the assigner or `An administrator` |
| AssignRoute.NotificationFailureHidesEnrollments | app/api/courses/assign/route.ts:50-106 | a failed notification write reports 0 assigned although every enrollment had been created |
| NotificationService.AssignmentContent | app/lib/notification-service.ts:54-64 | the text is the fixed prefix followed by the title, `" by `, the assigner and a period |
| NotificationService.AssignmentContentInjective | app/lib/notification-service.ts:62 | for titles without a double quote, the text determines the title and the assigner |
| EnrollmentStatusRoute.Post | app/api/courses/enrollment-status/route.ts:27-101 | 401 exactly without an admin or manager role, 400 for a missing or empty list; success exactly when both writes succeed, `assignedCount` the number of enrollments, one batch per listed user; 0 on failure; for an accepted request the enrollments are one per (user, course) pair by the session user, and the batches, written only after the enrollments, are the per-user filters of the pair notices |
| EnrollmentStatusRoute.PostBatchOfListedUser | app/api/courses/enrollment-status/route.ts:66-82 | on success a listed user's batch is their notice once per course for each time they are listed, so at least one per course |
| EnrollmentStatusRoute.Notices | app/api/courses/enrollment-status/route.ts:66-74 | one `course_assigned` notification with the fixed text per pair |
| EnrollmentStatusRoute.Batch | app/api/courses/enrollment-status/route.ts:79 | a batch holds only notifications of its user |
| EnrollmentStatusRoute.Batches | app/api/courses/enrollment-status/route.ts:76-82 | one batch per entry of the user list, in order |
| EnrollmentStatusRoute.BatchOfUser | app/api/courses/enrollment-status/route.ts:66-82 | a user's batch holds their notification once per course for each time they are listed |
| EnrollmentStatusRoute.EveryListedUserNotified | app/api/courses/enrollment-status/route.ts:76-82 | every listed user's batch has at least one notification per course |
| EnrollmentStatusRoute.DuplicateUserExample | app/api/courses/enrollment-status/route.ts:47-82 | a user listed twice with one course gets two enrollments and two batches of two notifications |
| Pairs.Cross | app/api/courses/enrollment-status/route.ts:47-48 | the product has `|U|·|C|` pairs |
| Pairs.CrossAt | app/api/courses/enrollment-status/route.ts:47-55 | position `i·|C|+j` holds the `i`-th user with the `j`-th course |
| Pairs.CrossMember | app/api/courses/enrollment-status/route.ts:47-55 | every pair is made of a listed user and a listed course |
| Pairs.WithFirstOfCross | app/api/courses/enrollment-status/route.ts:79 | filtering the product by user gives the product of that user's occurrences with the courses |
| Pairs.WithFirstOfListedOnce | app/api/courses/enrollment-status/route.ts:79 | a user listed once gets exactly their row; an unlisted user gets nothing |
| WebSocketRegistry.OnMessage | app/lib/websocket-server.ts:19-28 | only an `authenticate` message with a truthy `userId` changes the registry, by setting that key; other types, falsy ids (0 included) and malformed JSON leave it unchanged |
| WebSocketRegistry.Put | app/lib/websocket-server.ts:23 | an existing key keeps its place and takes the new socket; a new key is appended |
| WebSocketRegistry.Get | app/lib/websocket-server.ts:49 | a socket is found iff the key is registered |
| WebSocketRegistry.AuthenticateRegisters | app/lib/websocket-server.ts:21-24 | after authenticating, the user id maps to the socket the message came on, replacing any earlier socket |
| WebSocketRegistry.AuthenticateKeepsOthers | app/lib/websocket-server.ts:23 | authenticating one id leaves every other id's socket unchanged |
| WebSocketRegistry.AuthenticateThenSend | app/lib/websocket-server.ts:21-52 | a client that announced a numeric id gets the next notification for it while its socket is open |
| WebSocketRegistry.OnMessageKeepsKeyed | app/lib/websocket-server.ts:19-28 | messages keep keys unique |
| WebSocketRegistry.OnClose | app/lib/websocket-server.ts:30-39 | closing removes the first entry holding the socket and nothing else, or nothing if none holds it |
| WebSocketRegistry.OnCloseKeepsKeyed | app/lib/websocket-server.ts:30-39 | closing keeps keys unique and removes at most one entry |
| WebSocketRegistry.CloseUnregistersFirst | app/lib/websocket-server.ts:33-37 | the id the closed socket was first registered under no longer reaches any socket |
| WebSocketRegistry.SendNotification | app/lib/websocket-server.ts:43-53 | at most one message, sent iff the numeric id is registered and its socket is open |
| WebSocketRegistry.StringIdNotReached | app/lib/websocket-server.ts:49 | a client that announced its id as a string is not found by the numeric lookup |
| WebSocketRegistry.Broadcast | app/lib/websocket-server.ts:55-67 | every message goes to an open socket, at most one per entry |
| WebSocketRegistry.BroadcastCount | app/lib/websocket-server.ts:61-66 | one message per entry with an open socket |
| WebSocketRegistry.BroadcastPerSocket | app/lib/websocket-server.ts:55-67 | each push goes to its own entry's socket: an open socket receives one message per entry holding it, a closed one none |
| WebSocketRegistry.SharedSocketPushedTwice | app/lib/websocket-server.ts:61-66 | a socket registered under two ids receives a broadcast twice |
| JsNumber.ParseIntOfIntToString | app/components/scorm-player.tsx:61 | `parseInt` of an integer's decimal string is that integer |
| JsNumber.ParseInt | app/api/courses/route.ts:29-30 | a negative result needs a minus after the leading whitespace, and a string without a decimal digit gives `NaN` (a hex number needs the `0` of `0x`) |
| JsNumber.ParseIntWithoutDigits | app/api/courses/access-control/route.ts:86-92 | a course id without any decimal digit is `NaN`, so the route answers 400 |
| JsNumber.ParseIntIgnoresSuffix | app/api/courses/access-control/route.ts:86 | an integer's decimal string followed by a non-digit other than `x` reads as that integer |
| JsNumber.RoundDiv | app/api/team-progress/route.ts:117 | `Math.round(num/den)` is the nearest integer, halves rounded up |
| JsNumber.RoundDivBounds | app/api/team-progress/route.ts:117 | rounding a quotient stays within integer bounds on the exact quotient |
| JsNumber.CeilDiv | app/api/courses/route.ts:110 | `Math.ceil(num/den)` is the least integer at or above the quotient |

## Left out

- Fetching the package, zip decoding and XML parsing: the download outcome is a parameter (`ScormValidator.Download`), and so is the parser, a function from the manifest's bytes to the parsed document or the message it throws. The TypeError message text is a stand-in constant.
- ScormValidator.ParseDuration: stated through `ParseDurationOfDesignators`, `FindPT` and the examples, not as one closed formula for arbitrary strings. The model does follow the regular expression on every string.
- Prisma, NextAuth and `NextResponse`: query results, sessions, request bodies and write outcomes are inputs, and responses are outcome datatypes. Error responses caused by database failures are modelled only where the handler distinguishes them.
- AccessControlRoute.GetAccess: a failing query (status 500) is not modelled.
- AccessControlRoute.GetAccess: the `SELECT` has no `ORDER BY`, and the model reads the course's rows in insertion order. `PostThenGet` states the posted order only under that reading; `PostThenGetAnyOrder` states what holds for any order the database returns: the same ids per type, each as often as posted.
- AccessControlRoute.PostAccess: a body element that is not a number is treated as a failed insert. Whether Prisma would store such a value is not part of this model.
- CoursesRoute.GetCourses: a page below 1, a limit below 1, or a non-numeric page or limit yields `OutsidePaging`. What Prisma does with such a skip or take is not part of this model.
- CoursesRoute.GetCourses: the catalogue is taken in the query's order (newest first); `created_at` is not modelled.
- CoursesRoute.Summarize: the included enrollments have no `orderBy`, so when a user has two enrollments in one course the database decides which is first, and so which percentage `progress` shows. The model takes them in the order given.
- CoursesRoute.Visible: the case-insensitive title match folds ASCII letters only. The database folds Unicode case.
- AssignRoute.Assign and EnrollmentStatusRoute.Post: writes are all-or-nothing per step. Partial writes inside `Promise.all` before a failure, the interleaving of per-user writes, and the clock values (`new Date()`) are not modelled. The websocket push that `NotificationService.createNotification` attempts is not modelled either.
- AssignRoute.Assign: a failing course-title lookup has no parameter of its own and is folded into a failed notification step (`notifyOk` false). The outcome, a 500 with `success=false` and 0, is the same, but the model's `notifications` then lists notifications that were never attempted.
- EnrollmentStatusRoute.Batch: ids are compared by value. The source's `===` compares arrays and objects by reference, but the database rejects such ids before that point.
- WebSocketRegistry: the `ws` library, JSON serialisation of the pushed record, and socket states other than an open/not-open flag are not modelled.
- TeamProgress: the date-range filter is part of the queries, so the model takes its results. `averageCompletion` over zero members is `NaN`, serialised as `null`; the model gives None.
- JSON numbers are integers in the model: fractional numbers, `-0`, `NaN` scores in reports, and floating-point rounding are not modelled.
- The React effect lifecycle (stale `progress` capture, cleanup calling `Terminate`) and the content-fetching effects of the player are not modelled.
- `localeCompare` on `YYYY-MM` keys is modelled as code-point order. The two agree on digits and `-`.

## Findings

| source | as written | input that shows it | evidently intended | confidence | as-written member | corrected member |
|---|---|---|---|---|---|---|
| app/api/team-progress/route.ts:106-118 | `lastActive` is element 0 of the member's sorted access dates, and `toISOString()` is called on it. A member with no enrollments has an empty list, so the call is on `undefined`: it throws, and the whole report answers 500. | a team with one member who has no enrollments in the date range | members without enrollments are reported, as the `|| 1` guard of the average at line 104 expects, with the epoch as their last-active date (the fallback already used for an enrollment without progress) | not executed; high | TeamProgress.GetTeamProgressAsWritten | TeamProgress.GetTeamProgress |
