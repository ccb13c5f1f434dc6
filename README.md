# Dance choreography manager: the course ledger and the dancer service

This project models the core of the dance choreography manager, a set of ASP.NET Core services that share one utility library.

## The course service

The course service keeps four tables:

- **courses**, each with a capacity and an enrollment counter;
- **sessions** of each course;
- **enrollments**: a dancer in a course;
- **attendance rows**: a dancer in a session.

Its controllers offer these actions:

- list, read, create, update and delete courses;
- schedule, update, cancel and delete sessions;
- enroll dancers into a course, update their enrollment rows and delete them;
- record and delete attendance.

The database key relations are modelled too:

- unique ids;
- a unique `(CourseId, DancerId)` pair for enrollments;
- a unique `(SessionId, DancerId)` pair for attendance rows;
- foreign keys with cascading deletes.

## The dancer service

The dancer service keeps two tables: **dancers**, with a unique email index, and the dancers' **style entries**. Its controllers list, read, create, update and delete dancers, and add, update and remove style entries.

## Shared library and framework rules

The shared library provides:

- the `ApiResponse` and `PagedResponse` wrappers;
- the string extensions `ToSlug`, `Truncate` and `IsValidEmail`;
- the audit columns of every entity;
- the table-name prefixing both database contexts perform.

The data-annotation rules the framework checks before an action runs are modelled as `Valid()` predicates on the request DTOs.

## How the model is built

Tables are sequences of rows in storage order. Keys, the unique indexes and the foreign keys are predicates (`CourseData.Valid` and `DancerData.Valid`), and every write is proved to keep them.

Each controller action is modelled twice:

- a pure function `XxxStep(state, …)` returns the new state and the action result: `Ok`, `Created`, `NotFound`, `BadRequest` or `ServerError`, each with its reason;
- a method `Xxx(db, …)` on the database object (`CourseDb` or `DancerDb`) runs the source's guard chain with early returns, then assigns the fields one by one. It is proved to produce exactly what the step function describes.

The following are parameters:

- the clock (`now`);
- the signed-in user (`user`; `null` becomes `"system"`);
- the generated Guids (`newId`, `sessionIds`, `styleIds`);
- for the dancer age filter, the calendar function `yearsAgo` that stands for `DateTime.UtcNow.AddYears`.

Further modelling choices:

- `DateTime` is an integer count of ticks and `decimal` is `real` (see "## Left out" for the column scale).
- `OrderBy` is modelled as a stable sort over storage order: rows with equal keys keep their storage order (see "## Left out").
- `Skip`/`Take` is `Seqs.PageOf`.

## Model

| member | source | states |
|---|---|---|
| Common.Actor | src/Services/Dancer/Controllers/DancerController.cs:96 | the acting user is the identity name, or "system" when there is none |
| Common.NewAudit | src/Shared/Models/Base/EntityBase.cs:16-31 | a created row is stamped with the current time and user and has no modification stamp |
| Common.Touch | src/Services/Dancer/Controllers/DancerController.cs:187-188 | a modified row keeps its creation stamp and records the current time and user as last modifier |
| BaseDto.CreateSuccess | src/Shared/DTOs/Common/BaseDto.cs:41-49 | a success response carries the data and the optional message |
| BaseDto.CreateFailure | src/Shared/DTOs/Common/BaseDto.cs:56-64 | a failure response carries no data and always a message |
| BaseDto.PagedResponse.TotalPages | src/Shared/DTOs/Common/BaseDto.cs:91 | the page count is the least number of pages covering the total count |
| BaseDto.HasNextPageIff | src/Shared/DTOs/Common/BaseDto.cs:96 | a next page is announced exactly when the rows up to this page do not cover the total |
| BaseDto.PageResponse | src/Shared/DTOs/Common/BaseDto.cs:71-107 | a response built from a query carries the total of all rows and at most a page of them, all from the query |
| BaseDto.NextPageMeansMoreRows | src/Shared/DTOs/Common/BaseDto.cs:96 | a next page is announced exactly when rows exist after the ones on this page |
| BaseDto.PreviousPageMeansSkippedRows | src/Shared/DTOs/Common/BaseDto.cs:101 | a previous page is announced exactly when the query skipped rows to reach this page, and then at least a whole page of them |
| ApplicationUser.DisplayNameWithFirstName | src/Services/Authentication/Models/ApplicationUser.cs:19-21 | with a first name, the display name is that name, one space and the last name (or nothing) |
| ApplicationUser.DisplayNameWithoutFirstName | src/Services/Authentication/Models/ApplicationUser.cs:19-21 | without a first name the last name never shows, the user name is used, and "User" replaces a missing one |
| ApplicationUser.DisplayNameNullLastName | src/Services/Authentication/Models/ApplicationUser.cs:19-21 | a first name with a null last name still ends in the separating space |
| TableNames.Prefixed | src/Services/Course/Models/Data/CourseDbContext.cs:25-29 | a null name stays null; a name already carrying the prefix is returned unchanged; any other name gets the prefix in front of it |
| TableNames.PrefixedIdempotent | src/Services/Course/Models/Data/CourseDbContext.cs:26 | configuring the names a second time changes nothing |
| TableNames.PrefixedInjective | src/Services/Dancer/Data/DancerDbContext.cs:24-27 | two different unprefixed names stay different after prefixing |
| TableNames.PrefixCollision | src/Services/Course/Models/Data/CourseDbContext.cs:26 | an entity already named "Course_Sessions" collides with one named "Sessions" |
| TableNames.PrefixTableNames | src/Services/Course/Models/Data/CourseDbContext.cs:23-30 | the loop over the entity types leaves every table named as `Prefixed` says |
| StringExtensions.LowerChar | src/Services/Course/Repositories/CourseRepository.cs:36 | an ASCII or Latin-1 capital becomes its small letter, 32 code points down; every other character is kept; no such capital remains |
| StringExtensions.ToLower | src/Services/Course/Repositories/CourseRepository.cs:36-40 | lower-casing keeps the length and lowers each character on its own |
| StringExtensions.ToLowerIdempotent | src/Services/Course/Repositories/CourseRepository.cs:36-40 | lower-casing twice is lower-casing once |
| StringExtensions.SearchIgnoresTermCase | src/Services/Dancer/Repositories/DancerRepository.cs:34-39 | a search does not depend on the letter case of the term |
| StringExtensions.ContainsBounds | src/Services/Dancer/Repositories/DancerRepository.cs:34-39 | a term longer than the text never matches, and the empty term matches every text |
| StringExtensions.AccentedCapitalFolds | src/Services/Course/Repositories/CourseRepository.cs:36-40 | an accented capital folds to its small letter, so a search for "ÉLAN" finds "élan" |
| StringExtensions.SpacesToHyphens | src/Shared/Utilities/Extensions/StringExtensions.cs:38 | every space becomes a hyphen and nothing else changes |
| StringExtensions.CollapseHyphens | src/Shared/Utilities/Extensions/StringExtensions.cs:44 | no two hyphens remain adjacent, the ends and the characters are kept, and text without a double hyphen is unchanged |
| StringExtensions.TrimHyphens | src/Shared/Utilities/Extensions/StringExtensions.cs:47 | the result is a slice of the text with no hyphen at either end, and untrimmed text is unchanged |
| StringExtensions.ToSlug | src/Shared/Utilities/Extensions/StringExtensions.cs:17-50 | the loop that drops non-spacing marks, followed by the replacement pipeline, gives exactly the slug of the text |
| StringExtensions.SlugShape | src/Shared/Utilities/Extensions/StringExtensions.cs:36-47 | whatever the text, the slug has only lower-case letters, digits, whitespace and single inner hyphens |
| StringExtensions.SlugFixpoint | src/Shared/Utilities/Extensions/StringExtensions.cs:36-47 | a slug passes through every step of the pipeline unchanged |
| StringExtensions.SlugIdempotent | src/Shared/Utilities/Extensions/StringExtensions.cs:17-50 | slugging a slug changes nothing |
| StringExtensions.SlugKeepsTab | src/Shared/Utilities/Extensions/StringExtensions.cs:41 | whitespace other than a space passes the `\s` class and stays in the slug |
| StringExtensions.TrimEnd | src/Shared/Utilities/Extensions/StringExtensions.cs:67 | the result is the longest prefix of the text that does not end in whitespace |
| StringExtensions.Truncate | src/Shared/Utilities/Extensions/StringExtensions.cs:59-73 | empty text gives empty; short text is kept; long text is cut to the limit, its trailing whitespace trimmed, and the ellipsis added when asked |
| StringExtensions.TruncateLength | src/Shared/Utilities/Extensions/StringExtensions.cs:59-73 | the result is never longer than the limit plus the three characters of the ellipsis |
| StringExtensions.TruncateToNothing | src/Shared/Utilities/Extensions/StringExtensions.cs:67-70 | cutting non-empty text to zero characters gives just the ellipsis |
| StringExtensions.EmailShapeCharacterized | src/Shared/Utilities/Extensions/StringExtensions.cs:87-88 | the pattern accepts exactly texts with one inner '@', no whitespace, and a '.' strictly inside the host part |
| StringExtensions.IsValidEmailCharacterized | src/Shared/Utilities/Extensions/StringExtensions.cs:80-95 | the corrected check accepts exactly the well-formed addresses and refuses null or blank text |
| StringExtensions.IsValidEmailRejectsLineFeed | src/Shared/Utilities/Extensions/StringExtensions.cs:87-88 | the corrected check never accepts a text containing a line feed |
| StringExtensions.TrailingLineFeedAccepted | src/Shared/Utilities/Extensions/StringExtensions.cs:87-88 | the check as written accepts "a@b.c\n", which the corrected check refuses |
| CourseModel.DanceStyleValueInjective | src/Services/Course/Models/Course.cs:114-185 | distinct dance styles have distinct stored values |
| CourseModel.EndedImpliesStarted | src/Services/Course/Models/Course.cs:103-108 | for a course whose dates are in order, having ended implies having started |
| CourseModel.SessionEndedImpliesStarted | src/Services/Course/Models/CourseSession.cs:63-68 | for a session whose times are in order, having ended implies having started |
| CourseModel.DurationBounds | src/Services/Course/Models/CourseSession.cs:58 | a session's duration counts the whole minutes of its span and never rounds up |
| CourseModel.DurationAntisymmetric | src/Services/Course/Models/CourseSession.cs:58 | because the cast truncates, swapping the ends only flips the sign of the duration |
| CourseModel.DurationTruncatesTowardZero | src/Services/Course/Models/CourseSession.cs:58 | a span just under a minute is zero minutes in either direction |
| Annotations.Utf16Length | src/Services/Course/DTOs/CourseDtos.cs:15 | the length `[StringLength]` measures lies between the character count and twice it |
| Annotations.BmpLengthIsCharCount | src/Services/Course/DTOs/CourseDtos.cs:15 | for text inside the Basic Multilingual Plane the measured length is the character count |
| Annotations.SupplementaryCountsTwice | src/Services/Course/DTOs/CourseDtos.cs:15 | the measured length is the character count plus one for each character above U+FFFF |
| Annotations.EmojiOverLimit | src/Services/Dancer/DTOs/DancerDtos.cs:15 | a two-character text with an emoji is three units long and exceeds a limit of two |
| CourseDtos.DefaultCourseFilter | src/Services/Course/DTOs/CourseDtos.cs:477-535 | a request that sets nothing asks for page 1 of 20 and passes validation |
| CourseDtos.EmptyUpdatesValid | src/Services/Course/DTOs/CourseDtos.cs:101-180 | an update body that sets nothing passes validation |
| CourseDtos.BlankNameInvalid | src/Services/Course/DTOs/CourseDtos.cs:14-16 | a blank course name is refused before the action runs |
| EnrollmentDtos.DefaultCreateEnrollment | src/Services/Course/DTOs/EnrollmentDtos.cs:9-52 | a body naming only the dancer is active, payment pending, nothing paid, and valid with a proper name |
| EnrollmentDtos.DefaultEnrollmentFilter | src/Services/Course/DTOs/EnrollmentDtos.cs:174-222 | a request that sets nothing asks for page 1 of 20 and passes validation |
| CourseData.FindCourse | src/Shared/Utilities/Data/Repository.cs:29 | the lookup returns a stored course with that id, and nothing exactly when no course has that id |
| CourseData.FindSession | src/Services/Course/Repositories/CourseRepository.cs:119-124 | the lookup returns a stored session with that id, and nothing exactly when none has it |
| CourseData.EmptyStoreValid | src/Services/Course/Models/Data/CourseDbContext.cs:33-102 | the empty database meets every constraint |
| CourseData.CourseDb.constructor | src/Services/Course/Models/Data/CourseDbContext.cs:6-16 | a new context starts with four empty tables |
| CourseData.FindCourseAt | src/Services/Course/Models/Data/CourseDbContext.cs:35 | under the primary key, looking up a stored course's id finds that row |
| CourseData.FindSessionAt | src/Services/Course/Models/Data/CourseDbContext.cs:53 | under the primary key, looking up a stored session's id finds that row |
| CourseData.WithoutSessionValid | src/Services/Course/Models/Data/CourseDbContext.cs:95-98 | deleting a session keeps the database valid, and its attendance rows go with it |
| CourseData.WithoutCourseKeys | src/Services/Course/Models/Data/CourseDbContext.cs:35-101 | the course cascade keeps every key and unique pair |
| CourseData.OtherCourseKept | src/Services/Course/Models/Data/CourseDbContext.cs:59-62 | deleting a course keeps every other course |
| CourseData.WithoutCourseSessionsFK | src/Services/Course/Models/Data/CourseDbContext.cs:59-62 | after the cascade every session still belongs to a stored course |
| CourseData.WithoutCourseEnrollmentsFK | src/Services/Course/Models/Data/CourseDbContext.cs:78-81 | after the cascade every enrollment still belongs to a stored course |
| CourseData.WithoutCourseAttendancesFK | src/Services/Course/Models/Data/CourseDbContext.cs:95-98 | after the cascade every attendance row still belongs to a stored session |
| CourseData.WithoutCourseForeignKeys | src/Services/Course/Models/Data/CourseDbContext.cs:59-98 | the course cascade keeps all foreign keys |
| CourseData.WithoutCourseCounts | src/Services/Course/Models/Data/CourseDbContext.cs:78-81 | the course cascade keeps every remaining counter equal to its number of enrollment rows |
| CourseData.WithoutCourseValid | src/Services/Course/Models/Data/CourseDbContext.cs:59-98 | deleting a course keeps the database valid and leaves no session or enrollment of it |
| CourseData.AttendanceForeignKeys | src/Services/Course/Models/Data/CourseDbContext.cs:95-98 | changing only attendance rows keeps the foreign keys when each row's session is stored |
| CourseRepository.GetByIdWithDetails | src/Services/Course/Repositories/CourseRepository.cs:18-24 | the course with that id, with exactly its sessions and its enrollment rows, or nothing when none exists |
| CourseRepository.DetailsCountMatches | src/Services/Course/Repositories/CourseRepository.cs:18-24 | in a valid database, the loaded course's counter equals the number of enrollment rows loaded with it |
| CourseRepository.GetSessionsForCourse | src/Services/Course/Repositories/CourseRepository.cs:129-135 | the course's sessions, earliest first: a permutation of the matching rows |
| CourseRepository.SessionsOfMissingCourse | src/Services/Course/Repositories/CourseRepository.cs:129-135 | where the foreign keys hold, a course that does not exist has no sessions |
| CourseRepository.KindFiltersMeanMatch | src/Services/Course/Repositories/CourseRepository.cs:34-56 | the search, style, level and active clauses keep exactly the courses meeting each supplied criterion |
| CourseRepository.RangeFiltersMeanMatch | src/Services/Course/Repositories/CourseRepository.cs:58-71 | the date-range and instructor clauses keep exactly the courses meeting each supplied bound |
| CourseRepository.AvailabilityFiltersMeanMatch | src/Services/Course/Repositories/CourseRepository.cs:73-82 | the two flags keep exactly the courses with a free place or not yet over |
| CourseRepository.CourseFiltersMeanMatch | src/Services/Course/Repositories/CourseRepository.cs:34-82 | a course passes the chain of clauses exactly when it meets every supplied criterion |
| CourseRepository.CourseChainIsMatching | src/Services/Course/Repositories/CourseRepository.cs:31-82 | the chain of clauses keeps exactly the matching courses, in storage order |
| CourseRepository.FutureOnlyBoundary | src/Services/Course/Repositories/CourseRepository.cs:78-82 | the future-only flag also drops a course ending at the very instant of the query, and never keeps an ended course |
| CourseRepository.FilteredCourses | src/Services/Course/Repositories/CourseRepository.cs:85-89 | the matching courses, earliest start first, as a permutation of the filtered rows |
| CourseRepository.GetFiltered | src/Services/Course/Repositories/CourseRepository.cs:29-96 | one page of the matching courses by start date, at most a page size long, with the count before paging |
| CourseRepository.UnfilteredKeepsAll | src/Services/Course/Repositories/CourseRepository.cs:29-96 | with no criterion the total counts every stored course |
| CourseRepository.NameExists | src/Services/Course/Repositories/CourseRepository.cs:101-114 | false for a blank name; otherwise whether a course other than the excluded one has exactly that name |
| CourseRepository.NonEmptyFilter | src/Services/Course/Repositories/CourseRepository.cs:106-113 | the two `Where` clauses leave a row exactly when some course has that name and another id than the excluded one |
| CourseRepository.NameExistsExclusion | src/Services/Course/Repositories/CourseRepository.cs:108-111 | excluding an id can only hide a match, and excluding an id no course has hides nothing |
| CourseRepository.OwnNameIsFree | src/Services/Course/Repositories/CourseRepository.cs:108-111 | a course that alone has its name does not clash with itself |
| CourseRepository.SessionAdded | src/Services/Course/Repositories/CourseRepository.cs:140-145 | the new session is appended and no other table changes |
| CourseRepository.SessionAddedValid | src/Services/Course/Repositories/CourseRepository.cs:140-145 | a session with a fresh id for a stored course keeps the database valid and is found afterwards |
| CourseRepository.SessionAddedForeignKeys | src/Services/Course/Models/Data/CourseDbContext.cs:59-62 | a session for a stored course keeps the foreign keys |
| CourseRepository.SessionsPrefixKept | src/Services/Course/Repositories/CourseRepository.cs:140-145 | sessions kept in place are still found after rows are appended |
| CourseRepository.CoursesPrefixKept | src/Shared/Utilities/Data/Repository.cs:43 | courses kept in place are still found after rows are appended |
| CourseRepository.SessionUpdated | src/Services/Course/Repositories/CourseRepository.cs:150-155 | the stored session with the same id is replaced and nothing else changes |
| CourseRepository.SessionUpdatedForeignKeys | src/Services/Course/Models/Data/CourseDbContext.cs:59-62 | replacing a session by one of a stored course keeps the foreign keys |
| CourseRepository.SessionUpdatedValid | src/Services/Course/Repositories/CourseRepository.cs:150-155 | replacing a session by one of a stored course keeps the database valid and the new row is found |
| CourseRepository.SessionDeleted | src/Services/Course/Repositories/CourseRepository.cs:160-164 | the session goes with its attendance rows; courses and enrollments are untouched |
| CourseRepository.SessionDeletedValid | src/Services/Course/Repositories/CourseRepository.cs:160-164 | deleting a session keeps the database valid; it is no longer found and exactly its attendance rows are gone |
| CourseRepository.CourseAdded | src/Shared/Utilities/Data/Repository.cs:43 | the course and the sessions attached to it are appended |
| CourseRepository.CourseAddedForeignKeys | src/Services/Course/Models/Data/CourseDbContext.cs:59-62 | sessions attached to the new course keep the foreign keys |
| CourseRepository.CourseAddedCounts | src/Services/Course/Models/Data/CourseDbContext.cs:78-81 | a new course with a zero counter keeps every counter matching its rows |
| CourseRepository.CourseAddedValid | src/Shared/Utilities/Data/Repository.cs:43 | a course with a fresh id, a zero counter and fresh sessions of its own keeps the database valid and is found |
| CourseRepository.CourseUpdated | src/Shared/Utilities/Data/Repository.cs:50 | the stored course with the same id is replaced and no other table changes |
| CourseRepository.CourseUpdatedValid | src/Shared/Utilities/Data/Repository.cs:50 | replacing a course by one with the same counter keeps the database valid and is found |
| CourseRepository.SameCourseIds | src/Shared/Utilities/Data/Repository.cs:50 | changing courses without changing ids or counters keeps foreign keys and counters |
| CourseRepository.CourseDeleted | src/Shared/Utilities/Data/Repository.cs:57 | the course goes with its sessions, their attendance rows and its enrollments |
| CourseRepository.CourseDeletedValid | src/Services/Course/Models/Data/CourseDbContext.cs:59-98 | deleting a course keeps the database valid and leaves no session or enrollment of it |
| CourseRepository.AddSession | src/Services/Course/Repositories/CourseRepository.cs:140-145 | the database afterwards is `SessionAdded` of the one before |
| CourseRepository.UpdateSession | src/Services/Course/Repositories/CourseRepository.cs:150-155 | the database afterwards is `SessionUpdated` of the one before |
| CourseRepository.DeleteSession | src/Services/Course/Repositories/CourseRepository.cs:160-164 | the database afterwards is `SessionDeleted` of the one before |
| CourseRepository.AddCourse | src/Shared/Utilities/Data/Repository.cs:43 | the database afterwards is `CourseAdded` of the one before |
| CourseRepository.UpdateCourse | src/Shared/Utilities/Data/Repository.cs:50 | the database afterwards is `CourseUpdated` of the one before |
| CourseRepository.DeleteCourse | src/Shared/Utilities/Data/Repository.cs:57 | the database afterwards is `CourseDeleted` of the one before |
| EnrollmentRepository.GetById | src/Services/Course/Repositories/EnrollmentRepository.cs:20-25 | a stored enrollment with that id, and nothing exactly when none has it |
| EnrollmentRepository.GetByIdAt | src/Services/Course/Repositories/EnrollmentRepository.cs:20-25 | under the primary key, the lookup finds exactly the stored row |
| EnrollmentRepository.GetEnrollmentsForCourse | src/Services/Course/Repositories/EnrollmentRepository.cs:30-36 | the course's enrollments ordered by dancer name, a permutation of its rows, as many as it has |
| EnrollmentRepository.GetEnrollmentsForDancer | src/Services/Course/Repositories/EnrollmentRepository.cs:41-48 | the dancer's enrollments whose course exists, latest course start first |
| EnrollmentRepository.DancerEnrollmentsComplete | src/Services/Course/Repositories/EnrollmentRepository.cs:41-48 | where the foreign keys hold, the join drops none of the dancer's rows |
| EnrollmentRepository.FiltersMeanMatch | src/Services/Course/Repositories/EnrollmentRepository.cs:57-90 | a row passes the chain of clauses exactly when it meets every supplied criterion |
| EnrollmentRepository.ChainIsMatching | src/Services/Course/Repositories/EnrollmentRepository.cs:55-90 | the chain of clauses keeps exactly the matching rows, in storage order |
| EnrollmentRepository.FilteredEnrollments | src/Services/Course/Repositories/EnrollmentRepository.cs:53-108 | the matching rows, newest enrollment first, as a permutation of the filtered rows |
| EnrollmentRepository.GetFiltered | src/Services/Course/Repositories/EnrollmentRepository.cs:53-108 | one page of the matching rows by enrollment date, at most a page size long, with the count before paging |
| EnrollmentRepository.IsEnrolled | src/Services/Course/Repositories/EnrollmentRepository.cs:113-117 | true exactly when some row pairs the course with the dancer |
| EnrollmentRepository.IsEnrolledIgnoresStatus | src/Services/Course/Repositories/EnrollmentRepository.cs:113-117 | whether a dancer counts as enrolled does not depend on the status or payment of the row |
| EnrollmentRepository.GetAttendancesForSession | src/Services/Course/Repositories/EnrollmentRepository.cs:165-171 | the session's attendance rows ordered by dancer name, a permutation of its rows |
| EnrollmentRepository.SessionListed | src/Services/Course/Repositories/EnrollmentRepository.cs:165-171 | the list holds as many rows as the session has stored, each a stored row of that session |
| EnrollmentRepository.NamesInOrder | src/Services/Course/Repositories/EnrollmentRepository.cs:169 | rows in `OrderBy(a => a.DancerName)` order have their dancer names in ascending order |
| EnrollmentRepository.GetAttendanceById | src/Services/Course/Repositories/EnrollmentRepository.cs:176-181 | a stored attendance row with that id, and nothing exactly when none has it |
| EnrollmentRepository.GetAttendance | src/Services/Course/Repositories/EnrollmentRepository.cs:186-190 | a stored row of that session and dancer, and nothing exactly when there is none |
| EnrollmentRepository.GetAttendanceAt | src/Services/Course/Models/Data/CourseDbContext.cs:101 | under the unique pair index the lookup finds the one row of the pair |
| EnrollmentRepository.Added | src/Services/Course/Repositories/EnrollmentRepository.cs:122-134 | the row is appended and course ids are kept |
| EnrollmentRepository.AddedCounter | src/Services/Course/Repositories/EnrollmentRepository.cs:125-131 | exactly the row's course gains one on its counter; no other course changes |
| EnrollmentRepository.AddedKeepsCounts | src/Services/Course/Repositories/EnrollmentRepository.cs:122-134 | adding a row keeps every counter equal to its course's number of rows |
| EnrollmentRepository.CourseIdsKept | src/Services/Course/Repositories/EnrollmentRepository.cs:122-160 | the counter updates keep every course findable and ids unique |
| EnrollmentRepository.AddedKeys | src/Services/Course/Models/Data/CourseDbContext.cs:84 | a fresh id for a dancer not yet in the course keeps keys and pairs unique |
| EnrollmentRepository.AddedForeignKeys | src/Services/Course/Models/Data/CourseDbContext.cs:78-81 | a row for a stored course keeps the foreign keys |
| EnrollmentRepository.AddedValid | src/Services/Course/Repositories/EnrollmentRepository.cs:122-134 | a row with a fresh id, for a stored course and a dancer not yet in it, keeps the database valid |
| EnrollmentRepository.Deleted | src/Services/Course/Repositories/EnrollmentRepository.cs:149-160 | the row goes, and course ids are kept |
| EnrollmentRepository.DeletedCounter | src/Services/Course/Repositories/EnrollmentRepository.cs:152-157 | only the row's course can lose one, only from a positive counter, and no counter goes negative |
| EnrollmentRepository.DeletedKeepsCounts | src/Services/Course/Repositories/EnrollmentRepository.cs:149-160 | deleting a stored row keeps every counter equal to its course's number of rows |
| EnrollmentRepository.DeletedKeys | src/Services/Course/Repositories/EnrollmentRepository.cs:149-160 | deleting a row keeps keys and pairs unique |
| EnrollmentRepository.DeletedForeignKeys | src/Services/Course/Repositories/EnrollmentRepository.cs:149-160 | deleting a row keeps the foreign keys |
| EnrollmentRepository.DeletedValid | src/Services/Course/Repositories/EnrollmentRepository.cs:149-160 | deleting a stored row keeps the database valid |
| EnrollmentRepository.Updated | src/Services/Course/Repositories/EnrollmentRepository.cs:139-144 | the stored row with the same id is replaced and no counter moves |
| EnrollmentRepository.UpdatedKeys | src/Services/Course/Models/Data/CourseDbContext.cs:84 | a replacement with the same course and dancer keeps keys and pairs unique |
| EnrollmentRepository.UpdatedForeignKeys | src/Services/Course/Models/Data/CourseDbContext.cs:78-81 | a replacement with the same course keeps the foreign keys |
| EnrollmentRepository.UpdatedKeepsCounts | src/Services/Course/Repositories/EnrollmentRepository.cs:139-144 | a replacement with the same course keeps every counter matching |
| EnrollmentRepository.UpdatedValid | src/Services/Course/Repositories/EnrollmentRepository.cs:139-144 | a replacement with the same course and dancer keeps the database valid and who is enrolled where |
| EnrollmentRepository.UpdatedKeepsEnrolled | src/Services/Course/Repositories/EnrollmentRepository.cs:139-144 | a replacement with the same pair does not change who is enrolled where |
| EnrollmentRepository.AttendanceAdded | src/Services/Course/Repositories/EnrollmentRepository.cs:195-200 | the attendance row is appended and no other table changes |
| EnrollmentRepository.AttendanceAddedForeignKeys | src/Services/Course/Models/Data/CourseDbContext.cs:95-98 | a row for a stored session keeps the foreign keys |
| EnrollmentRepository.AttendanceAddedValid | src/Services/Course/Repositories/EnrollmentRepository.cs:195-200 | a row with a fresh id, for a stored session and a dancer without a row in it, keeps the database valid |
| EnrollmentRepository.AttendanceUpdated | src/Services/Course/Repositories/EnrollmentRepository.cs:205-210 | the stored row with the same id is replaced and no other table changes |
| EnrollmentRepository.AttendanceUpdatedValid | src/Services/Course/Repositories/EnrollmentRepository.cs:205-210 | a replacement with the same session and dancer keeps the database valid |
| EnrollmentRepository.AttendanceDeleted | src/Services/Course/Repositories/EnrollmentRepository.cs:215-219 | the stored row with the same id goes and no other table changes |
| EnrollmentRepository.AttendanceDeletedForeignKeys | src/Services/Course/Repositories/EnrollmentRepository.cs:215-219 | deleting an attendance row keeps the foreign keys |
| EnrollmentRepository.AttendanceDeletedValid | src/Services/Course/Repositories/EnrollmentRepository.cs:215-219 | deleting an attendance row keeps the database valid |
| EnrollmentRepository.AttendanceDeletedRemovesOnly | src/Services/Course/Repositories/EnrollmentRepository.cs:215-219 | the row is gone, every other row is kept, and there is one row fewer |
| EnrollmentRepository.Add | src/Services/Course/Repositories/EnrollmentRepository.cs:122-134 | the database afterwards is `Added` of the one before |
| EnrollmentRepository.Update | src/Services/Course/Repositories/EnrollmentRepository.cs:139-144 | the database afterwards is `Updated` of the one before |
| EnrollmentRepository.Delete | src/Services/Course/Repositories/EnrollmentRepository.cs:149-160 | the database afterwards is `Deleted` of the one before |
| EnrollmentRepository.AddAttendance | src/Services/Course/Repositories/EnrollmentRepository.cs:195-200 | the database afterwards is `AttendanceAdded` of the one before |
| EnrollmentRepository.UpdateAttendance | src/Services/Course/Repositories/EnrollmentRepository.cs:205-210 | the database afterwards is `AttendanceUpdated` of the one before |
| EnrollmentRepository.DeleteAttendance | src/Services/Course/Repositories/EnrollmentRepository.cs:215-219 | the database afterwards is `AttendanceDeleted` of the one before |
| CourseController.ListItems | src/Services/Course/Controllers/CourseController.cs:34 | the list items show the query's rows in order, each with exactly the stored sessions of its course |
| CourseController.GetCourses | src/Services/Course/Controllers/CourseController.cs:30-45 | the response pages exactly the repository's query with the request's paging, and each listed course carries its own sessions |
| CourseController.GetCoursesMatches | src/Services/Course/Controllers/CourseController.cs:30-45 | every listed course is stored and matches, the list runs by start date within a page size, and the total counts every match |
| CourseController.GetCourse | src/Services/Course/Controllers/CourseController.cs:51-61 | NotFound exactly when the course is missing; otherwise the course with exactly its sessions |
| CourseController.InlineSessions | src/Services/Course/Controllers/CourseController.cs:106-120 | one session per listed session, each with its generated id |
| CourseController.CreateCourseStep | src/Services/Course/Controllers/CourseController.cs:67-129 | a taken name, then an end not after the start, are refused unchanged; otherwise the course and its sessions are added and returned |
| CourseController.InlineKeysUnique | src/Services/Course/Controllers/CourseController.cs:106-120 | fresh generated ids keep session keys unique |
| CourseController.CreateCourseStores | src/Services/Course/Controllers/CourseController.cs:83-104 | a created course is stored valid, active, with zero enrollments and the currency defaulted to USD |
| CourseController.CreateCourseSessions | src/Services/Course/Controllers/CourseController.cs:106-122 | a created course owns exactly one open session per requested session |
| CourseController.InlineRowsCounted | src/Services/Course/Controllers/CourseController.cs:106-122 | the course's session list has as many rows as were added with it, and only those |
| CourseController.NewCourseRows | src/Services/Course/Controllers/CourseController.cs:106-122 | a course added under a fresh id owns exactly its inline sessions and no enrollment |
| CourseController.SecondCourseNameRefused | src/Services/Course/Controllers/CourseController.cs:70-74 | once a course exists under a non-blank name, a second course with that name is refused |
| CourseController.InlineSessionsUnchecked | src/Services/Course/Controllers/CourseController.cs:106-120 | the inline sessions' times do not decide whether the course is created |
| CourseController.ApplyCourseUpdate | src/Services/Course/Controllers/CourseController.cs:172-216 | the update keeps the id and the counter, stamps the audit, and an empty update changes nothing else |
| CourseController.CourseUpdateOverwritesOnlySupplied | src/Services/Course/Controllers/CourseController.cs:172-212 | each supplied field replaces the stored one and each absent one is kept, so no description, location or instructor can be cleared |
| CourseController.CourseUpdateIdempotent | src/Services/Course/Controllers/CourseController.cs:172-216 | applying an update twice is applying it once |
| CourseController.UpdateCourseKeepsDateOrder | src/Services/Course/Controllers/CourseController.cs:151-169 | an accepted update keeps the start before the end |
| CourseController.CourseDateChecksIff | src/Services/Course/Controllers/CourseController.cs:151-169 | for an update that leaves the name alone, the date checks refuse exactly the updates that would put the end at or before the start |
| CourseController.CapacityMayDropBelowCount | src/Services/Course/Controllers/CourseController.cs:192-193 | capacity is not checked against enrollments, so lowering it to the counter is accepted and leaves the course full |
| CourseController.UpdateCourseStep | src/Services/Course/Controllers/CourseController.cs:135-223 | NotFound, then the name and date refusals, unchanged; otherwise the updated course is saved and returned with its sessions |
| CourseController.UpdateCourseValid | src/Services/Course/Controllers/CourseController.cs:135-223 | an update keeps the database valid and the counter, and a newly chosen non-blank name is held by no other course |
| CourseController.DeleteCourseStep | src/Services/Course/Controllers/CourseController.cs:229-242 | NotFound exactly when the course is missing; otherwise the course is deleted with its cascades |
| CourseController.DeleteCourseCascades | src/Services/Course/Controllers/CourseController.cs:229-242 | a delete keeps the database valid and leaves no course, session or enrollment of that id |
| CourseController.CreateCourse | src/Services/Course/Controllers/CourseController.cs:67-129 | the method's new state and result are those of `CreateCourseStep` |
| CourseController.UpdateCourse | src/Services/Course/Controllers/CourseController.cs:135-223 | the method's new state and result are those of `UpdateCourseStep` |
| CourseController.DeleteCourse | src/Services/Course/Controllers/CourseController.cs:229-242 | the method's new state and result are those of `DeleteCourseStep` |
| CourseSessionController.SessionInCourse | src/Services/Course/Controllers/CourseSessionController.cs:59-60 | the session with that id when it belongs to the course, and nothing exactly otherwise |
| CourseSessionController.MapSessions | src/Services/Course/Controllers/CourseSessionController.cs:255-271 | one DTO per session in the same order, showing that session |
| CourseSessionController.GetSessions | src/Services/Course/Controllers/CourseSessionController.cs:32-45 | NotFound exactly when the course is missing; otherwise exactly the course's sessions, earliest first |
| CourseSessionController.GetSession | src/Services/Course/Controllers/CourseSessionController.cs:50-85 | course NotFound, then session NotFound; otherwise the session, and exactly when asked its attendance list: one DTO per row of the repository's list, in its order, as many as the session's stored rows, ordered by dancer name |
| CourseSessionController.AddSessionStep | src/Services/Course/Controllers/CourseSessionController.cs:90-131 | NotFound, end not after start, and outside the course dates are refused unchanged; otherwise the new session is added and returned |
| CourseSessionController.AddSessionStoresWithin | src/Services/Course/Controllers/CourseSessionController.cs:100-124 | a stored new session lies inside its course, ends after it starts, is open, and takes the course location by default |
| CourseSessionController.AddSessionRefusalKeepsStore | src/Services/Course/Controllers/CourseSessionController.cs:90-110 | a refused request changes nothing |
| CourseSessionController.SessionUpdateRefusalIff | src/Services/Course/Controllers/CourseSessionController.cs:152-191 | an update passes exactly when the resulting span is in order and each supplied end stays inside the course |
| CourseSessionController.ApplySessionUpdate | src/Services/Course/Controllers/CourseSessionController.cs:193-217 | supplied fields replace the stored ones; the id, course and creation stamp are kept |
| CourseSessionController.CancellationRule | src/Services/Course/Controllers/CourseSessionController.cs:205-214 | canceling with a reason stores it, without one keeps the old, reopening clears it, and no flag touches neither |
| CourseSessionController.ReasonRuleKept | src/Services/Course/Controllers/CourseSessionController.cs:205-214 | a reason is only ever present on a canceled session, for new sessions and after every update |
| CourseSessionController.UpdateKeepsSpan | src/Services/Course/Controllers/CourseSessionController.cs:152-197 | an accepted update keeps the span in order and inside the course if it was |
| CourseSessionController.UpdateSessionStep | src/Services/Course/Controllers/CourseSessionController.cs:136-225 | course and session NotFound, then the time refusals, unchanged; otherwise the updated session is saved and returned |
| CourseSessionController.UpdateSessionValid | src/Services/Course/Controllers/CourseSessionController.cs:136-225 | an update keeps the database valid and the session in its course |
| CourseSessionController.DeleteSessionStep | src/Services/Course/Controllers/CourseSessionController.cs:230-250 | course and session NotFound; otherwise the session is deleted |
| CourseSessionController.DeleteSessionOwnership | src/Services/Course/Controllers/CourseSessionController.cs:230-250 | only a session of that course is deleted, with its attendance; a refusal changes nothing |
| CourseSessionController.AddSession | src/Services/Course/Controllers/CourseSessionController.cs:90-131 | the method's new state and result are those of `AddSessionStep` |
| CourseSessionController.UpdateSession | src/Services/Course/Controllers/CourseSessionController.cs:136-225 | the method's new state and result are those of `UpdateSessionStep` |
| CourseSessionController.DeleteSession | src/Services/Course/Controllers/CourseSessionController.cs:230-250 | the method's new state and result are those of `DeleteSessionStep` |
| AttendanceController.GetAttendances | src/Services/Course/Controllers/AttendanceController.cs:33-54 | NotFound exactly when the session is missing; otherwise one DTO for each row of the repository's list, in its order, ordered by dancer name |
| AttendanceController.GetAttendance | src/Services/Course/Controllers/AttendanceController.cs:60-86 | session NotFound, then record NotFound; otherwise the stored row of that dancer in that session |
| AttendanceController.EnrolledHasRecord | src/Services/Course/Controllers/AttendanceController.cs:120-126 | an enrolled dancer's enrollment row is always found, so "Enrollment record not found" cannot happen |
| AttendanceController.RecordAttendanceStep | src/Services/Course/Controllers/AttendanceController.cs:92-179 | session NotFound, course NotFound, then not enrolled, unchanged; otherwise Ok |
| AttendanceController.RecordAttendanceUpserts | src/Services/Course/Controllers/AttendanceController.cs:114-161 | afterwards the pair has one row with the requested status and time, updated in place or appended with the new id |
| AttendanceController.RerecordedStored | src/Services/Course/Controllers/AttendanceController.cs:145-161 | overwriting a stored row keeps the database valid and makes it the pair's row |
| AttendanceController.NewAttendanceStored | src/Services/Course/Controllers/AttendanceController.cs:117-141 | appending a row for a pair without one keeps the database valid and makes it the pair's row |
| AttendanceController.RecordAttendanceCopiesName | src/Services/Course/Controllers/AttendanceController.cs:120-135 | a new row copies the name from the dancer's enrollment in the session's course |
| AttendanceController.RecordAttendanceIdempotent | src/Services/Course/Controllers/AttendanceController.cs:92-179 | recording the same thing twice gives the same answer and no second row |
| AttendanceController.DeleteAttendanceStep | src/Services/Course/Controllers/AttendanceController.cs:185-205 | session NotFound, then record NotFound; otherwise Ok(true) |
| AttendanceController.DeleteAttendanceRemovesPair | src/Services/Course/Controllers/AttendanceController.cs:185-205 | a delete keeps the database valid, leaves the pair without a row, and keeps every other row |
| AttendanceController.DeletedPairGone | src/Services/Course/Models/Data/CourseDbContext.cs:101 | under unique pairs, removing a row leaves its pair with none |
| AttendanceController.RecordAttendance | src/Services/Course/Controllers/AttendanceController.cs:92-179 | the method's new state and result are those of `RecordAttendanceStep` |
| AttendanceController.DeleteAttendance | src/Services/Course/Controllers/AttendanceController.cs:185-205 | the method's new state and result are those of `DeleteAttendanceStep` |
| EnrollmentController.GetEnrollment | src/Services/Course/Controllers/EnrollmentController.cs:69-96 | NotFound exactly when no row has that id; otherwise the stored row |
| EnrollmentController.ToDtos | src/Services/Course/Controllers/EnrollmentController.cs:37-52 | one DTO per row in order, with the name of its course or empty when the course is gone |
| EnrollmentController.GetEnrollments | src/Services/Course/Controllers/EnrollmentController.cs:33-64 | the response pages exactly the repository's query with the request's paging |
| EnrollmentController.GetEnrollmentsMatches | src/Services/Course/Controllers/EnrollmentController.cs:33-64 | every listed row is stored and matches, newest first within a page size, and the total counts every match |
| EnrollmentController.GetDancerEnrollments | src/Services/Course/Controllers/EnrollmentController.cs:101-123 | never NotFound; the rows are exactly the repository's list for the dancer |
| EnrollmentController.DancerEnrollmentsListed | src/Services/Course/Controllers/EnrollmentController.cs:101-123 | where the foreign keys hold, the list shows exactly the dancer's rows |
| EnrollmentController.GetCourseEnrollments | src/Services/Course/Controllers/EnrollmentController.cs:128-155 | NotFound exactly when the course is missing; otherwise the repository's list, ordered by dancer name and a permutation of the course's rows, each with the course's name |
| EnrollmentController.CreateEnrollmentStep | src/Services/Course/Controllers/EnrollmentController.cs:161-220 | NotFound, full, then already enrolled, in that order and unchanged; otherwise the row is added and returned |
| EnrollmentController.CreateEnrollmentStores | src/Services/Course/Controllers/EnrollmentController.cs:181-197 | the new row carries the request's data stamped with the clock and user, and is appended |
| EnrollmentController.CreateEnrollmentValid | src/Services/Course/Controllers/EnrollmentController.cs:161-220 | a create with a fresh id keeps the database valid |
| EnrollmentController.CreateEnrollmentCapacity | src/Services/Course/Controllers/EnrollmentController.cs:170-197 | a create adds one row and one to the counter, which stays within the capacity |
| EnrollmentController.FullCourseRefusesEveryone | src/Services/Course/Controllers/EnrollmentController.cs:170-173 | on a full course every request is refused as full |
| EnrollmentController.ApplyEnrollmentUpdate | src/Services/Course/Controllers/EnrollmentController.cs:236-249 | status, payment, amount and notes come from the body when supplied; the rest is kept and the audit stamped |
| EnrollmentController.EnrollmentUpdateIdempotent | src/Services/Course/Controllers/EnrollmentController.cs:236-249 | applying an update twice is applying it once |
| EnrollmentController.EmptyEnrollmentUpdate | src/Services/Course/Controllers/EnrollmentController.cs:236-249 | an empty update changes only the modification stamp |
| EnrollmentController.UpdateEnrollmentStep | src/Services/Course/Controllers/EnrollmentController.cs:227-274 | NotFound for an unknown id; otherwise the updated row is saved and returned with its course's name |
| EnrollmentController.UpdateEnrollmentKeepsLedger | src/Services/Course/Controllers/EnrollmentController.cs:227-274 | an update keeps the database valid, every counter, and who is enrolled where |
| EnrollmentController.SecondCreateRefused | src/Services/Course/Controllers/EnrollmentController.cs:176-179 | a second enrollment of the dancer in the course is refused, even after the first row's status changed |
| EnrollmentController.DeleteEnrollmentStep | src/Services/Course/Controllers/EnrollmentController.cs:280-294 | NotFound for an unknown id; otherwise the row is deleted |
| EnrollmentController.DeleteEnrollmentFrees | src/Services/Course/Controllers/EnrollmentController.cs:280-294 | a delete keeps the database valid, frees the pair and takes one off the counter |
| EnrollmentController.DeletedRowGone | src/Services/Course/Repositories/EnrollmentRepository.cs:149-160 | after the delete neither the id nor the pair is stored |
| EnrollmentController.DeletedDecrements | src/Services/Course/Repositories/EnrollmentRepository.cs:152-157 | a stored row's course has a positive counter, which loses exactly one |
| EnrollmentController.CreateEnrollment | src/Services/Course/Controllers/EnrollmentController.cs:161-220 | the method's new state and result are those of `CreateEnrollmentStep` |
| EnrollmentController.UpdateEnrollment | src/Services/Course/Controllers/EnrollmentController.cs:227-274 | the method's new state and result are those of `UpdateEnrollmentStep` |
| EnrollmentController.DeleteEnrollment | src/Services/Course/Controllers/EnrollmentController.cs:280-294 | the method's new state and result are those of `DeleteEnrollmentStep` |
| DancerModel.ExperienceOrderTotal | src/Services/Dancer/Models/Dancer.cs:137-163 | the level values are a total order from Beginner to Instructor that tells the levels apart |
| DancerModel.Dancer.Age | src/Services/Dancer/Models/Dancer.cs:98-100 | the age is null exactly when the date of birth is |
| DancerModel.FullNameShape | src/Services/Dancer/Models/Dancer.cs:93 | the full name is the first name, one space and the last name |
| DancerModel.FullNameDeterminesNames | src/Services/Dancer/Models/Dancer.cs:93 | two dancers whose first names contain no space and whose full names agree have the same first and last names |
| DancerModel.AgeBounds | src/Services/Dancer/Models/Dancer.cs:98-100 | for a past birth the age counts the whole 365.25-day years lived and never rounds up |
| DancerModel.AgeOfFutureBirth | src/Services/Dancer/Models/Dancer.cs:98-100 | a future birth gives an age of zero or less, zero within the first year |
| DancerDtos.CreateDefaultsValid | src/Services/Dancer/DTOs/DancerDtos.cs:9-93 | a body with two proper names is valid, with an unspecified gender, the beginner level and no styles |
| DancerDtos.CreateRefusals | src/Services/Dancer/DTOs/DancerDtos.cs:9-93 | a blank name, a height or weight out of range, or a style with out-of-range years is refused |
| DancerDtos.UpdateNamesOptional | src/Services/Dancer/DTOs/DancerDtos.cs:98-180 | every update field is optional and empty names pass, unlike on create |
| DancerDtos.DefaultDancerFilter | src/Services/Dancer/DTOs/DancerDtos.cs:314-364 | a request that sets nothing asks for page 1 of 20 and passes validation |
| DancerData.FindDancer | src/Shared/Utilities/Data/Repository.cs:29 | a stored dancer with that id, and nothing exactly when none has it |
| DancerData.EmptyStoreValid | src/Services/Dancer/Data/DancerDbContext.cs:31-61 | the empty database meets every constraint |
| DancerData.DancerDb.constructor | src/Services/Dancer/Data/DancerDbContext.cs:6-14 | a new context starts with two empty tables |
| DancerData.FindDancerAt | src/Services/Dancer/Data/DancerDbContext.cs:33 | under the primary key, looking up a stored dancer's id finds that row |
| DancerData.DancersPrefixKept | src/Shared/Utilities/Data/Repository.cs:43 | dancers kept in place are still found after rows are appended |
| DancerData.WithoutDancerEmails | src/Services/Dancer/Data/DancerDbContext.cs:47 | deleting a dancer keeps emails unique |
| DancerData.WithoutDancerForeignKeys | src/Services/Dancer/Data/DancerDbContext.cs:57-60 | the cascade leaves every style entry with a stored dancer |
| DancerData.WithoutDancerValid | src/Services/Dancer/Data/DancerDbContext.cs:57-60 | deleting a dancer keeps the database valid and distinct, and leaves no entry of it |
| DancerRepository.GetByIdWithDetails | src/Services/Dancer/Repositories/DancerRepository.cs:17-22 | the dancer with that id, with exactly its style entries, or nothing when none exists |
| DancerRepository.ProfileFiltersMeanMatch | src/Services/Dancer/Repositories/DancerRepository.cs:32-55 | the search, gender, level and active clauses keep exactly the dancers meeting each supplied criterion |
| DancerRepository.AgeStyleFiltersMeanMatch | src/Services/Dancer/Repositories/DancerRepository.cs:57-73 | the age and style clauses keep exactly the dancers meeting each supplied criterion |
| DancerRepository.DancerFiltersMeanMatch | src/Services/Dancer/Repositories/DancerRepository.cs:32-73 | a dancer passes the chain of clauses exactly when it meets every supplied criterion |
| DancerRepository.DancerChainIsMatching | src/Services/Dancer/Repositories/DancerRepository.cs:29-73 | the chain keeps exactly the matching dancers, in storage order |
| DancerRepository.ByNameMeans | src/Services/Dancer/Repositories/DancerRepository.cs:80-81 | the ordering compares last names, then first names |
| DancerRepository.FilteredDancers | src/Services/Dancer/Repositories/DancerRepository.cs:79-81 | the matching dancers by last then first name, a permutation of the filtered rows |
| DancerRepository.GetFiltered | src/Services/Dancer/Repositories/DancerRepository.cs:27-88 | one page of the matching dancers by name, at most a page size long, with the count before paging |
| DancerRepository.UnfilteredKeepsAll | src/Services/Dancer/Repositories/DancerRepository.cs:27-88 | with no criterion the total counts every stored dancer |
| DancerRepository.AgeFilterNeedsBirthDate | src/Services/Dancer/Repositories/DancerRepository.cs:57-67 | an age criterion drops every dancer without a date of birth |
| DancerRepository.FullNameSearchFinds | src/Services/Dancer/Repositories/DancerRepository.cs:38 | a search for a dancer's full name, in any letter case, finds the dancer |
| DancerRepository.MinimumLevelIsEnumOrder | src/Services/Dancer/Repositories/DancerRepository.cs:47-50 | the minimum level keeps the levels at or above it in enum order |
| DancerRepository.EmailHeld | src/Services/Dancer/Data/DancerDbContext.cs:47 | the unique index clashes exactly when another dancer has exactly that email |
| DancerRepository.EmailExists | src/Services/Dancer/Repositories/DancerRepository.cs:93-106 | false for a blank email; otherwise whether a dancer other than the excluded one has exactly that email |
| DancerRepository.EmailExistsIsIndexForNonBlank | src/Services/Dancer/Repositories/DancerRepository.cs:95-96 | the check and the index agree on every non-blank email, and a blank one is never reported |
| DancerRepository.OwnEmailIsFree | src/Services/Dancer/Repositories/DancerRepository.cs:100-103 | a dancer does not clash with its own stored email |
| DancerRepository.DancerAdded | src/Shared/Utilities/Data/Repository.cs:43 | the dancer and its style entries are appended |
| DancerRepository.DancerAddedEmails | src/Services/Dancer/Data/DancerDbContext.cs:47 | a dancer with an email no one holds keeps emails unique |
| DancerRepository.DancerAddedForeignKeys | src/Services/Dancer/Data/DancerDbContext.cs:57-60 | the new dancer's own entries keep the foreign keys |
| DancerRepository.DancerAddedDistinct | src/Services/Dancer/Controllers/DancerController.cs:100-113 | a new dancer's distinct entries keep every dancer's styles distinct |
| DancerRepository.DancerAddedValid | src/Shared/Utilities/Data/Repository.cs:43 | a dancer with a fresh id, a free email and fresh entries keeps the database valid and is found with exactly those entries |
| DancerRepository.DancerUpdated | src/Shared/Utilities/Data/Repository.cs:50 | the stored dancer with the same id is replaced and the entries are untouched |
| DancerRepository.DancerUpdatedValid | src/Shared/Utilities/Data/Repository.cs:50 | a replacement whose email no other dancer holds keeps the database valid and is found |
| DancerRepository.DancerDeleted | src/Shared/Utilities/Data/Repository.cs:57 | the dancer goes with its style entries |
| DancerRepository.DancerDeletedValid | src/Services/Dancer/Data/DancerDbContext.cs:57-60 | deleting a dancer keeps the database valid and leaves exactly the other dancers' entries |
| DancerRepository.StyleAdded | src/Services/Dancer/Controllers/DancerStyleController.cs:84-85 | the entry is appended and the dancers are untouched |
| DancerRepository.StyleAddedValid | src/Services/Dancer/Controllers/DancerStyleController.cs:84-85 | an entry with a fresh id for a stored dancer keeps the database valid, and distinct when the style is new |
| DancerRepository.StyleUpdated | src/Services/Dancer/Controllers/DancerStyleController.cs:119 | the stored entry with the same id is replaced and the dancers are untouched |
| DancerRepository.StyleUpdatedValid | src/Services/Dancer/Controllers/DancerStyleController.cs:119 | a replacement with the same dancer and style keeps the database valid and distinct |
| DancerRepository.StyleRemoved | src/Services/Dancer/Controllers/DancerStyleController.cs:144-145 | the entry goes and the dancers are untouched |
| DancerRepository.StyleRemovedValid | src/Services/Dancer/Controllers/DancerStyleController.cs:144-145 | removing an entry keeps the database valid and distinct |
| DancerRepository.AddDancer | src/Shared/Utilities/Data/Repository.cs:43 | the database afterwards is `DancerAdded` of the one before |
| DancerRepository.UpdateDancer | src/Shared/Utilities/Data/Repository.cs:50 | the database afterwards is `DancerUpdated` of the one before |
| DancerRepository.DeleteDancer | src/Shared/Utilities/Data/Repository.cs:57 | the database afterwards is `DancerDeleted` of the one before |
| DancerRepository.AddStyle | src/Services/Dancer/Controllers/DancerStyleController.cs:84-85 | the database afterwards is `StyleAdded` of the one before |
| DancerRepository.UpdateStyle | src/Services/Dancer/Controllers/DancerStyleController.cs:119 | the database afterwards is `StyleUpdated` of the one before |
| DancerRepository.RemoveStyle | src/Services/Dancer/Controllers/DancerStyleController.cs:144-145 | the database afterwards is `StyleRemoved` of the one before |
| DancerController.MapStyles | src/Services/Dancer/Controllers/DancerController.cs:240-246 | one style DTO per entry, in order |
| DancerController.DancerDtoShape | src/Services/Dancer/Controllers/DancerController.cs:220-250 | the response joins the names, has an age exactly when a birth date is known, and lists every entry's data in order |
| DancerController.MapDancers | src/Services/Dancer/Controllers/DancerController.cs:34 | one DTO per dancer, each with its own entries |
| DancerController.GetDancers | src/Services/Dancer/Controllers/DancerController.cs:30-45 | the repository's page as DTOs, with the request's paging and the total of all matches |
| DancerController.GetDancersMatches | src/Services/Dancer/Controllers/DancerController.cs:30-45 | every listed dancer is stored, matches the filter, and is shown with its own entries |
| DancerController.GetDancersOrdered | src/Services/Dancer/Controllers/DancerController.cs:30-45 | the list runs by last name, then first name |
| DancerController.GetDancer | src/Services/Dancer/Controllers/DancerController.cs:51-61 | NotFound exactly when the dancer is missing; otherwise the dancer with its entries |
| DancerController.NewStyles | src/Services/Dancer/Controllers/DancerController.cs:100-113 | one entry per listed style, in order, with no check for repeats |
| DancerController.CreateDancerStep | src/Services/Dancer/Controllers/DancerController.cs:67-122 | a taken non-blank email is refused; a blank email the index holds fails in the database; otherwise the dancer and its entries are added |
| DancerController.NewStyleKeysUnique | src/Services/Dancer/Controllers/DancerController.cs:102-104 | fresh generated ids keep the entry keys unique |
| DancerController.CreateDancerStores | src/Services/Dancer/Controllers/DancerController.cs:77-115 | a created dancer is stored, joined now and active, with exactly one entry per listed style carrying its data |
| DancerController.CreateDancerKeepsDistinct | src/Services/Dancer/Controllers/DancerController.cs:100-113 | a body listing each style once keeps every dancer's styles distinct |
| DancerController.CreateDancerAllowsRepeatedStyle | src/Services/Dancer/Controllers/DancerController.cs:100-113 | a body listing a style twice gives the new dancer two entries for it |
| DancerController.CreateIndexViolationOnlyBlank | src/Services/Dancer/Controllers/DancerController.cs:70-75 | the database refuses exactly a blank email some dancer holds; the check refuses exactly a held non-blank one |
| DancerController.ApplyDancerUpdate | src/Services/Dancer/Controllers/DancerController.cs:144-188 | the update keeps the id and joining date and stamps the audit |
| DancerController.UpdateOverwritesOnlySupplied | src/Services/Dancer/Controllers/DancerController.cs:144-185 | a supplied field is taken from the body, an absent one is kept, and nothing can be cleared |
| DancerController.UpdateIdempotent | src/Services/Dancer/Controllers/DancerController.cs:144-188 | an empty update only stamps the audit, and applying an update twice is applying it once |
| DancerController.UpdateDancerStep | src/Services/Dancer/Controllers/DancerController.cs:128-196 | NotFound, then a new email another dancer has, unchanged; otherwise the updated dancer is saved and returned |
| DancerController.UpdateIndexViolationOnlyBlank | src/Services/Dancer/Controllers/DancerController.cs:137-142 | the database refuses an update only for a new blank email another dancer holds |
| DancerController.OwnEmailAccepted | src/Services/Dancer/Controllers/DancerController.cs:137-139 | keeping one's own email, or supplying none, passes the email check |
| DancerController.UpdateDancerValid | src/Services/Dancer/Controllers/DancerController.cs:128-196 | an update keeps the database valid, changes only that dancer, and leaves every entry as it was |
| DancerController.DeleteDancerStep | src/Services/Dancer/Controllers/DancerController.cs:202-215 | NotFound exactly when the dancer is missing; otherwise the dancer is deleted |
| DancerController.DeleteDancerCascades | src/Services/Dancer/Controllers/DancerController.cs:202-215 | a delete removes the dancer and its entries and keeps every other dancer and entry |
| DancerController.CreateDancer | src/Services/Dancer/Controllers/DancerController.cs:67-122 | the method's new state and result are those of `CreateDancerStep` |
| DancerController.UpdateDancer | src/Services/Dancer/Controllers/DancerController.cs:128-196 | the method's new state and result are those of `UpdateDancerStep` |
| DancerController.DeleteDancer | src/Services/Dancer/Controllers/DancerController.cs:202-215 | the method's new state and result are those of `DeleteDancerStep` |
| DancerStyleController.EntryFor | src/Services/Dancer/Controllers/DancerStyleController.cs:106 | the first loaded entry of that style, and nothing exactly when none has it |
| DancerStyleController.EntryForIsStyleEntry | src/Services/Dancer/Controllers/DancerStyleController.cs:67 | looking among the dancer's loaded entries finds the style exactly when the table has an entry of that dancer and style |
| DancerStyleController.GetDancerStyles | src/Services/Dancer/Controllers/DancerStyleController.cs:35-52 | NotFound exactly when the dancer is missing; otherwise one DTO per entry, in order |
| DancerStyleController.NewStyleEntry | src/Services/Dancer/Controllers/DancerStyleController.cs:72-82 | the new entry shows exactly the body, for the dancer in the route |
| DancerStyleController.AddDancerStyleStep | src/Services/Dancer/Controllers/DancerStyleController.cs:58-91 | NotFound exactly when the dancer is missing; BadRequest exactly when the style exists; otherwise the entry is added and the body echoed |
| DancerStyleController.AddDancerStyleValid | src/Services/Dancer/Controllers/DancerStyleController.cs:58-91 | an add keeps the database valid and distinct, and the dancer's list gains exactly the body at its end |
| DancerStyleController.AddedEntryListed | src/Services/Dancer/Controllers/DancerStyleController.cs:84-85 | an appended entry ends the dancer's list |
| DancerStyleController.AddDancerStyleTwiceRefused | src/Services/Dancer/Controllers/DancerStyleController.cs:66-70 | once a style is added, adding it again is refused |
| DancerStyleController.UpdatedEntry | src/Services/Dancer/Controllers/DancerStyleController.cs:113-117 | the entry keeps its id, dancer and style and takes the body's other data |
| DancerStyleController.RouteEntry | src/Services/Dancer/Controllers/DancerStyleController.cs:100-110 | the stored entry of the route's dancer and style, and nothing exactly when either is missing |
| DancerStyleController.UpdateDancerStyleStep | src/Services/Dancer/Controllers/DancerStyleController.cs:97-124 | dancer NotFound, then style NotFound; otherwise the entry is updated and the body echoed |
| DancerStyleController.UpdateDancerStyleValid | src/Services/Dancer/Controllers/DancerStyleController.cs:97-124 | an update keeps the database valid and distinct |
| DancerStyleController.UpdateDancerStyleChangesOneRow | src/Services/Dancer/Controllers/DancerStyleController.cs:106-119 | an update changes only the route's entry, which keeps its id, dancer and style |
| DancerStyleController.RemoveDancerStyleStep | src/Services/Dancer/Controllers/DancerStyleController.cs:130-150 | dancer NotFound, then style NotFound; otherwise the entry is removed |
| DancerStyleController.RemoveDancerStyleValid | src/Services/Dancer/Controllers/DancerStyleController.cs:130-150 | a removal keeps the database valid and drops one row; with distinct styles, the dancer no longer has the style |
| DancerStyleController.AddDancerStyle | src/Services/Dancer/Controllers/DancerStyleController.cs:58-91 | the method's new state and result are those of `AddDancerStyleStep` |
| DancerStyleController.UpdateDancerStyle | src/Services/Dancer/Controllers/DancerStyleController.cs:97-124 | the method's new state and result are those of `UpdateDancerStyleStep` |
| DancerStyleController.RemoveDancerStyle | src/Services/Dancer/Controllers/DancerStyleController.cs:130-150 | the method's new state and result are those of `RemoveDancerStyleStep` |

## Left out

- Price and AmountPaid: they are `numeric(10,2)` columns (`HasPrecision(10, 2)`), so the database rounds them to cents on save. The model stores the exact value, so a later read returns, say, 12.345 where the source returns 12.35; the response of the create or update that wrote it shows the exact value in both. No guard, key or counter reads these values.
- TableNames.StartsWith: is an ordinal prefix test, where `StartsWith("Course_")` and `StartsWith("Dancer_")` compare by the current culture. The two differ only for names holding ignorable characters such as a soft hyphen, which entity names taken from C# identifiers do not contain.
- Unicode in `ToSlug` is not modelled: no normalisation, no Unicode categories, and no case mapping beyond ASCII.
- LowerChar, ToLower: lower only the ASCII and Latin-1 capitals. The searches of `CourseRepository.GetFilteredAsync`, `EnrollmentRepository.GetFilteredAsync` and `DancerRepository.GetFilteredAsync` lower every cased letter, by the culture's rules in C# and by `lower()` in the database. So in the model a Greek, Cyrillic or Latin Extended capital, and the Turkish dotted capital I, are not folded.
- StringExtensions.ToSlug: requires ASCII text. Decomposition (FormD/FormC) has no counterpart here, so non-spacing marks can only be absent.
- StringExtensions.Truncate: requires a non-negative `maxLength` for non-empty text. The source throws on a negative one; exceptions are not modelled.
- StringExtensions.Truncate: counts `value.Length` and cuts `value[..maxLength]` in Unicode characters, where .NET counts UTF-16 code units. So text with characters above U+FFFF (an emoji followed by a letter, with limit 2, say) is kept where the source cuts it, and a cut through a surrogate pair, which leaves half a character in the source, has no counterpart: Dafny's `char` holds no lone surrogate. The `[StringLength]` limits (`Annotations.MaxLength`) do count UTF-16 code units.
- `IsValidEmail`'s `try`/`catch` is not modelled: the pattern is constant and cannot throw.
- BaseDto.PagedResponse.TotalPages: computed exactly, as the ceiling of an integer quotient. The `double` division and the `int` cast are left out; they agree below 2^53 rows.
- CourseModel: `DurationMinutes` truncates the tick difference to whole minutes. `TimeSpan.TotalMinutes` rounding as a `double` is not modelled.
- DancerModel.Dancer.Age: uses exact tick arithmetic for `TotalDays / 365.25`, with no floating point.
- The dancer age filters use `DateTime.AddYears`/`AddDays`, which are calendar arithmetic. They are the parameter `yearsAgo`, so leap-year details are left out.
- These are framework code and are not modelled:
  - the `[EmailAddress]` attribute;
  - model binding;
  - the `ModelState` errors;
  - logging;
  - `CreatedAtAction` routing;
  - the texts of the `ApiResponse` messages. Each result is reduced to its kind and a reason.
- PostgreSQL collation is not modelled: names compare ordinally. Concurrency and transactions are left out as well.
- The generic `Repository<T>` is given only as an interface. `AddAsync`, `UpdateAsync` and `DeleteAsync` are modelled as an insert, an in-place replace and a hard delete with the database's cascades. The `IsDeleted` soft-delete flag is never set by the core, so it is left out.
- `Include` loads related rows as of the current database. Their order is taken to be storage order.
- The `OrderBy` calls run in PostgreSQL as `ORDER BY`. For rows with equal keys the database promises no order, and the order may differ between page queries. The model breaks such ties by storage order, a choice the database does not make.
- The paging offset `(Page - 1) * PageSize` is computed without 32-bit overflow. Pages are at most `int.MaxValue` by validation, but overflow of the product is not modelled.
- CourseController.CreateCourseStep: requires one generated id per inline session. DancerController.CreateDancerStep: requires one generated id per listed style. The source generates these inside the action.
- CourseController.CreateCourseStep: the inline sessions are not checked against the course dates, as in the source. This is stated by `InlineSessionsUnchecked` and is not corrected.
- DancerController.CreateDancerStep: repeated styles in one body create repeated entries, as in the source. This is stated by `CreateDancerAllowsRepeatedStyle`. For this reason distinct styles (`StylesDistinct`) are kept outside `DancerData.Valid`.
- A blank but non-null email that another dancer already holds passes `EmailExistsAsync`. The unique index then refuses the insert or update. This is modelled as `ServerError(UniqueIndexViolation)` with the database unchanged. The framework's `[EmailAddress]` check refuses such an email before the action runs. So this outcome can only be reached when model validation is bypassed.
- The "Enrollment record not found" branch of `RecordAttendance` (AttendanceController.cs:122-126) is unreachable once `IsEnrolledAsync` passed. `EnrolledHasRecord` proves this. The update branch's second null check (lines 147-150) is unreachable as well.
- `DancerDto` has no notes fields, as in the source. `UpdateDancerStyle` echoes the body, whose style may differ from the route's; the stored style is kept.
- `AuthController` and `UserController`, the program start-up files and the app host are not part of this model.

## Findings

| source | as written | input that shows it | evidently intended | confidence | as-written member | corrected member |
|---|---|---|---|---|---|---|
| src/Shared/Utilities/Extensions/StringExtensions.cs:87-88 | the pattern ends in `$`, which in .NET also matches just before a final line feed, so an address followed by "\n" is accepted | "a@b.c\n" | accept only texts that are wholly an address, with no whitespace anywhere | not executed | StringExtensions.TrailingLineFeedAccepted | StringExtensions.IsValidEmailCharacterized |
