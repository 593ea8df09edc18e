# Learning dashboard: course store and view computations

This project models the client-side core of a learning dashboard written in TypeScript and React. The core has two parts.

The first part is the course store, the `useCourses` hook. It keeps a list of courses, and each course owns a list of resources. It offers five immutable list updates: add a course, set a course's progress, delete a course, add a resource and remove a resource.

The second part is the pure logic inside four views:

- The resource manager guards the store calls. It also offers an undo for a deleted resource and shortens long URLs for display.
- The progress tracker computes the rounded average progress, the category histogram and the three completion buckets.
- The study schedule adds sessions and lists the sessions of the selected day.
- The course list looks up a category's badge colour and keeps the pending-deletion state of its confirmation dialog.

Every operation is a pure Dafny function over immutable sequences. The id generator `crypto.randomUUID()` and the clock `Date.now()` are parameters (`freshId`, `now`). Browser storage is also a parameter: `Load` receives what `localStorage.getItem` returned, and `JSON.parse` as a function that yields `None` when it throws.

Files, one module each:

- `types.dfy`: `Option`, `Resource`, `Course`.
- `seqs.dfy`: `filter`, `find`, subsequences.
- `course_store.dfy`: `lib/hooks/use-courses.ts`.
- `resource_manager.dfy`: `components/resource-manager.tsx`.
- `progress_tracker.dfy`: `components/progress-tracker.tsx`.
- `study_schedule.dfy`: `components/study-schedule.tsx`.
- `course_list.dfy`: `components/course-list.tsx`.

The hook does not implement everything other files refer to:

- The hook keeps no deleted courses and has no `undoDeleteCourse` or `updateCourse`. `onUndoDeleteCourse` is declared as a prop of the course list, but no hook function implements it.
- `addResource` appends the new resource at the end. It does not re-sort by `createdAt`.
- `addCourse` copies `createdAt` from its argument. It does not stamp the time itself.
- `updateCourseProgress` stores the progress it is given. It does not clamp or reject values outside [0, 100].

## Model

| member | source | states |
|---|---|---|
| Seqs.Filter | lib/hooks/use-courses.ts:41 | `filter` keeps exactly the elements that pass the predicate, as an order-preserving subsequence. Each passing element occurs as often as in the input, and each failing one not at all. If all pass, the result is the input; if none pass, it is empty. |
| Seqs.FilterLengthIsCount | components/progress-tracker.tsx:44-46 | The length of a filtered list is the number of positions whose element passes the predicate. |
| Seqs.Find | components/resource-manager.tsx:85 | `find` returns nothing exactly when no element matches; otherwise it returns the first matching element. |
| CourseStore.FindCourse | components/resource-manager.tsx:85 | The course lookup by id fails exactly when no course has the id. A found course is the first course in the list with the id. |
| CourseStore.FindResource | components/resource-manager.tsx:88 | The resource lookup by id fails exactly when no resource has the id. A found resource is the first resource in the list with the id. |
| CourseStore.Load | lib/hooks/use-courses.ts:7-19 | The result is the empty list when there is no window or no saved value, when the saved value is the empty string, or when parsing throws. Otherwise it is the parsed list. A non-empty result always came from parsing a non-empty saved string. |
| CourseStore.AddCourse | lib/hooks/use-courses.ts:25-34 | One course is appended at the end and earlier courses are unchanged. The new course has the fresh id, progress 0, no resources and exactly the caller's fields. |
| CourseStore.UpdateCourseProgress | lib/hooks/use-courses.ts:36-38 | Length and order are kept. Only the `progress` of courses with the id changes, and it is set to the new value. Other courses are unchanged, and an unknown id is a no-op. |
| CourseStore.DeleteCourse | lib/hooks/use-courses.ts:40-42 | No course with the id remains. Every other course is kept as often as it occurred, the result is an order-preserving subsequence, and an unknown id is a no-op. |
| CourseStore.AddResource | lib/hooks/use-courses.ts:44-55 | Courses with the id get exactly one resource appended, with the fresh id and the caller's fields. Their other fields and all other courses are unchanged, and an unknown id is a no-op. |
| CourseStore.RemoveResource | lib/hooks/use-courses.ts:57-68 | In courses with the id, no resource with the resource id remains. Every other resource is kept in order, as often as it occurred. Other fields and other courses are unchanged, and an unknown course id is a no-op. |
| CourseStore.AddCourseThenFind | lib/hooks/use-courses.ts:25-34 | Looking up the newly assigned id finds the new course, with progress 0, no resources and the caller's fields. |
| CourseStore.UpdateProgressLastWins | lib/hooks/use-courses.ts:36-38 | Two progress updates of the same course equal the second update alone. |
| CourseStore.UpdateProgressThenFind | lib/hooks/use-courses.ts:36-38 | After an update, looking up the id finds the old course with the new progress. A lookup of any other id is unchanged. |
| CourseStore.AddResourceThenFind | lib/hooks/use-courses.ts:44-55 | After adding, looking up the target course finds its old resources followed by the new one. |
| CourseStore.DeleteCourseCascades | lib/hooks/use-courses.ts:40-42 | With unique ids, deleting a course leaves none of its resources reachable from any remaining course. |
| CourseStore.AddThenRemoveResource | lib/hooks/use-courses.ts:44-68 | Adding a resource and then removing it by the assigned id restores the list exactly, when that id was not already used in the target course. |
| CourseStore.RemoveResourceIdempotent | lib/hooks/use-courses.ts:57-68 | Removing the same resource twice equals removing it once. |
| CourseStore.AddCourseKeepsIdsUnique | lib/hooks/use-courses.ts:25-34 | Adding a course under a new id keeps course and resource ids unique. |
| CourseStore.UpdateProgressKeepsIdsUnique | lib/hooks/use-courses.ts:36-38 | A progress update keeps ids unique. |
| CourseStore.DeleteCourseKeepsIdsUnique | lib/hooks/use-courses.ts:40-42 | Deleting a course keeps ids unique. |
| CourseStore.AddResourceKeepsIdsUnique | lib/hooks/use-courses.ts:44-55 | Adding a resource under an id used by no resource keeps ids unique. |
| CourseStore.RemoveResourceKeepsIdsUnique | lib/hooks/use-courses.ts:57-68 | Removing a resource keeps ids unique. |
| ResourceManager.HandleAddResource | components/resource-manager.tsx:67-76 | With no course selected, nothing changes. Otherwise each course with the selected id gets one resource appended: the form's title, url and type, the stamp `now` and the fresh id. Every other course is unchanged. |
| ResourceManager.HandleAddResourceAppends | components/resource-manager.tsx:67-74 | When the selected course exists, its resources end with the new resource, which carries the form's fields and the stamp. |
| ResourceManager.HandleDeleteClick | components/resource-manager.tsx:78-80 | The click only records the pending (course, resource) pair and leaves the selection as it was. No course list is involved. |
| ResourceManager.CancelDelete | components/resource-manager.tsx:320-327 | Cancel and closing the dialog clear the pending pair and keep the selection. |
| ResourceManager.ConfirmDeleteResource | components/resource-manager.tsx:82-125 | With nothing pending, nothing happens. Otherwise the pending pair is cleared. A resource is removed, and an undo offered, exactly when the pending course and resource both exist. The undo holds the list as it was before the removal and a copy of the removed resource, which is the first resource in the course with the pending id. |
| ResourceManager.ClickThenConfirm | components/resource-manager.tsx:78-125 | Clicking delete and then confirming clears the pending pair. It removes the resource, and offers an undo, exactly when the first course with the id has a resource with the resource id; otherwise the list is unchanged and no undo is offered. |
| ResourceManager.RestoredStamp | components/resource-manager.tsx:112 | The restored `createdAt` is the original stamp, or `now` when the stamp is missing or 0. |
| ResourceManager.RestoredInput | components/resource-manager.tsx:108-113 | The restored resource has the copy's title, url and type and the restored stamp. |
| ResourceManager.Undo | components/resource-manager.tsx:102-117 | Undo acts only when the course is in the list captured at confirm time. Each current course with that id then gets the copy's title, url and type appended, under the fresh id and with the restored stamp. Everything else is unchanged. |
| ResourceManager.UndoAlwaysArmed | components/resource-manager.tsx:85-106 | For any undo that confirm produced, the guard passes whatever the current list is: the closure searches the captured list, which contained the course. |
| ResourceManager.ConfirmThenUndo | components/resource-manager.tsx:82-125 | Confirm followed by undo gives the course its other resources in their old order, then the restored copy at the end under the fresh id, not at its old position. Other courses are unchanged. |
| ResourceManager.DisplayUrl | components/resource-manager.tsx:249 | A URL of at most 30 characters is shown unchanged. A longer URL shows its first 30 characters and then `...`. The shown text equals the URL exactly when the URL is short, or is 33 characters already ending in `...`. |
| ResourceManager.DisplayUrlIdempotent | components/resource-manager.tsx:249 | Shortening a shown URL again changes nothing. |
| ProgressTracker.RoundHalfUp | components/progress-tracker.tsx:26 | `Math.round(total / n)` is the integer nearest to `total / n`, with halves rounded up. |
| ProgressTracker.TotalProgress | components/progress-tracker.tsx:25 | With every progress in [0, 100], the total is between 0 and 100 times the course count. |
| ProgressTracker.TotalProgressReduceOrder | components/progress-tracker.tsx:25 | Summing from the first course to the last, as the reduce does, gives the same total: the total of a list is that of all but its last course plus the last course's progress. |
| ProgressTracker.AverageProgress | components/progress-tracker.tsx:26 | The average of an empty list is 0. Otherwise it is the integer nearest to the total divided by the course count, halves rounded up. |
| ProgressTracker.AverageInRange | components/progress-tracker.tsx:25-26 | With every progress in [0, 100], the average is in [0, 100]. |
| ProgressTracker.TotalProgressConstant | components/progress-tracker.tsx:25 | When all courses have progress `p`, the total is the count times `p`. |
| ProgressTracker.AverageOfEqualProgress | components/progress-tracker.tsx:25-26 | When all courses have progress `p`, the average is `p`. |
| ProgressTracker.Tally | components/progress-tracker.tsx:30-37 | The reducer step pushes a new entry with count 1 for an unseen category. For a seen one it adds one to that entry's count only, keeping all names. In both cases the counts' sum grows by one. |
| ProgressTracker.CategoryData | components/progress-tracker.tsx:29-40 | The category data lists each category that occurs exactly once, and no other name. Each count is the category's number of occurrences, and the counts sum to the course count. Entries are in order of first appearance: every course of a later entry's category comes after some course of each earlier entry's category. |
| ProgressTracker.OccurrencesZero | components/progress-tracker.tsx:29-40 | A category that no course has occurs zero times. |
| ProgressTracker.CompletionData | components/progress-tracker.tsx:43-47 | Each bucket is the number of courses passing its test: progress exactly 100, strictly between 0 and 100, exactly 0. |
| ProgressTracker.CompletionBuckets | components/progress-tracker.tsx:43-47 | The completed (= 100), in-progress (0 < p < 100) and not-started (= 0) buckets never count a course twice. They count every course when all progress is in [0, 100], and a course outside that range is in none. |
| ProgressTracker.Statistics | components/progress-tracker.tsx:15-77 | An empty list gives no statistics. Otherwise the total is the course count, and the "Completed" card equals the completed bucket. The average is the rounded mean of the progress values, and each bucket is the number of courses passing its progress test. The category data is the histogram in first-appearance order. With in-range progress, the average is in [0, 100] and the buckets sum to the count. |
| StudySchedule.AddSession | components/study-schedule.tsx:61-75 | With no selected date, nothing happens. Otherwise one session is appended and earlier sessions are kept. It has the fresh id, the chosen course, the selected date and the duration, and missing notes become `""`. |
| StudySchedule.SessionsOn | components/study-schedule.tsx:77-79 | The day's sessions are exactly the sessions on the selected calendar day, as an order-preserving subsequence, each as often as it occurs. With no selected date the list is empty. |
| StudySchedule.SessionsOnIgnoresTime | components/study-schedule.tsx:77-79 | Two selections on the same day, at any times, list the same sessions. |
| StudySchedule.AddSessionThenList | components/study-schedule.tsx:61-79 | A session added on the selected date appears at the end of that day's list, after the sessions listed before. |
| StudySchedule.AddSessionKeepsIdsUnique | components/study-schedule.tsx:64-72 | Adding a session under a new id keeps session ids unique. |
| StudySchedule.SessionTitle | components/study-schedule.tsx:190-194 | A session's title is missing exactly when no course has its course id. Otherwise it is the title of the first course with that id. |
| StudySchedule.ListSessions | components/study-schedule.tsx:187-196 | Each session of the day gets one row, in order, with its duration, its notes and the title of the first course with its course id. Sessions of unknown courses are kept, with no title. |
| CourseList.LowerChar | components/course-list.tsx:211 | Lowering never yields an ASCII capital or the Kelvin sign. A small-letter result comes from itself, from its capital, or from the Kelvin sign (for `k`). Every other character is kept. |
| CourseList.ToLower | components/course-list.tsx:211 | Lowering a string keeps its length and lowers each character. |
| CourseList.ToLowerIdempotent | components/course-list.tsx:211 | Lowering twice equals lowering once. |
| CourseList.SameIgnoringCaseLowers | components/course-list.tsx:211 | Two strings lower to the same string exactly when they differ only in letter case. |
| CourseList.CategoryVariant | components/course-list.tsx:210-225 | The badge is secondary, outline, destructive or success exactly when the lowered category is "design", "business", "marketing" or "data science". It is the default badge for every other category, "programming" included. |
| CourseList.CategoryVariantIgnoresCase | components/course-list.tsx:211 | Any two casings of a category get the same badge. |
| CourseList.CategoryVariantByName | components/course-list.tsx:212-221 | A category gets each coloured badge exactly when it is some casing of the matching name. |
| CourseList.CategoryVariantTable | components/course-list.tsx:212-223 | Programming gives default, Design secondary, Business outline, Marketing destructive, Data Science success, and Other default. |
| CourseList.Step | components/course-list.tsx:45-58 | A click only records the pending id. Cancel clears it without deleting. Confirm deletes exactly when the pending id is present and non-empty, and then it deletes that id once and clears it. Otherwise confirm changes nothing. |
| CourseList.RunDeletesOnlyClicked | components/course-list.tsx:42-58 | Over any sequence of events, the deleted ids were clicked or were pending at the start, and there are no more deletions than confirms. |
| CourseList.ConfirmTwice | components/course-list.tsx:49-54 | A second confirm in a row deletes nothing and changes nothing. |
| CourseList.ClickThenDecide | components/course-list.tsx:45-58 | Click then confirm deletes exactly the clicked course once and leaves nothing pending. Click then cancel deletes nothing. |
| CourseList.ApplyDeletesRemoves | components/course-list.tsx:51 | After the confirmed deletions reach the store, no course with any deleted id remains, every course with another id is still there, and the remaining courses keep their order. |

## Left out

- Writing the list to `localStorage` on every change (`use-courses.ts:21-23`) is browser I/O and is not modelled.
- `JSON.parse` is the abstract parameter `parse`.
- CourseStore.Load: assumes a parsed value is a course list. `JSON.parse` can return any JSON value, and the hook does not check which.
- `crypto.randomUUID()` and `Date.now()` are the parameters `freshId` and `now`. Their uniqueness appears only as preconditions of the lemmas that need it.
- The zod form schemas and resolvers are library code. Forms enter the model already validated.
- `Number.parseInt` of the session duration is left out: the duration is an integer input.
- Dates are a calendar-day key plus a time of day. date-fns `format(…, "yyyy-MM-dd")` equality is modelled as equality of the day key, and time zones are not modelled.
- The calendar month grid is drawn by a widget library, not by this code.
- Rendering, toasts, dialogs, media queries and the chart's percentage labels (floating point) are left out. The "Resource restored" toast is left out too.
- The resource manager's course-selection form is left out.
- Course editing (`edit-course-form.tsx`) is left out. It calls an `updateCourse` that the hook does not provide.
- Course undo-delete and ordering by `createdAt` are left out, because the hook does not implement them.
- The optional `createdAt` of study sessions is never set by `handleAddSession`, so it is not a field.
- CourseList.LowerChar: covers only ASCII capitals and the Kelvin sign, not all of `toLowerCase`. The Kelvin sign is the only other character whose lower case is an ASCII letter. So for the lookup's five ASCII keys the badge is exact, but other characters are kept as they are.
- ResourceManager.DisplayUrl: counts Unicode scalar values. JavaScript's `length` and `substring` count UTF-16 code units, so URLs with characters outside the Basic Multilingual Plane are cut at a different place.
- ProgressTracker.RoundHalfUp: uses exact integer division. The source divides in floating point, which can round differently only for totals of 2^52 or more (for example a total of 6755399441055745 over 3 courses).
- `progress`, `createdAt` and session `duration` are JavaScript numbers, modelled as `int`. Every value the code produces is an integer: the progress slider moves in steps of 5 (`components/course-list.tsx:130`), stamps come from `Date.now()`, and durations from `Number.parseInt`. Progress is not clamped, so the progress lemmas carry [0, 100] as a precondition where they need it.
