# HabitTracker core, modelled in Dafny

HabitTracker is a habit tracker. Users keep habits with a schedule and record daily entries. Users can also:
- earn badges;
- form groups with shared habits;
- log free-text custom activities on a calendar.

It is a Next.js application on a Prisma store. The repository also holds two standalone scripts:
- `cleanup-duplicates.js`, which removes duplicate shared-habit entries;
- `download_steam_images.py`, which collects and downloads images from a Steam page.

This project models the logic of these parts and proves what it promises:
- **API routes.** Habits, habit entries, badges, groups and joining, custom activities, contact, profile, password change, avatars and account deletion. Each route is a method over the store (`Store.Db`). The store holds one sequence field per table, and each route method changes only the tables it names in `modifies`. The method gives back a `Response` (`Ok(status, value)` or `Fail(status, error)`). Its postcondition states:
  - the order in which errors take precedence;
  - the new contents of every table it touches;
  - that the store's uniqueness invariant (`Db.Valid`) is kept.
- **Session glue.** The `withAuth` gate and its mapping of errors to statuses (`ApiAuth`). The credentials check and the `jwt`/`session` callbacks of next-auth (`AuthOptions`). `cn` and the date helpers of `src/lib/utils.ts` (`Utils`).
- **Client logic.** The spreadsheet's cell cycle and date columns. The calendar's ranges, stats and custom-activity list updates. The dashboard's counts, success rate and streaks. The habits page's 30-day streak loop and 7-day strip. The badges page's tier ladder and rarity ordering. The habit form's validation, day toggling and target input.
- **Scripts.** The duplicate cleanup (one survivor per key, the newest one). The scraper's URL normalisation and keep rules, the file names it derives, the URLs whose `urlparse` raises and so stop the downloads, and its download counter.

Conventions:
- **Dates.** A calendar day is an integer day number, with day 0 = 1970-01-01, in UTC (`Dates`). A stored `DateTime` of a day is that day's midnight. Its JSON text is `yyyy-MM-ddT00:00:00.000Z`. The client's string operations (`substring(0, 10)`, `split('T')[0]`) are applied to that text. Weeks start on Sunday.
- **Sessions.**
  - Routes behind `withAuth` answer 401 "Authentication required".
  - Routes that read the session themselves answer 401 "Unauthorized".
  - In both cases the session is an `Option<SessionUser>` parameter.
- **Absent fields.** A missing JSON text field is the empty string, since both are falsy. Where the source distinguishes a non-string value, the model does too.
- **Sorting.** `Array.prototype.sort` and Prisma's `orderBy` are a stable insertion sort on an integer key (`Sorting`). Ties keep table order.
- **Foreign calls as parameters.** bcrypt's `hash` and `compare`, `Date.now()`, `Math.random`, the invite-code generator, id generation and Python's salted `hash` are all parameters.

One behaviour of the account deletion is modelled as written. The route deletes the user's group memberships first. Only then does it look for groups that have the user as a member. That lookup can find nothing, so the group-deletion loop deletes nothing (`DeleteAccount.NoGroupsLeftToDelete`). The route itself deletes no group the user owns (`DeleteAccount.OwnedGroupsOutliveOwner`); what the database then does with such groups depends on its foreign keys, which are not part of this model (see "## Left out").

## Model

| member | source | states |
|---|---|---|
| Scraper.NormalizeImg | download_steam_images.py:71-74 | a src starting with `//` gets `https:` in front, one starting with a single `/` gets the steamcommunity host, any other is unchanged; the original always ends the result |
| Scraper.NormalizeAnchor | download_steam_images.py:85-86 | an href is rewritten only when it starts with `//`, to `https:` + href |
| Scraper.CollectImageUrls | download_steam_images.py:65-101 | the three collection loops add to one set, which ends as exactly the union of the kept img, anchor and style URLs |
| Scraper.CollectImgs | download_steam_images.py:68-79 | the img loop adds the normalised src of every kept img, and nothing else |
| Scraper.CollectAnchors | download_steam_images.py:82-87 | the anchor loop adds every href naming steamusercontent.com, protocol-relative ones made https |
| Scraper.CollectStyled | download_steam_images.py:90-101 | the style loop searches only styles mentioning a background image or `url(`, adding their kept payloads |
| Scraper.CollectPayloads | download_steam_images.py:95-101 | the inner loop adds each payload naming a Steam domain, in normalised form |
| Scraper.ImgUrlsBound | download_steam_images.py:65-79 | the img loop yields no more URLs than there are img elements |
| Scraper.AnchorUrlsBound | download_steam_images.py:82-87 | the anchor loop yields no more URLs than there are anchors |
| Scraper.ProtocolRelativeToHttps | download_steam_images.py:71-72 | a `//` URL becomes `https:` + URL under both the img/style rule and the anchor rule |
| Scraper.AnchorsNeverHostPrefixed | download_steam_images.py:73-74 | a kept root-relative href is collected as it is, while the same text as an img or style source would get the steamcommunity host |
| Scraper.ExtensionNotOnlySuffix | download_steam_images.py:77-78 | an image extension followed by a query string still counts, since the test is a substring test |
| Scraper.StylePayloadTestedRaw | download_steam_images.py:96-100 | a root-relative style payload naming a Steam domain is kept, tested before normalisation, and collected with the host in front |
| Scraper.FirstSteamId | download_steam_images.py:38-40 | the first id-like path segment, at or after a position: it is id-like and none before it is; none means no segment from there is |
| Scraper.SteamName | download_steam_images.py:35-40 | the Steam-rule name, when there is one, has no '/' and has a '.' |
| Scraper.FallbackName | download_steam_images.py:43-45 | the fallback name, either the basename or `image_<n>.jpg`, has no '/' and has a '.' |
| Scraper.FileNameFor | download_steam_images.py:35-47 | the file name chosen from the Steam test, the path and the hash has no '/' and has a '.' |
| Scraper.ExtractFilename | download_steam_images.py:30-47 | `extract_filename_from_url` gives no name exactly when its `urlparse` raises; any name it gives is plain: no '/', at least one '.' |
| Scraper.FilenameFromSteamId | download_steam_images.py:35-40 | for a steamusercontent.com URL, the first id-like path segment p gives `steam_image_<p>.jpg` |
| Scraper.FilenameFromBasename | download_steam_images.py:43-44 | without an id-like segment (or off that domain), a basename holding a '.' is the name |
| Scraper.FilenameFromHash | download_steam_images.py:44-45 | failing both, the name is `image_<n>.jpg` for some n in 0..9999 |
| Scraper.HttpsUrlPath | download_steam_images.py:32 | `urlparse` of `https://<host><path>`, for a host with balanced brackets and no tab, CR or LF, gives that path less its last segment's `;params` |
| Scraper.UnbalancedHostRaises | download_steam_images.py:30-123 | a host with a '[' but no ']', or the reverse, makes `urlparse` raise, so the URL gets no file name, whatever its path |
| Scraper.UrlPath | download_steam_images.py:32 | the path `urlparse` gives never holds a '?' or a '#' |
| Scraper.ParseCleaned | download_steam_images.py:32 | after cleaning, the parse raises exactly when the text after the scheme opens a `//` host with unbalanced brackets |
| Scraper.HierPath | download_steam_images.py:32 | the hierarchical part is rejected exactly when it opens with `//` and its host, up to the first '/', '?' or '#', has unbalanced brackets |
| Scraper.DropParams | download_steam_images.py:32 | the `;params` cut keeps a prefix of the path; it cuts nothing from a path without ';', and a cut falls on a ';' with no '/' after it |
| Scraper.LeadingC0Ignored | download_steam_images.py:32 | a control character or space in front of the URL does not change its path |
| Scraper.UnsafeCharIgnored | download_steam_images.py:32 | a tab, CR or LF anywhere in the URL does not change its path |
| Scraper.HostOnlyHashName | download_steam_images.py:32-45 | ` //<host>` has an empty path once the space is stripped, so it gets the name `image_<n>.jpg` with n = hash mod 10000 |
| Scraper.SharedBasename | download_steam_images.py:43-47 | URLs that `urlparse` accepts and that differ only in host or one-character directory, with the same last segment `a.png`, all get the name `a.png`, so a later download overwrites an earlier one |
| Scraper.NoUserContent | download_steam_images.py:35 | a URL without the letter 'u' fails the steamusercontent.com test |
| Scraper.DownloadImage | download_steam_images.py:14-28 | `download_image` returns True exactly when the request got a reply, the status is not an HTTP error, and the file was written |
| Scraper.DownloadAll | download_steam_images.py:109-118 | the download loop stops with no count exactly when some URL has no file name; otherwise it tries every URL once, and `downloaded` is the number of successful downloads, never more than the number of URLs |
| Scraper.Summary | download_steam_images.py:120 | the summary `downloaded/total` splits at its one '/' back into the two numbers |
| Scraper.ScrapeSteamImages | download_steam_images.py:49-123 | no summary when the page cannot be fetched, and none exactly when a kept URL cannot be named; otherwise the totals are the number of distinct kept URLs and the number downloaded, the second no larger |
| Utils.TwoDigits | src/lib/utils.ts:4 | a month or day number is written as exactly two digits (`MM`, `dd`) |
| Utils.YearTextDigits | src/lib/utils.ts:4 | the `yyyy` field is all digits, at least four of them, and exactly four for years 1..9999 |
| Utils.FormatDateShape | src/lib/utils.ts:3-5 | for years 1..9999 `formatDate` gives ten characters of the pattern yyyy-MM-dd: digits with '-' at positions 4 and 7 |
| Utils.YearTextValue | src/lib/utils.ts:4 | for years 1..9999 the `yyyy` field is four digits that spell the year |
| Utils.TwoDigitsValue | src/lib/utils.ts:4 | the `MM` and `dd` fields are digits that spell the month and the day |
| Utils.DateTextOrder | src/lib/utils.ts:4 | yyyy-MM-dd texts with equally wide fields compare by year text, then month text, then day text |
| Utils.CivilTextOrder | src/lib/utils.ts:3-5 | for years 1..9999 one formatted calendar date is less than another as a string exactly when it is earlier in the calendar |
| Utils.FormatDateOrder | src/lib/utils.ts:3-5 | for years 1..9999 one `formatDate` text is less than another as a string exactly when its day is earlier |
| Utils.FormatDateHasNoT | src/lib/utils.ts:3-5 | a formatted date never contains 'T', so splitting an ISO string at 'T' cannot cut into it |
| Utils.IsoDatePart | src/lib/utils.ts:3-5 | the text of a stored date before its first 'T' is its yyyy-MM-dd form |
| Utils.IsoFirstTen | src/lib/utils.ts:3-5 | the first ten characters of a stored date are its yyyy-MM-dd form, for four-digit years |
| Utils.GetDateRange | src/lib/utils.ts:7-18 | the range always holds the day; weekly is the Sunday-to-Saturday week, monthly the calendar month, daily and any other frequency the day itself |
| Utils.MapDays | src/components/habit-spreadsheet.tsx:39-47 | a per-day list built over `count` consecutive days, as the date columns and the dashboard strip are, has `count` items |
| Utils.MapDaysAt | src/components/habit-spreadsheet.tsx:39-47 | item i of such a list is the value of day start + i |
| Utils.CnEmpty | src/lib/utils.ts:24-26 | `cn` gives "" exactly when no argument is defined and nonempty; in particular `cn()` is "" |
| Utils.CnSingle | src/lib/utils.ts:24-26 | `cn(s)` is s for nonempty s, `cn()` is "", and undefined or empty arguments are dropped |
| Utils.CnConcat | src/lib/utils.ts:24-26 | `cn(a..., b...)` is `cn(a...)` and `cn(b...)` joined by one space, or whichever is nonempty |
| ApiAuth.AuthRequired | src/lib/withAuth.ts:46-51 | the response to a request without a session user is a 401 failure |
| ApiAuth.ErrorResponse | src/lib/withAuth.ts:71-98 | a thrown error maps to 409 exactly when it is an `Error` whose message names a unique constraint, to 400 exactly when it names a foreign-key constraint and no unique one, and otherwise to 500 |
| ApiAuth.WithAuth | src/lib/withAuth.ts:37-99 | no session user gives 401 without calling the handler; a handler's response is returned unchanged; a throw gives the mapped error of `ErrorResponse`, so a unique-constraint message gives 409 |
| ApiAuth.WithAuthAndParams | src/lib/withAuth.ts:110-120 | behaves as `withAuth`, with the handler receiving the route parameters; a throw gives the same mapped error |
| Spreadsheet.CycleValue | src/components/habit-spreadsheet.tsx:63-79 | the next value always lies in 0..3; 0, 1, 2, 3 go to 3, 0, 1, 2 (one step back around the cycle), and any other value goes to 3 |
| Spreadsheet.FourClicksRestore | src/components/habit-spreadsheet.tsx:63-79 | four clicks bring a cell in 0..3 back to its starting value |
| Spreadsheet.StrayValueJoinsCycle | src/components/habit-spreadsheet.tsx:77-79 | a value outside 0..3 goes to 3 and then on to 2 |
| Spreadsheet.EntryValue | src/components/habit-spreadsheet.tsx:49-61 | an unknown habit reads as 0 |
| Spreadsheet.EntryValueOnDay | src/components/habit-spreadsheet.tsx:49-61 | for four-digit years, the cell of a day shows the value of the habit's first entry on that day, or 0 when there is none |
| Spreadsheet.CellColor | src/components/habit-spreadsheet.tsx:173-185 | 1, 2, 3 are light red, yellow and green; 0 and every other value are white |
| Spreadsheet.CellTextColor | src/components/habit-spreadsheet.tsx:187-199 | 1, 2, 3 are red, dark yellow and dark green; 0 and every other value are gray |
| Spreadsheet.ColorsTellStatesApart | src/components/habit-spreadsheet.tsx:173-199 | two different states in 0..3 never share a background or a text colour |
| Spreadsheet.DayTextsBetween | src/components/habit-spreadsheet.tsx:39-47 | the `dates` loop yields the yyyy-MM-dd text of each day from start to end inclusive, in order |
| Spreadsheet.Grid.constructor | src/components/habit-spreadsheet.tsx:17-18 | the grid opens on today in 7-day mode |
| Spreadsheet.Grid.Range | src/components/habit-spreadsheet.tsx:21-34 | the range holds the current day; in 7-day mode it is the Sunday-to-Saturday week, otherwise the 30 days ending on the current day |
| Spreadsheet.Grid.Dates | src/components/habit-spreadsheet.tsx:37-47 | the column dates are exactly 7 or 30 consecutive days of the range, formatted, from its start |
| Spreadsheet.Grid.SetDateRange | src/components/habit-spreadsheet.tsx:18 | the 7/30 buttons set the column count |
| Spreadsheet.Grid.NavigatePrevious | src/components/habit-spreadsheet.tsx:102-110 | moves back one week in 7-day mode and exactly 30 days otherwise; the mode stays 7 or 30 |
| Spreadsheet.Grid.NavigateNext | src/components/habit-spreadsheet.tsx:112-120 | moves forward one week in 7-day mode and exactly 30 days otherwise; the mode stays 7 or 30 |
| Spreadsheet.Grid.HandleCellClick | src/components/habit-spreadsheet.tsx:63-82 | a click makes one update call, for the same habit and date, carrying the next cycle value of the cell |
| Spreadsheet.NavigateRoundTrip | src/components/habit-spreadsheet.tsx:102-120 | previous then next restores the current day and the mode |
| ClientData.FindHabit | src/components/habit-spreadsheet.tsx:50 | `habits.find` gives the first habit with the id, or none when no habit has it |
| ClientData.EntryOnDate | src/components/habit-calendar.tsx:233-236 | the first entry whose date text, cut at 'T', equals the given date; none when no entry is on that date |
| ClientData.ValueOn | src/components/habit-calendar.tsx:230-238 | the value read for a day is positive exactly when that day's first entry has a positive value |
| Calendar.CalendarRange | src/components/habit-calendar.tsx:50-62 | the range holds the current day, runs Sunday to Saturday and covers whole weeks; week view is the week of the day; month view starts in the week of the 1st and ends in the week of the month's last day |
| Calendar.MonthEndOfMonthStart | src/components/habit-calendar.tsx:56-57 | the end of the month of the month's first day is the end of the month of the current day |
| Calendar.FirstOfMonth | src/components/habit-calendar.tsx:56 | the first of the month has the current day's year and month and is day 1 |
| Calendar.DayValue | src/components/habit-calendar.tsx:230-238 | an unknown habit reads as 0 |
| Calendar.DayValueIsValueOn | src/components/habit-calendar.tsx:230-238 | the calendar's formatted-date match reads the same value as the other pages' date-part match: the first entry on the day, or 0 |
| Calendar.CountDays | src/components/habit-calendar.tsx:250-259 | the number of days in a run that pass a test is at most the run's length |
| Calendar.CountDaysMono | src/components/habit-calendar.tsx:252-255 | a test implied by another counts at least as many days |
| Calendar.CountDaysAll | src/components/habit-calendar.tsx:252 | a test every day passes counts every day of the run |
| Calendar.StatsLoop | src/components/habit-calendar.tsx:246-261 | the stats loop counts, over the days from start to end, the counted days in `total` and the completed ones in `completed` |
| Calendar.DoneIsCounted | src/components/habit-calendar.tsx:252-255 | a completed day is always a counted day |
| Calendar.ReplaceById | src/components/habit-calendar.tsx:133-137 | every item with the id becomes the returned record, every other item is kept, in place and in order |
| Calendar.RemoveById | src/components/habit-calendar.tsx:157 | exactly the items without the id survive, and no item carrying it does |
| Calendar.RemoveByIdCount | src/components/habit-calendar.tsx:157 | the items removed are exactly as many as carry the id |
| Calendar.RemoveCreated | src/components/habit-calendar.tsx:108-157 | deleting a just-created activity with a fresh id gives back the list as it was before |
| Calendar.HabitCalendar.constructor | src/components/habit-calendar.tsx:26-31 | the calendar opens on today in week view with nothing selected, loaded or edited |
| Calendar.HabitCalendar.HabitStats | src/components/habit-calendar.tsx:242-262 | an unknown habit gives 0/0; otherwise `total` counts the days of the displayed range that count (all in week view, the current month's in month view) and `completed` those not after today with a positive value; completed ≤ total, and total is 7 in week view |
| Calendar.HabitCalendar.AddActivity | src/components/habit-calendar.tsx:106-108 | the created record is appended at the end and earlier items stay as they are |
| Calendar.HabitCalendar.UpdateActivityInList | src/components/habit-calendar.tsx:131-137 | the list becomes the id-wise replacement of the old one |
| Calendar.HabitCalendar.DeleteActivityFromList | src/components/habit-calendar.tsx:156-157 | the list becomes the old one without the items carrying the id |
| Calendar.HabitCalendar.HandleActivitySubmit | src/components/habit-calendar.tsx:208-221 | with blank text or nothing being edited nothing is sent and nothing changes; otherwise the trimmed text goes out as an update of the edited activity or a new one on the edited date, and the editor is cleared |
| Calendar.SubmittedTextIsTrimmed | src/components/habit-calendar.tsx:209-216 | the text sent is nonempty, trimming it again changes nothing, and it neither starts nor ends with white space |
| Calendar.VisibleHabits | src/components/habit-calendar.tsx:374 | with a habit selected, exactly the habits with that id; otherwise the first 8 habits in week view or 3 in month view, in order |
| Dashboard.SuccessRate | src/app/dashboard/page.tsx:97 | 0 without entries; otherwise the exact percentage rounded to the nearest integer, halves up, so it lies in 0..100 (the source rounds a floating-point product; see "## Left out") |
| Dashboard.RoundedQuotient | src/app/dashboard/page.tsx:97 | the integer quotient used for rounding is at most 100 and within half a unit of the exact percentage |
| Dashboard.Flags | src/app/dashboard/page.tsx:139-148 | one flag per entry, in order, telling whether its value is positive |
| Dashboard.CountTrueFlags | src/app/dashboard/page.tsx:94 | the successful flags are as many as the entries the `filter` keeps |
| Dashboard.BestStreakBounded | src/app/dashboard/page.tsx:94-148 | best streak ≤ successful days ≤ tracked days |
| Dashboard.StreakBackCovers | src/app/dashboard/page.tsx:125-136 | every day the current streak covers has a successful entry and is not before the earliest entry |
| Dashboard.StreakBackStops | src/app/dashboard/page.tsx:125-136 | the current streak stops at a day without a successful entry or before the earliest entry's day |
| Dashboard.CompletedOnDay | src/app/dashboard/page.tsx:126-129 | one step of the streak loop tells whether the day has a successful entry |
| Dashboard.CurrentStreak | src/app/dashboard/page.tsx:122-136 | the while loop counts the consecutive successful days back from today, stopping at a miss or before the lower bound |
| Dashboard.StreakStep | src/app/dashboard/page.tsx:139-148 | one `forEach` turn keeps `tempStreak` as the run of successes ending the entries seen and `bestStreak` as the longest such run |
| Dashboard.BestStreak | src/app/dashboard/page.tsx:139-148 | `bestStreak` is the longest run of consecutive successful entries, in entry order (not calendar days) |
| Dashboard.CellOn | src/app/dashboard/page.tsx:104-110 | the square of a day carries its value (or 0) and whether that is positive |
| Dashboard.PushCell | src/app/dashboard/page.tsx:106-110 | one turn of the 30-day loop pushes the square of the next day |
| Dashboard.Last30Days | src/app/dashboard/page.tsx:99-111 | the strip has exactly 30 squares, oldest first, ending today |
| Dashboard.CellMeaning | src/app/dashboard/page.tsx:106-110 | a square is completed exactly when its value is positive, which is exactly when the day has a successful entry |
| Dashboard.GetDetailedHabitStats | src/app/dashboard/page.tsx:92-157 | the habit's entries are sorted in place by date; successes, tracked days, missed days (their difference), the rate, both streaks and the 30-day strip are the quantities above over the sorted entries |
| Runs.Trailing | src/app/dashboard/page.tsx:139-148 | the run ending the flags is all successes and is preceded by a miss or by nothing |
| Runs.Longest | src/app/dashboard/page.tsx:139-148 | the longest run is no longer than the flags |
| Runs.CountTrue | src/app/dashboard/page.tsx:94 | the successes are no more than the flags |
| Runs.TrailingSnoc | src/app/dashboard/page.tsx:140-147 | the trailing run grows by one on a success and drops to 0 on a miss |
| Runs.LongestSnoc | src/app/dashboard/page.tsx:142-144 | the longest run after one more day is the old one or the new trailing run, whichever is larger |
| Runs.TrailingIsMaximal | src/app/dashboard/page.tsx:139-148 | no run of successes reaching the end is longer than the trailing run |
| Runs.LongestIsMaximal | src/app/dashboard/page.tsx:139-148 | no run of consecutive successes is longer than `bestStreak` |
| Runs.LongestIsAttained | src/app/dashboard/page.tsx:139-148 | some run of consecutive successes is exactly `bestStreak` long |
| Runs.LongestAtMostCount | src/app/dashboard/page.tsx:94-148 | the longest run has no more successes than there are in total |
| HabitsPage.Window | src/app/habits/page.tsx:131-148 | the loop looks at exactly 30 days, today first, each one day before the last |
| HabitsPage.ScanDay | src/app/habits/page.tsx:132-148 | one iteration keeps `tempStreak` as the run that ends the days seen, `bestStreak` with it as the longest run, and `currentStreak` as the completed days seen when today was completed, else 0 |
| HabitsPage.StreakScan | src/app/habits/page.tsx:123-153 | after the 30 iterations and the final comparison, `currentStreak` is every completed day of the window when today is completed (0 otherwise) and `bestStreak` is the longest run of consecutive completed days in the window |
| HabitsPage.StreakBounds | src/app/habits/page.tsx:131-155 | both streaks lie in 0..30, the current one is 0 when today is missed, and the best one is the length of an actual run of completed days |
| HabitsPage.CurrentStreakCountsAcrossGaps | src/app/habits/page.tsx:135-138 | the current streak keeps counting after a gap: today, a miss, then a completed day gives 2 while the longest run is 1 |
| HabitsPage.GetStreakInfo | src/app/habits/page.tsx:121-156 | the entries are sorted in place newest first; the two streaks are those of the window over the sorted entries, and `totalEntries` is the number of entries |
| HabitsPage.Last7 | src/app/habits/page.tsx:456-477 | the strip has exactly 7 squares |
| HabitsPage.Last7IsWindowReversed | src/app/habits/page.tsx:456-477 | square i stands for today − (6 − i), the streak window read backwards, so the last square is today |
| BadgesPage.ThresholdsIncrease | src/app/badges/page.tsx:50-56 | the 15 thresholds start at 0, increase strictly and end at 10400 |
| BadgesPage.LastReached | src/app/badges/page.tsx:61-67 | the largest index below n whose threshold the points reach, or −1 when none is reached |
| BadgesPage.PointsToNext | src/app/badges/page.tsx:68 | never negative; 0 exactly when the points reach the next threshold; otherwise the points still missing |
| BadgesPage.ComputeRank | src/app/badges/page.tsx:57-68 | the loop leaves the tier and numeral of the last threshold reached (i div 3, i mod 3) and its next threshold (the same one at the top); with none reached BRONZE III and 10400 stay; `pointsToNext` is as above |
| BadgesPage.RankIsLargestReached | src/app/badges/page.tsx:50-67 | for non-negative points the rank is the largest step reached, its tier in 0..4 and its numeral in 0..2, and the points are below the next step |
| BadgesPage.MaxTierIffTopReached | src/app/badges/page.tsx:68 | the points to the next tier are 0, the condition under which the page shows "Max Tier!", exactly when the points reach 10400 |
| BadgesPage.EightHundredFiftyPoints | src/app/badges/page.tsx:34-72 | the page's fixed 850 points give SILVER III, a next threshold of 900 and 50 points to go |
| BadgesPage.RarityWeight | src/app/badges/page.tsx:413-422 | common..legendary weigh 1..5 in that order and every other rarity weighs 0 |
| BadgesPage.FilteredBadges | src/app/badges/page.tsx:424-428 | the list is the rarity-sorted selection; for 'all' the badge array itself is sorted in place, otherwise it is left as it was |
| BadgesPage.FilteredIsOrderedSelection | src/app/badges/page.tsx:424-428 | the list runs from the lowest weight to the highest (the opposite of its comment), holds each badge of the chosen category (every badge for 'all') as often as before, and nothing else |
| BadgesPage.TotalPointsCons | src/app/badges/page.tsx:446-447 | a badge adds its points to the total exactly when it is earned |
| BadgesPage.TotalPointsIsEarnedSum | src/app/badges/page.tsx:446-447 | the points of the earned badges add up to the sum over all badges of each one's earned points |
| BadgesPage.TotalsSurviveSort | src/app/badges/page.tsx:425-447 | sorting the badges in place changes neither the earned points nor the number earned |
| BadgesPage.EarnedAndToEarn | src/app/badges/page.tsx:446-447 | the earned count and the to-earn count split the badges: earned + to-earn = all |
| HabitForm.SubmitAcceptedIff | src/components/unified-habit-form.tsx:85-109 | a submission goes through exactly when the end date, when set, comes after the start date as text, a weekly schedule has a day, a monthly-by-date one a day in 1..31 and a custom one an interval of at least 1 |
| HabitForm.SubmitErrorUnrolled | src/components/unified-habit-form.tsx:89-106 | the alert is that of the first failing check, in the order end date, weekly, monthly, custom |
| HabitForm.EndDateCheckComesFirst | src/components/unified-habit-form.tsx:89-92 | a bad end date is reported whatever the schedule |
| HabitForm.EndDateCheckIsDayOrder | src/components/unified-habit-form.tsx:89-92 | with both dates written by `formatDate` (years 1..9999), the end-date alert shows exactly when the end day is not after the start day |
| HabitForm.ToggleDay | src/components/unified-habit-form.tsx:111-118 | the toggled day is selected afterwards exactly when it was not before, and every other day keeps its state |
| HabitForm.ToggleTwice | src/components/unified-habit-form.tsx:111-118 | toggling twice gives back a list that lacked the day; on a selected day it removes every copy and puts one at the end, so a list without repeats keeps its contents |
| HabitForm.FilterRemovesOnce | src/components/unified-habit-form.tsx:115 | on a list without repeats the `filter` takes out exactly the one copy of the day |
| HabitForm.DayAbbreviation | src/components/unified-habit-form.tsx:120-131 | a lower-case day name becomes its first three letters with the first capitalised; any other text that is not a property name of `Object.prototype` is returned unchanged |
| HabitForm.QuickDaysAreDays | src/components/unified-habit-form.tsx:445-505 | each quick selection lists day names without repeats; weekdays and weekend split the week; "every day" selects all seven |
| HabitForm.HabitForm.constructor | src/components/unified-habit-form.tsx:39-58 | a new form: empty texts, the first colour, target 1, today as start date, weekly with no days, an empty target box |
| HabitForm.HabitForm.LoadHabit | src/components/unified-habit-form.tsx:61-83 | editing fills in the habit's texts (missing colour → first colour), resets the schedule, and shows the target's text in the box, which then reads back as the target |
| HabitForm.HabitForm.HandleSubmit | src/components/unified-habit-form.tsx:85-109 | the alert is that of the first failing check; `onSubmit` is called exactly when there is none, with the form state unchanged |
| HabitForm.HabitForm.HandleDayToggle | src/components/unified-habit-form.tsx:111-118 | only the selected days change, to the toggled list |
| HabitForm.HabitForm.ChooseQuickSelect | src/components/unified-habit-form.tsx:445-505 | only the selected days change, to the chosen quick selection |
| HabitForm.HabitForm.SetHasEndDate | src/components/unified-habit-form.tsx:322 | the checkbox sets `hasEndDate`; unchecking it clears the end date |
| HabitForm.HabitForm.OnTargetChange | src/components/unified-habit-form.tsx:229-242 | the text is kept as typed; a positive number read from it becomes the target; empty or unreadable text leaves the target alone |
| HabitForm.HabitForm.OnTargetBlur | src/components/unified-habit-form.tsx:243-249 | empty, unreadable or below-1 text is cleared and the target reset to 1; afterwards the box is empty or valid |
| HabitForm.TypeThenLeave | src/components/unified-habit-form.tsx:229-249 | typing then leaving the box: a valid number stays and is the target; anything else clears the box and makes the target 1 |
| HabitsApi.Frequency | src/app/api/habits/route.ts:73-91 | the stored frequency is one of daily, weekly, monthly; it is daily exactly for a weekly schedule of all seven days, a custom one-day interval, or an unknown schedule type, and monthly exactly for a monthly schedule or a custom one-month interval; everything else is weekly |
| HabitsApi.NewHabit | src/app/api/habits/route.ts:93-103 | the created row belongs to the caller, is active, keeps name, description and unit, and has a nonempty colour (blue by default), a nonzero target (1 by default) and the folded frequency |
| HabitsApi.PostHabit | src/app/api/habits/route.ts:42-105 | 401 without a session and 400 without a name, storing nothing; otherwise the new row is appended to the habits and returned with 201 |
| HabitsApi.GetHabits | src/app/api/habits/route.ts:6-32 | 401 exactly without a session; otherwise one item per listed habit, in order, each with that habit's recent entries |
| HabitsApi.ListedHabitsAreOwnActive | src/app/api/habits/route.ts:14-29 | the listed habits are exactly the caller's active ones, each as often as in the table, newest first |
| HabitsApi.RecentEntriesAreLatest | src/app/api/habits/route.ts:19-25 | at most 30 entries, all of that habit, latest first, none left out later than one included, and all of them when there are at most 30 |
| HabitsApi.LatestFirstMembers | src/app/api/habits/route.ts:19-23 | the included entries are entries of the table for that habit |
| HabitsApi.LatestFirstPrefix | src/app/api/habits/route.ts:21-24 | taking the first entries keeps them latest first, and no entry after the cut is later than one before it |
| HabitEntriesApi.StoredValue | src/app/api/habit-entries/route.ts:48-55 | the stored value is never 0, and any nonzero value is stored as given |
| HabitEntriesApi.Upsert | src/app/api/habit-entries/route.ts:39-58 | the upsert either updates one entry in place or appends one |
| HabitEntriesApi.UpsertKeepsOneEntryPerKey | src/app/api/habit-entries/route.ts:39-58 | with one entry per user, habit and day before, there is still one after; the key then has an entry holding `value \|\| 1`; every entry with another key is untouched |
| HabitEntriesApi.PostEntry | src/app/api/habit-entries/route.ts:6-60 | 401 without a session, 400 without a habit id or date, 404 for a habit the caller does not own, 500 for a date that is no date (the upsert throws), each writing nothing; otherwise the upsert, answered with 201 and the stored entry |
| HabitEntriesApi.ClearedCellStoresOne | src/components/habit-spreadsheet.tsx:63-82 | the value a spreadsheet click posts is never stored as 0: a cleared cell (0) reads back as 1, and a cycle value stays in 1..3 |
| HabitEntriesApi.GetEntries | src/app/api/habit-entries/route.ts:70-115 | 401 exactly without a session; 500 exactly when both date bounds are given and one is an Invalid Date (the query throws); otherwise 200 with no more entries than the table holds |
| HabitEntriesApi.GetEntriesAreMatching | src/app/api/habit-entries/route.ts:83-106 | with readable bounds, the listed entries are exactly the caller's entries matching the optional habit and the optional inclusive date range (applied only with both bounds), latest first |
| Cleanup.RemoveOneById | cleanup-duplicates.js:54-56 | deleting by an id held by exactly one row removes exactly one row |
| Cleanup.DeleteSharedEntry | cleanup-duplicates.js:54-56 | the delete removes the one row with that id and keeps the table's invariants |
| Cleanup.RankedFacts | cleanup-duplicates.js:32-48 | a key's sorted bucket holds exactly the entries with that key, each once |
| Cleanup.AddToGroup | cleanup-duplicates.js:35-39 | one turn of the grouping loop keeps the map a grouping of the entries seen so far, with each key listed once |
| Cleanup.GroupByKey | cleanup-duplicates.js:33-40 | every key of the table maps to its entries in table order, and the key list holds each key once, in order of first appearance |
| Cleanup.DropStep | cleanup-duplicates.js:52-58 | deleting one more entry gives the rows still present with that entry also dropped |
| Cleanup.GroupDone | cleanup-duplicates.js:44-60 | once a bucket has lost all but its head, exactly the rows that survive its key remain for it |
| Cleanup.AllDone | cleanup-duplicates.js:44-61 | when every bucket is handled, the remaining rows are exactly the survivors |
| Cleanup.DeleteOne | cleanup-duplicates.js:52-57 | one turn of the inner loop removes exactly one row, the entry given |
| Cleanup.DeleteEach | cleanup-duplicates.js:52-58 | the inner loop deletes exactly the given entries and counts each |
| Cleanup.SortNewestFirst | cleanup-duplicates.js:48 | sorting the bucket in place gives the bucket ordered by creation time, latest first, ties in table order |
| Cleanup.RankedTail | cleanup-duplicates.js:50 | the entries after the head are distinct rows of the table with a key not yet handled |
| Cleanup.DeleteAllButNewest | cleanup-duplicates.js:45-60 | a bucket keeps only its latest entry and the count grows by the rows deleted |
| Cleanup.CleanupDuplicates | cleanup-duplicates.js:5-63 | the table afterwards is exactly the survivors, one per key, in table order, and the count is the number of rows removed |
| Cleanup.SurvivorIsNewest | cleanup-duplicates.js:47-49 | the kept entry was created no earlier than any entry with its key |
| Cleanup.SurvivorsOfOneKey | cleanup-duplicates.js:49 | two survivors with the same key are the same row |
| Cleanup.SurvivorKeysDistinct | cleanup-duplicates.js:44-61 | after the cleanup no two rows share a key |
| Cleanup.HeadSurvives | cleanup-duplicates.js:49 | the head of a key's bucket is a survivor with that key |
| Cleanup.KeyHasSurvivor | cleanup-duplicates.js:49-59 | every key of the table keeps an entry |
| Cleanup.OneSurvivorPerKey | cleanup-duplicates.js:44-61 | every key of the table keeps exactly one entry |
| Cleanup.SingletonKept | cleanup-duplicates.js:45 | an entry alone under its key is never deleted |
| Cleanup.KeySetOfUnique | cleanup-duplicates.js:33-40 | a table whose keys are all different has as many keys as rows |
| Cleanup.SurvivorCount | cleanup-duplicates.js:43-57 | the rows kept number the distinct keys, so the count is the entries minus the keys |
| Cleanup.SurvivorKeySet | cleanup-duplicates.js:44-61 | the survivors carry exactly the keys of the table |
| Cleanup.KeysSurvive | cleanup-duplicates.js:44-61 | no key of the table is lost |
| Cleanup.SurvivorKeysOfTable | cleanup-duplicates.js:44-61 | no key appears that the table did not have |
| BadgesApi.StatusOf | src/app/api/badges/route.ts:19-37 | a badge is earned exactly when the caller has a record for it; it has an earned date exactly when earned, and the date is that of one of those records |
| BadgesApi.WithStatus | src/app/api/badges/route.ts:25-37 | one status per badge, in the same order |
| BadgesApi.GetBadges | src/app/api/badges/route.ts:6-52 | 401 without a session; otherwise 200 with the caller's badge view |
| BadgesApi.Rows | src/app/api/badges/route.ts:25-34 | the badges of the listed statuses, one per status, in order |
| BadgesApi.ListsEveryBadgeInCreationOrder | src/app/api/badges/route.ts:9-25 | every badge of the table is listed exactly once, by creation time |
| BadgesApi.EarnedIffAwarded | src/app/api/badges/route.ts:14-36 | a listed badge is earned exactly when the caller holds a record for it, and then its earned date is that record's |
| BadgesApi.StatusIffAwarded | src/app/api/badges/route.ts:20-36 | the status read from the caller's records agrees with the whole award table |
| BadgesApi.SumOfEarned | src/app/api/badges/route.ts:40-41 | summing the points of the earned badges is summing every badge's earned points |
| BadgesApi.StatusTotals | src/app/api/badges/route.ts:40-47 | points and count over the statuses equal those over the badges the caller holds |
| BadgesApi.TotalsMatchAwards | src/app/api/badges/route.ts:39-47 | `totalPoints` and `badgesEarned` are the sum and number, over the badge table, of the badges the caller holds, whatever the listing order |
| BadgesApi.PostBadge | src/app/api/badges/route.ts:63-117 | 401, then 400 without a badge id, 404 for an unknown badge, 400 when already held, each storing nothing; otherwise exactly one record (caller, badge, now) is appended and returned with its badge |
| BadgesApi.AwardCountsOnce | src/app/api/badges/route.ts:96-112 | after an award of a badge not held, `badgesEarned` grows by exactly one |
| BadgesApi.MineLacksBadge | src/app/api/badges/route.ts:87-96 | none of the caller's records is for a badge not yet awarded |
| BadgesApi.AwardedAfter | src/app/api/badges/route.ts:20-108 | a badge is held after a new record exactly when it was held before or is the record's badge |
| BadgesApi.CountSplit | src/app/api/badges/route.ts:47 | with badge ids unique, adding the one badge of an id to the held set adds one to the count |
| BadgesApi.CountSame | src/app/api/badges/route.ts:47 | two tests agreeing on every badge count the same |
| GroupsJoinApi.JoinGroup | src/app/api/groups/join/route.ts:6-67 | 401; 400 without a code; 404 for an unknown code, each storing nothing; with the group of the code, 400 when the caller already has a member row in it, otherwise one row (caller, group, "member") is appended and returned with 201 |
| GroupsJoinApi.JoinedGroupIsVisible | src/app/api/groups/join/route.ts:55-60 | after joining, the group is among the caller's groups |
| GroupsJoinApi.JoinLeavesOthersAlone | src/app/api/groups/join/route.ts:55-60 | joining changes no other user's list of groups |
| GroupsApi.WithMembers | src/app/api/groups/route.ts:28-34 | one view per group, in order, each with exactly the membership rows of that group |
| GroupsApi.GetGroups | src/app/api/groups/route.ts:7-47 | 401 without a session; otherwise 200, and every listed group is a group of the table that the caller owns or belongs to, with its membership rows |
| GroupsApi.ListedIffOwnerOrMember | src/app/api/groups/route.ts:15-27 | a group is listed exactly when the caller owns it or has a member row in it |
| GroupsApi.PostGroup | src/app/api/groups/route.ts:57-91 | 401 and 400 without a name, storing nothing; a generated code that clashes with another group's fails with 500; otherwise the group (name, description, code, owner = caller) is appended and returned with 201 |
| GroupsApi.CreatorSeesNewGroup | src/app/api/groups/route.ts:18-79 | the creator sees the new group in the next GET though no member row was made |
| DeleteAccount.DeleteAccountRoute | src/app/api/auth/delete-account/route.ts:5-85 | 401 with every table unchanged; a missing user row makes the last delete throw, the transaction is undone and the answer is 500 with every table as before; otherwise 200, and the tables are exactly those left by the deletion of the user's data and row |
| DeleteAccount.DeleteUserData | src/app/api/auth/delete-account/route.ts:10-66 | the entries of the user's habits, the user's habits, memberships and shared entries are deleted; groups and shared habits are unchanged |
| DeleteAccount.OnlyTheUsersRowsGo | src/app/api/auth/delete-account/route.ts:10-71 | a habit, membership, shared entry or user row survives exactly when it is another user's; a habit entry survives exactly when its habit is not the user's, whoever wrote it |
| DeleteAccount.OwnedGroupsOutliveOwner | src/app/api/auth/delete-account/route.ts:24-71 | after a successful deletion every group the user owned is still there, while no user row carries its owner id |
| DeleteAccount.DeleteLeftoverGroups | src/app/api/auth/delete-account/route.ts:28-61 | run after the memberships are gone, the group step deletes nothing |
| DeleteAccount.NoGroupsLeftToDelete | src/app/api/auth/delete-account/route.ts:24-38 | once the user's memberships are deleted, no group has the user as a member, so the lookup finds nothing |
| DeleteAccount.DeleteSoleMemberGroups | src/app/api/auth/delete-account/route.ts:40-61 | the loop removes exactly the listed groups with one member, their shared habits and those habits' shared entries |
| DeleteAccount.DeleteTurn | src/app/api/auth/delete-account/route.ts:41-60 | one turn removes the group, its shared habits and their entries when it has one member, and changes nothing otherwise |
| DeleteAccount.DeleteGroup | src/app/api/auth/delete-account/route.ts:43-59 | the group's shared entries, its shared habits and the group row go |
| DeleteAccount.EntriesStep | src/app/api/auth/delete-account/route.ts:43-54 | deleting the entries of one more group's shared habits leaves the entries of no shared habit of any handled group |
| DeleteAccount.SoleMemberIds | src/app/api/auth/delete-account/route.ts:40-41 | the groups removed so far are among those listed |
| DeleteAccount.NotYetHandled | src/app/api/auth/delete-account/route.ts:40 | a group not yet reached has not been removed |
| DeleteAccount.OneUserRowRemoved | src/app/api/auth/delete-account/route.ts:69-71 | with user ids unique, the final delete removes exactly one row |
| CustomActivitiesApi.Formatted | src/app/api/custom-activities/route.ts:30-33 | the sent note keeps every field of the row and carries its date as the yyyy-MM-dd text of its day |
| CustomActivitiesApi.FormattedDateShape | src/app/api/custom-activities/route.ts:32 | for years 1..9999 the sent date is a 10-character yyyy-MM-dd text |
| CustomActivitiesApi.FormatAll | src/app/api/custom-activities/route.ts:30-33 | one formatted note per row, in order |
| CustomActivitiesApi.GetActivities | src/app/api/custom-activities/route.ts:5-36 | 401 without a session; 500 through `withAuth` when both date bounds are given and one is an Invalid Date; otherwise 200 with no more notes than the table holds |
| CustomActivitiesApi.InvalidDateIsServerError | src/lib/withAuth.ts:71-98 | the error `findMany` throws on an Invalid Date bound names no constraint, so `withAuth` maps it to 500 "Internal server error" |
| CustomActivitiesApi.GetSendsListed | src/app/api/custom-activities/route.ts:22-35 | a signed-in GET with readable bounds sends the listed rows, formatted, in their order |
| CustomActivitiesApi.ListedAreMatching | src/app/api/custom-activities/route.ts:10-27 | the listed notes are exactly the caller's notes inside the inclusive range (applied only with both bounds), latest first |
| CustomActivitiesApi.NoRangeListsAll | src/app/api/custom-activities/route.ts:15 | without both bounds (absent or empty) every note of the caller is listed |
| CustomActivitiesApi.PostActivity | src/app/api/custom-activities/route.ts:38-79 | 401; 400 for an empty text, colour or date; 500 for an unreadable date; 409 for a note with the same user, day and trimmed text; each storing nothing; otherwise the trimmed note is appended and returned with 201 |
| CustomActivitiesApi.BlankTextStoredEmpty | src/app/api/custom-activities/route.ts:41-51 | a text of spaces passes the check and is stored as the empty text |
| CustomActivitiesApi.StoredTextIsTrimmed | src/app/api/custom-activities/route.ts:51 | the stored text has no whitespace at either end and trimming it again changes nothing |
| ContactApi.ValidEmailIffRegex | src/app/api/contact/route.ts:16 | the direct rule (no whitespace, one '@' with text before it, a domain with an inner '.') accepts exactly what `/^[^\s@]+@[^\s@]+\.[^\s@]+$/` matches |
| ContactApi.ShapeIsValid | src/app/api/contact/route.ts:16 | a text of the pattern's shape passes the direct rule |
| ContactApi.PostContact | src/app/api/contact/route.ts:3-49 | a body that is not JSON gives 500; a missing field gives 400 "All fields are required"; with all fields, a non-matching email gives the email 400; the answer is 200 exactly when all fields are given and the email matches |
| ContactApi.FieldsCheckedFirst | src/app/api/contact/route.ts:8-22 | a missing field is reported even when the email is malformed too |
| ContactApi.PlainAddressAccepted | src/app/api/contact/route.ts:16 | "a@b.co" passes |
| ContactApi.ExtraAtRejected | src/app/api/contact/route.ts:16 | a second '@' fails |
| ContactApi.SpaceRejected | src/app/api/contact/route.ts:16 | a space fails |
| ContactApi.MisplacedPartsRejected | src/app/api/contact/route.ts:16 | a '.' right after the '@', a '.' at the end, or nothing before the '@' fails |
| ResetPasswordApi.WithPassword | src/app/api/auth/reset-password/route.ts:51-54 | the update sets only that row's password |
| ResetPasswordApi.ResetPassword | src/app/api/auth/reset-password/route.ts:6-59 | 401; 400 for a missing password; 400 for a new one shorter than 6; 404 for a missing row; 400 for a wrong current password; each changing nothing; otherwise exactly the caller's password becomes the hash of the new one |
| ResetPasswordApi.NewPasswordSignsIn | src/app/api/auth/reset-password/route.ts:48-54 | after the change, sign-in with the user's email and the new password succeeds and yields that user, when the password check accepts a password against its own hash |
| ProfileApi.ProfileOf | src/app/api/profile/route.ts:18-32 | the active-habit count is at most the number of habits |
| ProfileApi.GetProfile | src/app/api/profile/route.ts:6-39 | 401 without a session; 404 exactly when the caller has no row; otherwise 200 with the profile of the caller's row |
| ProfileApi.Renamed | src/app/api/profile/route.ts:66-72 | only the caller's row changes, its name becoming the trimmed name |
| ProfileApi.PutProfile | src/app/api/profile/route.ts:49-90 | 401; 400 for a name that is empty or only whitespace; 500 for a missing row; each changing nothing; otherwise the caller's name becomes the trimmed name, nothing else changes, and the new profile is returned |
| ProfileApi.RenameShowsInProfile | src/app/api/profile/route.ts:14-72 | after a rename the next GET shows the trimmed name and the other fields as before |
| ProfileApi.StoredNameIsTrimmed | src/app/api/profile/route.ts:71 | the stored name has no whitespace at either end |
| SetDefaultAvatarApi.SetDefaultAvatar | src/app/api/set-default-avatar/route.ts:6-36 | 401 unless the session has an email; 400 unless `avatarUrl` is a nonempty text; 400 unless it starts with the bundled-avatar folder; 500 when no row has the session's email; each changing nothing; otherwise that row's avatar becomes exactly `avatarUrl`, and the reply is the row with its habit count |
| DefaultAvatarsApi.EndingIn | src/app/api/default-avatars/route.ts:14 | the first extension the name ends with, if any, and none exactly when it ends with none |
| DefaultAvatarsApi.AvatarIdStripsExtension | src/app/api/default-avatars/route.ts:14-16 | the id is a prefix of the name; what it cuts off is an image extension in some case exactly when the file is an image file; other names are their own id |
| DefaultAvatarsApi.ToLowerSuffix | src/app/api/default-avatars/route.ts:14 | lower-casing commutes with taking a suffix |
| DefaultAvatarsApi.AvatarOf | src/app/api/default-avatars/route.ts:15-19 | each avatar keeps the file name, has the URL under the bundled folder, and the stripped id |
| DefaultAvatarsApi.AvatarsOf | src/app/api/default-avatars/route.ts:15-19 | one avatar per file, in order |
| DefaultAvatarsApi.GetDefaultAvatars | src/app/api/default-avatars/route.ts:5-28 | an unreadable directory gives 500; otherwise 200 with the listing |
| DefaultAvatarsApi.MappedImageFiles | src/app/api/default-avatars/route.ts:13-19 | the mapped avatars are those of the image files of the directory, and none is dropped |
| DefaultAvatarsApi.ListAvatarsSpec | src/app/api/default-avatars/route.ts:13-20 | the listing is sorted by name, holds only the directory's image files with their ids and URLs, and drops none of them |
| UploadAvatarApi.EndsWithLastSeparator | src/app/api/upload-avatar/route.ts:54 | a text with a separator ends with the separator and the text after its last occurrence |
| UploadAvatarApi.ExtensionAfterLastDot | src/app/api/upload-avatar/route.ts:54 | the extension is the text after the last '.', or the whole name without one; it holds no '.' |
| UploadAvatarApi.SavedNameKeepsExtension | src/app/api/upload-avatar/route.ts:53-55 | the saved name starts with the caller's id and a '-', and the text after its last '.' is the upload's extension |
| UploadAvatarApi.UploadAvatar | src/app/api/upload-avatar/route.ts:9-91 | 401; 400 for no file, for a type not starting with "image/", and for more than 5 MiB, in that order; 500 for a missing row; each changing nothing; otherwise only the caller's avatar changes, to the saved file's URL |
| UploadAvatarApi.RemoveAvatar | src/app/api/upload-avatar/route.ts:101-140 | 401; 500 for a missing row; otherwise only the caller's avatar changes, to none |
| UploadAvatarApi.UploadedIsNoDefaultAvatar | src/app/api/set-default-avatar/route.ts:21 | an uploaded avatar's URL never passes the bundled-avatar check |
| AuthOptions.Authorize | src/lib/auth.ts:14-42 | no user for an empty email or password or an unknown email; any user returned is the row with that email whose hash the password matches |
| AuthOptions.AuthorizeIffPasswordMatches | src/lib/auth.ts:14-42 | with emails unique, sign-in succeeds exactly when both fields are given and the password matches that user's hash, and yields that user |
| AuthOptions.Token.constructor | src/lib/auth.ts:49 | the token holds the given fields |
| AuthOptions.Token.Jwt | src/lib/auth.ts:49-66 | the callback leaves the token as the `jwt` rule gives it |
| AuthOptions.SignInCopiesProfile | src/lib/auth.ts:50-53 | on sign-in the token gets the user's username and avatar and nothing else changes |
| AuthOptions.UpdateTouchesNameAndAvatar | src/lib/auth.ts:56-63 | an update changes the name exactly when the new one is truthy and the avatar exactly when one is given, null included; nothing else changes |
| AuthOptions.JwtIdempotent | src/lib/auth.ts:49-66 | repeating the same callback changes nothing more |
| AuthOptions.SessionUserObject.constructor | src/lib/auth.ts:67 | the session user holds the given fields |
| AuthOptions.SessionCallback | src/lib/auth.ts:67-78 | a session user gets the token's id, username and avatar, and the name only when the token's is truthy; no user, no change |
| AuthOptions.RenameReachesSession | src/lib/auth.ts:56-75 | after an update with a nonempty name, the next session carries it, with its own email and the token's id |
| AuthOptions.RemovedAvatarReachesSession | src/lib/auth.ts:60-71 | an update with a null avatar leaves the next session without one |
| AuthOptions.SignInReachesSession | src/lib/auth.ts:50-71 | after sign-in the session shows the user's stored username and avatar |
| Sorting.SortBy | src/app/habits/page.tsx:122 | sorting keeps the length and the elements, each as often as before |
| Sorting.SortBySorted | src/app/dashboard/page.tsx:93 | the sorted sequence is ordered by the comparator's key |
| Sorting.SortByStable | src/app/badges/page.tsx:425 | elements with equal keys keep their original order |
| Sorting.SortBySortedIsIdentity | src/app/dashboard/page.tsx:119 | sorting a sequence already in order leaves it as it is |
| Sorting.SortInPlace | cleanup-duplicates.js:48 | the array is reordered in place into the sorted sequence, a permutation of the old contents in key order |
| Sorting.SortByKeepsTotals | src/app/badges/page.tsx:425-447 | sorting changes neither a count nor a sum |
| Dates.Weekday | src/components/habit-calendar.tsx:52-61 | the weekday is in 0..6, Sunday first |
| Dates.ToCivil | src/lib/utils.ts:3-5 | a day has a month in 1..12 and a day of month within that month's length |
| Dates.YearOfKeepsDay | src/lib/utils.ts:3-5 | moving through whole years to find a day's year keeps the day: year start plus position is the day given |
| Dates.DayNumberOfToCivil | src/lib/utils.ts:3-5 | the calendar date of a day names that day again, so distinct days have distinct dates |
| Dates.DayNumberGrows | src/lib/utils.ts:3-5 | a calendar date earlier by year, then month, then day names an earlier day |
| Dates.CivilOrder | src/lib/utils.ts:3-5 | one day is before another exactly when its calendar date is earlier by year, then month, then day |
| Dates.DaysInMonth | src/components/habit-calendar.tsx:57 | every month has 28 to 31 days |
| Dates.StartOfWeek | src/components/habit-calendar.tsx:52-58 | the Sunday on or before the day |
| Dates.EndOfWeek | src/components/habit-calendar.tsx:53-59 | the Saturday on or after the day |
| Dates.StartOfMonth | src/components/habit-calendar.tsx:56 | a day at most 30 days before the given one |
| Dates.EndOfMonth | src/components/habit-calendar.tsx:57 | a day at or after the given one, 27 to 30 days after its month's start |
| Dates.WeekSpanIsWholeWeeks | src/components/habit-calendar.tsx:58-61 | the span from a week's start to a later week's end is a whole number of weeks |
| Store.FindByKey | src/app/api/auth/reset-password/route.ts:26-29 | a position found holds the key; none found means no row has it |
| Store.FindByKeyUnique | src/app/api/groups/join/route.ts:24-28 | under a unique key the row found is the only one with that key |
| Store.Db.DeleteManyHabitEntries | src/app/api/auth/delete-account/route.ts:10-16 | `deleteMany` keeps exactly the rows passing the test, in order, and the table's unique keys |
| Store.Db.DeleteManyHabits | src/app/api/auth/delete-account/route.ts:19-21 | as above, on the habits |
| Store.Db.DeleteManyMembers | src/app/api/auth/delete-account/route.ts:24-26 | as above, on the memberships |
| Store.Db.DeleteManyGroups | src/app/api/auth/delete-account/route.ts:57-59 | as above, on the groups, keeping ids and invite codes unique |
| Store.Db.DeleteManySharedHabits | src/app/api/auth/delete-account/route.ts:52-54 | as above, on the shared habits |
| Store.Db.DeleteManySharedEntries | src/app/api/auth/delete-account/route.ts:64-66 | as above, on the shared entries |
| Store.Db.DeleteManyUsers | src/app/api/auth/delete-account/route.ts:69-71 | as above, on the users, keeping ids and emails unique |
| Store.Db.InsertActivity | src/app/api/custom-activities/route.ts:49-56 | a note with a new id and key is appended and the keys stay unique |
| Store.Db.SetUser | src/app/api/profile/route.ts:66-72 | one user row is replaced by one with the same id and email, and both stay unique |
| Common.Split | src/app/api/upload-avatar/route.ts:54 | a split always has at least one piece |
| Common.JoinSplit | src/app/api/upload-avatar/route.ts:54 | joining the pieces with the separator gives back the text |
| Common.AfterLastIsLastPiece | src/app/api/upload-avatar/route.ts:54 | the last piece of a split is the text after the last separator |
| Common.TrimEmptyIffAllSpace | src/app/api/profile/route.ts:59 | a text trims to empty exactly when it is all whitespace |
| Common.LexLessConcat | src/components/unified-habit-form.tsx:89 | string `<` on texts that start with equally long parts compares those parts first and the rests only on a tie |
| Common.LexLessDigits | src/components/unified-habit-form.tsx:89 | between digit texts of one length, string `<` is numeric `<`, and equal texts are equal numbers |
| Common.TrimIdempotent | src/components/habit-calendar.tsx:213-216 | trimming twice is trimming once |
| Common.ParseIntOfIntToString | src/components/unified-habit-form.tsx:238 | `parseInt` reads back the text of any integer as that integer |

## Left out

- Rendering: JSX, styles, hover handlers, alerts, confirms and console logs have no logic to state. The UI-only pages and components are not part of this model.
- `.length` on JavaScript strings: it counts UTF-16 code units. Here a string is a sequence of characters, and lengths count characters.
- Case and character classes: `toLowerCase`, Python's `lower()`, `isalnum()` and upper-casing only map ASCII letters and digits.
- `localeCompare`: it depends on the locale. The default-avatar sort takes the order as a rank parameter.
- Failed `readdir`: an unreadable avatar folder is the `None` input.
- Bodies that cannot be parsed: only the contact route takes its body as an `Option` input, and answers 500 for `None`. The other routes with a body take its fields already parsed. For them the 500 that a failing `request.json()` (or `request.formData()` in the avatar upload) leads to is not modelled. These are the POSTs of badges, habits, habit entries, groups, group joining and custom activities, the password change, the profile PUT, the default-avatar choice and the avatar upload.
- Unparsable dates: `new Date(text)` on such text gives `None` (a `BadDate` search parameter) in the model. Prisma throws on an Invalid Date, so the routes answer 500: the habit-entry upsert, the custom-activity insert and both GETs when both bounds are given.
- Foreign calls: bcrypt's `hash`/`compare`, `Date.now()`, `Math.random` (activity colours, `generateInviteCode`), new row ids and Python's salted `hash` are parameters. Their values are not modelled.
- Scraper I/O: the HTTP fetch, the HTML parse and the `url(...)` regex are inputs, as lists of img sources, anchor hrefs, style attributes and the style payloads. File writes, `mkdir` and `time.sleep` have no counterpart. Each download's outcome is a parameter.
- Scraper.UrlPath: of `urlparse` only the path and the errors it raises are modelled. When a host holds both '[' and ']', newer Pythons also check that the bracketed part is an IPv6 or IPvFuture address; a host with non-ASCII characters is also checked after NFKC normalisation. Neither check is modelled, so such hosts are accepted.
- File writes: the upload route's write of the file to disk has no counterpart.
- Missing rows: Prisma's error for an update or delete of a missing row (P2025) is modelled as the generic 500 that each route's `catch` gives.
- Prisma `include`s of related rows are not modelled:
  - the user row in the groups and join responses, password hash included;
  - the owner and `groupHabits` of the groups GET;
  - the habit of each entry in the habit-entries GET.
  The records in those replies carry only their own columns.
- `$transaction` in the account deletion: it is a concurrency concern. The steps run one after another. A missing user row at the end undoes all of them, which is what the rollback gives.
- Scraper.DownloadAll: the file name of each URL is the parameter `name`, which gives no name where `extract_filename_from_url` raises. The script's names are `Scraper.FileNames(hash)`, and their rules are proved on `Scraper.ExtractFilename`. The download order is the set's own order, since Python's set order is not modelled.
- Time zones and daylight saving: all dates are UTC days.
- `progressPercent` on the badges page: it is floating point.
- Dashboard.SuccessRate: it is computed in exact integers, with halves rounded upwards as `Math.round` does. The source rounds the floating-point product `(s / t) * 100`, which can fall just below a half. For 23 successful days out of 40 that product is 57.49999999999999, so the source shows 57 where the model gives 58; 57 out of 200 gives 28 there and 29 here.
- Ties in `findMany`: the order of rows with equal sort keys is table order. This includes the cleanup's `orderBy` on `createdAt`.
- Unique indexes: the unique keys of the schema are the invariant `Store.Db.Valid`, which the routes keep. One example is (userId, date, text) of custom activities. A unique violation a route relies on (P2002) is the case where the key is already present.
- The cleanup's key string: it joins the ids with '-', so two different keys can collide when ids contain '-'. The model groups by the tuple and does not model such collisions.
- Calendar navigation (`addMonths`/`subMonths`, today): it is a date-fns month shift and is not part of this model. The calendar's ranges take the current date as an input.
- Routes not listed in the Model table: `custom-activities/[id]`, `user/me`, the sign-up route and the shared-group routes are not part of this model. The seed scripts, `update-roles.ts`, `useAuthValidation.ts` and the type declarations are not part of this model either.
- Delays: the `setTimeout` delays of the contact route and the dashboard are timing only.
- Spreadsheet.EntryValue: its contract states only the unknown-habit case. `Spreadsheet.EntryValueOnDay` states the other cases.
- Calendar.DayValue: its contract states only the unknown-habit case. `Calendar.DayValueIsValueOn` states the other cases.
- HabitEntriesApi.GetEntries: its contract states the statuses and a bound on the length; its partner lemma `HabitEntriesApi.GetEntriesAreMatching` states which entries are listed and in what order.
- CustomActivitiesApi.GetActivities: its contract states only the status and a bound on the length. `CustomActivitiesApi.GetSendsListed` and `CustomActivitiesApi.ListedAreMatching` state which notes are listed and in what order.
- GroupsApi.GetGroups: its contract states that every listed group is visible to the caller. Completeness, that every visible group is listed, is `GroupsApi.ListedIffOwnerOrMember`.
- DeleteAccount.DeleteAccountRoute: the store has no foreign keys. The schema is not part of this model, so it is open whether the database refuses the final user delete (the transaction is undone and the route answers 500) or cascades it. Either way the model's 200 case differs: it keeps, pointing at the deleted user, the groups the user owns with their members and shared habits, the user's badges, custom activities, and habit entries on other users' habits. `DeleteAccount.OwnedGroupsOutliveOwner` states the owned-group part.
- HabitForm.DayAbbreviation: `abbrevs[day] || day` reads inherited properties too, so a property name of `Object.prototype` such as "constructor" gives a function in the source. The model returns such text unchanged; the form passes only day names.
