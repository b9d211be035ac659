# qz portal scraper — a Dafny model of its parsing and session core

The qz project logs a student into a university teaching-affairs portal and scrapes
the timetable, grades, exams, course evaluations, semester list and student card.
Under the HTTP and HTML plumbing sit small text and record transformations. This
project models those transformations as pure Dafny functions and proves what they
promise:

- **Timetable time fields** (`src/academic/curriculum.py`). `1-15(周)[01-02节]` is
  decoded into a sorted, de-duplicated week list and a period text. Periods map to slot
  keys and names. Element ids carry a weekday. One course becomes one record per week.
  Modules: `Curriculum`, with `WeekText` writing well-formed week fields for the round
  trips.
- **The test-script course parser** (`tests/test.py`): `parse_weeks`,
  `parse_single_range_or_week`, `to_dict`, and the `zc_jc` split. Module `CourseTable`.
- **The legacy login encoder** (`tests/bj.py`, `Auth.encode`). It interleaves
  `username%%%password` with salt pieces whose lengths come from a digit string. Module
  `LoginEncoder`, which also has the decoder that undoes it.
- **`.env` loading and typed getters** (`src/utils/env_loader.py`). Module `EnvLoader`.
- **Credential source priority and validation** (`src/auth/credentials.py`). Module
  `Credentials`.
- **The session manager's state machine** (`src/auth/session_manager.py`): login flag,
  cookie file formats, the 24-hour expiry, cookie de-duplication, the probe
  classification and the `ensure_logged_in` fallback chain. Module `Session`.
- **Grade rows** (`src/academic/achievement.py`): cleanup, cell splitting, the
  positional record and the grade link. Module `Achievement`.
- **The student card** (`src/academic/student_info.py`): the key/value pairing of
  rows whose markup holds `border:1px solid black`, the `key：value` third row, and the text layout. Module `StudentInfo`.
- **Exam and evaluation tables** (`src/academic/exam_schedule.py`,
  `src/academic/evaluation.py`). The two files hold the same header/cell zipping and
  listing code. It is modelled once in `TableRecords`. `ExamSchedule` and `Evaluation`
  supply each file's words.
- **The semester select** (`src/academic/semester.py`). Module `Semester`.

Shared modules:

- `Wrappers` holds `Option` and `Result`.
- `Strings` holds Python `str` behaviour as the code uses it: `strip`, `find`, `split`,
  `join`, `replace`, `lower`, `isdigit`, `int()`. `int()` skips less white space than
  `strip()`: it rejects the information separators U+001C..U+001F.
- `OrderedDict` holds a Python `dict`, keeping insertion order. Assigning to a present
  key keeps its place.

Inputs the code reads from the outside are parameters:

- HTTP responses become a `Probe`, which carries the cookies the responses set.
- Parsed pages become sequences of cell texts, options or rows.
- The clock becomes an integer `now`.
- Files become an `EnvFile`, `ConfigFile` or `StoredCookies` value.
- Console answers become a sequence of strings.
- `os.environ` becomes a `map`.

## Model

| member | source | states |
|---|---|---|
| WeekText.Range | tests/test.py:53-55 | `range(a, b + 1)` holds the weeks a..b in order, and nothing when a > b |
| WeekText.RangeMembers | src/academic/curriculum.py:694-696 | a week is in the range exactly when a <= week <= b |
| Curriculum.AllWeeksMembers | src/academic/curriculum.py:689-701 | a week is collected exactly when some comma piece contributes it |
| Curriculum.InsertSorted | src/academic/curriculum.py:704 | inserting keeps the list strictly ascending, and its members are the old ones plus the new week |
| Curriculum.SortUnique | src/academic/curriculum.py:704 | `sorted(set(weeks))` is strictly ascending and has exactly the members of the input |
| Curriculum.SortedSetUnique | src/academic/curriculum.py:704 | two strictly ascending lists with the same members are equal, so the reported list is determined by the weeks found |
| Curriculum.CloseAt | src/academic/curriculum.py:684 | the closing `]` found is the first one, and no line break comes before it |
| Curriculum.CloseAtFinds | src/academic/curriculum.py:684 | the first `]` with no line break before it is the one found |
| Curriculum.BracketFrom | src/academic/curriculum.py:683-686 | the period text never contains `]` or a line break |
| Curriculum.SkipNoBracket | src/academic/curriculum.py:684 | the search for the group passes over text holding no `[` |
| Curriculum.BracketFromFirst | src/academic/curriculum.py:684 | the group taken is the one opened by the first `[` and closed by the next `]` (with no line break between), whatever text follows |
| Curriculum.ParseTimeInfo | src/academic/curriculum.py:661-713 | without `(周)` there are no weeks and no period; weeks are strictly ascending; a malformed field never fails |
| Curriculum.PieceOfRange | src/academic/curriculum.py:692-696 | a piece `a-b` contributes exactly a..b |
| Curriculum.PartWeeksOfRange | src/academic/curriculum.py:692-696 | a piece splitting on `-` into two integers contributes that inclusive range |
| Curriculum.PieceOfWeek | src/academic/curriculum.py:699-701 | a plain digit piece contributes its own number |
| Curriculum.AllWeeksOfRanges | src/academic/curriculum.py:689-701 | a field of range pieces collects exactly their expansions, in order |
| Curriculum.TimeInfoRoundTrip | src/academic/curriculum.py:661-713 | a field written from ranges and a period decodes to the sorted de-duplicated weeks and that period |
| Curriculum.TimeInfoAscendingRoundTrip | src/academic/curriculum.py:661-713 | when the written ranges already ascend without overlap, decoding gives exactly the weeks written |
| Curriculum.TimeInfoLocality | src/academic/curriculum.py:678-701 | in a field with one `(周)`, the weeks depend only on the text before it and the period only on the text after it |
| Curriculum.SplitAtMarker | src/academic/curriculum.py:678-680 | a field with one `(周)` splits into the parts around it |
| Curriculum.BracketOfPeriod | src/academic/curriculum.py:683-686 | `[p]` yields p as the period |
| Curriculum.PeriodAfterPrefix | src/academic/curriculum.py:678-686 | after `(周)`, text before the first `[` and any later bracket groups are ignored: the period is the first group |
| Curriculum.WeekList | src/academic/curriculum.py:689-704 | the reported weeks are strictly ascending and are exactly the weeks some comma piece contributes |
| Curriculum.WeekListOfRanges | src/academic/curriculum.py:689-704 | the week list of written ranges is the sorted set of their weeks |
| Curriculum.MalformedPieceIgnored | src/academic/curriculum.py:690-701 | inserting an unreadable piece anywhere leaves the week list unchanged |
| Curriculum.AllWeeksAppend | src/academic/curriculum.py:689-701 | the `extend` loop over two runs of pieces yields the first run's weeks followed by the second's |
| Curriculum.FirstCode | src/academic/curriculum.py:629-641 | the code found is present, and no earlier code in the fixed order is |
| Curriculum.DetermineTimeSlot | src/academic/curriculum.py:625-642 | the slot of the first code present, or `'12'` when none is; always a key of `time_slots` |
| Curriculum.GetTimeName | src/academic/curriculum.py:644-659 | the name of the first code present, else the period text, else `'未知时间'`; never empty |
| Curriculum.SlotNameAgrees | src/academic/curriculum.py:625-659 | for a recognised period, `time_slots[slot] == name` |
| Curriculum.SlotTablesAgree | src/academic/curriculum.py:31-38 | each code's slot key is in `time_slots` under the code's name |
| Curriculum.DivWeekday | src/academic/curriculum.py:175-186 | a weekday is read only from ids with at least three `-` pieces whose second piece is a digit string in 1..7 |
| Curriculum.DivIdRoundTrip | src/academic/curriculum.py:175-186 | an id `slot-d-rest` with d in 1..7 yields d |
| Curriculum.ParseCourseContent | src/academic/curriculum.py:214-307 | empty slot: no records; name and time present: one record per decoded week, ascending, sharing the slot's name, teacher, room, weekday and id, with the decoded period as `jcdm`, its name as `jcmc` and its slot as `time_slot`; otherwise the fallback |
| Curriculum.SlotRecords | src/academic/curriculum.py:284-305 | one record per decoded week, in order, each carrying the slot's fields, the decoded period, its name and its slot |
| Curriculum.WeekRecords | src/academic/curriculum.py:292-305 | one copy of the record per week, in order, differing only in `zc` |
| Curriculum.ParseCourseDiv | src/academic/curriculum.py:163-197 | a bad id gives no records; every record carries the id's weekday, in 1..7 |
| Curriculum.CourseDivRoundTrip | src/academic/curriculum.py:163-307 | a slot written from a weekday and ranges yields records for exactly those weeks, on that weekday, with that period |
| CourseTable.ParseSingle | tests/test.py:51-58 | a dash-free piece parses exactly when `int()` accepts it (so not with U+001C..U+001F around it); a failure reports the piece |
| CourseTable.ParseAll | tests/test.py:42-46 | a failure reports one of the pieces |
| CourseTable.ParseAllMeaning | tests/test.py:42-46 | fails exactly when some piece is unreadable; otherwise a week is collected exactly when some piece denotes it |
| CourseTable.ParseWeeksPieces | tests/test.py:35-48 | `parse_weeks` removes every `(周)`, then reads the comma pieces |
| CourseTable.ParseAllOne | tests/test.py:45-46 | the single-piece branch agrees with the comma branch |
| CourseTable.MarkersRemoved | tests/test.py:37-38 | a text without `(周)` is left as is |
| CourseTable.ParseWeeksRoundTrip | tests/test.py:35-58 | a field written from ranges parses to their expansion, unsorted and with repeats |
| CourseTable.ParseAllOfRanges | tests/test.py:42-55 | range pieces parse to their concatenated expansions |
| CourseTable.SingleOfRange | tests/test.py:53-55 | `a-b` parses to a..b |
| CourseTable.SingleOfWeek | tests/test.py:56-58 | a numeral parses to its one week |
| CourseTable.ToDict | tests/test.py:23-32 | succeeds exactly when the weeks parse; name, teacher, jc and classroom are kept and zc becomes the week list |
| CourseTable.SplitZcJc | tests/test.py:126-128 | fails exactly without `[`; otherwise zc + jc is the input and jc starts at the first `[` |
| CourseTable.SplitZcJcRoundTrip | tests/test.py:126-128 | splitting zc + jc with no `[` in zc gives back zc and jc |
| LoginEncoder.EncodeFrom | tests/bj.py:67-76 | succeeds exactly when sxh has a digit for each salted index; length is bounded by code plus salt |
| LoginEncoder.EncodeKeepsTail | tests/bj.py:67-76 | from index 20 the rest of the code is copied verbatim: the encoding ends with it |
| LoginEncoder.Encode | tests/bj.py:60-77 | a reply not splitting on `#` into two parts is an error; the plaintext is `username%%%password` |
| LoginEncoder.DecodeEncodeFrom | tests/bj.py:67-76 | deleting the salt pieces located by sxh recovers the code; the salt used is a prefix of the salt |
| LoginEncoder.DecodeEncode | tests/bj.py:60-77 | decoding an encoding recovers `username%%%password` |
| LoginEncoder.OneCharInt | tests/bj.py:71 | `int()` of one character succeeds exactly on a digit, giving its value |
| EnvLoader.Unquote | src/utils/env_loader.py:61-65 | a value not both starting and ending with the same quote is kept |
| EnvLoader.UnquoteQuoted | src/utils/env_loader.py:61-65 | one pair of matching quotes is removed |
| EnvLoader.ClassifyLine | src/utils/env_loader.py:49-72 | blank and `#` lines are skipped; a line without `=` is malformed; a key never holds `=` and is trimmed |
| EnvLoader.ClassifyAssignment | src/utils/env_loader.py:55-65 | `k=v` assigns k the unquoted v, so values may hold `=` |
| EnvLoader.ClassifySpacedAssignment | src/utils/env_loader.py:48-63 | white space around the line, the key, the `=` and the value is dropped: `  k  =  v  ` assigns k the unquoted v |
| EnvLoader.ClassifyLines | src/utils/env_loader.py:48-49 | every line is classified on its own |
| EnvLoader.LoadLines | src/utils/env_loader.py:46-80 | no existing variable is ever removed |
| EnvLoader.LoadLinesKeeps | src/utils/env_loader.py:68-70 | without override an existing variable keeps its value |
| EnvLoader.LoadLinesSources | src/utils/env_loader.py:67-70 | every new or changed variable comes from an assignment line |
| EnvLoader.LastAssignedIsLast | src/utils/env_loader.py:67-70 | the reference value for a key is that of an assigning line with no assigning line after it, and is absent exactly when no line assigns the key |
| EnvLoader.LoadLinesOverride | src/utils/env_loader.py:67-70 | with override, a completed load leaves each assigned key holding its last assignment and every other variable untouched |
| EnvLoader.LoadLinesFirstWins | src/utils/env_loader.py:67-70 | without override, a variable not yet set takes the value of the first line assigning it, and stays unset when none does |
| EnvLoader.LoadLinesComplete | src/utils/env_loader.py:67-76 | after a successful load every assigned key is set |
| EnvLoader.LoadEnv | src/utils/env_loader.py:28-80 | a loaded loader without override returns true and changes nothing; a missing file gives false; success marks the loader loaded |
| EnvLoader.LoadEnvOverride | src/utils/env_loader.py:28-80 | a successful load with override leaves each key the file assigns holding its last assignment, and every other variable as it was |
| EnvLoader.LoadEnvKeeps | src/utils/env_loader.py:68-70 | loading without override keeps every existing variable |
| EnvLoader.ReloadStable | src/utils/env_loader.py:67-70 | loading the same lines a second time changes no variable |
| EnvLoader.ReloadFresh | src/utils/env_loader.py:173-177 | calling the module-level `load_env` twice leaves the environment as after the first call |
| EnvLoader.GetInt | src/utils/env_loader.py:86-91 | a missing key or a value `int()` rejects (including one holding U+001C..U+001F) gives the default, otherwise `int()` of the value |
| Strings.SeparatorNotSkipped | src/utils/env_loader.py:89-91 | `int()` raises on a leading U+001C..U+001F although `strip()` removes it, so such a value is not an integer |
| EnvLoader.GetIntRoundTrip | src/utils/env_loader.py:86-91 | a stored integer is read back |
| EnvLoader.GetBool | src/utils/env_loader.py:93-100 | true/1/yes/on give true, false/0/no/off give false, anything else the default |
| EnvLoader.GetBoolIgnoresCase | src/utils/env_loader.py:95 | upper-casing the stored word does not change the answer |
| EnvLoader.GetList | src/utils/env_loader.py:102-107 | missing or empty gives the default; an empty separator is an error; otherwise the trimmed pieces |
| EnvLoader.GetListRoundTrip | src/utils/env_loader.py:102-107 | trimmed items joined by the separator are read back |
| EnvLoader.EnvCredentials | src/utils/env_loader.py:109-115 | username and password are present exactly when set, and then hold the variables' values; the school is `EDU_SCHOOL`'s value or `'10'` |
| EnvLoader.ShowLoadedVars | src/utils/env_loader.py:154-167 | not loaded prints one notice; otherwise a header and one line per loaded variable, in load order |
| EnvLoader.MaskRevealsOnlyLength | src/utils/env_loader.py:161-167 | a sensitive value shows only its length; other values are shown as is |
| EnvLoader.SensitiveIgnoresCase | src/utils/env_loader.py:164 | sensitivity of a key name ignores case |
| Credentials.ConfigCredentials | src/auth/credentials.py:77-94 | an absent or unreadable file gives three `None`s; entries are present exactly when in the file and then hold the file's values; the school defaults to `'10'` |
| Credentials.Interactive | src/auth/credentials.py:96-124 | credentials returned have a non-empty trimmed username and password and a non-empty school |
| Credentials.BlankUsernameRetries | src/auth/credentials.py:101-124 | a blank username restarts the prompts |
| Credentials.BlankPasswordRetries | src/auth/credentials.py:101-124 | a blank password discards the username and restarts |
| Credentials.InteractiveAnswers | src/auth/credentials.py:101-117 | four answers give the trimmed username, password and school, `'10'` for a blank school |
| Credentials.EnvironmentWins | src/auth/credentials.py:42-60 | non-empty `EDU_USERNAME` and `EDU_PASSWORD` are returned as the credentials, with `EDU_SCHOOL` or `'10'` |
| Credentials.ConfigUsed | src/auth/credentials.py:42-94 | without a usable environment pair, a non-empty configured username and password are returned, with the configured school or `'10'` |
| Credentials.GetCredentials | src/auth/credentials.py:42-75 | forced input prompts; a full environment pair wins, then a full config pair, then prompts |
| Credentials.CredentialsNonEmpty | src/auth/credentials.py:57-75 | credentials from any source have a non-empty username and password |
| Credentials.PromptsOnlyAsLastResort | src/auth/credentials.py:57-75 | prompts happen exactly when forced or when neither other source has a full pair |
| Credentials.ValidateCredentials | src/auth/credentials.py:149-163 | valid exactly when the username has at least 3 and the password at least 6 characters |
| Session.Init | src/auth/session_manager.py:35-42 | a new manager has no cookies, is logged out and has no user info |
| Session.SetLoggedIn | src/auth/session_manager.py:74-79 | the flag is set, user info is the given map or `{}`, activity is now; cookies untouched |
| Session.SetLoggedOut | src/auth/session_manager.py:81-85 | the flag is cleared and user info emptied; nothing else changes |
| Session.StoreCookie | src/auth/session_manager.py:119-120 | a stored cookie is in the jar afterwards, replacing the cookie of the same name and domain in place or appended; every other cookie keeps its place, and nothing else enters |
| Session.SetCookie | src/auth/session_manager.py:119-120 | setting a cookie replaces the same-named one in place or appends it; other cookies are untouched |
| Session.DedupeLastWins | src/auth/session_manager.py:137-140 | each saved name holds the value of its last cookie, names distinct |
| Session.LoadCookies | src/auth/session_manager.py:87-125 | stamped cookies load only when now - timestamp <= 86400; legacy maps load without a check; a non-object loads nothing but succeeds; only the jar changes |
| Session.ExpiryBoundary | src/auth/session_manager.py:107-110 | exactly 86400 seconds old still loads, one second more does not |
| Session.SaveCookies | src/auth/session_manager.py:127-157 | a writable file receives the de-duplicated cookies, now, the creation text and the user info |
| Session.SaveLoadRoundTrip | src/auth/session_manager.py:87-157 | loading, within 24 hours, what was saved into a fresh session gives the saved cookies |
| Session.UpdateJarAppends | src/auth/session_manager.py:120 | new distinct names are appended in order |
| Session.SetCookieNew | src/auth/session_manager.py:120 | a new name is appended |
| Session.ClearCookies | src/auth/session_manager.py:159-181 | the jar is emptied; success logs out and removes the file |
| Session.Logout | src/auth/session_manager.py:338-341 | afterwards the jar is empty and the manager logged out |
| Session.IsSessionValid | src/auth/session_manager.py:183-217 | valid exactly for a 200 response not redirected to login showing `姓名：` at `xsMain.jsp`; the cookies the responses set are stored in every case; non-200 changes nothing else; other failures log out |
| Session.ReceiveFrame | src/auth/session_manager.py:192 | the probe's responses only add to the jar: every cookie afterwards was there or was received, untouched cookies keep their place, every received cookie's name and domain end up present |
| Session.ProbeAddsOnlyReceived | src/auth/session_manager.py:183-217 | a probe changes the jar only by the cookies its responses set (a probe that sets none leaves it as it was), never the file; logged in afterwards exactly when valid, or when a non-200 left an existing login |
| Session.EnsureLoggedIn | src/auth/session_manager.py:219-252 | each route is taken exactly when the ones before it failed and its own condition holds: the current session when the probe is valid; the stored cookies exactly when they load and the re-probe is valid; a login exactly when both failed and usable credentials log in; failure otherwise; every success is logged in |
| Session.FailedLogsOut | src/auth/session_manager.py:219-252 | a failure leaves the manager logged out unless the first probe met a non-200 status |
| Session.LoginIsLastResort | src/auth/session_manager.py:226-249 | a login happens only after the current session and the stored cookies both failed, and only with both credentials non-empty |
| Session.FreshLoginSaves | src/auth/session_manager.py:244-249 | a fresh login saves the new session's cookies with the username |
| OrderedDict.PutAllLastWins | src/auth/session_manager.py:137-140 | assigning pairs in order leaves each key with its last value and keys distinct |
| Achievement.KeepText | src/academic/achievement.py:22-27 | the reference filter: no `\r`, `\n` or `\t` remain and nothing is added |
| Achievement.CleanHtmlKeepsText | src/academic/achievement.py:22-27 | the three substitutions delete exactly the layout characters and keep the rest in order |
| Achievement.RemoveLayoutIsKeepText | src/academic/achievement.py:24-26 | deleting the three characters in turn equals the one-pass filter |
| Achievement.ExtractTableRows | src/academic/achievement.py:29-35 | with at least two rows the first two are dropped; otherwise the rows are kept |
| Achievement.ReplacementsShape | src/academic/achievement.py:39-56 | every replacement is `''` or `<td>`, and no pattern is empty |
| Achievement.ApplyAllKeepsAbsent | src/academic/achievement.py:58-59 | a character absent from the row and from all replacements stays absent |
| Achievement.CleanRowHasNoSpace | src/academic/achievement.py:37-61 | a cleaned row contains no space |
| Achievement.SpacesRemoved | src/academic/achievement.py:39-59 | removing spaces second, with no replacement adding one, leaves none |
| Achievement.ReplaceNeverMatches | src/academic/achievement.py:58-59 | a pattern holding a character the row lacks changes nothing |
| Achievement.SpacedPatternsNeverApply | src/academic/achievement.py:58-59 | once spaces are gone, the patterns containing spaces never fire |
| Achievement.CleanRowLivePatterns | src/academic/achievement.py:39-61 | the three entries with spaces (the `style=" color:red;"` attribute, the long comment, `<td style=" ">`) are dead: cleaning equals applying the others |
| Achievement.SplitCells | src/academic/achievement.py:125-129 | the cells re-joined with `<td>` give the row, with one leading empty cell dropped |
| Achievement.CellsRoundTrip | src/academic/achievement.py:125-129 | fields without `<` written as `<td>` cells split back into the fields |
| Achievement.GradeFrom | src/academic/achievement.py:69 | a found grade is the leftmost `zcj=` followed by two digits or `通过` |
| Achievement.GradeFound | src/academic/achievement.py:69-70 | `zcj=NN` after a prefix without `z` yields NN |
| Achievement.GradeScan | src/academic/achievement.py:69-70 | the first matching position determines the grade |
| Achievement.NoGradeLink | src/academic/achievement.py:69-70 | without `zcj=` there is no grade link |
| Achievement.ParseRow | src/academic/achievement.py:63-88 | an error exactly below 16 fields; the grade is the link's grade or field 4 |
| Achievement.ParseRowRoundTrip | src/academic/achievement.py:63-88 | fields 1..15 written from a record parse back to it, field 0 discarded, extra fields ignored |
| Achievement.ParseRowGrade | src/academic/achievement.py:69-76 | a grade link in field 4 becomes the grade |
| Achievement.RowRecord | src/academic/achievement.py:122-133 | a row gives a record exactly when it has at least 16 cells |
| Achievement.RowRecords | src/academic/achievement.py:121-133 | every row is decoded on its own, in order |
| Achievement.Collect | src/academic/achievement.py:121-137 | only decoded records are kept, none invented |
| Achievement.CollectAppend | src/academic/achievement.py:121-137 | collecting two row lists is collecting each and concatenating |
| Achievement.CollectCounts | src/academic/achievement.py:121-137 | each record appears as often as rows decode to it |
| Achievement.FetchAchievements | src/academic/achievement.py:103-141 | every record comes from a data row, at most one per row |
| Achievement.HeaderRowsIgnored | src/academic/achievement.py:33-34 | the two header rows never contribute |
| StudentInfo.Pairs | src/academic/student_info.py:132-146 | only accepted pairs are recorded: both non-empty, different, key shorter than 20; at most half the cells |
| StudentInfo.PairCells | src/academic/student_info.py:132-146 | the cursor loop records exactly the reference pairing |
| StudentInfo.PairsAdjacent | src/academic/student_info.py:134-141 | each recorded pair is two neighbouring cells, key first |
| StudentInfo.PairsOfFlatten | src/academic/student_info.py:132-146 | accepted pairs laid out key, value, … are read back exactly |
| StudentInfo.RejectedShifts | src/academic/student_info.py:142-144 | a rejected cell moves the cursor by one, so pairing restarts at the next cell |
| StudentInfo.AppendedCell | src/academic/student_info.py:131-148 | a cell added at the end of a row is never read as a key: the entries stay as they were, or gain one last entry pairing the previous last cell with it |
| StudentInfo.CellText | src/academic/student_info.py:129 | a kept cell's text holds no NBSP; when deleting the NBSPs leaves no `&nbsp;`, the text is the original with exactly its NBSPs deleted and every other character kept in order |
| StudentInfo.CellTextEntity | src/academic/student_info.py:129 | an `&nbsp;` entity is deleted in place: the text before it is kept and the text after it is cleaned the same way |
| StudentInfo.KeptTexts | src/academic/student_info.py:122-130 | at most one text per cell, none holding a no-break space |
| StudentInfo.KeptTextsAppend | src/academic/student_info.py:124-130 | cells are read in order: two runs of cells give the first run's texts, then the second's |
| StudentInfo.KeptTextsCell | src/academic/student_info.py:124-130 | wherever it stands, a cell with an image or `rowspan` adds nothing and any other cell adds its cleaned text in its place |
| StudentInfo.PlainRowIgnored | src/academic/student_info.py:121-130 | a row whose markup lacks `border:1px solid black` contributes nothing outside the third row |
| StudentInfo.ColonEntries | src/academic/student_info.py:111-118 | an entry is taken only from a cell splitting on `：` into exactly two parts, neither holding `：` |
| StudentInfo.ColonEntryRoundTrip | src/academic/student_info.py:111-118 | a cell `key：value` yields that entry |
| StudentInfo.ColonEntriesAppend | src/academic/student_info.py:112-118 | cells are read in order: two runs give the first run's entries, then the second's |
| StudentInfo.ColonEntriesCell | src/academic/student_info.py:112-118 | wherever it stands, a cell adds its own entry, if any, in its place |
| StudentInfo.ParseCardTable | src/academic/student_info.py:89-148 | the keys of the card are distinct |
| StudentInfo.CardLastWins | src/academic/student_info.py:104-141 | each key holds the value of the last row entry for it, and every card entry is one some row offered |
| StudentInfo.PhotoSource | src/academic/student_info.py:69-77 | the source of the first image whose `src` holds `xszpLoad` or whose `alt` holds `照片`; none when no image does |
| StudentInfo.StudentRecord | src/academic/student_info.py:52-80 | keys are distinct and a found photo is recorded under `学生照片URL` |
| StudentInfo.StudentRecordEntries | src/academic/student_info.py:52-80 | each key holds the photo's source (for `学生照片URL`, when found), else the card's value, else the page title (for `页面标题`), else nothing |
| StudentInfo.ImportantLines | src/academic/student_info.py:159-163 | at most one line per important key |
| StudentInfo.ImportantLinesAppend | src/academic/student_info.py:161-163 | important keys are listed in their given order: two runs give the first run's lines, then the second's |
| StudentInfo.ImportantLinesKey | src/academic/student_info.py:161-163 | wherever it stands, an important key adds `key: value` in its place when present and nothing when absent |
| StudentInfo.OtherLines | src/academic/student_info.py:166-169 | at most one line per entry |
| StudentInfo.OtherLinesAppend | src/academic/student_info.py:166-169 | entries are listed in dictionary order: two runs give the first run's lines, then the second's |
| StudentInfo.OtherLinesEntry | src/academic/student_info.py:166-169 | wherever it stands, an entry adds its `key: value` line in its place exactly when its key is neither important nor `学生照片URL` nor `页面标题` |
| StudentInfo.FormatLines | src/academic/student_info.py:155-175 | heading and rule of `=`, the important lines in fixed order, a rule of `-`, exactly the other lines, then exactly the photo lines (two when a photo is present) |
| StudentInfo.FormatStudentInfo | src/academic/student_info.py:150-177 | the no-information text exactly for empty information |
| StudentInfo.FormatReadsBack | src/academic/student_info.py:150-177 | splitting the text on line breaks gives back the layout's lines |
| TableRecords.Columns | src/academic/exam_schedule.py:59-61 | the i-th header is keyed to the i-th cell, for the headers' length only |
| TableRecords.Zip | src/academic/exam_schedule.py:57-61 | keys distinct; each key holds its last column's cell |
| TableRecords.ZipKeys | src/academic/exam_schedule.py:57-61 | the keys are exactly the headers, each holding the cell under its last occurrence |
| TableRecords.ZipDistinct | src/academic/exam_schedule.py:57-61 | with distinct headers the record is the headers and cells in column order |
| TableRecords.ZipNonEmpty | src/academic/exam_schedule.py:63-64 | non-empty headers give a non-empty record |
| TableRecords.TableRecords | src/academic/exam_schedule.py:45-64 | records are non-empty with distinct keys, at most one per data row |
| TableRecords.RowRecords | src/academic/exam_schedule.py:55-64 | records are non-empty with distinct keys, at most one per row |
| TableRecords.RowRecordsCount | src/academic/exam_schedule.py:55-64 | no headers give no records; otherwise one per row with enough cells |
| TableRecords.RowRecordsAll | src/academic/exam_schedule.py:55-64 | when every row is wide enough, record i is row i zipped |
| TableRecords.Records | src/academic/exam_schedule.py:43-66 | every record is non-empty with distinct keys |
| TableRecords.RecordsAppend | src/academic/exam_schedule.py:45-64 | records of all tables are concatenated in table order |
| TableRecords.ValueLines | src/academic/exam_schedule.py:84-86 | each line is an entry with a non-empty value |
| TableRecords.ValueLinesComplete | src/academic/exam_schedule.py:84-86 | every entry with a non-empty value is listed |
| TableRecords.Block | src/academic/exam_schedule.py:80-86 | a block is the numbered label, a rule, then the value lines |
| TableRecords.BlocksAppend | src/academic/exam_schedule.py:80-86 | one more record adds its block numbered one past the last |
| TableRecords.BlocksLength | src/academic/exam_schedule.py:80-86 | the blocks take two lines per record plus one per non-empty value |
| TableRecords.Format | src/academic/exam_schedule.py:72-88 | the no-records text exactly for an empty list |
| TableRecords.FormatLines | src/academic/exam_schedule.py:77-88 | a non-empty listing joins title, rule and the blocks numbered from 1 |
| ExamSchedule.GetExamSchedule | src/academic/exam_schedule.py:39-66 | exam records are non-empty with distinct keys |
| ExamSchedule.FormatExamSchedule | src/academic/exam_schedule.py:72-88 | `📅 暂无考试安排` exactly for no exams |
| Evaluation.GetEvaluationList | src/academic/evaluation.py:38-63 | course records are non-empty with distinct keys |
| Evaluation.FormatEvaluationList | src/academic/evaluation.py:69-85 | `📊 暂无可评价课程` exactly for no courses |
| Semester.Current | src/academic/semester.py:59-64 | the text of the first option whose `selected` is `"selected"`, or `""` when none is |
| Semester.SemesterList | src/academic/semester.py:66-72 | only non-empty option texts are listed |
| Semester.SemesterListAppend | src/academic/semester.py:67-72 | options are listed in document order: two runs give the first run's semesters, then the second's |
| Semester.SemesterListOption | src/academic/semester.py:67-72 | wherever it stands, an option adds its text in its place when non-empty, and nothing otherwise |
| Semester.SemesterListComplete | src/academic/semester.py:67-72 | every non-empty option text is listed |
| Semester.UserName | src/academic/semester.py:52-57 | the login name up to its first `(`, or `""` without the element |
| Semester.UserNameRoundTrip | src/academic/semester.py:56 | `name(remark)` yields name |
| Semester.GetSemester | src/academic/semester.py:46-79 | nothing exactly when the select is missing |
| Semester.CurrentIsListed | src/academic/semester.py:60-72 | a non-empty current semester is among the listed ones |

## Left out

- HTTP requests, timeouts, `raise_for_status` and exception handlers around network calls: responses are inputs (`Probe`, table cells, option texts).
- BeautifulSoup traversal and the regex row splitter `<tr.*?>.*?</tr>`: the model starts from extracted texts, rows and attribute flags.
- `get_text(strip=True)` is taken as given: cell texts arrive already stripped.
- The free-text fallbacks of `_parse_course_content_html` and `_parse_multiple_courses_html`, and the name/teacher/classroom heuristics: portal-specific guesses; `ParseCourseContent` returns `None` where they would take over.
- Curriculum.ParseTimeInfo: the outer `except` branch, which gives `([1], '')`, is not modelled. Two inputs reach it. A piece that `isdigit()` accepts but `int()` rejects, such as `²`, raises outside the inner `except`; the model reads digits as ASCII only and skips such a piece. A range too large to build, such as `1-999999999999`, raises `MemoryError`; the model has no memory limit and expands it.
- Unicode digits and case folding: `isdigit`, `int()`, the regex `\d` (`re.findall` in `src/academic/achievement.py`) and `lower()` are modelled on ASCII (plus the KELVIN SIGN for `lower`); Python also accepts other Unicode digits.
- Strings.ParseInt: `int()`'s limit of 4300 digits (Python 3.11 and later) is not modelled; longer numerals are read.
- Floating-point `time.time()` and `strftime`: time is an integer number of seconds and the creation text is a parameter.
- The cookie jar's path handling and ordering: a cookie's place is its name and domain (cookies set from a saved map have none), the cookies a response sets are inputs with their domains already decided, and iteration follows insertion order rather than `http.cookiejar`'s sorted order.
- JSON values other than strings in the cookie file, config file and user info.
- `KeyboardInterrupt`/`EOF` in the prompts: `Interactive` ends with `None` when the answers run out; `sys.exit` is not modelled.
- The `save_env` answer's effect (`_show_env_instructions`) only prints text.
- `get_user_name`, `reset_session`, `clear_cached_credentials`, `get_database_config`, `get_redis_config`, `get_app_config`, `get_edu_urls`: not among the modelled operations.
- The singleton `Lock` and the shared module-level instances: concurrency is not modelled.
- File writes (`curriculum.json`, HTML dumps, `.env`): the model returns the data that would be written.
- Captcha recognition, the login module, the Tk UI, the database wrappers and the root-level duplicates of these files are not part of this model.
- CourseTable.ParseWeeks: it has no contract of its own; what it computes is stated by the lemma `ParseWeeksPieces`, which the round-trip lemmas use.
