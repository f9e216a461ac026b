# Omega Classroom bot — a Dafny model of its core

This project models the core of a Telegram bot that tracks homework
assignments held in GitHub repositories. It covers five parts:

- **Configuration** (`configuration.dfy`, module `Configuration`). The
  settings are read from an explicit environment map. The module models
  the defaults, the choice of database URL and the check that the required
  secrets are present.
- **Schema** (`database.dfy`, module `Database`). The persisted records are
  datatypes. The constraints the schema declares are predicates. The
  database is a `Store` class with one sequence per table, in insertion
  order. Its `Valid()` invariant gathers these constraints:
  - unique primary keys in every table;
  - unique chat ids and unique (user, repository) pairs;
  - every reference to a user names a user of the table;
  - every submission refers to an existing assignment.

  The `notifications.assignment_id` reference is not part of it (see
  "## Left out"). `GetOrCreateSettings` fetches or creates the settings
  singleton.
- **GitHub client** (`github_client.dfy`, module `GitHubClient`). This part
  parses a repository reference into `owner/name`, quirks included. It also
  shapes the commit list, the latest commit and the activity record. What
  GitHub answers is an explicit value (`GitHub`: repositories by full name
  and the user's own ones).
- **Command handlers** (`bot.dfy`, module `Bot`). The handlers are
  `/start`, `/register_token`, `/add_assignment`, `/assignments` and
  `/delete_assignment`. They are methods of `HomeworkTrackerBot`, which
  change the store and return the reply as a `Reply` value. Each method is
  proved against a specification function: `StartUsers`, `TokenUsers`,
  `AddDecision`, `ListingReply`, and `FirstMatch` with `SubmissionsWithout`.
  Lemmas state the rules the handlers promise about those functions.
- **Deadline reminders** (`notifications.dfy`, module `Notifications`).
  `NotificationService.CheckUpcomingDeadlines` is the pass that runs
  periodically. For every user it:
  1. looks up the user's own assignments whose deadline falls in the
     user's window;
  2. checks each against the notification log;
  3. sends and logs a reminder when one is due.

  Its nested loops are proved against the function `Pass`. The lemmas
  prove that the pass only sends due reminders, sends every due reminder,
  sends at most one reminder per (user, assignment) pair, and sends no
  reminder again within the period.

Helper modules:

- `Types`: `Option`, `Result` and `Instant`.
- `Text`: Python's `find`, `split`, `join`, `rstrip`/`lstrip`/`strip`, ASCII
  lower-casing, and integer rendering and parsing.
- `Time`: days and hours of a duration, and the `%Y-%m-%d %H:%M:%S UTC`
  rendering of an instant.

Time is an integer number of seconds, read as naive UTC. The code's
`datetime.utcnow()` is a `now` parameter.

## Model

| member | source | states |
|---|---|---|
| Configuration.IntSetting | app/config.py:45-46 | an integer setting is its default when absent, else what `int` makes of the text (`None` where `int` raises); `Text.ParseInt` is that `int`, described by the lemmas below |
| Configuration.Load | app/config.py:11-46 | the configuration exists exactly when both integer settings parse; each of the eight text settings is its environment value or its default; the two integer settings are the parsed values; a failure names the interval when it does not parse, otherwise the threshold |
| Configuration.LoadPaddedAndGrouped | app/config.py:45-46 | settings written ` 3600\n` and `4_8` load as 3600 and 48 |
| Configuration.PaddedSetting | app/config.py:45 | `int(" 3600\n")` is 3600 |
| Configuration.GroupedSetting | app/config.py:46 | `int("4_8")` is 48 |
| Configuration.LoadRejectsBadSetting | app/config.py:45 | an interval written `1h` makes loading fail, naming `NOTIFICATION_CHECK_INTERVAL` |
| Configuration.LoadDefaults | app/config.py:11-46 | an empty environment gives empty secrets, host `localhost`, port `5432`, name `omega_classroom`, user and password `postgres`, interval 3600 and threshold 24 |
| Configuration.LoadIntegerSettings | app/config.py:45-46 | integers given in the environment are read back as themselves (rendering then parsing an integer is the identity) |
| Configuration.GetDatabaseUrl | app/config.py:26-37 | a non-empty `DATABASE_URL` is returned verbatim; otherwise the PostgreSQL URL from the configured parts when `USE_POSTGRESQL` lower-cased is `true` or `DB_HOST` is non-empty; otherwise the SQLite URL |
| Configuration.PostgresUrlOfDefaults | app/config.py:19-35 | with the default user, password, port and name the URL is `postgresql://postgres:postgres@<host>:5432/omega_classroom` |
| Configuration.DatabaseUrlDefaultIsSqlite | app/config.py:33-37 | with no database settings the URL is `sqlite:///omega_classroom.db` |
| Configuration.DatabaseUrlFromHost | app/config.py:34-35 | setting only a non-empty `DB_HOST` selects PostgreSQL on that host with default credentials |
| Configuration.DatabaseUrlUsePostgres | app/config.py:34-35 | `USE_POSTGRESQL=TRUE` is accepted case-insensitively and the host defaults to `localhost` |
| Configuration.MissingNames | app/config.py:51-56 | a required name is listed exactly when its value is empty, and the names keep their declared order |
| Configuration.Validate | app/config.py:48-62 | succeeds with `True` exactly when both secrets are non-empty; otherwise fails with the missing names joined by `, ` |
| Configuration.ValidateBothMissing | app/config.py:51-58 | with both secrets empty the message names both, in order |
| Database.NewUser | app/database.py:15-26 | a new user has the given keys, role `student`, no token or login, and no per-user notification settings |
| Database.FreshId | app/database.py:15 | the next autoincrement key is positive and differs from every key present |
| Database.FindUser | app/bot.py:31 | the index of the first user with the chat id, and `None` exactly when no user has it |
| Database.FindSettings | app/database.py:156 | an index of a row with key 1, and `None` exactly when there is none |
| Database.DefaultSettings | app/database.py:150-153 | the defaulted row has key 1, the configured warning hours and the configured check interval |
| Database.SettingsOf | app/database.py:155-162 | the settings returned have key 1: the stored row when present, else the defaulted row |
| Database.SettingsRowsAfter | app/database.py:155-162 | after the call a row with key 1 is always present |
| Database.SettingsCreatedOnce | app/database.py:155-162 | a second call inserts nothing and returns the same row as the first |
| Database.OwnersExistKept | app/database.py:51-104 | a users table that keeps every key in place, and may grow, keeps every reference into it valid |
| Database.Store.constructor | app/database.py:127-130 | a new database is empty and satisfies every schema constraint |
| Database.Store.GetOrCreateSettings | app/database.py:155-162 | returns row 1; inserts the defaulted row only when it is absent, else changes nothing; the constraints keep holding |
| Text.SplitJoin | app/github_client.py:66 | joining the pieces of a split with the separator gives the text back |
| Text.SplitPiecesFree | app/github_client.py:66 | no piece of a split contains the separator |
| Text.SplitSingleIff | app/github_client.py:67 | a split has one piece exactly when the separator does not occur |
| Text.RStrip | app/github_client.py:61 | `rstrip` removes the longest suffix made of the given characters and keeps the rest as the front of the input |
| Text.RStripOfSuffix | app/github_client.py:61 | the result of `rstrip` is fixed by its properties: when `x` does not end in a stripped character, stripping `x + y` where `y` is all stripped characters gives `x` |
| Text.LStripOfPrefix | app/bot.py:237 | the leading side of `strip` likewise: stripping `x + y` where `x` is all stripped characters and `y` does not start with one gives `y` |
| Text.ParseIntOfIntToString | app/config.py:45-46 | `int` reads the decimal rendering of any integer back as that integer |
| Text.ParseIntIgnoresWhitespace | app/config.py:45-46 | `int` ignores whitespace (space, tab to carriage return) around the number: any integer's rendering between runs of it reads back as that integer |
| Text.ParseIntRejectsSeparatorChar | app/config.py:45-46 | on ASCII text the file separator U+001C is not whitespace to `int`: `"\x1c3600"` is rejected |
| Text.ParseIntSeparator | app/config.py:45-46 | `int` accepts one `_` between two digit groups and reads the number as if it were absent |
| Text.ParseIntRejectsNoNumber | app/config.py:45-46 | `int` rejects the empty text, whitespace alone, a lone sign and a sign followed by a space |
| Text.ParseIntRejectsUnderscores | app/config.py:45-46 | `int` rejects a doubled, a leading and a trailing `_` |
| Text.MagnitudeSeparator | app/config.py:45-46 | removing one `_` between digits does not change the digits' value |
| Text.TrimSpace | app/config.py:45-46 | the text `int` reads after stripping neither starts nor ends with whitespace (space, tab to carriage return) |
| Text.Strip | app/bot.py:237 | the result of `strip` neither starts nor ends with a stripped character |
| Time.CivilFromDaysRoundTrip | app/notifications.py:70 | the civil date `strftime` shows for a day number exists, and its day number under an independent Gregorian count (closed-form year starts and a cumulative month table) is that day |
| Time.CivilFromDaysOfDate | app/notifications.py:70 | conversely, every existing date is the civil date of its own day number |
| Time.DaysFromCivilInjective | app/notifications.py:70 | two existing dates with the same day number are the same date |
| Time.StampLayout | app/notifications.py:70 | in `%Y-%m-%d %H:%M:%S UTC` with a four-digit year, the month, day, hour, minute and second are two-digit fields at columns 5, 8, 11, 14 and 17, separated by `-`, `-`, a space, `:` and `:`, and the text ends in ` UTC` |
| Time.FormatUtc | app/notifications.py:70 | every rendering ends in ` UTC`; `FormatUtcReadsBack` and `FormatUtcOfFields` say what its fields are |
| Time.FormatUtcReadsBack | app/notifications.py:70 | for an instant in years 1 to 9999 the rendering is a 23-character `YYYY-MM-DD HH:MM:SS UTC` stamp whose digit fields name an existing date and a time of day that together count exactly the instant's seconds from 1970-01-01 |
| Time.FormatUtcOfFields | app/notifications.py:70 | the instant of any existing date and time of day in years 1 to 9999 renders with exactly those year, month, day, hour, minute and second |
| Time.FormatUtcEpoch | app/notifications.py:70 | the epoch renders as `1970-01-01 00:00:00 UTC` |
| Time.DaysHours | app/bot.py:183-186 | whole days and hours (under 24) of a duration: the duration lies between `d` days `h` hours and one hour later |
| GitHubClient.ParseRepoUrl | app/github_client.py:57-58 | a missing or empty reference gives `None`; `ParseRepoUrlOfHostSlash` and `ParseRepoUrlPlainPath` give the result for every other reference |
| GitHubClient.ParseRepoUrlOfHostSlash | app/github_client.py:64-72 | when the stripped text contains `github.com/`, the host branch always yields a name and that name is the result |
| GitHubClient.ParseRepoUrlNoneIff | app/github_client.py:57-78 | the result is `None` exactly when the input is missing or empty, or no `/` is left after `rstrip('.git')` |
| GitHubClient.ParseRepoUrlViaHost | app/github_client.py:64-72 | when the text mentions `github.com` and a name follows `github.com/`, that name is the result |
| GitHubClient.ParseRepoUrlOfUrl | app/github_client.py:61-72 | for `https://github.com/<rest>`, the result is the name made of the `/`-segments of the stripped `rest` |
| GitHubClient.ParseRepoUrlFullUrl | app/github_client.py:52-54 | `https://github.com/o/r`, with or without stripped trailing characters such as `.git`, gives `o/r` when `r` does not end in one of them |
| GitHubClient.ParseRepoUrlDeepPath | app/github_client.py:68-70 | deeper path below `github.com/o/r/` is dropped |
| GitHubClient.ParseRepoUrlSingleSegment | app/github_client.py:71-72 | a single segment after `github.com/` is returned as is, after the strip |
| GitHubClient.ParseRepoUrlBareHost | app/github_client.py:71-72 | `https://github.com/` gives the empty string rather than `None` |
| GitHubClient.ParseRepoUrlPlainPath | app/github_client.py:64-78 | when the stripped text does not contain `github.com/` (it may still mention `github.com`), it is returned when it has a `/`, else `None` |
| GitHubClient.ParseRepoUrlSshForm | app/github_client.py:61-78 | the SSH form `git@github.com:org/repo.git` mentions `github.com` but not `github.com/`, and is returned stripped as `git@github.com:org/repo` |
| GitHubClient.ParseRepoUrlExampleUrl | app/github_client.py:53 | `https://github.com/org/repo` gives `org/repo` |
| GitHubClient.ParseRepoUrlExampleGitUrl | app/github_client.py:54 | `https://github.com/org/repo.git` gives `org/repo` |
| GitHubClient.ParseRepoUrlExamplePath | app/github_client.py:55 | `org/repo` gives `org/repo` |
| GitHubClient.ParseRepoUrlStripsCharacters | app/github_client.py:61 | `rstrip('.git')` strips characters rather than the suffix: `org/digit` gives `org/d` |
| GitHubClient.Lookup | app/github_client.py:84-97 | the lookup succeeds exactly when the name is a known full name (it has a `/`) or one of the user's own repositories (it has none) |
| GitHubClient.GetRepositoryCommits | app/github_client.py:80-117 | no commits when the lookup fails; otherwise the first `min(10, n)` commits, each converted (author `Unknown` and no date when it has no author) |
| GitHubClient.GetLatestCommit | app/github_client.py:119-122 | the first commit when the repository exists and has any, else `None` |
| GitHubClient.GetRepositoryActivity | app/github_client.py:138-175 | on a failed lookup: does not exist, no commits, no URL; otherwise it exists, has commits exactly when a latest commit exists, and carries the update time and the URL |
| Notifications.ThresholdHours | app/notifications.py:27 | the per-user threshold when set (zero included), else the application setting |
| Notifications.PeriodSeconds | app/notifications.py:28 | the per-user period when set, else the application setting |
| Notifications.Upcoming | app/notifications.py:30-39 | exactly the user's own assignments whose deadline is after `now` and at most `now` plus the threshold in hours; unique keys stay unique |
| Notifications.LastWarningAtIsLatest | app/notifications.py:43-49 | the latest reminder time of a pair is the largest `sent_at` among its `deadline_warning` rows, and absent exactly when there is none |
| Notifications.LastWarningAtFrame | app/notifications.py:43-49 | rows about other pairs do not change a pair's latest reminder time |
| Notifications.DueIff | app/notifications.py:43-58 | a reminder is due exactly when every earlier reminder about the pair was sent at least the period before `now`, and so always when there is none |
| Notifications.RemainingLabel | app/notifications.py:62-65 | the label ends in `h` and shows a day count exactly when at least one whole day remains |
| Notifications.RemainingLabelShows | app/notifications.py:62-65 | the label shows the whole days and remaining whole hours of the time left, and omits the days when there are none |
| Notifications.RepositoryLabel | app/notifications.py:72 | the repository URL when it is set and non-empty, else the repository name (Python's `or`) |
| Notifications.ReminderMessage | app/notifications.py:67-73 | the reminder starts with the heading and the assignment's name and ends with the repository line |
| Notifications.NewWarning | app/notifications.py:80-85 | the row logged is a `deadline_warning` for the user and the assignment, with the rendered message, sent at `now`, unread, under a fresh key |
| Notifications.Step | app/notifications.py:51-89 | one row exactly when the reminder is due and its delivery succeeds, and that row is the reminder |
| Notifications.Sweep | app/notifications.py:41-89 | the loops append at most one row per candidate |
| Notifications.SweepSound | app/notifications.py:41-89 | every row the loops append is the reminder for one of the candidates that was due against the log before the loops |
| Notifications.SweepComplete | app/notifications.py:41-89 | every candidate that was due against the log before the loops, and whose delivery succeeds, gets its reminder |
| Notifications.SweepOncePerPair | app/notifications.py:41-60 | the loops append at most one row per (user, assignment) pair |
| Notifications.Candidates | app/notifications.py:25-39 | every candidate pairs a user of the table with an assignment of the table |
| Notifications.CandidatesInWindow | app/notifications.py:26-39 | every candidate pairs a user with one of that user's assignments in the window, with the user's period |
| Notifications.CandidatesCover | app/notifications.py:26-39 | every user's assignment in the window is a candidate |
| Notifications.CandidatesDistinct | app/notifications.py:26-41 | with unique keys no pair is a candidate twice |
| Notifications.Pass | app/notifications.py:17-89 | a pass appends at most one row per candidate |
| Notifications.PassSound | app/notifications.py:17-89 | every row of a pass is the reminder for a user's own assignment in the window, which was due before the pass and was delivered |
| Notifications.PassRowsOwned | app/notifications.py:80-85 | every row a pass writes is addressed to a user of the table |
| Notifications.PassComplete | app/notifications.py:17-89 | every user's assignment in the window that was due before the pass and is delivered gets its reminder |
| Notifications.PassOncePerPair | app/notifications.py:41-60 | a pass appends at most one reminder per pair |
| Notifications.NoResendWithinPeriod | app/notifications.py:51-60 | a second pass sooner than every user's period appends no reminder for a pair the first pass reminded about |
| Notifications.OneReminderThreeHoursAhead | app/notifications.py:17-89 | one user with one assignment three hours ahead, the default threshold and no earlier reminder: a delivered pass logs exactly one reminder, and its label is `3h` |
| Notifications.NotificationService.CheckUpcomingDeadlines | app/notifications.py:17-89 | the log becomes the old log followed by `Pass` of the old tables under the fetched or created settings; earlier rows are unchanged; the settings table changes as `get_or_create_settings` says; the constraints keep holding |
| Notifications.NotificationService.RemindAll | app/notifications.py:25-89 | the outer loop over the users appends exactly `Pass` for the given settings |
| Notifications.NotificationService.RemindUser | app/notifications.py:41-89 | the inner loop over one user's upcoming assignments appends exactly what the sweep of that user's candidates appends |
| Notifications.NotificationService.RemindOne | app/notifications.py:41-89 | one assignment appends exactly the row of `Step`: the reminder when due and delivered, else nothing |
| Notifications.NotificationService.ShouldSend | app/notifications.py:43-60 | the flag is set exactly when there is no earlier reminder about the pair or the period has passed since the latest one |
| Notifications.NotificationService.Record | app/notifications.py:80-87 | exactly the new reminder row is appended, and keys stay unique |
| Bot.AppendUserKeepsTables | app/bot.py:36-43 | a user appended under a fresh key and a new chat id keeps keys and chat ids unique and every reference to a user valid, and is the one found for its chat |
| Bot.StartUsers | app/bot.py:31-43 | afterwards a user has the chat id; an existing user leaves the table unchanged; otherwise exactly one defaulted user with a fresh key is appended; key and chat-id uniqueness are preserved |
| Bot.StartIdempotent | app/bot.py:31-43 | a repeated `/start` from the same chat changes nothing, whatever names it carries |
| Bot.StartOneUserPerChat | app/bot.py:31-43 | after `/start`, exactly one user has the chat id and every earlier user is unchanged in place |
| Bot.TokenUsers | app/bot.py:85-131 | nothing changes without arguments, with a rejected token or without a user; otherwise only that user's token and login change, to the token and the login GitHub reports |
| Bot.TokenUsersKeepsKeys | app/bot.py:113-116 | registering a token keeps keys and chat ids unique |
| Bot.ToUtc | app/bot.py:242-246 | a parsed time without an offset is taken as UTC; one with an offset is moved to UTC by that offset |
| Bot.DeadlineText | app/bot.py:234-237 | the deadline text neither starts nor ends with a quote |
| Bot.DeadlineTextUnquotes | app/bot.py:234-237 | a deadline argument written between double quotes loses exactly its quotes |
| Bot.AddDecision | app/bot.py:213-294 | an assignment is produced exactly when the user has a token, there are at least three arguments, the deadline parses, the link gives a non-empty name and the repository exists; the row is owned by the caller, with the parsed name, the repository URL and the UTC deadline |
| Bot.AddDecisionErrors | app/bot.py:247-275 | with a token and three arguments, the later rejections come in the handler's order: an unparsable deadline gives the invalid-deadline reply, then a link with no or an empty repository name gives the invalid-repository reply naming the link, then a repository GitHub does not find gives the not-found reply naming it |
| Bot.AppendAssignmentKeepsKeys | app/bot.py:286-294 | appending an assignment with a fresh key keeps keys unique and submissions' references valid |
| Bot.OwnedBy | app/bot.py:174-176 | exactly the user's assignments, each as often as in the table |
| Bot.InsertByDeadline | app/bot.py:174-176 | inserting into a deadline-ordered list keeps it ordered and adds exactly the one element |
| Bot.SortByDeadline | app/bot.py:174-176 | the result is in ascending deadline order and a permutation of the input |
| Bot.SavedListIsOwnedAndSorted | app/bot.py:174-176 | the saved list holds exactly the caller's assignments, in ascending deadline order |
| Bot.SavedLineOf | app/bot.py:180-192 | status `Past` exactly when the deadline has passed; a remaining time exactly when the deadline is ahead, as whole days and hours; the repository is the URL when set and non-empty, else the name |
| Bot.SavedLineAtDeadline | app/bot.py:181-183 | at the deadline itself the assignment is active and shows no remaining time |
| Bot.ClassroomSectionOf | app/bot.py:155-171 | a failed fetch gives the warning; an empty list gives nothing; otherwise at most ten entries numbered from 1, a description whose key is absent shown as `N/A`, and the count beyond ten exactly when there are more than ten |
| Bot.SavedLines | app/bot.py:179-192 | one line per saved assignment, in order |
| Bot.ListingReply | app/bot.py:195-201 | "no assignments" exactly when the classroom list is empty or failed and there are no saved assignments; otherwise the classroom section and the saved lines |
| Bot.BuildClassroomSection | app/bot.py:160-171 | the loop builds exactly the classroom section |
| Bot.BuildSavedLines | app/bot.py:178-192 | the loop builds exactly the saved lines |
| Bot.FirstMatch | app/bot.py:326-334 | one of the caller's assignments whose name contains the query ignoring ASCII case, with no earlier such assignment in table order, and `None` exactly when none does |
| Bot.SubmissionsWithout | app/database.py:53 | the submissions left are exactly those of other assignments |
| Bot.RemoveAtKeepsOthers | app/bot.py:347 | deleting one row keeps every other row, adds none, and with unique keys removes that key from the table |
| Bot.CascadeKeepsReferences | app/database.py:53 | after the delete and its cascade every remaining submission still refers to an existing assignment |
| Bot.SubmissionsWithoutUnique | app/database.py:59 | the cascade keeps the submissions' keys unique |
| Bot.DeleteKeepsOwners | app/bot.py:347 | the delete and its cascade keep every reference to a user valid |
| Bot.DeleteKeepsOtherOwners | app/bot.py:329-347 | a delete never removes another owner's assignment |
| Bot.HomeworkTrackerBot.Start | app/bot.py:23-66 | the users table becomes `StartUsers` of the old one; the welcome says whether the chat's user has a token; the constraints keep holding |
| Bot.HomeworkTrackerBot.RegisterToken | app/bot.py:81-131 | the users table becomes `TokenUsers` of the old one; the reply is the usage without arguments, "invalid token" for a rejected token, "start first" without a user, else the registered login |
| Bot.HomeworkTrackerBot.AddAssignment | app/bot.py:205-304 | without a user: "start first" and no change; otherwise the reply and the table follow `AddDecision`, with at most one row appended |
| Bot.HomeworkTrackerBot.ListAssignments | app/bot.py:133-203 | "start first" without a user, "register first" without a token, else `ListingReply` of the classroom result and the caller's assignments by deadline; nothing changes |
| Bot.HomeworkTrackerBot.DeleteAssignment | app/bot.py:306-354 | "start first" without a user, the usage without arguments, "not found" when nothing matches (no change); otherwise exactly the first match is removed with its submissions and the reply names it; the constraints keep holding |

## Left out

- Telegram transport, async plumbing and reply wording: replies are `Reply` values, and emoji and texts are not modelled. The reminder text is modelled (`ReminderMessage`), but the pass's properties are proved for any rendering function.
- The `/help` command: it only sends a fixed text.
- PyGithub calls: what GitHub answers is the `GitHub` value (a failed or raising lookup is a missing key). Token validation (`get_user().login`) is a map from token to login.
- `get_repository_commits` with `since`: the handlers never pass it.
- `check_repository_exists` and `get_classroom_assignments`: no modelled handler calls `check_repository_exists`. In `list_assignments` the classroom list is an input (`Result` of items or error text). In the program, `get_classroom_assignments` always ends in its exception handler, because the line that sets `repos` is commented out, so at run time the list is always empty.
- Bot.ListAssignments: a classroom item without a `name` or `url` key would raise inside the loop and replace the section by the warning. Items here always have both keys.
- The `dateutil` parser: it is a map from text to an optional offset and a wall-clock time. Only the UTC normalisation is modelled.
- Bot.FirstMatch: SQL `ilike` treats `%` and `_` in the query as wildcards. The model uses a plain ASCII case-insensitive substring test. `.first()` without `order_by` is taken in table order.
- Telegram's `context.args` is the message split on whitespace, so a quoted name with spaces arrives as several arguments. Arguments are given already split.
- Bot.SavedLineOf: the handler reads the clock up to three times, but the model uses one `now`.
- Notifications.NewWarning: `sent_at` is the pass's `now`, whereas the database default is the insert time, which is at least `now`.
- Floating point: `hours_until_deadline` is a float division. The model uses integer seconds, and the floor and remainder agree for the whole days and hours shown.
- SQL sessions, engine creation, `init_db`, the column migrations, the scheduler and the entry points (`main`, `setup_db`): these are I/O and wiring.
- `db.commit()` failures and rollbacks: every commit is taken to succeed.
- The user cascade (tracked repositories and classroom records deleted with their user; assignments and submissions not): no operation of the program deletes a user.
- `TrackedRepository` and `ClassroomAssignmentRecord` are declared only. Their key, uniqueness and owner constraints are part of `Valid()`, and no operation changes them.
- The `Notification.assignment_id` reference is not enforced after a delete, so `Valid()` does not require it. The model follows SQLite's default, where foreign keys are not checked: the delete leaves the reminder rows in place. On PostgreSQL the key (app/database.py:93) is checked and the assignment has no relationship to its notifications (app/database.py:35-53), so the commit at app/bot.py:348 raises an integrity error for an assignment that has a sent reminder. The handler then ends in its `finally` (app/bot.py:353-354) without a reply, and the assignment stays. The model does not capture that failure.
- Configuration.IntSetting: on ASCII text `int` skips only space and tab to carriage return, as the model does. On text with a non-ASCII character Python also treats Unicode whitespace (U+001C to U+001F included) as whitespace and accepts Unicode decimal digits. The model rejects all of these.
- Notifications.InWindow: instants are unbounded integers. Python's `datetime` covers years 1 to 9999 only, so with a huge threshold `now + timedelta(hours=threshold_hours)` (app/notifications.py:30) raises `OverflowError`, which ends the whole pass and skips the remaining users. The model has no such bound and computes the window for any threshold.
- Table order: `.all()` without `order_by` (app/notifications.py:25 and 33-39) and `.first()` are taken in insertion order, which is what SQLite usually returns but SQL does not promise.
- GitHubClient.GetRepositoryActivity: the latest commit is looked up again by name (app/github_client.py:167). The model assumes this second lookup sees the same repository as the first.
- `AppSettings` rows: the two integer columns are nullable (app/database.py:151-152). The model holds integers, so a row whose stored value is NULL is not represented; rows created by `get_or_create_settings` always carry the defaults.
- Bot.ClassroomSectionOf: a classroom item whose `description` key is present with the value `None` is shown as `None` by the program, because `.get` returns the stored value. The model's description is an `Option` of text, so it covers an absent key (shown as `N/A`) and a text value only.
- Time.FormatUtc: Python's `datetime` holds years 1 to 9999 only. The model also renders instants outside that range (a negative year with its sign), and its read-back lemmas cover years 1 to 9999 only.
- Database.FreshId: the key of a new row is one more than the largest present key (SQLite's rowid rule). Other databases may choose differently.

## Behaviour the model follows

- The listing orders saved assignments by deadline only (`order_by(Assignment.deadline)`, app/bot.py:174-176). Nothing breaks ties, so in the model equal deadlines keep table order. The deadline column is non-null, so every entry has a deadline.
- The listing shows only the assignments the user owns (app/bot.py:174-176). It has no student view through submissions and does not merge entries by external id.
- The reminder pass selects only the assignments the user owns (app/notifications.py:32-38). Assignments linked to the user through a submission are not considered.
