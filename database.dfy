/** The persisted records (app/database.py) as datatypes, the constraints the
    schema declares on them, and the store the handlers work on: one
    sequence per table, in insertion order. */
module Database {
  import opened Types
  import Configuration

  /** A chat user (table `users`). The two notify fields are per-user overrides;
      `None` means "use the application setting". */
  datatype User = User(
    id: int,
    telegramId: int,
    username: Option<string>,
    firstName: Option<string>,
    lastName: Option<string>,
    githubUsername: Option<string>,
    githubToken: Option<string>,
    role: string,
    notifyThresholdHours: Option<int>,
    notifyPeriodSeconds: Option<int>,
    createdAt: Instant)

  /** The column default of `users.role`. */
  const DefaultRole := "student"

  /** A tracked assignment (table `assignments`); `deadline` is naive UTC and
      mandatory, like `githubRepoName`. `userId` is the owner, a nullable key. */
  datatype Assignment = Assignment(
    id: int,
    name: string,
    description: Option<string>,
    githubRepoName: string,
    githubRepoUrl: Option<string>,
    deadline: Instant,
    classroomId: Option<string>,
    classroomAssignmentId: Option<string>,
    createdAt: Instant,
    updatedAt: Instant,
    userId: Option<int>)

  /** A student's link to an assignment (table `submissions`). */
  datatype Submission = Submission(
    id: int,
    assignmentId: int,
    userId: int,
    githubRepoUrl: Option<string>,
    lastCommitSha: Option<string>,
    lastCommitDate: Option<Instant>,
    isSubmitted: bool,
    submittedAt: Option<Instant>,
    createdAt: Instant,
    updatedAt: Instant)

  /** A repository a user follows for CI status (table `tracked_repositories`). */
  datatype TrackedRepository = TrackedRepository(
    id: int,
    userId: int,
    repoFullName: string,
    repoUrl: Option<string>,
    createdAt: Instant)

  /** An audit row of a message sent (table `notifications`). */
  datatype Notification = Notification(
    id: int,
    userId: int,
    assignmentId: Option<int>,
    notificationType: string,
    message: string,
    sentAt: Instant,
    isRead: bool)

  /** A cached classroom snapshot row (table `classroom_assignment_records`). */
  datatype ClassroomAssignmentRecord = ClassroomAssignmentRecord(
    id: int,
    teacherUserId: int,
    classroomId: Option<string>,
    classroomName: Option<string>,
    assignmentId: Option<string>,
    assignmentTitle: Option<string>,
    assignmentUrl: Option<string>,
    deadline: Option<Instant>,
    studentLogin: Option<string>,
    studentDisplayLogin: Option<string>,
    studentRepoUrl: Option<string>,
    submitted: Option<bool>,
    passed: Option<bool>,
    grade: Option<string>,
    commitCount: Option<int>,
    rawJson: Option<string>,
    fetchedAt: Instant)

  /** The application-wide notification defaults (table `app_settings`). */
  datatype AppSettings = AppSettings(
    id: int,
    notifyThresholdHours: int,
    notifyPeriodSeconds: int,
    updatedAt: Instant)

  /** The primary key of the settings singleton. */
  const SettingsId := 1

  /** A new `users` row as `start` creates it: the column defaults apply. */
  function NewUser(id: int, telegramId: int, username: Option<string>, firstName: Option<string>,
                   lastName: Option<string>, now: Instant): (u: User)
    ensures u.id == id && u.telegramId == telegramId
    ensures u.role == DefaultRole
    ensures u.githubToken.None? && u.githubUsername.None?
    ensures u.notifyThresholdHours.None? && u.notifyPeriodSeconds.None?
  {
    User(id, telegramId, username, firstName, lastName, None, None, DefaultRole, None, None, now)
  }

  /** The largest of some non-negative keys, or 0. */
  function MaxId(ids: seq<int>): (m: int)
    ensures m >= 0 && forall i :: 0 <= i < |ids| ==> ids[i] <= m
  {
    if ids == [] then 0
    else
      var rest := MaxId(ids[..|ids| - 1]);
      if ids[|ids| - 1] > rest then ids[|ids| - 1] else rest
  }

  /** The key an autoincrement column gives the next row: one past the largest
      key present (SQLite's rule for a rowid key). */
  function FreshId(ids: seq<int>): (r: int)
    ensures r >= 1 && forall i :: 0 <= i < |ids| ==> ids[i] != r
  {
    MaxId(ids) + 1
  }

  /** The keys of a table's rows, in table order. */
  function Keys<T>(rows: seq<T>, key: T -> int): (ids: seq<int>)
    ensures |ids| == |rows| && forall i :: 0 <= i < |rows| ==> ids[i] == key(rows[i])
  {
    seq(|rows|, i requires 0 <= i < |rows| => key(rows[i]))
  }

  function UserIds(users: seq<User>): (ids: seq<int>)
    ensures |ids| == |users| && forall i :: 0 <= i < |users| ==> ids[i] == users[i].id
  {
    Keys(users, (u: User) => u.id)
  }

  function AssignmentIds(assignments: seq<Assignment>): (ids: seq<int>)
    ensures |ids| == |assignments| && forall i :: 0 <= i < |assignments| ==> ids[i] == assignments[i].id
  {
    Keys(assignments, (a: Assignment) => a.id)
  }

  function NotificationIds(log: seq<Notification>): (ids: seq<int>)
    ensures |ids| == |log| && forall i :: 0 <= i < |log| ==> ids[i] == log[i].id
  {
    Keys(log, (n: Notification) => n.id)
  }

  predicate UniqueUserIds(users: seq<User>)
  {
    forall i, j :: 0 <= i < j < |users| ==> users[i].id != users[j].id
  }

  /** `users.telegram_id` is unique. */
  predicate UniqueTelegramIds(users: seq<User>)
  {
    forall i, j :: 0 <= i < j < |users| ==> users[i].telegramId != users[j].telegramId
  }

  predicate UniqueAssignmentIds(assignments: seq<Assignment>)
  {
    forall i, j :: 0 <= i < j < |assignments| ==> assignments[i].id != assignments[j].id
  }

  predicate UniqueNotificationIds(log: seq<Notification>)
  {
    forall i, j :: 0 <= i < j < |log| ==> log[i].id != log[j].id
  }

  predicate UniqueSubmissionIds(submissions: seq<Submission>)
  {
    forall i, j :: 0 <= i < j < |submissions| ==> submissions[i].id != submissions[j].id
  }

  predicate UniqueTrackedIds(repos: seq<TrackedRepository>)
  {
    forall i, j :: 0 <= i < j < |repos| ==> repos[i].id != repos[j].id
  }

  predicate UniqueRecordIds(records: seq<ClassroomAssignmentRecord>)
  {
    forall i, j :: 0 <= i < j < |records| ==> records[i].id != records[j].id
  }

  predicate HasUser(users: seq<User>, id: int)
  {
    exists j | 0 <= j < |users| :: users[j].id == id
  }

  /** Every key into `users` that the other tables hold names a user:
      `assignments.user_id` (nullable), `submissions.user_id`,
      `tracked_repositories.user_id`, `notifications.user_id` and
      `classroom_assignment_records.teacher_user_id`. */
  predicate OwnersExist(users: seq<User>, assignments: seq<Assignment>, submissions: seq<Submission>,
                        repos: seq<TrackedRepository>, log: seq<Notification>,
                        records: seq<ClassroomAssignmentRecord>)
  {
    && (forall k :: 0 <= k < |assignments| && assignments[k].userId.Some? ==>
          HasUser(users, assignments[k].userId.value))
    && (forall k :: 0 <= k < |submissions| ==> HasUser(users, submissions[k].userId))
    && (forall k :: 0 <= k < |repos| ==> HasUser(users, repos[k].userId))
    && (forall k :: 0 <= k < |log| ==> HasUser(users, log[k].userId))
    && (forall k :: 0 <= k < |records| ==> HasUser(users, records[k].teacherUserId))
  }

  /** `after` keeps the keys of `before` in place, and may add rows. */
  predicate KeepsUserKeys(before: seq<User>, after: seq<User>)
  {
    |before| <= |after| && forall i :: 0 <= i < |before| ==> after[i].id == before[i].id
  }

  /** A users table that keeps every key keeps every reference into it valid. */
  lemma OwnersExistKept(users: seq<User>, users': seq<User>, assignments: seq<Assignment>,
                        submissions: seq<Submission>, repos: seq<TrackedRepository>, log: seq<Notification>,
                        records: seq<ClassroomAssignmentRecord>)
    requires OwnersExist(users, assignments, submissions, repos, log, records)
    requires KeepsUserKeys(users, users')
    ensures OwnersExist(users', assignments, submissions, repos, log, records)
  {
    forall id | HasUser(users, id) ensures HasUser(users', id) {
      var j :| 0 <= j < |users| && users[j].id == id;
      assert users'[j].id == id;
    }
  }

  predicate HasAssignment(assignments: seq<Assignment>, id: int)
  {
    exists j | 0 <= j < |assignments| :: assignments[j].id == id
  }

  /** `submissions.assignment_id` is a non-null key into `assignments`. */
  predicate SubmissionsReferToAssignments(submissions: seq<Submission>, assignments: seq<Assignment>)
  {
    forall k :: 0 <= k < |submissions| ==> HasAssignment(assignments, submissions[k].assignmentId)
  }

  /** The `uq_user_repo` constraint: one row per (user, repository). */
  predicate UniqueTrackedPairs(repos: seq<TrackedRepository>)
  {
    forall i, j :: 0 <= i < j < |repos| ==>
      repos[i].userId != repos[j].userId || repos[i].repoFullName != repos[j].repoFullName
  }

  predicate UniqueSettingsIds(rows: seq<AppSettings>)
  {
    forall i, j :: 0 <= i < j < |rows| ==> rows[i].id != rows[j].id
  }

  /** The first user whose chat id is `chatId`, from index `k` on
      (`query(User).filter(User.telegram_id == chat_id).first()`). */
  function FindUserFrom(users: seq<User>, chatId: int, k: nat): (r: Option<nat>)
    requires k <= |users|
    ensures r.Some? ==> k <= r.value < |users| && users[r.value].telegramId == chatId
    ensures r.Some? ==> forall j :: k <= j < r.value ==> users[j].telegramId != chatId
    ensures r.None? ==> forall j :: k <= j < |users| ==> users[j].telegramId != chatId
    decreases |users| - k
  {
    if k == |users| then None
    else if users[k].telegramId == chatId then Some(k)
    else FindUserFrom(users, chatId, k + 1)
  }

  /** The index of the user with chat id `chatId`, if there is one. */
  function FindUser(users: seq<User>, chatId: int): (r: Option<nat>)
    ensures r.Some? ==> r.value < |users| && users[r.value].telegramId == chatId
    ensures r.Some? ==> forall j :: 0 <= j < r.value ==> users[j].telegramId != chatId
    ensures r.None? <==> forall j :: 0 <= j < |users| ==> users[j].telegramId != chatId
  {
    FindUserFrom(users, chatId, 0)
  }

  /** The index of the settings row with primary key 1 (`query(AppSettings).get(1)`). */
  function FindSettings(rows: seq<AppSettings>): (r: Option<nat>)
    ensures r.Some? ==> r.value < |rows| && rows[r.value].id == SettingsId
    ensures r.None? <==> forall j :: 0 <= j < |rows| ==> rows[j].id != SettingsId
    decreases |rows|
  {
    if rows == [] then None
    else if rows[|rows| - 1].id == SettingsId then Some(|rows| - 1)
    else FindSettings(rows[..|rows| - 1])
  }

  /** The row `AppSettings(id=1)` gets from its column defaults. */
  function DefaultSettings(cfg: Configuration.Config, now: Instant): (s: AppSettings)
    ensures s.id == SettingsId
    ensures s.notifyThresholdHours == cfg.deadlineWarningHours
    ensures s.notifyPeriodSeconds == cfg.notificationCheckInterval
  {
    AppSettings(SettingsId, cfg.deadlineWarningHours, cfg.notificationCheckInterval, now)
  }

  /** The settings row `get_or_create_settings` returns: the stored row 1, or
      a defaulted one. */
  function SettingsOf(rows: seq<AppSettings>, cfg: Configuration.Config, now: Instant): (s: AppSettings)
    ensures s.id == SettingsId
    ensures FindSettings(rows).Some? ==> s in rows
    ensures FindSettings(rows).None? ==> s == DefaultSettings(cfg, now)
  {
    match FindSettings(rows)
    case Some(i) => rows[i]
    case None => DefaultSettings(cfg, now)
  }

  /** The settings table after `get_or_create_settings`. */
  function SettingsRowsAfter(rows: seq<AppSettings>, cfg: Configuration.Config, now: Instant): (r: seq<AppSettings>)
    ensures FindSettings(r).Some?
  {
    if FindSettings(rows).Some? then rows
    else
      var r := rows + [DefaultSettings(cfg, now)];
      assert r[|r| - 1].id == SettingsId;
      r
  }

  /** A second `get_or_create_settings`, at any later time, inserts nothing
      and returns the row the first one returned. */
  lemma SettingsCreatedOnce(rows: seq<AppSettings>, cfg: Configuration.Config, now: Instant, later: Instant)
    ensures var once := SettingsRowsAfter(rows, cfg, now);
            && SettingsRowsAfter(once, cfg, later) == once
            && SettingsOf(once, cfg, later) == SettingsOf(rows, cfg, now)
  {
    if FindSettings(rows).None? {
      var once := rows + [DefaultSettings(cfg, now)];
      assert FindSettings(once) == Some(|rows|);
    }
  }

  /** The database: one sequence per table, in insertion order. */
  class Store {
    var users: seq<User>
    var assignments: seq<Assignment>
    var submissions: seq<Submission>
    var trackedRepositories: seq<TrackedRepository>
    var notifications: seq<Notification>
    var classroomRecords: seq<ClassroomAssignmentRecord>
    var appSettings: seq<AppSettings>

    /** The schema's key, uniqueness and foreign-key constraints. */
    ghost predicate Valid()
      reads this
    {
      && UniqueUserIds(users)
      && UniqueTelegramIds(users)
      && UniqueAssignmentIds(assignments)
      && SubmissionsReferToAssignments(submissions, assignments)
      && UniqueSubmissionIds(submissions)
      && UniqueTrackedIds(trackedRepositories)
      && UniqueTrackedPairs(trackedRepositories)
      && UniqueNotificationIds(notifications)
      && UniqueRecordIds(classroomRecords)
      && UniqueSettingsIds(appSettings)
      && OwnersExist(users, assignments, submissions, trackedRepositories, notifications, classroomRecords)
    }

    /** A freshly created, empty database. */
    constructor ()
      ensures Valid()
      ensures users == [] && assignments == [] && submissions == [] && trackedRepositories == []
      ensures notifications == [] && classroomRecords == [] && appSettings == []
    {
      users, assignments, submissions, trackedRepositories := [], [], [], [];
      notifications, classroomRecords, appSettings := [], [], [];
    }

    /** `get_or_create_settings`: row 1, inserted with the configured defaults
        when absent; when present nothing changes. */
    method GetOrCreateSettings(cfg: Configuration.Config, now: Instant) returns (s: AppSettings)
      requires Valid()
      modifies this`appSettings
      ensures Valid()
      ensures s == SettingsOf(old(appSettings), cfg, now)
      ensures s.id == SettingsId && s in appSettings
      ensures FindSettings(old(appSettings)).Some? ==> appSettings == old(appSettings)
      ensures FindSettings(old(appSettings)).None? ==> appSettings == old(appSettings) + [DefaultSettings(cfg, now)]
      ensures appSettings == SettingsRowsAfter(old(appSettings), cfg, now)
    {
      var found := FindSettings(appSettings);
      if found.Some? {
        s := appSettings[found.value];
      } else {
        s := DefaultSettings(cfg, now);
        appSettings := appSettings + [s];
      }
    }
  }
}
