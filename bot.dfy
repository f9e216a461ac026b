/** The command handlers (app/bot.py) with the Telegram transport taken
    away: each handler works on the database and gives back what it would
    reply, as a value. The date parser and GitHub are explicit inputs. */
module Bot {
  import opened Types
  import Text
  import Time
  import opened Database
  import GitHubClient
  import Notifications

  /** The status of a saved assignment in the listing. */
  datatype Status = Past | Active

  /** One saved assignment as the listing shows it: the status, the name, the
      deadline, the whole days and hours left when the deadline is ahead, and
      the repository. */
  datatype SavedLine = SavedLine(status: Status, name: string, deadline: Instant,
                                 remaining: Option<(int, nat)>, repository: string)

  /** One classroom assignment as the client returns it; `description` is an
      optional key of the dictionary. */
  datatype ClassroomItem = ClassroomItem(name: string, url: string, description: Option<string>)

  /** One numbered classroom line of the listing. */
  datatype ClassroomLine = ClassroomLine(index: nat, name: string, url: string, description: string)

  /** The classroom part of the listing: nothing, the first entries with the
      count of those left out, or the warning that the fetch failed. */
  datatype ClassroomSection =
    | NoClassroom
    | Classroom(lines: seq<ClassroomLine>, more: Option<nat>)
    | FetchFailed(error: string)

  /** What a handler replies, without its wording. */
  datatype Reply =
    | Welcome(firstName: Option<string>, hasToken: bool)
    | TokenUsage
    | InvalidToken
    | TokenRegistered(githubUsername: string)
    | StartFirst
    | RegisterFirst
    | AddUsage
    | InvalidDeadline
    | InvalidRepository(link: string)
    | RepositoryNotFound(repoName: string)
    | AssignmentAdded(name: string, repoName: string, url: string, deadline: Instant)
    | Listing(classroom: ClassroomSection, saved: seq<SavedLine>)
    | NoAssignments
    | DeleteUsage
    | AssignmentNotFound(query: string)
    | AssignmentDeleted(name: string)

  /** `if not db_user.github_token`: a token that is missing or empty counts
      as none. */
  predicate HasToken(u: User)
  {
    u.githubToken.Some? && u.githubToken.value != ""
  }

  // ---------------------------------------------------------------- /start

  /** The users table after `/start` from `chatId`: unchanged when a user has
      that chat id, else with a new user for it at the end. */
  function StartUsers(users: seq<User>, chatId: int, username: Option<string>, firstName: Option<string>,
                      lastName: Option<string>, now: Instant): (r: seq<User>)
    ensures FindUser(r, chatId).Some?
    ensures FindUser(users, chatId).Some? ==> r == users
    ensures FindUser(users, chatId).None? ==>
      && |r| == |users| + 1 && r[..|users|] == users
      && r[|users|] == NewUser(FreshId(UserIds(users)), chatId, username, firstName, lastName, now)
    ensures UniqueUserIds(users) && UniqueTelegramIds(users) ==> UniqueUserIds(r) && UniqueTelegramIds(r)
  {
    if FindUser(users, chatId).Some? then users
    else
      var r := users + [NewUser(FreshId(UserIds(users)), chatId, username, firstName, lastName, now)];
      assert r[..|users|] == users;
      assert FindUser(r, chatId).Some? by { assert r[|users|].telegramId == chatId; }
      r
  }

  /** A second `/start` from the same chat changes nothing, whatever names
      it carries. */
  lemma StartIdempotent(users: seq<User>, chatId: int, username: Option<string>, firstName: Option<string>,
                        lastName: Option<string>, now: Instant, username2: Option<string>,
                        firstName2: Option<string>, lastName2: Option<string>, now2: Instant)
    ensures var once := StartUsers(users, chatId, username, firstName, lastName, now);
            StartUsers(once, chatId, username2, firstName2, lastName2, now2) == once
  {
  }

  /** With unique chat ids before, exactly one user has the chat id after
      `/start`, and every earlier user is still there, unchanged and in place. */
  lemma StartOneUserPerChat(users: seq<User>, chatId: int, username: Option<string>, firstName: Option<string>,
                            lastName: Option<string>, now: Instant)
    requires UniqueUserIds(users) && UniqueTelegramIds(users)
    ensures var r := StartUsers(users, chatId, username, firstName, lastName, now);
            && (exists j :: 0 <= j < |r| && r[j].telegramId == chatId)
            && (forall j, k :: 0 <= j < |r| && 0 <= k < |r| && r[j].telegramId == chatId && r[k].telegramId == chatId ==>
                  j == k)
            && (forall j :: 0 <= j < |users| ==> r[j] == users[j])
  {
    var r := StartUsers(users, chatId, username, firstName, lastName, now);
    var i := FindUser(r, chatId).value;
    assert r[i].telegramId == chatId;
    forall j | 0 <= j < |users| ensures r[j] == users[j] {
      if FindUser(users, chatId).None? { assert r[..|users|][j] == r[j]; }
    }
  }

  // ------------------------------------------------------- /register_token

  /** The users table after `/register_token`: when there is a token, GitHub
      accepts it and the chat has a user, that user gets the token and the
      login; otherwise nothing changes. `logins` is what `get_user().login`
      answers per token; a missing key is a token GitHub rejects. */
  function TokenUsers(users: seq<User>, chatId: int, args: seq<string>, logins: map<string, string>): (r: seq<User>)
    ensures args == [] || args[0] !in logins || FindUser(users, chatId).None? ==> r == users
    ensures |r| == |users|
    ensures forall j :: 0 <= j < |users| ==> r[j].id == users[j].id && r[j].telegramId == users[j].telegramId
    ensures forall j :: 0 <= j < |users| && users[j].telegramId != chatId ==> r[j] == users[j]
    ensures args != [] && args[0] in logins && FindUser(users, chatId).Some? ==>
      var i := FindUser(users, chatId).value;
      && r[i].githubToken == Some(args[0]) && r[i].githubUsername == Some(logins[args[0]])
      && r[i].(githubToken := users[i].githubToken, githubUsername := users[i].githubUsername) == users[i]
  {
    if args == [] || args[0] !in logins then users
    else
      match FindUser(users, chatId)
      case None => users
      case Some(i) =>
        users[i := users[i].(githubToken := Some(args[0]), githubUsername := Some(logins[args[0]]))]
  }

  /** Registering a token keeps the table's keys and chat ids, so its
      constraints hold as before. */
  lemma TokenUsersKeepsKeys(users: seq<User>, chatId: int, args: seq<string>, logins: map<string, string>)
    requires UniqueUserIds(users) && UniqueTelegramIds(users)
    ensures UniqueUserIds(TokenUsers(users, chatId, args, logins))
    ensures UniqueTelegramIds(TokenUsers(users, chatId, args, logins))
  {
    var r := TokenUsers(users, chatId, args, logins);
    forall i, j | 0 <= i < j < |r| ensures r[i].id != r[j].id && r[i].telegramId != r[j].telegramId {
      assert r[i].id == users[i].id && r[j].id == users[j].id;
      assert r[i].telegramId == users[i].telegramId && r[j].telegramId == users[j].telegramId;
    }
  }

  // ------------------------------------------------------- /add_assignment

  /** What `date_parser.parse` gives: a wall-clock time and, when the text
      names one, its offset from UTC in seconds. */
  datatype ParsedDateTime = ParsedDateTime(wallClock: Instant, offset: Option<int>)

  /** The parser's answers per text; a missing key is a text it rejects. */
  type DateParser = map<string, ParsedDateTime>

  /** The quotes stripped from both ends of the deadline text. */
  const Quotes: set<char> := {'"', '\''}

  /** The stored deadline: a time without an offset is taken as UTC, one
      with an offset is moved to UTC; the offset is then dropped. */
  function ToUtc(p: ParsedDateTime): (t: Instant)
    ensures p.offset.None? ==> t == p.wallClock
    ensures p.offset.Some? ==> t + p.offset.value == p.wallClock
  {
    match p.offset
    case None => p.wallClock
    case Some(off) => p.wallClock - off
  }

  /** `' '.join(args[2:]).strip('"\'')`. */
  function DeadlineText(args: seq<string>): (r: string)
    requires |args| >= 3
    ensures r == [] || (r[0] !in Quotes && r[|r| - 1] !in Quotes)
  {
    Text.Strip(Text.Join(args[2..], " "), Quotes)
  }

  /** A deadline written between double quotes as one argument loses exactly
      its quotes. */
  lemma DeadlineTextUnquotes(name: string, link: string, t: string)
    requires t != [] && t[0] !in Quotes && t[|t| - 1] !in Quotes
    ensures DeadlineText([name, link, "\"" + t + "\""]) == t
  {
    var args := [name, link, "\"" + t + "\""];
    assert args[2..] == ["\"" + t + "\""];
    var x := "\"" + t;
    assert x[|x| - 1] == t[|t| - 1];
    Text.RStripOfSuffix(x, "\"", Quotes);
    Text.LStripOfPrefix("\"", t, Quotes);
  }

  /** The decision `/add_assignment` takes for a user with the given
      arguments: the assignment to insert, or the reply that stops it. The
      checks come in the handler's order: the token, at least three
      arguments, a deadline the parser accepts, a non-empty repository name
      from the link, and a repository GitHub finds. */
  function AddDecision(user: User, args: seq<string>, parser: DateParser, gh: GitHubClient.GitHub,
                       now: Instant, newId: int): (r: Result<Assignment, Reply>)
    ensures r.Ok? <==>
      && HasToken(user) && |args| >= 3 && DeadlineText(args) in parser
      && GitHubClient.ParseRepoUrl(Some(args[1])).Some? && GitHubClient.ParseRepoUrl(Some(args[1])).value != ""
      && GitHubClient.Lookup(gh, GitHubClient.ParseRepoUrl(Some(args[1])).value).Some?
    ensures !HasToken(user) ==> r == Err(RegisterFirst)
    ensures HasToken(user) && |args| < 3 ==> r == Err(AddUsage)
    ensures r.Ok? ==>
      var repoName := GitHubClient.ParseRepoUrl(Some(args[1])).value;
      && r.value.id == newId && r.value.userId == Some(user.id) && r.value.name == args[0]
      && r.value.githubRepoName == repoName
      && r.value.githubRepoUrl == Some(GitHubClient.Lookup(gh, repoName).value.htmlUrl)
      && r.value.deadline == ToUtc(parser[DeadlineText(args)])
      && r.value.description.None? && r.value.classroomId.None? && r.value.classroomAssignmentId.None?
  {
    if !HasToken(user) then Err(RegisterFirst)
    else if |args| < 3 then Err(AddUsage)
    else if DeadlineText(args) !in parser then Err(InvalidDeadline)
    else
      var repoName := GitHubClient.ParseRepoUrl(Some(args[1]));
      if repoName.None? || repoName.value == "" then Err(InvalidRepository(args[1]))
      else
        match GitHubClient.Lookup(gh, repoName.value)
        case None => Err(RepositoryNotFound(repoName.value))
        case Some(repo) =>
          Ok(Assignment(newId, args[0], None, repoName.value, Some(repo.htmlUrl),
                        ToUtc(parser[DeadlineText(args)]), None, None, now, now, Some(user.id)))
  }

  /** The later rejections, in the handler's order: a deadline the parser
      rejects, then a link that gives no repository name, then a repository
      GitHub does not find. */
  lemma AddDecisionErrors(user: User, args: seq<string>, parser: DateParser, gh: GitHubClient.GitHub,
                          now: Instant, newId: int)
    requires HasToken(user) && |args| >= 3
    ensures DeadlineText(args) !in parser ==> AddDecision(user, args, parser, gh, now, newId) == Err(InvalidDeadline)
    ensures var name := GitHubClient.ParseRepoUrl(Some(args[1]));
            DeadlineText(args) in parser && (name.None? || name.value == "") ==>
              AddDecision(user, args, parser, gh, now, newId) == Err(InvalidRepository(args[1]))
    ensures var name := GitHubClient.ParseRepoUrl(Some(args[1]));
            DeadlineText(args) in parser && name.Some? && name.value != "" &&
            GitHubClient.Lookup(gh, name.value).None? ==>
              AddDecision(user, args, parser, gh, now, newId) == Err(RepositoryNotFound(name.value))
  {
  }

  /** Appending an assignment with a fresh key keeps the keys unique and
      every submission's assignment present. */
  lemma AppendAssignmentKeepsKeys(assignments: seq<Assignment>, submissions: seq<Submission>, a: Assignment)
    requires UniqueAssignmentIds(assignments) && SubmissionsReferToAssignments(submissions, assignments)
    requires forall j :: 0 <= j < |assignments| ==> assignments[j].id != a.id
    ensures UniqueAssignmentIds(assignments + [a])
    ensures SubmissionsReferToAssignments(submissions, assignments + [a])
  {
    var r := assignments + [a];
    forall k | 0 <= k < |submissions| ensures HasAssignment(r, submissions[k].assignmentId) {
      var j :| 0 <= j < |assignments| && assignments[j].id == submissions[k].assignmentId;
      assert r[j] == assignments[j];
    }
  }

  // --------------------------------------------------------- /assignments

  /** The assignments a user owns, in table order. */
  function OwnedBy(assignments: seq<Assignment>, uid: int): (r: seq<Assignment>)
    ensures forall a :: multiset(r)[a] == if a.userId == Some(uid) then multiset(assignments)[a] else 0
    decreases |assignments|
  {
    if assignments == [] then []
    else
      var init := assignments[..|assignments| - 1];
      var last := assignments[|assignments| - 1];
      assert assignments == init + [last];
      if last.userId == Some(uid) then OwnedBy(init, uid) + [last] else OwnedBy(init, uid)
  }

  predicate SortedByDeadline(xs: seq<Assignment>)
  {
    forall i, j :: 0 <= i < j < |xs| ==> xs[i].deadline <= xs[j].deadline
  }

  /** Inserting before the first later-or-equal deadline. */
  function InsertByDeadline(a: Assignment, xs: seq<Assignment>): (r: seq<Assignment>)
    requires SortedByDeadline(xs)
    ensures SortedByDeadline(r)
    ensures multiset(r) == multiset(xs) + multiset{a}
    ensures |r| == |xs| + 1 && (r[0] == a || (xs != [] && r[0] == xs[0]))
    decreases |xs|
  {
    if xs == [] || a.deadline <= xs[0].deadline then [a] + xs
    else
      var rest := InsertByDeadline(a, xs[1..]);
      assert xs == [xs[0]] + xs[1..];
      [xs[0]] + rest
  }

  /** `order_by(Assignment.deadline)`: ascending deadline; equal deadlines
      keep table order. */
  function SortByDeadline(xs: seq<Assignment>): (r: seq<Assignment>)
    ensures SortedByDeadline(r)
    ensures multiset(r) == multiset(xs)
    decreases |xs|
  {
    if xs == [] then []
    else
      assert xs == [xs[0]] + xs[1..];
      InsertByDeadline(xs[0], SortByDeadline(xs[1..]))
  }

  /** The saved list: exactly the user's assignments, each as often as in
      the table, in ascending deadline order. */
  lemma SavedListIsOwnedAndSorted(assignments: seq<Assignment>, uid: int)
    ensures SortedByDeadline(SortByDeadline(OwnedBy(assignments, uid)))
    ensures forall a :: a in SortByDeadline(OwnedBy(assignments, uid)) <==> a in assignments && a.userId == Some(uid)
  {
    var r := SortByDeadline(OwnedBy(assignments, uid));
    forall a ensures a in r <==> a in assignments && a.userId == Some(uid) {
      assert a in r <==> multiset(r)[a] > 0;
      assert a in assignments <==> multiset(assignments)[a] > 0;
    }
  }

  /** How a saved assignment is shown at `now`. */
  function SavedLineOf(a: Assignment, now: Instant): (l: SavedLine)
    ensures l.status == Past <==> a.deadline < now
    ensures l.remaining.Some? <==> a.deadline > now
    ensures l.remaining.Some? ==>
      var (d, h) := l.remaining.value;
      && d >= 0 && h < 24
      && d * Time.SecondsPerDay + h * Time.SecondsPerHour <= a.deadline - now
      && a.deadline - now < d * Time.SecondsPerDay + (h + 1) * Time.SecondsPerHour
    ensures l.name == a.name && l.deadline == a.deadline
    ensures l.repository == Notifications.RepositoryLabel(a)
  {
    SavedLine(if a.deadline < now then Past else Active, a.name, a.deadline,
              if a.deadline > now then Some(Time.DaysHours(a.deadline - now)) else None,
              Notifications.RepositoryLabel(a))
  }

  /** At the deadline itself an assignment is neither past nor shown with a
      remaining time. */
  lemma SavedLineAtDeadline(a: Assignment)
    ensures SavedLineOf(a, a.deadline).status == Active && SavedLineOf(a, a.deadline).remaining.None?
  {
  }

  /** The most classroom entries the listing shows. */
  const MaxClassroomLines := 10

  /** The classroom entry numbered `index`; a missing description reads `N/A`. */
  function ClassroomLineOf(index: nat, item: ClassroomItem): ClassroomLine
  {
    ClassroomLine(index, item.name, item.url, item.description.GetOr("N/A"))
  }

  /** The classroom part of the listing for what the fetch gave: the
      warning on a failure, nothing for an empty list, else the first ten
      entries numbered from 1 and the count of the rest. */
  function ClassroomSectionOf(classroom: Result<seq<ClassroomItem>, string>): (s: ClassroomSection)
    ensures classroom.Err? ==> s == FetchFailed(classroom.error)
    ensures classroom.Ok? && classroom.value == [] ==> s == NoClassroom
    ensures classroom.Ok? && classroom.value != [] ==>
      var items := classroom.value;
      && s.Classroom?
      && |s.lines| == GitHubClient.Min(MaxClassroomLines, |items|)
      && (forall k :: 0 <= k < |s.lines| ==> s.lines[k] == ClassroomLineOf(k + 1, items[k]))
      && (|items| > MaxClassroomLines ==> s.more == Some(|items| - MaxClassroomLines))
      && (|items| <= MaxClassroomLines ==> s.more.None?)
  {
    match classroom
    case Err(e) => FetchFailed(e)
    case Ok(items) =>
      if items == [] then NoClassroom
      else
        var shown := GitHubClient.Min(MaxClassroomLines, |items|);
        Classroom(seq(shown, k requires 0 <= k < shown => ClassroomLineOf(k + 1, items[k])),
                  if |items| > MaxClassroomLines then Some(|items| - MaxClassroomLines) else None)
  }

  /** The saved part of the listing: one line per saved assignment, in order. */
  function SavedLines(saved: seq<Assignment>, now: Instant): (ls: seq<SavedLine>)
    ensures |ls| == |saved| && forall k :: 0 <= k < |saved| ==> ls[k] == SavedLineOf(saved[k], now)
  {
    seq(|saved|, k requires 0 <= k < |saved| => SavedLineOf(saved[k], now))
  }

  /** The reply of `/assignments` for a user with a token, given what the
      classroom fetch gave and the saved list: "no assignments" exactly when
      neither part has an entry (a failed fetch counts as none). */
  function ListingReply(classroom: Result<seq<ClassroomItem>, string>, saved: seq<Assignment>, now: Instant): (r: Reply)
    ensures r == NoAssignments <==> (classroom.Err? || classroom.value == []) && saved == []
    ensures r != NoAssignments ==> r == Listing(ClassroomSectionOf(classroom), SavedLines(saved, now))
  {
    if (classroom.Err? || classroom.value == []) && saved == [] then NoAssignments
    else Listing(ClassroomSectionOf(classroom), SavedLines(saved, now))
  }

  /** The classroom part, built entry by entry as the handler's loop does. */
  method BuildClassroomSection(classroom: Result<seq<ClassroomItem>, string>) returns (section: ClassroomSection)
    ensures section == ClassroomSectionOf(classroom)
  {
    if classroom.Err? {
      return FetchFailed(classroom.error);
    }
    var items := classroom.value;
    if items == [] {
      return NoClassroom;
    }
    var shown := GitHubClient.Min(MaxClassroomLines, |items|);
    var lines: seq<ClassroomLine> := [];
    var i := 0;
    while i < shown
      invariant 0 <= i <= shown
      invariant |lines| == i && forall k :: 0 <= k < i ==> lines[k] == ClassroomLineOf(k + 1, items[k])
    {
      lines := lines + [ClassroomLineOf(i + 1, items[i])];
      i := i + 1;
    }
    section := Classroom(lines, if |items| > MaxClassroomLines then Some(|items| - MaxClassroomLines) else None);
  }

  /** The saved part, built line by line as the handler's loop does. */
  method BuildSavedLines(saved: seq<Assignment>, now: Instant) returns (lines: seq<SavedLine>)
    ensures lines == SavedLines(saved, now)
  {
    lines := [];
    var k := 0;
    while k < |saved|
      invariant 0 <= k <= |saved|
      invariant |lines| == k && forall j :: 0 <= j < k ==> lines[j] == SavedLineOf(saved[j], now)
    {
      lines := lines + [SavedLineOf(saved[k], now)];
      k := k + 1;
    }
  }

  // --------------------------------------------------- /delete_assignment

  /** The first of the user's assignments, in table order, whose name
      contains `query` ignoring ASCII case, from index `k` on. */
  function FirstMatchFrom(assignments: seq<Assignment>, uid: int, query: string, k: nat): (r: Option<nat>)
    requires k <= |assignments|
    ensures r.Some? ==> k <= r.value < |assignments| && assignments[r.value].userId == Some(uid)
    ensures r.Some? ==> Text.ContainsIgnoreCase(assignments[r.value].name, query)
    ensures r.Some? ==> forall j :: k <= j < r.value && assignments[j].userId == Some(uid) ==>
                          !Text.ContainsIgnoreCase(assignments[j].name, query)
    ensures r.None? ==> forall j :: k <= j < |assignments| && assignments[j].userId == Some(uid) ==>
                          !Text.ContainsIgnoreCase(assignments[j].name, query)
    decreases |assignments| - k
  {
    if k == |assignments| then None
    else if assignments[k].userId == Some(uid) && Text.ContainsIgnoreCase(assignments[k].name, query) then Some(k)
    else FirstMatchFrom(assignments, uid, query, k + 1)
  }

  /** The assignment `delete_assignment` picks. */
  function FirstMatch(assignments: seq<Assignment>, uid: int, query: string): (r: Option<nat>)
    ensures r.Some? ==> r.value < |assignments| && assignments[r.value].userId == Some(uid)
    ensures r.Some? ==> Text.ContainsIgnoreCase(assignments[r.value].name, query)
    ensures r.Some? ==> forall j :: 0 <= j < r.value && assignments[j].userId == Some(uid) ==>
                          !Text.ContainsIgnoreCase(assignments[j].name, query)
    ensures r.None? <==> forall j :: 0 <= j < |assignments| && assignments[j].userId == Some(uid) ==>
                           !Text.ContainsIgnoreCase(assignments[j].name, query)
  {
    FirstMatchFrom(assignments, uid, query, 0)
  }

  /** The submissions left when the assignment with key `aid` is deleted
      (the `delete-orphan` cascade), in table order. */
  function SubmissionsWithout(submissions: seq<Submission>, aid: int): (r: seq<Submission>)
    ensures forall s :: s in r <==> s in submissions && s.assignmentId != aid
    ensures |r| <= |submissions|
    decreases |submissions|
  {
    if submissions == [] then []
    else
      var init := submissions[..|submissions| - 1];
      var last := submissions[|submissions| - 1];
      assert submissions == init + [last];
      if last.assignmentId == aid then SubmissionsWithout(init, aid) else SubmissionsWithout(init, aid) + [last]
  }

  /** Deleting the row at `m` keeps every other row, and with unique keys
      drops that row's key from the table. */
  lemma RemoveAtKeepsOthers(assignments: seq<Assignment>, m: nat)
    requires m < |assignments|
    ensures var r := assignments[..m] + assignments[m + 1..];
            && |r| == |assignments| - 1
            && (forall k :: 0 <= k < |assignments| && k != m ==> assignments[k] in r)
            && (forall a :: a in r ==> a in assignments)
            && (UniqueAssignmentIds(assignments) ==>
                  UniqueAssignmentIds(r) && forall j :: 0 <= j < |r| ==> r[j].id != assignments[m].id)
  {
    var r := assignments[..m] + assignments[m + 1..];
    assert forall j :: 0 <= j < m ==> r[j] == assignments[j];
    assert forall j :: m <= j < |r| ==> r[j] == assignments[j + 1];
    forall k | 0 <= k < |assignments| && k != m ensures assignments[k] in r {
      if k < m { assert r[k] == assignments[k]; } else { assert r[k - 1] == assignments[k]; }
    }
  }

  /** Deleting one row of a table with unique keys leaves a table with
      unique keys. */
  lemma RemoveAtKeepsUnique(assignments: seq<Assignment>, m: nat)
    requires m < |assignments| && UniqueAssignmentIds(assignments)
    ensures UniqueAssignmentIds(assignments[..m] + assignments[m + 1..])
  {
    RemoveAtKeepsOthers(assignments, m);
  }

  /** After the delete with its cascade every submission left still has its
      assignment. */
  lemma CascadeKeepsReferences(assignments: seq<Assignment>, submissions: seq<Submission>, m: nat)
    requires m < |assignments|
    requires SubmissionsReferToAssignments(submissions, assignments)
    ensures SubmissionsReferToAssignments(SubmissionsWithout(submissions, assignments[m].id),
                                          assignments[..m] + assignments[m + 1..])
  {
    var r := assignments[..m] + assignments[m + 1..];
    var kept := SubmissionsWithout(submissions, assignments[m].id);
    RemoveAtKeepsOthers(assignments, m);
    forall k | 0 <= k < |kept| ensures HasAssignment(r, kept[k].assignmentId) {
      var s := kept[k];
      assert s in submissions;
      var i :| 0 <= i < |submissions| && submissions[i] == s;
      var j :| 0 <= j < |assignments| && assignments[j].id == s.assignmentId;
      assert j != m;
      assert assignments[j] in r;
      var t :| 0 <= t < |r| && r[t] == assignments[j];
    }
  }

  /** A user appended under a fresh key and a new chat keeps the users
      table's keys unique and every reference into it valid. */
  lemma AppendUserKeepsTables(users: seq<User>, u: User, assignments: seq<Assignment>,
                              submissions: seq<Submission>, repos: seq<TrackedRepository>,
                              log: seq<Notification>, records: seq<ClassroomAssignmentRecord>)
    requires UniqueUserIds(users) && UniqueTelegramIds(users)
    requires OwnersExist(users, assignments, submissions, repos, log, records)
    requires forall j :: 0 <= j < |users| ==> users[j].id != u.id && users[j].telegramId != u.telegramId
    ensures UniqueUserIds(users + [u]) && UniqueTelegramIds(users + [u])
    ensures OwnersExist(users + [u], assignments, submissions, repos, log, records)
    ensures FindUser(users + [u], u.telegramId) == Some(|users|)
  {
    var after := users + [u];
    assert after[|users|].telegramId == u.telegramId;
    assert KeepsUserKeys(users, after);
    OwnersExistKept(users, after, assignments, submissions, repos, log, records);
  }

  /** The cascade keeps the submissions' keys unique. */
  lemma {:induction false} SubmissionsWithoutUnique(submissions: seq<Submission>, aid: int)
    requires UniqueSubmissionIds(submissions)
    ensures UniqueSubmissionIds(SubmissionsWithout(submissions, aid))
    decreases |submissions|
  {
    if submissions != [] {
      var init := submissions[..|submissions| - 1];
      var last := submissions[|submissions| - 1];
      assert UniqueSubmissionIds(init) by {
        forall i, j | 0 <= i < j < |init| ensures init[i].id != init[j].id {
          assert init[i] == submissions[i] && init[j] == submissions[j];
        }
      }
      SubmissionsWithoutUnique(init, aid);
      var rest := SubmissionsWithout(init, aid);
      if last.assignmentId != aid {
        var r := rest + [last];
        forall i | 0 <= i < |rest| ensures rest[i].id != last.id {
          assert rest[i] in init;
          var k :| 0 <= k < |init| && init[k] == rest[i];
          assert submissions[k] == init[k];
        }
        forall i, j | 0 <= i < j < |r| ensures r[i].id != r[j].id {
          if j < |rest| { assert r[i] == rest[i] && r[j] == rest[j]; }
        }
      }
    }
  }

  /** The delete and its cascade keep every reference to a user valid. */
  lemma DeleteKeepsOwners(users: seq<User>, assignments: seq<Assignment>, submissions: seq<Submission>,
                          repos: seq<TrackedRepository>, log: seq<Notification>,
                          records: seq<ClassroomAssignmentRecord>, m: nat)
    requires m < |assignments|
    requires OwnersExist(users, assignments, submissions, repos, log, records)
    ensures OwnersExist(users, assignments[..m] + assignments[m + 1..],
                        SubmissionsWithout(submissions, assignments[m].id), repos, log, records)
  {
    var r := assignments[..m] + assignments[m + 1..];
    var kept := SubmissionsWithout(submissions, assignments[m].id);
    RemoveAtKeepsOthers(assignments, m);
    forall k | 0 <= k < |r| && r[k].userId.Some? ensures HasUser(users, r[k].userId.value) {
      assert r[k] in assignments;
    }
    forall k | 0 <= k < |kept| ensures HasUser(users, kept[k].userId) {
      assert kept[k] in submissions;
    }
  }

  /** A delete only ever removes one of the caller's own assignments: those
      of every other owner are all still there. */
  lemma DeleteKeepsOtherOwners(assignments: seq<Assignment>, uid: int, query: string)
    requires FirstMatch(assignments, uid, query).Some?
    ensures var m := FirstMatch(assignments, uid, query).value;
            forall k :: 0 <= k < |assignments| && assignments[k].userId != Some(uid) ==>
              assignments[k] in assignments[..m] + assignments[m + 1..]
  {
    RemoveAtKeepsOthers(assignments, FirstMatch(assignments, uid, query).value);
  }

  // ------------------------------------------------------------ handlers

  /** The bot's handlers on one database. */
  class HomeworkTrackerBot {
    const db: Store

    constructor (db: Store)
      ensures this.db == db
    {
      this.db := db;
    }

    /** `/start`: the chat's user is created when missing; the welcome says
        whether a token is registered. */
    method Start(chatId: int, username: Option<string>, firstName: Option<string>, lastName: Option<string>,
                 now: Instant) returns (reply: Reply)
      requires db.Valid()
      modifies db`users
      ensures db.Valid()
      ensures db.users == StartUsers(old(db.users), chatId, username, firstName, lastName, now)
      ensures reply == Welcome(firstName, HasToken(db.users[FindUser(db.users, chatId).value]))
    {
      var found := FindUser(db.users, chatId);
      var dbUser: User;
      if found.None? {
        dbUser := NewUser(FreshId(UserIds(db.users)), chatId, username, firstName, lastName, now);
        AppendUserKeepsTables(db.users, dbUser, db.assignments, db.submissions, db.trackedRepositories,
                              db.notifications, db.classroomRecords);
        db.users := db.users + [dbUser];
      } else {
        dbUser := db.users[found.value];
      }
      reply := Welcome(firstName, HasToken(dbUser));
    }

    /** `/register_token`: the token is checked with GitHub before the user
        is looked up; only a registered user with an accepted token is
        updated. */
    method RegisterToken(chatId: int, args: seq<string>, logins: map<string, string>) returns (reply: Reply)
      requires db.Valid()
      modifies db`users
      ensures db.Valid()
      ensures db.users == TokenUsers(old(db.users), chatId, args, logins)
      ensures args == [] ==> reply == TokenUsage
      ensures args != [] && args[0] !in logins ==> reply == InvalidToken
      ensures args != [] && args[0] in logins ==>
        reply == if FindUser(old(db.users), chatId).Some? then TokenRegistered(logins[args[0]]) else StartFirst
    {
      if args == [] {
        return TokenUsage;
      }
      var githubToken := args[0];
      if githubToken !in logins {
        return InvalidToken;
      }
      var githubUsername := logins[githubToken];
      var found := FindUser(db.users, chatId);
      if found.Some? {
        var i := found.value;
        TokenUsersKeepsKeys(db.users, chatId, args, logins);
        db.users := db.users[i := db.users[i].(githubToken := Some(githubToken), githubUsername := Some(githubUsername))];
        reply := TokenRegistered(githubUsername);
      } else {
        reply := StartFirst;
      }
    }

    /** `/add_assignment <name> <repo_link> <deadline...>`: at most one row is
        appended, owned by the caller, as `AddDecision` decides. */
    method AddAssignment(chatId: int, args: seq<string>, parser: DateParser, gh: GitHubClient.GitHub, now: Instant)
      returns (reply: Reply)
      requires db.Valid()
      modifies db`assignments
      ensures db.Valid()
      ensures FindUser(db.users, chatId).None? ==> reply == StartFirst && db.assignments == old(db.assignments)
      ensures FindUser(db.users, chatId).Some? ==>
        var d := AddDecision(db.users[FindUser(db.users, chatId).value], args, parser, gh, now,
                             FreshId(AssignmentIds(old(db.assignments))));
        && (d.Err? ==> reply == d.error && db.assignments == old(db.assignments))
        && (d.Ok? ==> db.assignments == old(db.assignments) + [d.value] &&
                      reply == AssignmentAdded(d.value.name, d.value.githubRepoName, d.value.githubRepoUrl.value,
                                               d.value.deadline))
    {
      var found := FindUser(db.users, chatId);
      if found.None? {
        return StartFirst;
      }
      var dbUser := db.users[found.value];
      if !HasToken(dbUser) {
        return RegisterFirst;
      }
      if |args| < 3 {
        return AddUsage;
      }
      var name := args[0];
      var repoLink := args[1];
      var deadlineStr := DeadlineText(args);
      if deadlineStr !in parser {
        return InvalidDeadline;
      }
      var deadline := ToUtc(parser[deadlineStr]);
      var repoName := GitHubClient.ParseRepoUrl(Some(repoLink));
      if repoName.None? || repoName.value == "" {
        return InvalidRepository(repoLink);
      }
      var repoInfo := GitHubClient.GetRepositoryActivity(gh, repoName.value);
      if !repoInfo.exists_ {
        return RepositoryNotFound(repoName.value);
      }
      var repoUrl := repoInfo.url.value;
      var assignment := Assignment(FreshId(AssignmentIds(db.assignments)), name, None, repoName.value, Some(repoUrl),
                                   deadline, None, None, now, now, Some(dbUser.id));
      AppendAssignmentKeepsKeys(db.assignments, db.submissions, assignment);
      db.assignments := db.assignments + [assignment];
      reply := AssignmentAdded(name, repoName.value, repoUrl, deadline);
    }

    /** `/assignments`: the classroom entries (at most ten) and the caller's
        saved assignments by deadline; nothing is changed. */
    method ListAssignments(chatId: int, classroom: Result<seq<ClassroomItem>, string>, now: Instant)
      returns (reply: Reply)
      ensures FindUser(db.users, chatId).None? ==> reply == StartFirst
      ensures FindUser(db.users, chatId).Some? ==>
        var user := db.users[FindUser(db.users, chatId).value];
        reply == if !HasToken(user) then RegisterFirst
                 else ListingReply(classroom, SortByDeadline(OwnedBy(db.assignments, user.id)), now)
    {
      var found := FindUser(db.users, chatId);
      if found.None? {
        return StartFirst;
      }
      var dbUser := db.users[found.value];
      if !HasToken(dbUser) {
        return RegisterFirst;
      }
      var section := BuildClassroomSection(classroom);
      var saved := SortByDeadline(OwnedBy(db.assignments, dbUser.id));
      var savedLines := BuildSavedLines(saved, now);
      if (classroom.Err? || classroom.value == []) && saved == [] {
        reply := NoAssignments;
      } else {
        reply := Listing(section, savedLines);
      }
    }

    /** `/delete_assignment <name...>`: the first of the caller's assignments
        whose name contains the words is deleted with its submissions. */
    method DeleteAssignment(chatId: int, args: seq<string>) returns (reply: Reply)
      requires db.Valid()
      modifies db`assignments, db`submissions
      ensures db.Valid()
      ensures FindUser(db.users, chatId).None? || args == [] ==>
        && reply == (if FindUser(db.users, chatId).None? then StartFirst else DeleteUsage)
        && db.assignments == old(db.assignments) && db.submissions == old(db.submissions)
      ensures FindUser(db.users, chatId).Some? && args != [] ==>
        var query := Text.Join(args, " ");
        var m := FirstMatch(old(db.assignments), db.users[FindUser(db.users, chatId).value].id, query);
        && (m.None? ==> reply == AssignmentNotFound(query) &&
                        db.assignments == old(db.assignments) && db.submissions == old(db.submissions))
        && (m.Some? ==>
              && reply == AssignmentDeleted(old(db.assignments)[m.value].name)
              && db.assignments == old(db.assignments)[..m.value] + old(db.assignments)[m.value + 1..]
              && db.submissions == SubmissionsWithout(old(db.submissions), old(db.assignments)[m.value].id))
    {
      var found := FindUser(db.users, chatId);
      if found.None? {
        return StartFirst;
      }
      var dbUser := db.users[found.value];
      if args == [] {
        return DeleteUsage;
      }
      var assignmentName := Text.Join(args, " ");
      var match_ := FirstMatch(db.assignments, dbUser.id, assignmentName);
      if match_.None? {
        return AssignmentNotFound(assignmentName);
      }
      var m := match_.value;
      var deletedName := db.assignments[m].name;
      var rest := db.assignments[..m] + db.assignments[m + 1..];
      var kept := SubmissionsWithout(db.submissions, db.assignments[m].id);
      RemoveAtKeepsUnique(db.assignments, m);
      CascadeKeepsReferences(db.assignments, db.submissions, m);
      SubmissionsWithoutUnique(db.submissions, db.assignments[m].id);
      DeleteKeepsOwners(db.users, db.assignments, db.submissions, db.trackedRepositories, db.notifications,
                        db.classroomRecords, m);
      db.submissions := kept;
      db.assignments := rest;
      reply := AssignmentDeleted(deletedName);
    }
  }
}
