/** The deadline-reminder pass (app/notifications.py): for every user, the
    user's own assignments due within the user's threshold are looked up
    against the notification log, and a reminder is sent and logged for each
    one that is due. Sending is an oracle that succeeds or fails per
    (user, assignment). */
module Notifications {
  import opened Types
  import Text
  import Time
  import Configuration
  import opened Database

  /** The `notification_type` of a reminder row. */
  const DeadlineWarning := "deadline_warning"

  /** Whether sending the reminder to the user succeeds (`send_message` returns
      rather than raising). */
  type Delivery = (User, Assignment) -> bool

  /** Sending the reminder about `a` to `u` succeeds. */
  predicate Delivers(delivered: Delivery, u: User, a: Assignment)
  {
    delivered(u, a)
  }

  /** The warning threshold of a user: the per-user override when it is set
      (zero included), else the application setting. */
  function ThresholdHours(u: User, s: AppSettings): (h: int)
    ensures u.notifyThresholdHours.Some? ==> h == u.notifyThresholdHours.value
    ensures u.notifyThresholdHours.None? ==> h == s.notifyThresholdHours
  {
    u.notifyThresholdHours.GetOr(s.notifyThresholdHours)
  }

  /** The minimum time between two reminders for one assignment, resolved like
      the threshold. */
  function PeriodSeconds(u: User, s: AppSettings): (p: int)
    ensures u.notifyPeriodSeconds.Some? ==> p == u.notifyPeriodSeconds.value
    ensures u.notifyPeriodSeconds.None? ==> p == s.notifyPeriodSeconds
  {
    u.notifyPeriodSeconds.GetOr(s.notifyPeriodSeconds)
  }

  /** The `upcoming` filter: the assignment belongs to the user and its
      deadline is in `(now, now + threshold hours]`. */
  predicate InWindow(a: Assignment, u: User, now: Instant, thresholdHours: int)
  {
    a.userId == Some(u.id) && now < a.deadline <= now + thresholdHours * Time.SecondsPerHour
  }

  /** The user's upcoming assignments, in table order. */
  function Upcoming(assignments: seq<Assignment>, u: User, now: Instant, thresholdHours: int): (r: seq<Assignment>)
    ensures forall k :: 0 <= k < |r| ==> r[k] in assignments && InWindow(r[k], u, now, thresholdHours)
    ensures forall j :: 0 <= j < |assignments| && InWindow(assignments[j], u, now, thresholdHours) ==>
              assignments[j] in r
    ensures UniqueAssignmentIds(assignments) ==> UniqueAssignmentIds(r)
    decreases |assignments|
  {
    if assignments == [] then []
    else
      var prefix := assignments[..|assignments| - 1];
      var last := assignments[|assignments| - 1];
      var rest := Upcoming(prefix, u, now, thresholdHours);
      assert forall k :: 0 <= k < |rest| ==> rest[k] in assignments by {
        forall k | 0 <= k < |rest| ensures rest[k] in assignments {
          var j :| 0 <= j < |prefix| && prefix[j] == rest[k];
          assert assignments[j] == rest[k];
        }
      }
      assert forall j :: 0 <= j < |prefix| ==> prefix[j] == assignments[j];
      if InWindow(last, u, now, thresholdHours) then rest + [last] else rest
  }

  /** A row is a reminder about assignment `aid` for user `uid`. */
  predicate IsWarningFor(n: Notification, uid: int, aid: int)
  {
    n.userId == uid && n.assignmentId == Some(aid) && n.notificationType == DeadlineWarning
  }

  /** The log holds no reminder about `aid` for `uid`. */
  predicate NoWarningFor(log: seq<Notification>, uid: int, aid: int)
  {
    forall k :: 0 <= k < |log| ==> !IsWarningFor(log[k], uid, aid)
  }

  /** The time of the latest reminder about `aid` for `uid`, if any (the
      `sent_at` of the first row in descending `sent_at` order). */
  function LastWarningAt(log: seq<Notification>, uid: int, aid: int): Option<Instant>
    decreases |log|
  {
    if log == [] then None
    else
      var n := log[|log| - 1];
      var prev := LastWarningAt(log[..|log| - 1], uid, aid);
      if !IsWarningFor(n, uid, aid) then prev
      else if prev.Some? && prev.value >= n.sentAt then prev
      else Some(n.sentAt)
  }

  /** `LastWarningAt` is the largest `sent_at` among the reminders about the
      pair, and absent exactly when there is none. */
  lemma {:induction false} LastWarningAtIsLatest(log: seq<Notification>, uid: int, aid: int)
    ensures LastWarningAt(log, uid, aid).None? <==> NoWarningFor(log, uid, aid)
    ensures LastWarningAt(log, uid, aid).Some? ==>
      exists k :: 0 <= k < |log| && IsWarningFor(log[k], uid, aid) && log[k].sentAt == LastWarningAt(log, uid, aid).value
    ensures LastWarningAt(log, uid, aid).Some? ==>
      forall k :: 0 <= k < |log| && IsWarningFor(log[k], uid, aid) ==> log[k].sentAt <= LastWarningAt(log, uid, aid).value
    decreases |log|
  {
    if log != [] {
      var prefix := log[..|log| - 1];
      LastWarningAtIsLatest(prefix, uid, aid);
      assert forall k :: 0 <= k < |prefix| ==> prefix[k] == log[k];
      var prev := LastWarningAt(prefix, uid, aid);
      var t := LastWarningAt(log, uid, aid);
      if t.Some? && (prev.None? || t != prev) {
        assert log[|log| - 1].sentAt == t.value;
      }
      if t.Some? && prev.Some? && t == prev {
        var k :| 0 <= k < |prefix| && IsWarningFor(prefix[k], uid, aid) && prefix[k].sentAt == prev.value;
        assert log[k] == prefix[k];
      }
    }
  }

  /** Rows about other pairs do not change the latest reminder time of a pair. */
  lemma {:induction false} LastWarningAtFrame(log: seq<Notification>, extra: seq<Notification>, uid: int, aid: int)
    requires NoWarningFor(extra, uid, aid)
    ensures LastWarningAt(log + extra, uid, aid) == LastWarningAt(log, uid, aid)
    decreases |extra|
  {
    if extra == [] {
      assert log + extra == log;
    } else {
      var init := extra[..|extra| - 1];
      assert NoWarningFor(init, uid, aid) by {
        forall k | 0 <= k < |init| ensures !IsWarningFor(init[k], uid, aid) { assert init[k] == extra[k]; }
      }
      LastWarningAtFrame(log, init, uid, aid);
      var whole := log + extra;
      assert whole[..|whole| - 1] == log + init;
      assert whole[|whole| - 1] == extra[|extra| - 1];
    }
  }

  /** After a reminder about a pair, the latest reminder time of that pair is
      at least that reminder's time. */
  lemma LastWarningAtAfterWarning(log: seq<Notification>, extra: seq<Notification>, k: int, uid: int, aid: int)
    requires 0 <= k < |extra| && IsWarningFor(extra[k], uid, aid)
    ensures LastWarningAt(log + extra, uid, aid).Some?
    ensures LastWarningAt(log + extra, uid, aid).value >= extra[k].sentAt
  {
    LastWarningAtIsLatest(log + extra, uid, aid);
    assert (log + extra)[|log| + k] == extra[k];
  }

  /** `should_send`: no earlier reminder about the pair, or at least the
      period has passed since the latest one. */
  predicate Due(log: seq<Notification>, uid: int, aid: int, now: Instant, periodSeconds: int)
  {
    match LastWarningAt(log, uid, aid)
    case None => true
    case Some(last) => now - last >= periodSeconds
  }

  /** A reminder is due exactly when every earlier reminder about the pair
      lies at least the period before `now` (vacuously when there is none). */
  lemma DueIff(log: seq<Notification>, uid: int, aid: int, now: Instant, periodSeconds: int)
    ensures Due(log, uid, aid, now, periodSeconds) <==>
      forall k :: 0 <= k < |log| && IsWarningFor(log[k], uid, aid) ==> now - log[k].sentAt >= periodSeconds
  {
    LastWarningAtIsLatest(log, uid, aid);
  }

  /** The `time_remaining` text: whole days and hours, the days only when
      there is at least one. */
  function RemainingLabel(secs: int): (r: string)
    ensures |r| >= 2 && r[|r| - 1] == 'h'
    ensures 'd' in r <==> Time.DaysHours(secs).0 > 0
  {
    var (days, hours) := Time.DaysHours(secs);
    var h := Text.NatToString(hours);
    if days > 0 then
      var r := Text.IntToString(days) + "d " + h + "h";
      assert r[|Text.IntToString(days)|] == 'd';
      r
    else
      var r := h + "h";
      assert forall i :: 0 <= i < |h| ==> r[i] == h[i];
      r
  }

  /** The label shows the whole days and the whole hours left over of the
      remaining time, and omits the days when there are none: any `d`, `h`
      that bracket `secs` this way are the ones shown. */
  lemma RemainingLabelShows(secs: int, d: int, h: nat)
    requires h < 24
    requires d * Time.SecondsPerDay + h * Time.SecondsPerHour <= secs < d * Time.SecondsPerDay + (h + 1) * Time.SecondsPerHour
    ensures RemainingLabel(secs) ==
      if d > 0 then Text.IntToString(d) + "d " + Text.NatToString(h) + "h" else Text.NatToString(h) + "h"
  {
    assert Time.DaysHours(secs) == (d, h);
  }

  /** The repository shown in a reminder: the URL when it is set and
      non-empty, else the repository name. */
  function RepositoryLabel(a: Assignment): (r: string)
    ensures a.githubRepoUrl.Some? && a.githubRepoUrl.value != "" ==> r == a.githubRepoUrl.value
    ensures a.githubRepoUrl.None? || a.githubRepoUrl.value == "" ==> r == a.githubRepoName
  {
    if a.githubRepoUrl.Some? && a.githubRepoUrl.value != "" then a.githubRepoUrl.value else a.githubRepoName
  }

  const ReminderHeading := "\U{23F0} Deadline Reminder\n\n"

  /** The reminder text: the assignment, its deadline, the remaining time and
      the repository, on lines of their own under a heading. */
  function ReminderMessage(a: Assignment, now: Instant): (r: string)
    ensures var head := ReminderHeading + "Assignment: " + a.name + "\n";
            |r| > |head| && r[..|head|] == head
    ensures var tail := "Repository: " + RepositoryLabel(a);
            |r| > |tail| && r[|r| - |tail|..] == tail
  {
    var head := ReminderHeading + "Assignment: " + a.name + "\n";
    var middle := "Deadline: " + Time.FormatUtc(a.deadline) + "\n"
                    + "Time remaining: " + RemainingLabel(a.deadline - now) + "\n";
    var tail := "Repository: " + RepositoryLabel(a);
    var r := head + middle + tail;
    assert r[..|head|] == head;
    assert r[|r| - |tail|..] == tail;
    r
  }

  /** The text of the reminder about an assignment at a time; the service
      uses `ReminderMessage`, and the properties of the pass hold for any. */
  type Renderer = (Assignment, Instant) -> string

  /** A row is the reminder the pass logs for `a` and `u` at `now`. */
  predicate WarningRow(n: Notification, u: User, a: Assignment, now: Instant, render: Renderer)
  {
    && IsWarningFor(n, u.id, a.id)
    && n.message == render(a, now)
    && n.sentAt == now
    && !n.isRead
  }

  /** The row `db.add(note)` inserts: the next key, unread, sent at `now`. */
  function NewWarning(log: seq<Notification>, u: User, a: Assignment, now: Instant, render: Renderer): (n: Notification)
    ensures WarningRow(n, u, a, now, render)
    ensures forall k :: 0 <= k < |log| ==> log[k].id != n.id
  {
    Notification(FreshId(NotificationIds(log)), u.id, Some(a.id), DeadlineWarning, render(a, now), now, false)
  }

  /** One (user, assignment) pair the pass looks at, with the user's period. */
  datatype Candidate = Candidate(user: User, assignment: Assignment, period: int)

  /** Two candidates name the same (user, assignment) pair. */
  predicate SamePair(c: Candidate, d: Candidate)
  {
    c.user.id == d.user.id && c.assignment.id == d.assignment.id
  }

  /** No pair occurs twice. */
  predicate DistinctPairs(cs: seq<Candidate>)
  {
    forall i, j :: 0 <= i < j < |cs| ==> !SamePair(cs[i], cs[j])
  }

  /** The reminder for `c` is due against `log` and its delivery succeeds. */
  predicate Eligible(c: Candidate, log: seq<Notification>, now: Instant, delivered: Delivery)
  {
    Due(log, c.user.id, c.assignment.id, now, c.period) && Delivers(delivered, c.user, c.assignment)
  }

  /** The candidates of one user: the upcoming assignments, in order. */
  function Pairs(u: User, ups: seq<Assignment>, period: int): (cs: seq<Candidate>)
    ensures |cs| == |ups| && forall i :: 0 <= i < |ups| ==> cs[i] == Candidate(u, ups[i], period)
    decreases |ups|
  {
    if ups == [] then [] else [Candidate(u, ups[0], period)] + Pairs(u, ups[1..], period)
  }

  /** The candidates of one user under the settings `s`. */
  function UserCandidates(u: User, assignments: seq<Assignment>, s: AppSettings, now: Instant): seq<Candidate>
  {
    Pairs(u, Upcoming(assignments, u, now, ThresholdHours(u, s)), PeriodSeconds(u, s))
  }

  /** The candidates of a whole pass, user by user in table order. */
  function Candidates(users: seq<User>, assignments: seq<Assignment>, s: AppSettings, now: Instant): (cs: seq<Candidate>)
    ensures forall i :: 0 <= i < |cs| ==> cs[i].user in users && cs[i].assignment in assignments
    decreases |users|
  {
    if users == [] then []
    else UserCandidates(users[0], assignments, s, now) + Candidates(users[1..], assignments, s, now)
  }

  /** The row one candidate adds: the reminder when it is eligible, else none. */
  function Step(c: Candidate, log: seq<Notification>, now: Instant, delivered: Delivery, render: Renderer): (rows: seq<Notification>)
    ensures |rows| <= 1
    ensures |rows| == 1 <==> Eligible(c, log, now, delivered)
    ensures |rows| == 1 ==> rows[0] == NewWarning(log, c.user, c.assignment, now, render)
  {
    if Eligible(c, log, now, delivered) then [NewWarning(log, c.user, c.assignment, now, render)] else []
  }

  /** The rows the loops append for the candidates, in order; each decision
      sees the rows appended before it. */
  function Sweep(cs: seq<Candidate>, log: seq<Notification>, now: Instant, delivered: Delivery, render: Renderer): (rows: seq<Notification>)
    ensures |rows| <= |cs|
    decreases |cs|
  {
    if cs == [] then []
    else
      var row := Step(cs[0], log, now, delivered, render);
      row + Sweep(cs[1..], log + row, now, delivered, render)
  }

  /** The rows one whole pass appends. */
  function Pass(users: seq<User>, assignments: seq<Assignment>, log: seq<Notification>, s: AppSettings,
                now: Instant, delivered: Delivery, render: Renderer): (rows: seq<Notification>)
    ensures |rows| <= |Candidates(users, assignments, s, now)|
  {
    Sweep(Candidates(users, assignments, s, now), log, now, delivered, render)
  }

  /** Sweeping a list that starts with `c`: the row of `c` goes first, and the
      rest is swept against the log it leaves. */
  lemma SweepCons(c: Candidate, rest: seq<Candidate>, log: seq<Notification>, now: Instant,
                  delivered: Delivery, render: Renderer)
    ensures log + Sweep([c] + rest, log, now, delivered, render)
         == (log + Step(c, log, now, delivered, render))
            + Sweep(rest, log + Step(c, log, now, delivered, render), now, delivered, render)
  {
    var cs := [c] + rest;
    assert cs[0] == c && cs[1..] == rest;
  }

  /** One step of the loop over a user's upcoming assignments: appending the
      row of the `i`-th one leaves the same sweep still to come. */
  lemma RemindStep(u: User, ups: seq<Assignment>, i: int, period: int, later: seq<Candidate>,
                   before: seq<Notification>, after: seq<Notification>, target: seq<Notification>,
                   now: Instant, delivered: Delivery, render: Renderer)
    requires 0 <= i < |ups|
    requires before + Sweep(Pairs(u, ups[i..], period) + later, before, now, delivered, render) == target
    requires after == before + Step(Candidate(u, ups[i], period), before, now, delivered, render)
    ensures after + Sweep(Pairs(u, ups[i + 1..], period) + later, after, now, delivered, render) == target
  {
    var c := Candidate(u, ups[i], period);
    var next := Pairs(u, ups[i + 1..], period) + later;
    assert ups[i..] == [ups[i]] + ups[i + 1..];
    assert Pairs(u, ups[i..], period) == [c] + Pairs(u, ups[i + 1..], period);
    assert Pairs(u, ups[i..], period) + later == [c] + next;
    SweepCons(c, next, before, now, delivered, render);
  }

  /** The candidates of the users from the `k`-th on: those of the `k`-th,
      then those of the rest. */
  lemma CandidatesFrom(users: seq<User>, k: int, assignments: seq<Assignment>, s: AppSettings, now: Instant)
    requires 0 <= k < |users|
    ensures Candidates(users[k..], assignments, s, now)
         == UserCandidates(users[k], assignments, s, now) + Candidates(users[k + 1..], assignments, s, now)
  {
    assert users[k..][0] == users[k] && users[k..][1..] == users[k + 1..];
  }

  /** Every row is a reminder about the pair of one of the candidates. */
  predicate RowsAbout(rows: seq<Notification>, cs: seq<Candidate>)
  {
    forall r :: 0 <= r < |rows| ==>
      exists j :: 0 <= j < |cs| && IsWarningFor(rows[r], cs[j].user.id, cs[j].assignment.id)
  }

  /** Every row is the reminder for one of the candidates that is eligible
      against `log`. */
  predicate RowsSent(rows: seq<Notification>, cs: seq<Candidate>, log: seq<Notification>, now: Instant,
                     delivered: Delivery, render: Renderer)
  {
    forall r :: 0 <= r < |rows| ==>
      exists j :: 0 <= j < |cs| && WarningRow(rows[r], cs[j].user, cs[j].assignment, now, render) &&
                  Eligible(cs[j], log, now, delivered)
  }

  /** Every candidate that is eligible against `log` has its reminder among the rows. */
  predicate EligibleServed(rows: seq<Notification>, cs: seq<Candidate>, log: seq<Notification>, now: Instant,
                           delivered: Delivery, render: Renderer)
  {
    forall j :: 0 <= j < |cs| && Eligible(cs[j], log, now, delivered) ==>
      exists r :: 0 <= r < |rows| && WarningRow(rows[r], cs[j].user, cs[j].assignment, now, render)
  }

  /** No two rows are about the same (user, assignment) pair. */
  predicate OnePerPair(rows: seq<Notification>)
  {
    forall p, q :: 0 <= p < q < |rows| ==>
      rows[p].userId != rows[q].userId || rows[p].assignmentId != rows[q].assignmentId
  }

  /** No row of `xs` is about the pair of a row of `ys`. */
  predicate NoCommonPair(xs: seq<Notification>, ys: seq<Notification>)
  {
    forall p, q :: 0 <= p < |xs| && 0 <= q < |ys| ==>
      xs[p].userId != ys[q].userId || xs[p].assignmentId != ys[q].assignmentId
  }

  /** A sweep only writes reminders about the pairs of its candidates. */
  lemma {:induction false} SweepRowsAbout(cs: seq<Candidate>, log: seq<Notification>, now: Instant,
                                          delivered: Delivery, render: Renderer)
    ensures RowsAbout(Sweep(cs, log, now, delivered, render), cs)
    decreases |cs|
  {
    if cs == [] {
      assert Sweep(cs, log, now, delivered, render) == [];
    } else {
      var row := Step(cs[0], log, now, delivered, render);
      var tail := cs[1..];
      SweepRowsAbout(tail, log + row, now, delivered, render);
      var rest := Sweep(tail, log + row, now, delivered, render);
      var rows := row + rest;
      assert Sweep(cs, log, now, delivered, render) == rows;
      forall r | 0 <= r < |rows|
        ensures exists j :: 0 <= j < |cs| && IsWarningFor(rows[r], cs[j].user.id, cs[j].assignment.id)
      {
        if r < |row| {
          assert rows[r] == row[0];
          assert IsWarningFor(rows[r], cs[0].user.id, cs[0].assignment.id);
        } else {
          assert rows[r] == rest[r - |row|];
          var j :| 0 <= j < |tail| && IsWarningFor(rest[r - |row|], tail[j].user.id, tail[j].assignment.id);
          assert tail[j] == cs[j + 1];
        }
      }
    }
  }

  /** The candidates after the first keep their pairs distinct, and none of
      them has the first one's pair. */
  lemma DistinctTail(cs: seq<Candidate>)
    requires cs != [] && DistinctPairs(cs)
    ensures DistinctPairs(cs[1..])
    ensures forall j :: 0 <= j < |cs[1..]| ==> !SamePair(cs[0], cs[1..][j])
  {
    var tail := cs[1..];
    forall i, j | 0 <= i < j < |tail| ensures !SamePair(tail[i], tail[j]) {
      assert tail[i] == cs[i + 1] && tail[j] == cs[j + 1];
    }
    forall j | 0 <= j < |tail| ensures !SamePair(cs[0], tail[j]) {
      assert tail[j] == cs[j + 1];
    }
  }

  /** The row of one candidate does not change whether another pair is eligible. */
  lemma StepLeavesOthersEligible(c: Candidate, d: Candidate, log: seq<Notification>, now: Instant,
                                 delivered: Delivery, render: Renderer)
    requires !SamePair(c, d)
    ensures Eligible(d, log + Step(c, log, now, delivered, render), now, delivered) <==> Eligible(d, log, now, delivered)
  {
    var row := Step(c, log, now, delivered, render);
    assert NoWarningFor(row, d.user.id, d.assignment.id) by {
      forall k | 0 <= k < |row| ensures !IsWarningFor(row[k], d.user.id, d.assignment.id) {
        assert row[k] == NewWarning(log, c.user, c.assignment, now, render);
      }
    }
    LastWarningAtFrame(log, row, d.user.id, d.assignment.id);
  }

  /** Every row a sweep appends is the reminder for one of its candidates
      that was eligible against the log before the sweep. */
  lemma {:induction false} SweepSound(cs: seq<Candidate>, log: seq<Notification>, now: Instant,
                                      delivered: Delivery, render: Renderer)
    requires DistinctPairs(cs)
    ensures RowsSent(Sweep(cs, log, now, delivered, render), cs, log, now, delivered, render)
    decreases |cs|
  {
    if cs == [] {
      assert Sweep(cs, log, now, delivered, render) == [];
    } else {
      var row := Step(cs[0], log, now, delivered, render);
      var tail := cs[1..];
      DistinctTail(cs);
      SweepSound(tail, log + row, now, delivered, render);
      var rest := Sweep(tail, log + row, now, delivered, render);
      var rows := row + rest;
      assert Sweep(cs, log, now, delivered, render) == rows;
      forall r | 0 <= r < |rows|
        ensures exists j :: 0 <= j < |cs| && WarningRow(rows[r], cs[j].user, cs[j].assignment, now, render) &&
                            Eligible(cs[j], log, now, delivered)
      {
        if r < |row| {
          assert rows[r] == NewWarning(log, cs[0].user, cs[0].assignment, now, render);
        } else {
          assert rows[r] == rest[r - |row|];
          var j :| 0 <= j < |tail| && WarningRow(rest[r - |row|], tail[j].user, tail[j].assignment, now, render) &&
                   Eligible(tail[j], log + row, now, delivered);
          StepLeavesOthersEligible(cs[0], tail[j], log, now, delivered, render);
          assert tail[j] == cs[j + 1];
        }
      }
    }
  }

  /** Every candidate that is eligible against the log before the sweep gets
      its reminder. */
  lemma {:induction false} SweepComplete(cs: seq<Candidate>, log: seq<Notification>, now: Instant,
                                         delivered: Delivery, render: Renderer)
    requires DistinctPairs(cs)
    ensures EligibleServed(Sweep(cs, log, now, delivered, render), cs, log, now, delivered, render)
    decreases |cs|
  {
    if cs != [] {
      var row := Step(cs[0], log, now, delivered, render);
      var tail := cs[1..];
      DistinctTail(cs);
      SweepComplete(tail, log + row, now, delivered, render);
      var rest := Sweep(tail, log + row, now, delivered, render);
      var rows := row + rest;
      assert Sweep(cs, log, now, delivered, render) == rows;
      forall j | 0 <= j < |cs| && Eligible(cs[j], log, now, delivered)
        ensures exists r :: 0 <= r < |rows| && WarningRow(rows[r], cs[j].user, cs[j].assignment, now, render)
      {
        if j == 0 {
          assert rows[0] == NewWarning(log, cs[0].user, cs[0].assignment, now, render);
        } else {
          assert cs[j] == tail[j - 1];
          StepLeavesOthersEligible(cs[0], tail[j - 1], log, now, delivered, render);
          var r :| 0 <= r < |rest| && WarningRow(rest[r], tail[j - 1].user, tail[j - 1].assignment, now, render);
          assert rows[|row| + r] == rest[r];
        }
      }
    }
  }

  /** A sweep appends at most one reminder per pair. */
  lemma {:induction false} SweepOncePerPair(cs: seq<Candidate>, log: seq<Notification>, now: Instant,
                                            delivered: Delivery, render: Renderer)
    requires DistinctPairs(cs)
    ensures OnePerPair(Sweep(cs, log, now, delivered, render))
    decreases |cs|
  {
    if cs == [] {
      assert Sweep(cs, log, now, delivered, render) == [];
    } else {
      var row := Step(cs[0], log, now, delivered, render);
      var tail := cs[1..];
      DistinctTail(cs);
      SweepOncePerPair(tail, log + row, now, delivered, render);
      SweepRowsAbout(tail, log + row, now, delivered, render);
      var rest := Sweep(tail, log + row, now, delivered, render);
      var rows := row + rest;
      assert Sweep(cs, log, now, delivered, render) == rows;
      forall p, q | 0 <= p < q < |rows|
        ensures rows[p].userId != rows[q].userId || rows[p].assignmentId != rows[q].assignmentId
      {
        assert rows[q] == rest[q - |row|];
        if p < |row| {
          assert rows[p] == NewWarning(log, cs[0].user, cs[0].assignment, now, render);
          var j :| 0 <= j < |tail| && IsWarningFor(rest[q - |row|], tail[j].user.id, tail[j].assignment.id);
          assert !SamePair(cs[0], tail[j]);
        } else {
          assert rows[p] == rest[p - |row|];
        }
      }
    }
  }

  /** Every candidate is a user and one of that user's assignments in the
      window, with the user's period. */
  predicate AllInWindow(cs: seq<Candidate>, users: seq<User>, assignments: seq<Assignment>, s: AppSettings, now: Instant)
  {
    forall k :: 0 <= k < |cs| ==>
      && cs[k].user in users && cs[k].assignment in assignments
      && cs[k].period == PeriodSeconds(cs[k].user, s)
      && InWindow(cs[k].assignment, cs[k].user, now, ThresholdHours(cs[k].user, s))
  }

  /** The candidates of a pass are users' assignments in their windows. */
  lemma {:induction false} CandidatesInWindow(users: seq<User>, assignments: seq<Assignment>, s: AppSettings, now: Instant)
    ensures AllInWindow(Candidates(users, assignments, s, now), users, assignments, s, now)
    decreases |users|
  {
    if users != [] {
      var u := users[0];
      var ups := Upcoming(assignments, u, now, ThresholdHours(u, s));
      var first := UserCandidates(u, assignments, s, now);
      var rest := Candidates(users[1..], assignments, s, now);
      CandidatesInWindow(users[1..], assignments, s, now);
      var cs := first + rest;
      assert Candidates(users, assignments, s, now) == cs;
      forall k | 0 <= k < |cs|
        ensures && cs[k].user in users && cs[k].assignment in assignments
                && cs[k].period == PeriodSeconds(cs[k].user, s)
                && InWindow(cs[k].assignment, cs[k].user, now, ThresholdHours(cs[k].user, s))
      {
        if k < |first| {
          assert cs[k] == first[k] == Candidate(u, ups[k], PeriodSeconds(u, s));
          assert ups[k] in assignments && InWindow(ups[k], u, now, ThresholdHours(u, s));
        } else {
          assert cs[k] == rest[k - |first|];
          var m :| 0 <= m < |users[1..]| && users[1..][m] == cs[k].user;
          assert users[m + 1] == cs[k].user;
        }
      }
    }
  }

  /** Every user's assignment in the window is a candidate of the pass. */
  lemma {:induction false} CandidatesCover(users: seq<User>, assignments: seq<Assignment>, s: AppSettings, now: Instant,
                                           u: User, a: Assignment)
    requires u in users && a in assignments && InWindow(a, u, now, ThresholdHours(u, s))
    ensures Candidate(u, a, PeriodSeconds(u, s)) in Candidates(users, assignments, s, now)
    decreases |users|
  {
    var first := UserCandidates(users[0], assignments, s, now);
    var rest := Candidates(users[1..], assignments, s, now);
    assert Candidates(users, assignments, s, now) == first + rest;
    if users[0] == u {
      var ups := Upcoming(assignments, u, now, ThresholdHours(u, s));
      var k :| 0 <= k < |ups| && ups[k] == a;
      assert first[k] == Candidate(u, a, PeriodSeconds(u, s));
      assert (first + rest)[k] == first[k];
    } else {
      var i :| 0 <= i < |users| && users[i] == u;
      assert users[1..][i - 1] == u;
      CandidatesCover(users[1..], assignments, s, now, u, a);
      var k :| 0 <= k < |rest| && rest[k] == Candidate(u, a, PeriodSeconds(u, s));
      assert (first + rest)[|first| + k] == rest[k];
    }
  }

  /** Distinct candidate lists with no pair in common concatenate to a
      distinct one. */
  lemma DistinctAppend(xs: seq<Candidate>, ys: seq<Candidate>)
    requires DistinctPairs(xs) && DistinctPairs(ys)
    requires forall i, j :: 0 <= i < |xs| && 0 <= j < |ys| ==> !SamePair(xs[i], ys[j])
    ensures DistinctPairs(xs + ys)
  {
    var zs := xs + ys;
    forall i, j | 0 <= i < j < |zs| ensures !SamePair(zs[i], zs[j]) {
      if j < |xs| {
        assert zs[i] == xs[i] && zs[j] == xs[j];
      } else if i < |xs| {
        assert zs[i] == xs[i] && zs[j] == ys[j - |xs|];
      } else {
        assert zs[i] == ys[i - |xs|] && zs[j] == ys[j - |xs|];
      }
    }
  }

  /** With unique user and assignment keys no pair is a candidate twice. */
  lemma {:induction false} CandidatesDistinct(users: seq<User>, assignments: seq<Assignment>, s: AppSettings, now: Instant)
    requires UniqueUserIds(users) && UniqueAssignmentIds(assignments)
    ensures DistinctPairs(Candidates(users, assignments, s, now))
    decreases |users|
  {
    if users == [] {
      assert Candidates(users, assignments, s, now) == [];
    } else {
      var u := users[0];
      var ups := Upcoming(assignments, u, now, ThresholdHours(u, s));
      var first := UserCandidates(u, assignments, s, now);
      var others := users[1..];
      var rest := Candidates(others, assignments, s, now);
      assert Candidates(users, assignments, s, now) == first + rest;
      assert UniqueUserIds(others) by {
        forall i, j | 0 <= i < j < |others| ensures others[i].id != others[j].id {
          assert others[i] == users[i + 1] && others[j] == users[j + 1];
        }
      }
      CandidatesDistinct(others, assignments, s, now);
      CandidatesInWindow(others, assignments, s, now);
      assert DistinctPairs(first) by {
        forall i, j | 0 <= i < j < |first| ensures !SamePair(first[i], first[j]) {
          assert first[i].assignment == ups[i] && first[j].assignment == ups[j];
        }
      }
      forall i, j | 0 <= i < |first| && 0 <= j < |rest| ensures !SamePair(first[i], rest[j]) {
        assert rest[j].user in others;
        var m :| 0 <= m < |others| && others[m] == rest[j].user;
        assert users[m + 1] == rest[j].user;
        assert first[i].user == u;
      }
      DistinctAppend(first, rest);
    }
  }

  /** A row is the reminder for some user and one of that user's assignments
      in the window, which was due against `log` and whose delivery succeeded. */
  predicate SentFor(n: Notification, users: seq<User>, assignments: seq<Assignment>,
                    log: seq<Notification>, s: AppSettings, now: Instant, delivered: Delivery, render: Renderer)
  {
    exists u, a :: u in users && a in assignments &&
      InWindow(a, u, now, ThresholdHours(u, s)) && WarningRow(n, u, a, now, render) &&
      Due(log, u.id, a.id, now, PeriodSeconds(u, s)) && Delivers(delivered, u, a)
  }

  /** Every row is such a reminder. */
  predicate PassRowsSent(rows: seq<Notification>, users: seq<User>, assignments: seq<Assignment>,
                         log: seq<Notification>, s: AppSettings, now: Instant, delivered: Delivery, render: Renderer)
  {
    forall r :: 0 <= r < |rows| ==> SentFor(rows[r], users, assignments, log, s, now, delivered, render)
  }

  /** Every pass row is the reminder for a user's assignment in the window
      that was due against the log before the pass and whose delivery
      succeeded. */
  lemma PassSound(users: seq<User>, assignments: seq<Assignment>, log: seq<Notification>,
                  s: AppSettings, now: Instant, delivered: Delivery, render: Renderer)
    requires UniqueUserIds(users) && UniqueAssignmentIds(assignments)
    ensures PassRowsSent(Pass(users, assignments, log, s, now, delivered, render), users, assignments, log, s, now,
                         delivered, render)
  {
    var cs := Candidates(users, assignments, s, now);
    var rows := Pass(users, assignments, log, s, now, delivered, render);
    CandidatesDistinct(users, assignments, s, now);
    CandidatesInWindow(users, assignments, s, now);
    SweepSound(cs, log, now, delivered, render);
    forall r | 0 <= r < |rows| ensures SentFor(rows[r], users, assignments, log, s, now, delivered, render) {
      var j :| 0 <= j < |cs| && WarningRow(rows[r], cs[j].user, cs[j].assignment, now, render) &&
               Eligible(cs[j], log, now, delivered);
      var u, a := cs[j].user, cs[j].assignment;
      assert cs[j].period == PeriodSeconds(u, s);
      assert u in users && a in assignments && InWindow(a, u, now, ThresholdHours(u, s));
      assert WarningRow(rows[r], u, a, now, render) && Due(log, u.id, a.id, now, PeriodSeconds(u, s)) && Delivers(delivered, u, a);
    }
  }

  /** Every row a pass writes is addressed to a user of the table. */
  lemma PassRowsOwned(users: seq<User>, assignments: seq<Assignment>, log: seq<Notification>,
                      s: AppSettings, now: Instant, delivered: Delivery, render: Renderer)
    ensures var rows := Pass(users, assignments, log, s, now, delivered, render);
            forall r :: 0 <= r < |rows| ==> HasUser(users, rows[r].userId)
  {
    var cs := Candidates(users, assignments, s, now);
    var rows := Pass(users, assignments, log, s, now, delivered, render);
    SweepRowsAbout(cs, log, now, delivered, render);
    forall r | 0 <= r < |rows| ensures HasUser(users, rows[r].userId) {
      var j :| 0 <= j < |cs| && IsWarningFor(rows[r], cs[j].user.id, cs[j].assignment.id);
      var i :| 0 <= i < |users| && users[i] == cs[j].user;
    }
  }

  /** Every user's assignment in the window that was due before the pass and
      whose delivery succeeds gets its reminder. */
  lemma PassComplete(users: seq<User>, assignments: seq<Assignment>, log: seq<Notification>,
                     s: AppSettings, now: Instant, delivered: Delivery, render: Renderer,
                     u: User, a: Assignment)
    requires UniqueUserIds(users) && UniqueAssignmentIds(assignments)
    requires u in users && a in assignments && InWindow(a, u, now, ThresholdHours(u, s))
    requires Due(log, u.id, a.id, now, PeriodSeconds(u, s)) && Delivers(delivered, u, a)
    ensures exists r :: 0 <= r < |Pass(users, assignments, log, s, now, delivered, render)| &&
                        WarningRow(Pass(users, assignments, log, s, now, delivered, render)[r], u, a, now, render)
  {
    var cs := Candidates(users, assignments, s, now);
    CandidatesDistinct(users, assignments, s, now);
    SweepComplete(cs, log, now, delivered, render);
    CandidatesCover(users, assignments, s, now, u, a);
    var j :| 0 <= j < |cs| && cs[j] == Candidate(u, a, PeriodSeconds(u, s));
    assert Eligible(cs[j], log, now, delivered);
    var rows := Sweep(cs, log, now, delivered, render);
    var r :| 0 <= r < |rows| && WarningRow(rows[r], cs[j].user, cs[j].assignment, now, render);
    assert rows == Pass(users, assignments, log, s, now, delivered, render);
  }

  /** A pass appends at most one reminder per (user, assignment) pair. */
  lemma PassOncePerPair(users: seq<User>, assignments: seq<Assignment>, log: seq<Notification>,
                        s: AppSettings, now: Instant, delivered: Delivery, render: Renderer)
    requires UniqueUserIds(users) && UniqueAssignmentIds(assignments)
    ensures OnePerPair(Pass(users, assignments, log, s, now, delivered, render))
  {
    CandidatesDistinct(users, assignments, s, now);
    SweepOncePerPair(Candidates(users, assignments, s, now), log, now, delivered, render);
  }

  /** No reminder is sent again within the period: after a pass at `now1`, a
      second pass at `now2`, sooner than every user's period, appends no row
      for any pair the first pass reminded about. */
  lemma NoResendWithinPeriod(users: seq<User>, assignments: seq<Assignment>, assignments2: seq<Assignment>,
                             log: seq<Notification>, s: AppSettings, now1: Instant, now2: Instant,
                             delivered1: Delivery, delivered2: Delivery, render: Renderer)
    requires UniqueUserIds(users) && UniqueAssignmentIds(assignments) && UniqueAssignmentIds(assignments2)
    requires now1 <= now2
    requires forall u :: u in users ==> now2 - now1 < PeriodSeconds(u, s)
    ensures NoCommonPair(Pass(users, assignments, log, s, now1, delivered1, render),
                         Pass(users, assignments2, log + Pass(users, assignments, log, s, now1, delivered1, render),
                              s, now2, delivered2, render))
  {
    var first := Pass(users, assignments, log, s, now1, delivered1, render);
    var second := Pass(users, assignments2, log + first, s, now2, delivered2, render);
    PassSound(users, assignments, log, s, now1, delivered1, render);
    PassSound(users, assignments2, log + first, s, now2, delivered2, render);
    forall p, q | 0 <= p < |first| && 0 <= q < |second|
      ensures first[p].userId != second[q].userId || first[p].assignmentId != second[q].assignmentId
    {
      assert SentFor(second[q], users, assignments2, log + first, s, now2, delivered2, render);
      assert SentFor(first[p], users, assignments, log, s, now1, delivered1, render);
      var u, a :| u in users && a in assignments2 &&
        InWindow(a, u, now2, ThresholdHours(u, s)) && WarningRow(second[q], u, a, now2, render) &&
        Due(log + first, u.id, a.id, now2, PeriodSeconds(u, s)) && Delivers(delivered2, u, a);
      var u', a' :| u' in users && a' in assignments &&
        InWindow(a', u', now1, ThresholdHours(u', s)) && WarningRow(first[p], u', a', now1, render) &&
        Due(log, u'.id, a'.id, now1, PeriodSeconds(u', s)) && Delivers(delivered1, u', a');
      if first[p].userId == second[q].userId && first[p].assignmentId == second[q].assignmentId {
        assert IsWarningFor(first[p], u.id, a.id);
        LastWarningAtAfterWarning(log, first, p, u.id, a.id);
      }
    }
  }

  /** A pass over one user and one assignment in their window has that one
      candidate. */
  lemma SingleCandidate(u: User, a: Assignment, s: AppSettings, now: Instant)
    requires InWindow(a, u, now, ThresholdHours(u, s))
    ensures Candidates([u], [a], s, now) == [Candidate(u, a, PeriodSeconds(u, s))]
  {
    assert [a][1..] == [];
    assert Upcoming([a], u, now, ThresholdHours(u, s)) == [a];
    assert Pairs(u, [a], PeriodSeconds(u, s)) == [Candidate(u, a, PeriodSeconds(u, s))];
    assert [u][1..] == [];
  }

  /** Sweeping one eligible candidate gives its reminder. */
  lemma SweepSingle(c: Candidate, log: seq<Notification>, now: Instant, delivered: Delivery, render: Renderer)
    requires Eligible(c, log, now, delivered)
    ensures Sweep([c], log, now, delivered, render) == [NewWarning(log, c.user, c.assignment, now, render)]
  {
    var row := Step(c, log, now, delivered, render);
    assert [c][1..] == [];
    assert Sweep([c], log, now, delivered, render) == row + Sweep([], log + row, now, delivered, render);
  }

  lemma ThreeHoursLabel()
    ensures RemainingLabel(3 * Time.SecondsPerHour) == "3h"
  {
    assert Time.DaysHours(3 * Time.SecondsPerHour) == (0, 3);
    assert Text.NatToString(3) == "3";
  }

  /** One user, one assignment three hours ahead, the default 24-hour
      threshold and no earlier reminder: a successful delivery logs exactly
      one reminder, whose remaining time reads `3h`. */
  lemma OneReminderThreeHoursAhead(u: User, a: Assignment, log: seq<Notification>, s: AppSettings,
                                   now: Instant, delivered: Delivery, render: Renderer)
    requires u.notifyThresholdHours.None? && s.notifyThresholdHours == Configuration.DefaultDeadlineWarningHours
    requires a.userId == Some(u.id) && a.deadline == now + 3 * Time.SecondsPerHour
    requires NoWarningFor(log, u.id, a.id) && Delivers(delivered, u, a)
    ensures Pass([u], [a], log, s, now, delivered, render) == [NewWarning(log, u, a, now, render)]
    ensures RemainingLabel(a.deadline - now) == "3h"
  {
    var c := Candidate(u, a, PeriodSeconds(u, s));
    assert InWindow(a, u, now, ThresholdHours(u, s));
    SingleCandidate(u, a, s, now);
    LastWarningAtIsLatest(log, u.id, a.id);
    assert Eligible(c, log, now, delivered);
    SweepSingle(c, log, now, delivered, render);
    ThreeHoursLabel();
  }

  /** The service that runs the pass on a database. */
  class NotificationService {
    const db: Store
    /** How the service words a reminder. */
    const render: Renderer

    constructor (db: Store)
      ensures this.db == db && this.render == ReminderMessage
    {
      this.db := db;
      this.render := ReminderMessage;
    }

    /** `check_upcoming_deadlines`: the settings row is fetched or created,
        then the pass appends its rows to the notification log; users,
        assignments and the other tables are untouched. */
    method CheckUpcomingDeadlines(cfg: Configuration.Config, now: Instant, delivered: Delivery)
      requires db.Valid()
      modifies db`notifications, db`appSettings
      ensures db.Valid()
      ensures db.notifications == old(db.notifications) +
                Pass(old(db.users), old(db.assignments), old(db.notifications), SettingsOf(old(db.appSettings), cfg, now),
                     now, delivered, render)
      ensures FindSettings(old(db.appSettings)).Some? ==> db.appSettings == old(db.appSettings)
      ensures FindSettings(old(db.appSettings)).None? ==>
                db.appSettings == old(db.appSettings) + [DefaultSettings(cfg, now)]
    {
      var settings := db.GetOrCreateSettings(cfg, now);
      ghost var log := db.notifications;
      RemindAll(db.users, settings, now, delivered);
      PassRowsOwned(db.users, db.assignments, log, settings, now, delivered, render);
      ghost var rows := Pass(db.users, db.assignments, log, settings, now, delivered, render);
      assert forall k :: 0 <= k < |db.notifications| ==> HasUser(db.users, db.notifications[k].userId) by {
        forall k | 0 <= k < |db.notifications| ensures HasUser(db.users, db.notifications[k].userId) {
          if k >= |log| { assert db.notifications[k] == rows[k - |log|]; }
        }
      }
    }

    /** The outer loop over the users, with the settings already fetched. */
    method RemindAll(users: seq<User>, settings: AppSettings, now: Instant, delivered: Delivery)
      requires UniqueNotificationIds(db.notifications)
      modifies db`notifications
      ensures UniqueNotificationIds(db.notifications)
      ensures db.notifications == old(db.notifications) +
                Pass(users, db.assignments, old(db.notifications), settings, now, delivered, render)
    {
      ghost var log0 := db.notifications;
      ghost var all := Candidates(users, db.assignments, settings, now);
      var k := 0;
      while k < |users|
        invariant 0 <= k <= |users|
        invariant UniqueNotificationIds(db.notifications)
        invariant db.notifications + Sweep(Candidates(users[k..], db.assignments, settings, now), db.notifications, now,
                                          delivered, render)
                  == log0 + Sweep(all, log0, now, delivered, render)
      {
        var u := users[k];
        ghost var later := Candidates(users[k + 1..], db.assignments, settings, now);
        CandidatesFrom(users, k, db.assignments, settings, now);
        var upcoming := Upcoming(db.assignments, u, now, ThresholdHours(u, settings));
        RemindUser(u, upcoming, PeriodSeconds(u, settings), now, delivered, later);
        k := k + 1;
      }
      assert Candidates(users[k..], db.assignments, settings, now) == [];
      assert Sweep([], db.notifications, now, delivered, render) == [];
    }

    /** The inner loop for one user: each upcoming assignment whose reminder
        is due is sent and, when sending succeeds, logged. `later` stands for
        the candidates of the users still to come. */
    method RemindUser(u: User, upcoming: seq<Assignment>, periodSeconds: int, now: Instant, delivered: Delivery,
                      ghost later: seq<Candidate>)
      requires UniqueNotificationIds(db.notifications)
      modifies db`notifications
      ensures UniqueNotificationIds(db.notifications)
      ensures db.notifications + Sweep(later, db.notifications, now, delivered, render)
           == old(db.notifications) + Sweep(Pairs(u, upcoming, periodSeconds) + later, old(db.notifications), now,
                                            delivered, render)
    {
      ghost var target := db.notifications +
        Sweep(Pairs(u, upcoming, periodSeconds) + later, db.notifications, now, delivered, render);
      var i := 0;
      while i < |upcoming|
        invariant 0 <= i <= |upcoming|
        invariant UniqueNotificationIds(db.notifications)
        invariant db.notifications + Sweep(Pairs(u, upcoming[i..], periodSeconds) + later, db.notifications, now,
                                          delivered, render) == target
      {
        var a := upcoming[i];
        ghost var before := db.notifications;
        RemindOne(u, a, now, periodSeconds, delivered);
        RemindStep(u, upcoming, i, periodSeconds, later, before, db.notifications, target, now, delivered, render);
        i := i + 1;
      }
      assert upcoming[i..] == [];
      assert Pairs(u, upcoming[i..], periodSeconds) + later == later;
    }

    /** The body of the inner loop for one assignment: when the reminder is
        due it is sent, and when sending succeeds it is logged. */
    method RemindOne(u: User, a: Assignment, now: Instant, periodSeconds: int, delivered: Delivery)
      requires UniqueNotificationIds(db.notifications)
      modifies db`notifications
      ensures UniqueNotificationIds(db.notifications)
      ensures db.notifications
           == old(db.notifications) + Step(Candidate(u, a, periodSeconds), old(db.notifications), now, delivered, render)
    {
      var shouldSend := ShouldSend(u, a, now, periodSeconds);
      if shouldSend && Delivers(delivered, u, a) {
        Record(u, a, now);
      } else {
        assert db.notifications == old(db.notifications) + [];
      }
    }

    /** `should_send`: the latest reminder about the pair is looked up in the
        log; the reminder is due when there is none or the period has passed. */
    method ShouldSend(u: User, a: Assignment, now: Instant, periodSeconds: int) returns (shouldSend: bool)
      ensures shouldSend == Due(db.notifications, u.id, a.id, now, periodSeconds)
    {
      var last := LastWarningAt(db.notifications, u.id, a.id);
      shouldSend := false;
      if last.None? {
        shouldSend := true;
      } else {
        var elapsed := now - last.value;
        if elapsed >= periodSeconds {
          shouldSend := true;
        }
      }
    }

    /** `db.add(note)` after a successful send: the reminder row is appended
        with the next key. */
    method Record(u: User, a: Assignment, now: Instant)
      requires UniqueNotificationIds(db.notifications)
      modifies db`notifications
      ensures UniqueNotificationIds(db.notifications)
      ensures db.notifications == old(db.notifications) + [NewWarning(old(db.notifications), u, a, now, render)]
    {
      var note := NewWarning(db.notifications, u, a, now, render);
      db.notifications := db.notifications + [note];
    }
  }
}
