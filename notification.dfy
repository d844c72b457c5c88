/**
 * Notifications: sending one to Students, Drivers or Both, and listing them newest
 * first, for one role or all.
 */
module NotificationController {
  import opened Common
  import opened Models
  import opened Store

  datatype Reason =
    | FieldsRequired
    | InvalidRecipient
    | NotificationSent
    | RoleRequired
    | InvalidRole

  predicate IsAudience(s: string) {
    s == "Students" || s == "Drivers" || s == "Both"
  }

  /** `recipients.every(r => validRecipients.includes(r))`. */
  function AllAudiences(recipients: seq<string>): (b: bool)
    ensures b <==> forall i :: 0 <= i < |recipients| ==> IsAudience(recipients[i])
  {
    if recipients == [] then true
    else IsAudience(recipients[0]) && AllAudiences(recipients[1..])
  }

  /**
   * sendNotification: all three fields are required and every recipient must be an
   * audience; only then is the notification stored, dated `now`, and pushed. The push
   * helper logs its own failures and never rejects, so a stored notification is answered 201.
   */
  method SendNotification(db: Db, kind: string, message: string, recipients: Option<seq<string>>,
                          now: int)
    returns (r: Response<Reason>)
    modifies db`notifications
    ensures !Given(kind) || !Given(message) || recipients.None? || recipients.value == [] ==>
              r == Response(400, FieldsRequired) && db.notifications == old(db.notifications)
    ensures Given(kind) && Given(message) && recipients.Some? && recipients.value != [] &&
            (exists i :: 0 <= i < |recipients.value| && !IsAudience(recipients.value[i])) ==>
              r == Response(400, InvalidRecipient) && db.notifications == old(db.notifications)
    ensures Given(kind) && Given(message) && recipients.Some? && recipients.value != [] &&
            (forall i :: 0 <= i < |recipients.value| ==> IsAudience(recipients.value[i])) ==>
              db.notifications == old(db.notifications) + [Notification(kind, message, recipients.value, now)] &&
              r == Response(201, NotificationSent)
  {
    if !Given(kind) || !Given(message) || recipients.None? || recipients.value == [] {
      return Response(400, FieldsRequired);
    }
    if !AllAudiences(recipients.value) {
      return Response(400, InvalidRecipient);
    }
    db.notifications := db.notifications + [Notification(kind, message, recipients.value, now)];
    r := Response(201, NotificationSent);
  }

  /** A notification reaches a role when it names that role or Both. */
  predicate Reaches(n: Notification, role: string) {
    role in n.recipients || "Both" in n.recipients
  }

  /** The notifications that reach `role`, in stored order. */
  function ForRole(all: seq<Notification>, role: string): (r: seq<Notification>)
    ensures forall n :: multiset(r)[n] == if Reaches(n, role) then multiset(all)[n] else 0
  {
    if all == [] then []
    else
      assert all == [all[0]] + all[1..];
      if Reaches(all[0], role) then [all[0]] + ForRole(all[1..], role) else ForRole(all[1..], role)
  }

  /** Ordered by date, newest first (`sort({ date: -1 })`). */
  predicate NewestFirst(s: seq<Notification>) {
    forall i, j :: 0 <= i < j < |s| ==> s[i].date >= s[j].date
  }

  /** Insert `n` into a newest-first sequence. */
  function Insert(n: Notification, s: seq<Notification>): (r: seq<Notification>)
    requires NewestFirst(s)
    ensures |r| == |s| + 1
    ensures r[0] == n || (s != [] && r[0] == s[0])
    ensures NewestFirst(r)
    ensures multiset(r) == multiset(s) + multiset{n}
  {
    if s == [] || s[0].date <= n.date then [n] + s
    else
      var rest := Insert(n, s[1..]);
      assert s == [s[0]] + s[1..];
      assert s[0].date >= rest[0].date;
      [s[0]] + rest
  }

  /** The same notifications, newest first. */
  function SortNewestFirst(s: seq<Notification>): (r: seq<Notification>)
    ensures NewestFirst(r)
    ensures multiset(r) == multiset(s)
  {
    if s == [] then []
    else
      assert s == [s[0]] + s[1..];
      Insert(s[0], SortNewestFirst(s[1..]))
  }

  predicate IsRole(role: string) {
    role == "Students" || role == "Drivers"
  }

  /**
   * getUserNotifications: a role is required and must be Students or Drivers (Both is not
   * a role); the answer is every notification reaching it, newest first.
   */
  function GetUserNotifications(all: seq<Notification>, role: string): (r: Reply<Reason, seq<Notification>>)
    ensures !Given(role) ==> r == Refused(400, RoleRequired)
    ensures Given(role) && !IsRole(role) ==> r == Refused(400, InvalidRole)
    ensures r.Found? <==> IsRole(role)
    ensures r.Found? ==> NewestFirst(r.value)
    ensures r.Found? ==> forall n :: multiset(r.value)[n] == if Reaches(n, role) then multiset(all)[n] else 0
  {
    if !Given(role) then Refused(400, RoleRequired)
    else if !IsRole(role) then Refused(400, InvalidRole)
    else Found(SortNewestFirst(ForRole(all, role)))
  }

  /** getAllNotifications: every notification, newest first. */
  function GetAllNotifications(all: seq<Notification>): (r: seq<Notification>)
    ensures NewestFirst(r) && multiset(r) == multiset(all)
  {
    SortNewestFirst(all)
  }
}
