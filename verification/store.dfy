/**
 The database the views and hooks read and write, as one immutable value.
 Tables are sequences in table order, which the model fixes as the order
 of every unordered query; `results` is keyed by submission, since a
 submission has at most one result row.
 */
module Store {
  import opened Wrappers
  import opened Seqs
  import opened Records

  /**
   A `django.contrib.auth` user. `groups` are group names;
   `permissionIds` are the user's direct `user_permissions`; `perms` is what
   the authentication backend answers to `has_perm("app.codename")`.
   */
  datatype User = User(
    pk: int, email: string, groups: set<string>, permissionIds: set<int>,
    perms: set<string>, isStaff: bool)

  datatype Permission = Permission(id: int, appLabel: string, codename: string)

  datatype Db = Db(
    users: seq<User>,
    groupPermissions: map<string, set<int>>,
    permissions: seq<Permission>,
    submissions: seq<Submission>,
    results: map<int, SubmissionResult>,
    assignments: seq<Assignment>,
    reviews: seq<Review>,
    messages: seq<Message>,
    documents: seq<Document>,
    templates: set<int>,
    notifications: seq<Notification>)

  function UserPk(pk: int): User -> bool {
    (u: User) => u.pk == pk
  }

  function SubmissionPk(pk: int): Submission -> bool {
    (s: Submission) => s.pk == pk
  }

  /** The user row with key `pk`, if any. */
  function FindUser(db: Db, pk: int): (r: Option<User>)
    ensures r.Some? ==> r.value in db.users && r.value.pk == pk
    ensures r.None? ==> forall i :: 0 <= i < |db.users| ==> db.users[i].pk != pk
  {
    match FirstIndex(db.users, UserPk(pk))
    case None => None
    case Some(i) => Some(db.users[i])
  }

  /** The result row of submission `pk`, if one has been created. */
  function ResultOf(db: Db, pk: int): Option<SubmissionResult> {
    if pk in db.results then Some(db.results[pk]) else None
  }

  /** The user has written at least one review of submission `sub`. */
  predicate Reviewed(db: Db, sub: int, user: int) {
    exists i :: 0 <= i < |db.reviews| && db.reviews[i].submission == sub && db.reviews[i].user == user
  }

  /** The user has posted at least one message on submission `sub`. */
  predicate Messaged(db: Db, sub: int, user: int) {
    exists i :: 0 <= i < |db.messages| && db.messages[i].submission == sub && db.messages[i].user == user
  }
}
