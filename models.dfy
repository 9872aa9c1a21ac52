/**
 * The three tables of the storage backend (users, files, sessions), the
 * invariant they keep, the upload path of a file's bytes,
 * the defaults of a new user and the cascade that deleting a user triggers.
 */
module Models {
  import opened Wrappers
  import Decimal

  type UserId = nat
  type FileId = nat

  /** A row of the user table. `password` is whatever the row stores; it is never interpreted here. */
  datatype User = User(
    id: UserId,
    name: string,
    login: string,
    password: string,
    email: string,
    admin: bool,
    filesStorageSize: int)

  /** A reading of the clock, as a number; the clock itself is a parameter. */
  type Timestamp = int

  /**
   * A row of the file table. `last_upload_date` is declared `blank=True` but
   * not `null=True` and has no default, so the column is NOT NULL and every
   * stored row has a value. The uploaded content and the creation date
   * (`auto_now_add`) are not part of the model.
   */
  datatype FileRow = FileRow(
    id: FileId,
    userId: UserId,
    fileName: string,
    fileLink: string,
    fileSize: int,
    comment: string,
    lastUploadDate: Timestamp)

  /** A row of the session table; the table is keyed by the row's login. */
  datatype SessionRow = SessionRow(sessionId: string, userId: UserId)

  /**
   * The whole database. `nextUserId` and `nextFileId` are the auto-increment
   * counters of the two primary keys.
   */
  datatype Tables = Tables(
    users: map<UserId, User>,
    files: map<FileId, FileRow>,
    sessions: map<string, SessionRow>,
    nextUserId: nat,
    nextFileId: nat)

  /** The database right after the migrations: empty tables, keys starting at 1. */
  function Migrated(): (t: Tables)
    ensures Valid(t)
    ensures t.users == map[] && t.files == map[] && t.sessions == map[]
  {
    Tables(map[], map[], map[], 1, 1)
  }

  /** `User.login` is declared unique. */
  predicate UniqueLogins(users: map<UserId, User>) {
    forall a, b :: a in users && b in users && users[a].login == users[b].login ==> a == b
  }

  predicate HasLogin(users: map<UserId, User>, login: string) {
    exists id :: id in users && users[id].login == login
  }

  /**
   * The invariant of the tables. Two parts are declared by the schema: logins
   * are unique, and every file and every session refers to an existing user
   * (the two foreign keys). The rest is kept by the views rather than
   * declared: a map key agrees with its row's id and lies below the
   * auto-increment counter (the model's own bookkeeping of the id sequences),
   * and a session keyed by a login belongs to the user with that login, which
   * `login_view` ensures by opening sessions only for verified credentials.
   */
  predicate Valid(t: Tables) {
    && (forall id :: id in t.users ==> t.users[id].id == id && id < t.nextUserId)
    && (forall id :: id in t.files ==> t.files[id].id == id && id < t.nextFileId && t.files[id].userId in t.users)
    && UniqueLogins(t.users)
    && (forall l :: l in t.sessions ==> t.sessions[l].userId in t.users && t.users[t.sessions[l].userId].login == l)
  }

  /**
   * A new user row: `admin` defaults to false and `files_storage_size` to 0
   * when the creator does not give them.
   */
  function NewUser(id: UserId, name: string, login: string, password: string, email: string,
                   admin: Option<bool>, filesStorageSize: Option<int>): (u: User)
    ensures u.id == id && u.name == name && u.login == login && u.password == password && u.email == email
    ensures admin.None? ==> !u.admin
    ensures admin.Some? ==> u.admin == admin.value
    ensures filesStorageSize.None? ==> u.filesStorageSize == 0
    ensures filesStorageSize.Some? ==> u.filesStorageSize == filesStorageSize.value
  {
    User(id, name, login, password, email,
         if admin.Some? then admin.value else false,
         if filesStorageSize.Some? then filesStorageSize.value else 0)
  }

  /** The relative path under the media root where a file's bytes are uploaded. */
  function UserDirectoryPath(userId: UserId, fileName: string): (p: string)
    ensures |p| == 6 + |Decimal.NatToString(userId)| + |fileName|
    ensures p[..5] == "user_" && p[|p| - |fileName|..] == fileName
  {
    "user_" + Decimal.NatToString(userId) + "/" + fileName
  }

  /** The first index at or after `from` holding `c`, or `|s|` when there is none. */
  function IndexOf(s: string, c: char, from: nat): (i: nat)
    requires from <= |s|
    ensures from <= i <= |s|
    ensures i < |s| ==> s[i] == c
    ensures forall j :: from <= j < i ==> s[j] != c
    decreases |s| - from
  {
    if from == |s| then |s| else if s[from] == c then from else IndexOf(s, c, from + 1)
  }

  /** Recovers the owner id and the file name from an upload path. */
  function SplitUserDirectoryPath(p: string): Option<(UserId, string)> {
    if |p| < 5 || p[..5] != "user_" then None
    else
      var k := IndexOf(p, '/', 5);
      if k == |p| || k == 5 || !Decimal.AllDigits(p[5..k]) then None
      else Some((Decimal.DigitsValue(p[5..k]), p[k + 1..]))
  }

  lemma UserDirectoryPathRoundTrip(userId: UserId, fileName: string)
    ensures SplitUserDirectoryPath(UserDirectoryPath(userId, fileName)) == Some((userId, fileName))
  {
    var digits := Decimal.NatToString(userId);
    var p := UserDirectoryPath(userId, fileName);
    var k := 5 + |digits|;
    assert p[5..k] == digits;
    assert p[k] == '/';
    assert forall j :: 5 <= j < k ==> p[j] == digits[j - 5] && Decimal.IsDigit(p[j]);
    assert IndexOf(p, '/', 5) == k;
    assert p[k + 1..] == fileName;
    Decimal.NatToStringRoundTrip(userId);
  }

  /** Two uploads land on the same path only for the same owner and the same file name. */
  lemma UserDirectoryPathInjective(u1: UserId, n1: string, u2: UserId, n2: string)
    ensures UserDirectoryPath(u1, n1) == UserDirectoryPath(u2, n2) ==> u1 == u2 && n1 == n2
  {
    UserDirectoryPathRoundTrip(u1, n1);
    UserDirectoryPathRoundTrip(u2, n2);
  }

  /**
   * Deleting a user row: `on_delete=CASCADE` on `File.user` and `Session.user`
   * deletes that user's files and sessions with it.
   */
  function CascadeDeleteUser(t: Tables, id: UserId): (t': Tables)
    ensures t'.users == t.users - {id}
    ensures forall f :: f in t'.files <==> f in t.files && t.files[f].userId != id
    ensures forall f :: f in t'.files ==> t'.files[f] == t.files[f]
    ensures forall l :: l in t'.sessions <==> l in t.sessions && t.sessions[l].userId != id
    ensures forall l :: l in t'.sessions ==> t'.sessions[l] == t.sessions[l]
    ensures t'.nextUserId == t.nextUserId && t'.nextFileId == t.nextFileId
    ensures Valid(t) ==> Valid(t')
  {
    Tables(
      t.users - {id},
      map f | f in t.files && t.files[f].userId != id :: t.files[f],
      map l | l in t.sessions && t.sessions[l].userId != id :: t.sessions[l],
      t.nextUserId,
      t.nextFileId)
  }
}
