/**
 * Read-only helpers and views over the tables: the credentials check, the
 * cookie-to-session lookup, the user of an open session, `check_session`,
 * `delete_session_id` and the permission test of `download_file`.
 */
module Auth {
  import opened Wrappers
  import opened Models
  import Decimal
  import Serializers

  /**
   * `check_password(plain, stored)`: the password-hashing library, not part of
   * the model, so every view that needs it takes it as a parameter.
   */
  type PasswordCheck = (string, string) -> bool

  /** `User.objects.filter(login=login)`: the id of the one user with that login. */
  function FindByLogin(users: map<UserId, User>, login: string): (r: Option<UserId>)
    requires UniqueLogins(users)
    ensures r.None? <==> !HasLogin(users, login)
    ensures r.Some? ==> r.value in users && users[r.value].login == login
  {
    if HasLogin(users, login) then
      var id :| id in users && users[id].login == login;
      Some(id)
    else None
  }

  /** `get_user_data`: the user's row when the login exists and the password checks out. */
  function GetUserData(users: map<UserId, User>, login: string, password: string, check: PasswordCheck): (r: Option<User>)
    requires UniqueLogins(users)
    ensures r.Some? <==> exists id :: id in users && users[id].login == login && check(password, users[id].password)
    ensures r.Some? ==> r.value.login == login && check(password, r.value.password)
    ensures r.Some? ==> forall id :: id in users && users[id].login == login ==> users[id] == r.value
  {
    match FindByLogin(users, login)
    case None => None
    case Some(id) => if check(password, users[id].password) then Some(users[id]) else None
  }

  /** The logins whose session row carries the session id `sid` (the column is not unique). */
  function SessionsWithId(sessions: map<string, SessionRow>, sid: string): set<string> {
    set l | l in sessions && sessions[l].sessionId == sid
  }

  /**
   * The outcome of `Session.objects.get(session_id=…)`: no row, the one row,
   * or more than one row (`MultipleObjectsReturned`, which the helper does not catch).
   */
  datatype SessionLookup = NoSession | Found(login: string, row: SessionRow) | MultipleSessions

  /** `get_user_session`: the session named by the `user_session_id` cookie, if any. */
  function GetUserSession(sessions: map<string, SessionRow>, cookie: Option<string>): (r: SessionLookup)
    ensures r.NoSession? <==> cookie.None? || SessionsWithId(sessions, cookie.value) == {}
    ensures r.Found? ==> cookie.Some? && SessionsWithId(sessions, cookie.value) == {r.login}
                         && r.login in sessions && sessions[r.login] == r.row
    ensures r.MultipleSessions? <==> cookie.Some? && |SessionsWithId(sessions, cookie.value)| >= 2
  {
    match cookie
    case None => NoSession
    case Some(sid) =>
      var hits := SessionsWithId(sessions, sid);
      if hits == {} then NoSession
      else if exists l :: l in hits && hits == {l} then
        var l :| l in hits && hits == {l};
        Found(l, sessions[l])
      else
        NotSingletonHasTwo(hits);
        MultipleSessions
  }

  /** A non-empty set that is not a singleton has at least two elements. */
  lemma NotSingletonHasTwo<T>(s: set<T>)
    requires s != {} && !(exists x :: x in s && s == {x})
    ensures |s| >= 2
  {
    var x :| x in s;
    assert s - {x} != {};
    assert s == (s - {x}) + {x};
  }

  /** What `get_user_data_with_exist_session` yields. */
  datatype SessionUser = Anonymous | Authenticated(user: User) | LookupFailed

  /** `get_user_data_with_exist_session`: the user row of the session the cookie names. */
  function GetUserDataWithExistSession(t: Tables, cookie: Option<string>): (r: SessionUser)
    requires UniqueLogins(t.users)
    ensures r.LookupFailed? <==> GetUserSession(t.sessions, cookie).MultipleSessions?
    ensures r.Authenticated? <==>
              GetUserSession(t.sessions, cookie).Found? && HasLogin(t.users, GetUserSession(t.sessions, cookie).login)
    ensures r.Authenticated? ==>
              && r.user.login == GetUserSession(t.sessions, cookie).login
              && exists id :: id in t.users && t.users[id] == r.user
  {
    match GetUserSession(t.sessions, cookie)
    case NoSession => Anonymous
    case MultipleSessions => LookupFailed
    case Found(login, _) =>
      match FindByLogin(t.users, login)
      case None => Anonymous
      case Some(id) => Authenticated(t.users[id])
  }

  /**
   * On a valid database the cookie authenticates exactly when one session row
   * carries it, and then as the user that row belongs to; more than one row
   * with that id is the `MultipleObjectsReturned` failure.
   */
  lemma SessionUserIsSessionOwner(t: Tables, cookie: Option<string>)
    requires Valid(t)
    ensures var r := GetUserDataWithExistSession(t, cookie);
            && (r.Authenticated? <==> GetUserSession(t.sessions, cookie).Found?)
            && (r.Authenticated? ==> r.user == t.users[GetUserSession(t.sessions, cookie).row.userId])
            && (r.LookupFailed? <==> GetUserSession(t.sessions, cookie).MultipleSessions?)
  {
  }

  /** The answers of `check_session`. */
  datatype CheckSessionResult = Confirmed(user: User) | WrongCredentials | NoSessionForLogin

  function CredentialsValid(users: map<UserId, User>, login: string, password: string, check: PasswordCheck): bool {
    exists id :: id in users && users[id].login == login && check(password, users[id].password)
  }

  /**
   * `check_session`: with a session open for the login the credentials decide
   * between the user's data and "wrong login or password"; without one the
   * answer is "user not found" whatever the password.
   */
  function CheckSession(t: Tables, login: string, password: string, check: PasswordCheck): (r: CheckSessionResult)
    requires Valid(t)
    ensures r == NoSessionForLogin <==> login !in t.sessions
    ensures r == WrongCredentials <==> login in t.sessions && !CredentialsValid(t.users, login, password, check)
    ensures r.Confirmed? <==> login in t.sessions && CredentialsValid(t.users, login, password, check)
    ensures r.Confirmed? ==> r.user == t.users[t.sessions[login].userId]
  {
    if login in t.sessions then
      match GetUserData(t.users, login, password, check)
      case Some(u) => Confirmed(u)
      case None => WrongCredentials
    else NoSessionForLogin
  }

  /**
   * `delete_session_id`: whether a session row exists for the login, and the
   * session table afterwards. The row is not removed: `del` only drops the
   * local name of the query set.
   */
  function DeleteSessionId(sessions: map<string, SessionRow>, login: string): (r: (bool, map<string, SessionRow>))
    ensures r.0 <==> login in sessions
    ensures r.1 == sessions
  {
    (login in sessions, sessions)
  }

  /**
   * The `user_id` of a request body as `download_file` compares it, untouched,
   * with the integer `file_obj.user_id`: a JSON number, or any other value
   * Python finds equal to that integer (`true` equals 1), is a number; text
   * such as "3", `null`, a list or an object never equals an integer.
   */
  datatype SentUserId = UserIdNumber(n: int) | UserIdOther

  /**
   * The permission test of `download_file`: the owner, when the sent id
   * equals the owner's id as a number, always; anyone else, including an
   * owner who sends the id as text, only with a flag set.
   */
  function DownloadPermitted(file: FileRow, callerId: SentUserId, shareFile: bool, isUserFilesForAdmin: bool): (ok: bool)
    ensures callerId == UserIdNumber(file.userId) ==> ok
    ensures callerId != UserIdNumber(file.userId) ==> (ok <==> shareFile || isUserFilesForAdmin)
  {
    shareFile || isUserFilesForAdmin || (callerId.UserIdNumber? && callerId.n == file.userId)
  }

  /**
   * The ways `download_file` ends: no such file row (404), "insufficient
   * rights" (400), the `ImproperlyConfigured` raised by reading
   * `FileSerializer(file_obj).data` (500, not caught), no file at the media
   * path (404), and the error raised by `file_obj.update(…)`, which a model
   * instance does not have (500).
   */
  datatype DownloadResult = FileNotFound | InsufficientRights | SerializerFailed | MissingOnDisk | UpdateFailed

  /**
   * `download_file`. The media name comes from the serialized `id`, so the
   * serializer is read before anything else happens to a permitted request.
   * `mediaExists` stands for `os.path.exists` on a name under the media root;
   * the handler looks for the file's decimal id there.
   */
  function Download(files: map<FileId, FileRow>, callerId: SentUserId, fileId: FileId, shareFile: bool,
                    isUserFilesForAdmin: bool, mediaExists: string -> bool): (r: DownloadResult)
    ensures r == FileNotFound <==> fileId !in files
    ensures r == InsufficientRights <==>
              fileId in files && !shareFile && !isUserFilesForAdmin && callerId != UserIdNumber(files[fileId].userId)
    ensures r == SerializerFailed <==>
              fileId in files && DownloadPermitted(files[fileId], callerId, shareFile, isUserFilesForAdmin)
              && !Serializers.FileSerializerBuilds()
    ensures r == MissingOnDisk <==>
              fileId in files && DownloadPermitted(files[fileId], callerId, shareFile, isUserFilesForAdmin)
              && Serializers.FileSerializerBuilds() && !mediaExists(Decimal.NatToString(fileId))
    ensures r == UpdateFailed ==> Serializers.FileSerializerBuilds() && mediaExists(Decimal.NatToString(fileId))
  {
    if fileId !in files then FileNotFound
    else if DownloadPermitted(files[fileId], callerId, shareFile, isUserFilesForAdmin) then
      if !Serializers.FileSerializerBuilds() then SerializerFailed
      else if !mediaExists(Decimal.NatToString(fileId)) then MissingOnDisk
      else UpdateFailed
    else InsufficientRights
  }

  /**
   * With `FileSerializer` as declared, every permitted download of an existing
   * file ends at the serializer: the existence test and the update after it
   * are never reached.
   */
  lemma PermittedDownloadFailsAtSerializer(files: map<FileId, FileRow>, callerId: SentUserId, fileId: FileId, shareFile: bool,
                                           isUserFilesForAdmin: bool, mediaExists: string -> bool)
    requires fileId in files && DownloadPermitted(files[fileId], callerId, shareFile, isUserFilesForAdmin)
    ensures Download(files, callerId, fileId, shareFile, isUserFilesForAdmin, mediaExists) == SerializerFailed
  {
    Serializers.FileSerializerFails();
  }

  /**
   * The name `download_file` tests under the media root is never the path the
   * upload stored the bytes under (a decimal id against `user_<id>/<name>`).
   */
  lemma DownloadPathIsNotUploadPath(fileId: FileId, owner: UserId, fileName: string)
    ensures Decimal.NatToString(fileId) != UserDirectoryPath(owner, fileName)
  {
  }
}
