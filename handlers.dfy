/**
 * The handlers of the views that change the tables, each as a function from
 * the database before the request to the answer and the database after it.
 * `Views.Database` performs the same updates in place and is proved against
 * these functions.
 */
module Handlers {
  import opened Wrappers
  import opened Models
  import Auth
  import FileNames
  import Decimal
  import Serializers

  // ---------------------------------------------------------------- sessions

  /**
   * `set_session_id`: inserts the session row `login -> (token, userId)`.
   * The unique constraint on `Session.login` refuses a second row for the login.
   */
  function SetSessionId(t: Tables, login: string, userId: UserId, token: string): (r: Option<Tables>)
    ensures r.None? <==> login in t.sessions
    ensures r.Some? ==> r.value.sessions == t.sessions[login := SessionRow(token, userId)]
                        && r.value.users == t.users && r.value.files == t.files
                        && r.value.nextUserId == t.nextUserId && r.value.nextFileId == t.nextFileId
    ensures r.Some? && Valid(t) && userId in t.users && t.users[userId].login == login ==> Valid(r.value)
  {
    if login in t.sessions then None
    else Some(t.(sessions := t.sessions[login := SessionRow(token, userId)]))
  }

  /** The answers of `login_view`. */
  datatype LoginResult = LoggedIn(user: User) | AlreadyLoggedIn | LoginUserNotFound

  /**
   * `login_view`. A session is inserted only for valid credentials and a login
   * without a session; it binds the login to that user's id. A login that
   * already has a session gets 401 and invalid credentials get "user not
   * found"; both leave the tables as they were. `token` is the fresh
   * `uuid4()` text.
   */
  function Login(t: Tables, login: string, password: string, token: string, check: Auth.PasswordCheck): (r: (LoginResult, Tables))
    requires Valid(t)
    ensures Valid(r.1)
    ensures r.0.LoggedIn? <==> Auth.CredentialsValid(t.users, login, password, check) && login !in t.sessions
    ensures r.0 == AlreadyLoggedIn <==> Auth.CredentialsValid(t.users, login, password, check) && login in t.sessions
    ensures r.0 == LoginUserNotFound <==> !Auth.CredentialsValid(t.users, login, password, check)
    ensures r.0.LoggedIn? ==> r.0.user.id in t.users && t.users[r.0.user.id] == r.0.user && r.0.user.login == login
                              && r.1 == t.(sessions := t.sessions[login := SessionRow(token, r.0.user.id)])
    ensures !r.0.LoggedIn? ==> r.1 == t
  {
    match Auth.GetUserData(t.users, login, password, check)
    case None => (LoginUserNotFound, t)
    case Some(u) =>
      if login in t.sessions then (AlreadyLoggedIn, t)
      else
        assert u.id in t.users && t.users[u.id] == u by {
          var id :| id in t.users && t.users[id].login == login && check(password, t.users[id].password);
        }
        (LoggedIn(u), SetSessionId(t, login, u.id, token).value)
  }

  /** The answers of `logout_view`: 204 "deleted", or 401 "user not found". */
  datatype LogoutResult = LogoutDone | LogoutUserNotFound

  /**
   * `logout_view`: succeeds exactly when a session row exists for the login,
   * and never changes the tables: the row stays.
   */
  function Logout(t: Tables, login: string): (r: (LogoutResult, Tables))
    ensures r.0 == LogoutDone <==> login in t.sessions
    ensures r.1 == t
  {
    var (found, sessions') := Auth.DeleteSessionId(t.sessions, login);
    (if found then LogoutDone else LogoutUserNotFound, t.(sessions := sessions'))
  }

  // ------------------------------------------------------------------- users

  /** The answers of `UsersViewSet.create`. */
  datatype CreateUserResult = UserCreated(user: User) | CreateUserFailed

  /**
   * `UsersViewSet.create`: inserts a user with the given fields and the schema's
   * defaults. A taken login violates the unique constraint and nothing is inserted.
   */
  function CreateUser(t: Tables, name: string, login: string, password: string, email: string): (r: (CreateUserResult, Tables))
    ensures Valid(t) ==> Valid(r.1)
    ensures r.0 == CreateUserFailed <==> HasLogin(t.users, login)
    ensures r.0 == CreateUserFailed ==> r.1 == t
    ensures r.0.UserCreated? ==>
              && r.0.user == User(t.nextUserId, name, login, password, email, false, 0)
              && r.1 == t.(users := t.users[t.nextUserId := r.0.user], nextUserId := t.nextUserId + 1)
  {
    if HasLogin(t.users, login) then (CreateUserFailed, t)
    else
      var u := NewUser(t.nextUserId, name, login, password, email, None, None);
      (UserCreated(u), t.(users := t.users[u.id := u], nextUserId := t.nextUserId + 1))
  }

  /** The answers of `UsersViewSet.update`. */
  datatype UpdateUserResult = UserUpdated(user: User) | AdminNotConfirmed | UpdateUserNotFound | UpdateUserFailed

  /**
   * `UsersViewSet.update`: only the `admin` field changes, and only when
   * `request_from_admin` is truthy. A missing `new_admin_rights` would store
   * NULL in a NOT NULL column, so the save fails and nothing changes.
   */
  function UpdateUser(t: Tables, id: UserId, requestFromAdmin: bool, newAdminRights: Option<bool>): (r: (UpdateUserResult, Tables))
    ensures Valid(t) ==> Valid(r.1)
    ensures r.0 == UpdateUserNotFound <==> id !in t.users
    ensures r.0 == AdminNotConfirmed <==> id in t.users && !requestFromAdmin
    ensures r.0 == UpdateUserFailed <==> id in t.users && requestFromAdmin && newAdminRights.None?
    ensures !r.0.UserUpdated? ==> r.1 == t
    ensures r.0.UserUpdated? ==>
              && id in t.users && newAdminRights.Some?
              && r.1 == t.(users := t.users[id := t.users[id].(admin := newAdminRights.value)])
              && r.0.user == r.1.users[id]
  {
    if id !in t.users then (UpdateUserNotFound, t)
    else if !requestFromAdmin then (AdminNotConfirmed, t)
    else if newAdminRights.None? then (UpdateUserFailed, t)
    else
      var u := t.users[id].(admin := newAdminRights.value);
      (UserUpdated(u), t.(users := t.users[id := u]))
  }

  /** The answers of the two `destroy` views. */
  datatype DestroyResult = Deleted | DestroyNotFound

  /** `UsersViewSet.destroy`: deletes the user row, cascading to its files and sessions. */
  function DestroyUser(t: Tables, id: UserId): (r: (DestroyResult, Tables))
    ensures Valid(t) ==> Valid(r.1)
    ensures r.0 == DestroyNotFound <==> id !in t.users
    ensures r.0 == DestroyNotFound ==> r.1 == t
    ensures r.0 == Deleted ==> r.1 == CascadeDeleteUser(t, id)
  {
    if id !in t.users then (DestroyNotFound, t) else (Deleted, CascadeDeleteUser(t, id))
  }

  // ------------------------------------------------------------------- files

  /** The names of the files `userId` owns. */
  function OwnedNames(files: map<FileId, FileRow>, userId: UserId): set<string> {
    set f | f in files && files[f].userId == userId :: files[f].fileName
  }

  /** `File.objects.filter(user_id=userId, file_name=fileName)` is not empty. */
  function SameNameExists(files: map<FileId, FileRow>, userId: UserId, fileName: string): (b: bool)
    ensures b <==> fileName in OwnedNames(files, userId)
  {
    exists f :: f in files && files[f].userId == userId && files[f].fileName == fileName
  }

  /**
   * The answers of `FilesViewSet.create`: the created row; the 500 for an
   * insert the database refuses (a user id with no row fails the foreign key,
   * a missing `last_upload_date` the NOT NULL constraint), with nothing saved;
   * and the 500 raised by reading `FileSerializer(file).data` after both saves.
   */
  datatype CreateFileResult = FileCreated(file: FileRow) | CreateFileFailed | CreatedNotSerialized(file: FileRow)

  /**
   * `FilesViewSet.create`, for the value `lastUploadDate` that the `File(...)`
   * call gives `last_upload_date` (as written it gives none: see
   * `CreateFileAsWritten`). It inserts the file under the requested name, or
   * under `add_postfix` of it when the owner already has a file of that name
   * (the new name is not checked again), with an empty link; then raises the
   * owner's `files_storage_size` by `int(file_size)`; only then is the new
   * row serialized for the answer. An insert naming no existing user, or
   * without a `last_upload_date`, is refused and changes nothing.
   */
  function CreateFile(t: Tables, fileName: string, userId: UserId, comment: string, fileSize: int,
                      lastUploadDate: Option<Timestamp>): (r: (CreateFileResult, Tables))
    ensures Valid(t) ==> Valid(r.1)
    ensures r.0 == CreateFileFailed <==> userId !in t.users || lastUploadDate.None?
    ensures r.0 == CreateFileFailed ==> r.1 == t
    ensures r.0.FileCreated? <==> userId in t.users && lastUploadDate.Some? && Serializers.FileSerializerBuilds()
    ensures r.0 != CreateFileFailed ==>
              && userId in t.users && lastUploadDate.Some?
              && r.0.file.id == t.nextFileId && r.0.file.userId == userId
              && r.0.file.fileName == (if SameNameExists(t.files, userId, fileName) then FileNames.AddPostfix(fileName) else fileName)
              && r.0.file.fileLink == "" && r.0.file.fileSize == fileSize && r.0.file.comment == comment
              && r.0.file.lastUploadDate == lastUploadDate.value
              && r.1.files == t.files[t.nextFileId := r.0.file]
              && r.1.nextFileId == t.nextFileId + 1
              && r.1.users == t.users[userId := t.users[userId].(filesStorageSize := t.users[userId].filesStorageSize + fileSize)]
              && r.1.sessions == t.sessions && r.1.nextUserId == t.nextUserId
  {
    if userId !in t.users || lastUploadDate.None? then (CreateFileFailed, t)
    else
      var finalName := if SameNameExists(t.files, userId, fileName) then FileNames.AddPostfix(fileName) else fileName;
      var f := FileRow(t.nextFileId, userId, finalName, "", fileSize, comment, lastUploadDate.value);
      var owner := t.users[userId];
      var owner' := owner.(filesStorageSize := owner.filesStorageSize + fileSize);
      var t' := t.(files := t.files[f.id := f], nextFileId := t.nextFileId + 1, users := t.users[userId := owner']);
      (if Serializers.FileSerializerBuilds() then FileCreated(f) else CreatedNotSerialized(f), t')
  }

  /**
   * The answers of `FilesViewSet.update`: the renamed row, "File_name is
   * required", 404, and the 500 raised by reading the serializer's data after
   * the rename is saved.
   */
  datatype UpdateFileResult = FileUpdated(file: FileRow) | FileNameRequired | UpdateFileNotFound | UpdatedNotSerialized(file: FileRow)

  /**
   * `FilesViewSet.update`: renames the file when a `file_name` is supplied (no
   * collision check), then serializes it for the answer; otherwise answers
   * "File_name is required" and changes nothing.
   */
  function UpdateFile(t: Tables, fileId: FileId, fileName: Option<string>): (r: (UpdateFileResult, Tables))
    ensures Valid(t) ==> Valid(r.1)
    ensures r.0 == UpdateFileNotFound <==> fileId !in t.files
    ensures r.0 == FileNameRequired <==> fileId in t.files && fileName.None?
    ensures r.0.FileUpdated? <==> fileId in t.files && fileName.Some? && Serializers.FileSerializerBuilds()
    ensures !r.0.FileUpdated? && !r.0.UpdatedNotSerialized? ==> r.1 == t
    ensures r.0.FileUpdated? || r.0.UpdatedNotSerialized? ==>
              && fileId in t.files && fileName.Some?
              && r.1 == t.(files := t.files[fileId := t.files[fileId].(fileName := fileName.value)])
              && r.0.file == r.1.files[fileId]
  {
    if fileId !in t.files then (UpdateFileNotFound, t)
    else if fileName.None? then (FileNameRequired, t)
    else
      var f := t.files[fileId].(fileName := fileName.value);
      (if Serializers.FileSerializerBuilds() then FileUpdated(f) else UpdatedNotSerialized(f), t.(files := t.files[fileId := f]))
  }

  /**
   * `FilesViewSet.create` as written: the `File(...)` call at
   * app/views.py:201-208 sets no `last_upload_date`, so the insert at line 209
   * is refused by the NOT NULL constraint; the view answers 500 and nothing
   * is saved, neither the row nor the owner's counter.
   */
  function CreateFileAsWritten(t: Tables, fileName: string, userId: UserId, comment: string, fileSize: int): (r: (CreateFileResult, Tables))
    ensures r.0 == CreateFileFailed
    ensures r.1 == t
  {
    CreateFile(t, fileName, userId, comment, fileSize, None)
  }

  /**
   * The discrepancy: for an existing owner the upload as written stores
   * nothing, while the upload that gives `last_upload_date` a value stores
   * the new row.
   */
  lemma UploadAsWrittenStoresNothing(t: Tables, fileName: string, userId: UserId, comment: string, fileSize: int, now: Timestamp)
    requires Valid(t) && userId in t.users
    ensures CreateFileAsWritten(t, fileName, userId, comment, fileSize).1 == t
    ensures t.nextFileId !in t.files
    ensures t.nextFileId in CreateFile(t, fileName, userId, comment, fileSize, Some(now)).1.files
  {
  }

  /**
   * With `FileSerializer` as declared, every upload for an existing user
   * whose insert succeeds answers 500, although its row and the owner's
   * counter are saved.
   */
  lemma UploadIsNotSerialized(t: Tables, fileName: string, userId: UserId, comment: string, fileSize: int, now: Timestamp)
    requires userId in t.users
    ensures CreateFile(t, fileName, userId, comment, fileSize, Some(now)).0.CreatedNotSerialized?
  {
    Serializers.FileSerializerFails();
  }

  /** Likewise every rename of an existing file answers 500, although the new name is saved. */
  lemma RenameIsNotSerialized(t: Tables, fileId: FileId, newName: string)
    requires fileId in t.files
    ensures UpdateFile(t, fileId, Some(newName)).0.UpdatedNotSerialized?
  {
    Serializers.FileSerializerFails();
  }

  /** `FilesViewSet.destroy`: deletes the file row and leaves every storage counter as it was. */
  function DestroyFile(t: Tables, fileId: FileId): (r: (DestroyResult, Tables))
    ensures Valid(t) ==> Valid(r.1)
    ensures r.0 == DestroyNotFound <==> fileId !in t.files
    ensures r.1.files == t.files - {fileId}
    ensures r.1.users == t.users && r.1.sessions == t.sessions
    ensures r.1.nextUserId == t.nextUserId && r.1.nextFileId == t.nextFileId
  {
    if fileId !in t.files then (DestroyNotFound, t) else (Deleted, t.(files := t.files - {fileId}))
  }

  /** The JSON value of `request.data["file_id"]`: a string, or any other value. */
  datatype FileIdValue = IdText(text: string) | IdOther

  /**
   * The 500 answers of `get_link_for_file`: `uuid5` refuses a name that is not
   * text (`TypeError`), the id column refuses text that is not a number
   * (`ValueError`), no row has the id, or the `update(…)` call on the model
   * instance, which has no such method.
   */
  datatype LinkResult = LinkNameNotText | LinkIdNotNumeric | LinkFileNotFound | LinkUpdateFailed

  /**
   * `get_link_for_file`: hashes the `file_id` value as sent into the link,
   * looks the row up by the id the text names, then fails before anything is
   * stored, so the tables are unchanged.
   */
  function GetLinkForFile(t: Tables, fileId: FileIdValue): (r: (LinkResult, Tables))
    ensures r.0 == LinkNameNotText <==> fileId.IdOther?
    ensures r.0 == LinkIdNotNumeric <==> fileId.IdText? && Decimal.ParseNat(fileId.text).None?
    ensures r.0 == LinkFileNotFound <==>
              fileId.IdText? && Decimal.ParseNat(fileId.text).Some? && Decimal.ParseNat(fileId.text).value !in t.files
    ensures r.1 == t
  {
    match fileId
    case IdOther => (LinkNameNotText, t)
    case IdText(text) =>
      match Decimal.ParseNat(text)
      case None => (LinkIdNotNumeric, t)
      case Some(id) => if id !in t.files then (LinkFileNotFound, t) else (LinkUpdateFailed, t)
  }
}
