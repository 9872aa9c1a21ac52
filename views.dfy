/**
 * The database the views work on, as an object whose tables the handlers
 * update in place. Each method performs one view's reads and writes and is
 * proved to produce the answer and the tables that the matching function of
 * `Handlers` describes, keeping `Models.Valid`.
 */
module Views {
  import opened Wrappers
  import opened Models
  import Auth
  import FileNames
  import ShareLinks
  import Handlers
  import Decimal
  import Serializers

  class Database {
    var users: map<UserId, User>
    var files: map<FileId, FileRow>
    var sessions: map<string, SessionRow>
    var nextUserId: nat
    var nextFileId: nat

    function Snapshot(): Tables
      reads this
    {
      Tables(users, files, sessions, nextUserId, nextFileId)
    }

    predicate Valid()
      reads this
    {
      Models.Valid(Snapshot())
    }

    /** The database after the migrations, before any request. */
    constructor ()
      ensures Valid()
      ensures Snapshot() == Migrated()
    {
      users, files, sessions := map[], map[], map[];
      nextUserId, nextFileId := 1, 1;
    }

    method SetSessionId(login: string, userId: UserId, token: string) returns (ok: bool)
      modifies this
      ensures ok == Handlers.SetSessionId(old(Snapshot()), login, userId, token).Some?
      ensures ok ==> Snapshot() == Handlers.SetSessionId(old(Snapshot()), login, userId, token).value
      ensures !ok ==> Snapshot() == old(Snapshot())
    {
      if login in sessions {
        return false;
      }
      sessions := sessions[login := SessionRow(token, userId)];
      ok := true;
    }

    method Login(login: string, password: string, token: string, check: Auth.PasswordCheck) returns (r: Handlers.LoginResult)
      requires Valid()
      modifies this
      ensures Valid()
      ensures (r, Snapshot()) == Handlers.Login(old(Snapshot()), login, password, token, check)
    {
      var userData := Auth.GetUserData(users, login, password, check);
      if userData.None? {
        return Handlers.LoginUserNotFound;
      }
      if login in sessions {
        return Handlers.AlreadyLoggedIn;
      }
      var ok := SetSessionId(login, userData.value.id, token);
      r := Handlers.LoggedIn(userData.value);
    }

    method Logout(login: string) returns (r: Handlers.LogoutResult)
      ensures r == Handlers.LogoutDone <==> login in sessions
      ensures r == Handlers.Logout(Snapshot(), login).0
    {
      var (found, _) := Auth.DeleteSessionId(sessions, login);
      r := if found then Handlers.LogoutDone else Handlers.LogoutUserNotFound;
    }

    method CreateUser(name: string, login: string, password: string, email: string) returns (r: Handlers.CreateUserResult)
      requires Valid()
      modifies this
      ensures Valid()
      ensures (r, Snapshot()) == Handlers.CreateUser(old(Snapshot()), name, login, password, email)
    {
      if exists id :: id in users && users[id].login == login {
        return Handlers.CreateUserFailed;
      }
      var user := NewUser(nextUserId, name, login, password, email, None, None);
      users := users[user.id := user];
      nextUserId := nextUserId + 1;
      r := Handlers.UserCreated(user);
    }

    method UpdateUser(id: UserId, requestFromAdmin: bool, newAdminRights: Option<bool>) returns (r: Handlers.UpdateUserResult)
      requires Valid()
      modifies this
      ensures Valid()
      ensures (r, Snapshot()) == Handlers.UpdateUser(old(Snapshot()), id, requestFromAdmin, newAdminRights)
    {
      if id !in users {
        return Handlers.UpdateUserNotFound;
      }
      if !requestFromAdmin {
        return Handlers.AdminNotConfirmed;
      }
      if newAdminRights.None? {
        return Handlers.UpdateUserFailed;
      }
      var instance := users[id];
      instance := instance.(admin := newAdminRights.value);
      users := users[id := instance];
      r := Handlers.UserUpdated(instance);
    }

    method DestroyUser(id: UserId) returns (r: Handlers.DestroyResult)
      requires Valid()
      modifies this
      ensures Valid()
      ensures (r, Snapshot()) == Handlers.DestroyUser(old(Snapshot()), id)
    {
      if id !in users {
        return Handlers.DestroyNotFound;
      }
      files := map f | f in files && files[f].userId != id :: files[f];
      sessions := map l | l in sessions && sessions[l].userId != id :: sessions[l];
      users := users - {id};
      r := Handlers.Deleted;
    }

    method CreateFile(fileName: string, userId: UserId, comment: string, fileSize: int, lastUploadDate: Option<Timestamp>)
      returns (r: Handlers.CreateFileResult)
      requires Valid()
      modifies this
      ensures Valid()
      ensures (r, Snapshot()) == Handlers.CreateFile(old(Snapshot()), fileName, userId, comment, fileSize, lastUploadDate)
    {
      ghost var before := Snapshot();
      if userId !in users {
        return Handlers.CreateFileFailed;
      }
      var finalFileName := fileName;
      if exists f :: f in files && files[f].userId == userId && files[f].fileName == fileName {
        finalFileName := FileNames.AddPostfix(fileName);
      }
      if lastUploadDate.None? {
        // The insert would store NULL in the NOT NULL `last_upload_date`.
        return Handlers.CreateFileFailed;
      }
      var file := FileRow(nextFileId, userId, finalFileName, "", fileSize, comment, lastUploadDate.value);
      files := files[file.id := file];
      nextFileId := nextFileId + 1;

      var fileOwner := users[userId];
      var storageSizeOfOwner := fileOwner.filesStorageSize;
      var finalStorageSize := storageSizeOfOwner + fileSize;
      fileOwner := fileOwner.(filesStorageSize := finalStorageSize);
      users := users[userId := fileOwner];
      // Reading `FileSerializer(file).data` for the answer.
      if Serializers.FileSerializerBuilds() {
        r := Handlers.FileCreated(file);
      } else {
        r := Handlers.CreatedNotSerialized(file);
      }
      assert (r, Snapshot()) == Handlers.CreateFile(before, fileName, userId, comment, fileSize, lastUploadDate);
    }

    method UpdateFile(fileId: FileId, fileName: Option<string>) returns (r: Handlers.UpdateFileResult)
      requires Valid()
      modifies this
      ensures Valid()
      ensures (r, Snapshot()) == Handlers.UpdateFile(old(Snapshot()), fileId, fileName)
    {
      if fileId !in files {
        return Handlers.UpdateFileNotFound;
      }
      if fileName.None? {
        return Handlers.FileNameRequired;
      }
      var instance := files[fileId];
      instance := instance.(fileName := fileName.value);
      files := files[fileId := instance];
      if Serializers.FileSerializerBuilds() {
        r := Handlers.FileUpdated(instance);
      } else {
        r := Handlers.UpdatedNotSerialized(instance);
      }
    }

    method DestroyFile(fileId: FileId) returns (r: Handlers.DestroyResult)
      requires Valid()
      modifies this
      ensures Valid()
      ensures (r, Snapshot()) == Handlers.DestroyFile(old(Snapshot()), fileId)
    {
      if fileId !in files {
        return Handlers.DestroyNotFound;
      }
      files := files - {fileId};
      r := Handlers.Deleted;
    }

    method GetLinkForFile(sha1: ShareLinks.Sha1, fileId: Handlers.FileIdValue) returns (r: Handlers.LinkResult)
      ensures r == Handlers.GetLinkForFile(Snapshot(), fileId).0
    {
      if fileId.IdOther? {
        return Handlers.LinkNameNotText;
      }
      var fileLink := ShareLinks.ShareLink(sha1, fileId.text);
      var id := Decimal.ParseNat(fileId.text);
      if id.None? {
        return Handlers.LinkIdNotNumeric;
      }
      if id.value !in files {
        return Handlers.LinkFileNotFound;
      }
      r := Handlers.LinkUpdateFailed;
    }
  }
}
