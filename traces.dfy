/**
 * Properties of sequences of requests to the state-changing views: what the
 * storage counter adds up to, that no request stores a share link, that a
 * session once opened is only ever removed with its user, and that the
 * session cookie authenticates the user who logged in.
 */
module Traces {
  import opened Wrappers
  import opened Models
  import Auth
  import FileNames
  import Handlers

  /** A request to one of the views that change the tables. */
  datatype Request =
    | Register(name: string, login: string, password: string, email: string)
    | SetAdmin(userId: UserId, requestFromAdmin: bool, newAdminRights: Option<bool>)
    | DeleteUser(userId: UserId)
    | Upload(fileName: string, owner: UserId, comment: string, fileSize: int, lastUploadDate: Option<Timestamp>)
    | Rename(fileId: FileId, newName: Option<string>)
    | Remove(fileId: FileId)
    | LogIn(login: string, password: string, token: string)
    | LogOut(login: string)

  function Apply(t: Tables, q: Request, check: Auth.PasswordCheck): (t': Tables)
    requires Valid(t)
    ensures Valid(t')
  {
    match q
    case Register(name, login, password, email) => Handlers.CreateUser(t, name, login, password, email).1
    case SetAdmin(id, fromAdmin, rights) => Handlers.UpdateUser(t, id, fromAdmin, rights).1
    case DeleteUser(id) => Handlers.DestroyUser(t, id).1
    case Upload(name, owner, comment, size, date) => Handlers.CreateFile(t, name, owner, comment, size, date).1
    case Rename(id, name) => Handlers.UpdateFile(t, id, name).1
    case Remove(id) => Handlers.DestroyFile(t, id).1
    case LogIn(login, password, token) => Handlers.Login(t, login, password, token, check).1
    case LogOut(login) => Handlers.Logout(t, login).1
  }

  function Run(t: Tables, qs: seq<Request>, check: Auth.PasswordCheck): (t': Tables)
    requires Valid(t)
    ensures Valid(t')
    decreases |qs|
  {
    if qs == [] then t else Run(Apply(t, qs[0], check), qs[1..], check)
  }

  /** The requests delete the user `id`. */
  predicate DeletesUser(qs: seq<Request>, id: UserId) {
    exists i :: 0 <= i < |qs| && qs[i] == DeleteUser(id)
  }

  /** `q` is an upload for `owner` whose insert carries a `last_upload_date`. */
  predicate DatedUpload(q: Request, owner: UserId) {
    q.Upload? && q.owner == owner && q.lastUploadDate.Some?
  }

  /** The declared sizes of the dated uploads the requests make for `owner`. */
  function UploadedBytes(qs: seq<Request>, owner: UserId): int
    decreases |qs|
  {
    if qs == [] then 0
    else (if DatedUpload(qs[0], owner) then qs[0].fileSize else 0) + UploadedBytes(qs[1..], owner)
  }

  /**
   * Uploads as `FilesViewSet.create` makes them, without a `last_upload_date`,
   * add nothing: with `StorageCounterCountsUploadsOnly`, the counter of a user
   * never moves.
   */
  lemma {:induction false} UndatedUploadsAddNothing(qs: seq<Request>, owner: UserId)
    requires forall i :: 0 <= i < |qs| && qs[i].Upload? ==> qs[i].lastUploadDate.None?
    ensures UploadedBytes(qs, owner) == 0
    decreases |qs|
  {
    if qs != [] {
      assert !DatedUpload(qs[0], owner);
      assert forall i :: 0 <= i < |qs[1..]| ==> qs[1..][i] == qs[i + 1];
      UndatedUploadsAddNothing(qs[1..], owner);
    }
  }

  /**
   * One request other than deleting `owner` keeps `owner`, moves its counter
   * only by the size of a dated upload it makes, and keeps its sessions.
   */
  lemma ApplyKeepsOwner(t: Tables, q: Request, check: Auth.PasswordCheck, owner: UserId)
    requires Valid(t) && owner in t.users && q != DeleteUser(owner)
    ensures owner in Apply(t, q, check).users
    ensures Apply(t, q, check).users[owner].filesStorageSize ==
              t.users[owner].filesStorageSize + (if DatedUpload(q, owner) then q.fileSize else 0)
    ensures forall l :: l in t.sessions && t.sessions[l].userId == owner ==>
              l in Apply(t, q, check).sessions && Apply(t, q, check).sessions[l] == t.sessions[l]
  {
    match q
    case Register(name, login, password, email) =>
      assert t.nextUserId != owner;
    case LogIn(login, password, token) =>
      var (r, t') := Handlers.Login(t, login, password, token, check);
      forall l | l in t.sessions && t.sessions[l].userId == owner
        ensures l in t'.sessions && t'.sessions[l] == t.sessions[l]
      {
        assert r.LoggedIn? ==> login !in t.sessions;
      }
    case _ =>
  }

  /**
   * Whatever the order of registrations, admin updates, logins, logouts,
   * uploads, renames, deletions of files and of other users, a user's
   * `files_storage_size` ends at its start value plus the sizes of that user's
   * uploads whose insert succeeds: deleting a file never lowers it.
   */
  lemma {:induction false} StorageCounterCountsUploadsOnly(t: Tables, qs: seq<Request>, check: Auth.PasswordCheck, owner: UserId)
    requires Valid(t) && owner in t.users && !DeletesUser(qs, owner)
    ensures owner in Run(t, qs, check).users
    ensures Run(t, qs, check).users[owner].filesStorageSize == t.users[owner].filesStorageSize + UploadedBytes(qs, owner)
    decreases |qs|
  {
    if qs != [] {
      assert qs[0] != DeleteUser(owner);
      ApplyKeepsOwner(t, qs[0], check, owner);
      assert !DeletesUser(qs[1..], owner) by {
        forall i | 0 <= i < |qs[1..]| ensures qs[1..][i] != DeleteUser(owner) {
          assert qs[1..][i] == qs[i + 1];
        }
      }
      StorageCounterCountsUploadsOnly(Apply(t, qs[0], check), qs[1..], check, owner);
    }
  }

  /**
   * Sessions are never closed by logout: after any requests that do not delete
   * its user, a session row is still there unchanged, so a further login for
   * that login is refused as "already logged in".
   */
  lemma {:induction false} SessionsAreNeverClosed(t: Tables, qs: seq<Request>, check: Auth.PasswordCheck, login: string)
    requires Valid(t) && login in t.sessions && !DeletesUser(qs, t.sessions[login].userId)
    ensures login in Run(t, qs, check).sessions
    ensures Run(t, qs, check).sessions[login] == t.sessions[login]
    ensures forall password, token :: !Handlers.Login(Run(t, qs, check), login, password, token, check).0.LoggedIn?
    decreases |qs|
  {
    if qs != [] {
      var owner := t.sessions[login].userId;
      assert qs[0] != DeleteUser(owner);
      ApplyKeepsOwner(t, qs[0], check, owner);
      assert !DeletesUser(qs[1..], owner) by {
        forall i | 0 <= i < |qs[1..]| ensures qs[1..][i] != DeleteUser(owner) {
          assert qs[1..][i] == qs[i + 1];
        }
      }
      SessionsAreNeverClosed(Apply(t, qs[0], check), qs[1..], check, login);
    }
  }

  predicate NoLinks(t: Tables) {
    forall id :: id in t.files ==> t.files[id].fileLink == ""
  }

  lemma ApplyKeepsNoLinks(t: Tables, q: Request, check: Auth.PasswordCheck)
    requires Valid(t) && NoLinks(t)
    ensures NoLinks(Apply(t, q, check))
  {
    match q
    case LogIn(login, password, token) =>
      assert Handlers.Login(t, login, password, token, check).1.files == t.files;
    case _ =>
  }

  /** Uploads store an empty link and no request writes one: no file ever gets a share link. */
  lemma {:induction false} RequestsStoreNoLink(t: Tables, qs: seq<Request>, check: Auth.PasswordCheck)
    requires Valid(t) && NoLinks(t)
    ensures NoLinks(Run(t, qs, check))
    decreases |qs|
  {
    if qs != [] {
      ApplyKeepsNoLinks(t, qs[0], check);
      RequestsStoreNoLink(Apply(t, qs[0], check), qs[1..], check);
    }
  }

  /**
   * The copy name is applied once and not checked again: with `name` and
   * `add_postfix(name)` both taken, a third upload of `name` whose insert
   * carries a `last_upload_date` creates a second file called
   * `add_postfix(name)` next to the first; without one (as written) the insert
   * is refused and nothing changes.
   */
  lemma PostfixIsNotRechecked(t: Tables, name: string, owner: UserId, comment: string, size: int,
                              date: Option<Timestamp>, f1: FileId, f2: FileId)
    requires Valid(t) && owner in t.users
    requires f1 in t.files && t.files[f1].userId == owner && t.files[f1].fileName == name
    requires f2 in t.files && t.files[f2].userId == owner && t.files[f2].fileName == FileNames.AddPostfix(name)
    ensures var (r, t') := Handlers.CreateFile(t, name, owner, comment, size, date);
            && (date.None? ==> r == Handlers.CreateFileFailed && t' == t)
            && (date.Some? ==>
                  && r != Handlers.CreateFileFailed && r.file.fileName == FileNames.AddPostfix(name)
                  && r.file.id != f2 && f2 in t'.files && t'.files[f2].fileName == r.file.fileName
                  && t'.files[f2].userId == r.file.userId)
  {
  }

  /**
   * After a successful login whose token no other session carries, the cookie
   * holding that token authenticates as the user who logged in, and it still
   * does after that user's logout.
   */
  lemma CookieAuthenticatesAfterLogin(t: Tables, login: string, password: string, token: string, check: Auth.PasswordCheck)
    requires Valid(t)
    requires Auth.SessionsWithId(t.sessions, token) == {}
    requires Handlers.Login(t, login, password, token, check).0.LoggedIn?
    ensures var (r, t') := Handlers.Login(t, login, password, token, check);
            && Auth.GetUserDataWithExistSession(t', Some(token)) == Auth.Authenticated(r.user)
            && Auth.GetUserDataWithExistSession(Handlers.Logout(t', login).1, Some(token)) == Auth.Authenticated(r.user)
  {
    var (r, t') := Handlers.Login(t, login, password, token, check);
    var hits := Auth.SessionsWithId(t'.sessions, token);
    assert login in hits;
    assert hits == {login};
    assert Auth.GetUserSession(t'.sessions, Some(token)) == Auth.Found(login, t'.sessions[login]);
  }
}
