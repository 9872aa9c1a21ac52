/**
 * The `post_migrate` receiver that makes sure an administrator account exists.
 */
module Signals {
  import opened Wrappers
  import opened Models
  import Views

  const AppName := "app"
  const AdminLogin := "admin"

  /** The row `get_or_create` inserts when there is no `admin` login yet. */
  function AdminUser(id: UserId): User {
    NewUser(id, "Admin", AdminLogin, "admin#R4", "admin@admin.com", Some(true), None)
  }

  /**
   * `create_admin_user` on the tables: for the `app` application, get or create
   * the user with login `admin`; for any other sender, nothing.
   */
  function EnsureAdmin(t: Tables, senderName: string): (t': Tables)
    ensures Valid(t) ==> Valid(t')
    ensures senderName == AppName ==> HasLogin(t'.users, AdminLogin)
    ensures senderName != AppName ==> t' == t
    ensures HasLogin(t.users, AdminLogin) ==> t' == t
    ensures senderName == AppName && !HasLogin(t.users, AdminLogin) ==>
              && t'.users == t.users[t.nextUserId := User(t.nextUserId, "Admin", "admin", "admin#R4", "admin@admin.com", true, 0)]
              && t'.nextUserId == t.nextUserId + 1
              && t'.files == t.files && t'.sessions == t.sessions && t'.nextFileId == t.nextFileId
  {
    if senderName != AppName || HasLogin(t.users, AdminLogin) then t
    else
      var u := AdminUser(t.nextUserId);
      assert t.users[u.id := u][u.id].login == AdminLogin;
      t.(users := t.users[u.id := u], nextUserId := t.nextUserId + 1)
  }

  /** Running the receiver twice has the effect of running it once. */
  lemma EnsureAdminIdempotent(t: Tables, senderName: string)
    ensures EnsureAdmin(EnsureAdmin(t, senderName), senderName) == EnsureAdmin(t, senderName)
  {
  }

  /** `create_admin_user`. */
  method CreateAdminUser(db: Views.Database, senderName: string)
    requires db.Valid()
    modifies db
    ensures db.Valid()
    ensures db.Snapshot() == EnsureAdmin(old(db.Snapshot()), senderName)
  {
    if senderName == AppName {
      if !exists id :: id in db.users && db.users[id].login == AdminLogin {
        var admin := AdminUser(db.nextUserId);
        db.users := db.users[admin.id := admin];
        db.nextUserId := db.nextUserId + 1;
      }
    }
  }
}
