# Cloud file storage backend: sessions, file naming, storage counter, permissions

A model of the core of a Django backend for personal cloud file storage. Users
log in with a login and password and get a session row plus a session cookie;
they upload files, rename and delete them, ask for share links and download;
an administrator account is created after the migrations. The model covers:

- the three tables (users, files, sessions) and their invariant `Models.Valid`:
  the constraints the schema declares (unique login, unique session per
  login, the foreign keys with their cascades), plus two the views maintain
  rather than the schema (map keys agree with row ids below the
  auto-increment counters; a session keyed by a login belongs to the user with
  that login); and the defaults of a new user (`Models`);
- the copy-name rule `add_postfix` used when an owner uploads a second file
  under a name already in use (`FileNames`);
- the share link, the text of a name-based version 5 UUID of the request's
  `file_id` value in the URL namespace, section 4.3 of RFC 4122, with the
  UTF-8 encoding of the name (RFC 3629) spelled out (`ShareLinks`, `Utf8`);
  and the reading of a text id back into a number (`Decimal`);
- the field list of `FileSerializer` against the attributes of `File`
  (`Serializers`);
- the read-only views: the credentials check, the cookie-to-session lookup,
  `check_session`, `delete_session_id` and the permission test of
  `download_file` (`Auth`);
- the views that change the tables, as functions from the old tables to the
  answer and the new tables (`Handlers`), and as the methods of a `Database`
  object that perform the same updates in place and are proved against those
  functions (`Views`);
- the `post_migrate` receiver that gets or creates the `admin` user (`Signals`);
- properties of request sequences: the storage counter, share links, session
  lifetime and cookie authentication (`Traces`).

Every state-changing handler keeps `Models.Valid`.

Behaviour kept exactly as the code has it, although a reader might expect otherwise:

- `delete_session_id` never removes the session row (`del` only drops a local
  name), so logout reports success while the session stays, the cookie keeps
  authenticating, and every later login for that login is refused with 401
  (`Traces.SessionsAreNeverClosed`, `Traces.CookieAuthenticatesAfterLogin`).
- A session row is removed only with its user (the cascade); at most one exists
  per login because the table is keyed by the unique login, while
  `session_id` itself may repeat, in which case the cookie lookup fails.
- `FilesViewSet.create` gives `last_upload_date` no value, and that column is
  NOT NULL without a default (`blank=True` only, app/models.py:27), so
  `file.save()` is refused with an `IntegrityError` and the view answers 500
  with nothing saved: as written, no upload ever stores a file or moves a
  counter (`Handlers.CreateFileAsWritten`,
  `Handlers.UploadAsWrittenStoresNothing`, `Traces.UndatedUploadsAddNothing`;
  see Findings). `Handlers.CreateFile` takes the value the insert gives the
  column as a parameter, `None` being the code as written, and the next two
  points are about uploads whose insert succeeds.
- `FilesViewSet.destroy` does not lower `files_storage_size`; only uploads
  whose insert succeeds move it, by the declared size, which may be negative
  (`Traces.StorageCounterCountsUploadsOnly`).
- On a name clash the displayed name itself gets `" (1)"`, applied once and
  not checked again, so two files of one owner can end up with the same name
  (`Traces.PostfixIsNotRechecked`). A rename does no clash check at all.
- `get_link_for_file` hashes `request.data["file_id"]` as sent: a JSON number
  makes `uuid5` raise `TypeError`, and for text the link depends on the text,
  not on the id it names (`"07"` and `"7"` are different hash inputs for the
  same row). It then calls `update` on a model instance, which has no such
  method: it always answers 500 and never stores the link, so no file row ever
  carries one (`Traces.RequestsStoreNoLink`).
- `FileSerializer` lists `file_path_in_user_dir`, which `File` has neither as a
  field nor as an attribute, and a `ModelSerializer` raises
  `ImproperlyConfigured` for such a name when its `.data` is read. So an
  upload whose insert succeeds answers 500 after its row and the owner's
  counter are saved, a rename
  answers 500 after the new name is saved, and a permitted download answers
  500 before its existence check (`Handlers.UploadIsNotSerialized`,
  `Handlers.RenameIsNotSerialized`, `Auth.PermittedDownloadFailsAtSerializer`).
  The model states what follows the serializer too, as the code is written:
  the name `download_file` would check under the media root is the decimal
  file id, never the upload path `user_<id>/<name>`
  (`Auth.DownloadPathIsNotUploadPath`), and the `update` call after it would
  fail like the one in `get_link_for_file`.
- The admin gate of `UsersViewSet.update` is the `request_from_admin` flag of
  the request itself, not the caller's session.
- The owner test of `download_file` compares the `user_id` of the request, as
  sent, with the integer owner id: an owner who sends the id as text is
  treated as a stranger and needs one of the flags (`Auth.DownloadPermitted`).
- `UsersViewSet.create` builds the `User` row directly instead of going
  through `UserSerializer`, although the comment at app/views.py:121-122 says
  the serializer validates and hashes: the password is stored in plain text,
  and so is the literal `admin#R4` of `create_admin_user`. Django's
  `check_password` does not accept a stored value that is not in a hasher's
  format, so users created by these views cannot log in. The model's
  properties hold for every password check, whichever one that is.

## Model

| member | source | states |
|---|---|---|
| `Decimal.NatToString` | app/models.py:5 | `str()` of an id is a non-empty string of decimal digits without a leading zero |
| `Decimal.NatToStringRoundTrip` | app/models.py:5 | the number the decimal text denotes is the id itself |
| `Decimal.NatToStringInjective` | app/models.py:5 | distinct ids have distinct decimal texts |
| `Decimal.ParseNat` | app/views.py:270 | the id column reads a text id exactly when it is a non-empty run of ASCII digits |
| `Decimal.ParseNatToString` | app/views.py:270 | the decimal text of an id is read back as that id |
| `Decimal.LeadingZeroIgnored` | app/views.py:270 | a leading zero does not change the id a text names, so `"07"` finds row 7 |
| `Models.Migrated` | app/models.py:8-37 | the empty tables after the migrations satisfy the invariant `Valid` |
| `Models.NewUser` | app/models.py:13-14 | a new user has `admin` false and `files_storage_size` 0 unless they are given; the other fields are the ones given |
| `Models.UserDirectoryPath` | app/models.py:4-5 | the upload path starts with `user_`, ends with the file name, and is 6 characters longer than the id text and the name together |
| `Models.UserDirectoryPathRoundTrip` | app/models.py:4-5 | splitting the upload path at its first `/` after `user_` gives back the owner id and the file name |
| `Models.UserDirectoryPathInjective` | app/models.py:4-5 | two uploads share a path only if they have the same owner and the same file name |
| `Models.CascadeDeleteUser` | app/models.py:21-36 | deleting a user removes exactly that user's files and sessions with it, leaves every other row unchanged, and keeps the constraints |
| `FileNames.RFind` | app/views.py:96 | `rfind` gives -1 or the index of a `.` after which no `.` follows |
| `FileNames.AddPostfix` | app/views.py:95-104 | the copy name is 4 characters longer than the name |
| `FileNames.AddPostfixWithoutDot` | app/views.py:96-99 | a name without `.` becomes the name followed by `" (1)"` |
| `FileNames.AddPostfixWithDot` | app/views.py:96-104 | `" (1)"` goes right before the last `.`: the stem and the extension are both kept, the result is 4 longer, and cutting those 4 characters out at the dot's index gives the original |
| `Utf8.EncodeChar` | app/views.py:269 | a character takes one to four bytes, one exactly when it is ASCII (then its own code), and every byte after the first is a continuation byte |
| `Utf8.Encode` | app/views.py:269 | a text of n characters takes between n and 4n bytes |
| `Utf8.DecodeEncodeChar` | app/views.py:269 | the encoding of a character is read back as that character, whatever follows |
| `Utf8.DecodeEncode` | app/views.py:269 | decoding the UTF-8 of any text gives the text back |
| `Utf8.EncodeInjective` | app/views.py:269 | distinct texts have distinct UTF-8 encodings |
| `Utf8.EncodeAscii` | app/views.py:269 | ASCII text is encoded one byte per character, each its own code |
| `ShareLinks.HashedName` | app/views.py:269 | `uuid5` hashes the 16 bytes of the URL namespace followed by exactly the name's UTF-8 |
| `ShareLinks.UuidBytes` | app/views.py:269 | the UUID is the digest's first 16 bytes with version 5 in the high nibble of byte 6 and variant bits 10 at the top of byte 8; the low 4 bits of byte 6, the low 6 bits of byte 8 and all other bytes are the digest's |
| `ShareLinks.Hex` | app/views.py:269 | lower-case hexadecimal, two digits per byte, high nibble first |
| `ShareLinks.UnHexHex` | app/views.py:269 | reading the hexadecimal back gives the bytes |
| `ShareLinks.ParseFormatUuid` | app/views.py:269 | the 8-4-4-4-12 text of a UUID can be read back into its 16 bytes |
| `ShareLinks.ShareLink` | app/views.py:269 | `str(uuid5(NAMESPACE_URL, name))` for a text name is 36 characters long |
| `ShareLinks.ShareLinkShape` | app/views.py:269 | a share link has dashes at 8, 13, 18, 23, hex digits elsewhere, `5` at 14 and one of 8, 9, a, b at 19, and it encodes the version 5 UUID of the digest of the hashed name |
| `ShareLinks.DistinctNamesAreDistinctHashInputs` | app/views.py:268-269 | the digest sees the `file_id` text as sent: different texts are different hash inputs even when they name the same id |
| `Serializers.UnknownFields` | app/serializers.py:14-28 | lists exactly the serializer's names the model has nothing for, and no more of them than the serializer declares |
| `Serializers.FileSerializerFails` | app/serializers.py:14-28 | `file_path_in_user_dir` is the one name of `FileSerializer` that `File` (app/models.py:20-28) lacks, so its data cannot be read |
| `Auth.FindByLogin` | app/views.py:21-23 | the user lookup by login finds a row exactly when a user has that login |
| `Auth.GetUserData` | app/views.py:20-29 | the user's row is returned exactly when a user with that login exists and the password check holds for it; otherwise nothing |
| `Auth.GetUserSession` | app/views.py:33-43 | no cookie or no row with that session id gives nothing; exactly one row gives that row; two or more is the multiple-rows error |
| `Auth.GetUserDataWithExistSession` | app/views.py:47-55 | the multiple-rows failure exactly when the cookie lookup has it; a user exactly when one session carries the cookie and a user has its login, and then that user's row |
| `Auth.SessionUserIsSessionOwner` | app/views.py:47-55 | the cookie authenticates exactly when one session row carries it, and then as the user that session belongs to |
| `Auth.CheckSession` | app/views.py:359-375 | with a session for the login, valid credentials give that session's user and invalid ones "wrong login or password"; without one the answer is "user not found" |
| `Auth.DeleteSessionId` | app/views.py:84-91 | reports whether a session row exists for the login, and leaves the session table as it was |
| `Auth.DownloadPermitted` | app/views.py:411-418 | a sent `user_id` that equals the owner's id as a number may always download; any other value (another id, or text, `null`, a list) exactly when `share_file` or `is_user_files_for_admin` is set |
| `Auth.Download` | app/views.py:409-436 | a missing row is 404; "insufficient rights" exactly when neither flag is set and the sent `user_id` is not the owner's id as a number; a permitted request fails reading the serializer exactly when it cannot be built; past it, nothing at the media name is 404 and otherwise the instance update fails |
| `Auth.PermittedDownloadFailsAtSerializer` | app/views.py:417-419 | with `FileSerializer` as declared, every permitted download of an existing file ends at the serializer |
| `Auth.DownloadPathIsNotUploadPath` | app/views.py:419-422 | the media name the download checks is never the path the upload used |
| `Handlers.SetSessionId` | app/views.py:59-63 | inserts the session row login to (token, user id) unless one exists for the login, and keeps the constraints when the user has that login |
| `Handlers.Login` | app/views.py:305-320 | a session is inserted exactly when the credentials are valid and the login has none, binding the login to that user's id; otherwise 401 or "user not found" and the tables unchanged |
| `Handlers.Logout` | app/views.py:325-336 | `delete_session_id` as `logout_view` uses it: success exactly when a session row exists for the login; the tables are unchanged in every case |
| `Handlers.CreateUser` | app/views.py:112-137 | a free login gets a new row with the next id and the defaults; a taken one is refused with nothing inserted |
| `Handlers.UpdateUser` | app/views.py:146-166 | only `admin` changes, and only when `request_from_admin` is set and a new value is given; otherwise nothing changes |
| `Handlers.DestroyUser` | app/views.py:171-178 | deleting an existing user is the cascade; an unknown id changes nothing |
| `Handlers.SameNameExists` | app/views.py:196-198 | the clash test holds exactly when the name is among the names of the owner's files |
| `Handlers.CreateFile` | app/views.py:186-226 | the insert is refused, changing nothing, exactly when the owner does not exist or no `last_upload_date` is given (app/models.py:27); otherwise the file row is saved under the requested name, or `add_postfix` of it when the owner has a file of that name, with the given date; the owner's counter rises by exactly the declared size and every other row is unchanged; the answer is the row exactly when the serializer builds, otherwise 500 after the saves |
| `Handlers.CreateFileAsWritten` | app/views.py:201-209 | the upload as written, with no `last_upload_date`, always answers the failed insert and leaves the tables as they were |
| `Handlers.UploadAsWrittenStoresNothing` | app/views.py:201-209 | for an existing owner the upload as written stores nothing, while the same upload with a date stores a new row under an unused id |
| `Handlers.UploadIsNotSerialized` | app/views.py:209-217 | with `FileSerializer` as declared, every upload for an existing user whose insert succeeds answers 500 after saving |
| `Handlers.UpdateFile` | app/views.py:228-248 | only `file_name` changes, and only when one is supplied; otherwise "File_name is required" and nothing changes; the answer is the row exactly when the serializer builds |
| `Handlers.RenameIsNotSerialized` | app/views.py:233-239 | with `FileSerializer` as declared, every rename of an existing file answers 500 after saving |
| `Handlers.DestroyFile` | app/views.py:253-261 | the file row goes and every user row, counters included, stays as it was |
| `Handlers.GetLinkForFile` | app/views.py:266-288 | a non-text `file_id` is the `uuid5` error, non-numeric text the id column's error, an unused id "not found", and an existing file the failed `update`; the tables never change |
| `Views.Database.constructor` | app/models.py:8-37 | the database starts as the empty, valid tables |
| `Views.Database.SetSessionId` | app/views.py:59-63 | performs `Handlers.SetSessionId` in place |
| `Views.Database.Login` | app/views.py:305-320 | performs `Handlers.Login` in place, keeping the constraints |
| `Views.Database.Logout` | app/views.py:325-336 | answers success exactly when a session exists for the login, changing nothing |
| `Views.Database.CreateUser` | app/views.py:112-137 | performs `Handlers.CreateUser` in place, keeping the constraints |
| `Views.Database.UpdateUser` | app/views.py:146-166 | performs `Handlers.UpdateUser` in place, keeping the constraints |
| `Views.Database.DestroyUser` | app/views.py:171-178 | performs `Handlers.DestroyUser` (the cascade) in place |
| `Views.Database.CreateFile` | app/views.py:186-226 | refuses an insert without owner or `last_upload_date`; otherwise inserts the file row, then reads, raises and writes back the owner's counter, ending in the answer and tables of `Handlers.CreateFile` |
| `Views.Database.UpdateFile` | app/views.py:228-248 | performs `Handlers.UpdateFile` in place |
| `Views.Database.DestroyFile` | app/views.py:253-261 | performs `Handlers.DestroyFile` in place |
| `Views.Database.GetLinkForFile` | app/views.py:266-288 | derives the link from a text `file_id`, then answers the failure `Handlers.GetLinkForFile` gives, changing nothing |
| `Signals.EnsureAdmin` | app/signals.py:10-19 | for sender `app` a user with login `admin` exists afterwards; an existing one is left as it is; otherwise one is created with name `Admin`, admin true, email `admin@admin.com`; any other sender changes nothing |
| `Signals.EnsureAdminIdempotent` | app/signals.py:11-19 | running the receiver twice has the effect of running it once |
| `Signals.CreateAdminUser` | app/signals.py:10-19 | performs `Signals.EnsureAdmin` in place, keeping the constraints |
| `Traces.ApplyKeepsOwner` | app/views.py:209-215 | a request other than deleting a user keeps that user, moves its counter only by the size of its own upload when that upload carries a `last_upload_date`, and keeps its sessions |
| `Traces.StorageCounterCountsUploadsOnly` | app/views.py:209-215 | after any requests that do not delete the user, the user's counter is its start value plus the sizes of that user's uploads that carry a `last_upload_date`; file deletions never lower it |
| `Traces.UndatedUploadsAddNothing` | app/views.py:201-209 | uploads made as the view is written, without a `last_upload_date`, add nothing to any counter |
| `Traces.ApplyKeepsNoLinks` | app/views.py:205 | no single request gives a file a share link |
| `Traces.RequestsStoreNoLink` | app/views.py:205 | no sequence of requests gives a file a share link |
| `Traces.PostfixIsNotRechecked` | app/views.py:196-209 | with `name` and `add_postfix(name)` both taken, uploading `name` again with a `last_upload_date` creates a second file named `add_postfix(name)`; without one (as written) nothing changes |
| `Traces.SessionsAreNeverClosed` | app/views.py:84-91 | after any requests that do not delete its user, a session row is still there unchanged and a new login for it is refused |
| `Traces.CookieAuthenticatesAfterLogin` | app/views.py:47-63 | after a login with an unused token the cookie authenticates as the user who logged in, before and after logout |

## Left out

- HTTP: response payloads and status codes are enum answers; cookies (`set_cookie`, `delete_cookie`, `max_age`, the secure and same-site settings) and the JSON rendering of user data are not modelled.
- Request parsing: a missing key in `request.data` raises `KeyError`, answered with 500; the model's parameters are the fields as present. Apart from the `file_id` of `get_link_for_file` and the `user_id` of `download_file` (`Auth.SentUserId`), `file_size` and ids are taken as the numbers Django resolves them to, the flags `share_file`, `is_user_files_for_admin` and `request_from_admin` as their truth values, and `request.data.get(...)` as an `Option`.
- `Decimal.ParseNat`: Python's `int()` also accepts a sign, surrounding whitespace, `_` between digits and non-ASCII digits; the model reads only runs of ASCII digits and treats every other text as the id column's `ValueError`. Either answer of `get_link_for_file` is a 500 that changes nothing.
- The catch-all `except Exception` answers beyond a generic failure result.
- Randomness: the `uuid4()` session id is a parameter; it is not assumed fresh, since `session_id` is not declared unique.
- Hashing: `check_password` and SHA-1 are function parameters. `UsersViewSet.create` and `create_admin_user` store the password as given; whether a stored value passes `check_password` is the parameter's business.
- `UserSerializer` lists `files`, a reverse relation the `User` model does not name (Django's accessor is `file_set`); the model takes the user serializer's data to be the user row, i.e. it assumes reading that field does not fail.
- Filesystem: `os.path.exists` is a parameter; opening and reading the file, writing uploaded bytes and `FileField` storage are not modelled. Django calls an `upload_to` function with two arguments while `user_directory_path` declares one; that interaction with the framework is not modelled, and the file save is taken to succeed.
- Timestamps: `date` (`auto_now_add`) is not modelled; `last_upload_date` is a number given to the upload as a parameter, the clock being outside the model, and the `datetime.now` of `download_file` is never reached because the download ends at the serializer.
- `retrieve_by_link`, `get_user_files`, `get_users` and `get_mycloud_user` lie outside the modelled core; the first three cannot work as written (a view signature with an extra parameter, a tuple where an id is expected, a serializer object returned as data). `get_mycloud_user` appears only through `Auth.GetUserDataWithExistSession`.
- Concurrency: requests are modelled one at a time; races on the counter's read-modify-write and on get-or-create are not.
- An upload naming no existing user is taken to fail at the insert of the file row, on the foreign key, before the counter is read.
- `Handlers.CreateFile`: `files_storage_size` and `file_size` are unbounded integers; the database column's width is not modelled.
- Lookups compare strings exactly; database collation is not modelled.
- diploma_backend/urls.py (routing) is not part of this model; of app/serializers.py only the field list of `FileSerializer` is.
- `max_length` on the character columns (app/models.py:9-12, 23-24, 28, 35, 37): strings are unbounded, so the database refusing or truncating a long value is not modelled.
- The two `print` calls (app/views.py:36 and 421) write to standard output only and are left out.
- `Handlers.CreateUser`: the new id is exactly `nextUserId`, the ids handed out without gaps; a database sequence also uses up a value on a refused insert, so the real ids may skip numbers.

## Findings

| source | as written | input that shows it | evidently intended | confidence | as-written member | corrected member |
|---|---|---|---|---|---|---|
| app/views.py:201-209 | `File(...)` gives `last_upload_date`, a NOT NULL column without a default (app/models.py:27), no value, so `file.save()` raises `IntegrityError`: the upload answers 500 and stores neither the row nor the new counter | any upload naming an existing user, e.g. `file_name` "a.txt", `user_id` 1 with user 1 present, `file_size` 10 | the upload stores the row with a `last_upload_date` (the time of the upload, as `download_file` later sets it) and raises the owner's counter | not executed | `Handlers.CreateFileAsWritten` | `Handlers.CreateFile` |
