/**
 * The field list of `FileSerializer` against the attributes of the `File`
 * model. A `ModelSerializer` builds one field per listed name, looking it up
 * among the model's fields and then its attributes, and raises
 * `ImproperlyConfigured` for a name that is neither; it builds its fields the
 * first time `.data` is read.
 */
module Serializers {

  /** What a `File` instance has under a plain name: `id`, the columns, and `user` with its `user_id`. */
  const FileAttributes: set<string> :=
    {"id", "user", "user_id", "file_content", "file_name", "file_link", "file_size", "date", "last_upload_date", "comment"}

  /** `FileSerializer.Meta.fields`. */
  const FileSerializerFields: seq<string> :=
    ["id", "file_content", "file_name", "comment", "file_link", "file_size", "date", "last_upload_date",
     "user_id", "file_path_in_user_dir"]

  /** The listed names the model has nothing for, in their listed order. */
  function UnknownFields(fields: seq<string>, attrs: set<string>): (u: seq<string>)
    ensures forall x :: x in u <==> x in fields && x !in attrs
    ensures |u| <= |fields|
  {
    if fields == [] then []
    else (if fields[0] in attrs then [] else [fields[0]]) + UnknownFields(fields[1..], attrs)
  }

  /** `FileSerializer(...).data` can be read: every listed name is a field or attribute of `File`. */
  predicate FileSerializerBuilds() {
    forall i :: 0 <= i < |FileSerializerFields| ==> FileSerializerFields[i] in FileAttributes
  }

  /**
   * `file_path_in_user_dir` is the one listed name `File` lacks (the upload
   * path is computed by the module-level `user_directory_path`, not stored),
   * so reading `FileSerializer(...).data` raises.
   */
  lemma FileSerializerFails()
    ensures UnknownFields(FileSerializerFields, FileAttributes) == ["file_path_in_user_dir"]
    ensures !FileSerializerBuilds()
  {
    var fields := FileSerializerFields;
    assert forall i :: 0 <= i < 9 ==> fields[i] in FileAttributes;
    KnownPrefixSkipped(fields, FileAttributes, 9);
    var last := fields[9..];
    assert last == ["file_path_in_user_dir"];
    NotAnAttribute();
    assert last[1..] == [];
    assert fields[9] !in FileAttributes;
  }

  lemma NotAnAttribute()
    ensures "file_path_in_user_dir" !in FileAttributes
  {
  }

  /** Names the model has contribute nothing: only the rest of the list decides. */
  lemma {:induction false} KnownPrefixSkipped(fields: seq<string>, attrs: set<string>, j: nat)
    requires j <= |fields|
    requires forall i :: 0 <= i < j ==> fields[i] in attrs
    ensures UnknownFields(fields, attrs) == UnknownFields(fields[j..], attrs)
    decreases j
  {
    if j > 0 {
      KnownPrefixSkipped(fields[1..], attrs, j - 1);
      assert fields[1..][j - 1..] == fields[j..];
    }
  }
}
