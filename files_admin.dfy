/**
  The admin files page: uploading a file to the `event-files` storage bucket
  and recording it in the `event_files` table, and deleting both again. The
  selected file is represented by its name; its bytes are not modelled.
 */
module FilesAdmin {
  import opened Wrappers
  import opened Strings
  import opened Records
  import opened Uri

  /** What `deleteFile` splits a public URL on. */
  const BUCKET_MARKER: string := "/event-files/"

  /** The part of a public object URL between the project URL and the bucket. */
  const PUBLIC_PREFIX: string := "/storage/v1/object/public"

  /** `file.name.split(".").pop() || ""`: the text after the last dot, or the whole name without one. */
  function FileExt(name: string): string {
    LastPiece(name, ".")
  }

  /** The extension holds no dot; it is the whole name when there is no dot, and otherwise follows the last one. */
  lemma FileExtShape(name: string)
    ensures var ext := FileExt(name);
      && !Contains(ext, ".")
      && (!Contains(name, ".") ==> ext == name)
      && (Contains(name, ".") ==> |ext| < |name| && name[|name| - |ext| - 1..] == "." + ext)
  {
    LastPieceShape(name, ".");
  }

  /** A name ending in a dot has the empty extension. */
  lemma TrailingDotHasNoExt(stem: string)
    ensures FileExt(stem + ".") == ""
  {
    var s := stem + ".";
    LastPieceShape(s, ".");
    SuffixOfDotted(s, FileExt(s));
  }

  /** A non-empty suffix of a string ending in a dot contains a dot. */
  lemma SuffixOfDotted(s: string, suffix: string)
    requires |suffix| <= |s| && s[|s| - |suffix|..] == suffix
    requires s != [] && s[|s| - 1] == '.'
    ensures suffix != [] ==> Contains(suffix, ".")
  {
    if suffix != [] {
      assert suffix[|suffix| - 1] == s[|s| - 1];
      assert suffix[|suffix| - 1..] == ".";
      assert OccursAt(suffix, ".", |suffix| - 1);
    }
  }

  /** The object name of an upload: `` `${Date.now()}-${file.name}` ``. */
  function StoredName(timestamp: nat, name: string): (r: string)
    ensures |r| > |name| && r[|r| - |name|..] == name
  {
    NatToString(timestamp) + "-" + name
  }

  /** The name after the first dash: the inverse of `StoredName`. */
  function OriginalName(stored: string): string {
    match IndexOf(stored, "-")
    case Some(i) => stored[i + 1..]
    case None => stored
  }

  /** The timestamp prefix holds no dash, so the original name is recovered from the stored one. */
  lemma OriginalNameOfStoredName(timestamp: nat, name: string)
    ensures OriginalName(StoredName(timestamp, name)) == name
  {
    var digits := NatToString(timestamp);
    var s := StoredName(timestamp, name);
    assert OccursAt(s, "-", |digits|) by {
      assert s[|digits|..|digits| + 1] == "-";
    }
    forall j | 0 <= j < |digits| ensures !OccursAt(s, "-", j) {
      assert s[j] == digits[j];
    }
    assert IndexOf(s, "-") == Some(|digits|);
    assert s[|digits| + 1..] == name;
  }

  /** What `getPublicUrl` returns for an object of the bucket: the whole URL passed through `encodeURI`. */
  function PublicUrl(projectUrl: string, path: string): string {
    EncodeUri(projectUrl + PUBLIC_PREFIX + BUCKET_MARKER + path)
  }

  /** `urlParts[urlParts.length - 1]` of `file_url.split("/event-files/")`. */
  function StoragePath(fileUrl: string): string {
    LastPiece(fileUrl, BUCKET_MARKER)
  }

  predicate NoSlash(s: string) {
    forall i :: 0 <= i < |s| ==> s[i] != '/'
  }

  /** The marker's only slashes are its first and last characters. */
  lemma MarkerInnerHasNoSlash()
    ensures forall k :: 0 < k < 12 ==> BUCKET_MARKER[k] != '/'
  {
    assert BUCKET_MARKER[1..12] == "event-files";
    assert NoSlash("event-files");
  }

  /** A marker occurrence ending at the marker's first slash means `x` ends with `/event-files`. */
  lemma MarkerEndingAtBoundary(x: string, path: string)
    ensures var s := x + BUCKET_MARKER + path;
      |x| >= 12 && OccursAt(s, BUCKET_MARKER, |x| - 12) ==> x[|x| - 12..] == "/event-files"
  {
    var s := x + BUCKET_MARKER + path;
    if |x| >= 12 && OccursAt(s, BUCKET_MARKER, |x| - 12) {
      assert x[|x| - 12..] == s[|x| - 12..|x|] == BUCKET_MARKER[..12];
    }
  }

  /** Every suffix of `x + BUCKET_MARKER + path` reaching back over the marker contains it. */
  lemma LongSuffixHasMarker(x: string, path: string, len: nat)
    requires |path| + |BUCKET_MARKER| <= len <= |x| + |BUCKET_MARKER| + |path|
    ensures var s := x + BUCKET_MARKER + path;
      Contains(s[|s| - len..], BUCKET_MARKER)
  {
    var s := x + BUCKET_MARKER + path;
    var r := s[|s| - len..];
    var k := len - |path| - |BUCKET_MARKER|;
    assert r[k..k + |BUCKET_MARKER|] == s[|x|..|x| + |BUCKET_MARKER|] == BUCKET_MARKER;
    assert OccursAt(r, BUCKET_MARKER, k);
  }

  /**
    After the bucket marker, a slash-free `path` is what `deleteFile` extracts,
    provided the text before the marker does not end in `/event-files` (which
    would let a second marker overlap the first).
   */
  lemma StoragePathAfterMarker(x: string, path: string)
    requires NoSlash(path)
    requires !(|x| >= 12 && x[|x| - 12..] == "/event-files")
    ensures StoragePath(x + BUCKET_MARKER + path) == path
  {
    var m := BUCKET_MARKER;
    var s := x + m + path;
    var r := StoragePath(s);
    LastPieceShape(s, m);
    OccursBetween(x, m, path, "");
    assert x + m + path + "" == s;
    var e := |s| - |r|;
    MarkerEndingAtBoundary(x, path);
    assert s[e - 1] == m[12] == '/' by {
      assert s[e - 13..e] == m;
    }
    if |r| >= |path| + 13 {
      LongSuffixHasMarker(x, path, |r|);
    } else if |r| > |path| {
      assert s[e - 1] == m[e - 1 - |x|];
      MarkerInnerHasNoSlash();
    }
    assert |r| == |path|;
  }

  /** Escapes hold no slash, so encoding a slash-free text leaves it slash-free. */
  lemma {:induction false} EncodeUriNoSlash(s: string)
    requires NoSlash(s)
    ensures NoSlash(EncodeUri(s))
  {
    if s != [] {
      EncodeUriNoSlash(s[1..]);
      var head := EncodeChar(s[0]);
      assert NoSlash(head) by {
        assert s[0] != '/';
        assert '/' !in HEX;
      }
      assert EncodeUri(s) == head + EncodeUri(s[1..]);
    }
  }

  /** The fixed middle of every public URL is made of unescaped characters. */
  lemma PublicMiddleSafe()
    ensures UriSafe(PUBLIC_PREFIX + BUCKET_MARKER)
  {
    var m := PUBLIC_PREFIX + BUCKET_MARKER;
    forall i | 0 <= i < |m| ensures Unescaped(m[i]) {
    }
  }

  /** Only the project URL and the object path can be changed by the encoding. */
  lemma PublicUrlParts(projectUrl: string, path: string)
    ensures PublicUrl(projectUrl, path) == EncodeUri(projectUrl) + PUBLIC_PREFIX + BUCKET_MARKER + EncodeUri(path)
  {
    var m := PUBLIC_PREFIX + BUCKET_MARKER;
    calc {
      PublicUrl(projectUrl, path);
      EncodeUri(projectUrl + PUBLIC_PREFIX + BUCKET_MARKER + path);
      { assert projectUrl + PUBLIC_PREFIX + BUCKET_MARKER + path == projectUrl + m + path; }
      EncodeUri(projectUrl + m + path);
      { PublicMiddleSafe(); EncodeUriSafeMiddle(projectUrl, m, path); }
      EncodeUri(projectUrl) + m + EncodeUri(path);
      EncodeUri(projectUrl) + PUBLIC_PREFIX + BUCKET_MARKER + EncodeUri(path);
    }
  }

  /** A stored name is URI-safe exactly when the original name is: the prefix is digits and a dash. */
  lemma StoredNameUriSafe(timestamp: nat, name: string)
    ensures UriSafe(StoredName(timestamp, name)) <==> UriSafe(name)
  {
    var digits := NatToString(timestamp);
    var stored := StoredName(timestamp, name);
    assert stored == digits + "-" + name;
    if UriSafe(name) {
      forall i | 0 <= i < |stored| ensures Unescaped(stored[i]) {
        if i < |digits| {
          assert stored[i] == digits[i] && IsDigit(digits[i]);
        } else if i > |digits| {
          assert stored[i] == name[i - |digits| - 1];
        }
      }
    }
    if UriSafe(stored) {
      forall i | 0 <= i < |name| ensures Unescaped(name[i]) {
        assert name[i] == stored[i + |digits| + 1];
      }
    }
  }

  /**
    The storage path `deleteFile` extracts from an uploaded file's URL is the
    stored object's name as `encodeURI` wrote it into that URL.
   */
  lemma StoragePathOfUpload(projectUrl: string, timestamp: nat, name: string)
    requires NoSlash(name)
    ensures StoragePath(PublicUrl(projectUrl, StoredName(timestamp, name))) == EncodeUri(StoredName(timestamp, name))
    ensures EncodeUri(StoredName(timestamp, name)) != ""
  {
    var stored := StoredName(timestamp, name);
    var x := EncodeUri(projectUrl) + PUBLIC_PREFIX;
    assert NoSlash(stored) by {
      var digits := NatToString(timestamp);
      forall i | 0 <= i < |stored| ensures stored[i] != '/' {
        if i < |digits| {
          assert stored[i] == digits[i];
        } else if i > |digits| {
          assert stored[i] == name[i - |digits| - 1];
        }
      }
    }
    EncodeUriNoSlash(stored);
    assert x[|x| - 1] == 'c' by {
      assert x[|x| - 1] == PUBLIC_PREFIX[|PUBLIC_PREFIX| - 1];
    }
    PublicUrlParts(projectUrl, stored);
    StoragePathAfterMarker(x, EncodeUri(stored));
  }

  /** `.delete().eq("id", id)` on `event_files`. */
  function WithoutId(files: seq<EventFile>, id: string): (r: seq<EventFile>)
    ensures forall f :: f in r <==> f in files && f.id != id
    ensures |r| <= |files|
  {
    if files == [] then []
    else if files[0].id == id then WithoutId(files[1..], id)
    else [files[0]] + WithoutId(files[1..], id)
  }

  /** Deleting an id that no row has leaves the table as it was. */
  lemma {:induction false} WithoutAbsentId(files: seq<EventFile>, id: string)
    requires forall k :: 0 <= k < |files| ==> files[k].id != id
    ensures WithoutId(files, id) == files
  {
    if files != [] {
      WithoutAbsentId(files[1..], id);
    }
  }

  class FilesPage {
    /** The project URL public object URLs start with. */
    const projectUrl: string
    /** The `event_files` table. */
    var files: seq<EventFile>
    /** The object names in the `event-files` bucket. */
    var storage: set<string>
    var uploading: bool
    /** The messages shown with `alert`, oldest first. */
    var alerts: seq<string>

    constructor (projectUrl: string, files: seq<EventFile>, storage: set<string>)
      ensures this.projectUrl == projectUrl && this.files == files && this.storage == storage
      ensures !uploading && alerts == []
    {
      this.projectUrl := projectUrl;
      this.files := files;
      this.storage := storage;
      uploading := false;
      alerts := [];
    }

    /**
      `handleUpload`: `selected` is the chosen file's name, if any; `now` is
      `Date.now()`; `uploadError` is the storage error, if the upload fails;
      `newId` and `uploadedAt` are what the database assigns to the new row.
     */
    method HandleUpload(selected: Option<string>, now: nat, uploadError: Option<string>,
                        newId: string, uploadedAt: string)
      modifies this
      ensures selected.None? ==>
        files == old(files) && storage == old(storage) && uploading == old(uploading) && alerts == old(alerts)
      ensures selected.Some? && uploadError.Some? ==>
        && files == old(files) && storage == old(storage) && !uploading
        && alerts == old(alerts) + ["Upload failed: " + uploadError.value]
      ensures selected.Some? && uploadError.None? ==>
        var stored := StoredName(now, selected.value);
        && storage == old(storage) + {stored}
        && files == old(files) + [EventFile(newId, selected.value, PublicUrl(projectUrl, stored),
                                            Some(FileExt(selected.value)), uploadedAt)]
        && !uploading && alerts == old(alerts)
    {
      if selected.None? {
        return;
      }
      var name := selected.value;
      uploading := true;
      var fileExt := FileExt(name);
      var fileName := StoredName(now, name);
      if uploadError.Some? {
        alerts := alerts + ["Upload failed: " + uploadError.value];
        uploading := false;
        return;
      }
      storage := storage + {fileName};
      var publicUrl := PublicUrl(projectUrl, fileName);
      files := files + [EventFile(newId, name, publicUrl, Some(fileExt), uploadedAt)];
      uploading := false;
    }

    /** `deleteFile(file)`: the object goes only when a storage path was found; the row always goes. */
    method DeleteFile(file: EventFile)
      modifies this
      ensures var path := StoragePath(file.fileUrl);
        storage == if path != "" then old(storage) - {path} else old(storage)
      ensures files == WithoutId(old(files), file.id)
      ensures uploading == old(uploading) && alerts == old(alerts)
    {
      var storagePath := StoragePath(file.fileUrl);
      if storagePath != "" {
        storage := storage - {storagePath};
      }
      files := WithoutId(files, file.id);
    }
  }

  /**
    Deleting the row an upload created removes the stored object, so that the
    bucket is as before the upload, exactly when the file name is one that
    `encodeURI` leaves as it is; otherwise the object stays behind.
   */
  lemma UploadThenDeleteRestoresStorage(storage: set<string>, projectUrl: string, now: nat, name: string)
    requires NoSlash(name) && StoredName(now, name) !in storage
    ensures var stored := StoredName(now, name);
      var path := StoragePath(PublicUrl(projectUrl, stored));
      && path != ""
      && ((storage + {stored}) - {path} == storage <==> UriSafe(name))
      && (!UriSafe(name) ==> stored in (storage + {stored}) - {path})
  {
    var stored := StoredName(now, name);
    StoragePathOfUpload(projectUrl, now, name);
    EncodeUriUnchanged(stored);
    StoredNameUriSafe(now, name);
  }

  /** A name with a space: after the upload and the delete, the object is still in the bucket. */
  lemma SpacedNameLeftBehind(storage: set<string>, projectUrl: string, now: nat)
    requires StoredName(now, "Event Agenda.pdf") !in storage
    ensures var stored := StoredName(now, "Event Agenda.pdf");
      stored in (storage + {stored}) - {StoragePath(PublicUrl(projectUrl, stored))}
  {
    var name := "Event Agenda.pdf";
    assert !Unescaped(name[5]);
    assert NoSlash(name);
    UploadThenDeleteRestoresStorage(storage, projectUrl, now, name);
  }
}
