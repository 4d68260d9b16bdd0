/**
 * The intake rule of components/converter/drag-zone.tsx: `onDrop` turns the
 * files the dropzone accepted and rejected into notices and, when the limit
 * allows, one `addFiles` call. The dropzone's own filtering by type, size
 * and count belongs to the library and is not part of this model; its
 * verdicts are the `accepted` and `rejected` inputs.
 */
module DragZone {
  import opened Types
  import opened Store

  const MaxFiles: nat := 10
  const MaxFileSize: nat := 100 * 1024 * 1024

  /** `ACCEPTED_FORMATS`: MIME type and the extensions offered for it. */
  const AcceptedFormats: seq<(string, seq<string>)> := [
    ("application/pdf", [".pdf"]),
    ("application/vnd.openxmlformats-officedocument.wordprocessingml.document", [".docx"]),
    ("application/msword", [".doc"]),
    ("application/vnd.openxmlformats-officedocument.presentationml.presentation", [".pptx"]),
    ("application/vnd.ms-powerpoint", [".ppt"]),
    ("image/jpeg", [".jpg", ".jpeg"]),
    ("image/png", [".png"])
  ]

  /** An extension some entry of the table offers. */
  predicate AcceptedExtension(ext: string) {
    exists k :: 0 <= k < |AcceptedFormats| && ext in AcceptedFormats[k].1
  }

  /**
   * Plain text cannot be dropped: neither ".txt" nor "text/plain" is in the
   * table, although text sources have converters.
   */
  lemma TextIsNotAccepted()
    ensures !AcceptedExtension(".txt")
    ensures forall k :: 0 <= k < |AcceptedFormats| ==> AcceptedFormats[k].0 != "text/plain"
  {
  }

  /** The toasts `onDrop` raises. */
  datatype Notice =
    | FileTooLarge(name: string)
    | InvalidFileType(name: string)
    | TooManyFiles
    | FilesAdded(count: nat)

  /** What a drop does: its notices, in order, and the files handed to `addFiles`. */
  datatype Drop = Drop(notices: seq<Notice>, added: seq<SourceFile>)

  /** A rejected file is "too large" only when strictly above 100 MB; anything else is an invalid type. */
  function RejectionNotice(f: SourceFile): (n: Notice)
    ensures n == FileTooLarge(f.name) <==> f.size > MaxFileSize
    ensures n != FileTooLarge(f.name) ==> n == InvalidFileType(f.name)
  {
    if f.size > MaxFileSize then FileTooLarge(f.name) else InvalidFileType(f.name)
  }

  function RejectionNotices(rejected: seq<SourceFile>): (r: seq<Notice>)
    ensures |r| == |rejected| && forall k :: 0 <= k < |r| ==> r[k] == RejectionNotice(rejected[k])
  {
    seq(|rejected|, k requires 0 <= k < |rejected| => RejectionNotice(rejected[k]))
  }

  /** `onDrop` with `count` files already in the list. */
  function OnDrop(count: nat, accepted: seq<SourceFile>, rejected: seq<SourceFile>): Drop {
    var rejections := RejectionNotices(rejected);
    if count + |accepted| > MaxFiles then Drop(rejections + [TooManyFiles], [])
    else if |accepted| > 0 then Drop(rejections + [FilesAdded(|accepted|)], accepted)
    else Drop(rejections, [])
  }

  /**
   * Admission: one notice per rejected file comes first, whatever else
   * happens; the accepted files are added all together exactly when the new
   * total is at most ten (ten itself allowed), and none otherwise.
   */
  lemma {:induction false} DropAdmission(count: nat, accepted: seq<SourceFile>, rejected: seq<SourceFile>)
    ensures var d := OnDrop(count, accepted, rejected);
      d.notices[..|rejected|] == RejectionNotices(rejected)
      && d.added == (if count + |accepted| <= MaxFiles then accepted else [])
      && (TooManyFiles in d.notices <==> count + |accepted| > MaxFiles)
      && (count + |accepted| <= MaxFiles && accepted != [] <==> FilesAdded(|accepted|) in d.notices)
  {
    var d := OnDrop(count, accepted, rejected);
    var rejections := RejectionNotices(rejected);
    assert d.notices[..|rejected|] == rejections;
    assert TooManyFiles !in rejections && FilesAdded(|accepted|) !in rejections by {
      forall k | 0 <= k < |rejections| ensures rejections[k] != TooManyFiles && rejections[k] != FilesAdded(|accepted|) {
        assert rejections[k] == RejectionNotice(rejected[k]);
      }
    }
  }

  /** A drop never takes a list within the limit beyond it. */
  lemma {:induction false} DropKeepsLimit(count: nat, accepted: seq<SourceFile>, rejected: seq<SourceFile>)
    requires count <= MaxFiles
    ensures count + |OnDrop(count, accepted, rejected).added| <= MaxFiles
  {
  }

  /**
   * `onDrop` against the store: the notices of `OnDrop`, and an `addFiles`
   * call (ids given) only when files are admitted.
   */
  method DropFiles(store: FileStore, ids: seq<string>, accepted: seq<SourceFile>, rejected: seq<SourceFile>)
    returns (notices: seq<Notice>)
    requires |ids| == |accepted|
    modifies store
    ensures notices == OnDrop(|old(store.files)|, accepted, rejected).notices
    ensures store.files == if OnDrop(|old(store.files)|, accepted, rejected).added == [] then old(store.files)
                           else AppendFiles(old(store.files), ids, accepted)
    ensures store.isProcessing == old(store.isProcessing) && store.conversionType == old(store.conversionType)
    ensures store.isDarkMode == old(store.isDarkMode)
  {
    var d := OnDrop(|store.files|, accepted, rejected);
    notices := d.notices;
    if d.added != [] {
      store.AddFiles(ids, accepted);
    }
  }
}
