/**
 * The decisions of components/converter/conversion-zone.tsx: the guard
 * before a batch, the set of files a download takes, how it is delivered,
 * and the completed count shown to the user.
 */
module ConversionZone {
  import opened Wrappers
  import opened Types
  import opened Store
  import Conversion
  import ConversionSelector
  import Ocr

  /**
   * `handleConvert`: with an empty list, the "No files" notice and no batch;
   * otherwise a batch with the three current selections.
   */
  method HandleConvert(store: FileStore, engine: Ocr.OcrEngine, selection: ConversionSelector.Selection,
                       codec: Conversion.Codec)
    returns (noFiles: bool, ghost outcomes: seq<Option<Conversion.Outcome>>)
    requires engine.Valid()
    modifies store, engine
    ensures engine.Valid()
    ensures noFiles <==> old(store.files) == []
    ensures noFiles ==> store.files == old(store.files) && store.isProcessing == old(store.isProcessing)
    ensures noFiles ==> unchanged(engine)
    ensures !noFiles ==>
      Conversion.Turns(old(store.files), ConversionSelector.Options(selection), codec, outcomes)
      && store.files == Conversion.Batch(old(store.files), old(store.files), outcomes)
      && !store.isProcessing
    ensures store.conversionType == old(store.conversionType) && store.isDarkMode == old(store.isDarkMode)
  {
    if store.files == [] {
      return true, [];
    }
    noFiles := false;
    outcomes := Conversion.ConvertFiles(store, engine, ConversionSelector.Options(selection), codec);
  }

  /** A file the download takes: its blob under its result file name. */
  datatype Download = Download(blob: Blob, filename: string)

  predicate Ready(f: FileRecord) {
    f.status == Completed && f.result.Some?
  }

  /** `completedFiles` of `handleDownloadAll`: the completed files with a result, in list order. */
  function DownloadSet(files: seq<FileRecord>): (r: seq<Download>)
    ensures |r| <= |files|
  {
    if files == [] then []
    else
      (if Ready(files[0]) then [Download(files[0].result.value.blob, files[0].result.value.filename)] else [])
        + DownloadSet(files[1..])
  }

  /** The download set of a list is that of its first part followed by that of the rest: list order is kept. */
  lemma {:induction false} DownloadSetAppend(a: seq<FileRecord>, b: seq<FileRecord>)
    ensures DownloadSet(a + b) == DownloadSet(a) + DownloadSet(b)
    decreases |a|
  {
    if a != [] {
      assert (a + b)[0] == a[0] && (a + b)[1..] == a[1..] + b;
      DownloadSetAppend(a[1..], b);
      calc {
        DownloadSet(a + b);
        (if Ready(a[0]) then [Download(a[0].result.value.blob, a[0].result.value.filename)] else [])
          + (DownloadSet(a[1..]) + DownloadSet(b));
        DownloadSet(a) + DownloadSet(b);
      }
    } else {
      assert a + b == b;
    }
  }

  /** A file is downloaded exactly when it is completed and has a result. */
  lemma {:induction false} DownloadSetMembers(files: seq<FileRecord>, d: Download)
    ensures d in DownloadSet(files) <==>
      exists k :: 0 <= k < |files| && Ready(files[k])
        && d == Download(files[k].result.value.blob, files[k].result.value.filename)
    decreases |files|
  {
    if files != [] {
      DownloadSetMembers(files[1..], d);
      if d in DownloadSet(files[1..]) {
        var k :| 0 <= k < |files[1..]| && Ready(files[1..][k])
          && d == Download(files[1..][k].result.value.blob, files[1..][k].result.value.filename);
        assert files[k + 1] == files[1..][k];
      }
      forall k | 1 <= k < |files| ensures files[k] == files[1..][k - 1] { }
    }
  }

  /** `completedCount`: the files with status completed. */
  function CompletedCount(files: seq<FileRecord>): (n: nat)
    ensures n <= |files|
    ensures n == 0 <==> forall k :: 0 <= k < |files| ==> files[k].status != Completed
    ensures n == |files| <==> forall k :: 0 <= k < |files| ==> files[k].status == Completed
  {
    if files == [] then 0
    else
      var n := CompletedCount(files[1..]);
      assert forall k :: 0 <= k < |files[1..]| ==> files[1..][k] == files[k + 1];
      (if files[0].status == Completed then 1 else 0) + n
  }

  /** The count of a list is the sum of the counts of its parts. */
  lemma {:induction false} CompletedCountAppend(a: seq<FileRecord>, b: seq<FileRecord>)
    ensures CompletedCount(a + b) == CompletedCount(a) + CompletedCount(b)
    decreases |a|
  {
    if a == [] {
      assert a + b == b;
    } else {
      assert (a + b)[0] == a[0] && (a + b)[1..] == a[1..] + b;
      CompletedCountAppend(a[1..], b);
    }
  }

  /**
   * The download set never exceeds the completed count, and equals it while
   * every completed file has a result.
   */
  lemma {:induction false} DownloadSetAndCount(files: seq<FileRecord>)
    ensures |DownloadSet(files)| <= CompletedCount(files)
    ensures CompletedHaveResults(files) ==> |DownloadSet(files)| == CompletedCount(files)
    decreases |files|
  {
    if files != [] {
      DownloadSetAndCount(files[1..]);
      if CompletedHaveResults(files) {
        assert CompletedHaveResults(files[1..]) by {
          forall k | 0 <= k < |files[1..]| && files[1..][k].status == Completed
            ensures files[1..][k].result.Some?
          {
            assert files[1..][k] == files[k + 1];
          }
        }
      }
    }
  }

  /** How `handleDownloadAll` delivers: nothing ("No files ready"), one direct download, or one zip. */
  datatype DownloadPlan = NothingReady | Direct(file: Download) | Zip(files: seq<Download>)

  function PlanDownload(files: seq<FileRecord>): DownloadPlan {
    var ready := DownloadSet(files);
    if |ready| == 0 then NothingReady
    else if |ready| == 1 then Direct(ready[0])
    else Zip(ready)
  }

  /**
   * No ready file gives no download; one gives it directly under its
   * result's file name; more give a single zip of all of them, in order.
   */
  lemma {:induction false} PlanMatchesReadyFiles(files: seq<FileRecord>)
    ensures PlanDownload(files) == NothingReady <==> forall k :: 0 <= k < |files| ==> !Ready(files[k])
    ensures PlanDownload(files).Direct? <==> |DownloadSet(files)| == 1
    ensures PlanDownload(files).Direct? ==>
      (exists k :: 0 <= k < |files| && Ready(files[k])
        && PlanDownload(files).file.filename == files[k].result.value.filename)
    ensures PlanDownload(files).Zip? ==> PlanDownload(files).files == DownloadSet(files) && |DownloadSet(files)| >= 2
  {
    var ready := DownloadSet(files);
    if |ready| == 0 {
      forall k | 0 <= k < |files| ensures !Ready(files[k]) {
        if Ready(files[k]) {
          DownloadSetMembers(files, Download(files[k].result.value.blob, files[k].result.value.filename));
        }
      }
    } else {
      DownloadSetMembers(files, ready[0]);
    }
  }
}
