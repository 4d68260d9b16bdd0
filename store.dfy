/**
 * The file-job store of lib/store.ts: an ordered list of per-file records
 * keyed by id, plus three flags. Every action replaces the list by a map or
 * a filter over it; each has a pure function on the list, and the class
 * methods assign its value to the `files` field.
 */
module Store {
  import opened Wrappers
  import opened Text
  import opened Types

  /** The stored `type`: the lower-cased last piece of `name.split(".")`. */
  function TypeOfName(name: string): string {
    var pieces := Split(name, ".");
    ToLower(pieces[|pieces| - 1])
  }

  /** Without an occurrence of `[c]` there is no last `c` either. */
  lemma NoLastIndexWithoutOccurrence(s: string, c: char)
    requires IndexOf(s, [c]) < 0
    ensures LastIndexOf(s, c) == -1
  {
    forall k | 0 <= k < |s| ensures s[k] != c {
      assert !OccursAt(s, [c], k);
      assert s[k..k + 1] == [s[k]];
    }
    LastIndexOfUnique(s, c, -1);
  }

  /** Past a `c` at index `i`, the last `c` is found in the rest of the string. */
  lemma LastIndexOfAfter(s: string, c: char, i: nat)
    requires i < |s| && s[i] == c
    ensures LastIndexOf(s, c) == i + 1 + LastIndexOf(s[i + 1..], c)
  {
    var rest := s[i + 1..];
    var j := LastIndexOf(rest, c);
    forall k | i + 1 + j < k < |s| ensures s[k] != c {
      assert s[k] == rest[k - i - 1];
    }
    LastIndexOfUnique(s, c, i + 1 + j);
  }

  /** The last piece of a split on `c` is the text after the last `c`. */
  lemma {:induction false} LastSplitPiece(s: string, c: char)
    ensures var pieces := Split(s, [c]);
      pieces[|pieces| - 1] == s[LastIndexOf(s, c) + 1..]
    decreases |s|
  {
    var i := IndexOf(s, [c]);
    if i < 0 {
      LastPieceWithoutSeparator(s, c);
    } else {
      assert s[i] == c by { assert OccursAt(s, [c], i); assert s[i] == s[i..i + 1][0]; }
      LastSplitPiece(s[i + 1..], c);
      LastPieceAfter(s, c, i);
    }
  }

  /** Without a `c` the split yields the whole string, which is also the text after the (absent) last `c`. */
  lemma {:induction false} LastPieceWithoutSeparator(s: string, c: char)
    requires IndexOf(s, [c]) < 0
    ensures var pieces := Split(s, [c]);
      pieces[|pieces| - 1] == s[LastIndexOf(s, c) + 1..]
  {
    NoLastIndexWithoutOccurrence(s, c);
    assert Split(s, [c]) == [s];
    assert s[0..] == s;
  }

  /** The split past the first `c` ends with the same piece as the whole split. */
  lemma SplitPastFirst(s: string, c: char, i: nat)
    requires IndexOf(s, [c]) == i
    ensures var pieces, tail := Split(s, [c]), Split(s[i + 1..], [c]);
      pieces[|pieces| - 1] == tail[|tail| - 1]
  {
    var sep := [c];
    var tail := Split(s[i + 1..], sep);
    assert Split(s, sep) == [s[..i]] + tail by {
      assert |sep| == 1;
    }
    LastOfCons(s[..i], tail);
  }

  lemma LastOfCons<T>(x: T, tail: seq<T>)
    requires |tail| >= 1
    ensures ([x] + tail)[|tail|] == tail[|tail| - 1]
  {
  }

  /** One step of `LastSplitPiece`: past the first `c`, the last piece and the last `c` move together. */
  lemma {:induction false} LastPieceAfter(s: string, c: char, i: nat)
    requires i < |s| && s[i] == c && IndexOf(s, [c]) == i
    requires var pieces := Split(s[i + 1..], [c]);
      pieces[|pieces| - 1] == s[i + 1..][LastIndexOf(s[i + 1..], c) + 1..]
    ensures var pieces := Split(s, [c]);
      pieces[|pieces| - 1] == s[LastIndexOf(s, c) + 1..]
  {
    var rest := s[i + 1..];
    var j := LastIndexOf(rest, c);
    var tail := Split(rest, [c]);
    var pieces := Split(s, [c]);
    SplitPastFirst(s, c, i);
    assert s[LastIndexOf(s, c) + 1..] == rest[j + 1..] by {
      LastIndexOfAfter(s, c, i);
      assert rest[j + 1..] == s[i + 1 + j + 1..];
    }
  }

  /**
   * The stored type is the lower-cased text after the last dot, or the
   * whole lower-cased name when it has no dot (where the extension helper
   * would give "").
   */
  lemma TypeOfNameCases(name: string)
    ensures var i := LastIndexOf(name, '.');
      TypeOfName(name) == if i < 0 then ToLower(name) else ToLower(name[i + 1..])
  {
    TypeOfNameIsLastPiece(name);
    if LastIndexOf(name, '.') < 0 {
      assert name[LastIndexOf(name, '.') + 1..] == name;
    }
  }

  /** The stored type is the lower-cased text after the last dot. */
  lemma TypeOfNameIsLastPiece(name: string)
    ensures TypeOfName(name) == ToLower(name[LastIndexOf(name, '.') + 1..])
  {
    LastSplitPiece(name, '.');
  }

  /** The record `addFiles` makes for one dropped file. */
  function NewRecord(id: string, file: SourceFile): (r: FileRecord)
    ensures r.id == id && r.file == file && r.name == file.name && r.size == file.size
    ensures r.fileType == TypeOfName(file.name)
    ensures r.status == Pending && r.progress == 0.0 && r.errorMessage == None && r.result == None
  {
    FileRecord(id, file, file.name, file.size, TypeOfName(file.name), Pending, 0.0, None, None)
  }

  /** `addFiles`: new pending records after the existing ones, in input order. */
  function AppendFiles(files: seq<FileRecord>, ids: seq<string>, newFiles: seq<SourceFile>): (r: seq<FileRecord>)
    requires |ids| == |newFiles|
    ensures |r| == |files| + |newFiles| && r[..|files|] == files
    ensures forall k :: 0 <= k < |newFiles| ==> r[|files| + k] == NewRecord(ids[k], newFiles[k])
  {
    files + seq(|newFiles|, k requires 0 <= k < |newFiles| => NewRecord(ids[k], newFiles[k]))
  }

  /** `removeFile`: drops every record carrying `id`. */
  function RemoveById(files: seq<FileRecord>, id: string): (r: seq<FileRecord>)
    ensures |r| <= |files|
    ensures forall k :: 0 <= k < |r| ==> r[k].id != id
    ensures forall k :: 0 <= k < |r| ==> r[k] in files
  {
    if files == [] then []
    else (if files[0].id == id then [] else [files[0]]) + RemoveById(files[1..], id)
  }

  /** Every record with another id is kept. */
  lemma {:induction false} RemoveByIdKeepsOthers(files: seq<FileRecord>, id: string, f: FileRecord)
    requires f in files && f.id != id
    ensures f in RemoveById(files, id)
  {
    if files[0] != f {
      assert f in files[1..];
      RemoveByIdKeepsOthers(files[1..], id, f);
    }
  }

  /** Removing from a concatenation removes from each part: the kept records stay in order. */
  lemma {:induction false} RemoveByIdAppend(a: seq<FileRecord>, b: seq<FileRecord>, id: string)
    ensures RemoveById(a + b, id) == RemoveById(a, id) + RemoveById(b, id)
  {
    if a == [] {
      assert a + b == b;
    } else {
      var head := if a[0].id == id then [] else [a[0]];
      assert RemoveById(a + b, id) == head + RemoveById(a[1..] + b, id) by {
        assert (a + b)[0] == a[0] && (a + b)[1..] == a[1..] + b;
      }
      RemoveByIdAppend(a[1..], b, id);
      assert head + (RemoveById(a[1..], id) + RemoveById(b, id)) == (head + RemoveById(a[1..], id)) + RemoveById(b, id);
    }
  }

  /** Removing an id no record carries leaves the list as it is. */
  lemma {:induction false} RemoveAbsentId(files: seq<FileRecord>, id: string)
    requires forall k :: 0 <= k < |files| ==> files[k].id != id
    ensures RemoveById(files, id) == files
  {
    if files != [] {
      RemoveAbsentId(files[1..], id);
    }
  }

  /** Removing a record's own id from a one-record list empties it. */
  lemma RemoveOwnRecord(x: FileRecord)
    ensures RemoveById([x], x.id) == []
  {
    assert [x][1..] == [];
  }

  /** Removing an id that only index `k` carries leaves the part after `k` alone. */
  lemma {:induction false} RemoveAbsentAfter(files: seq<FileRecord>, k: nat)
    requires k < |files|
    requires forall j :: 0 <= j < |files| && j != k ==> files[j].id != files[k].id
    ensures RemoveById(files[k + 1..], files[k].id) == files[k + 1..]
  {
    var after := files[k + 1..];
    assert forall j :: 0 <= j < |after| ==> after[j] == files[k + 1 + j];
    RemoveAbsentId(after, files[k].id);
  }

  /** Removing an id that only index `k` carries leaves the part before `k` alone. */
  lemma {:induction false} RemoveAbsentBefore(files: seq<FileRecord>, k: nat)
    requires k < |files|
    requires forall j :: 0 <= j < |files| && j != k ==> files[j].id != files[k].id
    ensures RemoveById(files[..k], files[k].id) == files[..k]
  {
    var before := files[..k];
    assert forall j :: 0 <= j < |before| ==> before[j] == files[j];
    RemoveAbsentId(before, files[k].id);
  }

  /** Removing the only record with `id` at index `k` leaves the others in order. */
  lemma {:induction false} RemoveUniqueId(files: seq<FileRecord>, k: nat)
    requires k < |files|
    requires forall j :: 0 <= j < |files| && j != k ==> files[j].id != files[k].id
    ensures RemoveById(files, files[k].id) == files[..k] + files[k + 1..]
  {
    var id := files[k].id;
    var before, after := files[..k], files[k + 1..];
    calc {
      RemoveById(files, id);
      { assert files == before + ([files[k]] + after); }
      RemoveById(before + ([files[k]] + after), id);
      { RemoveByIdAppend(before, [files[k]] + after, id); }
      RemoveById(before, id) + RemoveById([files[k]] + after, id);
      { RemoveByIdAppend([files[k]], after, id); }
      RemoveById(before, id) + (RemoveById([files[k]], id) + RemoveById(after, id));
      { RemoveOwnRecord(files[k]); RemoveAbsentBefore(files, k); RemoveAbsentAfter(files, k); }
      before + ([] + after);
      { assert [] + after == after; }
      before + after;
    }
  }

  /** `updateFileStatus`: status and progress of the records with `id`; nothing else changes. */
  function UpdateStatus(files: seq<FileRecord>, id: string, status: Status, progress: real): (r: seq<FileRecord>)
    ensures |r| == |files|
    ensures forall k :: 0 <= k < |files| && files[k].id != id ==> r[k] == files[k]
    ensures forall k :: 0 <= k < |files| && files[k].id == id ==>
      r[k].status == status && r[k].progress == progress &&
      r[k].(status := files[k].status, progress := files[k].progress) == files[k]
  {
    seq(|files|, k requires 0 <= k < |files| =>
      if files[k].id == id then files[k].(status := status, progress := progress) else files[k])
  }

  /** `setConversionResult`: completed at 100 with the result, on the records with `id` only. */
  function SetResult(files: seq<FileRecord>, id: string, result: ConversionResult): (r: seq<FileRecord>)
    ensures |r| == |files|
    ensures forall k :: 0 <= k < |files| && files[k].id != id ==> r[k] == files[k]
    ensures forall k :: 0 <= k < |files| && files[k].id == id ==>
      r[k].status == Completed && r[k].progress == 100.0 && r[k].result == Some(result) &&
      r[k].(status := files[k].status, progress := files[k].progress, result := files[k].result) == files[k]
  {
    seq(|files|, k requires 0 <= k < |files| =>
      if files[k].id == id then files[k].(status := Completed, progress := 100.0, result := Some(result))
      else files[k])
  }

  /** `setError`: status error and the message; progress and any earlier result stay. */
  function SetError(files: seq<FileRecord>, id: string, message: string): (r: seq<FileRecord>)
    ensures |r| == |files|
    ensures forall k :: 0 <= k < |files| && files[k].id != id ==> r[k] == files[k]
    ensures forall k :: 0 <= k < |files| && files[k].id == id ==>
      r[k].status == Error && r[k].errorMessage == Some(message) &&
      r[k].(status := files[k].status, errorMessage := files[k].errorMessage) == files[k]
  {
    seq(|files|, k requires 0 <= k < |files| =>
      if files[k].id == id then files[k].(status := Error, errorMessage := Some(message)) else files[k])
  }

  /** A completed record always carries a result. */
  ghost predicate CompletedHaveResults(files: seq<FileRecord>) {
    forall k :: 0 <= k < |files| && files[k].status == Completed ==> files[k].result.Some?
  }

  /** A failed record always carries a message. */
  ghost predicate ErrorsHaveMessages(files: seq<FileRecord>) {
    forall k :: 0 <= k < |files| && files[k].status == Error ==> files[k].errorMessage.Some?
  }

  ghost predicate RecordsConsistent(files: seq<FileRecord>) {
    CompletedHaveResults(files) && ErrorsHaveMessages(files)
  }

  /**
   * Every action the conversion flow uses keeps "completed implies a result"
   * and "error implies a message" (status updates to pending or processing
   * only: `updateFileStatus` itself would accept any status).
   */
  lemma ActionsKeepConsistency(files: seq<FileRecord>, id: string, ids: seq<string>, newFiles: seq<SourceFile>,
                               status: Status, progress: real, result: ConversionResult, message: string)
    requires RecordsConsistent(files)
    requires |ids| == |newFiles|
    requires status == Pending || status == Processing
    ensures RecordsConsistent(AppendFiles(files, ids, newFiles))
    ensures RecordsConsistent(RemoveById(files, id))
    ensures RecordsConsistent(UpdateStatus(files, id, status, progress))
    ensures RecordsConsistent(SetResult(files, id, result))
    ensures RecordsConsistent(SetError(files, id, message))
  {
    var r := RemoveById(files, id);
    forall k | 0 <= k < |r| ensures (r[k].status == Completed ==> r[k].result.Some?) && (r[k].status == Error ==> r[k].errorMessage.Some?) {
      var j :| 0 <= j < |files| && files[j] == r[k];
    }
  }

  /**
   * A result outlives the status that produced it: a completed record that is
   * set processing and then fails keeps its old result next to status error.
   */
  lemma StaleResultSurvivesFailure(files: seq<FileRecord>, k: nat, message: string)
    requires k < |files| && files[k].status == Completed && files[k].result.Some?
    ensures var r := SetError(UpdateStatus(files, files[k].id, Processing, 0.0), files[k].id, message);
      r[k].status == Error && r[k].result == files[k].result
  {
  }

  /** The part of the state `persist` writes to storage. */
  datatype PersistedState = PersistedState(isDarkMode: bool)

  class FileStore {
    var files: seq<FileRecord>
    var isProcessing: bool
    var conversionType: Option<ConversionType>
    var isDarkMode: bool

    /** The initial state, with the saved theme flag restored when one was persisted. */
    constructor (saved: Option<PersistedState>)
      ensures files == [] && !isProcessing && conversionType == None
      ensures isDarkMode == (saved.Some? && saved.value.isDarkMode)
    {
      files := [];
      isProcessing := false;
      conversionType := None;
      isDarkMode := saved.Some? && saved.value.isDarkMode;
    }

    /** `partialize`: only the theme flag is persisted. */
    function Persisted(): (p: PersistedState)
      reads this
      ensures p.isDarkMode == isDarkMode
    {
      PersistedState(isDarkMode)
    }

    method AddFiles(ids: seq<string>, newFiles: seq<SourceFile>)
      requires |ids| == |newFiles|
      modifies this
      ensures files == AppendFiles(old(files), ids, newFiles)
      ensures isProcessing == old(isProcessing) && conversionType == old(conversionType) && isDarkMode == old(isDarkMode)
    {
      files := AppendFiles(files, ids, newFiles);
    }

    method RemoveFile(id: string)
      modifies this
      ensures files == RemoveById(old(files), id)
      ensures isProcessing == old(isProcessing) && conversionType == old(conversionType) && isDarkMode == old(isDarkMode)
    {
      files := RemoveById(files, id);
    }

    /** `updateFileStatus(id, status, progress = 0)`. */
    method UpdateFileStatus(id: string, status: Status, progress: Option<real>)
      modifies this
      ensures files == UpdateStatus(old(files), id, status, progress.GetOr(0.0))
      ensures isProcessing == old(isProcessing) && conversionType == old(conversionType) && isDarkMode == old(isDarkMode)
    {
      files := UpdateStatus(files, id, status, progress.GetOr(0.0));
    }

    method SetConversionResult(id: string, result: ConversionResult)
      modifies this
      ensures files == SetResult(old(files), id, result)
      ensures isProcessing == old(isProcessing) && conversionType == old(conversionType) && isDarkMode == old(isDarkMode)
    {
      files := SetResult(files, id, result);
    }

    method SetErrorMessage(id: string, message: string)
      modifies this
      ensures files == SetError(old(files), id, message)
      ensures isProcessing == old(isProcessing) && conversionType == old(conversionType) && isDarkMode == old(isDarkMode)
    {
      files := SetError(files, id, message);
    }

    /** `clearAll`: empties the list and clears both batch flags; the theme stays. */
    method ClearAll()
      modifies this
      ensures files == [] && !isProcessing && conversionType == None
      ensures isDarkMode == old(isDarkMode)
    {
      files := [];
      isProcessing := false;
      conversionType := None;
    }

    method SetProcessing(processing: bool)
      modifies this
      ensures isProcessing == processing
      ensures files == old(files) && conversionType == old(conversionType) && isDarkMode == old(isDarkMode)
    {
      isProcessing := processing;
    }

    method SetConversionType(t: Option<ConversionType>)
      modifies this
      ensures conversionType == t
      ensures files == old(files) && isProcessing == old(isProcessing) && isDarkMode == old(isDarkMode)
    {
      conversionType := t;
    }

    method ToggleDarkMode()
      modifies this
      ensures isDarkMode == !old(isDarkMode)
      ensures files == old(files) && isProcessing == old(isProcessing) && conversionType == old(conversionType)
    {
      isDarkMode := !isDarkMode;
    }
  }
}
