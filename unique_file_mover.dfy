/**
  The UniqueFileMover window: the checks `MoveFiles_Click` makes before a run,
  and the `MoveUniqueFiles` loop that copies each first-seen content to the
  destination directory.
 */
module UniqueFileMover {
  import opened Wrappers
  import opened OrdinalText
  import opened FileHash
  import opened DedupSpec

  /** Why `MoveFiles_Click` refuses to start. */
  datatype GuardError = SourceMissing | DestinationMissing | SameDirectory

  datatype GuardResult = Proceed(source: string, destination: string) | Rejected(error: GuardError)

  /** The three checks, in the order the handler makes them, on the trimmed
      text of the two path boxes. `directoryExists` stands for `Directory.Exists`
      and `upper` for the runtime's case map behind `OrdinalIgnoreCase`. */
  function CheckDirectories(sourceText: string, destinationText: string,
                            directoryExists: string -> bool, upper: CaseMap): (r: GuardResult)
    ensures r.Proceed? <==> directoryExists(Trim(sourceText)) && directoryExists(Trim(destinationText))
                            && !EqualsIgnoreCase(upper, Trim(sourceText), Trim(destinationText))
    ensures r.Proceed? ==> r.source == Trim(sourceText) && r.destination == Trim(destinationText)
    ensures r == Rejected(SourceMissing) <==> !directoryExists(Trim(sourceText))
    ensures r == Rejected(DestinationMissing) <==>
              directoryExists(Trim(sourceText)) && !directoryExists(Trim(destinationText))
  {
    var source := Trim(sourceText);
    var destination := Trim(destinationText);
    if !directoryExists(source) then Rejected(SourceMissing)
    else if !directoryExists(destination) then Rejected(DestinationMissing)
    else if EqualsIgnoreCase(upper, source, destination) then Rejected(SameDirectory)
    else Proceed(source, destination)
  }

  /** A run only starts on two existing directories whose trimmed paths
      differ even ignoring case, and which carry no surrounding white space. */
  lemma ProceedPathsDiffer(sourceText: string, destinationText: string, directoryExists: string -> bool,
                           upper: CaseMap)
    requires CheckDirectories(sourceText, destinationText, directoryExists, upper).Proceed?
    ensures var r := CheckDirectories(sourceText, destinationText, directoryExists, upper);
            && r.source != r.destination
            && directoryExists(r.source) && directoryExists(r.destination)
            && Trim(r.source) == r.source && Trim(r.destination) == r.destination
  {
    TrimIdempotent(sourceText);
    TrimIdempotent(destinationText);
    EqualsIgnoreCaseMeaning(upper, Trim(sourceText), Trim(destinationText));
  }

  /** The three numbers printed when the run ends. */
  datatype Summary = Summary(total: nat, duplicates: nat, moved: nat)

  /** `MoveUniqueFiles` over the enumerated `files`, with `dest0` the
      destination directory's contents before the run. Returns the printed
      summary, the destination afterwards and the branch each file took
      (failures are the files the error log names). */
  method MoveUniqueFiles(files: seq<SourceFile>, md5: Hasher, fsUpper: CaseMap, dest0: Destination)
    returns (summary: Summary, dest: Destination, outcomes: seq<Outcome>)
    ensures var r := Process(files, md5, fsUpper, dest0);
            summary == Summary(|files|, r.duplicates, r.moved) && dest == r.dest && outcomes == r.outcomes
    ensures summary.duplicates + summary.moved + Failures(outcomes) == summary.total
    ensures |outcomes| == |files|
  {
    var total := |files|;
    var duplicates, moved := 0, 0;
    var seenHashes: set<string> := {};
    dest, outcomes := dest0, [];
    var i := 0;
    while i < |files|
      invariant 0 <= i <= |files|
      invariant Process(files[..i], md5, fsUpper, dest0) == RunState(seenHashes, duplicates, moved, dest, outcomes)
    {
      var file := files[i];
      var hash := GetFileHash(file, md5);
      if hash.None? {
        // the catch block reports the file and the loop goes on
        outcomes := outcomes + [HashFailed];
      } else {
        var add := IgnoreCaseAdd(seenHashes, hash.value);
        seenHashes := add.1;
        if !add.0 {
          duplicates := duplicates + 1;
          outcomes := outcomes + [Duplicate];
        } else if !file.copySucceeds {
          outcomes := outcomes + [CopyFailed];
        } else {
          dest := dest[DestKey(fsUpper, file.name) := file.content];
          moved := moved + 1;
          outcomes := outcomes + [Copied];
        }
      }
      StepAt(files, md5, fsUpper, dest0, i);
      i := i + 1;
    }
    assert files[..|files|] == files;
    summary := Summary(total, duplicates, moved);
    Totals(files, md5, fsUpper, dest0);
  }

  /** What a click on the move button ends with. */
  datatype ClickReport =
    | NotStarted(error: GuardError)              // a message box, nothing else
    | RunAborted                                 // an exception escaped the run, e.g. from `Directory.GetFiles`
    | RunFinished(summary: Summary, outcomes: seq<Outcome>)

  /** `MoveFiles_Click`: the checks, then the run. `listing` is what
      `Directory.GetFiles` over all subdirectories of the source returns, in
      its own order, or `None` for the exception it throws; `fsUpper` is the
      destination file system's case table (see `DestKey`). */
  method MoveFilesClick(sourceText: string, destinationText: string, directoryExists: string -> bool,
                        upper: CaseMap, listing: Option<seq<SourceFile>>, md5: Hasher, fsUpper: CaseMap,
                        dest0: Destination)
    returns (report: ClickReport, dest: Destination)
    ensures match CheckDirectories(sourceText, destinationText, directoryExists, upper)
            case Rejected(e) => report == NotStarted(e) && dest == dest0
            case Proceed(_, _) =>
              match listing
              case None => report == RunAborted && dest == dest0
              case Some(files) =>
                var r := Process(files, md5, fsUpper, dest0);
                report == RunFinished(Summary(|files|, r.duplicates, r.moved), r.outcomes) && dest == r.dest
  {
    var guard := CheckDirectories(sourceText, destinationText, directoryExists, upper);
    if guard.Rejected? {
      return NotStarted(guard.error), dest0;
    }
    if listing.None? {
      return RunAborted, dest0;
    }
    var summary, outcomes;
    summary, dest, outcomes := MoveUniqueFiles(listing.value, md5, fsUpper, dest0);
    report := RunFinished(summary, outcomes);
  }
}
