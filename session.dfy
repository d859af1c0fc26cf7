/**
 The dashboard page's session state: the list of uploaded files that survives
 reruns of the page, with the upload loop and the delete action that change it.
 */
module Dashboard {
  import opened Registry

  /** The first choice of the delete box, meaning "delete nothing". */
  const NO_CHOICE := "None"

  class Session {
    /** The registry of uploaded files, in upload order. */
    var fileData: seq<Record>

    /** Registered file names are unique. */
    ghost predicate Valid()
      reads this
    {
      UniqueNames(fileData)
    }

    /** A new session starts with no files. */
    constructor ()
      ensures Valid() && fileData == []
    {
      fileData := [];
    }

    /**
     Handles an upload batch file by file: a registered name is warned about and
     skipped, a file the analyser fails on is reported and skipped, any other file
     is appended; a file that cannot be read stops the batch, keeping what the
     earlier files appended.
     */
    method Upload(batch: seq<Incoming>, analyse: Analyser) returns (outcomes: seq<Outcome>)
      requires Valid()
      modifies this
      ensures Valid()
      ensures Ingest(old(fileData), batch, analyse) == Ingested(fileData, outcomes)
    {
      ghost var start := fileData;
      outcomes := [];
      var i := 0;
      while i < |batch|
        invariant 0 <= i <= |batch|
        invariant Ingest(start, batch, analyse) ==
          Ingested(Ingest(fileData, batch[i..], analyse).files,
                   outcomes + Ingest(fileData, batch[i..], analyse).outcomes)
      {
        var file := batch[i];
        assert batch[i..][0] == file && batch[i..][1..] == batch[i + 1..];
        if file.name !in Names(fileData) {
          match file.read {
            case Failure(e) =>
              outcomes := outcomes + [ReadFailed(e)];
              IngestUnique(start, batch, analyse);
              return;
            case Success(table) =>
              var analysed := analyse(table);
              if analysed.Failure? {
                outcomes := outcomes + [AnalysisFailed(analysed.error)];
              } else {
                var entry := Record(file.name, file.at, analysed.value);
                fileData := fileData + [entry];
                outcomes := outcomes + [Added(entry)];
              }
          }
        } else {
          outcomes := outcomes + [Duplicate];
        }
        i := i + 1;
      }
      IngestUnique(start, batch, analyse);
    }

    /**
     The delete action: when a file other than "None" is chosen and the button is
     pressed, the entries with that name are dropped; otherwise nothing changes.
     */
    method Delete(choice: string, pressed: bool)
      requires Valid()
      modifies this
      ensures Valid()
      ensures fileData == if choice != NO_CHOICE && pressed then Without(old(fileData), choice) else old(fileData)
    {
      if choice != NO_CHOICE {
        if pressed {
          DeleteKeepsUnique(fileData, choice);
          fileData := Without(fileData, choice);
        }
      }
    }
  }
}
