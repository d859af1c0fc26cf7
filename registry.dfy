/**
 The session file registry of the solar telescope dashboard: an ordered list of
 uploaded files, each with its name, upload time and analysed table, together with
 the functions that say what one upload batch, a deletion and the views do to it.
 */
module Registry {

  /** A computation that either yields a value or fails with a message. */
  datatype Result<T> = Success(value: T) | Failure(error: string)

  /** The upload time as the dashboard formats it ("%Y-%m-%d %H:%M:%S"). */
  type Timestamp = string

  /** One row of an uploaded two-column CSV file: time in seconds and sensor output. */
  datatype Sample = Sample(time: real, output: real)
  type Table = seq<Sample>

  /** One row of the analysed table: the sample and the status the analyser gave it. */
  datatype AnalysedRow = AnalysedRow(time: real, output: real, status: string)
  type Frame = seq<AnalysedRow>

  /** The solar analyser: it returns an analysed table or raises. */
  type Analyser = Table -> Result<Frame>

  /** An entry of the registry: `{Filename, Uploaded At, DataFrame}`. */
  datatype Record = Record(filename: string, uploadedAt: Timestamp, frame: Frame)

  /**
   An uploaded file as the upload loop meets it: its name, what reading it as a
   header-less two-column CSV gives (a table, or the reader's error), and the
   clock reading taken when the loop handles it.
   */
  datatype Incoming = Incoming(name: string, read: Result<Table>, at: Timestamp)

  /** What happened to one file of a batch. */
  datatype Outcome =
    | Duplicate                        // warned "already uploaded", skipped
    | ReadFailed(error: string)        // the CSV read raised: the batch stops here
    | AnalysisFailed(error: string)    // the analyser raised: reported, skipped
    | Added(entry: Record)             // appended to the registry

  /** The registry after a batch and the outcome of each file the batch got to. */
  datatype Ingested = Ingested(files: seq<Record>, outcomes: seq<Outcome>)

  /** The list of registered file names, in registry order. */
  function Names(files: seq<Record>): seq<string> {
    seq(|files|, k requires 0 <= k < |files| => files[k].filename)
  }

  /** No two entries of the registry share a file name. */
  predicate UniqueNames(files: seq<Record>) {
    forall i, j :: 0 <= i < j < |files| ==> files[i].filename != files[j].filename
  }

  /** The records that the outcomes of a batch appended, in batch order. */
  function Appended(outcomes: seq<Outcome>): seq<Record> {
    if outcomes == [] then []
    else (if outcomes[0].Added? then [outcomes[0].entry] else []) + Appended(outcomes[1..])
  }

  /** A batch whose last processed file could not be read stopped there. */
  predicate Halted(r: Ingested) {
    |r.outcomes| > 0 && r.outcomes[|r.outcomes| - 1].ReadFailed?
  }

  /** One turn of the upload loop: the registry after file `f`, and its outcome. */
  function Handle(files: seq<Record>, f: Incoming, analyse: Analyser): (seq<Record>, Outcome) {
    if f.name in Names(files) then (files, Duplicate)
    else match f.read
      case Failure(e) => (files, ReadFailed(e))
      case Success(table) =>
        match analyse(table)
        case Failure(e) => (files, AnalysisFailed(e))
        case Success(frame) =>
          var entry := Record(f.name, f.at, frame);
          (files + [entry], Added(entry))
  }

  /** An upload batch handled file by file, stopping at the first file that cannot be read. */
  function Ingest(files: seq<Record>, batch: seq<Incoming>, analyse: Analyser): Ingested
    decreases |batch|
  {
    if batch == [] then Ingested(files, [])
    else
      var (next, outcome) := Handle(files, batch[0], analyse);
      if outcome.ReadFailed? then Ingested(files, [outcome])
      else
        var rest := Ingest(next, batch[1..], analyse);
        Ingested(rest.files, [outcome] + rest.outcomes)
  }

  /** The registry without the entries named `name`. */
  function Without(files: seq<Record>, name: string): seq<Record> {
    KeepWhere(files, n => n != name)
  }

  /** The entries whose name is among the selected ones, in registry order. */
  function Shown(files: seq<Record>, selection: seq<string>): seq<Record> {
    KeepWhere(files, n => n in selection)
  }

  /** The entries whose name satisfies `keep`, in registry order. */
  function KeepWhere(files: seq<Record>, keep: string -> bool): (r: seq<Record>)
    ensures |r| <= |files|
  {
    if files == [] then []
    else (if keep(files[0].filename) then [files[0]] else []) + KeepWhere(files[1..], keep)
  }

  /** A row of the table of uploaded files. */
  datatype TableRow = TableRow(filename: string, uploadedAt: Timestamp)

  /** The table of uploaded files: one row per entry, in registry order. */
  function RecordTable(files: seq<Record>): (r: seq<TableRow>)
    ensures |r| == |files|
    ensures forall k :: 0 <= k < |r| ==>
      r[k].filename == Names(files)[k] && r[k].uploadedAt == files[k].uploadedAt
  {
    seq(|files|, k requires 0 <= k < |files| => TableRow(files[k].filename, files[k].uploadedAt))
  }

  // ----- Names -----

  lemma NamesConcat(a: seq<Record>, b: seq<Record>)
    ensures Names(a + b) == Names(a) + Names(b)
  {
  }

  lemma NamesOfPrefix(a: seq<Record>, b: seq<Record>, n: string)
    requires a <= b && n in Names(a)
    ensures n in Names(b)
  {
    var k :| 0 <= k < |a| && Names(a)[k] == n;
    assert Names(b)[k] == n;
  }

  // ----- One upload batch -----

  /** The files already registered keep their contents and order; the batch only appends. */
  lemma {:induction false} IngestAppends(files: seq<Record>, batch: seq<Incoming>, analyse: Analyser)
    ensures Ingest(files, batch, analyse).files == files + Appended(Ingest(files, batch, analyse).outcomes)
    decreases |batch|
  {
    if batch != [] {
      var (next, outcome) := Handle(files, batch[0], analyse);
      if outcome.ReadFailed? {
        assert Appended([outcome]) == [] + Appended([]);
      } else {
        var rest := Ingest(next, batch[1..], analyse);
        IngestAppends(next, batch[1..], analyse);
        var os := [outcome] + rest.outcomes;
        assert os[0] == outcome && os[1..] == rest.outcomes;
        if outcome.Added? {
          assert next == files + [outcome.entry];
          assert rest.files == files + ([outcome.entry] + Appended(rest.outcomes));
        }
      }
    }
  }

  /** The registry after a batch extends the registry before it. */
  lemma IngestGrows(files: seq<Record>, batch: seq<Incoming>, analyse: Analyser)
    ensures files <= Ingest(files, batch, analyse).files
  {
    IngestAppends(files, batch, analyse);
  }

  /**
   The batch reaches every file unless a read fails; a failed read is always the
   last outcome, and an analyser failure never stops the batch.
   */
  lemma {:induction false} IngestShape(files: seq<Record>, batch: seq<Incoming>, analyse: Analyser)
    ensures var r := Ingest(files, batch, analyse);
      && |r.outcomes| <= |batch|
      && (|r.outcomes| == |batch| || Halted(r))
      && (forall k :: 0 <= k < |r.outcomes| - 1 ==> !r.outcomes[k].ReadFailed?)
    decreases |batch|
  {
    if batch != [] {
      var (next, outcome) := Handle(files, batch[0], analyse);
      if !outcome.ReadFailed? {
        var rest := Ingest(next, batch[1..], analyse);
        IngestShape(next, batch[1..], analyse);
        var os := [outcome] + rest.outcomes;
        assert forall k :: 1 <= k < |os| ==> os[k] == rest.outcomes[k - 1];
        if |rest.outcomes| > 0 {
          assert os[|os| - 1] == rest.outcomes[|rest.outcomes| - 1];
        }
      }
    }
  }

  /**
   Handling a batch in two parts is handling it at once: the second part starts
   from the registry the first left, unless the first stopped at a failed read.
   */
  lemma {:induction false} IngestConcat(files: seq<Record>, a: seq<Incoming>, b: seq<Incoming>, analyse: Analyser)
    ensures var ra := Ingest(files, a, analyse);
      var rb := Ingest(ra.files, b, analyse);
      Ingest(files, a + b, analyse) ==
        if Halted(ra) then ra else Ingested(rb.files, ra.outcomes + rb.outcomes)
    decreases |a|
  {
    if a == [] {
      assert a + b == b;
    } else {
      var ab := a + b;
      assert ab[0] == a[0] && ab[1..] == a[1..] + b;
      var step := Handle(files, a[0], analyse);
      if !step.1.ReadFailed? {
        IngestConcat(step.0, a[1..], b, analyse);
        var rest := Ingest(step.0, a[1..], analyse);
        PrependOutcome(step.1, rest, Ingest(rest.files, b, analyse), Ingest(step.0, ab[1..], analyse));
      }
    }
  }

  /** The inductive step of `IngestConcat`: one more file that did not stop the batch in front. */
  lemma PrependOutcome(o: Outcome, rest: Ingested, rb: Ingested, joined: Ingested)
    requires !o.ReadFailed?
    requires joined == if Halted(rest) then rest else Ingested(rb.files, rest.outcomes + rb.outcomes)
    ensures var ra := Ingested(rest.files, [o] + rest.outcomes);
      Ingested(joined.files, [o] + joined.outcomes) ==
        if Halted(ra) then ra else Ingested(rb.files, ra.outcomes + rb.outcomes)
  {
  }

  /** File `i` of a batch is one turn of the loop on the registry the files before it left. */
  lemma IngestAt(files: seq<Record>, batch: seq<Incoming>, analyse: Analyser, i: nat)
    requires i < |Ingest(files, batch, analyse).outcomes|
    ensures i < |batch|
    ensures var before := Ingest(files, batch[..i], analyse);
      && !Halted(before)
      && before.outcomes == Ingest(files, batch, analyse).outcomes[..i]
      && Ingest(files, batch, analyse).outcomes[i] == Handle(before.files, batch[i], analyse).1
  {
    var r := Ingest(files, batch, analyse);
    IngestShape(files, batch, analyse);
    var before := Ingest(files, batch[..i], analyse);
    IngestShape(files, batch[..i], analyse);
    IngestConcat(files, batch[..i], batch[i..], analyse);
    assert batch[..i] + batch[i..] == batch;
    assert !Halted(before);
    var after := Ingest(before.files, batch[i..], analyse);
    assert r.outcomes == before.outcomes + after.outcomes;
    assert |before.outcomes| == i;
    assert batch[i..][0] == batch[i];
    assert r.outcomes[i] == after.outcomes[0];
  }

  /** After file `i`, the registry is what that turn of the loop left. */
  lemma IngestAtAfter(files: seq<Record>, batch: seq<Incoming>, analyse: Analyser, i: nat)
    requires i < |batch|
    requires !Halted(Ingest(files, batch[..i], analyse))
    ensures Ingest(files, batch[..i + 1], analyse).files ==
      Handle(Ingest(files, batch[..i], analyse).files, batch[i], analyse).0
  {
    IngestConcat(files, batch[..i], [batch[i]], analyse);
    assert batch[..i] + [batch[i]] == batch[..i + 1];
  }

  /**
   The outcome of the `i`-th file of a batch, stated against the registry that
   the files before it left: a duplicate exactly when its name is registered, a
   read or analyser failure exactly when those raise, and otherwise a new entry
   with its name, clock reading and analysed table appended at the end.
   */
  lemma IngestItem(files: seq<Record>, batch: seq<Incoming>, analyse: Analyser, i: nat)
    requires i < |Ingest(files, batch, analyse).outcomes|
    ensures i < |batch|
    ensures var before := Ingest(files, batch[..i], analyse);
      var known := before.files;
      var f := batch[i];
      var o := Ingest(files, batch, analyse).outcomes[i];
      && before.outcomes == Ingest(files, batch, analyse).outcomes[..i]
      && (o == Duplicate <==> f.name in Names(known))
      && (o.ReadFailed? <==> f.name !in Names(known) && f.read.Failure?)
      && (o.ReadFailed? ==> o.error == f.read.error)
      && (o.AnalysisFailed? <==>
            f.name !in Names(known) && f.read.Success? && analyse(f.read.value).Failure?)
      && (o.AnalysisFailed? ==> o.error == analyse(f.read.value).error)
      && (o.Added? <==>
            f.name !in Names(known) && f.read.Success? && analyse(f.read.value).Success?)
      && (o.Added? ==> o.entry == Record(f.name, f.at, analyse(f.read.value).value))
      && Ingest(files, batch[..i + 1], analyse).files == if o.Added? then known + [o.entry] else known
  {
    IngestAt(files, batch, analyse, i);
    IngestAtAfter(files, batch, analyse, i);
  }

  /** The registry that the `j`-th file of a batch meets: the old one plus what the earlier files added. */
  lemma KnownBefore(files: seq<Record>, batch: seq<Incoming>, analyse: Analyser, j: nat)
    requires j < |Ingest(files, batch, analyse).outcomes|
    ensures j < |batch|
    ensures var r := Ingest(files, batch, analyse);
      r.outcomes[j] == Duplicate <==> batch[j].name in Names(files + Appended(r.outcomes[..j]))
  {
    IngestItem(files, batch, analyse, j);
    IngestAppends(files, batch[..j], analyse);
  }

  /** An appended entry carries the name of the file it came from. */
  lemma AddedName(files: seq<Record>, batch: seq<Incoming>, analyse: Analyser, i: nat)
    requires i < |Ingest(files, batch, analyse).outcomes|
    requires Ingest(files, batch, analyse).outcomes[i].Added?
    ensures i < |batch| && Ingest(files, batch, analyse).outcomes[i].entry.filename == batch[i].name
  {
    IngestItem(files, batch, analyse, i);
  }

  /** Appended records are exactly the entries of `Added` outcomes. */
  lemma {:induction false} AppendedFrom(outcomes: seq<Outcome>, e: Record)
    ensures e in Appended(outcomes) <==> exists k :: 0 <= k < |outcomes| && outcomes[k] == Added(e)
    decreases |outcomes|
  {
    if outcomes != [] {
      AppendedFrom(outcomes[1..], e);
      if e in Appended(outcomes[1..]) {
        var k :| 0 <= k < |outcomes[1..]| && outcomes[1..][k] == Added(e);
        assert outcomes[k + 1] == Added(e);
      }
      if exists k :: 0 <= k < |outcomes| && outcomes[k] == Added(e) {
        var k :| 0 <= k < |outcomes| && outcomes[k] == Added(e);
        if k > 0 {
          assert outcomes[1..][k - 1] == Added(e);
        }
      }
    }
  }

  /** A name is registered after some outcomes exactly when it was before or an added entry has it. */
  lemma NamesWithAppended(files: seq<Record>, outcomes: seq<Outcome>, n: string)
    ensures n in Names(files + Appended(outcomes)) <==>
      n in Names(files) || exists k :: 0 <= k < |outcomes| && outcomes[k].Added? && outcomes[k].entry.filename == n
  {
    NamesConcat(files, Appended(outcomes));
    var added := Appended(outcomes);
    if n in Names(added) {
      var m :| 0 <= m < |added| && Names(added)[m] == n;
      AppendedFrom(outcomes, added[m]);
    }
    if exists k :: 0 <= k < |outcomes| && outcomes[k].Added? && outcomes[k].entry.filename == n {
      var k :| 0 <= k < |outcomes| && outcomes[k].Added? && outcomes[k].entry.filename == n;
      AppendedFrom(outcomes, outcomes[k].entry);
      var m :| 0 <= m < |added| && added[m] == outcomes[k].entry;
      assert Names(added)[m] == n;
    }
  }

  /**
   A file of a batch is rejected as a duplicate exactly when its name was
   registered before the batch or an earlier file of the same batch with that
   name was appended: the membership test runs against the growing list.
   */
  lemma IngestDuplicate(files: seq<Record>, batch: seq<Incoming>, analyse: Analyser, j: nat)
    requires j < |Ingest(files, batch, analyse).outcomes|
    ensures j < |batch|
    ensures var r := Ingest(files, batch, analyse);
      r.outcomes[j] == Duplicate <==>
        (batch[j].name in Names(files) ||
         exists i :: 0 <= i < j && r.outcomes[i].Added? && batch[i].name == batch[j].name)
  {
    var r := Ingest(files, batch, analyse);
    KnownBefore(files, batch, analyse, j);
    var n := batch[j].name;
    var earlier := r.outcomes[..j];
    NamesWithAppended(files, earlier, n);
    forall i | 0 <= i < j && r.outcomes[i].Added?
      ensures earlier[i] == r.outcomes[i] && r.outcomes[i].entry.filename == batch[i].name
    {
      AddedName(files, batch, analyse, i);
    }
  }

  /** A batch keeps the file names of the registry unique. */
  lemma {:induction false} IngestUnique(files: seq<Record>, batch: seq<Incoming>, analyse: Analyser)
    requires UniqueNames(files)
    ensures UniqueNames(Ingest(files, batch, analyse).files)
    decreases |batch|
  {
    if batch != [] {
      var (next, outcome) := Handle(files, batch[0], analyse);
      if !outcome.ReadFailed? {
        if outcome.Added? {
          assert batch[0].name !in Names(files);
          forall i | 0 <= i < |files|
            ensures next[i].filename != next[|files|].filename
          {
            assert Names(files)[i] == files[i].filename;
          }
        }
        IngestUnique(next, batch[1..], analyse);
      }
    }
  }

  /**
   Two batches hold the same uploaded files, file for file: same names and same
   read results. Their clock readings may differ, as they do on a rerun.
   */
  predicate SameFiles(batch: seq<Incoming>, again: seq<Incoming>) {
    |again| == |batch| &&
    forall k :: 0 <= k < |batch| ==> again[k].name == batch[k].name && again[k].read == batch[k].read
  }

  /**
   Running the same files again, with any clock readings, on a registry that
   agrees, on the batch's names, with the registry the first run produced,
   changes nothing: every file is a duplicate or fails as it failed before.
   */
  lemma {:induction false} RerunUnchanged(first: seq<Record>, files: seq<Record>, batch: seq<Incoming>,
                                          again: seq<Incoming>, analyse: Analyser)
    requires SameFiles(batch, again)
    requires forall k :: 0 <= k < |batch| ==>
      (batch[k].name in Names(files) <==> batch[k].name in Names(Ingest(first, batch, analyse).files))
    ensures Ingest(files, again, analyse).files == files
    decreases |batch|
  {
    if batch != [] {
      var f := batch[0];
      assert again[0].name == f.name && again[0].read == f.read;
      var (next, outcome) := Handle(first, f, analyse);
      var result := Ingest(first, batch, analyse).files;
      assert f.name in Names(files) <==> f.name in Names(result);
      if !outcome.ReadFailed? {
        var rest := Ingest(next, batch[1..], analyse);
        assert result == rest.files;
        forall k | 0 <= k < |batch[1..]|
          ensures batch[1..][k].name in Names(files) <==> batch[1..][k].name in Names(rest.files)
        {
          assert batch[1..][k] == batch[k + 1];
        }
        forall k | 0 <= k < |batch[1..]|
          ensures again[1..][k].name == batch[1..][k].name && again[1..][k].read == batch[1..][k].read
        {
          assert batch[1..][k] == batch[k + 1] && again[1..][k] == again[k + 1];
        }
        RerunUnchanged(next, files, batch[1..], again[1..], analyse);
        IngestGrows(next, batch[1..], analyse);
        assert outcome.Added? ==> Names(next)[|first|] == f.name;
        if f.name in Names(next) {
          NamesOfPrefix(next, result, f.name);
        }
        if f.name !in Names(files) {
          assert outcome.AnalysisFailed?;
        }
      }
    }
  }

  /**
   The uploader hands the same files to every rerun of the page, and the loop
   reads the clock again: handling the same files a second time, whatever the
   new clock readings, leaves the registry as the first time left it.
   */
  lemma RerunIdempotent(files: seq<Record>, batch: seq<Incoming>, again: seq<Incoming>, analyse: Analyser)
    requires SameFiles(batch, again)
    ensures var once := Ingest(files, batch, analyse).files;
      Ingest(once, again, analyse).files == once
  {
    RerunUnchanged(files, Ingest(files, batch, analyse).files, batch, again, analyse);
  }

  // ----- Filtering: deletion and the selection view -----

  /** An entry is kept exactly when it was there and its name satisfies `keep`. */
  lemma {:induction false} KeepWhereMembers(files: seq<Record>, keep: string -> bool)
    ensures forall x :: x in KeepWhere(files, keep) <==> x in files && keep(x.filename)
    decreases |files|
  {
    if files != [] {
      KeepWhereMembers(files[1..], keep);
      assert files == [files[0]] + files[1..];
    }
  }

  /** Filtering distributes over concatenation, so kept entries stay in registry order. */
  lemma {:induction false} KeepWhereConcat(a: seq<Record>, b: seq<Record>, keep: string -> bool)
    ensures KeepWhere(a + b, keep) == KeepWhere(a, keep) + KeepWhere(b, keep)
    decreases |a|
  {
    if a == [] {
      assert a + b == b;
    } else {
      var ab := a + b;
      assert ab[0] == a[0] && ab[1..] == a[1..] + b;
      KeepWhereConcat(a[1..], b, keep);
      var head := if keep(a[0].filename) then [a[0]] else [];
      assert KeepWhere(ab, keep) == head + KeepWhere(ab[1..], keep);
      assert KeepWhere(a, keep) == head + KeepWhere(a[1..], keep);
      assert head + (KeepWhere(a[1..], keep) + KeepWhere(b, keep)) ==
        (head + KeepWhere(a[1..], keep)) + KeepWhere(b, keep);
    }
  }

  /** A filter that keeps every name it meets keeps the whole registry. */
  lemma {:induction false} KeepWhereAll(files: seq<Record>, keep: string -> bool)
    requires forall k :: 0 <= k < |files| ==> keep(files[k].filename)
    ensures KeepWhere(files, keep) == files
    decreases |files|
  {
    if files != [] {
      KeepWhereAll(files[1..], keep);
    }
  }

  /** A filtered registry keeps its names unique. */
  lemma {:induction false} KeepWhereUnique(files: seq<Record>, keep: string -> bool)
    requires UniqueNames(files)
    ensures UniqueNames(KeepWhere(files, keep))
    decreases |files|
  {
    if files != [] {
      var tail := files[1..];
      KeepWhereUnique(tail, keep);
      KeepWhereMembers(tail, keep);
      var kept := KeepWhere(files, keep);
      if keep(files[0].filename) {
        forall j | 1 <= j < |kept|
          ensures kept[0].filename != kept[j].filename
        {
          assert kept[j] in KeepWhere(tail, keep);
          var k :| 0 <= k < |tail| && tail[k] == kept[j];
          assert files[k + 1] == kept[j];
        }
      }
    }
  }

  /**
   Deleting `name` keeps exactly the entries with another name, in their order:
   the filter distributes over any split of the list.
   */
  lemma DeleteExact(files: seq<Record>, name: string)
    ensures forall x :: x in Without(files, name) <==> x in files && x.filename != name
    ensures forall a, b :: a + b == files ==> Without(files, name) == Without(a, name) + Without(b, name)
  {
    KeepWhereMembers(files, n => n != name);
    forall a, b | a + b == files
      ensures Without(files, name) == Without(a, name) + Without(b, name)
    {
      KeepWhereConcat(a, b, n => n != name);
    }
  }

  /** Deleting keeps the registered names unique. */
  lemma DeleteKeepsUnique(files: seq<Record>, name: string)
    requires UniqueNames(files)
    ensures UniqueNames(Without(files, name))
  {
    KeepWhereUnique(files, n => n != name);
  }

  /**
   A deleted file that the uploader still holds is handled as new on the next
   rerun: it comes back, appended at the end with a fresh clock reading.
   */
  lemma DeletedComesBack(files: seq<Record>, f: Incoming, analyse: Analyser)
    requires f.read.Success? && analyse(f.read.value).Success?
    ensures var left := Without(files, f.name);
      Ingest(left, [f], analyse).files == left + [Record(f.name, f.at, analyse(f.read.value).value)]
  {
    var left := Without(files, f.name);
    KeepWhereMembers(files, n => n != f.name);
    assert [f][1..] == [];
  }

  /** Deleting a name that is not registered changes nothing. */
  lemma DeleteAbsent(files: seq<Record>, name: string)
    requires name !in Names(files)
    ensures Without(files, name) == files
  {
    forall k | 0 <= k < |files|
      ensures files[k].filename != name
    {
      assert Names(files)[k] == files[k].filename;
    }
    KeepWhereAll(files, n => n != name);
  }

  /** With unique names, deleting a registered name removes exactly one entry. */
  lemma {:induction false} DeleteCount(files: seq<Record>, name: string)
    requires UniqueNames(files)
    requires name in Names(files)
    ensures |Without(files, name)| == |files| - 1
    decreases |files|
  {
    var tail := files[1..];
    if files[0].filename == name {
      forall k | 0 <= k < |tail|
        ensures tail[k].filename != name
      {
        assert files[k + 1] == tail[k];
      }
      DeleteAbsent(tail, name);
    } else {
      var k :| 0 <= k < |files| && Names(files)[k] == name;
      assert Names(tail)[k - 1] == name;
      DeleteCount(tail, name);
    }
  }

  /**
   The entries shown are exactly the registered ones whose name is selected, in
   registry order; the default selection, every name, shows the whole registry.
   */
  lemma ShownExact(files: seq<Record>, selection: seq<string>)
    ensures forall x :: x in Shown(files, selection) <==> x in files && x.filename in selection
    ensures forall a, b :: a + b == files ==>
      Shown(files, selection) == Shown(a, selection) + Shown(b, selection)
    ensures selection == Names(files) ==> Shown(files, selection) == files
  {
    KeepWhereMembers(files, n => n in selection);
    forall a, b | a + b == files
      ensures Shown(files, selection) == Shown(a, selection) + Shown(b, selection)
    {
      KeepWhereConcat(a, b, n => n in selection);
    }
    if selection == Names(files) {
      forall k | 0 <= k < |files|
        ensures files[k].filename in selection
      {
        assert Names(files)[k] == files[k].filename;
      }
      KeepWhereAll(files, n => n in selection);
    }
  }

  // ----- The record table -----

  lemma RecordTableConcat(a: seq<Record>, b: seq<Record>)
    ensures RecordTable(a + b) == RecordTable(a) + RecordTable(b)
  {
  }

  /**
   After an upload batch the record table is the old table followed by one row
   per appended file, in batch order.
   */
  lemma TableAfterIngest(files: seq<Record>, batch: seq<Incoming>, analyse: Analyser)
    ensures var r := Ingest(files, batch, analyse);
      RecordTable(r.files) == RecordTable(files) + RecordTable(Appended(r.outcomes))
  {
    IngestAppends(files, batch, analyse);
    RecordTableConcat(files, Appended(Ingest(files, batch, analyse).outcomes));
  }

  /**
   After deleting `name` the record table holds exactly the rows of the old table
   with another name; with unique names no two rows share a name.
   */
  lemma TableAfterDelete(files: seq<Record>, name: string)
    ensures forall row :: row in RecordTable(Without(files, name)) <==>
      row in RecordTable(files) && row.filename != name
    ensures UniqueNames(files) ==> forall i, j :: 0 <= i < j < |RecordTable(Without(files, name))| ==>
      RecordTable(Without(files, name))[i].filename != RecordTable(Without(files, name))[j].filename
  {
    var left := Without(files, name);
    KeepWhereMembers(files, n => n != name);
    var t, tl := RecordTable(files), RecordTable(left);
    forall row | row in tl
      ensures row in t && row.filename != name
    {
      var k :| 0 <= k < |tl| && tl[k] == row;
      assert left[k] in files;
      var m :| 0 <= m < |files| && files[m] == left[k];
      assert t[m] == row;
    }
    forall row | row in t && row.filename != name
      ensures row in tl
    {
      var m :| 0 <= m < |t| && t[m] == row;
      assert files[m] in left;
      var k :| 0 <= k < |left| && left[k] == files[m];
      assert tl[k] == row;
    }
    if UniqueNames(files) {
      DeleteKeepsUnique(files, name);
    }
  }
}
