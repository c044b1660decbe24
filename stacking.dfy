/**
 * "Stack Rows", the strict merge: every input table must have exactly the
 * ordered columns of the first usable one. Any problem aborts the whole merge
 * before anything is written or deleted; otherwise the tables are stacked in
 * file order, each row tagged with its file in a `Source_File` column, and
 * every listed input becomes due for deletion once the result is saved.
 *
 * The two programs differ on empty tables: the toolbelt skips them, the web
 * merger rejects them. `EmptyPolicy` says which.
 */
module Stacking {
  import opened Wrappers
  import opened Sequences
  import opened Tables

  const SourceColumn: string := "Source_File"

  datatype EmptyPolicy = SkipEmpty | RejectEmpty

  /** What reading one input gave: its first sheet or CSV table, or an exception. */
  datatype Load = Loaded(frame: Frame) | Unreadable

  datatype InputFile = InputFile(name: string, load: Load)

  /** The entries of `validation_errors`. */
  datatype StackError =
    | Mismatch(file: string, master: string)
    | ReadFailed(file: string)
    | EmptyFile(file: string)

  /** `master_file` and `expected_columns` once the first usable table fixed them. */
  datatype Schema = Schema(master: string, columns: seq<string>)

  /** The loop's variables: `validation_errors`, the schema, `merged_data`. */
  datatype ScanState = ScanState(errors: seq<StackError>, schema: Option<Schema>, buffered: seq<Frame>)

  const Start := ScanState([], None, [])

  function FileName(f: InputFile): string { f.name }

  /** The column labels after `df['Source_File'] = name`. */
  function TaggedColumns(columns: seq<string>): seq<string> {
    if SourceColumn in columns then columns else columns + [SourceColumn]
  }

  function TagRow(columns: seq<string>, row: Row, name: string): Row {
    if SourceColumn in columns then
      seq(|row|, j requires 0 <= j < |row| =>
        if j < |columns| && columns[j] == SourceColumn then Text(name) else row[j])
    else row + [Text(name)]
  }

  /** `df['Source_File'] = name`. */
  function Tag(f: Frame, name: string): Frame {
    Frame(TaggedColumns(f.columns),
          seq(|f.rows|, i requires 0 <= i < |f.rows| => TagRow(f.columns, f.rows[i], name)))
  }

  /**
   * Tagging adds the file name as a new last column or, when the table
   * already has a `Source_File` column, overwrites that column; rows are
   * neither added nor removed.
   */
  lemma TagShape(f: Frame, name: string)
    ensures var r := Tag(f, name);
            && SourceColumn in r.columns && |r.rows| == |f.rows|
            && (SourceColumn !in f.columns ==>
                  r.columns == f.columns + [SourceColumn]
                  && forall i :: 0 <= i < |f.rows| ==> r.rows[i] == f.rows[i] + [Text(name)])
            && (SourceColumn in f.columns ==>
                  r.columns == f.columns
                  && forall i, j :: 0 <= i < |f.rows| && 0 <= j < |f.rows[i]| ==>
                       r.rows[i][j] == (if j < |f.columns| && f.columns[j] == SourceColumn then Text(name) else f.rows[i][j]))
  {
  }

  /**
   * On a rectangular table, tagging keeps every row as wide as the header,
   * and every cell under `Source_File` holds the file name.
   */
  lemma TagRectangular(f: Frame, name: string)
    requires Rectangular(f)
    ensures var r := Tag(f, name);
            && Rectangular(r)
            && forall i, j :: 0 <= i < |r.rows| && 0 <= j < |r.columns| && r.columns[j] == SourceColumn ==>
                 j < |r.rows[i]| && r.rows[i][j] == Text(name)
  {
    TagShape(f, name);
  }

  /** One pass of the `for filename in all_files` body. */
  function Step(st: ScanState, f: InputFile, policy: EmptyPolicy): ScanState {
    match f.load
    case Unreadable => st.(errors := st.errors + [ReadFailed(f.name)])
    case Loaded(df) =>
      if IsEmpty(df) then
        if policy == SkipEmpty then st else st.(errors := st.errors + [EmptyFile(f.name)])
      else if st.schema == None then
        ScanState(st.errors, Some(Schema(f.name, df.columns)), st.buffered + [Tag(df, f.name)])
      else if df.columns != st.schema.value.columns then
        st.(errors := st.errors + [Mismatch(f.name, st.schema.value.master)])
      else
        st.(buffered := st.buffered + [Tag(df, f.name)])
  }

  /** The loop run over the remaining files. */
  function ScanFrom(st: ScanState, files: seq<InputFile>, policy: EmptyPolicy): ScanState
    decreases |files|
  {
    if files == [] then st else ScanFrom(Step(st, files[0], policy), files[1..], policy)
  }

  // ---------------------------------------------------------------------------
  // A reference description of the loop's result that needs no loop state:
  // the first usable table is the master, and every file is judged against it.

  /** A table that can fix or meet the schema: read without error and not empty. */
  predicate Usable(f: InputFile) {
    f.load.Loaded? && !IsEmpty(f.load.frame)
  }

  /** The schema the first usable table fixes, if any. */
  function Master(files: seq<InputFile>): Option<Schema> {
    if files == [] then None
    else if Usable(files[0]) then Some(Schema(files[0].name, files[0].load.frame.columns))
    else Master(files[1..])
  }

  /** There is no master exactly when no file is usable; otherwise it is the first usable file's name and columns. */
  lemma {:induction false} MasterIsFirstUsable(files: seq<InputFile>)
    ensures Master(files) == None <==> forall i :: 0 <= i < |files| ==> !Usable(files[i])
    ensures Master(files) != None ==>
              exists i :: 0 <= i < |files| && Usable(files[i])
                          && Master(files) == Some(Schema(files[i].name, files[i].load.frame.columns))
                          && forall j :: 0 <= j < i ==> !Usable(files[j])
  {
    if files != [] && !Usable(files[0]) {
      MasterIsFirstUsable(files[1..]);
      assert forall i :: 1 <= i < |files| ==> files[i] == files[1..][i - 1];
      if Master(files) != None {
        var i :| 0 <= i < |files[1..]| && Usable(files[1..][i])
                 && Master(files) == Some(Schema(files[1..][i].name, files[1..][i].load.frame.columns))
                 && forall j :: 0 <= j < i ==> !Usable(files[1..][j]);
        assert files[i + 1] == files[1..][i];
        assert forall j :: 1 <= j < i + 1 ==> files[j] == files[1..][j - 1];
      }
    }
  }

  datatype Verdict = Buffer | Skip | Reject(error: StackError)

  /** What happens to one file once the master is known. */
  function VerdictOf(f: InputFile, master: Option<Schema>, policy: EmptyPolicy): Verdict {
    match f.load
    case Unreadable => Reject(ReadFailed(f.name))
    case Loaded(df) =>
      if IsEmpty(df) then (if policy == SkipEmpty then Skip else Reject(EmptyFile(f.name)))
      else if master == None || df.columns == master.value.columns then Buffer
      else Reject(Mismatch(f.name, master.value.master))
  }

  /** The rejected files' errors, in file order. */
  function Errors(files: seq<InputFile>, master: Option<Schema>, policy: EmptyPolicy): seq<StackError> {
    if files == [] then []
    else ErrorOf(files[0], master, policy) + Errors(files[1..], master, policy)
  }

  function ErrorOf(f: InputFile, master: Option<Schema>, policy: EmptyPolicy): seq<StackError> {
    match VerdictOf(f, master, policy) case Reject(e) => [e] case _ => []
  }

  function AcceptedOf(f: InputFile, master: Option<Schema>, policy: EmptyPolicy): seq<Frame> {
    if VerdictOf(f, master, policy) == Buffer then [Tag(f.load.frame, f.name)] else []
  }

  /** The buffered files' tagged tables, in file order. */
  function Accepted(files: seq<InputFile>, master: Option<Schema>, policy: EmptyPolicy): seq<Frame> {
    if files == [] then []
    else AcceptedOf(files[0], master, policy) + Accepted(files[1..], master, policy)
  }

  /** One step once the schema is fixed adds the file's own reference error or table. */
  lemma StepAfterMaster(st: ScanState, f: InputFile, policy: EmptyPolicy)
    requires st.schema != None
    ensures Step(st, f, policy)
            == ScanState(st.errors + ErrorOf(f, st.schema, policy), st.schema,
                         st.buffered + AcceptedOf(f, st.schema, policy))
  {
  }

  /** Once the schema is fixed, the loop adds exactly the reference errors and tables. */
  lemma {:induction false} ScanAfterMaster(st: ScanState, files: seq<InputFile>, policy: EmptyPolicy)
    requires st.schema != None
    ensures ScanFrom(st, files, policy)
            == ScanState(st.errors + Errors(files, st.schema, policy), st.schema,
                         st.buffered + Accepted(files, st.schema, policy))
    decreases |files|
  {
    if files != [] {
      var m := st.schema;
      var e, a := ErrorOf(files[0], m, policy), AcceptedOf(files[0], m, policy);
      StepAfterMaster(st, files[0], policy);
      var next := ScanState(st.errors + e, m, st.buffered + a);
      ScanAfterMaster(next, files[1..], policy);
      assert st.errors + e + Errors(files[1..], m, policy) == st.errors + Errors(files, m, policy);
      assert st.buffered + a + Accepted(files[1..], m, policy) == st.buffered + Accepted(files, m, policy);
    }
  }

  /** One step before the schema is fixed: a usable table becomes the master, any other file does as it would against any master. */
  lemma StepBeforeMaster(st: ScanState, f: InputFile, policy: EmptyPolicy, m: Option<Schema>)
    requires st.schema == None
    ensures Usable(f) ==>
              Step(st, f, policy)
              == ScanState(st.errors, Some(Schema(f.name, f.load.frame.columns)), st.buffered + [Tag(f.load.frame, f.name)])
    ensures !Usable(f) ==>
              AcceptedOf(f, m, policy) == []
              && Step(st, f, policy) == ScanState(st.errors + ErrorOf(f, m, policy), None, st.buffered)
  {
  }

  /** A usable first table becomes the master and the rest are judged against it. */
  lemma ScanFromMaster(st: ScanState, files: seq<InputFile>, policy: EmptyPolicy)
    requires st.schema == None && files != [] && Usable(files[0])
    ensures ScanFrom(st, files, policy)
            == ScanState(st.errors + Errors(files, Master(files), policy), Master(files),
                         st.buffered + Accepted(files, Master(files), policy))
  {
    var f := files[0];
    var m := Some(Schema(f.name, f.load.frame.columns));
    var t := Tag(f.load.frame, f.name);
    assert Master(files) == m;
    StepBeforeMaster(st, f, policy, m);
    var next := ScanState(st.errors, m, st.buffered + [t]);
    assert ScanFrom(st, files, policy) == ScanFrom(next, files[1..], policy);
    assert ErrorOf(f, m, policy) == [] && AcceptedOf(f, m, policy) == [t];
    ScanAfterMaster(next, files[1..], policy);
    var errs, acc := Errors(files[1..], m, policy), Accepted(files[1..], m, policy);
    assert Errors(files, m, policy) == errs;
    assert Accepted(files, m, policy) == [t] + acc;
    assert st.buffered + [t] + acc == st.buffered + ([t] + acc);
  }

  /** Before the schema is fixed, the first usable table fixes it as the master. */
  lemma {:induction false} ScanBeforeMaster(st: ScanState, files: seq<InputFile>, policy: EmptyPolicy)
    requires st.schema == None
    ensures ScanFrom(st, files, policy)
            == ScanState(st.errors + Errors(files, Master(files), policy), Master(files),
                         st.buffered + Accepted(files, Master(files), policy))
    decreases |files|
  {
    if files != [] {
      var f := files[0];
      var m := Master(files);
      StepBeforeMaster(st, f, policy, m);
      if Usable(f) {
        ScanFromMaster(st, files, policy);
      } else {
        assert m == Master(files[1..]);
        var next := ScanState(st.errors + ErrorOf(f, m, policy), None, st.buffered);
        ScanBeforeMaster(next, files[1..], policy);
        assert st.errors + ErrorOf(f, m, policy) + Errors(files[1..], m, policy) == st.errors + Errors(files, m, policy);
        assert st.buffered + Accepted(files[1..], m, policy) == st.buffered + Accepted(files, m, policy);
      }
    }
  }

  /** The result of the whole loop, described without loop state. */
  lemma ScanMatchesReference(files: seq<InputFile>, policy: EmptyPolicy)
    ensures ScanFrom(Start, files, policy)
            == ScanState(Errors(files, Master(files), policy), Master(files),
                         Accepted(files, Master(files), policy))
  {
    ScanBeforeMaster(Start, files, policy);
  }

  // ---------------------------------------------------------------------------
  // Commit or abort.

  /**
   * How a merge ends. Only `Saved` writes the output and only `Saved` deletes
   * anything: after a validation failure, with nothing buffered, or when the
   * writer raised, every input stays where it was.
   */
  datatype StackOutcome =
    | ValidationFailed(errors: seq<StackError>)
    | NothingToSave
    | SaveFailed
    | Saved(output: Frame, deleted: seq<string>)

  /** The stacked table: the shared columns and every buffered row in file order. */
  function Stacked(frames: seq<Frame>): Frame
    requires frames != []
  {
    Frame(frames[0].columns, ConcatRows(frames))
  }

  /**
   * `run_stack_rows` (and the web merger's stack mode) once the files are
   * listed and read; `saveOk` is whether writing the workbook succeeded.
   */
  method StackRows(files: seq<InputFile>, policy: EmptyPolicy, saveOk: bool) returns (out: StackOutcome)
    ensures var m := Master(files);
            var errs := Errors(files, m, policy);
            var acc := Accepted(files, m, policy);
            && (out.ValidationFailed? <==> errs != [])
            && (out.ValidationFailed? ==> out.errors == errs)
            && (out.NothingToSave? <==> errs == [] && acc == [])
            && (out.SaveFailed? <==> errs == [] && acc != [] && !saveOk)
            && (out.Saved? <==> errs == [] && acc != [] && saveOk)
            && (out.Saved? ==> out.output == Stacked(acc) && out.deleted == Map(files, FileName))
  {
    var errors: seq<StackError> := [];
    var schema: Option<Schema> := None;
    var merged: seq<Frame> := [];
    var i := 0;
    while i < |files|
      invariant 0 <= i <= |files|
      invariant ScanFrom(ScanState(errors, schema, merged), files[i..], policy) == ScanFrom(Start, files, policy)
    {
      var f := files[i];
      assert files[i..] == [f] + files[i + 1..];
      match f.load {
        case Unreadable =>
          errors := errors + [ReadFailed(f.name)];
        case Loaded(df) =>
          if IsEmpty(df) {
            if policy == RejectEmpty {
              errors := errors + [EmptyFile(f.name)];
            }
          } else if schema == None {
            schema := Some(Schema(f.name, df.columns));
            merged := merged + [Tag(df, f.name)];
          } else if df.columns != schema.value.columns {
            errors := errors + [Mismatch(f.name, schema.value.master)];
          } else {
            merged := merged + [Tag(df, f.name)];
          }
      }
      i := i + 1;
    }
    ScanMatchesReference(files, policy);
    if errors != [] {
      return ValidationFailed(errors);
    }
    if merged == [] {
      return NothingToSave;
    }
    var output := Stacked(merged);
    if !saveOk {
      return SaveFailed;
    }
    return Saved(output, Map(files, FileName));
  }

  // ---------------------------------------------------------------------------
  // Properties of the reference description.

  /** Every buffered table has the master's columns with `Source_File` added, so stacking needs no realignment. */
  lemma {:induction false} AcceptedShareColumns(files: seq<InputFile>, m: Schema, policy: EmptyPolicy)
    ensures forall k :: 0 <= k < |Accepted(files, Some(m), policy)| ==>
              Accepted(files, Some(m), policy)[k].columns == TaggedColumns(m.columns)
  {
    if files != [] { AcceptedShareColumns(files[1..], m, policy); }
  }

  /** The rows of the saved table: all rows of all buffered tables, none lost or added. */
  lemma StackedRowCount(frames: seq<Frame>)
    requires frames != []
    ensures |Stacked(frames).rows| == TotalRows(frames)
  {
    ConcatRowsLength(frames);
  }

  /** Every tagged usable table, in file order. */
  function TaggedUsable(files: seq<InputFile>): seq<Frame> {
    if files == [] then []
    else (if Usable(files[0]) then [Tag(files[0].load.frame, files[0].name)] else [])
         + TaggedUsable(files[1..])
  }

  /** A file without an error is buffered exactly when it is usable; under the web merger's policy it is usable. */
  lemma CleanVerdict(f: InputFile, m: Option<Schema>, policy: EmptyPolicy)
    requires ErrorOf(f, m, policy) == []
    ensures AcceptedOf(f, m, policy) == if Usable(f) then [Tag(f.load.frame, f.name)] else []
    ensures policy == RejectEmpty ==> Usable(f)
  {
  }

  /** With no validation error, the merge buffers every usable table, in file order. */
  lemma {:induction false} CleanScanBuffersUsable(files: seq<InputFile>, m: Option<Schema>, policy: EmptyPolicy)
    requires Errors(files, m, policy) == []
    ensures Accepted(files, m, policy) == TaggedUsable(files)
  {
    if files != [] {
      CleanVerdict(files[0], m, policy);
      CleanScanBuffersUsable(files[1..], m, policy);
    }
  }

  /** Under the web merger's policy, a clean scan means every file was readable and non-empty. */
  lemma {:induction false} RejectEmptyAllUsable(files: seq<InputFile>, m: Option<Schema>)
    requires Errors(files, m, RejectEmpty) == []
    ensures forall i :: 0 <= i < |files| ==> Usable(files[i])
  {
    if files != [] {
      CleanVerdict(files[0], m, RejectEmpty);
      RejectEmptyAllUsable(files[1..], m);
      assert forall i :: 1 <= i < |files| ==> files[i] == files[1..][i - 1];
    }
  }

  /** Under the web merger's policy a clean scan buffers every file, so its save never starts empty. */
  lemma {:induction false} RejectEmptyBuffersAll(files: seq<InputFile>, m: Option<Schema>)
    requires Errors(files, m, RejectEmpty) == []
    ensures |Accepted(files, m, RejectEmpty)| == |files|
  {
    if files != [] {
      RejectEmptyBuffersAll(files[1..], m);
    }
  }

  /** A file whose columns differ from the master's is reported and not buffered. */
  lemma MismatchRejected(f: InputFile, m: Schema, policy: EmptyPolicy)
    requires Usable(f) && f.load.frame.columns != m.columns
    ensures VerdictOf(f, Some(m), policy) == Reject(Mismatch(f.name, m.master))
  {
  }

  /** Every buffered table is rectangular when every table read is. */
  lemma {:induction false} AcceptedRectangular(files: seq<InputFile>, m: Option<Schema>, policy: EmptyPolicy)
    requires forall i :: 0 <= i < |files| && files[i].load.Loaded? ==> Rectangular(files[i].load.frame)
    ensures forall k :: 0 <= k < |Accepted(files, m, policy)| ==> Rectangular(Accepted(files, m, policy)[k])
  {
    if files != [] {
      if VerdictOf(files[0], m, policy) == Buffer {
        TagRectangular(files[0].load.frame, files[0].name);
      }
      assert forall i :: 1 <= i < |files| ==> files[i] == files[1..][i - 1];
      AcceptedRectangular(files[1..], m, policy);
    }
  }

  /**
   * The saved table is rectangular when the tables read are: stacking
   * tables with the same columns puts every cell under its column.
   */
  lemma StackedRectangular(files: seq<InputFile>, m: Schema, policy: EmptyPolicy)
    requires forall i :: 0 <= i < |files| && files[i].load.Loaded? ==> Rectangular(files[i].load.frame)
    requires Accepted(files, Some(m), policy) != []
    ensures Rectangular(Stacked(Accepted(files, Some(m), policy)))
  {
    var acc := Accepted(files, Some(m), policy);
    AcceptedRectangular(files, Some(m), policy);
    AcceptedShareColumns(files, m, policy);
    ConcatRowsRectangular(acc, acc[0].columns);
  }
}
