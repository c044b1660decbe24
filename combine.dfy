/**
 * "Combine to Sheets", the loose merge: every table of every input becomes a
 * worksheet of one output workbook. A CSV file gives one sheet named after
 * the file; a workbook with one sheet likewise; a workbook with several gives
 * `<base>_<sheet>` for each. Names are cleaned and made unique against the
 * sheets already written. A file is due for deletion only when all its
 * sheets were written, and only once the workbook is saved.
 */
module SheetCombine {
  import opened Wrappers
  import opened Sequences
  import opened Tables
  import opened Naming

  /**
   * One listed input: what `pd.read_csv` and `pd.read_excel(sheet_name=None)`
   * would give for it, `None` where the reader raises. Which of the two is
   * used depends on the file's extension.
   */
  datatype SourceFile = SourceFile(name: string, asCsv: Option<Frame>, asWorkbook: Option<seq<NamedFrame>>)

  /**
   * Whether the writer accepts this table as a new sheet of this name next
   * to the sheets already in the book (`df.to_excel` raising is a refusal);
   * a refusal may depend on the table itself, e.g. one with too many rows.
   */
  type Acceptance = (string, seq<string>, Frame) -> bool

  function SheetNames(book: seq<NamedFrame>): (r: seq<string>)
    ensures |r| == |book| && forall i :: 0 <= i < |book| ==> r[i] == book[i].name
  {
    if book == [] then [] else [book[0].name] + SheetNames(book[1..])
  }

  predicate Distinct(names: seq<string>) {
    forall i, j :: 0 <= i < j < |names| ==> names[i] != names[j]
  }

  /**
   * `d[k] = v` on an insertion-ordered dictionary: an existing key keeps its
   * place and gets the new value, a new key goes last.
   */
  function Put(d: seq<NamedFrame>, k: string, v: Frame): seq<NamedFrame> {
    if d == [] then [NamedFrame(k, v)]
    else if d[0].name == k then [NamedFrame(k, v)] + d[1..]
    else [d[0]] + Put(d[1..], k, v)
  }

  /** After `d[k] = v` the keys are the old keys, with `k` added last when it is new. */
  lemma {:induction false} PutKeys(d: seq<NamedFrame>, k: string, v: Frame)
    ensures SheetNames(Put(d, k, v)) == if k in SheetNames(d) then SheetNames(d) else SheetNames(d) + [k]
  {
    if d != [] {
      assert SheetNames(d) == [d[0].name] + SheetNames(d[1..]);
      if d[0].name == k {
        assert SheetNames(Put(d, k, v)) == [k] + SheetNames(d[1..]);
      } else {
        var rest := Put(d[1..], k, v);
        PutKeys(d[1..], k, v);
        assert SheetNames([d[0]] + rest) == [d[0].name] + SheetNames(rest);
      }
    }
  }

  /** After `d[k] = v`, `k` holds `v`. */
  lemma {:induction false} PutStores(d: seq<NamedFrame>, k: string, v: Frame)
    ensures NamedFrame(k, v) in Put(d, k, v)
  {
    if d != [] && d[0].name != k {
      PutStores(d[1..], k, v);
    }
  }

  /** A new key goes last and leaves the old entries as they were. */
  lemma {:induction false} PutNew(d: seq<NamedFrame>, k: string, v: Frame)
    requires k !in SheetNames(d)
    ensures Put(d, k, v) == d + [NamedFrame(k, v)]
  {
    if d != [] {
      assert SheetNames(d)[0] == d[0].name;
      assert SheetNames(d[1..]) == SheetNames(d)[1..];
      PutNew(d[1..], k, v);
    }
  }

  /** The name `frames[t_name] = df` gives a workbook sheet. */
  function TargetName(base: string, sheetCount: nat, sheet: string): string {
    if sheetCount == 1 then base else base + "_" + sheet
  }

  /** `frames` after the `for s_name, df in sheets.items()` loop, resumed at `sheets`. */
  function PutSheets(d: seq<NamedFrame>, base: string, sheetCount: nat, sheets: seq<NamedFrame>): (r: seq<NamedFrame>)
    ensures Distinct(SheetNames(d)) ==> Distinct(SheetNames(r))
    decreases |sheets|
  {
    if sheets == [] then d
    else
      PutKeys(d, TargetName(base, sheetCount, sheets[0].name), sheets[0].frame);
      PutSheets(Put(d, TargetName(base, sheetCount, sheets[0].name), sheets[0].frame), base, sheetCount, sheets[1..])
  }

  /** The tables one file contributes, keyed by raw sheet name; `None` when its reader raises. */
  function FramesFor(f: SourceFile): Option<seq<NamedFrame>> {
    var base := BaseName(f.name);
    if IsCsv(f.name) then
      (if f.asCsv.Some? then Some([NamedFrame(base, f.asCsv.value)]) else None)
    else if f.asWorkbook.Some? then
      Some(PutSheets([], base, |f.asWorkbook.value|, f.asWorkbook.value))
    else None
  }

  datatype Placed = Placed(book: seq<NamedFrame>, complete: bool)

  /**
   * Writing the tables of one file in order: each under the cleaned,
   * de-duplicated form of its raw name, stopping at the first table the
   * writer refuses. Sheets written before a refusal stay in the book.
   */
  function PlaceAll(book: seq<NamedFrame>, frames: seq<NamedFrame>, accepts: Acceptance): Placed
    decreases |frames|
  {
    if frames == [] then Placed(book, true)
    else
      var name := UniqueName(CleanSheetName(frames[0].name), SheetNames(book));
      if accepts(name, SheetNames(book), frames[0].frame) then PlaceAll(book + [NamedFrame(name, frames[0].frame)], frames[1..], accepts)
      else Placed(book, false)
  }

  /** Writing the next table: under its free name when the writer accepts, otherwise the file stops there. */
  lemma PlaceAllStep(book: seq<NamedFrame>, frames: seq<NamedFrame>, accepts: Acceptance, name: string)
    requires frames != [] && name == UniqueName(CleanSheetName(frames[0].name), SheetNames(book))
    ensures PlaceAll(book, frames, accepts)
            == if accepts(name, SheetNames(book), frames[0].frame) then PlaceAll(book + [NamedFrame(name, frames[0].frame)], frames[1..], accepts)
               else Placed(book, false)
  {
  }

  /** The book and `files_to_delete` as the `for filename in all_files` loop builds them. */
  datatype CombineState = CombineState(book: seq<NamedFrame>, toDelete: seq<string>)

  const Start := CombineState([], [])

  function AddFile(st: CombineState, f: SourceFile, accepts: Acceptance): CombineState {
    match FramesFor(f)
    case None => st
    case Some(frames) =>
      var p := PlaceAll(st.book, frames, accepts);
      CombineState(p.book, if p.complete then st.toDelete + [f.name] else st.toDelete)
  }

  function CombineFrom(st: CombineState, files: seq<SourceFile>, accepts: Acceptance): CombineState
    decreases |files|
  {
    if files == [] then st else CombineFrom(AddFile(st, files[0], accepts), files[1..], accepts)
  }

  /** Closing the writer saves the book; when that raises, nothing is deleted. */
  datatype CombineOutcome = Saved(book: seq<NamedFrame>, deleted: seq<string>) | SaveFailed

  // ---------------------------------------------------------------------------
  // The loops.

  /** The inner `for raw_name, df in frames.items()` loop for one file. */
  method WriteFrames(book0: seq<NamedFrame>, frames: seq<NamedFrame>, accepts: Acceptance)
    returns (book: seq<NamedFrame>, complete: bool)
    ensures Placed(book, complete) == PlaceAll(book0, frames, accepts)
    ensures |book0| <= |book| && book[..|book0|] == book0
    ensures HoldsTables(book, |book0|, frames, accepts)
    ensures complete <==> |book| == |book0| + |frames|
    ensures !complete ==> StopsAt(book, |book0|, frames, accepts)
  {
    PlaceAllComplete(book0, frames, accepts);
    PlaceAllContents(book0, frames, accepts);
    PlaceAllStops(book0, frames, accepts);
    book := book0;
    complete := true;
    var rest := frames;
    while rest != []
      invariant PlaceAll(book, rest, accepts) == PlaceAll(book0, frames, accepts)
      decreases |rest|
    {
      var raw := rest[0];
      var names := SheetNames(book);
      var name := FreeSheetName(CleanSheetName(raw.name), names);
      PlaceAllStep(book, rest, accepts, name);
      if !accepts(name, names, raw.frame) {
        complete := false;
        return;
      }
      book := book + [NamedFrame(name, raw.frame)];
      rest := rest[1..];
    }
  }

  /**
   * `run_combine_sheets` (and the web merger's sheet mode) once the files are
   * listed and read; `saveOk` is whether closing the writer succeeded.
   */
  method CombineSheets(files: seq<SourceFile>, accepts: Acceptance, saveOk: bool) returns (out: CombineOutcome)
    ensures var st := CombineFrom(Start, files, accepts);
            if saveOk then out == Saved(st.book, st.toDelete) else out == SaveFailed
  {
    var book: seq<NamedFrame> := [];
    var toDelete: seq<string> := [];
    var i := 0;
    while i < |files|
      invariant 0 <= i <= |files|
      invariant CombineFrom(CombineState(book, toDelete), files[i..], accepts) == CombineFrom(Start, files, accepts)
    {
      var f := files[i];
      assert files[i..] == [f] + files[i + 1..];
      var frames := FramesFor(f);
      if frames.Some? {
        var complete;
        book, complete := WriteFrames(book, frames.value, accepts);
        if complete {
          toDelete := toDelete + [f.name];
        }
      }
      i := i + 1;
    }
    if !saveOk {
      return SaveFailed;
    }
    return Saved(book, toDelete);
  }

  // ---------------------------------------------------------------------------
  // Properties.

  /** Every sheet of the book has its own name, and no name holds a character Excel forbids. */
  predicate GoodBook(book: seq<NamedFrame>) {
    Distinct(SheetNames(book)) && forall i :: 0 <= i < |book| ==> NoForbidden(book[i].name)
  }

  /** The name chosen for a table is free and clean. */
  lemma ChosenNameFresh(raw: string, book: seq<NamedFrame>)
    ensures UniqueName(CleanSheetName(raw), SheetNames(book)) !in SheetNames(book)
    ensures NoForbidden(UniqueName(CleanSheetName(raw), SheetNames(book)))
  {
    var orig := CleanSheetName(raw);
    var name := UniqueName(orig, SheetNames(book));
    if orig in SheetNames(book) {
      var k: nat :| 1 <= k && name == Suffixed(orig, k);
      SuffixedShape(orig, k);
    }
  }

  lemma {:induction false} PlaceAllKeepsGood(book: seq<NamedFrame>, frames: seq<NamedFrame>, accepts: Acceptance)
    requires GoodBook(book)
    ensures GoodBook(PlaceAll(book, frames, accepts).book)
    decreases |frames|
  {
    if frames != [] {
      var name := UniqueName(CleanSheetName(frames[0].name), SheetNames(book));
      if accepts(name, SheetNames(book), frames[0].frame) {
        ChosenNameFresh(frames[0].name, book);
        var next := book + [NamedFrame(name, frames[0].frame)];
        assert SheetNames(next) == SheetNames(book) + [name];
        PlaceAllKeepsGood(next, frames[1..], accepts);
      }
    }
  }

  lemma {:induction false} CombineKeepsGood(st: CombineState, files: seq<SourceFile>, accepts: Acceptance)
    requires GoodBook(st.book)
    ensures GoodBook(CombineFrom(st, files, accepts).book)
    decreases |files|
  {
    if files != [] {
      if FramesFor(files[0]).Some? {
        PlaceAllKeepsGood(st.book, FramesFor(files[0]).value, accepts);
      }
      CombineKeepsGood(AddFile(st, files[0], accepts), files[1..], accepts);
    }
  }

  /** The saved workbook never has two sheets of the same name nor a forbidden character in a name. */
  lemma CombinedBookIsGood(files: seq<SourceFile>, accepts: Acceptance)
    ensures GoodBook(CombineFrom(Start, files, accepts).book)
  {
    CombineKeepsGood(Start, files, accepts);
  }

  /**
   * Only files that were read are marked for deletion, each at most once per
   * listing entry, so `len(all_files) - len(files_to_delete)` is never negative.
   */
  lemma {:induction false} DeletedOnlyReadable(st: CombineState, files: seq<SourceFile>, accepts: Acceptance)
    ensures var r := CombineFrom(st, files, accepts);
            && |r.toDelete| <= |st.toDelete| + |files|
            && forall x :: x in r.toDelete ==>
                 x in st.toDelete || exists i :: 0 <= i < |files| && files[i].name == x && FramesFor(files[i]).Some?
    decreases |files|
  {
    if files != [] {
      var next := AddFile(st, files[0], accepts);
      DeletedOnlyReadable(next, files[1..], accepts);
      assert forall i :: 0 <= i < |files[1..]| ==> files[1..][i] == files[i + 1];
      assert forall x :: x in next.toDelete ==> x in st.toDelete || (x == files[0].name && FramesFor(files[0]).Some?);
    }
  }

  /**
   * Writing one file's tables keeps the sheets already in the book first and
   * adds at most one sheet per table; it completes exactly when it added one
   * sheet for every table.
   */
  lemma {:induction false} PlaceAllComplete(book: seq<NamedFrame>, frames: seq<NamedFrame>, accepts: Acceptance)
    ensures var p := PlaceAll(book, frames, accepts);
            && |book| <= |p.book| <= |book| + |frames|
            && p.book[..|book|] == book
            && (p.complete <==> |p.book| == |book| + |frames|)
    decreases |frames|
  {
    if frames != [] {
      var name := UniqueName(CleanSheetName(frames[0].name), SheetNames(book));
      if accepts(name, SheetNames(book), frames[0].frame) {
        var next := book + [NamedFrame(name, frames[0].frame)];
        PlaceAllComplete(next, frames[1..], accepts);
        var p := PlaceAll(next, frames[1..], accepts);
        assert p.book[..|book|] == p.book[..|next|][..|book|];
      }
    }
  }

  /**
   * Sheet `i` of `out` is table `t` under the free form of its cleaned name,
   * chosen against the sheets before it, and the writer accepted it there.
   */
  predicate WrittenAs(out: seq<NamedFrame>, i: nat, t: NamedFrame, accepts: Acceptance)
    requires i < |out|
  {
    && out[i] == NamedFrame(UniqueName(CleanSheetName(t.name), SheetNames(out[..i])), t.frame)
    && accepts(out[i].name, SheetNames(out[..i]), t.frame)
  }

  /**
   * The sheets of `out` from position `at` on are the first tables of
   * `frames`, in order, each written as `WrittenAs` says: sheet `at` holds
   * `frames[0]`, sheet `at + 1` holds `frames[1]`, and so on to the end of `out`.
   */
  predicate HoldsTables(out: seq<NamedFrame>, at: nat, frames: seq<NamedFrame>, accepts: Acceptance)
    decreases |frames|
  {
    && at <= |out| <= at + |frames|
    && (at < |out| ==> WrittenAs(out, at, frames[0], accepts) && HoldsTables(out, at + 1, frames[1..], accepts))
  }

  /**
   * Which table each new sheet holds: the sheets added after `book` are the
   * file's tables in order, each under the free form of its cleaned name,
   * chosen against the sheets before it, and each accepted there.
   */
  lemma {:induction false} PlaceAllContents(book: seq<NamedFrame>, frames: seq<NamedFrame>, accepts: Acceptance)
    ensures HoldsTables(PlaceAll(book, frames, accepts).book, |book|, frames, accepts)
    decreases |frames|
  {
    if frames != [] {
      var name := UniqueName(CleanSheetName(frames[0].name), SheetNames(book));
      PlaceAllStep(book, frames, accepts, name);
      if accepts(name, SheetNames(book), frames[0].frame) {
        var next := book + [NamedFrame(name, frames[0].frame)];
        var out := PlaceAll(next, frames[1..], accepts).book;
        PlaceAllContents(next, frames[1..], accepts);
        assert HoldsTables(out, |book| + 1, frames[1..], accepts);
        PlaceAllFirst(book, frames, accepts, name);
      }
    }
  }

  /**
   * `out` ends where the writer refused the next of `frames`, counted from
   * position `at`, under that table's free cleaned name.
   */
  predicate StopsAt(out: seq<NamedFrame>, at: nat, frames: seq<NamedFrame>, accepts: Acceptance) {
    && at <= |out| < at + |frames|
    && var t := frames[|out| - at];
       !accepts(UniqueName(CleanSheetName(t.name), SheetNames(out)), SheetNames(out), t.frame)
  }

  /** When a file stops short, the writer refused its next table under that table's free cleaned name. */
  lemma {:induction false} PlaceAllStops(book: seq<NamedFrame>, frames: seq<NamedFrame>, accepts: Acceptance)
    ensures var p := PlaceAll(book, frames, accepts);
            !p.complete ==> StopsAt(p.book, |book|, frames, accepts)
    decreases |frames|
  {
    if frames != [] {
      var name := UniqueName(CleanSheetName(frames[0].name), SheetNames(book));
      var whole := PlaceAll(book, frames, accepts);
      if accepts(name, SheetNames(book), frames[0].frame) {
        var next := book + [NamedFrame(name, frames[0].frame)];
        var p := PlaceAll(next, frames[1..], accepts);
        assert whole == p;
        PlaceAllStops(next, frames[1..], accepts);
        if !p.complete {
          assert StopsAt(p.book, |book| + 1, frames[1..], accepts);
          StopsShift(p.book, |book|, frames, accepts);
        }
      } else {
        assert whole == Placed(book, false);
      }
    }
  }

  /** A stop counted from one position later is the same stop counted from `at`. */
  lemma StopsShift(out: seq<NamedFrame>, at: nat, frames: seq<NamedFrame>, accepts: Acceptance)
    requires frames != [] && StopsAt(out, at + 1, frames[1..], accepts)
    ensures StopsAt(out, at, frames, accepts)
  {
    assert frames[1..][|out| - (at + 1)] == frames[|out| - at];
  }

  /** The first table of an accepted step is the first new sheet. */
  lemma PlaceAllFirst(book: seq<NamedFrame>, frames: seq<NamedFrame>, accepts: Acceptance, name: string)
    requires frames != [] && name == UniqueName(CleanSheetName(frames[0].name), SheetNames(book))
    requires accepts(name, SheetNames(book), frames[0].frame)
    ensures var p := PlaceAll(book + [NamedFrame(name, frames[0].frame)], frames[1..], accepts);
            |book| < |p.book| && WrittenAs(p.book, |book|, frames[0], accepts)
  {
    var next := book + [NamedFrame(name, frames[0].frame)];
    var p := PlaceAll(next, frames[1..], accepts);
    PlaceAllComplete(next, frames[1..], accepts);
    assert p.book[|book|] == p.book[..|next|][|book|] == next[|book|];
    assert p.book[..|book|] == p.book[..|next|][..|book|] == book;
  }

  /** The file was read and every one of its tables became a sheet of the book. */
  predicate WroteAll(book: seq<NamedFrame>, f: SourceFile, accepts: Acceptance) {
    FramesFor(f).Some?
    && |PlaceAll(book, FramesFor(f).value, accepts).book| == |book| + |FramesFor(f).value|
  }

  /** One file adds its own name to `files_to_delete` only when all its tables were written. */
  lemma AddFileDeletes(st: CombineState, f: SourceFile, accepts: Acceptance)
    ensures forall x :: x in AddFile(st, f, accepts).toDelete ==>
              x in st.toDelete || (x == f.name && WroteAll(st.book, f, accepts))
  {
    if FramesFor(f).Some? {
      PlaceAllComplete(st.book, FramesFor(f).value, accepts);
    }
  }

  lemma CombinePrefix(st: CombineState, files: seq<SourceFile>, accepts: Acceptance, i: nat)
    requires i < |files|
    ensures CombineFrom(st, files[..i + 1], accepts) == CombineFrom(AddFile(st, files[0], accepts), files[1..][..i], accepts)
  {
    assert files[..i + 1][0] == files[0];
    assert files[..i + 1][1..] == files[1..][..i];
  }

  /** File `i` of the listing has name `x` and had all its tables written, against the book the files before it left. */
  predicate WrittenAt(st: CombineState, files: seq<SourceFile>, accepts: Acceptance, x: string, i: nat) {
    i < |files| && files[i].name == x && WroteAll(CombineFrom(st, files[..i], accepts).book, files[i], accepts)
  }

  /** Every name the loop adds to `files_to_delete` is that of a listed file whose tables were all written. */
  lemma {:induction false} DeletedOnlyComplete(st: CombineState, files: seq<SourceFile>, accepts: Acceptance)
    ensures forall x :: x in CombineFrom(st, files, accepts).toDelete ==>
              x in st.toDelete || exists i :: WrittenAt(st, files, accepts, x, i)
    decreases |files|
  {
    if files != [] {
      var next := AddFile(st, files[0], accepts);
      var rest := files[1..];
      DeletedOnlyComplete(next, rest, accepts);
      AddFileDeletes(st, files[0], accepts);
      var done := CombineFrom(next, rest, accepts);
      assert CombineFrom(st, files, accepts) == done;
      forall x | x in done.toDelete && x !in st.toDelete
        ensures exists i :: WrittenAt(st, files, accepts, x, i)
      {
        if x in next.toDelete {
          assert files[..0] == [];
          assert WrittenAt(st, files, accepts, x, 0);
        } else {
          var i: nat :| WrittenAt(next, rest, accepts, x, i);
          CombinePrefix(st, files, accepts, i);
          assert WrittenAt(st, files, accepts, x, i + 1);
        }
      }
    }
  }

  /**
   * With distinct listing names, a file that was not read, or one of whose
   * tables the writer refused, stays in the folder.
   */
  lemma RefusedNotDeleted(files: seq<SourceFile>, accepts: Acceptance, k: nat)
    requires k < |files| && !WroteAll(CombineFrom(Start, files[..k], accepts).book, files[k], accepts)
    requires forall i, j :: 0 <= i < j < |files| ==> files[i].name != files[j].name
    ensures files[k].name !in CombineFrom(Start, files, accepts).toDelete
  {
    DeletedOnlyComplete(Start, files, accepts);
  }

  /** An input whose reader raised stays in the folder (listing entries have distinct names). */
  lemma UnreadableNotDeleted(files: seq<SourceFile>, accepts: Acceptance, k: nat)
    requires k < |files| && FramesFor(files[k]) == None
    requires forall i, j :: 0 <= i < j < |files| ==> files[i].name != files[j].name
    ensures files[k].name !in CombineFrom(Start, files, accepts).toDelete
  {
    DeletedOnlyReadable(Start, files, accepts);
  }

  function SourceName(f: SourceFile): string { f.name }

  lemma {:induction false} PlaceAllCompletes(book: seq<NamedFrame>, frames: seq<NamedFrame>, accepts: Acceptance)
    requires forall n, ns, t :: accepts(n, ns, t)
    ensures PlaceAll(book, frames, accepts).complete
    ensures |PlaceAll(book, frames, accepts).book| == |book| + |frames|
    decreases |frames|
  {
    if frames != [] {
      var name := UniqueName(CleanSheetName(frames[0].name), SheetNames(book));
      PlaceAllCompletes(book + [NamedFrame(name, frames[0].frame)], frames[1..], accepts);
    }
  }

  lemma FileNamesCons(prefix: seq<string>, files: seq<SourceFile>)
    requires files != []
    ensures prefix + [files[0].name] + Map(files[1..], SourceName) == prefix + Map(files, SourceName)
  {
    assert Map(files, SourceName) == [SourceName(files[0])] + Map(files[1..], SourceName);
  }

  /** One file joins `files_to_delete` exactly when it was read and all its tables were written. */
  lemma AddFileCompletes(st: CombineState, f: SourceFile, accepts: Acceptance)
    ensures AddFile(st, f, accepts).toDelete == if WroteAll(st.book, f, accepts) then st.toDelete + [f.name] else st.toDelete
  {
    if FramesFor(f).Some? {
      PlaceAllComplete(st.book, FramesFor(f).value, accepts);
    }
  }

  lemma {:induction false} CombineAppend(st: CombineState, a: seq<SourceFile>, b: seq<SourceFile>, accepts: Acceptance)
    ensures CombineFrom(st, a + b, accepts) == CombineFrom(CombineFrom(st, a, accepts), b, accepts)
    decreases |a|
  {
    if a == [] {
      assert a + b == b;
    } else {
      assert (a + b)[0] == a[0];
      assert (a + b)[1..] == a[1..] + b;
      CombineAppend(AddFile(st, a[0], accepts), a[1..], b, accepts);
    }
  }

  /** The loop only adds to the book and to `files_to_delete`: what is there stays, in place. */
  lemma {:induction false} CombineGrows(st: CombineState, files: seq<SourceFile>, accepts: Acceptance)
    ensures var r := CombineFrom(st, files, accepts);
            && |st.book| <= |r.book| && r.book[..|st.book|] == st.book
            && |st.toDelete| <= |r.toDelete| && r.toDelete[..|st.toDelete|] == st.toDelete
    decreases |files|
  {
    if files != [] {
      var next := AddFile(st, files[0], accepts);
      if FramesFor(files[0]).Some? {
        PlaceAllComplete(st.book, FramesFor(files[0]).value, accepts);
      }
      assert next.toDelete[..|st.toDelete|] == st.toDelete;
      CombineGrows(next, files[1..], accepts);
      var r := CombineFrom(next, files[1..], accepts);
      assert r.book[..|st.book|] == r.book[..|next.book|][..|st.book|];
      assert r.toDelete[..|st.toDelete|] == r.toDelete[..|next.toDelete|][..|st.toDelete|];
    }
  }

  /** The run up to and including file `k` is the run before it followed by its pass, and the rest of the run resumes from there. */
  lemma CombineSplit(st: CombineState, files: seq<SourceFile>, accepts: Acceptance, k: nat)
    requires k < |files|
    ensures CombineFrom(st, files[..k + 1], accepts) == AddFile(CombineFrom(st, files[..k], accepts), files[k], accepts)
    ensures CombineFrom(st, files, accepts) == CombineFrom(CombineFrom(st, files[..k + 1], accepts), files[k + 1..], accepts)
  {
    assert files[..k + 1] == files[..k] + [files[k]];
    CombineAppend(st, files[..k], [files[k]], accepts);
    var mid := CombineFrom(st, files[..k], accepts);
    assert CombineFrom(mid, [files[k]], accepts) == CombineFrom(AddFile(mid, files[k], accepts), [], accepts);
    assert files[..k + 1] + files[k + 1..] == files;
    CombineAppend(st, files[..k + 1], files[k + 1..], accepts);
  }

  /**
   * File `k`'s sheets in the saved book: the book the earlier files left
   * stays first, then come the sheets file `k` added, holding its tables in
   * order, each under the free form of its cleaned name; the later files keep
   * all of them. An unread file adds nothing.
   */
  lemma FileSheets(st: CombineState, files: seq<SourceFile>, accepts: Acceptance, k: nat)
    requires k < |files|
    ensures var before := CombineFrom(st, files[..k], accepts).book;
            var after := CombineFrom(st, files[..k + 1], accepts).book;
            var final := CombineFrom(st, files, accepts).book;
            && |before| <= |after| <= |final|
            && after[..|before|] == before && final[..|after|] == after
            && (FramesFor(files[k]).None? ==> after == before)
            && (FramesFor(files[k]).Some? ==> HoldsTables(after, |before|, FramesFor(files[k]).value, accepts))
  {
    CombineSplit(st, files, accepts, k);
    var mid := CombineFrom(st, files[..k], accepts);
    var next := CombineFrom(st, files[..k + 1], accepts);
    CombineGrows(next, files[k + 1..], accepts);
    if FramesFor(files[k]).Some? {
      PlaceAllComplete(mid.book, FramesFor(files[k]).value, accepts);
      PlaceAllContents(mid.book, FramesFor(files[k]).value, accepts);
    }
  }

  /** A listed file read and fully written against the book the earlier files left is on `files_to_delete`. */
  lemma WrittenDeleted(st: CombineState, files: seq<SourceFile>, accepts: Acceptance, k: nat)
    requires k < |files| && WroteAll(CombineFrom(st, files[..k], accepts).book, files[k], accepts)
    ensures files[k].name in CombineFrom(st, files, accepts).toDelete
  {
    CombineSplit(st, files, accepts, k);
    var next := CombineFrom(st, files[..k + 1], accepts);
    AddFileCompletes(CombineFrom(st, files[..k], accepts), files[k], accepts);
    assert next.toDelete[|next.toDelete| - 1] == files[k].name;
    CombineGrows(next, files[k + 1..], accepts);
    var r := CombineFrom(next, files[k + 1..], accepts);
    assert r.toDelete[|next.toDelete| - 1] == files[k].name;
  }

  /**
   * With distinct listing names, a file is deleted after the save exactly
   * when it was read and all its tables were written.
   */
  lemma DeletedExactly(files: seq<SourceFile>, accepts: Acceptance, k: nat)
    requires k < |files|
    requires forall i, j :: 0 <= i < j < |files| ==> files[i].name != files[j].name
    ensures files[k].name in CombineFrom(Start, files, accepts).toDelete
            <==> WroteAll(CombineFrom(Start, files[..k], accepts).book, files[k], accepts)
  {
    if WroteAll(CombineFrom(Start, files[..k], accepts).book, files[k], accepts) {
      WrittenDeleted(Start, files, accepts, k);
    } else {
      RefusedNotDeleted(files, accepts, k);
    }
  }

  /** When every file is read and fully written, every file is deleted after the save, in listing order. */
  lemma {:induction false} AllWrittenAllDeleted(st: CombineState, files: seq<SourceFile>, accepts: Acceptance)
    requires forall i :: 0 <= i < |files| ==> WroteAll(CombineFrom(st, files[..i], accepts).book, files[i], accepts)
    ensures CombineFrom(st, files, accepts).toDelete == st.toDelete + Map(files, SourceName)
    decreases |files|
  {
    if files != [] {
      assert files[..0] == [];
      AddFileCompletes(st, files[0], accepts);
      var next := AddFile(st, files[0], accepts);
      var rest := files[1..];
      forall i | 0 <= i < |rest|
        ensures WroteAll(CombineFrom(next, rest[..i], accepts).book, rest[i], accepts)
      {
        CombinePrefix(st, files, accepts, i);
        assert rest[i] == files[i + 1];
      }
      AllWrittenAllDeleted(next, rest, accepts);
      FileNamesCons(st.toDelete, files);
    }
  }

  /** A writer that refuses nothing writes every table, so every readable file is deleted, in listing order. */
  lemma AcceptingWriterDeletesAll(files: seq<SourceFile>, accepts: Acceptance)
    requires forall n, ns, t :: accepts(n, ns, t)
    requires forall i :: 0 <= i < |files| ==> FramesFor(files[i]).Some?
    ensures CombineFrom(Start, files, accepts).toDelete == Map(files, SourceName)
  {
    forall i | 0 <= i < |files|
      ensures WroteAll(CombineFrom(Start, files[..i], accepts).book, files[i], accepts)
    {
      PlaceAllCompletes(CombineFrom(Start, files[..i], accepts).book, FramesFor(files[i]).value, accepts);
    }
    AllWrittenAllDeleted(Start, files, accepts);
    assert Start.toDelete + Map(files, SourceName) == Map(files, SourceName);
  }

  /** The frames a workbook's sheets give, when no two targets collide. */
  function Targets(base: string, sheetCount: nat, sheets: seq<NamedFrame>): (r: seq<NamedFrame>)
    ensures |r| == |sheets|
  {
    seq(|sheets|, i requires 0 <= i < |sheets| => NamedFrame(TargetName(base, sheetCount, sheets[i].name), sheets[i].frame))
  }

  lemma TargetsCons(base: string, sheetCount: nat, sheets: seq<NamedFrame>)
    requires sheets != []
    ensures Targets(base, sheetCount, sheets)
            == [NamedFrame(TargetName(base, sheetCount, sheets[0].name), sheets[0].frame)] + Targets(base, sheetCount, sheets[1..])
  {
  }

  lemma {:induction false} PutSheetsFresh(d: seq<NamedFrame>, base: string, sheetCount: nat, sheets: seq<NamedFrame>)
    requires Distinct(SheetNames(d + Targets(base, sheetCount, sheets)))
    ensures PutSheets(d, base, sheetCount, sheets) == d + Targets(base, sheetCount, sheets)
    decreases |sheets|
  {
    if sheets != [] {
      var t := Targets(base, sheetCount, sheets);
      var k := TargetName(base, sheetCount, sheets[0].name);
      var names := SheetNames(d + t);
      assert names[|d|] == k;
      assert k !in SheetNames(d) by {
        forall i | 0 <= i < |d| ensures SheetNames(d)[i] != k {
          assert SheetNames(d)[i] == names[i];
        }
      }
      var d' := d + [NamedFrame(k, sheets[0].frame)];
      PutNew(d, k, sheets[0].frame);
      TargetsCons(base, sheetCount, sheets);
      assert d' + Targets(base, sheetCount, sheets[1..]) == d + t;
      PutSheetsFresh(d', base, sheetCount, sheets[1..]);
    }
  }

  lemma TargetNameInjective(base: string, sheetCount: nat, a: string, b: string)
    requires sheetCount != 1 && TargetName(base, sheetCount, a) == TargetName(base, sheetCount, b)
    ensures a == b
  {
    assert a == TargetName(base, sheetCount, a)[|base| + 1..];
    assert b == TargetName(base, sheetCount, b)[|base| + 1..];
  }

  /**
   * What one file contributes: a CSV file one table under its base name; a
   * workbook with one sheet that sheet under the base name; a workbook with
   * several sheets each under `<base>_<sheet>`, in the workbook's order.
   */
  lemma FramesForShape(f: SourceFile)
    ensures IsCsv(f.name) && f.asCsv.Some? ==> FramesFor(f) == Some([NamedFrame(BaseName(f.name), f.asCsv.value)])
    ensures IsCsv(f.name) && f.asCsv.None? ==> FramesFor(f) == None
    ensures !IsCsv(f.name) && f.asWorkbook.None? ==> FramesFor(f) == None
    ensures !IsCsv(f.name) && f.asWorkbook.Some? && Distinct(SheetNames(f.asWorkbook.value)) ==>
              FramesFor(f) == Some(Targets(BaseName(f.name), |f.asWorkbook.value|, f.asWorkbook.value))
  {
    if !IsCsv(f.name) && f.asWorkbook.Some? && Distinct(SheetNames(f.asWorkbook.value)) {
      var sheets := f.asWorkbook.value;
      var base := BaseName(f.name);
      TargetsDistinct(base, |sheets|, sheets);
      assert [] + Targets(base, |sheets|, sheets) == Targets(base, |sheets|, sheets);
      PutSheetsFresh([], base, |sheets|, sheets);
    }
  }

  /** The `i`-th target name is built from the `i`-th sheet name. */
  lemma TargetNameAt(base: string, sheetCount: nat, sheets: seq<NamedFrame>, i: nat)
    requires i < |sheets|
    ensures SheetNames(Targets(base, sheetCount, sheets))[i] == TargetName(base, sheetCount, SheetNames(sheets)[i])
  {
    var t := Targets(base, sheetCount, sheets);
    assert SheetNames(t)[i] == t[i].name;
    assert SheetNames(sheets)[i] == sheets[i].name;
  }

  /** Distinct sheet names give distinct target names. */
  lemma TargetsDistinct(base: string, sheetCount: nat, sheets: seq<NamedFrame>)
    requires sheetCount == |sheets| && Distinct(SheetNames(sheets))
    ensures Distinct(SheetNames(Targets(base, sheetCount, sheets)))
  {
    var t := SheetNames(Targets(base, sheetCount, sheets));
    var n := SheetNames(sheets);
    if sheetCount != 1 {
      forall i, j | 0 <= i < j < |t| ensures t[i] != t[j] {
        TargetNameAt(base, sheetCount, sheets, i);
        TargetNameAt(base, sheetCount, sheets, j);
        if t[i] == t[j] {
          TargetNameInjective(base, sheetCount, n[i], n[j]);
        }
      }
    }
  }
}
