/**
 * `process_all_files`: every saved category page in the data directory is
 * turned into a workbook of news records.  The directory listing is given as
 * a sequence of file names (in whatever order `os.listdir` returns them), and
 * what reading each saved file gives as a map from file name to outcome; a
 * name absent from the map is a file that does not exist.
 */
module Processing {
  import opened Wrappers
  import opened FileNames
  import opened News
  import opened SavedFiles

  const WorkbookExtension: string := ".xlsx"
  const SheetName: string := "News"

  /** One spreadsheet written by `to_excel`: file name, sheet name and rows. */
  datatype Workbook = Workbook(fileName: string, sheetName: string, rows: seq<NewsRecord>)

  /** What a run leaves behind: the workbooks written so far, and the error
      that ended it early, if one escaped from the news extraction. */
  datatype Run = Run(written: seq<Workbook>, aborted: Option<ScrapeError>)

  /** Opening and reading a listed file. */
  function ReadPage(saved: map<string, SavedFile<CategoryPage>>, fileName: string): SavedFile<CategoryPage> {
    if fileName in saved then saved[fileName] else NotFound
  }

  /** The workbook for a category file: `f"{category_name}.xlsx"`, sheet "News". */
  function WorkbookFor(fileName: string, rows: seq<NewsRecord>): Workbook {
    Workbook(CategoryName(fileName) + WorkbookExtension, SheetName, rows)
  }

  /** One iteration over a directory entry. */
  function Visit(run: Run, fileName: string, saved: map<string, SavedFile<CategoryPage>>): Run {
    if run.aborted.Some? || !IsCategoryFile(fileName) then run
    else
      match NewsFromPage(ReadPage(saved, fileName))
      case Failure(e) => Run(run.written, Some(e))
      case Success(news) =>
        if news == [] then run else Run(run.written + [WorkbookFor(fileName, news)], None)
  }

  /** The run after visiting the listed entries in order. */
  function ProcessedRun(fileNames: seq<string>, saved: map<string, SavedFile<CategoryPage>>): Run {
    if fileNames == [] then Run([], None)
    else Visit(ProcessedRun(fileNames[..|fileNames| - 1], saved), fileNames[|fileNames| - 1], saved)
  }

  method ProcessAllFiles(fileNames: seq<string>, saved: map<string, SavedFile<CategoryPage>>)
    returns (written: seq<Workbook>, aborted: Option<ScrapeError>)
    ensures Run(written, aborted) == ProcessedRun(fileNames, saved)
  {
    written, aborted := [], None;
    for i := 0 to |fileNames|
      invariant Run(written, None) == ProcessedRun(fileNames[..i], saved)
    {
      assert fileNames[..i + 1][..i] == fileNames[..i];
      var fileName := fileNames[i];
      if IsCategoryFile(fileName) {
        var news := ExtractNewsFromFile(ReadPage(saved, fileName));
        if news.Failure? {
          aborted := Some(news.error);
          AbortIsFinal(fileNames, i + 1, saved);
          return;
        }
        if news.value != [] {
          written := written + [WorkbookFor(fileName, news.value)];
        }
      }
    }
    assert fileNames[..|fileNames|] == fileNames;
  }

  /** Once an error has escaped, later entries are not looked at. */
  lemma {:induction false} AbortIsFinal(fileNames: seq<string>, i: nat, saved: map<string, SavedFile<CategoryPage>>)
    requires i <= |fileNames|
    requires ProcessedRun(fileNames[..i], saved).aborted.Some?
    ensures ProcessedRun(fileNames, saved) == ProcessedRun(fileNames[..i], saved)
  {
    if i < |fileNames| {
      var n := |fileNames|;
      var earlier := fileNames[..n - 1];
      assert earlier[..i] == fileNames[..i];
      AbortIsFinal(earlier, i, saved);
    } else {
      assert fileNames[..i] == fileNames;
    }
  }

  /** The workbook is what a listed category file (never a homepage snapshot)
      gives: its extraction produced exactly these non-empty rows. */
  ghost predicate WrittenFor(w: Workbook, fileName: string, saved: map<string, SavedFile<CategoryPage>>) {
    && IsCategoryFile(fileName)
    && w.rows != []
    && NewsFromPage(ReadPage(saved, fileName)) == Success(w.rows)
    && w == WorkbookFor(fileName, w.rows)
  }

  /** Every workbook written comes from one of the listed category files. */
  lemma {:induction false} WrittenFromCategoryFiles(fileNames: seq<string>, saved: map<string, SavedFile<CategoryPage>>, k: nat)
    requires k < |ProcessedRun(fileNames, saved).written|
    ensures exists i :: 0 <= i < |fileNames| && WrittenFor(ProcessedRun(fileNames, saved).written[k], fileNames[i], saved)
  {
    var n := |fileNames|;
    var earlier := fileNames[..n - 1];
    var before := ProcessedRun(earlier, saved);
    if k < |before.written| {
      WrittenFromCategoryFiles(earlier, saved, k);
      var i :| 0 <= i < |earlier| && WrittenFor(before.written[k], earlier[i], saved);
      assert fileNames[i] == earlier[i];
    } else {
      assert WrittenFor(ProcessedRun(fileNames, saved).written[k], fileNames[n - 1], saved);
    }
  }

  /** A run ends early exactly when the extraction of some listed category
      file fails: it cannot be read, or an anchor it visits has no `href`. */
  lemma {:induction false} AbortedIffExtractionFails(fileNames: seq<string>, saved: map<string, SavedFile<CategoryPage>>)
    ensures ProcessedRun(fileNames, saved).aborted.Some? <==>
      exists i :: 0 <= i < |fileNames| && IsCategoryFile(fileNames[i])
                  && NewsFromPage(ReadPage(saved, fileNames[i])).Failure?
  {
    if fileNames != [] {
      var n := |fileNames|;
      var earlier := fileNames[..n - 1];
      AbortedIffExtractionFails(earlier, saved);
      assert forall i :: 0 <= i < n - 1 ==> fileNames[i] == earlier[i];
    }
  }

  /** Workbooks are only ever added: what the run had written after the
      first `i` entries is still there, in the same order, at the end, in
      particular when an error ends the run early. */
  lemma {:induction false} WrittenStaysWritten(fileNames: seq<string>, i: nat, saved: map<string, SavedFile<CategoryPage>>)
    requires i <= |fileNames|
    ensures ProcessedRun(fileNames[..i], saved).written <= ProcessedRun(fileNames, saved).written
  {
    if i < |fileNames| {
      var n := |fileNames|;
      var earlier := fileNames[..n - 1];
      assert earlier[..i] == fileNames[..i];
      WrittenStaysWritten(earlier, i, saved);
    } else {
      assert fileNames[..i] == fileNames;
    }
  }

  /** A run that is not cut short writes a workbook for every listed category
      file with at least one news record. */
  lemma {:induction false} CompletedRunWritesAll(fileNames: seq<string>, saved: map<string, SavedFile<CategoryPage>>, i: nat)
    requires ProcessedRun(fileNames, saved).aborted.None?
    requires i < |fileNames| && IsCategoryFile(fileNames[i])
    requires NewsFromPage(ReadPage(saved, fileNames[i])).Success?
    requires NewsFromPage(ReadPage(saved, fileNames[i])).value != []
    ensures WorkbookFor(fileNames[i], NewsFromPage(ReadPage(saved, fileNames[i])).value)
            in ProcessedRun(fileNames, saved).written
  {
    var n := |fileNames|;
    var earlier := fileNames[..n - 1];
    var before := ProcessedRun(earlier, saved);
    assert before.aborted.None?;
    if i < n - 1 {
      assert earlier[i] == fileNames[i];
      CompletedRunWritesAll(earlier, saved, i);
    }
  }
}
