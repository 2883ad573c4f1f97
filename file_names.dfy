/**
 * The naming convention that links the saved pages to categories: the file a
 * category page is saved under, the homepage snapshot's name, the filter that
 * picks the files to extract news from, and the category name read back from a
 * file name with `os.path.splitext`.
 */
module FileNames {
  import opened Text

  const SnapshotPrefix: string := "Index_"
  const PageExtension: string := ".txt"

  /** `category.replace(" ", "_").replace("/", "_")`: every space and every
      slash becomes an underscore and every other character stays where it was. */
  function SafeCategoryName(category: string): (safe: string)
    ensures |safe| == |category|
    ensures forall i :: 0 <= i < |safe| ==> safe[i] != ' ' && safe[i] != '/'
    ensures forall i :: 0 <= i < |safe| && category[i] != ' ' && category[i] != '/' ==> safe[i] == category[i]
    ensures forall i :: 0 <= i < |safe| && (category[i] == ' ' || category[i] == '/') ==> safe[i] == '_'
  {
    ReplaceChar(ReplaceChar(category, ' ', '_'), '/', '_')
  }

  /** Sanitising a sanitised name changes nothing. */
  lemma SafeCategoryNameIdempotent(category: string)
    ensures SafeCategoryName(SafeCategoryName(category)) == SafeCategoryName(category)
  {
  }

  /** The file a category's page is saved to: `f"{safe_category_name}.txt"`. */
  function CategoryFileName(category: string): string {
    SafeCategoryName(category) + PageExtension
  }

  /** The file the homepage is saved to: `f"Index_{timestamp}.txt"`. */
  function SnapshotFileName(timestamp: string): string {
    SnapshotPrefix + timestamp + PageExtension
  }

  /** The filter of `process_all_files`: a ".txt" file that is not a homepage snapshot. */
  predicate IsCategoryFile(fileName: string) {
    EndsWith(fileName, PageExtension) && !StartsWith(fileName, SnapshotPrefix)
  }

  /** The homepage snapshot is never taken for a category page. */
  lemma SnapshotNeverProcessed(timestamp: string)
    ensures !IsCategoryFile(SnapshotFileName(timestamp))
  {
    var f := SnapshotFileName(timestamp);
    assert f[..|SnapshotPrefix|] == SnapshotPrefix;
  }

  /** A saved category page is extracted exactly when its sanitised name does
      not itself start with "Index_" (as "Index sport" would after sanitising). */
  lemma CategoryFileProcessedUnlessSnapshotLike(category: string)
    ensures IsCategoryFile(CategoryFileName(category)) <==> !StartsWith(SafeCategoryName(category), SnapshotPrefix)
  {
    var safe := SafeCategoryName(category);
    var f := CategoryFileName(category);
    assert f[|f| - |PageExtension|..] == PageExtension;
    if |safe| >= |SnapshotPrefix| {
      assert f[..|SnapshotPrefix|] == safe[..|SnapshotPrefix|];
    } else {
      // the '.' of ".txt" falls inside the first six characters, and "Index_" has no '.'
      assert f[|safe|] == '.' && SnapshotPrefix[|safe|] != '.';
    }
  }

  /** `os.path.splitext(path)` on POSIX: the extension runs from the last '.'
      that comes after the last '/', provided some character between that '/'
      and that '.' is not a '.' (so ".txt" and "..txt" have no extension). */
  function SplitExt(path: string): (parts: (string, string))
    ensures parts.0 + parts.1 == path
    ensures parts.1 == [] || parts.1[0] == '.'
    ensures forall i :: 1 <= i < |parts.1| ==> parts.1[i] != '.' && parts.1[i] != '/'
  {
    var sepIndex := RFind(path, '/');
    var dotIndex := RFind(path, '.');
    if sepIndex < dotIndex && exists j :: sepIndex < j < dotIndex && path[j] != '.' then
      (path[..dotIndex], path[dotIndex..])
    else
      (path, [])
  }

  /** When an extension is split off: exactly when some character after the
      last '/' is not a '.' and is followed, later on, by a '.'. */
  lemma SplitExtFindsExtension(path: string)
    ensures SplitExt(path).1 != [] <==>
      exists i, j :: 0 <= i < j < |path| && path[i] != '.' && path[j] == '.'
                     && forall k :: i <= k < |path| ==> path[k] != '/'
  {
    var sepIndex := RFind(path, '/');
    var dotIndex := RFind(path, '.');
    if SplitExt(path).1 != [] {
      var i :| sepIndex < i < dotIndex && path[i] != '.';
      assert forall k :: i <= k < |path| ==> path[k] != '/';
    }
    if exists i, j :: 0 <= i < j < |path| && path[i] != '.' && path[j] == '.'
                      && forall k :: i <= k < |path| ==> path[k] != '/' {
      var i, j :| 0 <= i < j < |path| && path[i] != '.' && path[j] == '.'
                  && forall k :: i <= k < |path| ==> path[k] != '/';
      assert sepIndex < i && j <= dotIndex;
    }
  }

  /** `os.path.splitext(file_name)[0]`: the category name of an output workbook. */
  function CategoryName(fileName: string): string {
    SplitExt(fileName).0
  }

  /** For a ".txt" directory entry, the recovered name is the file name without
      ".txt" exactly when something other than dots precedes the extension. */
  lemma CategoryNameOfPageFile(fileName: string)
    requires EndsWith(fileName, PageExtension)
    requires forall i :: 0 <= i < |fileName| ==> fileName[i] != '/'
    ensures CategoryName(fileName) == fileName[..|fileName| - 4]
        <==> exists i :: 0 <= i < |fileName| - 4 && fileName[i] != '.'
    ensures (forall i :: 0 <= i < |fileName| - 4 ==> fileName[i] == '.') ==> CategoryName(fileName) == fileName
  {
    var n := |fileName|;
    assert fileName[n - 4..] == ".txt";
    assert fileName[n - 4] == '.' && fileName[n - 3] == 't' && fileName[n - 2] == 'x' && fileName[n - 1] == 't';
    var sepIndex := RFind(fileName, '/');
    var dotIndex := RFind(fileName, '.');
    assert sepIndex == -1;
    assert dotIndex == n - 4;
    if !exists i :: 0 <= i < n - 4 && fileName[i] != '.' {
      assert CategoryName(fileName) == fileName;
      assert |fileName| != |fileName[..n - 4]|;
    }
  }

  /** Saving a category page and reading its name back gives the sanitised
      category name, except for a category whose name is empty or all dots. */
  lemma RecoverCategoryName(category: string)
    ensures CategoryName(CategoryFileName(category)) == SafeCategoryName(category)
        <==> exists i :: 0 <= i < |category| && category[i] != '.'
  {
    var safe := SafeCategoryName(category);
    var f := CategoryFileName(category);
    assert f[|f| - 4..] == PageExtension;
    assert f[..|f| - 4] == safe;
    forall i | 0 <= i < |f| ensures f[i] != '/' {
      if i < |safe| { assert f[i] == safe[i]; }
    }
    CategoryNameOfPageFile(f);
    assert forall i :: 0 <= i < |safe| ==> (safe[i] != '.' <==> category[i] != '.');
    assert forall i :: 0 <= i < |safe| ==> f[i] == safe[i];
  }
}
