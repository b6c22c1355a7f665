/** Batch bookkeeping of `gerar_docs` (main.py:50-132): the data table, the
    per-row file name, the temporary directory the documents are saved into
    and the archive built from it. */
module Batch {
  import opened Text
  import opened Docx

  /** The spreadsheet as read by `pd.read_excel`: column names in order and
      one row of cell texts per data line. */
  datatype Table = Table(columns: seq<string>, rows: seq<seq<string>>)

  /** Every row has one value per column, and a table with data rows has at
      least one column (the header row is where the columns come from). */
  ghost predicate WellFormed(t: Table)
  {
    && (forall k :: 0 <= k < |t.rows| ==> |t.rows[k]| == |t.columns|)
    && (t.rows != [] ==> t.columns != [])
  }

  /** The archive name of a document (main.py:115): the first-column value
      with `/` replaced by `_` (`str.replace`), then `.docx`. */
  function FileName(value: string): (name: string)
    ensures |name| == |value| + 5
    ensures name[|value|..] == ".docx"
    ensures forall i :: 0 <= i < |value| ==> name[i] == if value[i] == '/' then '_' else value[i]
    ensures forall i :: 0 <= i < |name| ==> name[i] != '/'
  {
    ReplaceChar(value, '/', '_');
    Replace(value, "/", "_") + ".docx"
  }

  /** The name under which row `k` is saved. */
  function RowFileName(t: Table, k: int): string
    requires WellFormed(t) && 0 <= k < |t.rows|
  {
    FileName(t.rows[k][0])
  }

  /** Two different first-column values can be saved under one name:
      `A/B` and `A_B` are both saved as `A_B.docx`. */
  lemma FileNamesCollide()
    ensures "A/B" != "A_B" && FileName("A/B") == FileName("A_B") == "A_B.docx"
  {
    var a, b := FileName("A/B"), FileName("A_B");
    assert |a| == |b|;
    forall i | 0 <= i < |a|
      ensures a[i] == b[i]
    {
      if i >= 3 {
        assert a[i] == a[3..][i - 3] && b[i] == b[3..][i - 3];
      }
    }
  }

  /** The temporary directory after the first `n` rows were saved
      (main.py:115-116): `document.save` on an existing name overwrites it. */
  function Directory(t: Table, template: Document, n: nat): map<string, Document>
    requires WellFormed(t) && n <= |t.rows|
  {
    if n == 0 then map[]
    else Directory(t, template, n - 1)[RowFileName(t, n - 1) := Render(template, t.columns, t.rows[n - 1])]
  }

  /** The rows among the first `n` that have different file names. */
  ghost predicate DistinctNames(t: Table, n: nat)
    requires WellFormed(t) && n <= |t.rows|
  {
    forall a, b :: 0 <= a < b < n ==> RowFileName(t, a) != RowFileName(t, b)
  }

  /** The directory holds exactly the names of the rows saved so far. */
  lemma {:induction false} DirectoryNames(t: Table, template: Document, n: nat)
    requires WellFormed(t) && n <= |t.rows|
    ensures Directory(t, template, n).Keys == set k | 0 <= k < n :: RowFileName(t, k)
  {
    if n > 0 {
      DirectoryNames(t, template, n - 1);
      assert (set k | 0 <= k < n :: RowFileName(t, k))
          == (set k | 0 <= k < n - 1 :: RowFileName(t, k)) + {RowFileName(t, n - 1)};
    }
  }

  /** A name holds the document of the last row saved under it. */
  lemma {:induction false} DirectoryLastRowWins(t: Table, template: Document, n: nat, k: nat)
    requires WellFormed(t) && n <= |t.rows| && k < n
    requires forall m :: k < m < n ==> RowFileName(t, m) != RowFileName(t, k)
    ensures RowFileName(t, k) in Directory(t, template, n)
    ensures Directory(t, template, n)[RowFileName(t, k)] == Render(template, t.columns, t.rows[k])
  {
    var before := Directory(t, template, n - 1);
    var last := RowFileName(t, n - 1);
    var doc := Render(template, t.columns, t.rows[n - 1]);
    assert Directory(t, template, n) == before[last := doc];
    if k < n - 1 {
      DirectoryLastRowWins(t, template, n - 1, k);
      assert RowFileName(t, k) != last;
    }
  }

  /** The name of the `n`-th row is already in the directory of the rows
      before it exactly when an earlier row has the same name. */
  lemma NameSeenBefore(t: Table, template: Document, n: nat)
    requires WellFormed(t) && 0 < n <= |t.rows|
    ensures RowFileName(t, n - 1) in Directory(t, template, n - 1)
            <==> exists k :: 0 <= k < n - 1 && RowFileName(t, k) == RowFileName(t, n - 1)
  {
    DirectoryNames(t, template, n - 1);
  }

  /** Adding a row whose name no earlier row has keeps the names distinct
      exactly when they were distinct before. */
  lemma DistinctNamesExtend(t: Table, n: nat)
    requires WellFormed(t) && 0 < n <= |t.rows|
    requires forall k :: 0 <= k < n - 1 ==> RowFileName(t, k) != RowFileName(t, n - 1)
    ensures DistinctNames(t, n) <==> DistinctNames(t, n - 1)
  {
  }

  /** Saving under a new name adds one entry; under a known name, none. */
  lemma SaveSize(files: map<string, Document>, name: string, doc: Document)
    ensures |files[name := doc]| == if name in files then |files| else |files| + 1
  {
    if name in files {
      assert files[name := doc].Keys == files.Keys;
    } else {
      assert files[name := doc].Keys == files.Keys + {name};
    }
  }

  /** At most one entry per row, and one per row exactly when the rows'
      file names are pairwise different. */
  lemma {:induction false} DirectorySize(t: Table, template: Document, n: nat)
    requires WellFormed(t) && n <= |t.rows|
    ensures |Directory(t, template, n)| <= n
    ensures |Directory(t, template, n)| == n <==> DistinctNames(t, n)
  {
    if n > 0 {
      DirectorySize(t, template, n - 1);
      NameSeenBefore(t, template, n);
      var before := Directory(t, template, n - 1);
      var name := RowFileName(t, n - 1);
      SaveSize(before, name, Render(template, t.columns, t.rows[n - 1]));
      if name in before {
        var k :| 0 <= k < n - 1 && RowFileName(t, k) == name;
        assert !DistinctNames(t, n);
      } else {
        DistinctNamesExtend(t, n);
      }
    }
  }

  /** One zip entry: its name and the saved document. */
  datatype Entry = Entry(name: string, content: Document)

  /** `entries` are the zip entries written for the directory `files`
      (main.py:120-123): one per file, under its own name, with its
      content, in whatever order the directory was listed. */
  ghost predicate IsArchiveOf(entries: seq<Entry>, files: map<string, Document>)
  {
    && |entries| == |files|
    && (forall a, b :: 0 <= a < b < |entries| ==> entries[a].name != entries[b].name)
    && (forall i :: 0 <= i < |entries| ==>
          entries[i].name in files && entries[i].content == files[entries[i].name])
    && (forall name :: name in files ==> exists i :: 0 <= i < |entries| && entries[i].name == name)
  }

  /** The temporary directory of `tempfile.mkdtemp()` (main.py:52), as a map
      from file name to the document saved under it. */
  class TempDir {
    var files: map<string, Document>

    constructor ()
      ensures files == map[]
    {
      files := map[];
    }

    /** `document.save(os.path.join(temp_dir, name))` (main.py:116). The
        name holds no `/`, so on a POSIX file system the file lands directly
        in the directory. Names are compared as strings, as on a
        case-sensitive file system, and the save always succeeds. */
    method Save(name: string, doc: Document)
      modifies this
      ensures files == old(files)[name := doc]
    {
      files := files[name := doc];
    }
  }

  /** The zip loop of main.py:120-123: every file listed in the directory is
      written as an entry named by its base name. The listing order is
      unspecified, so each step picks any file not yet written. */
  method BuildArchive(dir: TempDir) returns (entries: seq<Entry>)
    ensures IsArchiveOf(entries, dir.files)
  {
    entries := [];
    var pending := dir.files.Keys;
    while pending != {}
      invariant pending <= dir.files.Keys
      invariant |entries| + |pending| == |dir.files|
      invariant forall i :: 0 <= i < |entries| ==>
                  && entries[i].name in dir.files
                  && entries[i].name !in pending
                  && entries[i].content == dir.files[entries[i].name]
      invariant forall a, b :: 0 <= a < b < |entries| ==> entries[a].name != entries[b].name
      invariant forall name :: name in dir.files && name !in pending ==>
                  exists i :: 0 <= i < |entries| && entries[i].name == name
      decreases |pending|
    {
      var filename :| filename in pending;
      ghost var written := entries;
      entries := entries + [Entry(filename, dir.files[filename])];
      pending := pending - {filename};
      forall name | name in dir.files && name !in pending
        ensures exists i :: 0 <= i < |entries| && entries[i].name == name
      {
        if name == filename {
          assert entries[|entries| - 1].name == name;
        } else {
          var i :| 0 <= i < |written| && written[i].name == name;
          assert entries[i] == written[i];
        }
      }
    }
  }

  /** The archive of a batch has one entry per distinct file name: never more
      than the rows, and as many as the rows exactly when no two rows share a
      file name. */
  lemma ArchiveSize(entries: seq<Entry>, t: Table, template: Document)
    requires WellFormed(t)
    requires IsArchiveOf(entries, Directory(t, template, |t.rows|))
    ensures |entries| == |set k | 0 <= k < |t.rows| :: RowFileName(t, k)|
    ensures |entries| <= |t.rows|
    ensures |entries| == |t.rows| <==> DistinctNames(t, |t.rows|)
  {
    DirectoryNames(t, template, |t.rows|);
    DirectorySize(t, template, |t.rows|);
  }
}
