/**
 Test discovery: `main`'s directory loop.

 The directory is given as the sequence of entries `readdir` returns, each
 with the contents of the file or a marker that `parse_file` could not open
 it or seek in it (it then reports the error and contributes nothing). Every
 selected entry's cases are appended to one case list, file by file, each
 file's cases in source order.
 */
module Discovery {
  import opened FileFilter
  import opened Extractor
  import CaseList

  /** What `parse_file` gets from the file system for one entry. */
  datatype Contents = Opened(text: string) | Unreadable

  /** A directory entry. */
  datatype Entry = Entry(name: string, contents: Contents)

  /** The cases one entry contributes. */
  function EntryCases(e: Entry): (r: seq<Case>)
    ensures !Selected(e.name) || e.contents.Unreadable? ==> r == []
    ensures forall c | c in r :: c.fileName == e.name
  {
    if Selected(e.name) && e.contents.Opened? then
      ParseFileCasesAreSourceText(e.name, e.contents.text);
      ParseFile(e.name, e.contents.text)
    else []
  }

  /** The cases `f` yields for each entry, concatenated in entry order. */
  function FlatMap(f: Entry -> seq<Case>, entries: seq<Entry>): seq<Case>
  {
    if entries == [] then [] else FlatMap(f, entries[..|entries| - 1]) + f(entries[|entries| - 1])
  }

  /** Concatenating over a split sequence is concatenating over its parts, in order. */
  lemma {:induction false} FlatMapSplits(f: Entry -> seq<Case>, a: seq<Entry>, b: seq<Entry>)
    ensures FlatMap(f, a + b) == FlatMap(f, a) + FlatMap(f, b)
    decreases |b|
  {
    if b == [] {
      assert a + b == a;
    } else {
      var b' := b[..|b| - 1];
      assert (a + b)[..|a + b| - 1] == a + b';
      assert (a + b)[|a + b| - 1] == b[|b| - 1];
      FlatMapSplits(f, a, b');
    }
  }

  /** The cases of the whole directory, entry by entry. */
  function Discovered(entries: seq<Entry>): seq<Case>
  {
    FlatMap(EntryCases, entries)
  }

  /** Discovery of a split directory is the discovery of its parts, in order. */
  lemma DiscoveredSplits(a: seq<Entry>, b: seq<Entry>)
    ensures Discovered(a + b) == Discovered(a) + Discovered(b)
  {
    FlatMapSplits(EntryCases, a, b);
  }

  /** Every discovered case comes from a selected, readable entry with that name, and its text is in that file. */
  lemma {:induction false} DiscoveredFromSelected(entries: seq<Entry>)
    ensures forall c | c in Discovered(entries) :: exists k | 0 <= k < |entries| ::
      && Selected(entries[k].name) && entries[k].contents.Opened?
      && c in ParseFile(entries[k].name, entries[k].contents.text)
      && c.fileName == entries[k].name
  {
    if entries != [] {
      var init := entries[..|entries| - 1];
      DiscoveredFromSelected(init);
      var last := |entries| - 1;
      forall c | c in Discovered(entries)
        ensures exists k | 0 <= k < |entries| ::
          && Selected(entries[k].name) && entries[k].contents.Opened?
          && c in ParseFile(entries[k].name, entries[k].contents.text)
          && c.fileName == entries[k].name
      {
        if c in Discovered(init) {
          var k :| 0 <= k < |init| && Selected(init[k].name) && init[k].contents.Opened?
            && c in ParseFile(init[k].name, init[k].contents.text) && c.fileName == init[k].name;
          assert entries[k] == init[k];
        } else {
          assert c in EntryCases(entries[last]);
          assert entries[last].contents.Opened?;
        }
      }
    }
  }

  /** An entry the filter rejects contributes nothing, wherever it stands. */
  lemma IgnoredEntry(a: seq<Entry>, e: Entry, b: seq<Entry>)
    requires !Selected(e.name)
    ensures Discovered(a + [e] + b) == Discovered(a + b)
  {
    DiscoveredSplits(a + [e], b);
    DiscoveredSplits(a, [e]);
    DiscoveredSplits(a, b);
    assert Discovered([e]) == FlatMap(EntryCases, []) + EntryCases(e);
  }

  /**
   The directory loop as written: each selected entry is parsed and its
   cases appended with `append_case` as written. The list holds the
   discovered cases in order, and stays inside its storage exactly when
   there are at most 513 of them.
   */
  method ScanDirectoryAsWritten(entries: seq<Entry>) returns (cases: CaseList.CaseStore)
    ensures CaseList.Items(cases) == Discovered(entries)
    ensures CaseList.SlotsFit(cases) <==> |Discovered(entries)| <= CaseList.DefaultCasesCap / 2 + 1
  {
    cases := CaseList.Unallocated;
    var i := 0;
    while i < |entries|
      invariant i <= |entries|
      invariant cases == CaseList.AppendAllAsWritten(CaseList.Unallocated, Discovered(entries[..i]))
    {
      var e := entries[i];
      assert entries[..i + 1] == entries[..i] + [e];
      DiscoveredSplits(entries[..i], [e]);
      assert Discovered([e]) == FlatMap(EntryCases, []) + EntryCases(e);
      var before := Discovered(entries[..i]);
      assert Discovered(entries[..i + 1]) == before + EntryCases(e);
      if e.name == "." || e.name == ".." {
        assert !Selected(e.name);
        assert before + EntryCases(e) == before;
      } else if IsTestFile(e.name) {
        if e.contents.Opened? {
          CaseList.AppendAllAsWrittenSplits(CaseList.Unallocated, before, EntryCases(e));
          cases := CaseList.AppendAllAsWritten(cases, ParseFile(e.name, e.contents.text));
        } else {
          assert before + EntryCases(e) == before;
        }
      } else {
        assert before + EntryCases(e) == before;
      }
      i := i + 1;
    }
    assert entries[..i] == entries;
    CaseList.AsWrittenOverflow(Discovered(entries));
  }

  /**
   The directory loop with the corrected `append_case`: the list ends up
   holding the discovered cases in order, inside its storage.
   */
  method ScanDirectory(entries: seq<Entry>) returns (cases: CaseList.CaseStore)
    ensures CaseList.Valid(cases) && CaseList.SlotsFit(cases)
    ensures CaseList.Items(cases) == Discovered(entries)
  {
    cases := CaseList.Unallocated;
    var i := 0;
    while i < |entries|
      invariant i <= |entries|
      invariant CaseList.Valid(cases) && CaseList.SlotsFit(cases)
      invariant CaseList.Items(cases) == Discovered(entries[..i])
    {
      var e := entries[i];
      assert entries[..i + 1][..i] == entries[..i];
      if e.name == "." || e.name == ".." {
        assert !Selected(e.name);
      } else if IsTestFile(e.name) {
        if e.contents.Opened? {
          cases := CaseList.AppendAll(cases, ParseFile(e.name, e.contents.text));
        }
      }
      i := i + 1;
    }
    assert entries[..i] == entries;
  }
}
