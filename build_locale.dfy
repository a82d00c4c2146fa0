/** The locale builder's run over an input directory: only ".json" files
    are merged, each with counters carried over from the files before it,
    and each result is written under "zhCN" followed by the input name
    without its first four characters. */
module BuildLocale {
  import opened Catalogs
  import opened LocaleMerge

  /** A file of the input directory, with the document its JSON holds. */
  datatype InputFile = InputFile(name: string, doc: LocaleDocument)

  /** A file written to the output directory. */
  datatype OutputFile = OutputFile(name: string, doc: LocaleDocument)

  /** Python's name.endswith(".json"). */
  predicate IsJsonName(name: string) {
    |name| >= 5 && name[|name| - 5..] == ".json"
  }

  /** Python's s[k:]: empty when s is shorter than k. */
  function Drop(s: string, k: nat): string {
    if |s| <= k then "" else s[k..]
  }

  /** The output file name: the code "zhCN" replaces the first four
      characters of the input name, whatever the language. */
  function OutputName(name: string): string {
    "zhCN" + Drop(name, 4)
  }

  /** The output name starts with "zhCN", and putting the input's first four
      characters back in place of it gives the input name again. */
  lemma OutputNameRestores(name: string)
    requires |name| >= 4
    ensures OutputName(name)[..4] == "zhCN"
    ensures name[..4] + OutputName(name)[4..] == name
  {
  }

  /** A ".json" name of at least nine characters keeps its extension; the
      four-character language code in front of it is all that is replaced. */
  lemma OutputNameKeepsExtension(name: string)
    requires IsJsonName(name) && |name| >= 9
    ensures IsJsonName(OutputName(name)) && |OutputName(name)| == |name|
  {
    assert OutputName(name)[|OutputName(name)| - 5..] == name[|name| - 5..];
  }

  /** Inputs that differ only in their first four characters write the same output file. */
  lemma OutputNameIgnoresCode(a: string, b: string, tail: string)
    requires |a| == 4 && |b| == 4
    ensures OutputName(a + tail) == OutputName(b + tail) == "zhCN" + tail
  {
    assert (a + tail)[4..] == tail;
    assert (b + tail)[4..] == tail;
  }

  /** The shortest ".json" name is cut inside its extension. */
  lemma OutputNameOfBareExtension()
    ensures IsJsonName(".json") && OutputName(".json") == "zhCNn" && !IsJsonName(OutputName(".json"))
  {
  }

  /** What one input file becomes. */
  function ProcessFile(file: InputFile, translation: TranslationMap, n: bool, exclude: set<string>): OutputFile {
    OutputFile(OutputName(file.name), file.doc.(strings := MergedEntries(file.doc.strings, translation, n, exclude)))
  }

  /** The input files that are processed, in listing order. */
  function JsonInputs(files: seq<InputFile>): seq<InputFile>
    decreases |files|
  {
    if files == [] then []
    else JsonInputs(files[..|files| - 1]) + (if IsJsonName(files[|files| - 1].name) then [files[|files| - 1]] else [])
  }

  /** The files written, in order. */
  function DirectoryOutputs(files: seq<InputFile>, translation: TranslationMap, n: bool, exclude: set<string>): seq<OutputFile>
    decreases |files|
  {
    if files == [] then []
    else
      var last := files[|files| - 1];
      DirectoryOutputs(files[..|files| - 1], translation, n, exclude)
        + (if IsJsonName(last.name) then [ProcessFile(last, translation, n, exclude)] else [])
  }

  /** The counters after all processed files. */
  function DirectoryTally(t: Tally, files: seq<InputFile>, translation: TranslationMap): Tally
    decreases |files|
  {
    if files == [] then t
    else
      var last := files[|files| - 1];
      var before := DirectoryTally(t, files[..|files| - 1], translation);
      if IsJsonName(last.name) then Tallied(before, last.doc.strings, translation) else before
  }

  /** All "strings" entries of the given files, one file after the other. */
  function AllStrings(files: seq<InputFile>): seq<LocaleEntry>
    decreases |files|
  {
    if files == [] then [] else AllStrings(files[..|files| - 1]) + files[|files| - 1].doc.strings
  }

  /** Exactly the ".json" files of the listing are processed. */
  lemma {:induction false} JsonInputsExact(files: seq<InputFile>, file: InputFile)
    ensures file in JsonInputs(files) <==> file in files && IsJsonName(file.name)
    decreases |files|
  {
    if files != [] {
      var init := files[..|files| - 1];
      JsonInputsExact(init, file);
      assert files == init + [files[|files| - 1]];
    }
  }

  /** Filtering two listings one after the other is filtering their
      concatenation: the filter keeps listing order across any split. */
  lemma {:induction false} JsonInputsAppend(a: seq<InputFile>, b: seq<InputFile>)
    ensures JsonInputs(a + b) == JsonInputs(a) + JsonInputs(b)
    decreases |b|
  {
    if b != [] {
      var init := b[..|b| - 1];
      JsonInputsAppend(a, init);
      assert (a + b)[..|a + b| - 1] == a + init;
      assert (a + b)[|a + b| - 1] == b[|b| - 1];
    } else {
      assert a + b == a;
    }
  }

  /** The j-th file written is the j-th processed input, merged and renamed. */
  lemma {:induction false} DirectoryOutputsAt(files: seq<InputFile>, translation: TranslationMap, n: bool, exclude: set<string>)
    ensures |DirectoryOutputs(files, translation, n, exclude)| == |JsonInputs(files)|
    ensures forall j :: 0 <= j < |JsonInputs(files)| ==>
              DirectoryOutputs(files, translation, n, exclude)[j] == ProcessFile(JsonInputs(files)[j], translation, n, exclude)
    decreases |files|
  {
    if files != [] {
      DirectoryOutputsAt(files[..|files| - 1], translation, n, exclude);
    }
  }

  /** The counters run across file boundaries: after the directory they are
      the counters of all processed entries taken as one list. */
  lemma {:induction false} DirectoryTallyFlat(t: Tally, files: seq<InputFile>, translation: TranslationMap)
    ensures DirectoryTally(t, files, translation) == Tallied(t, AllStrings(JsonInputs(files)), translation)
    decreases |files|
  {
    if files != [] {
      var init := files[..|files| - 1];
      var last := files[|files| - 1];
      DirectoryTallyFlat(t, init, translation);
      if IsJsonName(last.name) {
        var js := JsonInputs(init) + [last];
        assert JsonInputs(files) == js;
        assert js[..|js| - 1] == JsonInputs(init) && js[|js| - 1] == last;
        assert AllStrings(js) == AllStrings(JsonInputs(init)) + last.doc.strings;
        TalliedAppend(t, AllStrings(JsonInputs(init)), last.doc.strings, translation);
        assert DirectoryTally(t, files, translation) == Tallied(DirectoryTally(t, init, translation), last.doc.strings, translation);
      } else {
        assert JsonInputs(files) == JsonInputs(init);
      }
    }
  }

  /** For a whole run, translated + missing never exceeds total. */
  lemma DirectoryCounters(files: seq<InputFile>, translation: TranslationMap)
    ensures DirectoryTally(NO_TALLY, files, translation).translated + DirectoryTally(NO_TALLY, files, translation).missing
              <= DirectoryTally(NO_TALLY, files, translation).total
  {
    DirectoryTallyFlat(NO_TALLY, files, translation);
    CounterInvariant(AllStrings(JsonInputs(files)), translation);
  }

  /** The loop over the input directory: skip names not ending in ".json",
      load the document, merge its "strings" in place, write it under the new name. */
  method ProcessDirectory(files: seq<InputFile>, translation: TranslationMap, n: bool, exclude: set<string>, tally: Tally)
    returns (outputs: seq<OutputFile>, after: Tally)
    ensures outputs == DirectoryOutputs(files, translation, n, exclude)
    ensures after == DirectoryTally(tally, files, translation)
  {
    outputs, after := [], tally;
    var i := 0;
    while i < |files|
      invariant 0 <= i <= |files|
      invariant outputs == DirectoryOutputs(files[..i], translation, n, exclude)
      invariant after == DirectoryTally(tally, files[..i], translation)
    {
      var file := files[i];
      assert files[..i + 1][..i] == files[..i];
      if IsJsonName(file.name) {
        var doc := file.doc;
        var strings := new LocaleEntry[|doc.strings|](k requires 0 <= k < |doc.strings| => doc.strings[k]);
        assert strings[..] == doc.strings;
        after := MergeStrings(strings, translation, n, exclude, after);
        outputs := outputs + [OutputFile(OutputName(file.name), doc.(strings := strings[..]))];
      }
      i := i + 1;
    }
    assert files[..i] == files;
  }

  /** A whole run: load the catalogs of the language directory, take the
      fetched exclusion keys only in numbering mode, and process the input
      directory from fresh counters. */
  method Run(catalogs: seq<Catalog>, inputs: seq<InputFile>, n: bool, fetchedExclusions: set<string>)
    returns (outputs: seq<OutputFile>, tally: Tally)
    requires NamesNonEmpty(catalogs)
    ensures outputs == DirectoryOutputs(inputs, CatalogMap(catalogs), n, if n then fetchedExclusions else {})
    ensures tally == DirectoryTally(NO_TALLY, inputs, CatalogMap(catalogs))
    ensures tally.translated + tally.missing <= tally.total
  {
    var translation := LoadTranslations(catalogs);
    var excludeKeys: set<string> := {};
    if n {
      excludeKeys := fetchedExclusions;
    }
    outputs, tally := ProcessDirectory(inputs, translation, n, excludeKeys, NO_TALLY);
    DirectoryCounters(inputs, translation);
  }
}
