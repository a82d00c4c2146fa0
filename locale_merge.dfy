/** The locale merger: every entry of a locale document's "strings" list
    is looked up by its Key in the translation dictionary, and its Value is
    replaced by the translation (or the catalog's source text when there is
    none), optionally followed by the record's location prefix. Running
    counters and a record of missing keys are kept on the way. */
module LocaleMerge {
  import opened Catalogs

  /** One entry of the "strings" list; Rest stands for its other fields, which the merge never touches. */
  datatype LocaleEntry = LocaleEntry(Key: string, Value: string, Rest: map<string, string>)

  /** A locale document: its "strings" list and its other top-level fields. */
  datatype LocaleDocument = LocaleDocument(strings: seq<LocaleEntry>, rest: map<string, string>)

  /** How the merge treats one entry. */
  datatype Kind =
    | Skipped     // empty Key or empty Value: not counted, not touched
    | Missing     // Key not in the dictionary
    | HasTarget   // record with a non-empty target
    | Fallback    // record with an empty target: the source text is used

  function KindOf(e: LocaleEntry, translation: TranslationMap): Kind {
    if e.Key == "" || e.Value == "" then Skipped
    else if e.Key !in translation then Missing
    else if translation[e.Key].Translated() then HasTarget
    else Fallback
  }

  /** The location annotation appended in numbering mode. */
  function Annotation(prefix: string): string {
    " (" + prefix + ")"
  }

  /** Whether the merged value of an entry with this key and record is annotated:
      numbering mode is on, the key is not excluded, and source and target differ
      (which includes an empty target with a non-empty source). */
  predicate Annotates(key: string, tr: TranslationEntry, n: bool, exclude: set<string>) {
    n && key !in exclude && tr.source != tr.target
  }

  /** The merge of one entry. */
  function MergeEntry(e: LocaleEntry, translation: TranslationMap, n: bool, exclude: set<string>): (r: LocaleEntry)
    // only the Value may change
    ensures r.Key == e.Key && r.Rest == e.Rest
    // skipped and missing entries are left as they are
    ensures KindOf(e, translation) == Skipped || KindOf(e, translation) == Missing ==> r == e
    // a translated entry starts with the target, a fallback entry with the source
    ensures KindOf(e, translation) == HasTarget ==>
              |r.Value| >= |translation[e.Key].target| &&
              r.Value[..|translation[e.Key].target|] == translation[e.Key].target
    ensures KindOf(e, translation) == Fallback ==>
              |r.Value| >= |translation[e.Key].source| &&
              r.Value[..|translation[e.Key].source|] == translation[e.Key].source
    // something follows the chosen text exactly when the entry is annotated, and then it is the annotation
    ensures KindOf(e, translation) == HasTarget ==>
              (|r.Value| > |translation[e.Key].target| <==> Annotates(e.Key, translation[e.Key], n, exclude)) &&
              (Annotates(e.Key, translation[e.Key], n, exclude) ==>
                 r.Value[|translation[e.Key].target|..] == Annotation(translation[e.Key].prefix))
    ensures KindOf(e, translation) == Fallback ==>
              (|r.Value| > |translation[e.Key].source| <==> Annotates(e.Key, translation[e.Key], n, exclude)) &&
              (Annotates(e.Key, translation[e.Key], n, exclude) ==>
                 r.Value[|translation[e.Key].source|..] == Annotation(translation[e.Key].prefix))
  {
    match KindOf(e, translation)
    case Skipped => e
    case Missing => e
    case _ =>
      var tr := translation[e.Key];
      var value := if tr.Translated() then tr.target else tr.source;
      e.(Value := if Annotates(e.Key, tr, n, exclude) then value + Annotation(tr.prefix) else value)
  }

  /** The merge of a whole "strings" list, entry by entry. */
  function MergedEntries(s: seq<LocaleEntry>, translation: TranslationMap, n: bool, exclude: set<string>): (r: seq<LocaleEntry>)
    // same count and order; every entry keeps its Key and its other fields
    ensures |r| == |s|
    ensures forall i :: 0 <= i < |s| ==> r[i].Key == s[i].Key && r[i].Rest == s[i].Rest
  {
    seq(|s|, i requires 0 <= i < |s| => MergeEntry(s[i], translation, n, exclude))
  }

  // ---------------------------------------------------------------------
  // Counters and the record of missing keys.
  // ---------------------------------------------------------------------

  /** The counters total, translated and missing, and missing_dict. */
  datatype Tally = Tally(total: nat, translated: nat, missing: nat, missingDict: map<string, string>)

  const NO_TALLY := Tally(0, 0, 0, map[])

  /** The counters after one more entry. */
  function Step(t: Tally, e: LocaleEntry, translation: TranslationMap): Tally {
    match KindOf(e, translation)
    case Skipped => t
    case Missing => t.(total := t.total + 1, missing := t.missing + 1, missingDict := t.missingDict[e.Key := e.Value])
    case HasTarget => t.(total := t.total + 1, translated := t.translated + 1)
    case Fallback => t.(total := t.total + 1)
  }

  /** The counters after the entries of s, in order. */
  function Tallied(t: Tally, s: seq<LocaleEntry>, translation: TranslationMap): Tally
    decreases |s|
  {
    if s == [] then t else Step(Tallied(t, s[..|s| - 1], translation), s[|s| - 1], translation)
  }

  /** The number of entries of s the merge treats as kind. */
  function Count(s: seq<LocaleEntry>, translation: TranslationMap, kind: Kind): nat
    decreases |s|
  {
    if s == [] then 0
    else Count(s[..|s| - 1], translation, kind) + (if KindOf(s[|s| - 1], translation) == kind then 1 else 0)
  }

  /** Every entry is of exactly one kind. */
  lemma {:induction false} KindsPartition(s: seq<LocaleEntry>, translation: TranslationMap)
    ensures Count(s, translation, Skipped) + Count(s, translation, Missing)
          + Count(s, translation, HasTarget) + Count(s, translation, Fallback) == |s|
    decreases |s|
  {
    if s != [] {
      KindsPartition(s[..|s| - 1], translation);
    }
  }

  /** total counts every entry that is not skipped, translated the entries
      whose record has a non-empty target, and missing those without a record. */
  lemma {:induction false} TallyCounts(t: Tally, s: seq<LocaleEntry>, translation: TranslationMap)
    ensures Tallied(t, s, translation).total == t.total + |s| - Count(s, translation, Skipped)
    ensures Tallied(t, s, translation).translated == t.translated + Count(s, translation, HasTarget)
    ensures Tallied(t, s, translation).missing == t.missing + Count(s, translation, Missing)
    decreases |s|
  {
    if s != [] {
      TallyCounts(t, s[..|s| - 1], translation);
      KindsPartition(s[..|s| - 1], translation);
    }
  }

  /** From fresh counters, translated + missing never exceeds total, and
      what is left over is exactly the number of fallback entries. */
  lemma CounterInvariant(s: seq<LocaleEntry>, translation: TranslationMap)
    ensures Tallied(NO_TALLY, s, translation).translated + Tallied(NO_TALLY, s, translation).missing
              <= Tallied(NO_TALLY, s, translation).total
    ensures Tallied(NO_TALLY, s, translation).total
              - Tallied(NO_TALLY, s, translation).translated
              - Tallied(NO_TALLY, s, translation).missing == Count(s, translation, Fallback)
  {
    TallyCounts(NO_TALLY, s, translation);
    KindsPartition(s, translation);
  }

  /** Counting a list in two pieces is counting it whole. */
  lemma {:induction false} TalliedAppend(t: Tally, a: seq<LocaleEntry>, b: seq<LocaleEntry>, translation: TranslationMap)
    ensures Tallied(t, a + b, translation) == Tallied(Tallied(t, a, translation), b, translation)
    decreases |b|
  {
    if b == [] {
      assert a + b == a;
    } else {
      assert (a + b)[..|a + b| - 1] == a + b[..|b| - 1];
      TalliedAppend(t, a, b[..|b| - 1], translation);
    }
  }

  /** A key is recorded as missing exactly when it was already, or some
      counted entry with that key had no record. */
  lemma {:induction false} MissingDictKeys(t: Tally, s: seq<LocaleEntry>, translation: TranslationMap, key: string)
    ensures key in Tallied(t, s, translation).missingDict <==>
              key in t.missingDict || exists i :: 0 <= i < |s| && KindOf(s[i], translation) == Missing && s[i].Key == key
    decreases |s|
  {
    if s != [] {
      var init := s[..|s| - 1];
      var last := s[|s| - 1];
      MissingDictKeys(t, init, translation, key);
      var prev := Tallied(t, init, translation);
      assert Tallied(t, s, translation) == Step(prev, last, translation);
      assert Tallied(t, s, translation).missingDict ==
               if KindOf(last, translation) == Missing then prev.missingDict[last.Key := last.Value] else prev.missingDict;
      if exists i :: 0 <= i < |init| && KindOf(init[i], translation) == Missing && init[i].Key == key {
        var i :| 0 <= i < |init| && KindOf(init[i], translation) == Missing && init[i].Key == key;
        assert s[i] == init[i];
      }
      if exists i :: 0 <= i < |s| && KindOf(s[i], translation) == Missing && s[i].Key == key {
        var i :| 0 <= i < |s| && KindOf(s[i], translation) == Missing && s[i].Key == key;
        if i < |init| {
          assert init[i] == s[i];
        }
      }
    }
  }

  /** The value recorded for a missing key is the original Value of its last missing entry. */
  lemma {:induction false} MissingDictLast(t: Tally, s: seq<LocaleEntry>, translation: TranslationMap, i: nat)
    requires i < |s| && KindOf(s[i], translation) == Missing
    requires forall j :: i < j < |s| ==> KindOf(s[j], translation) != Missing || s[j].Key != s[i].Key
    ensures s[i].Key in Tallied(t, s, translation).missingDict
    ensures Tallied(t, s, translation).missingDict[s[i].Key] == s[i].Value
    decreases |s|
  {
    if i < |s| - 1 {
      var init := s[..|s| - 1];
      assert init[i] == s[i];
      MissingDictLast(t, init, translation, i);
    }
  }

  /** The body of the merge loop: the entry at index i is merged in place,
      and the counters move on by that entry. */
  method MergeAt(strings: array<LocaleEntry>, i: nat, translation: TranslationMap, n: bool, exclude: set<string>, before: Tally)
    returns (after: Tally)
    requires i < strings.Length
    modifies strings
    ensures strings[i] == MergeEntry(old(strings[i]), translation, n, exclude)
    ensures forall k :: 0 <= k < strings.Length && k != i ==> strings[k] == old(strings[k])
    ensures after == Step(before, old(strings[i]), translation)
  {
    var entry := strings[i];
    var total, translated, missing, missingDict := before.total, before.translated, before.missing, before.missingDict;
    var key := entry.Key;
    if key != "" && entry.Value != "" {
      total := total + 1;
      if key !in translation {
        missing := missing + 1;
        missingDict := missingDict[key := entry.Value];
      } else {
        var tr := translation[key];
        var value;
        if tr.Translated() {
          value := tr.target;
          translated := translated + 1;
        } else {
          value := tr.source;
        }
        if n && key !in exclude && tr.source != tr.target {
          value := value + Annotation(tr.prefix);
        }
        strings[i] := entry.(Value := value);
      }
    }
    after := Tally(total, translated, missing, missingDict);
  }

  /** The merge of one "strings" list in place, with the counters carried
      over from the files merged before it. */
  method MergeStrings(strings: array<LocaleEntry>, translation: TranslationMap, n: bool, exclude: set<string>, tally: Tally)
    returns (after: Tally)
    modifies strings
    ensures strings[..] == MergedEntries(old(strings[..]), translation, n, exclude)
    ensures after == Tallied(tally, old(strings[..]), translation)
  {
    ghost var original := strings[..];
    after := tally;
    var i := 0;
    while i < strings.Length
      invariant 0 <= i <= strings.Length
      invariant forall k :: 0 <= k < i ==> strings[k] == MergeEntry(original[k], translation, n, exclude)
      invariant forall k :: i <= k < strings.Length ==> strings[k] == original[k]
      invariant after == Tallied(tally, original[..i], translation)
    {
      after := MergeAt(strings, i, translation, n, exclude, after);
      assert original[..i + 1][..i] == original[..i];
      i := i + 1;
    }
    assert original[..i] == original;
  }

  // ---------------------------------------------------------------------
  // Consequences stated for single entries.
  // ---------------------------------------------------------------------

  /** With numbering mode off, a matched entry becomes exactly its target, or its source when the target is empty. */
  lemma UnannotatedWhenFlagOff(e: LocaleEntry, translation: TranslationMap, exclude: set<string>)
    requires KindOf(e, translation) == HasTarget || KindOf(e, translation) == Fallback
    ensures MergeEntry(e, translation, false, exclude).Value ==
              if translation[e.Key].target != "" then translation[e.Key].target else translation[e.Key].source
  {
  }

  /** As written, an untranslated entry that falls back to a non-empty source
      is still annotated in numbering mode. */
  lemma FallbackIsAnnotated(e: LocaleEntry, translation: TranslationMap, exclude: set<string>)
    requires KindOf(e, translation) == Fallback && e.Key !in exclude
    requires translation[e.Key].source != ""
    ensures MergeEntry(e, translation, true, exclude).Value ==
              translation[e.Key].source + " (" + translation[e.Key].prefix + ")"
  {
  }

  /** A record whose target equals its source is never annotated. */
  lemma SameTextNeverAnnotated(e: LocaleEntry, translation: TranslationMap, n: bool, exclude: set<string>)
    requires KindOf(e, translation) == HasTarget || KindOf(e, translation) == Fallback
    requires translation[e.Key].source == translation[e.Key].target
    ensures MergeEntry(e, translation, n, exclude).Value == translation[e.Key].target
  {
  }

  /** Examples: "GREET" mapped to "Bonjour" with prefix "A1". */
  lemma GreetScenarios()
    ensures var e := LocaleEntry("GREET", "Hello", map[]);
            var m := map["GREET" := TranslationEntry("GREET", "Hello", "Bonjour", false, "A1")];
            MergeEntry(e, m, false, {}).Value == "Bonjour" &&
            MergeEntry(e, m, true, {}).Value == "Bonjour (A1)" &&
            MergeEntry(e, m, true, {"GREET"}).Value == "Bonjour" &&
            MergeEntry(e, map[], true, {}) == e &&
            Step(NO_TALLY, e, map[]) == Tally(1, 0, 1, map["GREET" := "Hello"])
  {
  }
}
