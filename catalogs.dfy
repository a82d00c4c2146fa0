/** Translation records and the catalog loader of the locale builder:
    every catalog of one language directory is folded, entry by entry,
    into a dictionary keyed by the message context. */
module Catalogs {

  /** One entry of a gettext catalog, as the catalog parser exposes it. */
  datatype CatalogEntry = CatalogEntry(msgctxt: string, msgid: string, msgstr: string, fuzzy: bool)

  /** A catalog file of the language directory: its file name and its entries in file order. */
  datatype Catalog = Catalog(name: string, entries: seq<CatalogEntry>)

  /** What the builder keeps per message key. */
  datatype TranslationEntry = TranslationEntry(key: string, source: string, target: string, fuzzy: bool, prefix: string)
  {
    /** A record counts as translated exactly when its target text is not empty. */
    predicate Translated() {
      target != ""
    }
  }

  type TranslationMap = map<string, TranslationEntry>

  /** Catalog file names come from a directory listing, which never holds an empty name. */
  predicate NamesNonEmpty(catalogs: seq<Catalog>) {
    forall f :: 0 <= f < |catalogs| ==> catalogs[f].name != ""
  }

  // ---------------------------------------------------------------------
  // The entry number, rendered in decimal as Python's str() does for a
  // non-negative integer, and the location prefix built from it.
  // ---------------------------------------------------------------------

  predicate AllDigits(s: string) {
    forall k :: 0 <= k < |s| ==> '0' <= s[k] <= '9'
  }

  function DigitChar(d: nat): (c: char)
    requires d < 10
    ensures '0' <= c <= '9'
  {
    ('0' as int + d) as char
  }

  function DigitValue(c: char): (d: nat)
    requires '0' <= c <= '9'
    ensures d < 10
  {
    c as int - '0' as int
  }

  /** The decimal rendering of n: digits only, at least one, and no leading zero. */
  function Decimal(n: nat): (s: string)
    ensures |s| >= 1 && AllDigits(s)
    ensures s[0] == '0' ==> n == 0
    decreases n
  {
    if n < 10 then [DigitChar(n)] else Decimal(n / 10) + [DigitChar(n % 10)]
  }

  /** Reads a string of decimal digits back as a number. */
  function ParseDecimal(s: string): nat
    requires AllDigits(s)
    decreases |s|
  {
    if s == [] then 0 else 10 * ParseDecimal(s[..|s| - 1]) + DigitValue(s[|s| - 1])
  }

  /** Rendering a number in decimal loses nothing: the digits read back as the number. */
  lemma {:induction false} ParseDecimalOfDecimal(n: nat)
    ensures ParseDecimal(Decimal(n)) == n
    decreases n
  {
    if n >= 10 {
      var s := Decimal(n);
      assert s[..|s| - 1] == Decimal(n / 10);
      ParseDecimalOfDecimal(n / 10);
    }
  }

  /** ASCII upper-casing of one character; every other character is kept. */
  function UpperChar(c: char): char {
    if 'a' <= c <= 'z' then (c as int - 32) as char else c
  }

  /** The location prefix of the entry at 0-based position i of the catalog
      file called name: the file name's first letter upper-cased, followed by
      the 1-based entry number. */
  function EntryPrefix(name: string, i: nat): string
    requires name != ""
  {
    [UpperChar(name[0])] + Decimal(i + 1)
  }

  /** A prefix splits into the upper-cased initial and the digits of the
      1-based entry number, without a leading zero, which read back as that number. */
  lemma EntryPrefixParts(name: string, i: nat)
    requires name != ""
    ensures var p := EntryPrefix(name, i);
            |p| >= 2 && p[0] == UpperChar(name[0]) &&
            AllDigits(p[1..]) && p[1] != '0' && ParseDecimal(p[1..]) == i + 1
  {
    assert EntryPrefix(name, i)[1..] == Decimal(i + 1);
    ParseDecimalOfDecimal(i + 1);
  }

  /** Two entries of one catalog file never share a prefix. */
  lemma EntryPrefixInjective(name: string, i: nat, j: nat)
    requires name != ""
    ensures EntryPrefix(name, i) == EntryPrefix(name, j) <==> i == j
  {
    EntryPrefixParts(name, i);
    EntryPrefixParts(name, j);
  }

  // ---------------------------------------------------------------------
  // The catalog-to-map builder.
  // ---------------------------------------------------------------------

  /** The record built from entry i of catalog c. */
  function Record(c: Catalog, i: nat): TranslationEntry
    requires c.name != "" && i < |c.entries|
  {
    var e := c.entries[i];
    TranslationEntry(e.msgctxt, e.msgid, e.msgstr, e.fuzzy, EntryPrefix(c.name, i))
  }

  /** The dictionary m after the first k entries of catalog c were stored into it. */
  function AddEntries(m: TranslationMap, c: Catalog, k: nat): TranslationMap
    requires c.name != "" && k <= |c.entries|
    decreases k
  {
    if k == 0 then m
    else AddEntries(m, c, k - 1)[c.entries[k - 1].msgctxt := Record(c, k - 1)]
  }

  /** The dictionary built from all catalogs, in listing order. */
  function CatalogMap(catalogs: seq<Catalog>): TranslationMap
    requires NamesNonEmpty(catalogs)
    decreases |catalogs|
  {
    if catalogs == [] then map[]
    else
      var last := catalogs[|catalogs| - 1];
      AddEntries(CatalogMap(catalogs[..|catalogs| - 1]), last, |last.entries|)
  }

  /** Storing entries adds exactly their keys. */
  lemma {:induction false} AddEntriesKeys(m: TranslationMap, c: Catalog, k: nat, key: string)
    requires c.name != "" && k <= |c.entries|
    ensures key in AddEntries(m, c, k) <==> key in m || exists i :: 0 <= i < k && c.entries[i].msgctxt == key
    decreases k
  {
    if k > 0 {
      AddEntriesKeys(m, c, k - 1, key);
      var prev := AddEntries(m, c, k - 1);
      assert AddEntries(m, c, k) == prev[c.entries[k - 1].msgctxt := Record(c, k - 1)];
      if key in AddEntries(m, c, k) && key != c.entries[k - 1].msgctxt {
        assert key in prev;
        if key !in m {
          var i :| 0 <= i < k - 1 && c.entries[i].msgctxt == key;
          assert 0 <= i < k && c.entries[i].msgctxt == key;
        }
      }
      if exists i :: 0 <= i < k && c.entries[i].msgctxt == key {
        var i :| 0 <= i < k && c.entries[i].msgctxt == key;
        if i < k - 1 {
          assert key in prev;
        }
      }
    }
  }

  /** A key that none of the stored entries has keeps its earlier record. */
  lemma {:induction false} AddEntriesKeeps(m: TranslationMap, c: Catalog, k: nat, key: string)
    requires c.name != "" && k <= |c.entries|
    requires key in m && forall i :: 0 <= i < k ==> c.entries[i].msgctxt != key
    ensures key in AddEntries(m, c, k) && AddEntries(m, c, k)[key] == m[key]
    decreases k
  {
    if k > 0 {
      AddEntriesKeeps(m, c, k - 1, key);
      var prev := AddEntries(m, c, k - 1);
      assert AddEntries(m, c, k) == prev[c.entries[k - 1].msgctxt := Record(c, k - 1)];
      assert c.entries[k - 1].msgctxt != key;
    }
  }

  /** Among the stored entries, the last one with a given key wins. */
  lemma {:induction false} AddEntriesLast(m: TranslationMap, c: Catalog, k: nat, i: nat)
    requires c.name != "" && i < k <= |c.entries|
    requires forall j :: i < j < k ==> c.entries[j].msgctxt != c.entries[i].msgctxt
    ensures c.entries[i].msgctxt in AddEntries(m, c, k)
    ensures AddEntries(m, c, k)[c.entries[i].msgctxt] == Record(c, i)
    decreases k
  {
    var key := c.entries[i].msgctxt;
    var prev := AddEntries(m, c, k - 1);
    assert AddEntries(m, c, k) == prev[c.entries[k - 1].msgctxt := Record(c, k - 1)];
    if k - 1 > i {
      AddEntriesLast(m, c, k - 1, i);
      assert c.entries[k - 1].msgctxt != key;
    }
  }

  /** A key is in the dictionary exactly when some entry of some catalog has it as its context. */
  lemma {:induction false} CatalogMapKeys(catalogs: seq<Catalog>, key: string)
    requires NamesNonEmpty(catalogs)
    ensures key in CatalogMap(catalogs) <==>
              exists f, i :: 0 <= f < |catalogs| && 0 <= i < |catalogs[f].entries| && catalogs[f].entries[i].msgctxt == key
    decreases |catalogs|
  {
    if catalogs != [] {
      var init := catalogs[..|catalogs| - 1];
      var last := catalogs[|catalogs| - 1];
      CatalogMapKeys(init, key);
      AddEntriesKeys(CatalogMap(init), last, |last.entries|, key);
      if key in CatalogMap(catalogs) {
        if key in CatalogMap(init) {
          var f, i :| 0 <= f < |init| && 0 <= i < |init[f].entries| && init[f].entries[i].msgctxt == key;
          assert catalogs[f] == init[f];
        } else {
          var i :| 0 <= i < |last.entries| && last.entries[i].msgctxt == key;
          assert catalogs[|catalogs| - 1].entries[i].msgctxt == key;
        }
      }
      if exists f, i :: 0 <= f < |catalogs| && 0 <= i < |catalogs[f].entries| && catalogs[f].entries[i].msgctxt == key {
        var f, i :| 0 <= f < |catalogs| && 0 <= i < |catalogs[f].entries| && catalogs[f].entries[i].msgctxt == key;
        if f < |catalogs| - 1 {
          assert init[f] == catalogs[f];
        } else {
          assert last.entries[i].msgctxt == key;
        }
      }
    }
  }

  /** A key that appears again in a later file, or later in the same file,
      is overwritten: the record kept is the one of its last occurrence. */
  lemma {:induction false} CatalogMapLastWins(catalogs: seq<Catalog>, f: nat, i: nat)
    requires NamesNonEmpty(catalogs)
    requires f < |catalogs| && i < |catalogs[f].entries|
    requires forall j :: i < j < |catalogs[f].entries| ==>
               catalogs[f].entries[j].msgctxt != catalogs[f].entries[i].msgctxt
    requires forall g, j :: f < g < |catalogs| && 0 <= j < |catalogs[g].entries| ==>
               catalogs[g].entries[j].msgctxt != catalogs[f].entries[i].msgctxt
    ensures catalogs[f].entries[i].msgctxt in CatalogMap(catalogs)
    ensures CatalogMap(catalogs)[catalogs[f].entries[i].msgctxt] == Record(catalogs[f], i)
    decreases |catalogs|
  {
    var key := catalogs[f].entries[i].msgctxt;
    var init := catalogs[..|catalogs| - 1];
    var last := catalogs[|catalogs| - 1];
    if f == |catalogs| - 1 {
      AddEntriesLast(CatalogMap(init), last, |last.entries|, i);
    } else {
      assert init[f] == catalogs[f];
      CatalogMapLastWins(init, f, i);
      forall j | 0 <= j < |last.entries|
        ensures last.entries[j].msgctxt != key
      {
        assert catalogs[|catalogs| - 1].entries[j].msgctxt != key;
      }
      AddEntriesKeeps(CatalogMap(init), last, |last.entries|, key);
    }
  }

  /** The loading loop: each catalog in listing order, each entry in file
      order, stores its record under its context, replacing any earlier one. */
  method LoadTranslations(catalogs: seq<Catalog>) returns (translation: TranslationMap)
    requires NamesNonEmpty(catalogs)
    ensures translation == CatalogMap(catalogs)
  {
    translation := map[];
    var f := 0;
    while f < |catalogs|
      invariant 0 <= f <= |catalogs|
      invariant translation == CatalogMap(catalogs[..f])
    {
      var c := catalogs[f];
      var p := [UpperChar(c.name[0])];
      ghost var before := translation;
      var i := 0;
      while i < |c.entries|
        invariant 0 <= i <= |c.entries|
        invariant translation == AddEntries(before, c, i)
      {
        var e := c.entries[i];
        translation := translation[e.msgctxt := TranslationEntry(e.msgctxt, e.msgid, e.msgstr, e.fuzzy, p + Decimal(i + 1))];
        i := i + 1;
      }
      assert catalogs[..f + 1][..f] == catalogs[..f];
      f := f + 1;
    }
    assert catalogs[..|catalogs|] == catalogs;
  }
}
