/** Duplicate titles, descriptions and headings (audit_engine/rules.py:582-606):
    pages are filed under their field's value, and the files of two or more are
    reported together. */
module DuplicateFields {
  import opened Outcomes
  import opened Sequences
  import opened Fractions
  import opened Collection
  import opened Findings

  /** The positions of a value, in order. */
  function With(values: seq<Option<string>>, key: string): seq<nat> {
    if values == [] then []
    else
      var n := |values| - 1;
      With(values[..n], key) + (if values[n] == Some(key) then [n] else [])
  }

  /** The values that occur, in the order of their first occurrence. */
  function Keys(values: seq<Option<string>>): seq<string> {
    if values == [] then []
    else
      var n := |values| - 1;
      var earlier := Keys(values[..n]);
      if values[n].None? || values[n].value in earlier then earlier else earlier + [values[n].value]
  }

  /** The positions reported, file by file. */
  function Repeated(values: seq<Option<string>>, keys: seq<string>): seq<nat> {
    if keys == [] then []
    else
      var n := |keys| - 1;
      var file := With(values, keys[n]);
      Repeated(values, keys[..n]) + (if |file| >= 2 then file else [])
  }

  lemma {:induction false} WithIs(values: seq<Option<string>>, key: string)
    ensures forall k: nat :: k in With(values, key) <==> k < |values| && values[k] == Some(key)
    ensures forall a :: 0 <= a < |With(values, key)| ==> With(values, key)[a] < |values|
    ensures forall a, b :: 0 <= a < b < |With(values, key)| ==> With(values, key)[a] < With(values, key)[b]
  {
    WithHolds(values, key);
    if values != [] { WithIs(values[..|values| - 1], key); }
  }

  lemma {:induction false} WithHolds(values: seq<Option<string>>, key: string)
    ensures forall k: nat :: k in With(values, key) <==> k < |values| && values[k] == Some(key)
  {
    if values != [] {
      var n := |values| - 1;
      WithHolds(values[..n], key);
      assert forall k :: 0 <= k < n ==> values[..n][k] == values[k];
    }
  }

  lemma {:induction false} KeysAre(values: seq<Option<string>>)
    ensures Distinct(Keys(values))
    ensures forall key :: key in Keys(values) <==> Some(key) in values
  {
    if values != [] {
      var n := |values| - 1;
      KeysAre(values[..n]);
      assert values == values[..n] + [values[n]];
    }
  }

  /** Another page has the same value. */
  ghost predicate IsRepeated(values: seq<Option<string>>, k: nat) {
    k < |values| && values[k].Some? && exists j :: 0 <= j < |values| && j != k && values[j] == values[k]
  }

  lemma {:induction false} LongFileIffRepeated(values: seq<Option<string>>, key: string, k: nat)
    requires k in With(values, key)
    ensures |With(values, key)| >= 2 <==> IsRepeated(values, k)
  {
    var file := With(values, key);
    WithIs(values, key);
    var at :| 0 <= at < |file| && file[at] == k;
    if |file| >= 2 {
      var other := if at == 0 then file[1] else file[0];
      assert other in file && other != k;
    }
    if IsRepeated(values, k) {
      var j: nat :| j < |values| && j != k && values[j] == values[k];
      assert j in file;
      var b :| 0 <= b < |file| && file[b] == j;
    }
  }

  lemma DistinctConcat(a: seq<nat>, b: seq<nat>)
    requires Distinct(a) && Distinct(b) && forall i :: 0 <= i < |b| ==> b[i] !in a
    ensures Distinct(a + b)
  {
  }

  lemma {:induction false} RepeatedAre(values: seq<Option<string>>, keys: seq<string>)
    requires Distinct(keys)
    ensures Distinct(Repeated(values, keys))
    ensures forall k: nat :: k in Repeated(values, keys) <==>
      k < |values| && values[k].Some? && values[k].value in keys && IsRepeated(values, k)
  {
    if keys != [] {
      var n := |keys| - 1;
      var file := With(values, keys[n]);
      RepeatedAre(values, keys[..n]);
      WithIs(values, keys[n]);
      assert keys == keys[..n] + [keys[n]];
      forall k: nat | k in file
        ensures |file| >= 2 <==> IsRepeated(values, k)
        ensures k !in Repeated(values, keys[..n])
      {
        LongFileIffRepeated(values, keys[n], k);
      }
      assert forall i :: 0 <= i < |file| ==> file[i] in file;
      DistinctConcat(Repeated(values, keys[..n]), file);
    }
  }

  /** Exactly the pages that share their value with another page are reported,
      each once. */
  lemma {:induction false} ReportedIffShared(values: seq<Option<string>>)
    ensures Distinct(Repeated(values, Keys(values)))
    ensures forall k: nat :: k in Repeated(values, Keys(values)) <==> IsRepeated(values, k)
  {
    KeysAre(values);
    RepeatedAre(values, Keys(values));
    assert forall k: nat :: k < |values| ==> values[k] in values;
  }

  // ----------------------------------------------------------------- filing

  lemma {:induction false} WithOneMore(values: seq<Option<string>>, value: Option<string>, key: string)
    ensures With(values + [value], key) == With(values, key) + (if value == Some(key) then [|values|] else [])
  {
    assert (values + [value])[..|values|] == values;
  }

  /** The dictionary after some pages: its keys in order, and their files. */
  ghost predicate Filed(values: seq<Option<string>>, keys: seq<string>, files: map<string, seq<nat>>) {
    && keys == Keys(values) && files.Keys == Elements(keys)
    && forall key :: key in files ==> files[key] == With(values, key)
  }

  lemma {:induction false} NeverSeen(values: seq<Option<string>>, key: string)
    requires Some(key) !in values
    ensures With(values, key) == []
  {
    if values != [] { NeverSeen(values[..|values| - 1], key); }
  }

  lemma {:induction false} KeysOneMore(values: seq<Option<string>>, value: Option<string>)
    ensures Keys(values + [value]) ==
      if value.None? || value.value in Keys(values) then Keys(values) else Keys(values) + [value.value]
  {
    assert (values + [value])[..|values|] == values;
  }

  lemma FiledKnown(values: seq<Option<string>>, key: string, keys: seq<string>, files: map<string, seq<nat>>)
    requires Filed(values, keys, files) && key in files
    ensures Filed(values + [Some(key)], keys, files[key := files[key] + [|values|]])
  {
    KeysOneMore(values, Some(key));
    forall other | other in files
      ensures With(values + [Some(key)], other) == files[key := files[key] + [|values|]][other]
    {
      WithOneMore(values, Some(key), other);
    }
  }

  lemma FiledNew(values: seq<Option<string>>, key: string, keys: seq<string>, files: map<string, seq<nat>>)
    requires Filed(values, keys, files) && key !in files
    ensures Filed(values + [Some(key)], keys + [key], files[key := [|values|]])
  {
    KeysAre(values);
    KeysOneMore(values, Some(key));
    NeverSeen(values, key);
    WithOneMore(values, Some(key), key);
    forall other | other in files
      ensures With(values + [Some(key)], other) == files[other]
    {
      WithOneMore(values, Some(key), other);
    }
    assert Elements(keys + [key]) == Elements(keys) + {key};
  }

  lemma FiledNothing(values: seq<Option<string>>, keys: seq<string>, files: map<string, seq<nat>>)
    requires Filed(values, keys, files)
    ensures Filed(values + [None], keys, files)
  {
    KeysOneMore(values, None);
    forall other | other in files
      ensures With(values + [None], other) == files[other]
    {
      WithOneMore(values, None, other);
    }
  }

  /** One page filed: under its value, if it has one. */
  method FileOne(values: seq<Option<string>>, at: nat, keys: seq<string>, files: map<string, seq<nat>>)
    returns (moreKeys: seq<string>, moreFiles: map<string, seq<nat>>)
    requires at < |values| && Filed(values[..at], keys, files)
    ensures Filed(values[..at + 1], moreKeys, moreFiles)
  {
    var value := values[at];
    assert values[..at + 1] == values[..at] + [value];
    moreKeys, moreFiles := keys, files;
    if value.None? {
      FiledNothing(values[..at], keys, files);
    } else if value.value in files {
      FiledKnown(values[..at], value.value, keys, files);
      moreFiles := files[value.value := files[value.value] + [at]];
    } else {
      FiledNew(values[..at], value.value, keys, files);
      moreKeys, moreFiles := keys + [value.value], files[value.value := [at]];
    }
  }

  /** The whole evaluation: the positions of the pages to report. */
  method Duplicates(values: seq<Option<string>>) returns (affected: seq<nat>)
    ensures affected == Repeated(values, Keys(values))
  {
    var keys: seq<string>, files: map<string, seq<nat>> := [], map[];
    for at := 0 to |values|
      invariant Filed(values[..at], keys, files)
    {
      keys, files := FileOne(values, at, keys, files);
    }
    assert values[..|values|] == values;
    affected := [];
    for k := 0 to |keys|
      invariant affected == Repeated(values, keys[..k])
    {
      assert keys[..k + 1][..k] == keys[..k];
      assert keys[k] in Elements(keys);
      if |files[keys[k]]| >= 2 { affected := affected + files[keys[k]]; }
    }
    assert keys[..|keys|] == keys;
  }

  // ------------------------------------------------------- as a rule's choice

  function ValuesOf(value: Page -> Option<string>, pages: seq<Page>): (values: seq<Option<string>>)
    ensures |values| == |pages| && forall i :: 0 <= i < |pages| ==> values[i] == value(pages[i])
  {
    seq(|pages|, i requires 0 <= i < |pages| => value(pages[i]))
  }

  function At(pages: seq<Page>, positions: seq<nat>): (chosen: seq<Page>)
    requires forall i :: 0 <= i < |positions| ==> positions[i] < |pages|
    ensures |chosen| == |positions| && forall i :: 0 <= i < |positions| ==> chosen[i] == pages[positions[i]]
  {
    seq(|positions|, i requires 0 <= i < |positions| => pages[positions[i]])
  }

  lemma {:induction false} RepeatedInRange(values: seq<Option<string>>)
    ensures forall i :: 0 <= i < |Repeated(values, Keys(values))| ==> Repeated(values, Keys(values))[i] < |values|
  {
    ReportedIffShared(values);
    assert forall i :: 0 <= i < |Repeated(values, Keys(values))| ==>
      Repeated(values, Keys(values))[i] in Repeated(values, Keys(values));
  }

  /** The pages the rule reports; `value` is the field, if the page has it. */
  function Chosen(value: Page -> Option<string>, pages: seq<Page>): seq<Page> {
    var values := ValuesOf(value, pages);
    RepeatedInRange(values);
    At(pages, Repeated(values, Keys(values)))
  }

  lemma ChosenIff(candidates: seq<Page>, positions: seq<nat>, i: nat)
    requires Distinct(UrlsOf(candidates)) && i < |candidates|
    requires forall k :: 0 <= k < |positions| ==> positions[k] < |candidates|
    ensures candidates[i] in At(candidates, positions) <==> i in positions
  {
    var chosen := At(candidates, positions);
    if candidates[i] in chosen {
      var k :| 0 <= k < |chosen| && chosen[k] == candidates[i];
      assert UrlsOf(candidates)[positions[k]] == UrlsOf(candidates)[i];
    }
    if i in positions {
      var k :| 0 <= k < |positions| && positions[k] == i;
      assert chosen[k] == candidates[i];
    }
  }

  /** Another page has the same value. */
  ghost predicate Shares(value: Page -> Option<string>, pages: seq<Page>, i: nat)
    requires i < |pages|
  {
    value(pages[i]).Some? && exists j :: 0 <= j < |pages| && j != i && value(pages[j]) == value(pages[i])
  }

  /** The URLs of the pages that share their value. */
  ghost function SharingUrls(value: Page -> Option<string>, pages: seq<Page>): set<string> {
    set i | 0 <= i < |pages| && Shares(value, pages, i) :: pages[i].url
  }

  lemma ChosenShare(value: Page -> Option<string>, pages: seq<Page>, i: nat)
    requires Distinct(UrlsOf(pages)) && i < |pages|
    ensures pages[i] in Chosen(value, pages) <==> Shares(value, pages, i)
  {
    var values := ValuesOf(value, pages);
    ReportedIffShared(values);
    RepeatedInRange(values);
    ChosenIff(pages, Repeated(values, Keys(values)), i);
    assert forall j :: 0 <= j < |pages| ==> values[j] == value(pages[j]);
  }

  /** It chooses pages of the crawl, each once: so its count is stored exactly. */
  lemma DuplicatesChoose(id: string, category: string, value: Page -> Option<string>, pages: seq<Page>)
    requires Distinct(UrlsOf(pages))
    ensures ChoosesFrom(Rule.Chosen(id, category, pages => Chosen(value, pages)), pages)
  {
    var values := ValuesOf(value, pages);
    ReportedIffShared(values);
    RepeatedInRange(values);
    var positions, chosen := Repeated(values, Keys(values)), Chosen(value, pages);
    forall i, j | 0 <= i < j < |chosen|
      ensures UrlsOf(chosen)[i] != UrlsOf(chosen)[j]
    {
      assert positions[i] != positions[j];
      assert UrlsOf(pages)[positions[i]] != UrlsOf(pages)[positions[j]];
    }
  }

  lemma SharingAreCounted(value: Page -> Option<string>, pages: seq<Page>)
    requires Distinct(UrlsOf(pages))
    ensures |Chosen(value, pages)| == |SharingUrls(value, pages)|
  {
    var chosen := Chosen(value, pages);
    DuplicatesChoose("", "", value, pages);
    forall url
      ensures url in Elements(UrlsOf(chosen)) <==> url in SharingUrls(value, pages)
    {
      if url in UrlsOf(chosen) {
        var k :| 0 <= k < |chosen| && UrlsOf(chosen)[k] == url;
        assert chosen[k] in chosen;
        var i :| 0 <= i < |pages| && pages[i] == chosen[k];
        ChosenShare(value, pages, i);
      }
      if url in SharingUrls(value, pages) {
        var i :| 0 <= i < |pages| && Shares(value, pages, i) && pages[i].url == url;
        ChosenShare(value, pages, i);
        var k :| 0 <= k < |chosen| && chosen[k] == pages[i];
        assert UrlsOf(chosen)[k] == url;
      }
    }
    DistinctCount(UrlsOf(chosen));
    assert Elements(UrlsOf(chosen)) == SharingUrls(value, pages);
  }

  /** From the rules to the stored row: the row of such a rule tells how many pages
      share their value with another. */
  lemma {:induction false} DuplicateRowIsExact(
    round: Rounding, rules: seq<Rule>, active: set<string>, value: Page -> Option<string>, pages: seq<Page>,
    integrity: Integrity, k: nat)
    requires DistinctIds(rules) && k < |rules| && rules[k].category in active && IsRounding(round)
    requires Distinct(UrlsOf(pages)) && rules[k].Chosen? && rules[k].choose(pages) == Chosen(value, pages)
    requires SharingUrls(value, pages) != {}
    ensures var found := RunRules(rules, active, pages, integrity);
      RowTells(Fold(round, rules[k].id, GroupOf(found, rules[k].id), |pages|),
               rules[k].id, |SharingUrls(value, pages)|, |pages|)
  {
    DuplicatesChoose("", "", value, pages);
    SharingAreCounted(value, pages);
    StoredSiteRowIsExact(round, rules, active, pages, integrity, k);
  }
}
