/** `computeCategories` and `computeTags`: a tally kept in a plain object,
    read back with `Object.entries` and sorted by count, highest first. */
module Counts {
  import opened Values
  import opened Seqs
  import opened Records

  /** How often `k` occurs in `s`. */
  function Occ(s: seq<string>, k: string): nat
    decreases |s|
  {
    if s == [] then 0 else Occ(s[..|s| - 1], k) + (if s[|s| - 1] == k then 1 else 0)
  }

  /** The counting object: its properties in creation order and their values. */
  datatype Tally = Tally(keys: seq<string>, counts: map<string, int>)

  /** `m[k] || 0` on the counting object. */
  function Lookup(m: map<string, int>, k: string): int {
    if k in m then m[k] else 0
  }

  /** The object after `m[x] = (m[x] || 0) + 1`: a new property goes last. */
  function Bump(t: Tally, x: string): Tally {
    if x in t.counts then Tally(t.keys, t.counts[x := t.counts[x] + 1])
    else Tally(t.keys + [x], t.counts[x := 1])
  }

  /** The object after counting every element of `s` in order. */
  function TallyOf(s: seq<string>): Tally
    decreases |s|
  {
    if s == [] then Tally([], map[]) else Bump(TallyOf(s[..|s| - 1]), s[|s| - 1])
  }

  lemma TallyOfSnoc(s: seq<string>, x: string)
    ensures TallyOf(s + [x]) == Bump(TallyOf(s), x)
  {
    assert (s + [x])[..|s|] == s;
  }

  /** The tally's properties: each element of `s` once, in first
      occurrence order, and nothing else. */
  lemma {:induction false} TallyKeys(s: seq<string>)
    ensures NoDup(TallyOf(s).keys)
    ensures forall k :: k in TallyOf(s).keys <==> k in TallyOf(s).counts
    ensures forall k :: k in TallyOf(s).keys <==> k in s
    decreases |s|
  {
    if s != [] {
      var init, x := s[..|s| - 1], s[|s| - 1];
      TallyKeys(init);
      assert s == init + [x];
      var t := TallyOf(init);
      if x !in t.counts {
        var ks := t.keys + [x];
        forall i, j | 0 <= i < j < |ks| ensures ks[i] != ks[j] {
          if j == |ks| - 1 {
            assert ks[i] == t.keys[i];
          }
        }
      }
    }
  }

  /** Each property's value is the number of occurrences of its name. */
  lemma {:induction false} TallyCounts(s: seq<string>)
    ensures forall k :: k in TallyOf(s).counts ==> TallyOf(s).counts[k] == Occ(s, k)
    decreases |s|
  {
    if s != [] {
      var init, x := s[..|s| - 1], s[|s| - 1];
      TallyCounts(init);
      TallyKeys(init);
      if x !in TallyOf(init).counts {
        OccAbsent(init, x);
      }
    }
  }

  lemma {:induction false} OccAbsent(s: seq<string>, k: string)
    requires k !in s
    ensures Occ(s, k) == 0
    decreases |s|
  {
    if s != [] {
      var init := s[..|s| - 1];
      assert s == init + [s[|s| - 1]];
      OccAbsent(init, k);
    }
  }

  /** The values add up to the number of elements counted. */
  lemma {:induction false} TallySum(s: seq<string>)
    ensures SumBy(TallyOf(s).keys, k => Lookup(TallyOf(s).counts, k)) == |s|
    decreases |s|
  {
    if s != [] {
      var init, x := s[..|s| - 1], s[|s| - 1];
      TallySum(init);
      TallyKeys(init);
      var t := TallyOf(init);
      var f := (k: string) => Lookup(t.counts, k);
      var g := (k: string) => Lookup(TallyOf(s).counts, k);
      if x in t.counts {
        SumByBump(t.keys, f, g, x);
      } else {
        var ks := t.keys + [x];
        forall i | 0 <= i < |t.keys| ensures f(t.keys[i]) == g(t.keys[i]) {
          assert t.keys[i] in t.keys;
        }
        SumByAgree(t.keys, f, g);
        assert ks[..|ks| - 1] == t.keys;
      }
    }
  }

  lemma {:induction false} OccPositive(s: seq<string>, k: string)
    requires k in s
    ensures Occ(s, k) >= 1
    decreases |s|
  {
    var init := s[..|s| - 1];
    assert s == init + [s[|s| - 1]];
    if s[|s| - 1] != k {
      OccPositive(init, k);
    }
  }

  // ---------------------------------------------------------------------
  // Object.entries order: integer-like keys ascending, then the others in
  // creation order.

  predicate IsDigit(c: char) {
    '0' <= c <= '9'
  }

  function DigitsValue(k: string): nat
    requires forall i :: 0 <= i < |k| ==> IsDigit(k[i])
    decreases |k|
  {
    if k == [] then 0
    else
      assert IsDigit(k[|k| - 1]);
      10 * DigitsValue(k[..|k| - 1]) + (k[|k| - 1] as int - '0' as int)
  }

  /** A canonical array index, "0" to "4294967294": such a property name is
      listed before all others, in numeric order. */
  predicate IsIndexKey(k: string) {
    && k != ""
    && (forall i :: 0 <= i < |k| ==> IsDigit(k[i]))
    && (k == "0" || k[0] != '0')
    && DigitsValue(k) < 0xFFFF_FFFF
  }

  function IndexValue(k: string): int {
    if IsIndexKey(k) then DigitsValue(k) else 0
  }

  function IndexCmp(a: string, b: string): int {
    IndexValue(a) - IndexValue(b)
  }

  /** The order in which `Object.entries` lists the properties. */
  function OwnKeys(keys: seq<string>): seq<string> {
    SortBy(Filter(keys, IsIndexKey), IndexCmp) + Reject(keys, IsIndexKey)
  }

  lemma OwnKeysPermutes(keys: seq<string>)
    ensures multiset(OwnKeys(keys)) == multiset(keys)
  {
    SortByPermutes(Filter(keys, IsIndexKey), IndexCmp);
    FilterRejectPermutes(keys, IsIndexKey);
  }

  /** `[key, value]` pairs for the listed keys. */
  function EntriesOf(ks: seq<string>, m: map<string, int>): (r: seq<(string, int)>)
    ensures |r| == |ks|
    decreases |ks|
  {
    if ks == [] then [] else EntriesOf(ks[..|ks| - 1], m) + [(ks[|ks| - 1], Lookup(m, ks[|ks| - 1]))]
  }

  lemma {:induction false} EntriesOfFacts(ks: seq<string>, m: map<string, int>)
    ensures forall i :: 0 <= i < |ks| ==> EntriesOf(ks, m)[i] == (ks[i], Lookup(m, ks[i]))
    ensures SumBy(EntriesOf(ks, m), Count) == SumBy(ks, k => Lookup(m, k))
    decreases |ks|
  {
    if ks != [] {
      EntriesOfFacts(ks[..|ks| - 1], m);
    }
  }

  function Count(e: (string, int)): int {
    e.1
  }

  /** `(a, b) => b[1] - a[1]` */
  function ByCountDesc(a: (string, int), b: (string, int)): int {
    b.1 - a.1
  }

  /** `Object.entries(tally).sort((a, b) => b[1] - a[1])` after counting `s`. */
  function CountEntries(s: seq<string>): seq<(string, int)> {
    var t := TallyOf(s);
    SortBy(EntriesOf(OwnKeys(t.keys), t.counts), ByCountDesc)
  }

  /** The entries before sorting: the tally's properties in listing order,
      without repeats. */
  lemma UnsortedEntries(s: seq<string>)
    ensures var t := TallyOf(s);
      var es := EntriesOf(OwnKeys(t.keys), t.counts);
      && NoDup(es)
      && (forall i :: 0 <= i < |es| ==> es[i].0 in s && es[i].1 == Occ(s, es[i].0) >= 1)
      && (forall k :: k in s ==> exists i :: 0 <= i < |es| && es[i].0 == k)
      && SumBy(es, Count) == |s|
  {
    var t := TallyOf(s);
    var ks := OwnKeys(t.keys);
    var es := EntriesOf(ks, t.counts);
    TallyKeys(s);
    TallyCounts(s);
    TallySum(s);
    OwnKeysPermutes(t.keys);
    EntriesOfFacts(ks, t.counts);
    NoDupPermutation(t.keys, ks);
    forall a, b | 0 <= a < b < |es| ensures es[a] != es[b] {
      assert es[a].0 == ks[a] && es[b].0 == ks[b];
    }
    forall i | 0 <= i < |es| ensures es[i].0 in s && es[i].1 == Occ(s, es[i].0) >= 1 {
      assert ks[i] in multiset(t.keys);
      OccPositive(s, ks[i]);
    }
    forall k | k in s ensures exists i :: 0 <= i < |es| && es[i].0 == k {
      assert k in multiset(ks);
      var j :| 0 <= j < |ks| && ks[j] == k;
      assert es[j].0 == k;
    }
    SumByPermutation(t.keys, ks, k => Lookup(t.counts, k));
  }

  /** Reordering the entries keeps what each of them says. */
  lemma PermutedEntries(s: seq<string>, es: seq<(string, int)>, r: seq<(string, int)>)
    requires multiset(es) == multiset(r) && NoDup(es)
    requires forall i :: 0 <= i < |es| ==> es[i].0 in s && es[i].1 == Occ(s, es[i].0) >= 1
    requires forall k :: k in s ==> exists i :: 0 <= i < |es| && es[i].0 == k
    ensures forall i, j :: 0 <= i < j < |r| ==> r[i].0 != r[j].0
    ensures forall i :: 0 <= i < |r| ==> r[i].0 in s && r[i].1 == Occ(s, r[i].0) >= 1
    ensures forall k :: k in s ==> exists i :: 0 <= i < |r| && r[i].0 == k
  {
    NoDupPermutation(es, r);
    forall i | 0 <= i < |r| ensures r[i].0 in s && r[i].1 == Occ(s, r[i].0) >= 1 {
      assert r[i] in multiset(es);
    }
    forall i, j | 0 <= i < j < |r| ensures r[i].0 != r[j].0 {
      assert r[i] != r[j];
      assert r[i] in multiset(es) && r[j] in multiset(es);
    }
    forall k | k in s ensures exists i :: 0 <= i < |r| && r[i].0 == k {
      var j :| 0 <= j < |es| && es[j].0 == k;
      assert es[j] in multiset(r);
    }
  }

  /** The counted entries: each distinct element of `s` exactly once, with
      its number of occurrences (at least one), highest count first, the
      counts adding up to the length of `s`. */
  lemma CountEntriesSpec(s: seq<string>)
    ensures var r := CountEntries(s);
      && (forall i, j :: 0 <= i < j < |r| ==> r[i].0 != r[j].0)
      && (forall i :: 0 <= i < |r| ==> r[i].0 in s && r[i].1 == Occ(s, r[i].0) >= 1)
      && (forall k :: k in s ==> exists i :: 0 <= i < |r| && r[i].0 == k)
      && (forall i, j :: 0 <= i < j < |r| ==> r[i].1 >= r[j].1)
      && SumBy(r, Count) == |s|
  {
    var t := TallyOf(s);
    var es := EntriesOf(OwnKeys(t.keys), t.counts);
    assert CountEntries(s) == SortBy(es, ByCountDesc);
    UnsortedEntries(s);
    SortEntries(s, es);
  }

  /** Sorting the entries by count keeps what each says and orders them. */
  lemma SortEntries(s: seq<string>, es: seq<(string, int)>)
    requires NoDup(es)
    requires forall i :: 0 <= i < |es| ==> es[i].0 in s && es[i].1 == Occ(s, es[i].0) >= 1
    requires forall k :: k in s ==> exists i :: 0 <= i < |es| && es[i].0 == k
    requires SumBy(es, Count) == |s|
    ensures var r := SortBy(es, ByCountDesc);
      && (forall i, j :: 0 <= i < j < |r| ==> r[i].0 != r[j].0)
      && (forall i :: 0 <= i < |r| ==> r[i].0 in s && r[i].1 == Occ(s, r[i].0) >= 1)
      && (forall k :: k in s ==> exists i :: 0 <= i < |r| && r[i].0 == k)
      && (forall i, j :: 0 <= i < j < |r| ==> r[i].1 >= r[j].1)
      && SumBy(r, Count) == |s|
  {
    var r := SortBy(es, ByCountDesc);
    SortByPermutes(es, ByCountDesc);
    SortedByCount(es);
    PermutedEntries(s, es, r);
    SumByPermutation(es, r, Count);
  }

  lemma SortedByCount(es: seq<(string, int)>)
    ensures var r := SortBy(es, ByCountDesc);
      forall i, j :: 0 <= i < j < |r| ==> r[i].1 >= r[j].1
  {
    var r := SortBy(es, ByCountDesc);
    ByCountDescValid();
    SortBySorted(es, ByCountDesc);
    forall i, j | 0 <= i < j < |r| ensures r[i].1 >= r[j].1 {
      assert ByCountDesc(r[i], r[j]) <= 0;
    }
  }

  lemma ByCountDescValid()
    ensures ValidCmp(ByCountDesc)
  {
  }

  // ---------------------------------------------------------------------
  // The two tallies

  /** `b.category || "Other"` for every bookmark, in order. */
  function CategoryList(bs: seq<Bookmark>): (r: seq<string>)
    ensures |r| == |bs|
    ensures forall i :: 0 <= i < |bs| ==> r[i] == CategoryOrOther(bs[i])
  {
    seq(|bs|, i requires 0 <= i < |bs| => CategoryOrOther(bs[i]))
  }

  /** Every tag entry of every bookmark, in order. */
  function TagEntries(bs: seq<Bookmark>): seq<string>
    decreases |bs|
  {
    if bs == [] then [] else TagEntries(bs[..|bs| - 1]) + TagList(bs[|bs| - 1])
  }

  /** Counting into the object one element at a time. */
  method CountInto(keys: seq<string>, counts: map<string, int>, x: string)
    returns (keys': seq<string>, counts': map<string, int>)
    ensures Tally(keys', counts') == Bump(Tally(keys, counts), x)
  {
    keys', counts' := keys, counts;
    if x in counts {
      counts' := counts[x := counts[x] + 1];
    } else {
      keys' := keys + [x];
      counts' := counts[x := 1];
    }
  }

  /** `Object.entries(tally).sort(...)`: the entries in key order, sorted in
      place by count. */
  method SortedEntries(keys: seq<string>, counts: map<string, int>) returns (r: seq<(string, int)>)
    ensures r == SortBy(EntriesOf(OwnKeys(keys), counts), ByCountDesc)
  {
    var a := EntriesArray(OwnKeys(keys), counts);
    SortInPlace(a, ByCountDesc);
    r := a[..];
  }

  /** `Object.entries(tally)` as a new array. */
  method EntriesArray(ks: seq<string>, counts: map<string, int>) returns (a: array<(string, int)>)
    ensures fresh(a) && a[..] == EntriesOf(ks, counts)
  {
    EntriesOfFacts(ks, counts);
    a := new (string, int)[|ks|](i requires 0 <= i < |ks| => (ks[i], Lookup(counts, ks[i])));
    forall i | 0 <= i < |ks| ensures a[i] == EntriesOf(ks, counts)[i] {
    }
    assert a[..] == EntriesOf(ks, counts);
  }

  /** `computeCategories(bookmarks)` */
  method ComputeCategories(bs: seq<Bookmark>) returns (r: seq<(string, int)>)
    ensures r == CountEntries(CategoryList(bs))
  {
    var keys: seq<string> := [];
    var counts: map<string, int> := map[];
    for i := 0 to |bs|
      invariant Tally(keys, counts) == TallyOf(CategoryList(bs)[..i])
    {
      assert CategoryList(bs)[..i + 1] == CategoryList(bs)[..i] + [CategoryOrOther(bs[i])];
      TallyOfSnoc(CategoryList(bs)[..i], CategoryOrOther(bs[i]));
      keys, counts := CountInto(keys, counts, CategoryOrOther(bs[i]));
    }
    assert CategoryList(bs)[..|bs|] == CategoryList(bs);
    r := SortedEntries(keys, counts);
  }

  /** `computeTags(bookmarks)`: the inner loop walks each bookmark's tags. */
  method ComputeTags(bs: seq<Bookmark>) returns (r: seq<(string, int)>)
    ensures r == CountEntries(TagEntries(bs))
  {
    var keys: seq<string> := [];
    var counts: map<string, int> := map[];
    for i := 0 to |bs|
      invariant Tally(keys, counts) == TallyOf(TagEntries(bs[..i]))
    {
      var tags := TagList(bs[i]);
      assert TagEntries(bs[..i]) + tags[..0] == TagEntries(bs[..i]);
      for j := 0 to |tags|
        invariant Tally(keys, counts) == TallyOf(TagEntries(bs[..i]) + tags[..j])
      {
        assert TagEntries(bs[..i]) + tags[..j + 1] == TagEntries(bs[..i]) + tags[..j] + [tags[j]];
        TallyOfSnoc(TagEntries(bs[..i]) + tags[..j], tags[j]);
        keys, counts := CountInto(keys, counts, tags[j]);
      }
      assert bs[..i + 1][..i] == bs[..i];
      assert tags[..|tags|] == tags;
      assert TagEntries(bs[..i + 1]) == TagEntries(bs[..i]) + tags;
    }
    assert bs[..|bs|] == bs;
    r := SortedEntries(keys, counts);
  }

  /** Category counts cover every bookmark once: a missing or empty category
      is counted as "Other". */
  lemma CategoryCountsSum(bs: seq<Bookmark>)
    ensures SumBy(CountEntries(CategoryList(bs)), Count) == |bs|
    ensures forall i :: 0 <= i < |bs| ==>
      exists j :: 0 <= j < |CountEntries(CategoryList(bs))| && CountEntries(CategoryList(bs))[j].0 == CategoryOrOther(bs[i])
  {
    CountEntriesSpec(CategoryList(bs));
    forall i | 0 <= i < |bs|
      ensures exists j :: 0 <= j < |CountEntries(CategoryList(bs))| && CountEntries(CategoryList(bs))[j].0 == CategoryOrOther(bs[i])
    {
      assert CategoryList(bs)[i] in CategoryList(bs);
    }
  }

  /** The sum of the tag counts is the total number of tag entries. */
  lemma {:induction false} TagEntriesLength(bs: seq<Bookmark>)
    ensures |TagEntries(bs)| == SumBy(bs, b => |TagList(b)|)
    decreases |bs|
  {
    if bs != [] {
      TagEntriesLength(bs[..|bs| - 1]);
    }
  }

  lemma TagCountsSum(bs: seq<Bookmark>)
    ensures SumBy(CountEntries(TagEntries(bs)), Count) == SumBy(bs, b => |TagList(b)|)
  {
    CountEntriesSpec(TagEntries(bs));
    TagEntriesLength(bs);
  }
}
