/** The `split_stats` dictionary of `update_dataset_readme`: one entry per split
    name listed under `dataset_info.splits` in the README's front matter,
    holding that split's example and byte counts. */
module SplitStats {
  import opened OrderedDict

  /** One entry of `dataset_info.splits`, as the YAML parser hands it over. */
  datatype SplitInfo = SplitInfo(name: string, numExamples: int, numBytes: int)

  /** The value stored in `split_stats` for a split name. */
  datatype Counts = Counts(numExamples: int, numBytes: int)

  function CountsOf(s: SplitInfo): Counts
  {
    Counts(s.numExamples, s.numBytes)
  }

  /** Some entry of `splits` carries the name `n`. */
  predicate Named(splits: seq<SplitInfo>, n: string)
  {
    exists i :: 0 <= i < |splits| && splits[i].name == n
  }

  lemma NamedSnoc(splits: seq<SplitInfo>, x: SplitInfo, n: string)
    ensures Named(splits + [x], n) <==> Named(splits, n) || x.name == n
  {
    var s := splits + [x];
    if Named(s, n) && x.name != n {
      var i :| 0 <= i < |s| && s[i].name == n;
      assert i < |splits| && splits[i].name == n;
    }
    if Named(splits, n) {
      var i :| 0 <= i < |splits| && splits[i].name == n;
      assert s[i].name == n;
    }
    assert s[|splits|] == x;
  }

  /** The distinct split names, each where it first appears in `splits`. */
  function FirstAppearance(splits: seq<SplitInfo>): seq<string>
    decreases |splits|
  {
    if splits == [] then []
    else
      var prev := FirstAppearance(splits[..|splits| - 1]);
      var n := splits[|splits| - 1].name;
      if n in prev then prev else prev + [n]
  }

  /** The position of the first entry named `n`. */
  function FirstIndex(splits: seq<SplitInfo>, n: string): (i: nat)
    requires Named(splits, n)
    ensures i < |splits| && splits[i].name == n
    ensures forall j :: 0 <= j < i ==> splits[j].name != n
    decreases |splits|
  {
    var prefix := splits[..|splits| - 1];
    NamedSnoc(prefix, splits[|splits| - 1], n);
    assert splits == prefix + [splits[|splits| - 1]];
    if Named(prefix, n) then FirstIndex(prefix, n) else |splits| - 1
  }

  /** The position of the last entry named `n`. */
  function LastIndex(splits: seq<SplitInfo>, n: string): (i: nat)
    requires Named(splits, n)
    ensures i < |splits| && splits[i].name == n
    ensures forall j :: i < j < |splits| ==> splits[j].name != n
    decreases |splits|
  {
    var prefix := splits[..|splits| - 1];
    NamedSnoc(prefix, splits[|splits| - 1], n);
    assert splits == prefix + [splits[|splits| - 1]];
    if splits[|splits| - 1].name == n then |splits| - 1 else LastIndex(prefix, n)
  }

  /** FirstAppearance holds each name of `splits` exactly once and nothing
      else, ordered by where the names first appear. */
  lemma {:induction false} FirstAppearanceCorrect(splits: seq<SplitInfo>)
    ensures forall a, b :: 0 <= a < b < |FirstAppearance(splits)| ==>
              FirstAppearance(splits)[a] != FirstAppearance(splits)[b]
    ensures forall n :: n in FirstAppearance(splits) <==> Named(splits, n)
    ensures forall a, b :: 0 <= a < b < |FirstAppearance(splits)| ==>
              FirstIndex(splits, FirstAppearance(splits)[a]) < FirstIndex(splits, FirstAppearance(splits)[b])
    decreases |splits|
  {
    if splits != [] {
      var prefix := splits[..|splits| - 1];
      var x := splits[|splits| - 1];
      assert splits == prefix + [x];
      FirstAppearanceCorrect(prefix);
      var prev := FirstAppearance(prefix);
      var r := FirstAppearance(splits);
      forall n ensures n in r <==> Named(splits, n) {
        NamedSnoc(prefix, x, n);
      }
      forall n | Named(prefix, n) ensures FirstIndex(splits, n) == FirstIndex(prefix, n) {
        NamedSnoc(prefix, x, n);
      }
      forall a, b | 0 <= a < b < |r| ensures FirstIndex(splits, r[a]) < FirstIndex(splits, r[b]) {
        assert Named(prefix, r[a]);
        if b < |prev| {
          assert r[b] == prev[b];
        } else {
          assert r[b] == x.name && !Named(prefix, x.name);
          NamedSnoc(prefix, x, x.name);
        }
      }
    }
  }

  /** What `split_stats` holds after the loop over `splits`: every name in
      first-appearance order, each with the counts of its LAST entry. */
  function SplitStatsOf(splits: seq<SplitInfo>): (d: Dict<Counts>)
  {
    FirstAppearanceCorrect(splits);
    Dict(FirstAppearance(splits),
         map n | n in FirstAppearance(splits) :: CountsOf(splits[LastIndex(splits, n)]))
  }

  /** `stats` holds what the loop has stored after the entries `splits`:
      the names in first-appearance order, each with its last entry's counts. */
  ghost predicate Summarises(stats: Dict<Counts>, splits: seq<SplitInfo>)
  {
    stats.Valid() &&
    stats.keys == FirstAppearance(splits) &&
    (forall n :: n in stats.vals <==> Named(splits, n)) &&
    (forall n :: n in stats.vals ==> stats.vals[n] == CountsOf(splits[LastIndex(splits, n)]))
  }

  /** Storing one more entry's counts under its name keeps the summary. */
  lemma SummarisesSnoc(stats: Dict<Counts>, splits: seq<SplitInfo>, x: SplitInfo)
    requires Summarises(stats, splits)
    ensures Summarises(stats.Put(x.name, CountsOf(x)), splits + [x])
  {
    var s := splits + [x];
    assert s[..|s| - 1] == splits && s[|s| - 1] == x;
    forall n { NamedSnoc(splits, x, n); }
    var t := stats.Put(x.name, CountsOf(x));
    forall n | n in t.vals ensures t.vals[n] == CountsOf(s[LastIndex(s, n)]) {
      if n != x.name {
        assert LastIndex(s, n) == LastIndex(splits, n);
      }
    }
  }

  /** The summary of all the entries is SplitStatsOf. */
  lemma SummarisesAll(stats: Dict<Counts>, splits: seq<SplitInfo>)
    requires Summarises(stats, splits)
    ensures stats == SplitStatsOf(splits)
  {
    FirstAppearanceCorrect(splits);
    var d := SplitStatsOf(splits);
    assert stats.vals == d.vals;
  }

  /** The loop filling `split_stats`: `split_stats[name] = {counts}` per entry. */
  method BuildSplitStats(splits: seq<SplitInfo>) returns (stats: Dict<Counts>)
    ensures stats.Valid()
    ensures stats.keys == FirstAppearance(splits)
    ensures forall n :: n in stats.vals <==> Named(splits, n)
    ensures forall n :: n in stats.vals ==> stats.vals[n] == CountsOf(splits[LastIndex(splits, n)])
    ensures stats == SplitStatsOf(splits)
  {
    stats := Empty();
    var i := 0;
    assert splits[..0] == [];
    while i < |splits|
      invariant 0 <= i <= |splits|
      invariant Summarises(stats, splits[..i])
    {
      var split := splits[i];
      assert splits[..i + 1] == splits[..i] + [split];
      SummarisesSnoc(stats, splits[..i], split);
      stats := stats.Put(split.name, Counts(split.numExamples, split.numBytes));
      i := i + 1;
    }
    assert splits[..i] == splits;
    SummarisesAll(stats, splits);
  }
}
