/** `HFUploader.update_dataset_readme`: decide from the downloaded README
    whether to regenerate it, and if so build the dataset card (a statistics
    table and one sample table per split) and re-wrap the original YAML front
    matter around it. Downloading, uploading, YAML parsing and dataset loading
    are outside this module: the README text, the parsed
    `dataset_info.splits` and the sampled records come in as arguments. */
module Readme {
  import opened Results
  import opened Text
  import opened Format
  import opened OrderedDict
  import opened SplitStats
  import opened Table

  /** How a call ends. */
  datatype Outcome =
    | NoMetadata            // no `---` in the README: logged, nothing uploaded
    | AlreadyPopulated      // the body after the front matter is long: logged, nothing uploaded
    | Failed(error: Error)  // an exception propagates, nothing uploaded
    | Written(readme: string) // the new README that is written and uploaded

  /** A body longer than this counts as existing content. */
  const MaxBodyLength: nat := 10

  /** The start of the card's first line; it contains no `-`. */
  const CardHeading: string := "\n# Dataset Card for "

  /** The heading of the card and the head of the statistics table. */
  function StatsHeader(repoId: string): string
  {
    CardHeading + repoId + "\n\n## Dataset Statistics\n\n" +
    "| Split | # Examples | Size (bytes) |\n|-------|------------|--------------|\n"
  }

  /** One statistics row. */
  function StatsRow(name: string, c: Counts): string
  {
    "| " + Capitalize(name) + " | " + Grouped(c.numExamples) + " | " + Grouped(c.numBytes) + " |\n"
  }

  /** One statistics row per name, in order. */
  function StatsRowList(names: seq<string>, vals: map<string, Counts>): (r: seq<string>)
    requires forall n :: n in names ==> n in vals
    ensures |r| == |names|
  {
    seq(|names|, k requires 0 <= k < |names| => StatsRow(names[k], vals[names[k]]))
  }

  /** The statistics rows, one per name, written one after the other. */
  function StatsRows(names: seq<string>, vals: map<string, Counts>): string
    requires forall n :: n in names ==> n in vals
  {
    Concat(StatsRowList(names, vals))
  }

  const StructureHeading: string := "\n## Dataset Structure\n"

  /** The part of the card for one split's sample. */
  function SampleSection(name: string, table: string): string
  {
    "\n### " + Capitalize(name) + " Sample\n" + table + "\n"
  }

  /** The key under which a split's sample is kept in `sample_data`. */
  function SampleKey(name: string): string
  {
    name + "_sample"
  }

  lemma SampleKeyInjective(a: string, b: string)
    requires SampleKey(a) == SampleKey(b)
    ensures a == b
  {
    assert |a| == |b|;
    assert a == SampleKey(a)[..|a|];
  }

  /** The `sample_data` loop: each split name looked up in the loaded dataset;
      the first name the dataset lacks raises KeyError. */
  function Sampling(names: seq<string>, dataset: map<string, Sample>): Result<map<string, Sample>>
    decreases |names|
  {
    if names == [] then Ok(map[])
    else
      match Sampling(names[..|names| - 1], dataset)
      case Err(e) => Err(e)
      case Ok(m) =>
        var n := names[|names| - 1];
        if n !in dataset then Err(KeyError(n)) else Ok(m[SampleKey(n) := dataset[n]])
  }

  /** The sampling succeeds exactly when the dataset has every split, and then
      it keeps each split's sample under the split's key; a KeyError names a
      split the dataset lacks. */
  lemma {:induction false} SamplingCorrect(names: seq<string>, dataset: map<string, Sample>)
    ensures Sampling(names, dataset).Ok? <==> forall n :: n in names ==> n in dataset
    ensures Sampling(names, dataset).Ok? ==>
              forall n :: n in names ==>
                SampleKey(n) in Sampling(names, dataset).value &&
                Sampling(names, dataset).value[SampleKey(n)] == dataset[n]
    ensures Sampling(names, dataset).Err? ==>
              (Sampling(names, dataset).error.KeyError? &&
               Sampling(names, dataset).error.key in names &&
               Sampling(names, dataset).error.key !in dataset)
    decreases |names|
  {
    if names != [] {
      var prefix := names[..|names| - 1];
      var n := names[|names| - 1];
      assert names == prefix + [n];
      SamplingCorrect(prefix, dataset);
      if Sampling(prefix, dataset).Ok? && n in dataset {
        forall m | m in names && m != n ensures SampleKey(m) != SampleKey(n) {
          if SampleKey(m) == SampleKey(n) { SampleKeyInjective(m, n); }
        }
      }
    }
  }

  /** The sample sections of the card, one per split in order; the first
      table that fails decides the error. */
  function Sections(names: seq<string>, samples: map<string, Sample>): Result<string>
    requires forall n :: n in names ==> SampleKey(n) in samples
    decreases |names|
  {
    if names == [] then Ok("")
    else
      match Sections(names[..|names| - 1], samples)
      case Err(e) => Err(e)
      case Ok(text) =>
        var n := names[|names| - 1];
        match RenderTable(samples[SampleKey(n)])
        case Err(e) => Err(e)
        case Ok(table) => Ok(text + SampleSection(n, table))
  }

  /** What `model_card_content` ends up holding. */
  function Body(repoId: string, stats: Dict<Counts>, samples: map<string, Sample>): Result<string>
    requires forall n :: n in stats.keys ==> n in stats.vals && SampleKey(n) in samples
  {
    match Sections(stats.keys, samples)
    case Err(e) => Err(e)
    case Ok(sections) => Ok(StatsHeader(repoId) + StatsRows(stats.keys, stats.vals) + StructureHeading + sections)
  }

  /** The text written to README.md: the original front matter between two
      delimiter lines, then the card. */
  function Wrap(yaml: string, body: string): string
  {
    "---\n" + yaml + "\n---\n" + body
  }

  /** The dataset card generated from the parsed splits and the loaded
      dataset, or the KeyError raised while sampling or rendering it. */
  function Card(repoId: string, splits: seq<SplitInfo>, dataset: map<string, Sample>): Result<string>
  {
    var stats := SplitStatsOf(splits);
    match Sampling(stats.keys, dataset)
    case Err(e) => Err(e)
    case Ok(samples) =>
      SamplingCorrect(stats.keys, dataset);
      Body(repoId, stats, samples)
  }

  /** What one call of `update_dataset_readme` does with the README text
      `readme`, given the parsed `dataset_info.splits` of its front matter and
      the loaded dataset's samples. */
  function Synthesis(repoId: string, readme: string, splits: seq<SplitInfo>,
                     dataset: map<string, Sample>): Outcome
  {
    if !Contains(readme) then NoMetadata
    else
      var segs := Segments(readme);
      if |segs| < 3 then Failed(IndexError)
      else if |segs[2]| > MaxBodyLength then AlreadyPopulated
      else
        match Card(repoId, splits, dataset)
        case Err(e) => Failed(e)
        case Ok(body) => Written(Wrap(segs[1], body))
  }

  // ---------------------------------------------------------------------
  // The code: the two sampling and rendering loops and the whole call.
  // ---------------------------------------------------------------------

  /** The loop filling `sample_data`. */
  method SampleSplits(names: seq<string>, dataset: map<string, Sample>)
    returns (r: Result<map<string, Sample>>)
    ensures r == Sampling(names, dataset)
  {
    var sampleData: map<string, Sample> := map[];
    var i := 0;
    assert names[..0] == [];
    while i < |names|
      invariant 0 <= i <= |names|
      invariant Sampling(names[..i], dataset) == Ok(sampleData)
    {
      var name := names[i];
      assert names[..i + 1][..i] == names[..i];
      if name !in dataset {
        SamplingErrPersists(names, dataset, i + 1);
        return Err(KeyError(name));
      }
      sampleData := sampleData[SampleKey(name) := dataset[name]];
      i := i + 1;
    }
    assert names[..i] == names;
    return Ok(sampleData);
  }

  lemma {:induction false} SamplingErrPersists(names: seq<string>, dataset: map<string, Sample>, i: nat)
    requires i <= |names|
    requires Sampling(names[..i], dataset).Err?
    ensures Sampling(names, dataset) == Sampling(names[..i], dataset)
    decreases |names| - i
  {
    if i < |names| {
      assert names[..i + 1][..i] == names[..i];
      SamplingErrPersists(names, dataset, i + 1);
    } else {
      assert names[..i] == names;
    }
  }

  lemma {:induction false} SectionsErrPersists(names: seq<string>, samples: map<string, Sample>, i: nat)
    requires i <= |names|
    requires forall n :: n in names ==> SampleKey(n) in samples
    requires Sections(names[..i], samples).Err?
    ensures Sections(names, samples) == Sections(names[..i], samples)
    decreases |names| - i
  {
    if i < |names| {
      assert names[..i + 1][..i] == names[..i];
      SectionsErrPersists(names, samples, i + 1);
    } else {
      assert names[..i] == names;
    }
  }

  /** One more name adds its row to the statistics rows. */
  lemma StatsRowsSnoc(names: seq<string>, vals: map<string, Counts>, i: nat)
    requires i < |names|
    requires forall n :: n in names ==> n in vals
    ensures StatsRows(names[..i + 1], vals) == StatsRows(names[..i], vals) + StatsRow(names[i], vals[names[i]])
  {
    var longer := StatsRowList(names[..i + 1], vals);
    var shorter := StatsRowList(names[..i], vals);
    assert longer[..i] == shorter by {
      forall k | 0 <= k < i ensures longer[k] == shorter[k] {
        assert names[..i + 1][k] == names[..i][k];
      }
    }
    assert longer[i] == StatsRow(names[i], vals[names[i]]);
  }

  /** The first loop appending to `model_card_content`: one statistics row
      per split. */
  method RenderStatistics(names: seq<string>, vals: map<string, Counts>) returns (rows: string)
    requires forall n :: n in names ==> n in vals
    ensures rows == StatsRows(names, vals)
  {
    rows := "";
    var i := 0;
    assert names[..0] == [];
    while i < |names|
      invariant 0 <= i <= |names|
      invariant rows == StatsRows(names[..i], vals)
    {
      var name := names[i];
      var row := StatsRow(name, vals[name]);
      StatsRowsSnoc(names, vals, i);
      rows := rows + row;
      i := i + 1;
    }
    assert names[..i] == names;
  }

  /** The second loop appending to `model_card_content`: one sample section
      per split, each holding the table `generate_table` renders. */
  method RenderSections(names: seq<string>, samples: map<string, Sample>) returns (r: Result<string>)
    requires forall n :: n in names ==> SampleKey(n) in samples
    ensures r == Sections(names, samples)
  {
    var sections := "";
    var i := 0;
    assert names[..0] == [];
    while i < |names|
      invariant 0 <= i <= |names|
      invariant Sections(names[..i], samples) == Ok(sections)
    {
      var name := names[i];
      assert names[..i + 1][..i] == names[..i];
      var table := GenerateTable(samples[SampleKey(name)]);
      if table.Err? {
        SectionsErrPersists(names, samples, i + 1);
        return Err(table.error);
      }
      sections := sections + SampleSection(name, table.value);
      i := i + 1;
    }
    assert names[..i] == names;
    return Ok(sections);
  }

  /** `model_card_content`: the card heading and statistics table, the
      structure heading, then the sample sections. */
  method RenderBody(repoId: string, stats: Dict<Counts>, samples: map<string, Sample>)
    returns (r: Result<string>)
    requires forall n :: n in stats.keys ==> n in stats.vals && SampleKey(n) in samples
    ensures r == Body(repoId, stats, samples)
  {
    var content := StatsHeader(repoId);
    var rows := RenderStatistics(stats.keys, stats.vals);
    content := content + rows + StructureHeading;
    var sections := RenderSections(stats.keys, samples);
    if sections.Err? {
      return Err(sections.error);
    }
    return Ok(content + sections.value);
  }

  /** `update_dataset_readme` on an already downloaded README: the result says
      whether it was skipped, raised, or what it wrote. */
  method UpdateDatasetReadme(repoId: string, readme: string, splits: seq<SplitInfo>,
                             dataset: map<string, Sample>)
    returns (o: Outcome)
    ensures o == Synthesis(repoId, readme, splits, dataset)
  {
    if !Contains(readme) {
      return NoMetadata;
    }
    var segs := Segments(readme);
    if |segs| < 3 {
      return Failed(IndexError);
    }
    if |segs[2]| > MaxBodyLength {
      return AlreadyPopulated;
    }
    var yaml := segs[1];
    var stats := BuildSplitStats(splits);
    var samples := SampleSplits(stats.keys, dataset);
    if samples.Err? {
      return Failed(samples.error);
    }
    SamplingCorrect(stats.keys, dataset);
    var body := RenderBody(repoId, stats, samples.value);
    if body.Err? {
      return Failed(body.error);
    }
    return Written(Wrap(yaml, body.value));
  }

  // ---------------------------------------------------------------------
  // Properties.
  // ---------------------------------------------------------------------

  /** Rendering a sample section fails only with a KeyError. */
  lemma {:induction false} SectionsErrors(names: seq<string>, samples: map<string, Sample>)
    requires forall n :: n in names ==> SampleKey(n) in samples
    ensures Sections(names, samples).Err? ==> Sections(names, samples).error.KeyError?
    decreases |names|
  {
    if names != [] {
      var n := names[|names| - 1];
      SectionsErrors(names[..|names| - 1], samples);
      var data := samples[SampleKey(n)];
      DataRowsOk(data.columns, data.rows);
    }
  }

  /** The only exception the card can raise is a KeyError. */
  lemma CardErrors(repoId: string, splits: seq<SplitInfo>, dataset: map<string, Sample>)
    ensures Card(repoId, splits, dataset).Err? ==> Card(repoId, splits, dataset).error.KeyError?
  {
    var stats := SplitStatsOf(splits);
    SamplingCorrect(stats.keys, dataset);
    if Sampling(stats.keys, dataset).Ok? {
      SectionsErrors(stats.keys, Sampling(stats.keys, dataset).value);
    }
  }

  /** The card opens with the heading, the statistics table of the splits and
      the structure heading. */
  lemma CardStartsWith(repoId: string, splits: seq<SplitInfo>, dataset: map<string, Sample>)
    requires Card(repoId, splits, dataset).Ok?
    ensures var stats := SplitStatsOf(splits);
      StatsHeader(repoId) + StatsRows(stats.keys, stats.vals) + StructureHeading
        <= Card(repoId, splits, dataset).value
  {
    var stats := SplitStatsOf(splits);
    SamplingCorrect(stats.keys, dataset);
    var samples := Sampling(stats.keys, dataset).value;
    var sections := Sections(stats.keys, samples).value;
    var head := StatsHeader(repoId) + StatsRows(stats.keys, stats.vals) + StructureHeading;
    assert Card(repoId, splits, dataset).value == head + sections;
  }

  /** The skip guard. With no delimiter the call returns without writing;
      with exactly one, taking the third piece raises IndexError (and nothing
      else raises IndexError); with two or more, a third piece longer than ten
      characters skips the update. */
  lemma SkipGuard(repoId: string, readme: string, splits: seq<SplitInfo>, dataset: map<string, Sample>)
    ensures Synthesis(repoId, readme, splits, dataset) == NoMetadata <==> Occurrences(readme) == 0
    ensures Synthesis(repoId, readme, splits, dataset) == Failed(IndexError) <==> Occurrences(readme) == 1
    ensures Synthesis(repoId, readme, splits, dataset) == AlreadyPopulated <==>
              Occurrences(readme) >= 2 && |Segments(readme)[2]| > MaxBodyLength
  {
    ContainsOccurrences(readme);
    SegmentsCount(readme);
    CardErrors(repoId, splits, dataset);
  }

  /** The README that is written: the original front matter (the second piece
      of the old text, unchanged) between `---` lines, then the card heading,
      the statistics table with one row per split and the structure heading. */
  lemma WrittenReadme(repoId: string, readme: string, splits: seq<SplitInfo>, dataset: map<string, Sample>)
    requires Synthesis(repoId, readme, splits, dataset).Written?
    ensures Occurrences(readme) >= 2 && |Segments(readme)[2]| <= MaxBodyLength
    ensures Card(repoId, splits, dataset).Ok?
    ensures Synthesis(repoId, readme, splits, dataset).readme ==
              "---\n" + Segments(readme)[1] + "\n---\n" + Card(repoId, splits, dataset).value
    ensures var stats := SplitStatsOf(splits);
      StatsHeader(repoId) + StatsRows(stats.keys, stats.vals) + StructureHeading
        <= Card(repoId, splits, dataset).value
  {
    ContainsOccurrences(readme);
    SegmentsCount(readme);
    CardStartsWith(repoId, splits, dataset);
  }

  /** A statistics row for a name without newlines is a single line. */
  lemma StatsRowLine(name: string, c: Counts)
    requires '\n' !in name
    ensures IsLine(StatsRow(name, c))
  {
    var body := "| " + Capitalize(name) + " | " + Grouped(c.numExamples) + " | " + Grouped(c.numBytes) + " |";
    CapitalizeNoNewline(name);
    GroupedNoNewline(c.numExamples);
    GroupedNoNewline(c.numBytes);
    assert '\n' !in body;
    assert StatsRow(name, c) == body + "\n";
    assert StatsRow(name, c)[..|StatsRow(name, c)| - 1] == body;
  }

  /** The statistics rows are lines of their own: one per entry of `names`,
      in order, as long as no name holds a newline. */
  lemma StatsRowsLines(names: seq<string>, vals: map<string, Counts>)
    requires forall n :: n in names ==> n in vals
    requires forall k :: 0 <= k < |names| ==> '\n' !in names[k]
    ensures |Lines(StatsRows(names, vals))| == |names|
    ensures forall k :: 0 <= k < |names| ==> Lines(StatsRows(names, vals))[k] == StatsRow(names[k], vals[names[k]])
  {
    var rows := StatsRowList(names, vals);
    forall k | 0 <= k < |rows| ensures IsLine(rows[k]) {
      StatsRowLine(names[k], vals[names[k]]);
    }
    LinesConcat(rows);
  }

  /** The statistics table has one row per distinct split name, in the order
      the names first appear in `dataset_info.splits`; a repeated name shows
      the counts of its last entry. */
  lemma StatisticsTable(splits: seq<SplitInfo>)
    requires forall i :: 0 <= i < |splits| ==> '\n' !in splits[i].name
    ensures var stats := SplitStatsOf(splits);
      var rows := Lines(StatsRows(stats.keys, stats.vals));
      var names := FirstAppearance(splits);
      |rows| == |names| &&
      forall k :: 0 <= k < |names| ==>
        Named(splits, names[k]) &&
        rows[k] == StatsRow(names[k], CountsOf(splits[LastIndex(splits, names[k])]))
  {
    var stats := SplitStatsOf(splits);
    FirstAppearanceCorrect(splits);
    forall k | 0 <= k < |stats.keys| ensures '\n' !in stats.keys[k] {
      assert Named(splits, stats.keys[k]);
    }
    StatsRowsLines(stats.keys, stats.vals);
  }

  /** The line break before the card heading and the heading hold no `-`. */
  lemma HeadingNoDash()
    ensures '-' !in "\n" + CardHeading
  {
  }

  /** The wrapped text as delimiters and the pieces between them. */
  lemma WrapShape(yaml: string, body: string)
    ensures Wrap(yaml, body) == Delim + (("\n" + yaml + "\n") + Delim + ("\n" + body))
  {
    assert "---\n" == Delim + "\n" && "\n---\n" == "\n" + Delim + "\n";
  }

  /** A card starting with the heading, after a line break. */
  lemma HeadingSplit(body: string)
    requires CardHeading <= body
    ensures "\n" + body == ("\n" + CardHeading) + body[|CardHeading|..]
  {
    assert body == CardHeading + body[|CardHeading|..];
  }

  /** Re-splitting a wrapped card: the delimiter is present, the second
      piece is the front matter padded by newlines and the third piece is
      longer than the skip threshold. */
  lemma WrapSegments(yaml: string, body: string)
    requires !Contains(yaml)
    requires CardHeading <= body
    ensures Contains(Wrap(yaml, body))
    ensures |Segments(Wrap(yaml, body))| >= 3
    ensures Segments(Wrap(yaml, body))[1] == "\n" + yaml + "\n"
    ensures |Segments(Wrap(yaml, body))[2]| > MaxBodyLength
  {
    var out := Wrap(yaml, body);
    var start := "\n" + CardHeading;
    var rest := body[|CardHeading|..];
    var p := "\n" + yaml + "\n";
    var q := "\n" + body;
    HeadingSplit(body);
    WrapShape(yaml, body);
    ContainsCons('\n', yaml);
    ContainsSnoc("\n" + yaml, '\n');
    SegmentsAt(p, q);
    SegmentsAfterDelim(p + Delim + q);
    HeadingNoDash();
    SegmentsNoDash(start, rest);
    assert Segments(out) == [""] + ([p] + Segments(q));
    assert out[..3] == Delim;
    assert |Segments(out)[2]| >= |start|;
  }

  /** Regenerating is idempotent: a README this call wrote is left alone by
      the next call, whatever that call's repository, metadata and data, and
      re-splitting it gives back the old front matter padded by newlines. */
  lemma Idempotent(repoId: string, readme: string, splits: seq<SplitInfo>, dataset: map<string, Sample>,
                   repoId': string, splits': seq<SplitInfo>, dataset': map<string, Sample>)
    requires Synthesis(repoId, readme, splits, dataset).Written?
    ensures var out := Synthesis(repoId, readme, splits, dataset).readme;
      |Segments(out)| >= 3 && Segments(out)[1] == "\n" + Segments(readme)[1] + "\n"
    ensures Synthesis(repoId', Synthesis(repoId, readme, splits, dataset).readme, splits', dataset')
              == AlreadyPopulated
  {
    WrittenReadme(repoId, readme, splits, dataset);
    SegmentsFree(readme);
    var body := Card(repoId, splits, dataset).value;
    assert CardHeading <= body;
    WrapSegments(Segments(readme)[1], body);
  }
}
