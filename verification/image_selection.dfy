/** How Tasmotizer chooses the image to flash (tasmotizer.py): feed entries
    from the release and development feeds become combo-box items whose data
    is `"<otaurl>;<file name>"`; the flashing dialog splits that string back
    into the download URL and the local file name; a local file is used only
    when one was picked; download progress is integer arithmetic on the byte
    counts. JSON parsing and the downloads themselves are not modelled: the
    parsed feed records and the byte counts are inputs. */
module ImageSelection {
  import opened Strings

  /** One image record of a feed (`binary`, `otaurl`, `filesize`, and for the
      development feed `version` and `commit`). */
  datatype FeedImage = FeedImage(binary: string, otaurl: string, filesize: int, version: string, commit: string)

  /** A combo-box entry: the text shown and the data kept with it. */
  datatype ComboItem = ComboItem(text: string, data: string)

  /** The image combo box: its entries and whether it is enabled. */
  datatype Combo = Combo(items: seq<ComboItem>, enabled: bool)

  /** Size shown in the label: `filesize // 1024`, Python floor division. */
  function SizeKb(filesize: int): (kb: int)
    ensures kb * 1024 <= filesize < kb * 1024 + 1024
  {
    filesize / 1024
  }

  /** The data string kept with a combo entry. */
  function DataString(url: string, file: string): string {
    url + ";" + file
  }

  /** `data.split(";")[0]` and `data.split(";")[1]`; `None` where indexing
      `[1]` would raise because the data has no `;`. */
  function SplitData(data: string): (r: Option<(string, string)>)
    ensures r.Some? <==> ';' in data
    ensures r.Some? ==> ';' !in r.value.0 && ';' !in r.value.1
  {
    var parts := Split(data, ';');
    JoinSplit(data, ';');
    if |parts| >= 2 then Some((parts[0], parts[1]))
    else
      SplitWithoutSeparatorIsSingle(data);
      None
  }

  lemma SplitWithoutSeparatorIsSingle(data: string)
    ensures |Split(data, ';')| < 2 ==> ';' !in data
  {
    JoinSplit(data, ';');
  }

  /** The data string splits back into the URL it was made from, provided the
      URL has no `;`; the second part is the file name up to its first `;`. */
  lemma DataStringSplitsBack(url: string, file: string)
    requires ';' !in url
    ensures SplitData(DataString(url, file)) == Some((url, Split(file, ';')[0]))
    ensures ';' !in file ==> SplitData(DataString(url, file)) == Some((url, file))
  {
    assert DataString(url, file) == url + [';'] + file;
    SplitAtFirst(url, ';', file);
    if ';' !in file {
      SplitWithoutSeparator(file, ';');
    }
  }

  /** Release feed entry: `"{binary} [{filesize}kB]"` with data `"{otaurl};{binary}"`. */
  function ReleaseItem(img: FeedImage): ComboItem {
    ComboItem(img.binary + " [" + IntToString(SizeKb(img.filesize)) + "kB]", DataString(img.otaurl, img.binary))
  }

  const ReleaseStripChars: set<char> := {'r', 'e', 'l', 'a', 's', '-'}

  /** Radio button text: `"Release " + version.lstrip("release-")`, a character-set strip. */
  function ReleaseLabel(version: string): string {
    "Release " + LStrip(version, ReleaseStripChars)
  }

  /** A `release-` tag followed by a version number loses exactly the tag. */
  lemma ReleaseLabelDropsTag(number: string)
    requires |number| == 0 || number[0] !in ReleaseStripChars
    ensures ReleaseLabel("release-" + number) == "Release " + number
  {
    LStripExactHead("release-", number, ReleaseStripChars);
  }

  /** ... but letters of the set that follow the tag go too, not just the
      tag: `release-alpha` becomes `Release pha`. */
  lemma ReleaseLabelStripsCharacters(extra: string, rest: string)
    requires forall i :: 0 <= i < |extra| ==> extra[i] in ReleaseStripChars
    requires |rest| == 0 || rest[0] !in ReleaseStripChars
    ensures ReleaseLabel("release-" + extra + rest) == "Release " + rest
  {
    var head := "release-" + extra;
    assert forall i :: 0 <= i < |head| ==> head[i] in ReleaseStripChars by {
      forall i | 0 <= i < |head|
        ensures head[i] in ReleaseStripChars
      {
        if i >= 8 {
          assert head[i] == extra[i - 8];
        }
      }
    }
    LStripExactHead(head, rest, ReleaseStripChars);
  }

  /** `processReleaseInfo`: a non-empty list of images replaces the entries and
      enables the box; an empty list leaves the box as it was. */
  function ProcessRelease(combo: Combo, bins: seq<FeedImage>): (r: Combo)
    ensures |bins| == 0 ==> r == combo
    ensures |bins| > 0 ==> r.enabled && |r.items| == |bins|
    ensures forall k :: 0 <= k < |r.items| && |bins| > 0 ==> r.items[k] == ReleaseItem(bins[k])
  {
    if |bins| > 0 then Combo(seq(|bins|, k requires 0 <= k < |bins| => ReleaseItem(bins[k])), true)
    else combo
  }

  const BinStripChars: set<char> := {'.', 'b', 'i', 'n'}

  /** Local name of a development image:
      `binary.rstrip(".bin") + "-dev-" + version + "-" + commit + ".bin"`. */
  function DevFileName(binary: string, version: string, commit: string): string {
    RStrip(binary, BinStripChars) + "-dev-" + version + "-" + commit + ".bin"
  }

  /** For a name `<stem>.bin` whose stem does not end in `.`, `b`, `i` or `n`
      the `.bin` suffix is replaced. */
  lemma DevFileNameReplacesSuffix(stem: string, version: string, commit: string)
    requires |stem| == 0 || stem[|stem| - 1] !in BinStripChars
    ensures DevFileName(stem + ".bin", version, commit) == stem + "-dev-" + version + "-" + commit + ".bin"
  {
    RStripExactTail(stem, ".bin", BinStripChars);
  }

  /** The strip takes characters, not a suffix: the stem loses its tail too. */
  lemma DevFileNameStripsCharacters()
    ensures DevFileName("tasmota-mini.bin", "8.1.0", "abc123") == "tasmota-m-dev-8.1.0-abc123.bin"
  {
    assert "tasmota-m" + "ini.bin" == "tasmota-mini.bin";
    assert 'm' !in BinStripChars;
    RStripExactTail("tasmota-m", "ini.bin", BinStripChars);
  }

  /** Development feed entry for an image of core `core`. */
  function DevItem(core: string, img: FeedImage): ComboItem {
    ComboItem(
      img.binary + " [" + img.version + "@" + core + ", " + img.commit + ", " + IntToString(SizeKb(img.filesize)) + "kB]",
      DataString(img.otaurl, DevFileName(img.binary, img.version, img.commit)))
  }

  /** The entries of all cores, core by core in feed order. */
  function DevItems(cores: seq<(string, seq<FeedImage>)>): (items: seq<ComboItem>)
    ensures |items| == TotalImages(cores)
  {
    if |cores| == 0 then []
    else
      var (core, imgs) := cores[0];
      seq(|imgs|, k requires 0 <= k < |imgs| => DevItem(core, imgs[k])) + DevItems(cores[1..])
  }

  function TotalImages(cores: seq<(string, seq<FeedImage>)>): nat {
    if |cores| == 0 then 0 else |cores[0].1| + TotalImages(cores[1..])
  }

  /** `processDevelopmentInfo`: a non-empty core map replaces the entries (even
      with no image at all) and enables the box; an empty one changes nothing. */
  function ProcessDevelopment(combo: Combo, cores: seq<(string, seq<FeedImage>)>): (r: Combo)
    ensures |cores| == 0 ==> r == combo
    ensures |cores| > 0 ==> r.enabled && |r.items| == TotalImages(cores)
    ensures |cores| > 0 ==> forall i, k :: 0 <= i < |cores| && 0 <= k < |cores[i].1| ==> DevEntryAt(r.items, cores, i, k)
  {
    DevItemsIndex(cores);
    if |cores| > 0 then Combo(DevItems(cores), true) else combo
  }

  /** `items` holds the entry for image `k` of core `i` right after the
      entries of the cores before it. */
  predicate DevEntryAt(items: seq<ComboItem>, cores: seq<(string, seq<FeedImage>)>, i: nat, k: nat)
    requires i < |cores| && k < |cores[i].1|
  {
    var at := TotalImages(cores[..i]) + k;
    at < |items| && items[at] == DevItem(cores[i].0, cores[i].1[k])
  }

  /** Entry `k` of core `i` comes right after the entries of the cores before it. */
  lemma {:induction false} DevItemsAt(cores: seq<(string, seq<FeedImage>)>, i: nat, k: nat)
    requires i < |cores| && k < |cores[i].1|
    ensures DevEntryAt(DevItems(cores), cores, i, k)
    decreases i
  {
    var (core, imgs) := cores[0];
    var head := seq(|imgs|, j requires 0 <= j < |imgs| => DevItem(core, imgs[j]));
    assert DevItems(cores) == head + DevItems(cores[1..]);
    if i == 0 {
      assert cores[..0] == [];
    } else {
      DevItemsAt(cores[1..], i - 1, k);
      assert cores[..i][0] == cores[0] && cores[..i][1..] == cores[1..][..i - 1];
      assert TotalImages(cores[..i]) == |imgs| + TotalImages(cores[1..][..i - 1]);
    }
  }

  lemma DevItemsIndex(cores: seq<(string, seq<FeedImage>)>)
    ensures forall i, k :: 0 <= i < |cores| && 0 <= k < |cores[i].1| ==> DevEntryAt(DevItems(cores), cores, i, k)
  {
    forall i, k | 0 <= i < |cores| && 0 <= k < |cores[i].1|
      ensures DevEntryAt(DevItems(cores), cores, i, k)
    {
      DevItemsAt(cores, i, k);
    }
  }

  /** Every entry the release feed produces names its own download: its URL
      and its file name, when neither contains `;`. */
  lemma ReleaseItemSplitsBack(img: FeedImage)
    requires ';' !in img.otaurl && ';' !in img.binary
    ensures SplitData(ReleaseItem(img).data) == Some((img.otaurl, img.binary))
  {
    DataStringSplitsBack(img.otaurl, img.binary);
  }

  /** Every development entry names its URL and the dev file name. */
  lemma DevItemSplitsBack(core: string, img: FeedImage)
    requires ';' !in img.otaurl && ';' !in img.binary && ';' !in img.version && ';' !in img.commit
    ensures SplitData(DevItem(core, img).data) == Some((img.otaurl, DevFileName(img.binary, img.version, img.commit)))
  {
    var name := DevFileName(img.binary, img.version, img.commit);
    var stem := RStrip(img.binary, BinStripChars);
    assert forall k :: 0 <= k < |stem| ==> stem[k] == img.binary[k];
    assert ';' !in stem && ';' !in "-dev-" && ';' !in "-" && ';' !in ".bin";
    assert ';' !in stem + "-dev-" + img.version;
    assert ';' !in stem + "-dev-" + img.version + "-" + img.commit;
    assert ';' !in name;
    assert DevItem(core, img).data == DataString(img.otaurl, name);
    DataStringSplitsBack(img.otaurl, name);
  }

  /** Python `a // b` (rounds toward negative infinity). */
  function FloorDiv(a: int, b: int): (q: int)
    requires b != 0
    ensures b > 0 ==> q * b <= a < q * b + b
    ensures b < 0 ==> q * b >= a > q * b + b
  {
    if b > 0 then a / b else (-a) / (-b)
  }

  /** `updateBinProgress(recv, total)` as written: `recv // total * 100`.
      `None` stands for the ZeroDivisionError raised when `total` is 0. */
  function BinProgressAsWritten(recv: int, total: int): (r: Option<int>)
    ensures r.None? <==> total == 0
  {
    if total == 0 then None else Some(FloorDiv(recv, total) * 100)
  }

  /** As written, the bar stays at 0 for the whole download and jumps to 100
      when the last byte arrives. */
  lemma BinProgressAsWrittenJumps(recv: int, total: int)
    requires 0 <= recv <= total && total > 0
    ensures recv < total ==> BinProgressAsWritten(recv, total) == Some(0)
    ensures recv == total ==> BinProgressAsWritten(recv, total) == Some(100)
  {
  }

  /** Half of a 1 KiB image shows as 0 percent. */
  lemma BinProgressAsWrittenHalfway()
    ensures BinProgressAsWritten(512, 1024) == Some(0)
    ensures BinPercent(512, 1024) == Some(50)
  {
  }

  /** The percentage the progress bar is evidently meant to show:
      `recv * 100 // total`, and no value when the total is unknown (Qt reports
      -1) or zero. */
  function BinPercent(recv: int, total: int): (r: Option<int>)
    ensures r.None? <==> total <= 0
    ensures r.Some? ==> r.value * total <= recv * 100 < r.value * total + total
    ensures r.Some? && 0 <= recv <= total ==> 0 <= r.value <= 100
  {
    if total <= 0 then None else PercentBounds(recv, total); Some(recv * 100 / total)
  }

  lemma PercentBounds(recv: int, total: int)
    requires total > 0
    ensures (recv * 100 / total) * total <= recv * 100 < (recv * 100 / total) * total + total
    ensures 0 <= recv <= total ==> 0 <= recv * 100 / total <= 100
  {
    if 0 <= recv <= total {
      DivMono(0, recv * 100, total);
      DivMono(recv * 100, total * 100, total);
      assert total * 100 == 100 * total;
      DivExact(100, total);
    }
  }

  /** The corrected percentage never decreases while bytes arrive and agrees
      with the code as written at both ends. */
  lemma BinPercentMonotone(r1: int, r2: int, total: int)
    requires total > 0 && 0 <= r1 <= r2 <= total
    ensures BinPercent(r1, total).value <= BinPercent(r2, total).value
    ensures BinPercent(0, total) == BinProgressAsWritten(0, total)
    ensures BinPercent(total, total) == BinProgressAsWritten(total, total)
  {
    DivMono(r1 * 100, r2 * 100, total);
    BinPercentEnds(total);
  }

  /** Floor division by a positive number is monotone in the dividend. */
  lemma DivMono(a: int, b: int, d: int)
    requires a <= b && d > 0
    ensures a / d <= b / d
  {
    var q1, q2 := a / d, b / d;
    assert q1 * d <= a && b < q2 * d + d;
    if q1 > q2 {
      MulMono(q2 + 1, q1, d);
    }
  }

  lemma BinPercentEnds(total: int)
    requires total > 0
    ensures BinPercent(0, total) == BinProgressAsWritten(0, total) == Some(0)
    ensures BinPercent(total, total) == BinProgressAsWritten(total, total) == Some(100)
  {
    assert total * 100 == 100 * total;
    DivExact(100, total);
    DivExact(1, total);
  }

  /** A multiple of `d` divided by `d` gives back the factor. */
  lemma DivExact(k: int, d: int)
    requires d > 0
    ensures k * d / d == k
  {
    var q := k * d / d;
    assert q * d <= k * d < q * d + d;
    if q < k {
      MulMono(q + 1, k, d);
    } else if q > k {
      MulMono(k + 1, q, d);
    }
  }

  lemma MulMono(a: int, b: int, c: int)
    requires a <= b && c > 0
    ensures a * c <= b * c
  {
  }

  /** The image radio buttons: local file, release feed, development feed. */
  datatype Mode = BinFile | Release | Development

  /** What pressing "Tasmotize!" leads to. */
  datatype Launch =
    | NothingToDo                            // "Select a local BIN file ..." message
    | FlashLocal(binFile: string)            // the worker starts on the chosen file
    | Download(url: string, binFile: string) // download into binFile, then flash it
    | BadSelection                           // the dialog's constructor raises

  /** `start_process` with the dialog's constructor: in file mode an empty path
      starts nothing; otherwise the selected entry's data is split. */
  function StartProcess(mode: Mode, fileText: string, selected: Option<string>): (r: Launch)
    ensures mode == BinFile ==> (r == NothingToDo <==> |fileText| == 0)
    ensures mode == BinFile && |fileText| > 0 ==> r == FlashLocal(fileText)
    ensures mode != BinFile ==> (r.Download? <==> selected.Some? && ';' in selected.value)
    ensures mode != BinFile && r.Download? ==> SplitData(selected.value) == Some((r.url, r.binFile))
    ensures mode != BinFile && !r.Download? ==> r == BadSelection
  {
    match mode
    case BinFile => if |fileText| > 0 then FlashLocal(fileText) else NothingToDo
    case _ =>
      if selected.None? then BadSelection
      else match SplitData(selected.value)
        case Some((url, file)) => Download(url, file)
        case None => BadSelection
  }

  /** In either feed mode, an entry whose data was built from a URL and a file
      name without `;` downloads exactly that URL into that file. */
  lemma StartFromEntry(mode: Mode, url: string, file: string)
    requires mode != BinFile && ';' !in url && ';' !in file
    ensures StartProcess(mode, "", Some(DataString(url, file))) == Download(url, file)
  {
    DataStringSplitsBack(url, file);
  }

  /** Choosing a release entry downloads that image's URL into its binary name. */
  lemma StartFromReleaseItem(img: FeedImage)
    requires ';' !in img.otaurl && ';' !in img.binary
    ensures StartProcess(Release, "", Some(ReleaseItem(img).data)) == Download(img.otaurl, img.binary)
  {
    ReleaseItemSplitsBack(img);
  }

  /** Choosing a development entry downloads that image's URL into the dev
      file name. */
  lemma StartFromDevItem(core: string, img: FeedImage)
    requires ';' !in img.otaurl && ';' !in img.binary && ';' !in img.version && ';' !in img.commit
    ensures StartProcess(Development, "", Some(DevItem(core, img).data))
      == Download(img.otaurl, DevFileName(img.binary, img.version, img.commit))
  {
    DevItemSplitsBack(core, img);
  }
}
