/**
 * `TwilightDownloader.download_all` and the option handling of `main`:
 * the file types given on the command line are normalised before the
 * downloader is built, the listing is fetched and filtered, and the files
 * are downloaded one after another while two counters record the outcomes.
 *
 * The download of the file at 1-based position `i` is the function
 * `fetch(i, entry)`; `Fetch.Download` is what one such call does.
 */
module Driver {
  import opened Wrappers
  import opened Text
  import opened Listing
  import opened Fetch

  // Type normalisation (main)

  /** Line 220: `t.lower().lstrip('.')`. */
  function NormaliseType(t: string): (r: string)
    ensures IsLower(r) && (r == [] || r[0] != '.')
    ensures |r| <= |t| && r == ToLower(t)[|t| - |r|..]
    ensures forall i :: 0 <= i < |t| - |r| ==> t[i] == '.'
  {
    LStrip(ToLower(t), '.')
  }

  /** Lines 219-220: every type given is normalised, in order. */
  function NormaliseTypes(types: seq<string>): (r: seq<string>)
    ensures |r| == |types|
    ensures forall k :: 0 <= k < |r| ==> r[k] == NormaliseType(types[k])
    ensures forall t :: t in r ==> IsLower(t) && (t == [] || t[0] != '.')
  {
    seq(|types|, k requires 0 <= k < |types| => NormaliseType(types[k]))
  }

  /**
   * Lines 219-220 and 233-238 with the constructor of lines 18-23: the
   * downloader's configuration from the options; `--types` absent means no
   * filtering.
   */
  function Setup(url: string, types: Option<seq<string>>, skipThumbs: bool): (c: Config)
    ensures types.None? ==> c.fileTypes == []
    ensures types.Some? ==> c.fileTypes == NormaliseTypes(types.value)
    ensures c.skipThumbs == skipThumbs
    ensures StartsWith(url, c.baseUrl) && (c.baseUrl == [] || c.baseUrl[|c.baseUrl| - 1] != '/')
    ensures forall i :: |c.baseUrl| <= i < |url| ==> url[i] == '/'
  {
    MakeConfig(url, if types.Some? then NormaliseTypes(types.value) else [], skipThumbs)
  }

  /** Normalising a normalised type changes nothing. */
  lemma NormaliseIdempotent(t: string)
    ensures NormaliseType(NormaliseType(t)) == NormaliseType(t)
  {
    var r := NormaliseType(t);
    ToLowerOfLower(r);
  }

  /** Case and leading dots of a type do not matter. */
  lemma NormaliseIgnoresCaseAndDot(t: string)
    ensures NormaliseType(ToLower(t)) == NormaliseType(t)
    ensures NormaliseType("." + t) == NormaliseType(t)
  {
    ToLowerOfLower(ToLower(t));
    var d := "." + t;
    assert ToLower(d) == "." + ToLower(t);
    assert ToLower(d)[1..] == ToLower(t);
  }

  /**
   * The extension the listing compares (line 56) is the normalised form of
   * the `splitext` suffix, so any spelling of a type that lower-cases to the
   * suffix or to the dotted suffix (`ISO`, `.iso`, `.Iso`, `iso`) selects
   * `name.iso` and `NAME.ISO` alike.
   */
  lemma TypeSelectsExtension(stem: string, suffix: string, typed: string)
    requires exists k :: RFind(stem, '/') < k < |stem| && stem[k] != '.'
    requires '.' !in suffix && '/' !in suffix
    requires ToLower(typed) == ToLower(suffix) || ToLower(typed) == "." + ToLower(suffix)
    ensures FileExtension(stem + "." + suffix) == NormaliseType(typed)
  {
    ExtensionOfName(stem, suffix);
    var low := ToLower(suffix);
    NormaliseIgnoresCaseAndDot(typed);
    NormaliseIgnoresCaseAndDot(low);
    NormaliseWithoutDot(suffix);
    ToLowerOfLower(low);
    assert NormaliseType(typed) == NormaliseType(ToLower(typed));
    assert NormaliseType(low) == low;
  }

  /** A type with no dot in it is only lower-cased. */
  lemma NormaliseWithoutDot(t: string)
    requires '.' !in t
    ensures NormaliseType(t) == ToLower(t)
  {
    assert forall i :: 0 <= i < |ToLower(t)| ==> ToLower(t)[i] != '.';
  }

  /**
   * A file with no dot in its name has the empty extension: with a type list
   * it is kept exactly when the empty type (from `--types .`) is in it.
   */
  lemma ExtensionlessKeptOnlyByEmptyType(cfg: Config, a: Anchor, unquote: Unquote)
    requires IsFileHref(a.href) && !Contains(a.text, CONTENTS_MARKER)
    requires !(cfg.skipThumbs && Contains(unquote(a.href.value), THUMB_MARKER))
    requires cfg.fileTypes != [] && '.' !in unquote(a.href.value)
    ensures Kept(cfg, a, unquote) <==> [] in cfg.fileTypes
  {
    ExtensionShape(unquote(a.href.value));
  }

  // The batch (download_all)

  /** What `download_all` reports: nothing to do, the final summary, or the interrupt summary. */
  datatype Report =
    | NoFiles
    | Completed(successful: nat, failed: nat, total: nat)
    | Cancelled(successful: nat, failed: nat, remaining: int)

  /** The listing request failed (line 33), or the batch ran. */
  datatype Run = ListingFailed | Ran(report: Report)

  /** The outcome of each download, in order, as the loop of line 149 would request them. */
  function Outcomes(files: seq<FileEntry>, fetch: (nat, FileEntry) -> Outcome): seq<Outcome> {
    seq(|files|, k requires 0 <= k < |files| => fetch(k + 1, files[k]))
  }

  /** The two counters and, once an interrupt is seen, its 1-based position. */
  datatype Tally = Tally(successful: nat, failed: nat, interruptedAt: Option<nat>)

  /** The counters after the outcomes in order, stopping at the first interrupt. */
  function TallyOf(outs: seq<Outcome>): Tally {
    if outs == [] then Tally(0, 0, None)
    else
      var t := TallyOf(outs[..|outs| - 1]);
      if t.interruptedAt.Some? then t
      else match outs[|outs| - 1]
        case Succeeded => Tally(t.successful + 1, t.failed, None)
        case Failed => Tally(t.successful, t.failed + 1, None)
        case Interrupted => Tally(t.successful, t.failed, Some(|outs|))
  }

  /** The report for a listing, from the outcomes of its downloads. */
  function ReportOf(files: seq<FileEntry>, fetch: (nat, FileEntry) -> Outcome): Report {
    if files == [] then NoFiles
    else
      var t := TallyOf(Outcomes(files, fetch));
      if t.interruptedAt.Some? then Cancelled(t.successful, t.failed, |files| - t.interruptedAt.value)
      else Completed(t.successful, t.failed, |files|)
  }

  /**
   * Without an interrupt the counters are the numbers of successes and
   * failures among the outcomes; with one, they count the outcomes before
   * the first interrupt, which is the one recorded.
   */
  lemma {:induction false} TallyCounts(outs: seq<Outcome>)
    ensures TallyOf(outs).interruptedAt.None? <==> Interrupted !in outs
    ensures TallyOf(outs).interruptedAt.None? ==>
      TallyOf(outs).successful == multiset(outs)[Succeeded]
      && TallyOf(outs).failed == multiset(outs)[Failed]
      && TallyOf(outs).successful + TallyOf(outs).failed == |outs|
    ensures TallyOf(outs).interruptedAt.Some? ==>
      1 <= TallyOf(outs).interruptedAt.value <= |outs|
      && outs[TallyOf(outs).interruptedAt.value - 1] == Interrupted
      && Interrupted !in outs[..TallyOf(outs).interruptedAt.value - 1]
      && TallyOf(outs).successful == multiset(outs[..TallyOf(outs).interruptedAt.value - 1])[Succeeded]
      && TallyOf(outs).failed == multiset(outs[..TallyOf(outs).interruptedAt.value - 1])[Failed]
      && TallyOf(outs).successful + TallyOf(outs).failed == TallyOf(outs).interruptedAt.value - 1
  {
    if outs != [] {
      var front := outs[..|outs| - 1];
      var last := outs[|outs| - 1];
      TallyCounts(front);
      assert outs == front + [last];
      assert multiset(outs) == multiset(front) + multiset{last};
      if TallyOf(front).interruptedAt.Some? {
        var i := TallyOf(front).interruptedAt.value;
        assert outs[..i - 1] == front[..i - 1];
      } else if last == Interrupted {
        assert outs[..|outs| - 1] == front;
      }
    }
  }

  /**
   * Lines 146-166 as reported: at completion the counters add up to the
   * number of files; on an interrupt at position `i` they add up to `i - 1`
   * and `len(files) - i` are reported left, so every file is either
   * counted, the interrupted one, or remaining.
   */
  lemma ReportAccountsForEveryFile(files: seq<FileEntry>, fetch: (nat, FileEntry) -> Outcome)
    ensures ReportOf(files, fetch).NoFiles? <==> files == []
    ensures ReportOf(files, fetch).Completed? ==>
      ReportOf(files, fetch).successful + ReportOf(files, fetch).failed == ReportOf(files, fetch).total == |files|
      && ReportOf(files, fetch).successful == multiset(Outcomes(files, fetch))[Succeeded]
      && (forall k :: 0 <= k < |files| ==> fetch(k + 1, files[k]) != Interrupted)
    ensures ReportOf(files, fetch).Cancelled? ==>
      0 <= ReportOf(files, fetch).remaining < |files|
      && ReportOf(files, fetch).successful + ReportOf(files, fetch).failed + 1 + ReportOf(files, fetch).remaining == |files|
      && fetch(|files| - ReportOf(files, fetch).remaining, files[|files| - ReportOf(files, fetch).remaining - 1]) == Interrupted
      && (forall k :: 0 <= k < |files| - ReportOf(files, fetch).remaining - 1 ==> fetch(k + 1, files[k]) != Interrupted)
  {
    var outs := Outcomes(files, fetch);
    TallyCounts(outs);
    if TallyOf(outs).interruptedAt.Some? {
      var i := TallyOf(outs).interruptedAt.value;
      forall k | 0 <= k < i - 1 ensures fetch(k + 1, files[k]) != Interrupted {
        assert outs[..i - 1][k] == outs[k] == fetch(k + 1, files[k]);
      }
    } else {
      forall k | 0 <= k < |files| ensures fetch(k + 1, files[k]) != Interrupted {
        assert outs[k] in outs && outs[k] == fetch(k + 1, files[k]);
      }
    }
  }

  /**
   * Three files where the second fails: the batch goes on, and the summary
   * reads two successful, one failed, three in all.
   */
  lemma FailureDoesNotStopBatch(files: seq<FileEntry>, fetch: (nat, FileEntry) -> Outcome)
    requires |files| == 3
    requires fetch(1, files[0]) == Succeeded && fetch(2, files[1]) == Failed && fetch(3, files[2]) == Succeeded
    ensures ReportOf(files, fetch) == Completed(2, 1, 3)
  {
    var outs := Outcomes(files, fetch);
    assert outs[..1][..0] == [];
    assert TallyOf(outs[..1]) == Tally(1, 0, None);
    assert outs[..2][..1] == outs[..1];
    assert TallyOf(outs[..2]) == Tally(1, 1, None);
    assert outs[..3][..2] == outs[..2];
    assert outs[..3] == outs;
  }

  /**
   * An interrupt during the second of three files: one file counted as
   * successful, none failed, one remaining.
   */
  lemma InterruptReportsRemaining(files: seq<FileEntry>, fetch: (nat, FileEntry) -> Outcome)
    requires |files| == 3
    requires fetch(1, files[0]) == Succeeded && fetch(2, files[1]) == Interrupted
    ensures ReportOf(files, fetch) == Cancelled(1, 0, 1)
  {
    var outs := Outcomes(files, fetch);
    assert outs[..1][..0] == [];
    assert TallyOf(outs[..1]) == Tally(1, 0, None);
    assert outs[..2][..1] == outs[..1];
    assert TallyOf(outs[..2]) == Tally(1, 0, Some(2));
    assert outs[..3][..2] == outs[..2];
    assert outs[..3] == outs;
  }

  /**
   * Lines 136-166: fetch and filter the listing, then download the files in
   * order, counting successes and failures, and stop at the first interrupt
   * with the number of files not yet attempted.
   */
  method DownloadAll(cfg: Config, page: Option<seq<Anchor>>, unquote: Unquote, urljoin: UrlJoin,
                     fetch: (nat, FileEntry) -> Outcome) returns (run: Run)
    ensures page.None? ==> run == ListingFailed
    ensures page.Some? ==> run == Ran(ReportOf(FileList(cfg, page.value, unquote, urljoin), fetch))
  {
    if page.None? {
      return ListingFailed;
    }
    var files := GetFileList(cfg, page.value, unquote, urljoin);
    if files == [] {
      return Ran(NoFiles);
    }
    ghost var outs := Outcomes(files, fetch);
    var successful, failed := 0, 0;
    var i := 1;
    while i <= |files|
      invariant 1 <= i <= |files| + 1
      invariant TallyOf(outs[..i - 1]) == Tally(successful, failed, None)
    {
      var outcome := fetch(i, files[i - 1]);
      assert outs[..i][..i - 1] == outs[..i - 1];
      if outcome == Interrupted {
        TallyKeepsInterrupt(outs, i);
        return Ran(Cancelled(successful, failed, |files| - i));
      }
      if outcome == Succeeded {
        successful := successful + 1;
      } else {
        failed := failed + 1;
      }
      i := i + 1;
    }
    assert outs[..|files|] == outs;
    run := Ran(Completed(successful, failed, |files|));
  }

  /** Once the first interrupt is recorded, later outcomes change nothing. */
  lemma {:induction false} TallyKeepsInterrupt(outs: seq<Outcome>, i: nat)
    requires 1 <= i <= |outs| && TallyOf(outs[..i]).interruptedAt == Some(i)
    ensures TallyOf(outs) == TallyOf(outs[..i])
    decreases |outs|
  {
    if |outs| > i {
      var front := outs[..|outs| - 1];
      assert front[..i] == outs[..i];
      TallyKeepsInterrupt(front, i);
    } else {
      assert outs[..i] == outs;
    }
  }
}
