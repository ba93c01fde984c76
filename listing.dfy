/**
 * The link filter of `TwilightDownloader.get_file_list`: from the anchors of
 * the index page, in page order, keep those that name a file the
 * configuration asks for, and turn each into a (filename, url) entry.
 *
 * The page fetch and the HTML parsing are not modelled: the anchors are an
 * input. `unquote` and `urljoin` are library calls whose behaviour the model
 * does not fix, so they are parameters.
 */
module Listing {
  import opened Wrappers
  import opened Text

  /** The downloader's configuration, fixed once it is built. */
  datatype Config = Config(baseUrl: string, fileTypes: seq<string>, skipThumbs: bool)

  /** One `<a>` element: its `href` attribute (possibly missing) and its text. */
  datatype Anchor = Anchor(href: Option<string>, text: string)

  /** A listed file: the decoded name and the absolute URL. */
  datatype FileEntry = FileEntry(filename: string, url: string)

  type Unquote = string -> string
  type UrlJoin = (string, string) -> string

  const PARENT_DIR := "../"
  const CONTENTS_MARKER := "View Contents"
  const THUMB_MARKER := "_thumb."

  /**
   * The constructor's normalisation: trailing slashes are stripped from the
   * base URL; a missing type list is passed as the empty one.
   */
  function MakeConfig(baseUrl: string, fileTypes: seq<string>, skipThumbs: bool): (c: Config)
    ensures StartsWith(baseUrl, c.baseUrl)
    ensures c.baseUrl == [] || c.baseUrl[|c.baseUrl| - 1] != '/'
    ensures forall i :: |c.baseUrl| <= i < |baseUrl| ==> baseUrl[i] == '/'
    ensures c.fileTypes == fileTypes && c.skipThumbs == skipThumbs
  {
    Config(RStrip(baseUrl, '/'), fileTypes, skipThumbs)
  }

  /**
   * `os.path.splitext(filename)[1].lower().lstrip('.')`: the lower-cased text
   * after the dot that starts the extension, or empty when there is none.
   */
  function FileExtension(filename: string): string {
    LStrip(ToLower(SplitExt(filename).1), '.')
  }

  /** Stripping the leading dots of a splitext extension drops exactly its dot. */
  lemma ExtensionParts(filename: string)
    ensures SplitExt(filename).1 == [] ==> FileExtension(filename) == []
    ensures SplitExt(filename).1 != [] ==>
              && filename[|filename| - |SplitExt(filename).1|..] == SplitExt(filename).1
              && FileExtension(filename) == ToLower(SplitExt(filename).1[1..])
              && '.' !in SplitExt(filename).1[1..] && '/' !in SplitExt(filename).1[1..]
  {
    var split := SplitExt(filename);
    var ext := split.1;
    if ext != [] {
      assert split.0 + ext == filename;
      assert filename[|split.0|..] == ext;
      var low := ToLower(ext);
      assert low[0] == '.';
      ToLowerSuffix(ext, 1);
      assert '.' !in low[1..] by {
        forall j | 1 <= j < |low| ensures low[j] != '.' {
          assert ext[j] == ext[1..][j - 1];
        }
      }
      assert LStrip(low, '.') == LStrip(low[1..], '.');
    }
  }

  /**
   * The extension is lower-case and holds no dot and no slash. It is empty
   * for a name without a dot; when it is not empty, it is the lower-cased
   * text after the dot where `splitext` starts the extension.
   */
  lemma ExtensionShape(filename: string)
    ensures IsLower(FileExtension(filename))
    ensures '.' !in FileExtension(filename) && '/' !in FileExtension(filename)
    ensures '.' !in filename ==> FileExtension(filename) == []
    ensures FileExtension(filename) != [] ==>
              && |FileExtension(filename)| < |filename|
              && ExtensionStart(filename, |filename| - |FileExtension(filename)| - 1)
              && ToLower(filename[|filename| - |FileExtension(filename)|..]) == FileExtension(filename)
  {
    ExtensionParts(filename);
    var ext := SplitExt(filename).1;
    var e := FileExtension(filename);
    if ext != [] {
      var tail := ext[1..];
      assert e == ToLower(tail);
      assert '.' !in e by {
        forall j | 0 <= j < |e| ensures e[j] != '.' {
          assert tail[j] != '.';
        }
      }
      assert '/' !in e by {
        forall j | 0 <= j < |e| ensures e[j] != '/' {
          assert tail[j] != '/';
        }
      }
      if e != [] {
        assert filename[|filename| - |e|..] == tail;
        assert |SplitExt(filename).0| == |filename| - |e| - 1;
      }
    }
  }

  /**
   * The converse direction: a name made of a stem whose last component holds
   * a character other than a dot, a dot, and a suffix with no dot and no
   * slash has that suffix, lower-cased, as its extension.
   */
  lemma ExtensionOfName(stem: string, suffix: string)
    requires exists k :: RFind(stem, '/') < k < |stem| && stem[k] != '.'
    requires '.' !in suffix && '/' !in suffix
    ensures FileExtension(stem + "." + suffix) == ToLower(suffix)
  {
    var p := stem + "." + suffix;
    SplitExtOfName(stem, suffix);
    assert SplitExt(p).1[1..] == suffix;
    ExtensionParts(p);
  }

  /** Lines 40-42: a missing or empty href, a query link and the parent link are skipped. */
  predicate IsFileHref(href: Option<string>) {
    href.Some? && href.value != [] && !StartsWith(href.value, "?") && href.value != PARENT_DIR
  }

  /** Whether the filter loop keeps anchor `a` (lines 40-58). */
  predicate Kept(cfg: Config, a: Anchor, unquote: Unquote) {
    && IsFileHref(a.href)
    && !Contains(a.text, CONTENTS_MARKER)
    && !(cfg.skipThumbs && Contains(unquote(a.href.value), THUMB_MARKER))
    && (cfg.fileTypes == [] || FileExtension(unquote(a.href.value)) in cfg.fileTypes)
  }

  /** Lines 48 and 60: the entry made from a kept href. */
  function EntryFor(cfg: Config, href: string, unquote: Unquote, urljoin: UrlJoin): FileEntry {
    FileEntry(unquote(href), urljoin(cfg.baseUrl + "/", href))
  }

  /** The list `get_file_list` returns, built anchor by anchor. */
  function FileList(cfg: Config, anchors: seq<Anchor>, unquote: Unquote, urljoin: UrlJoin): (files: seq<FileEntry>)
    ensures |files| <= |anchors|
  {
    if anchors == [] then []
    else
      var last := anchors[|anchors| - 1];
      FileList(cfg, anchors[..|anchors| - 1], unquote, urljoin)
        + (if Kept(cfg, last, unquote) then [EntryFor(cfg, last.href.value, unquote, urljoin)] else [])
  }

  /** The positions in `s` of the elements `keep` accepts, in increasing order. */
  function Positions<T>(s: seq<T>, keep: T -> bool): (idx: seq<nat>)
    ensures |idx| <= |s|
  {
    if s == [] then []
    else
      var n := |s| - 1;
      Positions(s[..n], keep) + (if keep(s[n]) then [n] else [])
  }

  /** Every position listed is accepted, they increase, and no accepted position is missing. */
  lemma {:induction false} PositionsExact<T>(s: seq<T>, keep: T -> bool)
    ensures forall k :: 0 <= k < |Positions(s, keep)| ==>
              Positions(s, keep)[k] < |s| && keep(s[Positions(s, keep)[k]])
    ensures forall k, l :: 0 <= k < l < |Positions(s, keep)| ==> Positions(s, keep)[k] < Positions(s, keep)[l]
    ensures forall i :: 0 <= i < |s| && keep(s[i]) ==> i in Positions(s, keep)
  {
    if s != [] {
      var n := |s| - 1;
      var prefix := s[..n];
      PositionsExact(prefix, keep);
      var front := Positions(prefix, keep);
      var idx := Positions(s, keep);
      forall k | 0 <= k < |front|
        ensures idx[k] == front[k] && front[k] < n && s[front[k]] == prefix[front[k]]
      {
      }
      forall i | 0 <= i < |s| && keep(s[i]) ensures i in idx {
        if i < n {
          assert prefix[i] == s[i];
          assert i in front;
        }
      }
    }
  }

  /** The positions of the kept anchors. */
  function KeptIndices(cfg: Config, anchors: seq<Anchor>, unquote: Unquote): (idx: seq<nat>)
  {
    Positions(anchors, a => Kept(cfg, a, unquote))
  }

  /** The kept positions are increasing, each is kept, and every kept position is there. */
  lemma KeptIndicesExact(cfg: Config, anchors: seq<Anchor>, unquote: Unquote)
    ensures forall k :: 0 <= k < |KeptIndices(cfg, anchors, unquote)| ==>
              && KeptIndices(cfg, anchors, unquote)[k] < |anchors|
              && Kept(cfg, anchors[KeptIndices(cfg, anchors, unquote)[k]], unquote)
    ensures forall k, l :: 0 <= k < l < |KeptIndices(cfg, anchors, unquote)| ==>
              KeptIndices(cfg, anchors, unquote)[k] < KeptIndices(cfg, anchors, unquote)[l]
    ensures forall i :: 0 <= i < |anchors| && Kept(cfg, anchors[i], unquote) ==>
              i in KeptIndices(cfg, anchors, unquote)
  {
    PositionsExact(anchors, a => Kept(cfg, a, unquote));
  }

  /**
   * The list is exactly the kept anchors, in page order, each turned into its
   * entry: an order-preserving filter followed by a map.
   */
  lemma {:induction false} FileListFollowsKeptIndices(cfg: Config, anchors: seq<Anchor>, unquote: Unquote, urljoin: UrlJoin)
    ensures |FileList(cfg, anchors, unquote, urljoin)| == |KeptIndices(cfg, anchors, unquote)|
    ensures forall k :: 0 <= k < |KeptIndices(cfg, anchors, unquote)| ==>
              && KeptIndices(cfg, anchors, unquote)[k] < |anchors|
              && Kept(cfg, anchors[KeptIndices(cfg, anchors, unquote)[k]], unquote)
              && FileList(cfg, anchors, unquote, urljoin)[k]
                 == EntryFor(cfg, anchors[KeptIndices(cfg, anchors, unquote)[k]].href.value, unquote, urljoin)
  {
    KeptIndicesExact(cfg, anchors, unquote);
    if anchors != [] {
      var n := |anchors| - 1;
      FileListFollowsKeptIndices(cfg, anchors[..n], unquote, urljoin);
    }
  }

  /** An entry is listed if and only if some kept anchor produces it. */
  lemma FileListMembership(cfg: Config, anchors: seq<Anchor>, unquote: Unquote, urljoin: UrlJoin, e: FileEntry)
    ensures e in FileList(cfg, anchors, unquote, urljoin) <==>
      exists i :: 0 <= i < |anchors| && Kept(cfg, anchors[i], unquote)
                  && e == EntryFor(cfg, anchors[i].href.value, unquote, urljoin)
  {
    var files := FileList(cfg, anchors, unquote, urljoin);
    var idx := KeptIndices(cfg, anchors, unquote);
    FileListFollowsKeptIndices(cfg, anchors, unquote, urljoin);
    KeptIndicesExact(cfg, anchors, unquote);
    if e in files {
      var k :| 0 <= k < |files| && files[k] == e;
      assert Kept(cfg, anchors[idx[k]], unquote);
    }
    if exists i :: 0 <= i < |anchors| && Kept(cfg, anchors[i], unquote)
                   && e == EntryFor(cfg, anchors[i].href.value, unquote, urljoin) {
      var i :| 0 <= i < |anchors| && Kept(cfg, anchors[i], unquote)
               && e == EntryFor(cfg, anchors[i].href.value, unquote, urljoin);
      var k :| 0 <= k < |idx| && idx[k] == i;
      assert files[k] == e;
    }
  }

  /**
   * What a listed entry satisfies: it comes from an anchor with a real file
   * href whose text is not the "View Contents" link; its name has no
   * thumbnail marker when thumbnails are skipped; its extension is one of the
   * requested types when types were requested.
   */
  lemma ListedEntryFilters(cfg: Config, anchors: seq<Anchor>, unquote: Unquote, urljoin: UrlJoin, e: FileEntry)
    requires e in FileList(cfg, anchors, unquote, urljoin)
    ensures cfg.skipThumbs ==> !Contains(e.filename, THUMB_MARKER)
    ensures cfg.fileTypes != [] ==> FileExtension(e.filename) in cfg.fileTypes
    ensures exists i :: && 0 <= i < |anchors| && anchors[i].href.Some?
                        && anchors[i].href.value != [] && anchors[i].href.value[0] != '?'
                        && anchors[i].href.value != PARENT_DIR
                        && !Contains(anchors[i].text, CONTENTS_MARKER)
                        && e.filename == unquote(anchors[i].href.value)
                        && e.url == urljoin(cfg.baseUrl + "/", anchors[i].href.value)
  {
    FileListMembership(cfg, anchors, unquote, urljoin, e);
    var i :| 0 <= i < |anchors| && Kept(cfg, anchors[i], unquote)
             && e == EntryFor(cfg, anchors[i].href.value, unquote, urljoin);
    var h := anchors[i].href.value;
    assert !StartsWith(h, "?");
    assert h[0] != '?';
  }

  /** The filters hold of the whole list. */
  lemma FileListFilters(cfg: Config, anchors: seq<Anchor>, unquote: Unquote, urljoin: UrlJoin)
    ensures forall e :: e in FileList(cfg, anchors, unquote, urljoin) ==>
      && (cfg.skipThumbs ==> !Contains(e.filename, THUMB_MARKER))
      && (cfg.fileTypes != [] ==> FileExtension(e.filename) in cfg.fileTypes)
  {
    forall e | e in FileList(cfg, anchors, unquote, urljoin)
      ensures && (cfg.skipThumbs ==> !Contains(e.filename, THUMB_MARKER))
              && (cfg.fileTypes != [] ==> FileExtension(e.filename) in cfg.fileTypes)
    {
      ListedEntryFilters(cfg, anchors, unquote, urljoin, e);
    }
  }

  /**
   * The filter loop of `get_file_list` (lines 36-61), with its `continue`s:
   * it returns what `FileList` describes.
   */
  method GetFileList(cfg: Config, anchors: seq<Anchor>, unquote: Unquote, urljoin: UrlJoin)
    returns (files: seq<FileEntry>)
    ensures files == FileList(cfg, anchors, unquote, urljoin)
  {
    files := [];
    var i := 0;
    while i < |anchors|
      invariant 0 <= i <= |anchors|
      invariant files == FileList(cfg, anchors[..i], unquote, urljoin)
    {
      var link := anchors[i];
      i := i + 1;
      assert anchors[..i][..i - 1] == anchors[..i - 1];
      var href := link.href;
      if href.None? || href.value == [] || StartsWith(href.value, "?") || href.value == PARENT_DIR {
        continue;
      }
      if Contains(link.text, CONTENTS_MARKER) {
        continue;
      }
      var filename := unquote(href.value);
      if cfg.skipThumbs && Contains(filename, THUMB_MARKER) {
        continue;
      }
      if cfg.fileTypes != [] {
        var ext := FileExtension(filename);
        if ext !in cfg.fileTypes {
          continue;
        }
      }
      var fileUrl := urljoin(cfg.baseUrl + "/", href.value);
      files := files + [FileEntry(filename, fileUrl)];
    }
    assert anchors[..|anchors|] == anchors;
  }
}
