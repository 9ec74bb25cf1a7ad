/**
 * Cover art (itunesify.py `save_itunes_cover`): the catalog's artwork URL is
 * rewritten to the uncompressed original, the download falls back to the
 * catalog URL, the extension is normalised, old images are swept from the
 * collection and the cover is written into the collection directory and
 * its `Disc ` subdirectories. Downloads, the image conversion and the
 * filesystem are values here: status codes and bytes are parameters and the
 * collection's files are a map from path to contents.
 */
module Artwork {
  import opened Wrappers
  import opened PyStr
  import opened Tags

  // ------------------------------------------------------------------
  // URL rewrite
  // ------------------------------------------------------------------

  const UpgradedHost: string := "https://is5"
  const ThumbHost: string := "https://is"
  const ThumbTail: string := "-ssl.mzstatic.com/image/thumb"
  /** The thumbnail prefix the second substitution replaces, `https://is5-ssl.mzstatic.com/image/thumb`. */
  const ThumbPrefix: string := UpgradedHost + ThumbTail
  const OriginalPrefix: string := "https://a5.mzstatic.com/us/r1000/0"

  /** The URL after the two substitutions, before the last component is cut. */
  function Substituted(url: string): string {
    var u := Replace(url, Split(url, '-')[0], UpgradedHost);
    Replace(u, ThumbPrefix, OriginalPrefix)
  }

  /**
   * The uncompressed artwork URL: everything before the last '/' of the
   * substituted URL, `None` where `rindex` raises.
   */
  function UpgradeUrl(url: string): (r: Option<string>)
    ensures r.None? <==> '/' !in Substituted(url)
    ensures r.Some? ==> exists size :: Substituted(url) == r.value + "/" + size && '/' !in size
  {
    var u := Substituted(url);
    var k := RFind(u, '/');
    if k < 0 then None
    else
      CutAtSeparator(u, k);
      Some(u[..k])
  }

  lemma CutAtSeparator(u: string, k: nat)
    requires k < |u| && u[k] == '/' && '/' !in u[k + 1..]
    ensures exists size :: u == u[..k] + "/" + size && '/' !in size
  {
    var size := u[k + 1..];
    assert u == u[..k] + "/" + size;
  }

  /** A replacement whose pattern starts the string and occurs nowhere after it. */
  lemma ReplaceLeading(pat: string, rest: string, rep: string)
    requires pat != [] && !Contains(rest, pat)
    ensures Replace(pat + rest, pat, rep) == rep + rest
  {
    assert StartsWith(pat + rest, pat);
    assert (pat + rest)[|pat|..] == rest;
    ReplaceAbsent(rest, pat, rep);
  }

  /** The first piece of a split is what precedes the first separator. */
  lemma SplitHead(a: string, b: string, c: char)
    requires c !in a
    ensures Split(a + [c] + b, c)[0] == a
  {
    var s := a + [c] + b;
    assert s[|a|] == c;
    var i := IndexOf(s, c);
    assert s[..|a|] == a;
    assert i == |a|;
    assert s[..i] == a;
  }

  lemma ThumbConstants()
    ensures ThumbPrefix == UpgradedHost + ThumbTail
    ensures ThumbTail[0] == '-' && ':' !in ThumbTail
    ensures ThumbHost[5] == ':' && '-' !in ThumbHost && ThumbPrefix[5] == ':'
  {
    ThumbTailShape();
    ThumbHostShape();
  }

  lemma ThumbTailShape()
    ensures ThumbTail[0] == '-' && ':' !in ThumbTail
  {
  }

  lemma ThumbHostShape()
    ensures ThumbHost[5] == ':' && '-' !in ThumbHost && ThumbPrefix[5] == ':'
  {
  }

  lemma Associative(a: string, b: string, c: string)
    ensures a + (b + c) == (a + b) + c
  {
  }

  /** Both substitutions of a thumbnail URL `https://is<N>-ssl.mzstatic.com/image/thumb<path>`. */
  lemma SubstitutedThumbnail(n: string, path: string)
    requires AllDigits(n) && ':' !in path
    ensures Substituted(ThumbHost + n + ThumbTail + path) == OriginalPrefix + path
  {
    ThumbConstants();
    var head := ThumbHost + n;
    var rest := ThumbTail + path;
    var url := ThumbHost + n + ThumbTail + path;
    assert url == head + rest;
    assert '-' !in head by {
      assert forall i :: 0 <= i < |n| ==> IsDigit(n[i]);
    }
    assert rest == ['-'] + rest[1..];
    assert url == head + ['-'] + rest[1..];
    SplitHead(head, rest[1..], '-');
    assert head[5] == ':';
    ContainsKeepsChar(rest, head, 5);
    ReplaceLeading(head, rest, UpgradedHost);
    Associative(UpgradedHost, ThumbTail, path);
    ContainsKeepsChar(path, ThumbPrefix, 5);
    ReplaceLeading(ThumbPrefix, path, OriginalPrefix);
  }

  /**
   * A thumbnail URL of the catalog's usual shape,
   * `https://is<N>-ssl.mzstatic.com/image/thumb/<dirs>/<size>`, becomes
   * `https://a5.mzstatic.com/us/r1000/0/<dirs>`.
   */
  lemma UpgradeThumbnailUrl(n: string, dirs: string, size: string)
    requires AllDigits(n) && ':' !in dirs && ':' !in size && '/' !in size
    ensures UpgradeUrl(ThumbHost + n + ThumbTail + "/" + dirs + "/" + size) == Some(OriginalPrefix + "/" + dirs)
  {
    var path := "/" + dirs + "/" + size;
    assert ':' !in path;
    Regroup(ThumbHost + n + ThumbTail, dirs, size);
    SubstitutedThumbnail(n, path);
    Regroup(OriginalPrefix, dirs, size);
    CutLastComponent(OriginalPrefix + "/" + dirs, size);
  }

  lemma Regroup(h: string, dirs: string, size: string)
    ensures h + ("/" + dirs + "/" + size) == h + "/" + dirs + "/" + size
  {
  }

  /** Cutting at the last '/' drops a final component without one. */
  lemma CutLastComponent(front: string, size: string)
    requires '/' !in size
    ensures var u := front + "/" + size; u[..RFind(u, '/')] == front
  {
    var x := front + "/";
    assert front + "/" + size == x + size;
    RFindAppend(x, size, '/');
    assert RFind(x, '/') == |x| - 1;
    assert (x + size)[..|x| - 1] == front;
  }

  // ------------------------------------------------------------------
  // The path of a URL and the downloaded file's extension
  // ------------------------------------------------------------------

  function FindOr(s: string, c: char): (i: nat)
    ensures i <= |s| && c !in s[..i]
  {
    if c in s then IndexOf(s, c) else |s|
  }

  predicate SchemeChar(c: char) {
    'a' <= c <= 'z' || 'A' <= c <= 'Z' || '0' <= c <= '9' || c == '+' || c == '-' || c == '.'
  }

  /** A leading `scheme:` as `urlsplit` recognises one: the scheme in lower case and what follows it. */
  function SplitScheme(s: string): (r: (string, string))
    ensures r.0 == [] ==> r.1 == s
    ensures r.0 != [] ==> |r.0| < |s| && s[|r.0|] == ':' && r.1 == s[|r.0| + 1..]
    ensures forall c :: c in r.1 ==> c in s
  {
    if ':' !in s then ("", s)
    else
      var i := IndexOf(s, ':');
      if i > 0 && ('a' <= s[0] <= 'z' || 'A' <= s[0] <= 'Z') && forall j :: 0 <= j < i ==> SchemeChar(s[j])
      then SliceChars(s, i + 1, |s|); (AsciiLower(s[..i]), s[i + 1..]) else ("", s)
  }

  /** The schemes whose last path segment may carry `;params`, the empty one included. */
  const UsesParams: set<string> :=
    {"", "ftp", "hdl", "prospero", "http", "imap", "https", "shttp", "rtsp", "rtsps", "rtspu", "sip", "sips", "mms",
     "sftp", "tel"}

  /**
   * `_splitparams`: the path up to the first `;` in its last segment (from
   * its last `/` on), or up to its first `;` when it has no `/`.
   */
  function DropParams(path: string): (r: string)
    ensures r <= path
    ensures forall c :: c in r ==> c in path
  {
    var from := if '/' in path then RFind(path, '/') else 0;
    SliceChars(path, 0, from + FindOr(path[from..], ';'));
    path[..from + FindOr(path[from..], ';')]
  }

  /** The C0 control characters and the space, which `urlsplit` strips from the front of a URL. */
  predicate ControlOrSpace(c: char) { c <= ' ' }

  /** The characters `urlsplit` removes from anywhere in a URL. */
  predicate UnsafeUrlChar(c: char) { c == '\t' || c == '\r' || c == '\n' }

  /** The URL without its leading control characters and spaces. */
  function LStripControl(s: string): (r: string)
    ensures |r| <= |s| && r == s[|s| - |r|..]
    ensures forall i :: 0 <= i < |s| - |r| ==> ControlOrSpace(s[i])
    ensures r == [] || !ControlOrSpace(r[0])
  {
    if s != [] && ControlOrSpace(s[0]) then LStripControl(s[1..]) else s
  }

  /** The URL with every tab, carriage return and line feed removed and all else kept in order. */
  function RemoveUnsafe(s: string): (r: string)
    ensures |r| <= |s|
    ensures forall c :: c in r <==> c in s && !UnsafeUrlChar(c)
  {
    if s == [] then [] else (if UnsafeUrlChar(s[0]) then [] else [s[0]]) + RemoveUnsafe(s[1..])
  }

  /** What `urlsplit` parses: the URL stripped at the front, then rid of unsafe characters. */
  function CleanUrl(url: string): string {
    RemoveUnsafe(LStripControl(url))
  }

  /** The URL up to its fragment and its query. */
  function BeforeQuery(u: string): (r: string)
    ensures '?' !in r && '#' !in r
    ensures forall c :: c in r ==> c in u
  {
    var noFragment := u[..FindOr(u, '#')];
    SliceChars(u, 0, FindOr(u, '#'));
    SliceChars(noFragment, 0, FindOr(noFragment, '?'));
    noFragment[..FindOr(noFragment, '?')]
  }

  /** What follows the scheme, from the path on: a `//netloc` is skipped up to its first `/`. */
  function AfterNetloc(rest: string): (r: string)
    ensures forall c :: c in r ==> c in rest
  {
    if StartsWith(rest, "//") then
      SliceChars(rest, 2, |rest|);
      SliceChars(rest[2..], FindOr(rest[2..], '/'), |rest| - 2);
      rest[2..][FindOr(rest[2..], '/')..]
    else rest
  }

  /**
   * The path of a cleaned URL: no fragment, no query, no scheme, no
   * `//netloc`, and, for the schemes that use them, no `;params`.
   */
  function PathOf(u: string): (p: string)
    ensures '?' !in p && '#' !in p
    ensures forall c :: c in p ==> c in u
  {
    var noQuery := BeforeQuery(u);
    var split := SplitScheme(noQuery);
    var path := AfterNetloc(split.1);
    if split.0 in UsesParams then DropParams(path) else path
  }

  lemma SliceChars(s: string, i: nat, j: nat)
    requires i <= j <= |s|
    ensures forall c :: c in s[i..j] ==> c in s
  {
    forall c | c in s[i..j] ensures c in s {
      var k :| 0 <= k < j - i && s[i..j][k] == c;
      assert s[i + k] == c;
    }
  }

  /** `urlparse(url).path`. */
  function UrlPath(url: string): (p: string)
    ensures '?' !in p && '#' !in p
    ensures forall c :: c in p ==> c in url && !UnsafeUrlChar(c)
  {
    var u := CleanUrl(url);
    assert forall c :: c in u ==> c in url by {
      forall c | c in u ensures c in url {
        var s := LStripControl(url);
        assert c in s;
        var i :| 0 <= i < |s| && s[i] == c;
        assert url[|url| - |s| + i] == c;
      }
    }
    PathOf(u)
  }

  /** Removing unsafe characters works piece by piece. */
  lemma {:induction false} RemoveUnsafeAppend(a: string, b: string)
    ensures RemoveUnsafe(a + b) == RemoveUnsafe(a) + RemoveUnsafe(b)
    decreases |a|
  {
    if a != [] {
      assert (a + b)[1..] == a[1..] + b;
      RemoveUnsafeAppend(a[1..], b);
    } else {
      assert a + b == b;
    }
  }

  /** A text without tabs and line breaks is kept whole. */
  lemma {:induction false} RemoveUnsafeNone(s: string)
    requires forall i :: 0 <= i < |s| ==> !UnsafeUrlChar(s[i])
    ensures RemoveUnsafe(s) == s
    decreases |s|
  {
    if s != [] {
      RemoveUnsafeNone(s[1..]);
      assert s == [s[0]] + s[1..];
    }
  }

  /** A first character that is kept stays first. */
  lemma RemoveUnsafeHead(s: string)
    requires s != [] && !UnsafeUrlChar(s[0])
    ensures RemoveUnsafe(s) != [] && RemoveUnsafe(s)[0] == s[0]
  {
  }

  /** Leading control characters and spaces make no difference to the path. */
  lemma {:induction false} LStripControlSkips(lead: string, url: string)
    requires forall i :: 0 <= i < |lead| ==> ControlOrSpace(lead[i])
    ensures LStripControl(lead + url) == LStripControl(url)
    decreases |lead|
  {
    if lead != [] {
      assert (lead + url)[0] == lead[0];
      assert (lead + url)[1..] == lead[1..] + url;
      LStripControlSkips(lead[1..], url);
    } else {
      assert lead + url == url;
    }
  }

  /** ` https://host/a.tif` has the same path as `https://host/a.tif`. */
  lemma UrlPathSkipsLeadingControl(lead: string, url: string)
    requires forall i :: 0 <= i < |lead| ==> ControlOrSpace(lead[i])
    ensures UrlPath(lead + url) == UrlPath(url)
  {
    LStripControlSkips(lead, url);
  }

  /** Cleaning a URL that starts with a plain prefix cleans the rest piece by piece. */
  lemma CleanAfterPrefix(prefix: string, host: string, tail: string)
    requires prefix != [] && !ControlOrSpace(prefix[0])
    requires forall i :: 0 <= i < |prefix| ==> !UnsafeUrlChar(prefix[i])
    ensures CleanUrl(prefix + host + tail) == prefix + RemoveUnsafe(host) + RemoveUnsafe(tail)
  {
    var url := prefix + host + tail;
    assert url[0] == prefix[0];
    assert LStripControl(url) == url;
    RemoveUnsafeAppend(prefix + host, tail);
    RemoveUnsafeAppend(prefix, host);
    RemoveUnsafeNone(prefix);
  }

  /** An `https` URL, once cleaned, is `https://`, the cleaned host and the cleaned tail. */
  lemma CleanHttpsUrl(host: string, tail: string)
    ensures CleanUrl("https://" + host + tail) == "https://" + RemoveUnsafe(host) + RemoveUnsafe(tail)
  {
    var prefix := "https://";
    assert forall i :: 0 <= i < |prefix| ==> prefix[i] in "htps:/";
    CleanAfterPrefix(prefix, host, tail);
  }

  /** The first occurrence of `c` is where `b` starts, when `a` lacks it. */
  lemma {:induction false} IndexOfAfter(a: string, b: string, c: char)
    requires c !in a && b != [] && b[0] == c
    ensures c in a + b && IndexOf(a + b, c) == |a|
    decreases |a|
  {
    if a != [] {
      assert (a + b)[1..] == a[1..] + b;
      assert c !in a[1..];
      IndexOfAfter(a[1..], b, c);
    } else {
      assert a + b == b;
    }
  }

  lemma FindOrAbsent(s: string, c: char)
    requires c !in s
    ensures s[..FindOr(s, c)] == s
  {
  }

  /** `https:` is a scheme. */
  lemma SplitHttpsScheme(x: string)
    ensures SplitScheme("https://" + x) == ("https", "//" + x)
  {
    var s := "https://" + x;
    assert s == "https" + ("://" + x);
    IndexOfAfter("https", "://" + x, ':');
    assert forall j :: 0 <= j < 5 ==> SchemeChar(s[j]);
    assert s[..5] == "https";
    assert AsciiLower("https") == "https";
    assert s[6..] == "//" + x;
  }

  /** After the `//`, the host runs up to the first '/'. */
  lemma NetlocEnds(host: string, path: string)
    requires '/' !in host && (path == [] || path[0] == '/')
    ensures (host + path)[FindOr(host + path, '/')..] == path
  {
    if path != [] {
      IndexOfAfter(host, path, '/');
    } else {
      assert host + path == host;
    }
  }

  /** The path of a cleaned `https` URL without query or fragment is what follows its host. */
  lemma {:induction false} PathAfterHost(host: string, tail: string)
    requires '/' !in host && '?' !in host && '#' !in host
    requires '?' !in tail && '#' !in tail && (tail == [] || tail[0] == '/')
    ensures PathOf("https://" + host + tail) == DropParams(tail)
  {
    var url := "https://" + host + tail;
    assert url == "https://" + (host + tail);
    assert '#' !in url && '?' !in url;
    FindOrAbsent(url, '#');
    FindOrAbsent(url, '?');
    SplitHttpsScheme(host + tail);
    var rest := "//" + (host + tail);
    assert StartsWith(rest, "//") && rest[2..] == host + tail;
    NetlocEnds(host, tail);
    assert "https" in UsesParams;
  }

  /**
   * The path of an `https` URL without query or fragment is what follows
   * its host, rid of tabs and line breaks and of its `;params`.
   */
  lemma UrlPathAfterHost(host: string, tail: string)
    requires '/' !in host && '?' !in host && '#' !in host
    requires '?' !in tail && '#' !in tail && (tail == [] || tail[0] == '/')
    ensures UrlPath("https://" + host + tail) == DropParams(RemoveUnsafe(tail))
  {
    CleanHttpsUrl(host, tail);
    if tail != [] {
      RemoveUnsafeHead(tail);
    }
    PathAfterHost(RemoveUnsafe(host), RemoveUnsafe(tail));
  }

  /** A path without `;` keeps all of itself. */
  lemma DropParamsPlain(path: string)
    requires ';' !in path
    ensures DropParams(path) == path
  {
    var from := if '/' in path then RFind(path, '/') else 0;
    FindOrAbsent(path[from..], ';');
  }

  /** An `https` URL without query, fragment or params has as path what follows its host. */
  lemma UrlPathOfPlainUrl(host: string, path: string)
    requires '/' !in host && '?' !in host && '#' !in host
    requires '?' !in path && '#' !in path && ';' !in path && (path == [] || path[0] == '/')
    ensures UrlPath("https://" + host + path) == RemoveUnsafe(path)
    ensures (forall c :: c in path ==> !UnsafeUrlChar(c)) ==> UrlPath("https://" + host + path) == path
  {
    UrlPathAfterHost(host, path);
    DropParamsPlain(RemoveUnsafe(path));
    if forall c :: c in path ==> !UnsafeUrlChar(c) {
      assert forall i :: 0 <= i < |path| ==> path[i] in path;
      RemoveUnsafeNone(path);
    }
  }

  lemma LastSlashBeforeParams(path: string, params: string)
    requires '/' in path && '/' !in params
    ensures '/' in path + params && 0 <= RFind(path + params, '/') == RFind(path, '/') < |path|
  {
    RFindAppend(path, params, '/');
    assert (path + params)[RFind(path, '/')] == '/';
  }

  lemma FirstSemicolonIsParams(path: string, params: string, from: nat)
    requires ';' !in path && from < |path| && params != [] && params[0] == ';'
    ensures FindOr((path + params)[from..], ';') == |path| - from
  {
    var head := path[from..];
    assert ';' !in head by {
      forall k | 0 <= k < |head| ensures head[k] != ';' {
        assert head[k] == path[from + k];
      }
    }
    assert (path + params)[from..] == head + params;
    IndexOfAfter(head, params, ';');
  }

  /** `;params` after a path whose last segment has no `;` are cut off, and nothing else. */
  lemma DropParamsCutsParams(path: string, params: string)
    requires ';' !in path && '/' in path
    requires params != [] && params[0] == ';' && '/' !in params
    ensures DropParams(path + params) == path
  {
    LastSlashBeforeParams(path, params);
    FirstSemicolonIsParams(path, params, RFind(path, '/'));
    assert (path + params)[..|path|] == path;
  }

  /** Tabs and line breaks do not hide `;params` from being cut off. */
  lemma DropCleanParams(path: string, params: string)
    requires ';' !in path && path != [] && path[0] == '/'
    requires params != [] && params[0] == ';' && '/' !in params
    ensures DropParams(RemoveUnsafe(path + params)) == RemoveUnsafe(path)
  {
    RemoveUnsafeAppend(path, params);
    RemoveUnsafeHead(path);
    RemoveUnsafeHead(params);
    DropParamsCutsParams(RemoveUnsafe(path), RemoveUnsafe(params));
  }

  /**
   * `;params` after the last path segment are not part of the path:
   * `https://host/x/y;v=1.tif` has the path `/x/y`.
   */
  lemma UrlPathDropsParams(host: string, path: string, params: string)
    requires '/' !in host && '?' !in host && '#' !in host
    requires '?' !in path && '#' !in path && ';' !in path && path != [] && path[0] == '/'
    requires params != [] && params[0] == ';' && '/' !in params && '?' !in params && '#' !in params
    ensures UrlPath("https://" + host + path + params) == RemoveUnsafe(path)
  {
    var tail := path + params;
    assert "https://" + host + path + params == "https://" + host + tail;
    assert '?' !in tail && '#' !in tail && tail[0] == '/';
    UrlPathAfterHost(host, tail);
    DropCleanParams(path, params);
  }

  /** Which response is used and the extension that goes with it. */
  datatype Source = Source(url: string, extension: string)

  function ExtensionOf(url: string): (e: string)
    ensures e == [] || (e[0] == '.' && '/' !in e)
  {
    SplitExt(UrlPath(url)).1
  }

  /**
   * Lines 124-130: the uncompressed URL when it answers 200, otherwise the
   * catalog URL when that answers 200, otherwise nothing is saved. The
   * extension always comes from the URL whose response is used.
   */
  function ChooseSource(artworkUrl: string, upgradedUrl: string, upgradedStatus: int, fallbackStatus: int)
    : (r: Option<Source>)
    ensures r.Some? <==> upgradedStatus == 200 || fallbackStatus == 200
    ensures r.Some? ==> r.value.extension == ExtensionOf(r.value.url)
    ensures r.Some? && upgradedStatus == 200 ==> r.value.url == upgradedUrl
    ensures r.Some? && upgradedStatus != 200 ==> r.value.url == artworkUrl
  {
    if upgradedStatus == 200 then Some(Source(upgradedUrl, ExtensionOf(upgradedUrl)))
    else if fallbackStatus == 200 then Some(Source(artworkUrl, ExtensionOf(artworkUrl)))
    else None
  }

  // ------------------------------------------------------------------
  // Extension normalisation
  // ------------------------------------------------------------------

  predicate IsTiff(ext: string) { AsciiLower(ext) == ".tif" }

  /** TIFF is saved as PNG and `.jpeg` becomes `.jpg`; any other extension is kept as it is. */
  function NormalizeExtension(ext: string): (r: string)
    ensures AsciiLower(ext) != ".tif" && AsciiLower(ext) != ".jpeg" ==> r == ext
  {
    if IsTiff(ext) then ".png"
    else if AsciiLower(ext) == ".jpeg" then ".jpg"
    else ext
  }

  /** The normalised extension is neither TIFF nor `.jpeg` in any case, and normalising again changes nothing. */
  lemma NormalizeExtensionSettles(ext: string)
    ensures var n := NormalizeExtension(ext);
      && AsciiLower(n) != ".tif" && AsciiLower(n) != ".jpeg"
      && NormalizeExtension(n) == n
  {
    assert AsciiLower(".png") == ".png";
    assert AsciiLower(".jpg") == ".jpg";
    assert ".png" != ".tif" && ".png" != ".jpeg";
  }

  /** Upper-case TIFF and JPEG extensions are recognised too. */
  lemma NormalizeUpperCase()
    ensures NormalizeExtension(".TIF") == ".png" && NormalizeExtension(".JPEG") == ".jpg"
    ensures NormalizeExtension(".JPG") == ".JPG"
  {
    assert AsciiLower(".TIF") == ".tif";
    assert AsciiLower(".JPEG") == ".jpeg";
    assert AsciiLower(".JPG") == ".jpg";
  }

  // ------------------------------------------------------------------
  // Where the cover goes
  // ------------------------------------------------------------------

  /** An entry of the collection directory. */
  datatype Entry = Entry(name: string, isDir: bool)

  /** A directory that receives the cover: the collection directory or one of its subdirectories. */
  datatype Target = CollectionDir | DiscDir(name: string)

  /** Disc subdirectories are recognised by this prefix, not by the disc-number pattern. */
  const DiscPrefix: string := "Disc "

  predicate IsDiscName(name: string) { StartsWith(name, DiscPrefix) }

  predicate HasMusic(listing: seq<Entry>) {
    exists i :: 0 <= i < |listing| && IsAudioName(listing[i].name)
  }

  /** An entry of either kind named `Disc ...`. */
  predicate HasDiscEntry(listing: seq<Entry>) {
    exists i :: 0 <= i < |listing| && IsDiscName(listing[i].name)
  }

  /** The subdirectory an entry stands for when it is a `Disc ` directory. */
  function DiscTarget(e: Entry): seq<Target> {
    if e.isDir && IsDiscName(e.name) then [DiscDir(e.name)] else []
  }

  /** The `Disc ` subdirectories, in listing order. */
  function DiscTargets(listing: seq<Entry>): seq<Target>
    decreases |listing|
  {
    if listing == [] then []
    else DiscTargets(listing[..|listing| - 1]) + DiscTarget(listing[|listing| - 1])
  }

  lemma DiscTargetsStep(listing: seq<Entry>, i: nat)
    requires i < |listing|
    ensures DiscTargets(listing[..i + 1]) == DiscTargets(listing[..i]) + DiscTarget(listing[i])
  {
    assert listing[..i + 1][..i] == listing[..i];
  }

  /**
   * Lines 149-169: only the disc subdirectories when the collection
   * directory holds no music and has a `Disc ` entry, otherwise the
   * collection directory and then the disc subdirectories.
   */
  function CoverTargets(listing: seq<Entry>): seq<Target> {
    if !HasMusic(listing) && HasDiscEntry(listing) then DiscTargets(listing)
    else [CollectionDir] + DiscTargets(listing)
  }

  function CoverName(ext: string): string { "cover" + ext }

  /** Where a target's cover file is written. */
  function TargetPath(root: string, t: Target, ext: string): string {
    match t
    case CollectionDir => Join(root, CoverName(ext))
    case DiscDir(name) => Join(Join(root, name), CoverName(ext))
  }

  function TargetPaths(root: string, ts: seq<Target>, ext: string): (r: seq<string>)
    ensures |r| == |ts|
    decreases |ts|
  {
    if ts == [] then [] else [TargetPath(root, ts[0], ext)] + TargetPaths(root, ts[1..], ext)
  }

  lemma {:induction false} TargetPathsContain(root: string, ts: seq<Target>, ext: string, t: Target)
    requires t in ts
    ensures TargetPath(root, t, ext) in TargetPaths(root, ts, ext)
    decreases |ts|
  {
    if ts[0] != t {
      assert t in ts[1..];
      TargetPathsContain(root, ts[1..], ext, t);
    }
  }

  /** `any(name.endswith((".mp3", ".flac")) ...)`. */
  method AnyMusic(listing: seq<Entry>) returns (found: bool)
    ensures found <==> HasMusic(listing)
  {
    found := false;
    for i := 0 to |listing|
      invariant found <==> exists j :: 0 <= j < i && IsAudioName(listing[j].name)
    {
      if IsAudioName(listing[i].name) {
        found := true;
      }
    }
  }

  /** `any(name.startswith("Disc ") ...)`. */
  method AnyDiscEntry(listing: seq<Entry>) returns (found: bool)
    ensures found <==> HasDiscEntry(listing)
  {
    found := false;
    for i := 0 to |listing|
      invariant found <==> exists j :: 0 <= j < i && IsDiscName(listing[j].name)
    {
      if IsDiscName(listing[i].name) {
        found := true;
      }
    }
  }

  /** The placement loops: the same targets, accumulated entry by entry. */
  method PlaceCovers(listing: seq<Entry>) returns (targets: seq<Target>)
    ensures targets == CoverTargets(listing)
  {
    var hasMusic := AnyMusic(listing);
    var hasDisc := AnyDiscEntry(listing);
    var discs := CollectDiscTargets(listing);
    targets := if !hasMusic && hasDisc then discs else [CollectionDir] + discs;
  }

  /** The loop over the listing that collects the `Disc ` subdirectories. */
  method CollectDiscTargets(listing: seq<Entry>) returns (targets: seq<Target>)
    ensures targets == DiscTargets(listing)
  {
    targets := [];
    for i := 0 to |listing|
      invariant targets == DiscTargets(listing[..i])
    {
      DiscTargetsStep(listing, i);
      targets := targets + DiscTarget(listing[i]);
    }
    assert listing[..|listing|] == listing;
  }

  /** The disc targets are exactly the listed directories whose names start with `Disc `. */
  lemma {:induction false} DiscTargetsExactly(listing: seq<Entry>, t: Target)
    ensures t in DiscTargets(listing) <==>
      exists i :: 0 <= i < |listing| && listing[i].isDir && IsDiscName(listing[i].name)
                  && t == DiscDir(listing[i].name)
    decreases |listing|
  {
    if listing != [] {
      var n := |listing| - 1;
      var init := listing[..n];
      DiscTargetsExactly(init, t);
      assert forall i :: 0 <= i < n ==> init[i] == listing[i];
    }
  }

  /**
   * The collection directory gets a cover exactly when it holds music or has
   * no `Disc ` entry.
   */
  lemma RootCoverIff(listing: seq<Entry>)
    ensures CollectionDir in CoverTargets(listing) <==> HasMusic(listing) || !HasDiscEntry(listing)
  {
    DiscTargetsExactly(listing, CollectionDir);
  }

  /** A disc cover's path differs from the collection cover's path: it is longer. */
  lemma DiscCoverLonger(root: string, name: string, ext: string)
    requires IsDiscName(name)
    ensures |TargetPath(root, DiscDir(name), ext)| > |TargetPath(root, CollectionDir, ext)|
  {
    var c := CoverName(ext);
    assert name[..5][0] == name[0] && c[0] == 'c';
    assert !StartsWith(name, "/") && !StartsWith(c, "/");
  }

  /** Every cover is a file named `cover<ext>`. */
  lemma TargetIsCover(root: string, t: Target, ext: string)
    requires '/' !in ext && (t.DiscDir? ==> '/' !in t.name)
    ensures Basename(TargetPath(root, t, ext)) == CoverName(ext)
  {
    assert '/' !in CoverName(ext);
    match t {
      case CollectionDir =>
        BasenameOfJoin(root, CoverName(ext));
      case DiscDir(name) =>
        BasenameOfJoin(Join(root, name), CoverName(ext));
    }
  }

  /**
   * A collection directory whose only `Disc ` entry is a file, and which
   * holds no music, gets no cover anywhere.
   */
  lemma DiscFileOnlyGetsNoCover()
    ensures CoverTargets([Entry("Disc notes.txt", false)]) == []
  {
    var listing := [Entry("Disc notes.txt", false)];
    assert IsDiscName(listing[0].name);
    assert !EndsWith("Disc notes.txt", ".mp3") && !EndsWith("Disc notes.txt", ".flac");
    assert listing[..0] == [];
  }

  // ------------------------------------------------------------------
  // The effect on the collection's files
  // ------------------------------------------------------------------

  type Bytes = seq<bv8>

  /** The files under the collection directory, by path. */
  type Files = map<string, Bytes>

  predicate IsImageName(p: string) { EndsWith(p, ".jpg") || EndsWith(p, ".jpeg") || EndsWith(p, ".png") }

  /** Lines 144-147: every image file under the collection directory is removed. */
  function SweepImages(files: Files): (r: Files)
    ensures forall p :: p in r <==> p in files && !IsImageName(p)
    ensures forall p :: p in r ==> r[p] == files[p]
  {
    map p | p in files && !IsImageName(p) :: files[p]
  }

  /** Each path is written with the same contents, in order. */
  function WriteAll(files: Files, paths: seq<string>, content: Bytes): Files
    decreases |paths|
  {
    if paths == [] then files else WriteAll(files[paths[0] := content], paths[1..], content)
  }

  lemma {:induction false} WriteAllEffect(files: Files, paths: seq<string>, content: Bytes)
    ensures var r := WriteAll(files, paths, content);
      && (forall p :: p in paths ==> p in r && r[p] == content)
      && (forall p :: p !in paths ==> (p in r <==> p in files) && (p in r ==> r[p] == files[p]))
    decreases |paths|
  {
    if paths != [] {
      var next := files[paths[0] := content];
      var rest := paths[1..];
      var r := WriteAll(next, rest, content);
      WriteAllEffect(next, rest, content);
      forall p | p in paths ensures p in r && r[p] == content {
        if p !in rest {
          assert p == paths[0];
        }
      }
      forall p | p !in paths ensures (p in r <==> p in files) && (p in r ==> r[p] == files[p]) {
        assert p !in rest && p != paths[0];
      }
    }
  }

  /** The cover files written for a listing and a downloaded extension. */
  function CoverPaths(root: string, listing: seq<Entry>, ext: string): seq<string> {
    TargetPaths(root, CoverTargets(listing), NormalizeExtension(ext))
  }

  /**
   * The source's order: a TIFF is converted and saved as `cover.png` before
   * the sweep, which removes it; then the downloaded bytes are written
   * under the normalised extension. `listing` is the collection directory
   * as listed after the sweep, so it holds no image files. Every cover path
   * holds the download; every other path is gone if it is an image and
   * unchanged otherwise.
   */
  function SaveCoverAsWritten(files: Files, root: string, listing: seq<Entry>, ext: string,
                              content: Bytes, png: Bytes): (r: Files)
    ensures var paths := CoverPaths(root, listing, ext);
      && (forall p :: p in paths ==> p in r && r[p] == content)
      && (forall p :: p !in paths ==> (p in r <==> p in files && !IsImageName(p)))
      && (forall p :: p !in paths && p in r ==> r[p] == files[p])
  {
    var converted := if IsTiff(ext) then files[Join(root, "cover.png") := png] else files;
    var swept := SweepImages(converted);
    PngCoverIsImage(root);
    assert swept == SweepImages(files);
    WriteAllEffect(swept, CoverPaths(root, listing, ext), content);
    WriteAll(swept, CoverPaths(root, listing, ext), content)
  }

  /**
   * The evidently intended effect: the sweep first, then the converted image
   * where there is one. Every cover path holds the converted image for a
   * TIFF and the download otherwise; every other path is gone if it is an
   * image and unchanged otherwise.
   */
  function SaveCover(files: Files, root: string, listing: seq<Entry>, ext: string,
                     content: Bytes, png: Bytes): (r: Files)
    ensures var paths := CoverPaths(root, listing, ext);
      && (forall p :: p in paths ==> p in r && r[p] == (if IsTiff(ext) then png else content))
      && (forall p :: p !in paths ==> (p in r <==> p in files && !IsImageName(p)))
      && (forall p :: p !in paths && p in r ==> r[p] == files[p])
  {
    var data := if IsTiff(ext) then png else content;
    WriteAllEffect(SweepImages(files), CoverPaths(root, listing, ext), data);
    WriteAll(SweepImages(files), CoverPaths(root, listing, ext), data)
  }

  /** The collection cover of a TIFF download is `cover.png`, an image name. */
  lemma TiffRootCover(root: string, listing: seq<Entry>, ext: string)
    requires IsTiff(ext) && (HasMusic(listing) || !HasDiscEntry(listing))
    ensures Join(root, "cover.png") in CoverPaths(root, listing, ext)
    ensures IsImageName(Join(root, "cover.png"))
  {
    RootCoverIff(listing);
    assert NormalizeExtension(ext) == ".png";
    assert CoverName(".png") == "cover.png";
    TargetPathsContain(root, CoverTargets(listing), ".png", CollectionDir);
    PngCoverIsImage(root);
  }

  lemma PngCoverIsImage(root: string)
    ensures IsImageName(Join(root, "cover.png"))
  {
    var p := Join(root, "cover.png");
    JoinEndsWith(root, "cover.png");
    assert p[|p| - 4..] == p[|p| - 9..][5..];
    assert "cover.png"[5..] == ".png";
  }

  /**
   * As written, a TIFF cover ends up as the raw TIFF bytes under `cover.png`
   * in the collection directory, and the converted image is nowhere it was
   * not already.
   */
  lemma TiffCoverKeepsRawBytes(files: Files, root: string, listing: seq<Entry>, ext: string,
                               content: Bytes, png: Bytes)
    requires IsTiff(ext) && (HasMusic(listing) || !HasDiscEntry(listing))
    ensures var r := SaveCoverAsWritten(files, root, listing, ext, content, png);
      && Join(root, "cover.png") in r && r[Join(root, "cover.png")] == content
      && (forall p :: p in r && r[p] == png && png != content ==> p in files && files[p] == png)
  {
    TiffRootCover(root, listing, ext);
  }

  /** Apart from TIFF the two orders agree. */
  lemma SaveCoverAgreesOffTiff(files: Files, root: string, listing: seq<Entry>, ext: string,
                               content: Bytes, png: Bytes)
    requires !IsTiff(ext)
    ensures SaveCoverAsWritten(files, root, listing, ext, content, png)
         == SaveCover(files, root, listing, ext, content, png)
  {
  }
}
