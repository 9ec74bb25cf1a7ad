/**
 * Scanning the music library (itunesify.py `find_audio_files`,
 * `get_local_tags` and the directory loops of `itunesify`): which
 * collection directories are visited, which files in them are tracks, and
 * which artist, album, date and genre the local tags give. Directory
 * listings and the directory walk are parameters; the tags of each file are
 * given as tag maps.
 */
module Scan {
  import opened Wrappers
  import opened PyStr
  import opened Tags
  import opened Organize

  // ------------------------------------------------------------------
  // Sorting names (`list.sort()` and `sorted` on strings)
  // ------------------------------------------------------------------

  predicate SortedNames(s: seq<string>) {
    forall i, j :: 0 <= i < j < |s| ==> LessEq(s[i], s[j])
  }

  function InsertName(s: seq<string>, x: string): seq<string>
    decreases |s|
  {
    if s == [] || LessEq(x, s[0]) then [x] + s else [s[0]] + InsertName(s[1..], x)
  }

  /** Inserting adds exactly the one name. */
  lemma {:induction false} InsertNamePermutes(s: seq<string>, x: string)
    ensures multiset(InsertName(s, x)) == multiset(s) + multiset{x}
    decreases |s|
  {
    if s != [] && !LessEq(x, s[0]) {
      InsertNamePermutes(s[1..], x);
      assert s == [s[0]] + s[1..];
    }
  }

  lemma {:induction false} InsertNameSorted(s: seq<string>, x: string)
    requires SortedNames(s)
    ensures SortedNames(InsertName(s, x))
    decreases |s|
  {
    if s != [] && !LessEq(x, s[0]) {
      var t := InsertName(s[1..], x);
      InsertNameSorted(s[1..], x);
      forall k | 0 <= k < |t| ensures LessEq(s[0], t[k]) {
        HeadBelowInserted(s, x, k);
      }
      ConsSorted(s[0], t);
    } else {
      forall k | 0 <= k < |s| ensures LessEq(x, s[k]) {
        if k > 0 {
          LessEqTransitive(x, s[0], s[k]);
        }
      }
      ConsSorted(x, s);
    }
  }

  /** A name below every name of a sorted list can go in front of it. */
  lemma ConsSorted(h: string, t: seq<string>)
    requires SortedNames(t) && forall k :: 0 <= k < |t| ==> LessEq(h, t[k])
    ensures SortedNames([h] + t)
  {
    var r := [h] + t;
    forall i, j | 0 <= i < j < |r| ensures LessEq(r[i], r[j]) {
      assert r[j] == t[j - 1];
      if i > 0 {
        assert r[i] == t[i - 1];
      }
    }
  }

  /** The head of a sorted list stays below everything once a larger name goes into its tail. */
  lemma HeadBelowInserted(s: seq<string>, x: string, k: nat)
    requires SortedNames(s) && s != [] && !LessEq(x, s[0]) && k < |InsertName(s[1..], x)|
    ensures LessEq(s[0], InsertName(s[1..], x)[k])
  {
    var t := InsertName(s[1..], x);
    var y := t[k];
    InsertNamePermutes(s[1..], x);
    assert y in multiset(t);
    if y == x {
      LessEqTotal(x, s[0]);
    } else {
      assert y in multiset(s[1..]);
      var m :| 0 <= m < |s[1..]| && s[1..][m] == y;
      assert s[m + 1] == y;
    }
  }

  /** The names in ascending order: a sorted permutation. */
  function SortNames(s: seq<string>): seq<string>
    decreases |s|
  {
    if s == [] then [] else InsertName(SortNames(s[1..]), s[0])
  }

  /** `SortNames` returns a sorted permutation of its input. */
  lemma {:induction false} SortNamesSorted(s: seq<string>)
    ensures multiset(SortNames(s)) == multiset(s) && SortedNames(SortNames(s))
    decreases |s|
  {
    if s != [] {
      SortNamesSorted(s[1..]);
      InsertNameSorted(SortNames(s[1..]), s[0]);
      InsertNamePermutes(SortNames(s[1..]), s[0]);
      assert s == [s[0]] + s[1..];
    }
  }

  /** A sorted permutation is unique, so `SortNames` is the one `sorted` returns. */
  lemma {:induction false} SortedUnique(a: seq<string>, b: seq<string>)
    requires SortedNames(a) && SortedNames(b) && multiset(a) == multiset(b)
    ensures a == b
    decreases |a|
  {
    assert |a| == |multiset(a)| == |multiset(b)| == |b|;
    if a != [] {
      HeadIsLeast(a, b);
      HeadIsLeast(b, a);
      LessEqAntisymmetric(a[0], b[0]);
      assert a == [a[0]] + a[1..] && b == [b[0]] + b[1..];
      var ma, mb := multiset(a[1..]), multiset(b[1..]);
      assert multiset(a) == multiset{a[0]} + ma;
      assert multiset(b) == multiset{b[0]} + mb;
      forall x ensures ma[x] == mb[x] {
        assert multiset(a)[x] == multiset{a[0]}[x] + ma[x];
        assert multiset(b)[x] == multiset{b[0]}[x] + mb[x];
      }
      assert ma == mb;
      SortedUnique(a[1..], b[1..]);
    }
  }

  lemma HeadIsLeast(a: seq<string>, b: seq<string>)
    requires SortedNames(b) && multiset(a) == multiset(b) && a != []
    ensures b != [] && LessEq(b[0], a[0])
  {
    assert a[0] in multiset(b);
    var k :| 0 <= k < |b| && b[k] == a[0];
    if k == 0 {
      LessEqTotal(a[0], a[0]);
    }
  }

  // ------------------------------------------------------------------
  // find_audio_files
  // ------------------------------------------------------------------

  /** One step of `os.walk`: a directory's path and the names of the files in it. */
  datatype WalkDir = WalkDir(root: string, files: seq<string>)

  /** The audio files among `names`, joined to `root`, in the order of `names`. */
  function AudioIn(root: string, names: seq<string>): (r: seq<string>)
    ensures |r| <= |names|
    decreases |names|
  {
    if names == [] then []
    else
      var last := names[|names| - 1];
      AudioIn(root, names[..|names| - 1]) + (if IsAudioName(last) then [Join(root, last)] else [])
  }

  /** One directory's audio files, its names sorted. */
  function DirAudio(d: WalkDir): seq<string> {
    AudioIn(d.root, SortNames(d.files))
  }

  /** The walk's audio files: directory by directory, each directory's names sorted. */
  function AudioFiles(walk: seq<WalkDir>): seq<string>
    decreases |walk|
  {
    if walk == [] then []
    else AudioFiles(walk[..|walk| - 1]) + DirAudio(walk[|walk| - 1])
  }

  /** `find_audio_files(collection_path)` given the walk of the collection directory. */
  method FindAudioFiles(walk: seq<WalkDir>) returns (tracks: seq<string>)
    ensures tracks == AudioFiles(walk)
  {
    tracks := [];
    for d := 0 to |walk|
      invariant tracks == AudioFiles(walk[..d])
    {
      var root := walk[d].root;
      var names := SortNames(walk[d].files);
      ghost var before := tracks;
      for i := 0 to |names|
        invariant tracks == before + AudioIn(root, names[..i])
      {
        assert names[..i + 1][..i] == names[..i];
        if IsAudioName(names[i]) {
          tracks := tracks + [Join(root, names[i])];
        }
      }
      assert names[..|names|] == names;
      assert walk[..d + 1][..d] == walk[..d];
    }
    assert walk[..|walk|] == walk;
  }

  lemma EndsWithTransitive(s: string, t: string, u: string)
    requires EndsWith(s, t) && EndsWith(t, u)
    ensures EndsWith(s, u)
  {
    assert s[|s| - |u|..] == t[|t| - |u|..];
  }

  /** The paths from one listing are its audio names, each joined to the directory. */
  lemma {:induction false} AudioInExactly(root: string, names: seq<string>, p: string)
    ensures p in AudioIn(root, names) <==> exists f :: f in names && IsAudioName(f) && p == Join(root, f)
    decreases |names|
  {
    if names != [] {
      var init := names[..|names| - 1];
      var last := names[|names| - 1];
      AudioInExactly(root, init, p);
      assert names == init + [last];
    }
  }

  /** Sorting the listing changes the order of a directory's tracks, not which they are. */
  lemma DirAudioExactly(d: WalkDir, p: string)
    ensures p in DirAudio(d) <==> exists f :: f in d.files && IsAudioName(f) && p == Join(d.root, f)
  {
    var names := SortNames(d.files);
    SortNamesSorted(d.files);
    AudioInExactly(d.root, names, p);
    forall f ensures f in names <==> f in d.files {
      assert f in names <==> f in multiset(names);
      assert f in d.files <==> f in multiset(d.files);
    }
  }

  /** A path is found exactly when one directory of the walk yields it. */
  lemma {:induction false} AudioFilesPerDir(walk: seq<WalkDir>, p: string)
    ensures p in AudioFiles(walk) <==> exists d :: 0 <= d < |walk| && p in DirAudio(walk[d])
    decreases |walk|
  {
    if walk != [] {
      var n := |walk| - 1;
      var init := walk[..n];
      AudioFilesPerDir(init, p);
      assert AudioFiles(walk) == AudioFiles(init) + DirAudio(walk[n]);
      if p in AudioFiles(walk) {
        if p in AudioFiles(init) {
          var d :| 0 <= d < n && p in DirAudio(init[d]);
          assert init[d] == walk[d];
        } else {
          assert p in DirAudio(walk[n]);
        }
      } else {
        forall d | 0 <= d < |walk| ensures p !in DirAudio(walk[d]) {
          if d < n {
            assert init[d] == walk[d];
          }
        }
      }
    }
  }

  /**
   * The walk yields exactly the `.flac` and `.mp3` files of each directory,
   * each joined to its directory.
   */
  lemma AudioFilesExactly(walk: seq<WalkDir>, p: string)
    ensures p in AudioFiles(walk) <==>
      exists d, f :: 0 <= d < |walk| && f in walk[d].files && IsAudioName(f) && p == Join(walk[d].root, f)
  {
    AudioFilesPerDir(walk, p);
    forall d | 0 <= d < |walk| {
      DirAudioExactly(walk[d], p);
    }
  }

  /** Every track found ends in `.flac` or `.mp3`. */
  lemma AudioFilesAreAudio(walk: seq<WalkDir>, p: string)
    requires p in AudioFiles(walk)
    ensures EndsWith(p, FlacSuffix) || EndsWith(p, Mp3Suffix)
  {
    AudioFilesExactly(walk, p);
    var d, f :| 0 <= d < |walk| && f in walk[d].files && IsAudioName(f) && p == Join(walk[d].root, f);
    JoinEndsWith(walk[d].root, f);
    if EndsWith(f, FlacSuffix) {
      EndsWithTransitive(p, f, FlacSuffix);
    } else {
      EndsWithTransitive(p, f, Mp3Suffix);
    }
  }

  // ------------------------------------------------------------------
  // get_local_tags
  // ------------------------------------------------------------------

  /** What `get_local_tags` returns: each field may stay `None`. */
  datatype LocalTags = LocalTags(artist: Option<string>, album: Option<string>,
                                 date: Option<string>, genre: Option<string>)

  /** Python truthiness of an optional string: present and not empty. */
  predicate Truthy(v: Option<string>) { v.Some? && v.value != "" }

  /**
   * One field of `get_local_tags` from the remaining tracks on, given its
   * value so far: the first value of the field's tag is taken from each
   * track while the value is falsy. `None` where the source raises: the tag
   * holds no value, or a required tag (`artist`, `album`) is missing.
   */
  function ScanField(tracks: seq<TagMap>, key: TagName, required: bool, cur: Option<string>)
    : Option<Option<string>>
    decreases |tracks|
  {
    if tracks == [] || Truthy(cur) then Some(cur)
    else if key in tracks[0] then
      if tracks[0][key] == [] then None
      else ScanField(tracks[1..], key, required, Some(tracks[0][key][0]))
    else if required then None
    else ScanField(tracks[1..], key, required, cur)
  }

  /** `get_local_tags`: `None` when it raises. */
  function LocalTagsOf(tracks: seq<TagMap>): Option<LocalTags> {
    var artist := ScanField(tracks, Artist, true, None);
    var album := ScanField(tracks, Album, true, None);
    var date := ScanField(tracks, Date, false, None);
    var genre := ScanField(tracks, Genre, false, None);
    if artist.Some? && album.Some? && date.Some? && genre.Some?
    then Some(LocalTags(artist.value, album.value, date.value, genre.value))
    else None
  }

  /** The track loop of `get_local_tags`. */
  method GetLocalTags(tracks: seq<TagMap>) returns (r: Option<LocalTags>)
    ensures r == LocalTagsOf(tracks)
  {
    var artist: Option<string> := None;
    var album: Option<string> := None;
    var date: Option<string> := None;
    var genre: Option<string> := None;
    for i := 0 to |tracks|
      invariant ScanField(tracks, Artist, true, None) == ScanField(tracks[i..], Artist, true, artist)
      invariant ScanField(tracks, Album, true, None) == ScanField(tracks[i..], Album, true, album)
      invariant ScanField(tracks, Date, false, None) == ScanField(tracks[i..], Date, false, date)
      invariant ScanField(tracks, Genre, false, None) == ScanField(tracks[i..], Genre, false, genre)
    {
      var t := tracks[i];
      assert tracks[i..][0] == t && tracks[i..][1..] == tracks[i + 1..];
      if !Truthy(artist) {
        if Artist !in t || t[Artist] == [] {
          return None;
        }
        artist := Some(t[Artist][0]);
      }
      if !Truthy(album) {
        if Album !in t || t[Album] == [] {
          return None;
        }
        album := Some(t[Album][0]);
      }
      if !Truthy(date) && Date in t {
        if t[Date] == [] {
          return None;
        }
        date := Some(t[Date][0]);
      }
      if !Truthy(genre) && Genre in t {
        if t[Genre] == [] {
          return None;
        }
        genre := Some(t[Genre][0]);
      }
    }
    assert tracks[|tracks|..] == [];
    r := Some(LocalTags(artist, album, date, genre));
  }

  /** A track whose tag holds a non-empty first value, after tracks whose value is empty or (if optional) absent. */
  predicate FirstNonEmptyAt(tracks: seq<TagMap>, key: TagName, required: bool, i: nat) {
    && i < |tracks| && key in tracks[i] && tracks[i][key] != [] && tracks[i][key][0] != ""
    && forall j :: 0 <= j < i ==>
         (key in tracks[j] ==> tracks[j][key] != [] && tracks[j][key][0] == "")
         && (required ==> key in tracks[j])
  }

  /** The field takes the first non-empty value; later tracks are not read for it. */
  lemma {:induction false} ScanTakesFirstNonEmpty(tracks: seq<TagMap>, key: TagName, required: bool,
                                                  cur: Option<string>, i: nat)
    requires !Truthy(cur) && FirstNonEmptyAt(tracks, key, required, i)
    ensures ScanField(tracks, key, required, cur) == Some(Some(tracks[i][key][0]))
    decreases i
  {
    if i > 0 {
      var next := if key in tracks[0] then Some(tracks[0][key][0]) else cur;
      assert FirstNonEmptyAt(tracks[1..], key, required, i - 1) by {
        forall j | 0 <= j < i - 1
          ensures (key in tracks[1..][j] ==> tracks[1..][j][key] != [] && tracks[1..][j][key][0] == "")
                  && (required ==> key in tracks[1..][j])
        {
          assert tracks[1..][j] == tracks[j + 1];
        }
      }
      ScanTakesFirstNonEmpty(tracks[1..], key, required, next, i - 1);
    }
  }

  /** Conversely, a non-empty value the field ends with is the first non-empty value among the tracks. */
  lemma {:induction false} ScanValueIsFirstNonEmpty(tracks: seq<TagMap>, key: TagName, required: bool,
                                                    cur: Option<string>, v: string)
    requires !Truthy(cur) && v != "" && ScanField(tracks, key, required, cur) == Some(Some(v))
    ensures exists i: nat :: FirstNonEmptyAt(tracks, key, required, i) && tracks[i][key][0] == v
    decreases |tracks|
  {
    assert tracks != [];
    var t := tracks[0];
    assert key in t ==> t[key] != [];
    assert required ==> key in t;
    if key in t && t[key][0] != "" {
      assert FirstNonEmptyAt(tracks, key, required, 0);
    } else {
      var next := if key in t then Some(t[key][0]) else cur;
      assert ScanField(tracks[1..], key, required, next) == Some(Some(v));
      ScanValueIsFirstNonEmpty(tracks[1..], key, required, next, v);
      var i: nat :| FirstNonEmptyAt(tracks[1..], key, required, i) && tracks[1..][i][key][0] == v;
      assert tracks[i + 1] == tracks[1..][i];
      assert FirstNonEmptyAt(tracks, key, required, i + 1) by {
        forall j | 0 <= j < i + 1
          ensures (key in tracks[j] ==> tracks[j][key] != [] && tracks[j][key][0] == "")
                  && (required ==> key in tracks[j])
        {
          if j > 0 {
            assert tracks[j] == tracks[1..][j - 1];
          }
        }
      }
    }
  }

  /** An optional tag that no track carries stays `None`. */
  lemma {:induction false} AbsentOptionalStaysNone(tracks: seq<TagMap>, key: TagName)
    requires forall j :: 0 <= j < |tracks| ==> key !in tracks[j]
    ensures ScanField(tracks, key, false, None) == Some(None)
    decreases |tracks|
  {
    if tracks != [] {
      assert forall j :: 0 <= j < |tracks| - 1 ==> tracks[1..][j] == tracks[j + 1];
      AbsentOptionalStaysNone(tracks[1..], key);
    }
  }

  /** A first track without an `artist` tag makes `get_local_tags` raise. */
  lemma MissingArtistFails(tracks: seq<TagMap>)
    requires tracks != [] && Artist !in tracks[0]
    ensures LocalTagsOf(tracks) == None
  {
  }

  // ------------------------------------------------------------------
  // Which collection directories are visited
  // ------------------------------------------------------------------

  const HiddenPrefix: string := "."

  predicate IsHidden(name: string) { StartsWith(name, HiddenPrefix) }

  /** The skip test as written: a substring test on the whole collection path. */
  predicate SkippedAsWritten(collectionPath: string) {
    Contains(collectionPath, AlbumsBucket) || Contains(collectionPath, SinglesBucket)
  }

  predicate IsBucketName(name: string) { name == AlbumsBucket || name == SinglesBucket }

  /**
   * The evidently intended skip test: the collection is a bucket directory,
   * or lies in one, below the music directory.
   */
  predicate SkippedAsBucket(artistDir: string, collectionDir: string) {
    IsBucketName(artistDir) || IsBucketName(collectionDir)
  }

  /** As written, a collection whose own name contains `Albums` is skipped, whatever the rest of the path. */
  lemma TitleWithAlbumsIsSkipped(musicDir: string, artistDir: string, collectionDir: string)
    requires Contains(collectionDir, AlbumsBucket)
    ensures SkippedAsWritten(Join(Join(musicDir, artistDir), collectionDir))
  {
    var p := Join(Join(musicDir, artistDir), collectionDir);
    JoinEndsWith(Join(musicDir, artistDir), collectionDir);
    EndsWithContains(p, collectionDir);
    ContainsWithin(p, collectionDir, AlbumsBucket);
  }

  /** As written, once the music directory's own path contains `Albums`, every collection is skipped. */
  lemma RootWithAlbumsSkipsAll(musicDir: string, artistDir: string, collectionDir: string)
    requires Contains(musicDir, AlbumsBucket)
    requires collectionDir != [] && collectionDir[0] != '/' && artistDir != [] && artistDir[0] != '/'
    ensures SkippedAsWritten(Join(Join(musicDir, artistDir), collectionDir))
  {
    var ap := Join(musicDir, artistDir);
    var p := Join(ap, collectionDir);
    assert p[..|musicDir|] == musicDir;
    ContainsAt(p, musicDir, 0);
    ContainsWithin(p, musicDir, AlbumsBucket);
  }

  /**
   * The written rule overreaches in two ways: `Greatest Albums` is no bucket
   * but contains `Albums`, and so does the music directory `/srv/Albums`;
   * the corrected rule skips neither.
   */
  lemma SkipAsWrittenOverreaches()
    ensures !SkippedAsBucket("Artist", "Greatest Albums")
    ensures SkippedAsWritten(Join(Join("/music", "Artist"), "Greatest Albums"))
    ensures !SkippedAsBucket("Artist", "Debut")
    ensures SkippedAsWritten(Join(Join("/srv/Albums", "Artist"), "Debut"))
  {
    TitleOverreach("/music", "Artist", "Greatest Albums");
    RootOverreach("/srv/Albums", "Artist", "Debut");
  }

  lemma TitleOverreach(musicDir: string, artistDir: string, title: string)
    requires title == "Greatest Albums"
    ensures SkippedAsWritten(Join(Join(musicDir, artistDir), title))
  {
    assert title[9..15] == AlbumsBucket;
    ContainsAt(title, AlbumsBucket, 9);
    TitleWithAlbumsIsSkipped(musicDir, artistDir, title);
  }

  lemma RootOverreach(root: string, artistDir: string, collectionDir: string)
    requires root == "/srv/Albums" && artistDir == "Artist" && collectionDir == "Debut"
    ensures SkippedAsWritten(Join(Join(root, artistDir), collectionDir))
  {
    assert root[5..11] == AlbumsBucket;
    ContainsAt(root, AlbumsBucket, 5);
    RootWithAlbumsSkipsAll(root, artistDir, collectionDir);
  }

  /** The corrected rule skips nothing the source's rule processes. */
  lemma SkippedAsBucketIsSkippedAsWritten(musicDir: string, artistDir: string, collectionDir: string)
    requires SkippedAsBucket(artistDir, collectionDir)
    requires collectionDir != [] && collectionDir[0] != '/' && artistDir != [] && artistDir[0] != '/'
    ensures SkippedAsWritten(Join(Join(musicDir, artistDir), collectionDir))
  {
    var ap := Join(musicDir, artistDir);
    var p := Join(ap, collectionDir);
    if IsBucketName(collectionDir) {
      JoinEndsWith(ap, collectionDir);
      EndsWithContains(p, collectionDir);
    } else {
      JoinEndsWith(musicDir, artistDir);
      EndsWithContains(ap, artistDir);
      assert p[..|ap|] == ap;
      ContainsAt(p, ap, 0);
      ContainsWithin(p, ap, artistDir);
    }
  }

  /**
   * Which skip test decides that a collection is not processed: line 655's
   * substring test on the joined path, or the evidently intended test on
   * the bucket names.
   */
  datatype SkipRule = AsWritten | AsBucket

  predicate Skipped(rule: SkipRule, musicDir: string, artistDir: string, collectionDir: string) {
    match rule
    case AsWritten => SkippedAsWritten(Join(Join(musicDir, artistDir), collectionDir))
    case AsBucket => SkippedAsBucket(artistDir, collectionDir)
  }

  /** The collections of one artist: its sorted listing without hidden entries and skipped ones. */
  function ArtistCollections(rule: SkipRule, musicDir: string, artistDir: string, names: seq<string>)
    : seq<(string, string)>
    decreases |names|
  {
    if names == [] then []
    else
      var c := names[|names| - 1];
      ArtistCollections(rule, musicDir, artistDir, names[..|names| - 1])
        + (if IsHidden(c) || Skipped(rule, musicDir, artistDir, c) then [] else [(artistDir, c)])
  }

  /** One artist's visited collections: none for a hidden artist entry. */
  function ArtistPart(rule: SkipRule, musicDir: string, a: string, listDir: string -> seq<string>)
    : seq<(string, string)>
  {
    if IsHidden(a) then [] else ArtistCollections(rule, musicDir, a, SortNames(listDir(Join(musicDir, a))))
  }

  /**
   * The `(artist, collection)` directory names visited, in order: artists
   * in listing order, each artist's collections sorted by name; the paths
   * are `musicDir/artist` and `musicDir/artist/collection`.
   */
  function Collections(rule: SkipRule, musicDir: string, artists: seq<string>, listDir: string -> seq<string>)
    : seq<(string, string)>
    decreases |artists|
  {
    if artists == [] then []
    else
      Collections(rule, musicDir, artists[..|artists| - 1], listDir)
        + ArtistPart(rule, musicDir, artists[|artists| - 1], listDir)
  }

  /** The inner directory loop of `itunesify`: one artist's sorted listing, skipping as line 655 does. */
  method VisitArtist(musicDir: string, a: string, names: seq<string>) returns (part: seq<(string, string)>)
    ensures part == ArtistCollections(AsWritten, musicDir, a, names)
  {
    part := [];
    for i := 0 to |names|
      invariant part == ArtistCollections(AsWritten, musicDir, a, names[..i])
    {
      assert names[..i + 1][..i] == names[..i];
      var c := names[i];
      if !IsHidden(c) {
        var collectionPath := Join(Join(musicDir, a), c);
        if !(Contains(collectionPath, AlbumsBucket) || Contains(collectionPath, SinglesBucket)) {
          part := part + [(a, c)];
        }
      }
    }
    assert names[..|names|] == names;
  }

  /** The two directory loops of `itunesify`. */
  method VisitCollections(musicDir: string, listDir: string -> seq<string>) returns (visited: seq<(string, string)>)
    ensures visited == Collections(AsWritten, musicDir, listDir(musicDir), listDir)
  {
    var artists := listDir(musicDir);
    visited := [];
    for k := 0 to |artists|
      invariant visited == Collections(AsWritten, musicDir, artists[..k], listDir)
    {
      CollectionsSnoc(AsWritten, musicDir, artists, k, listDir);
      var a := artists[k];
      if !IsHidden(a) {
        var part := VisitArtist(musicDir, a, SortNames(listDir(Join(musicDir, a))));
        visited := visited + part;
      }
    }
    assert artists[..|artists|] == artists;
  }

  lemma InConcat<T>(x: T, a: seq<T>, b: seq<T>)
    requires x in a || x in b
    ensures x in a + b
  {
  }

  lemma CollectionsSnoc(rule: SkipRule, musicDir: string, artists: seq<string>, k: nat,
                        listDir: string -> seq<string>)
    requires k < |artists|
    ensures Collections(rule, musicDir, artists[..k + 1], listDir)
            == Collections(rule, musicDir, artists[..k], listDir) + ArtistPart(rule, musicDir, artists[k], listDir)
  {
    assert artists[..k + 1][..k] == artists[..k];
  }

  lemma {:induction false} ArtistCollectionsExactly(rule: SkipRule, musicDir: string, a: string,
                                                    names: seq<string>, x: (string, string))
    ensures x in ArtistCollections(rule, musicDir, a, names) <==>
      x.0 == a && x.1 in names && !IsHidden(x.1) && !Skipped(rule, musicDir, a, x.1)
    decreases |names|
  {
    if names != [] {
      var init := names[..|names| - 1];
      ArtistCollectionsExactly(rule, musicDir, a, init, x);
      assert names == init + [names[|names| - 1]];
    }
  }

  /** Sorting an artist's listing does not change which of its collections are visited. */
  lemma ArtistPartExactly(rule: SkipRule, musicDir: string, a: string, listDir: string -> seq<string>,
                          x: (string, string))
    ensures x in ArtistPart(rule, musicDir, a, listDir) <==>
      && x.0 == a && !IsHidden(a)
      && x.1 in listDir(Join(musicDir, a)) && !IsHidden(x.1) && !Skipped(rule, musicDir, a, x.1)
  {
    if !IsHidden(a) {
      var listing := listDir(Join(musicDir, a));
      var names := SortNames(listing);
      SortNamesSorted(listing);
      ArtistCollectionsExactly(rule, musicDir, a, names, x);
      assert x.1 in names <==> x.1 in multiset(names);
      assert x.1 in listing <==> x.1 in multiset(listing);
    }
  }

  /** A visited pair comes from one artist's part. */
  lemma {:induction false} CollectionsFromArtist(rule: SkipRule, musicDir: string, artists: seq<string>,
                                                 listDir: string -> seq<string>, x: (string, string))
    returns (k: nat)
    requires x in Collections(rule, musicDir, artists, listDir)
    ensures k < |artists| && x in ArtistPart(rule, musicDir, artists[k], listDir)
    decreases |artists|
  {
    var n := |artists| - 1;
    var init := artists[..n];
    if x in Collections(rule, musicDir, init, listDir) {
      k := CollectionsFromArtist(rule, musicDir, init, listDir, x);
      assert init[k] == artists[k];
    } else {
      k := n;
    }
  }

  /** Every pair of every artist's part is visited. */
  lemma ArtistInCollections(rule: SkipRule, musicDir: string, artists: seq<string>,
                            listDir: string -> seq<string>, x: (string, string), k: nat)
    requires k < |artists| && x in ArtistPart(rule, musicDir, artists[k], listDir)
    ensures x in Collections(rule, musicDir, artists, listDir)
  {
    var upTo := Collections(rule, musicDir, artists[..k + 1], listDir);
    CollectionsSnoc(rule, musicDir, artists, k, listDir);
    InConcat(x, Collections(rule, musicDir, artists[..k], listDir), ArtistPart(rule, musicDir, artists[k], listDir));
    CollectionsPrefix(rule, musicDir, artists, k + 1, listDir);
    InPrefix(x, upTo, Collections(rule, musicDir, artists, listDir));
  }

  /** The pairs visited for the first `m` artists come first. */
  lemma {:induction false} CollectionsPrefix(rule: SkipRule, musicDir: string, artists: seq<string>, m: nat,
                                             listDir: string -> seq<string>)
    requires m <= |artists|
    ensures Collections(rule, musicDir, artists[..m], listDir) <= Collections(rule, musicDir, artists, listDir)
    decreases |artists| - m
  {
    if m < |artists| {
      CollectionsSnoc(rule, musicDir, artists, m, listDir);
      CollectionsPrefix(rule, musicDir, artists, m + 1, listDir);
    } else {
      assert artists[..m] == artists;
    }
  }

  lemma InPrefix<T>(x: T, a: seq<T>, c: seq<T>)
    requires x in a && a <= c
    ensures x in c
  {
    var i :| 0 <= i < |a| && a[i] == x;
    assert c[i] == x;
  }

  /**
   * A pair is visited exactly when the artist is listed and not hidden and
   * the collection is listed in the artist's directory, is not hidden and
   * is not skipped by the rule: with the corrected rule, is not a bucket.
   */
  lemma CollectionsExactly(rule: SkipRule, musicDir: string, artists: seq<string>,
                           listDir: string -> seq<string>, x: (string, string))
    ensures x in Collections(rule, musicDir, artists, listDir) <==>
      && x.0 in artists && !IsHidden(x.0)
      && x.1 in listDir(Join(musicDir, x.0)) && !IsHidden(x.1) && !Skipped(rule, musicDir, x.0, x.1)
  {
    if x in Collections(rule, musicDir, artists, listDir) {
      var k := CollectionsFromArtist(rule, musicDir, artists, listDir, x);
      ArtistPartExactly(rule, musicDir, artists[k], listDir, x);
    }
    if x.0 in artists && !IsHidden(x.0) && x.1 in listDir(Join(musicDir, x.0))
       && !IsHidden(x.1) && !Skipped(rule, musicDir, x.0, x.1)
    {
      var k :| 0 <= k < |artists| && artists[k] == x.0;
      ArtistPartExactly(rule, musicDir, artists[k], listDir, x);
      ArtistInCollections(rule, musicDir, artists, listDir, x, k);
    }
  }

  /**
   * Every collection the source processes is one the corrected rule
   * processes too; directory entries are never empty and never start with
   * a separator.
   */
  lemma VisitedAsWrittenVisitedAsBucket(musicDir: string, artists: seq<string>,
                                        listDir: string -> seq<string>, x: (string, string))
    requires x in Collections(AsWritten, musicDir, artists, listDir)
    requires x.0 != [] && x.0[0] != '/' && x.1 != [] && x.1[0] != '/'
    ensures x in Collections(AsBucket, musicDir, artists, listDir)
  {
    CollectionsExactly(AsWritten, musicDir, artists, listDir, x);
    if SkippedAsBucket(x.0, x.1) {
      SkippedAsBucketIsSkippedAsWritten(musicDir, x.0, x.1);
    }
    CollectionsExactly(AsBucket, musicDir, artists, listDir, x);
  }

  /**
   * A listed, non-hidden collection that is no bucket but whose joined path
   * passes line 655's substring test is visited by the corrected rule only.
   */
  lemma VisitedOnlyAsBucket(musicDir: string, artists: seq<string>, listDir: string -> seq<string>,
                            x: (string, string))
    requires x.0 in artists && !IsHidden(x.0) && x.1 in listDir(Join(musicDir, x.0)) && !IsHidden(x.1)
    requires !SkippedAsBucket(x.0, x.1) && SkippedAsWritten(Join(Join(musicDir, x.0), x.1))
    ensures x in Collections(AsBucket, musicDir, artists, listDir)
    ensures x !in Collections(AsWritten, musicDir, artists, listDir)
  {
    CollectionsExactly(AsBucket, musicDir, artists, listDir, x);
    CollectionsExactly(AsWritten, musicDir, artists, listDir, x);
  }

  /** `Greatest Albums` is a collection the corrected rule visits and the source skips. */
  lemma GreatestAlbumsVisitedOnlyAsBucket(musicDir: string, listDir: string -> seq<string>)
    requires "Artist" in listDir(musicDir) && "Greatest Albums" in listDir(Join(musicDir, "Artist"))
    ensures ("Artist", "Greatest Albums") in Collections(AsBucket, musicDir, listDir(musicDir), listDir)
    ensures ("Artist", "Greatest Albums") !in Collections(AsWritten, musicDir, listDir(musicDir), listDir)
  {
    TitleOverreach(musicDir, "Artist", "Greatest Albums");
    assert "Artist"[0] != '.' && "Greatest Albums"[0] != '.';
    assert "Artist"[1] != AlbumsBucket[1] && |"Artist"| != |SinglesBucket|;
    assert |"Greatest Albums"| != |AlbumsBucket| && |"Greatest Albums"| != |SinglesBucket|;
    VisitedOnlyAsBucket(musicDir, listDir(musicDir), listDir, ("Artist", "Greatest Albums"));
  }
}
