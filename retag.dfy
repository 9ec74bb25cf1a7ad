/**
 * Retagging (itunesify.py `retag_files`): the local files are ordered by
 * their integer `tracknumber` tag, zipped by position with the release's
 * track list, cleared and rewritten, and renamed `NN Title.ext` beside
 * where they are.
 */
module Retag {
  import opened Wrappers
  import opened PyStr
  import opened Censor
  import opened Catalog
  import opened Tags
  import opened Sanitize
  import opened DiscInfo

  /** A local audio file: its path and its tags as the tag library reads them. */
  datatype AudioFile = AudioFile(path: string, tags: TagMap)

  /** What retagging one file produces: its old path, its new path and its final tags. */
  datatype Retagged = Retagged(oldPath: string, newPath: string, tags: TagMap)

  // ------------------------------------------------------------------
  // Ordering by track number
  // ------------------------------------------------------------------

  /** The sort key `int(tags["tracknumber"][0])`, or `None` where that raises. */
  function TrackKey(f: AudioFile): Option<int> {
    if TrackNumber in f.tags && f.tags[TrackNumber] != [] then ParseInt(f.tags[TrackNumber][0]) else None
  }

  /** The key of a file whose track number reads, and 0 for one whose does not. */
  function KeyOf(f: AudioFile): int {
    var k := TrackKey(f);
    if k.Some? then k.value else 0
  }

  /** Every file's sort key, in file order. */
  function TrackKeys(files: seq<AudioFile>): (ks: seq<Option<int>>)
    ensures |ks| == |files|
  {
    if files == [] then [] else TrackKeys(files[..|files| - 1]) + [TrackKey(files[|files| - 1])]
  }

  lemma {:induction false} TrackKeysAt(files: seq<AudioFile>)
    ensures forall i :: 0 <= i < |files| ==> TrackKeys(files)[i] == TrackKey(files[i])
  {
    if files != [] {
      var n := |files| - 1;
      TrackKeysAt(files[..n]);
      assert forall i :: 0 <= i < n ==> files[..n][i] == files[i];
    }
  }

  /**
   * The items paired with their keys, as `sorted` computes every key before
   * it compares anything, or `None` when some key raises.
   */
  function Decorate<T>(xs: seq<T>, ks: seq<Option<int>>): (r: Option<seq<(int, T)>>)
    requires |ks| == |xs|
    ensures r.None? <==> exists i :: 0 <= i < |ks| && ks[i].None?
    ensures r.Some? ==> |r.value| == |xs|
                        && forall i :: 0 <= i < |xs| ==> ks[i] == Some(r.value[i].0) && r.value[i].1 == xs[i]
  {
    if xs == [] then Some([])
    else
      var n := |xs| - 1;
      assert forall i :: 0 <= i < n ==> xs[..n][i] == xs[i] && ks[..n][i] == ks[i];
      match Decorate(xs[..n], ks[..n])
      case None => None
      case Some(d) =>
        match ks[n]
        case None => None
        case Some(k) => Some(d + [(k, xs[n])])
  }

  predicate SortedByKey<T>(s: seq<(int, T)>) {
    forall i, j :: 0 <= i < j < |s| ==> s[i].0 <= s[j].0
  }

  /** `x` placed before the first pair whose key is not smaller than its own. */
  function Insert<T>(s: seq<(int, T)>, x: (int, T)): (r: seq<(int, T)>)
    ensures multiset(r) == multiset(s) + multiset{x}
  {
    if s == [] || x.0 <= s[0].0 then [x] + s
    else
      assert s == [s[0]] + s[1..];
      [s[0]] + Insert(s[1..], x)
  }

  /**
   * Python's stable `sorted` on the keys, as an insertion sort that inserts
   * each pair into the sorted pairs after it, ahead of any equal key.
   */
  function Sort<T>(s: seq<(int, T)>): (r: seq<(int, T)>)
    ensures SortedByKey(r) && multiset(r) == multiset(s)
  {
    if s == [] then []
    else
      assert s == [s[0]] + s[1..];
      var t := Sort(s[1..]);
      InsertSorted(t, s[0]);
      Insert(t, s[0])
  }

  function Undecorate<T>(s: seq<(int, T)>): (r: seq<T>)
    ensures |r| == |s| && forall i :: 0 <= i < |s| ==> r[i] == s[i].1
  {
    seq(|s|, i requires 0 <= i < |s| => s[i].1)
  }

  /** The files in retagging order, or `None` when some file's track number cannot be read. */
  function SortedTracks(files: seq<AudioFile>): (r: Option<seq<AudioFile>>)
    ensures r.None? <==> exists i :: 0 <= i < |files| && TrackKey(files[i]).None?
  {
    TrackKeysAt(files);
    match Decorate(files, TrackKeys(files))
    case None => None
    case Some(d) => Some(Undecorate(Sort(d)))
  }

  /** The pairs with key `k`, in their order. */
  function WithKey<T>(s: seq<(int, T)>, k: int): seq<(int, T)> {
    if s == [] then []
    else (if s[0].0 == k then [s[0]] else []) + WithKey(s[1..], k)
  }

  // ------------------------------------------------------------------
  // One file
  // ------------------------------------------------------------------

  /** The directory whose listing gives the disc count: the file's directory's parent. */
  function ParentDir(path: string): string {
    Dirname(Dirname(path))
  }

  /** The new file name `NN Title.ext` with the title censor-replaced, then sanitised. */
  function NewFileName(t: TrackInfo, path: string, words: CensorMap): string {
    Sanitized(Pad2(t.trackNumber) + " " + Apply(words, t.censoredName) + SplitExt(path).1)
  }

  /** The path the file is renamed to: the new name in the file's own directory. */
  function NewPath(t: TrackInfo, path: string, words: CensorMap): string {
    Join(Dirname(path), NewFileName(t, path, words))
  }

  /**
   * The tags a file ends with: cleared, then rewritten with the copyright
   * the file had before clearing and the disc fields of its directory.
   */
  function NewTags(f: AudioFile, t: TrackInfo, rel: ReleaseInfo, words: CensorMap, discInfo: (string, string)): TagMap {
    var localCopyright := if Copyright in f.tags then Some(f.tags[Copyright]) else None;
    WrittenTags(map[], t, rel, GetFileType(f.path), discInfo.0, discInfo.1, localCopyright, words)
  }

  /** One file retagged against the catalog track `t` of release `rel`. */
  function RetagOne(f: AudioFile, t: TrackInfo, rel: ReleaseInfo, words: CensorMap, listing: seq<string>): Retagged {
    Retagged(f.path, NewPath(t, f.path, words), NewTags(f, t, rel, words, ExtractDiscInfo(f.path, listing)))
  }

  /** The field values of a list of catalog tracks. */
  function TrackInfos(tracks: seq<CatalogTrack>): (r: seq<TrackInfo>)
    reads tracks
    ensures |r| == |tracks| && forall i :: 0 <= i < |tracks| ==> r[i] == tracks[i].Info()
    decreases |tracks|
  {
    if tracks == [] then []
    else
      var n := |tracks| - 1;
      TrackInfos(tracks[..n]) + [tracks[n].Info()]
  }

  /**
   * The files retagged in order, each against the catalog track at its
   * position, for as many files as there are catalog tracks.
   */
  function RetagAll(s: seq<AudioFile>, ts: seq<TrackInfo>, rel: ReleaseInfo, words: CensorMap,
                    listDir: string -> seq<string>): (r: seq<Retagged>)
    requires |s| <= |ts|
    ensures |r| == |s|
    decreases |s|
  {
    if s == [] then []
    else
      var n := |s| - 1;
      RetagAll(s[..n], ts, rel, words, listDir) + [RetagOne(s[n], ts[n], rel, words, listDir(ParentDir(s[n].path)))]
  }

  /**
   * `retag_files`: every file in track-number order is retagged against the
   * catalog track at its position. An unreadable track number stops it
   * before any file is touched; a track list shorter than the file list
   * stops it (`IndexError`) once the list is used up, after the files
   * before have been retagged.
   */
  method RetagFiles(files: seq<AudioFile>, coll: Collection, words: CensorMap, listDir: string -> seq<string>)
    returns (ok: bool, done: seq<Retagged>)
    ensures var st := SortedTracks(files); st.None? ==> !ok && done == []
    ensures var st := SortedTracks(files); st.Some? ==>
      var s := st.value;
      && (ok <==> |s| <= |coll.tracks|)
      && |done| == (if ok then |s| else |coll.tracks|)
      && done == RetagAll(s[..|done|], TrackInfos(coll.tracks), coll.Info(), words, listDir)
  {
    var sorted := SortedTracks(files);
    if sorted.None? {
      return false, [];
    }
    ok, done := RetagSorted(sorted.value, coll, words, listDir);
  }

  /** The loop of `retag_files` over the files already in order. */
  method RetagSorted(sorted: seq<AudioFile>, coll: Collection, words: CensorMap, listDir: string -> seq<string>)
    returns (ok: bool, done: seq<Retagged>)
    ensures ok <==> |sorted| <= |coll.tracks|
    ensures |done| == (if ok then |sorted| else |coll.tracks|)
    ensures done == RetagAll(sorted[..|done|], TrackInfos(coll.tracks), coll.Info(), words, listDir)
  {
    ghost var infos := TrackInfos(coll.tracks);
    ghost var rel := coll.Info();
    done := [];
    var i := 0;
    while i < |sorted|
      invariant 0 <= i <= |sorted| && i <= |coll.tracks| && |done| == i
      invariant TrackInfos(coll.tracks) == infos && coll.Info() == rel
      invariant done == RetagAll(sorted[..i], infos, rel, words, listDir)
    {
      if i >= |coll.tracks| {
        break;
      }
      done := RetagNext(sorted, i, coll, words, listDir, done);
      i := i + 1;
    }
    ok := i == |sorted|;
  }

  /** One round of the loop: the file at `i` is retagged against the catalog track at `i`. */
  method RetagNext(sorted: seq<AudioFile>, i: nat, coll: Collection, words: CensorMap,
                   listDir: string -> seq<string>, done: seq<Retagged>)
    returns (done': seq<Retagged>)
    requires i < |sorted| && i < |coll.tracks|
    requires done == RetagAll(sorted[..i], TrackInfos(coll.tracks), coll.Info(), words, listDir)
    ensures done' == RetagAll(sorted[..i + 1], old(TrackInfos(coll.tracks)), old(coll.Info()), words, listDir)
  {
    var ct := coll.tracks[i];
    var f := sorted[i];
    ghost var infos := TrackInfos(coll.tracks);
    ghost var rel := coll.Info();
    assert ct.Info() == infos[i];
    var r := RetagFile(f, ct, coll, words, listDir(ParentDir(f.path)));
    RetagAllStep(sorted, infos, rel, words, listDir, i);
    done' := done + [r];
  }

  /** Retagging one more file appends its result. */
  lemma RetagAllStep(s: seq<AudioFile>, ts: seq<TrackInfo>, rel: ReleaseInfo, words: CensorMap,
                     listDir: string -> seq<string>, i: nat)
    requires i < |s| && i < |ts|
    ensures RetagAll(s[..i + 1], ts, rel, words, listDir)
         == RetagAll(s[..i], ts, rel, words, listDir) + [RetagOne(s[i], ts[i], rel, words, listDir(ParentDir(s[i].path)))]
  {
    assert s[..i + 1][..i] == s[..i];
  }

  /** The loop body: read the copyright, clear, rewrite, and name the file anew. */
  method RetagFile(f: AudioFile, ct: CatalogTrack, coll: Collection, words: CensorMap, listing: seq<string>)
    returns (r: Retagged)
    ensures r == RetagOne(f, old(ct.Info()), old(coll.Info()), words, listing)
  {
    var info := ExtractDiscInfo(f.path, listing);
    var tags := RewriteTags(f, ct, coll, words, info);
    var path := RenameFile(f, ct, words);
    r := Retagged(f.path, path, tags);
  }

  /** The tag part of the loop body, on the file's own tag container. */
  method RewriteTags(f: AudioFile, ct: CatalogTrack, coll: Collection, words: CensorMap, info: (string, string))
    returns (tags: TagMap)
    ensures tags == NewTags(f, ct.Info(), coll.Info(), words, info)
  {
    var local := new LocalTrack(f.path, f.tags);
    var localCopyright := local.GetTag(Copyright);
    local.ClearTags();
    WriteTags(local, ct, coll, info.0, info.1, localCopyright, words);
    tags := local.tags;
  }

  /** The name part of the loop body: the censored title, numbered, sanitised, in the same directory. */
  method RenameFile(f: AudioFile, ct: CatalogTrack, words: CensorMap) returns (path: string)
    ensures path == NewPath(ct.Info(), f.path, words)
  {
    var title := ApplyCensorMap(words, ct.censoredName);
    var name := SanitizeName(Pad2(ct.trackNumber) + " " + title + SplitExt(f.path).1);
    path := Join(Dirname(f.path), name);
  }

  // ------------------------------------------------------------------
  // Properties
  // ------------------------------------------------------------------

  lemma {:induction false} InsertSorted<T>(s: seq<(int, T)>, x: (int, T))
    requires SortedByKey(s)
    ensures SortedByKey(Insert(s, x))
    decreases |s|
  {
    if s != [] && x.0 > s[0].0 {
      var tail := Insert(s[1..], x);
      InsertSorted(s[1..], x);
      var r := [s[0]] + tail;
      forall j | 0 < j < |r| ensures s[0].0 <= r[j].0 {
        assert r[j] == tail[j - 1];
        assert tail[j - 1] in multiset(tail);
        if r[j] != x {
          assert r[j] in multiset(s[1..]);
          var k :| 0 <= k < |s[1..]| && s[1..][k] == r[j];
          assert s[k + 1] == r[j];
        }
      }
    }
  }

  /** Each key's pairs keep their relative order: the sort is stable. */
  lemma {:induction false} SortStable<T>(s: seq<(int, T)>, k: int)
    ensures WithKey(Sort(s), k) == WithKey(s, k)
    decreases |s|
  {
    if s != [] {
      SortStable(s[1..], k);
      InsertWithKey(Sort(s[1..]), s[0], k);
    }
  }

  /** Inserting a pair into sorted pairs puts it first among those with its key. */
  lemma {:induction false} InsertWithKey<T>(s: seq<(int, T)>, x: (int, T), k: int)
    requires SortedByKey(s)
    ensures WithKey(Insert(s, x), k) == (if x.0 == k then [x] else []) + WithKey(s, k)
    decreases |s|
  {
    var added := if x.0 == k then [x] else [];
    if s == [] || x.0 <= s[0].0 {
      assert ([x] + s)[1..] == s;
    } else {
      var t := Insert(s[1..], x);
      var front := if s[0].0 == k then [s[0]] else [];
      InsertWithKey(s[1..], x, k);
      assert ([s[0]] + t)[1..] == t;
      assert WithKey([s[0]] + t, k) == front + (added + WithKey(s[1..], k));
      assert added == [] || front == [];
      assert WithKey(s, k) == front + WithKey(s[1..], k);
    }
  }

  /** The sorted files are the files rearranged. */
  lemma SortedTracksPermutation(files: seq<AudioFile>)
    requires SortedTracks(files).Some?
    ensures multiset(SortedTracks(files).value) == multiset(files)
  {
    var d := Decorate(files, TrackKeys(files)).value;
    assert Undecorate(d) == files;
    UndecorateMultiset(Sort(d), d);
  }

  /** The sorted files come in ascending order of their track numbers. */
  lemma SortedTracksAscending(files: seq<AudioFile>)
    requires SortedTracks(files).Some?
    ensures var s := SortedTracks(files).value;
      forall i, j :: 0 <= i < j < |s| ==> KeyOf(s[i]) <= KeyOf(s[j])
  {
    var d := Decorate(files, TrackKeys(files)).value;
    DecorateKeys(files, d);
    var t := Sort(d);
    KeysKept(d, t);
    UndecorateAscending(t);
  }

  /** Every decorated pair carries its file's own key. */
  lemma DecorateKeys(files: seq<AudioFile>, d: seq<(int, AudioFile)>)
    requires Decorate(files, TrackKeys(files)) == Some(d)
    ensures forall p :: p in d ==> KeyOf(p.1) == p.0
  {
    TrackKeysAt(files);
    forall p | p in d ensures KeyOf(p.1) == p.0 {
      var i :| 0 <= i < |d| && d[i] == p;
      assert TrackKeys(files)[i] == Some(p.0);
    }
  }

  lemma KeysKept(d: seq<(int, AudioFile)>, t: seq<(int, AudioFile)>)
    requires forall p :: p in d ==> KeyOf(p.1) == p.0
    requires multiset(t) == multiset(d)
    ensures forall i :: 0 <= i < |t| ==> KeyOf(t[i].1) == t[i].0
  {
    forall i | 0 <= i < |t| ensures KeyOf(t[i].1) == t[i].0 {
      assert t[i] in multiset(d);
    }
  }

  lemma UndecorateAscending(t: seq<(int, AudioFile)>)
    requires SortedByKey(t)
    requires forall i :: 0 <= i < |t| ==> KeyOf(t[i].1) == t[i].0
    ensures var s := Undecorate(t); forall i, j :: 0 <= i < j < |s| ==> KeyOf(s[i]) <= KeyOf(s[j])
  {
  }

  /** Rearranging the pairs rearranges the files the same way. */
  lemma {:induction false} UndecorateMultiset<T>(a: seq<(int, T)>, b: seq<(int, T)>)
    requires multiset(a) == multiset(b)
    ensures multiset(Undecorate(a)) == multiset(Undecorate(b))
    decreases |a|
  {
    if a != [] {
      var k := RemoveFirst(a, b);
      var rest := b[..k] + b[k + 1..];
      UndecorateMultiset(a[1..], rest);
      assert multiset(Undecorate(b)) == multiset{a[0].1} + multiset(Undecorate(rest)) by {
        UndecorateRemove(b, k);
      }
      assert multiset(Undecorate(a)) == multiset{a[0].1} + multiset(Undecorate(a[1..])) by {
        assert a == [a[0]] + a[1..];
        UndecorateConcat([a[0]], a[1..]);
        assert Undecorate([a[0]]) == [a[0].1];
      }
    }
  }

  /** Where the first of `a` sits in its rearrangement `b`, and what is left of both without it. */
  lemma RemoveFirst<T>(a: seq<T>, b: seq<T>) returns (k: nat)
    requires multiset(a) == multiset(b) && a != []
    ensures k < |b| && b[k] == a[0] && multiset(a[1..]) == multiset(b[..k] + b[k + 1..])
  {
    var x := a[0];
    assert x in multiset(b);
    k :| 0 <= k < |b| && b[k] == x;
    assert b == b[..k] + [x] + b[k + 1..];
    assert a == [x] + a[1..];
    assert multiset(b[..k] + b[k + 1..]) == multiset(b) - multiset{x};
  }

  lemma UndecorateRemove<T>(b: seq<(int, T)>, k: nat)
    requires k < |b|
    ensures multiset(Undecorate(b)) == multiset{b[k].1} + multiset(Undecorate(b[..k] + b[k + 1..]))
  {
    var front, back := b[..k], b[k + 1..];
    assert b == front + [b[k]] + back;
    UndecorateConcat(front + [b[k]], back);
    UndecorateConcat(front, [b[k]]);
    UndecorateConcat(front, back);
  }

  lemma UndecorateConcat<T>(a: seq<(int, T)>, b: seq<(int, T)>)
    ensures Undecorate(a + b) == Undecorate(a) + Undecorate(b)
  {
  }

  /**
   * A retagged file gets exactly its type's tags, and keeps the copyright
   * it had before clearing, falling back on the release's.
   */
  lemma RetaggedTags(f: AudioFile, t: TrackInfo, rel: ReleaseInfo, words: CensorMap, discInfo: (string, string))
    ensures var tags := NewTags(f, t, rel, words, discInfo);
      && tags.Keys == WrittenNames(GetFileType(f.path))
      && (Copyright in f.tags ==> tags[Copyright] == f.tags[Copyright])
      && (Copyright !in f.tags ==> tags[Copyright] == [rel.copyright])
  {
    var lc := if Copyright in f.tags then Some(f.tags[Copyright]) else None;
    WriteKeepsOtherTags(map[], t, rel, GetFileType(f.path), discInfo.0, discInfo.1, lc, words);
    CopyrightPrecedence(map[], t, rel, GetFileType(f.path), discInfo.0, discInfo.1, lc, lc, words);
  }

  /** A retagged file stays in its directory, under its new name. */
  lemma RetaggedPath(t: TrackInfo, path: string, words: CensorMap)
    ensures Basename(NewPath(t, path, words)) == NewFileName(t, path, words)
  {
    var raw := Pad2(t.trackNumber) + " " + Apply(words, t.censoredName) + SplitExt(path).1;
    SanitizedNoSeparator(raw);
    BasenameOfJoin(Dirname(path), Sanitized(raw));
  }

  /** The new name starts with the padded track number and a space. */
  lemma NewNameNumbered(t: TrackInfo, path: string, words: CensorMap)
    ensures StartsWith(NewFileName(t, path, words), Pad2(t.trackNumber) + " ")
  {
    var prefix := Pad2(t.trackNumber) + " ";
    var title := Apply(words, t.censoredName);
    var ext := SplitExt(path).1;
    assert prefix + title + ext == prefix + (title + ext);
    NoUnsafeInPadded(t.trackNumber);
    SanitizeKeepsSafePrefix(prefix, title + ext);
  }

  lemma {:induction false} NoUnsafeInPadded(n: int)
    ensures forall i :: 0 <= i < |Pad2(n)| ==> Pad2(n)[i] !in Unsafe
  {
    var s := IntToString(n);
    assert forall i :: 0 <= i < |s| ==> s[i] == '-' || IsDigit(s[i]);
    var z := Pad2(n);
    assert forall i :: 0 <= i < |z| ==> z[i] == '-' || IsDigit(z[i]);
  }

  /** A safe extension such as `.flac` or `.mp3` survives into the new name. */
  lemma NewNameKeepsExtension(t: TrackInfo, path: string, words: CensorMap)
    requires forall i :: 0 <= i < |SplitExt(path).1| ==> SplitExt(path).1[i] !in Unsafe
    ensures EndsWith(NewFileName(t, path, words), SplitExt(path).1)
  {
    SanitizeKeepsSafeSuffix(Pad2(t.trackNumber) + " " + Apply(words, t.censoredName), SplitExt(path).1);
  }
}
