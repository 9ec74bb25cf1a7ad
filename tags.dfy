/**
 * Tag synthesis (itunesify.py `write_tags`, `get_file_type`, the `Track`
 * wrapper). A file's tags are a dictionary from tag name to a list of
 * values, as the tag library exposes them; opening and saving the file is
 * not modelled.
 */
module Tags {
  import opened Wrappers
  import opened PyStr
  import opened Censor
  import opened Catalog

  datatype FileType = Flac | Mp3

  const FlacSuffix: string := ".flac"
  const Mp3Suffix: string := ".mp3"

  /** A name with one of the two audio extensions the program handles. */
  predicate IsAudioName(name: string) { EndsWith(name, FlacSuffix) || EndsWith(name, Mp3Suffix) }

  /** `get_file_type`: by extension, `None` for anything else. */
  function GetFileType(path: string): (r: Option<FileType>)
    ensures r == Some(Flac) <==> EndsWith(path, FlacSuffix)
    ensures r == Some(Mp3) <==> EndsWith(path, Mp3Suffix)
    ensures r.Some? <==> IsAudioName(path)
  {
    if EndsWith(path, FlacSuffix) then
      assert path[|path| - 1] == 'c' && !EndsWith(path, Mp3Suffix);
      Some(Flac)
    else if EndsWith(path, Mp3Suffix) then Some(Mp3)
    else None
  }

  /** `audio_file_type.upper()`. */
  function FormatName(t: FileType): string {
    match t
    case Flac => "FLAC"
    case Mp3 => "MP3"
  }

  /**
   * The tag names the pipeline reads or writes (`artist`, `album`, `title`,
   * `tracknumber`, `date`, `genre`, `albumartist`, `totaltracks`,
   * `discnumber`, `totaldiscs`, `copyright`).
   */
  datatype TagName =
    | Artist | Album | Title | TrackNumber | Date | Genre | AlbumArtist
    | TotalTracks | DiscNumber | TotalDiscs | Copyright

  /** A tag container: each tag holds a list of values. */
  type TagMap = map<TagName, seq<string>>

  /** A local audio file and its tags (the source's `Track`). */
  class LocalTrack {
    const path: string
    const fileType: Option<FileType>
    var tags: TagMap

    constructor (path: string, tags: TagMap)
      ensures this.path == path && this.tags == tags && this.fileType == GetFileType(path)
    {
      this.path := path;
      this.tags := tags;
      this.fileType := GetFileType(path);
    }

    /** `get_tag`: the dictionary's `get`. */
    function GetTag(name: TagName): (r: Option<seq<string>>)
      reads this
      ensures r.Some? <==> name in tags
      ensures r.Some? ==> r.value == tags[name]
    {
      if name in tags then Some(tags[name]) else None
    }

    /** `set_tag`: one entry set, every other left as it was. */
    method SetTag(name: TagName, value: seq<string>)
      modifies this
      ensures tags == old(tags)[name := value]
    {
      tags := tags[name := value];
    }

    /** `clear_tags`: every tag removed. */
    method ClearTags()
      modifies this
      ensures tags == map[]
    {
      tags := map[];
    }
  }

  /**
   * The final copyright value: the file's own copyright list when it had
   * one, otherwise the release's. The source's test `local_copyright != ""`
   * compares a list with a string and so always holds.
   */
  function CopyrightValue(localCopyright: Option<seq<string>>, collectionCopyright: string): (r: seq<string>)
    ensures localCopyright.Some? ==> r == localCopyright.value
    ensures localCopyright.None? ==> r == [collectionCopyright]
  {
    if localCopyright.Some? then localCopyright.value else [collectionCopyright]
  }

  /** `str(n).zfill(2)`, as track numbers and counts are written. */
  function Pad2(n: int): string {
    ZFill(IntToString(n), 2)
  }

  /**
   * The tag container after `write_tags`: every written tag takes its final
   * value (a later write of the same tag replaces an earlier one) and every
   * other tag keeps the value it had.
   */
  function WrittenTags(m: TagMap, t: TrackInfo, rel: ReleaseInfo, fileType: Option<FileType>,
                       discCount: string, discNumber: string,
                       localCopyright: Option<seq<string>>, words: CensorMap): TagMap
  {
    FormatWritten(CommonWritten(m, t, rel, words), t, rel, fileType, discCount, discNumber)
      [Copyright := CopyrightValue(localCopyright, rel.copyright)]
  }

  /** The tags written for every file type. */
  function CommonWritten(m: TagMap, t: TrackInfo, rel: ReleaseInfo, words: CensorMap): TagMap
  {
    m[Artist := [t.artistName]]
     [Album := [Apply(words, rel.censoredName)]]
     [Title := [Apply(words, t.censoredName)]]
     [TrackNumber := [Pad2(t.trackNumber)]]
     [Date := [IntToString(rel.releaseYear)]]
     [Genre := [rel.genre]]
     [AlbumArtist := [rel.artistName]]
  }

  /** The tags written for one file type: FLAC's separate counts, MP3's `N/total` pairs. */
  function FormatWritten(m: TagMap, t: TrackInfo, rel: ReleaseInfo, fileType: Option<FileType>,
                         discCount: string, discNumber: string): TagMap
  {
    match fileType
    case Some(Flac) =>
      m[TotalTracks := [Pad2(t.trackCount)]][DiscNumber := [discNumber]][TotalDiscs := [discCount]]
    case Some(Mp3) =>
      m[TrackNumber := [Pad2(t.trackNumber) + "/" + Pad2(rel.trackCount)]]
       [DiscNumber := [discNumber + "/" + discCount]]
    case None => m
  }

  /** The tags `write_tags` sets for a file of the given type. */
  function WrittenNames(fileType: Option<FileType>): set<TagName> {
    {Artist, Album, Title, TrackNumber, Date, Genre, AlbumArtist, Copyright}
      + match fileType
        case Some(Flac) => {TotalTracks, DiscNumber, TotalDiscs}
        case Some(Mp3) => {DiscNumber}
        case None => {}
  }

  /** `write_tags`: the source's sequence of `set_tag` calls, in three stages. */
  method WriteTags(local: LocalTrack, ct: CatalogTrack, coll: Collection,
                   discCount: string, discNumber: string,
                   localCopyright: Option<seq<string>>, words: CensorMap)
    modifies local
    ensures local.tags
         == WrittenTags(old(local.tags), ct.Info(), coll.Info(), local.fileType, discCount, discNumber, localCopyright, words)
  {
    WriteCommonTags(local, ct, coll, words);
    WriteFormatTags(local, ct, coll, discCount, discNumber);
    WriteCopyright(local, coll, localCopyright);
  }

  /** The seven tags every file gets (itunesify.py:173-179). */
  method WriteCommonTags(local: LocalTrack, ct: CatalogTrack, coll: Collection, words: CensorMap)
    modifies local
    ensures local.tags == CommonWritten(old(local.tags), ct.Info(), coll.Info(), words)
  {
    local.SetTag(Artist, [ct.artistName]);
    var album := ApplyCensorMap(words, coll.censoredName);
    local.SetTag(Album, [album]);
    var title := ApplyCensorMap(words, ct.censoredName);
    local.SetTag(Title, [title]);
    local.SetTag(TrackNumber, [Pad2(ct.trackNumber)]);
    local.SetTag(Date, [IntToString(coll.releaseYear)]);
    local.SetTag(Genre, [coll.genre]);
    local.SetTag(AlbumArtist, [coll.artistName]);
  }

  /** The tags that depend on the file type (itunesify.py:181-187). */
  method WriteFormatTags(local: LocalTrack, ct: CatalogTrack, coll: Collection,
                         discCount: string, discNumber: string)
    modifies local
    ensures local.tags == FormatWritten(old(local.tags), ct.Info(), coll.Info(), local.fileType, discCount, discNumber)
  {
    if local.fileType == Some(Flac) {
      local.SetTag(TotalTracks, [Pad2(ct.trackCount)]);
      local.SetTag(DiscNumber, [discNumber]);
      local.SetTag(TotalDiscs, [discCount]);
    } else if local.fileType == Some(Mp3) {
      local.SetTag(TrackNumber, [Pad2(ct.trackNumber) + "/" + Pad2(coll.trackCount)]);
      local.SetTag(DiscNumber, [discNumber + "/" + discCount]);
    }
  }

  /**
   * The two copyright steps (itunesify.py:189-197): the first keeps a
   * copyright already in the container or writes the release's; the second
   * overwrites it with the file's former copyright, or the release's.
   */
  method WriteCopyright(local: LocalTrack, coll: Collection, localCopyright: Option<seq<string>>)
    modifies local
    ensures local.tags == old(local.tags)[Copyright := CopyrightValue(localCopyright, coll.copyright)]
  {
    var existing := local.GetTag(Copyright);
    if existing.Some? && existing.value != [] {
      local.SetTag(Copyright, existing.value);
    } else {
      local.SetTag(Copyright, [coll.copyright]);
    }
    if localCopyright.Some? {
      local.SetTag(Copyright, localCopyright.value);
    } else {
      local.SetTag(Copyright, [coll.copyright]);
    }
  }

  // ------------------------------------------------------------------
  // Properties
  // ------------------------------------------------------------------

  /**
   * The copyright is the file's own when it had one and the release's
   * otherwise, and no other tag depends on which.
   */
  lemma CopyrightPrecedence(m: TagMap, t: TrackInfo, rel: ReleaseInfo, fileType: Option<FileType>,
                            discCount: string, discNumber: string,
                            lc1: Option<seq<string>>, lc2: Option<seq<string>>, words: CensorMap)
    ensures var w1 := WrittenTags(m, t, rel, fileType, discCount, discNumber, lc1, words);
            var w2 := WrittenTags(m, t, rel, fileType, discCount, discNumber, lc2, words);
      && w1[Copyright] == (if lc1.Some? then lc1.value else [rel.copyright])
      && w1 - {Copyright} == w2 - {Copyright}
  {
  }

  /** Exactly the type's tags are set, and every other tag keeps its value. */
  lemma WriteKeepsOtherTags(m: TagMap, t: TrackInfo, rel: ReleaseInfo, fileType: Option<FileType>,
                            discCount: string, discNumber: string,
                            lc: Option<seq<string>>, words: CensorMap)
    ensures var w := WrittenTags(m, t, rel, fileType, discCount, discNumber, lc, words);
      && w.Keys == m.Keys + WrittenNames(fileType)
      && forall k :: k in m && k !in WrittenNames(fileType) ==> w[k] == m[k]
  {
  }

  /** The padded number has digits, at most a sign, and no '/'. */
  lemma {:induction false} NoSlashInPadded(n: int)
    ensures '/' !in Pad2(n)
  {
    var s := IntToString(n);
    assert forall i :: 0 <= i < |s| ==> s[i] == '-' || IsDigit(s[i]);
    var z := Pad2(n);
    assert forall i :: 0 <= i < |z| ==> z[i] == '-' || IsDigit(z[i]);
  }

  /** For FLAC the number, the count and the disc fields are separate tags, and the numbers read back. */
  lemma FlacEncoding(m: TagMap, t: TrackInfo, rel: ReleaseInfo, discCount: string, discNumber: string,
                     lc: Option<seq<string>>, words: CensorMap)
    ensures var w := WrittenTags(m, t, rel, Some(Flac), discCount, discNumber, lc, words);
      && ParseInt(w[TrackNumber][0]) == Some(t.trackNumber)
      && ParseInt(w[TotalTracks][0]) == Some(t.trackCount)
      && w[DiscNumber] == [discNumber] && w[TotalDiscs] == [discCount]
  {
    var w := WrittenTags(m, t, rel, Some(Flac), discCount, discNumber, lc, words);
    assert w[TrackNumber] == [Pad2(t.trackNumber)];
    assert w[TotalTracks] == [Pad2(t.trackCount)];
    assert w[DiscNumber] == [discNumber];
    assert w[TotalDiscs] == [discCount];
    ParseZFill(t.trackNumber, 2);
    ParseZFill(t.trackCount, 2);
  }

  /**
   * For MP3 the number is written `NN/TT` with the release's count and the
   * disc as `number/count`; the two halves read back.
   */
  lemma Mp3Encoding(m: TagMap, t: TrackInfo, rel: ReleaseInfo, discCount: string, discNumber: string,
                    lc: Option<seq<string>>, words: CensorMap)
    ensures var w := WrittenTags(m, t, rel, Some(Mp3), discCount, discNumber, lc, words);
      && Split(w[TrackNumber][0], '/') == [Pad2(t.trackNumber), Pad2(rel.trackCount)]
      && ParseInt(Split(w[TrackNumber][0], '/')[0]) == Some(t.trackNumber)
      && ParseInt(Split(w[TrackNumber][0], '/')[1]) == Some(rel.trackCount)
      && w[DiscNumber] == [discNumber + "/" + discCount]
  {
    var w := WrittenTags(m, t, rel, Some(Mp3), discCount, discNumber, lc, words);
    assert w[TrackNumber] == [Pad2(t.trackNumber) + "/" + Pad2(rel.trackCount)];
    assert w[DiscNumber] == [discNumber + "/" + discCount];
    NoSlashInPadded(t.trackNumber);
    NoSlashInPadded(rel.trackCount);
    SplitTwo(Pad2(t.trackNumber), Pad2(rel.trackCount), '/');
    ParseZFill(t.trackNumber, 2);
    ParseZFill(rel.trackCount, 2);
  }
}
