# iTunesify pipeline in Dafny

This project models the non-interactive core of `itunesify.py`. That core
matches a directory of local audio files to an iTunes catalog release,
rewrites their tags from the catalog, places the cover art, and renames and
relocates the files. The model covers:

- the two-row Levenshtein programme used to match titles;
- track reconciliation (`add_custom_tracks`), which fills a catalog track
  list that is too short from the local files and renumbers it;
- the censor dictionary (`replace_censored_text`), read from a list of
  `censored:uncensored` lines;
- file-name sanitisation and the `NN Title.ext` track names;
- tag synthesis (`write_tags`) for FLAC and MP3, including the copyright
  precedence;
- disc numbering from the directory name (`extract_disc_info`);
- the collection folder name and its `Albums` / `Singles & EPs` bucket
  (`move_files`);
- the artwork decisions (`save_itunes_cover`): the URL rewrite, the
  fallback download, extension normalisation, the image sweep and the cover
  targets;
- the scanning helpers: `get_file_type`, `find_audio_files`,
  `get_local_tags`, the skip rules of the directory loops, and the ordering
  in `retag_files` by track number.

The filesystem, the tag containers and the network are values. Directory
listings and `os.walk` results are parameters. A file's tags are a map from
tag name to a list of strings. Download status codes and bytes are
parameters. Renames are returned as paths.

Modules, one per concern:

- `Wrappers`: `Option`.
- `PyStr`: the Python string and path semantics the code relies on.
  These are `strip`, `split`, `replace`, `zfill`, `str(int)`, `int(str)`,
  the `\d+` search, `basename`, `dirname`, `splitext`, `join` and string
  order.
- `Levenshtein`, `Censor`, `Sanitize`, `DiscInfo`.
- `Catalog`: catalog tracks and releases, as classes whose track number and
  track list/count are mutable.
- `Tags`: the `Track` wrapper as class `LocalTrack`, plus `write_tags` and
  `get_file_type`.
- `Reconcile`, `Retag`, `Organize`, `Artwork`, `Scan`.

The model follows the code at these points, where its behaviour is easy to
misread:

- `extract_disc_info` returns `(count, number)`, not `(number, count)`.
- `extract_disc_info` counts every entry of the parent directory whose name
  matches the disc pattern, whether it is a file or a directory.
- The copyright precedence is decided by the caller's value alone. The
  first branch at lines 189-192 is always overwritten by the second. The
  caller passes the list read before the tags were cleared. The test
  `local_copyright != ""` compares a list with a string, so it always
  holds: any copyright list the file had wins, and otherwise the release's
  copyright is written.
- Cover placement tests for any entry named `Disc …`, file or directory,
  but writes covers only into directories.
- Renumbering mutates shared track objects. When one catalog track is
  appended twice, both list entries are the same object and carry the
  later position. The model proves that each track's number is its last
  position plus one, and that it is its position plus one when the list has
  no repeated objects.

## Model

| member | source | states |
|---|---|---|
| `Levenshtein.LevenshteinDistance` | itunesify.py:462-478 | the two-row programme, including the argument swap and the empty-string exit, returns the recursive edit distance `Dist(s1, s2)` |
| `Levenshtein.NextRow` | itunesify.py:471-477 | one pass of the outer loop turns the row of distances for the first `i` characters of the longer string into the row for the first `i + 1` |
| `Levenshtein.DistSymmetric` | itunesify.py:462-464 | the distance does not depend on argument order, which justifies the swap |
| `Levenshtein.DistZeroIffEqual` | itunesify.py:462-478 | distance 0 holds exactly for equal strings, so `distance(a, a) = 0` |
| `Levenshtein.DistToEmpty` | itunesify.py:466-467 | the distance to the empty string is the other string's length, in both orders |
| `Levenshtein.DistAtMostLonger` | itunesify.py:462-478 | the distance never exceeds the longer string's length |
| `Levenshtein.DistAtLeastLengthGap` | itunesify.py:462-478 | the distance is at least the difference of the lengths |
| `Censor.ReplaceCensoredText` | itunesify.py:551-561 | the result is `None` (the `ValueError`) when the lines do not parse; otherwise it is the text with the parsed dictionary applied |
| `Censor.ReadCensorMap` | itunesify.py:552-556 | the line loop builds the insertion-ordered dictionary of the specification, or fails at the first bad line |
| `Censor.ApplyCensorMap` | itunesify.py:558-561 | the replace loop applies every pair, in dictionary order, with `str.replace` |
| `Censor.ParseLineInverse` | itunesify.py:555 | a line that parses is its stripped text split at its single colon into the two parts |
| `Censor.ParseLineOfPair` | itunesify.py:555 | a `censored:uncensored` line, with or without a newline, parses to that pair |
| `Censor.CollectFailsIff` | itunesify.py:554-556 | the file is refused exactly when some line does not split into two parts |
| `Censor.CollectDistinct` | itunesify.py:556 | each censored word appears once in the dictionary |
| `Censor.LastLineWins` | itunesify.py:556 | a word's replacement comes from the last line that names it |
| `Censor.CollectKeys` | itunesify.py:556 | a repeated word keeps its first position; a new word goes last |
| `Censor.UnnamedWordAbsent` | itunesify.py:556 | a word no line names has no entry |
| `Censor.ApplyAbsentWords` | itunesify.py:558-561 | a text with no censored word in it comes back unchanged |
| `Sanitize.SanitizeName` | itunesify.py:86-89 | the nine sequential `str.replace` calls give the per-character sanitisation `Sanitized` |
| `Sanitize.Sanitized` | itunesify.py:252-255 | the result has the input's length, holds no unsafe character, and keeps every safe character in place |
| `Sanitize.SafeChar` | itunesify.py:86-87 | each unsafe character maps to the safe one at the same position of the two lists, and every other character maps to itself |
| `Sanitize.SanitizeIdempotent` | itunesify.py:86-89 | sanitising twice equals sanitising once |
| `Sanitize.SanitizeSafeName` | itunesify.py:86-89 | a name without unsafe characters is unchanged |
| `Sanitize.SanitizeKeepsSafeSubstring` | itunesify.py:104 | a safe substring such as `" - EP"` survives sanitisation |
| `Sanitize.SanitizedNoSeparator` | itunesify.py:252-257 | a sanitised name never contains `/`, so it is a single path component |
| `Sanitize.SanitizeKeepsSafePrefix` | itunesify.py:250-255 | a safe prefix, such as the padded track number, survives sanitisation |
| `Sanitize.SanitizeKeepsSafeSuffix` | itunesify.py:249-255 | a safe suffix, such as the extension, survives sanitisation |
| `Tags.GetFileType` | itunesify.py:216-220 | `flac` exactly for `.flac` names, `mp3` exactly for `.mp3` names, `None` otherwise |
| `Tags.LocalTrack.constructor` | itunesify.py:33-37 | a track holds its path, its tags and the file type of its path |
| `Tags.LocalTrack.GetTag` | itunesify.py:46-47 | the tag's value when present, `None` otherwise |
| `Tags.LocalTrack.SetTag` | itunesify.py:49-50 | one entry is set and every other entry is unchanged |
| `Tags.LocalTrack.ClearTags` | itunesify.py:39-44 | all tags are removed |
| `Tags.CopyrightValue` | itunesify.py:194-197 | the caller's copyright list when one was read, else the release's copyright |
| `Tags.WriteTags` | itunesify.py:172-197 | the new tag map is the common tags, then the format tags, then the copyright, written over the old map |
| `Tags.WriteCommonTags` | itunesify.py:173-179 | sets the artist, censor-replaced album and title, padded track number, year, genre and album artist |
| `Tags.WriteFormatTags` | itunesify.py:181-187 | FLAC gets `totaltracks`, `discnumber` and `totaldiscs`; MP3 gets `NN/TT` and `number/count`; other types get nothing |
| `Tags.WriteCopyright` | itunesify.py:189-197 | both copyright steps together leave only `CopyrightValue` in the copyright tag |
| `Tags.CopyrightPrecedence` | itunesify.py:189-197 | the copyright equals the caller's value if present, else the release's, and no other written tag depends on it |
| `Tags.WriteKeepsOtherTags` | itunesify.py:172-197 | exactly the type's tags are added, and every other tag keeps its value |
| `Tags.FlacEncoding` | itunesify.py:176-184 | for FLAC, `tracknumber` and `totaltracks` read back as the track's number and the track's `track_count`; the disc fields are written as given |
| `Tags.Mp3Encoding` | itunesify.py:185-187 | for MP3, `tracknumber` splits at `/` into the padded number and the release's padded `track_count`, both of which read back; `discnumber` is `number/count` |
| `DiscInfo.ExtractDiscInfo` | itunesify.py:199-214 | both the count and the number are strings of at least two ASCII digits |
| `DiscInfo.DiscInfoOfDiscDir` | itunesify.py:199-214 | in a disc directory the pair is (matching siblings padded to 2, the directory's digits padded to 2) |
| `DiscInfo.DiscInfoDefault` | itunesify.py:211-213 | any other directory gives `("01", "01")` |
| `DiscInfo.InDiscDir` | itunesify.py:208-209 | a file in `Disc <digits>` takes those digits, padded, as its disc number |
| `DiscInfo.FirstRunIsDiscDigits` | itunesify.py:208-209 | in a matching name, the first `\d+` run is the run the pattern matched |
| `DiscInfo.DiscDirOfParts` | itunesify.py:205 | `disc`/`cd` in any ASCII case, then whitespace, digits and an optional final newline, matches with those digits |
| `DiscInfo.DigitsAfterWord` | itunesify.py:205 | a match always yields a non-empty run of digits |
| `DiscInfo.CountIncludesSelf` | itunesify.py:206 | a listed disc directory counts itself, so the count is at least 1 |
| `DiscInfo.CountAllDiscDirs` | itunesify.py:206 | when every sibling matches, the count is the number of siblings |
| `DiscInfo.PaddedDigitsReadBack` | itunesify.py:209 | the padded disc number reads back as the digits' value |
| `DiscInfo.DiscThreeOfTen` | itunesify.py:199-214 | `Disc 3` among `Disc 1`..`Disc 10` gives `("10", "03")` |
| `Reconcile.AddCustomTracks` | itunesify.py:480-537 | on success the list realises the plan (catalog tracks by identity; synthesised tracks with the release artist, the local title and the local file count), `track_count` is its length, every track is numbered by its last position plus one, and by position plus one when no catalog track repeats; on failure nothing changes |
| `Reconcile.HandleMissingTracks` | itunesify.py:628-631 | reconciliation runs exactly when the confirmed release lists fewer tracks than there are files and the user accepts; it fills in the first search result, with the effect of `AddCustomTracks`, and leaves a different confirmed release's track list and count as they were; otherwise nothing changes |
| `Reconcile.BuildTrackList` | itunesify.py:486-529 | the outer loop builds the list described by `Plan`, or fails exactly when `Plan` does |
| `Reconcile.PlanFile` | itunesify.py:489-529 | one file contributes `Contribution`: nothing if unreadable, the matching catalog tracks, or one synthesised track |
| `Reconcile.FindMatches` | itunesify.py:501-509 | the inner loop returns the indices of the censor-replaced, parenthesis-stripped catalog titles within distance 2 |
| `Reconcile.MatchingIndices` | itunesify.py:501-509 | an index is returned exactly when its title is within distance 2; indices ascend |
| `Reconcile.Renumber` | itunesify.py:531-532 | each track ends numbered by its last position plus one, and by its position plus one when no object repeats |
| `Reconcile.AppendEntries` | itunesify.py:509-529 | appended catalog entries are those catalog objects; synthesised entries are fresh tracks carrying the artist, the title and the file count |
| `Reconcile.StripNumberPrefix` | itunesify.py:499 | the result is a suffix of the input, and is the input itself when it does not start with a digit |
| `Reconcile.StripNumberPrefixOfParts` | itunesify.py:499 | digits, spaces, an optional dot and spaces in front of a title are removed exactly |
| `Reconcile.OnlyMatch` | itunesify.py:501-509 | when exactly one catalog title is within distance two, the matches are that title's index alone |
| `Reconcile.SingleMatch` | itunesify.py:501-509 | a file close to exactly one catalog title contributes exactly that track |
| `Reconcile.ExactTitleKept` | itunesify.py:501-509 | a file whose title equals a catalog title always keeps that track |
| `Reconcile.MatchingNone` | itunesify.py:501-511 | no title within distance 2 means no match |
| `Reconcile.UnmatchedTagged` | itunesify.py:511-529 | an unmatched file with a parseable `tracknumber` contributes one synthesised track with that number |
| `Reconcile.ContributionFailsIff` | itunesify.py:511-513 | a file fails exactly when it is readable, unmatched, and its `tracknumber` does not parse |
| `Reconcile.PlanFailsIff` | itunesify.py:488-529 | reconciliation fails exactly when some file's contribution fails |
| `Reconcile.PlanOneEach` | itunesify.py:488-535 | when each file contributes one entry, the list has one track per file, in file order |
| `Reconcile.NumberedInOrder` | itunesify.py:531-532 | numbering by last position is numbering by position on a list without repeats |
| `Retag.RetagFiles` | itunesify.py:222-260 | an unreadable track number fails before any file; otherwise the files, in track-number order, are retagged against the catalog track at the same index, stopping where the catalog list ends |
| `Retag.RetagSorted` | itunesify.py:228-260 | the loop retags `min(files, catalog)` files, pairing each by index |
| `Retag.RetagNext` | itunesify.py:228-258 | one iteration appends that file's result |
| `Retag.RetagFile` | itunesify.py:231-258 | one file gets its cleared and rewritten tags, and its new path |
| `Retag.RewriteTags` | itunesify.py:231-242 | the copyright is read before clearing, then `write_tags` runs on an empty map |
| `Retag.RenameFile` | itunesify.py:249-257 | the new path is `NN Title.ext`, censor-replaced and sanitised, in the same directory |
| `Retag.SortedTracks` | itunesify.py:223 | ordering fails exactly when some file's `int(tracknumber[0])` raises |
| `Retag.Sort` | itunesify.py:223 | the result is sorted by key and is a permutation of the input |
| `Retag.SortStable` | itunesify.py:223 | files with equal track numbers keep their relative order |
| `Retag.SortedTracksPermutation` | itunesify.py:223 | the ordered files are the input files rearranged |
| `Retag.SortedTracksAscending` | itunesify.py:223 | the ordered files ascend by integer track number |
| `Retag.Decorate` | itunesify.py:223 | every key is computed before sorting; any failing key fails the whole sort |
| `Retag.RetaggedTags` | itunesify.py:234-242 | a retagged file has exactly its type's tags, and keeps its previous copyright or takes the release's |
| `Retag.RetaggedPath` | itunesify.py:257 | the new path's last component is the new file name |
| `Retag.NewNameNumbered` | itunesify.py:250 | the new name starts with the padded track number and a space |
| `Retag.NewNameKeepsExtension` | itunesify.py:249-255 | the original extension ends the new name |
| `Organize.MoveFiles` | itunesify.py:85-115 | the rename goes from the collection path to `<artist>/<bucket>/<folder>`, or fails when there are no tracks or the first track is of neither type |
| `Organize.BucketFor` | itunesify.py:104-115 | the bucket is always `Singles & EPs` or `Albums` |
| `Organize.SanitizedMarkerIff` | itunesify.py:86-104 | the sanitised title contains `" - " + word` exactly when the raw title holds a space, a character sanitised to `-` (`-` `:` `/` `\` `\|` `?` `*`), a space and `word` |
| `Organize.BucketIff` | itunesify.py:86-115 | in terms of the raw title: `Singles & EPs` exactly when it holds `" ? EP"` or `" ? Single"`, with `?` any character sanitised to `-`, and `Albums` exactly when it holds neither |
| `Organize.MoveTarget` | itunesify.py:91-115 | the target path is missing exactly when there are no tracks or the first track is neither `.flac` nor `.mp3`, the cases where the source raises |
| `Organize.FolderNameShape` | itunesify.py:100-102 | `FolderName` starts with the title and ends with `]`; for FLAC it ends with the quality tag `<bits>B-<rate>kHz]` |
| `Organize.MarkerRoutesToSingles` | itunesify.py:104-109 | a raw title containing either marker goes to `Singles & EPs` |
| `Organize.ColonMarkerRoutesToSingles` | itunesify.py:86-104 | sanitising can create the marker: a title with `" : EP"` goes to `Singles & EPs`, even one with no hyphen and so no marker before sanitising (`"Live : EP"`) |
| `Organize.DeluxeEpGoesToSingles` | itunesify.py:104 | `"Killer (Deluxe) - EP"` goes to `Singles & EPs` |
| `Organize.WholeKilohertz` | itunesify.py:98 | a rate that is a multiple of 1000 is written in whole kHz, and the number reads back |
| `Organize.HiResSuffix` | itunesify.py:98 | 24-bit, 96000 Hz gives `24B-96kHz` |
| `Organize.FolderNameSingleComponent` | itunesify.py:100-102 | the folder name contains no `/` |
| `Organize.TargetLayout` | itunesify.py:100-115 | the target is `artist/bucket/folder`, and its last component is the folder name |
| `Artwork.UpgradeUrl` | itunesify.py:119-122 | the result is the substituted URL before its last `/`, or `None` when there is no `/` (`rindex` raises) |
| `Artwork.UpgradeThumbnailUrl` | itunesify.py:119-122 | `https://is<N>-ssl.mzstatic.com/image/thumb/<dirs>/<size>` becomes `https://a5.mzstatic.com/us/r1000/0/<dirs>` |
| `Artwork.UrlPath` | itunesify.py:128-130 | `urlparse(...).path`, taken from the cleaned URL: it never holds a `?`, a `#`, a tab or a line break, and every character of it is in the URL |
| `Artwork.LStripControl` | itunesify.py:128-130 | `urlsplit` first strips the C0 control characters and spaces from the front: what remains is a suffix, everything cut off is such a character, and the result does not start with one |
| `Artwork.RemoveUnsafe` | itunesify.py:128-130 | `urlsplit` then removes every tab, carriage return and line feed: a character is in the result exactly when it is in the URL and is none of these |
| `Artwork.PathOf` | itunesify.py:128-130 | the path of a cleaned URL holds no `?` and no `#`, and only characters of the URL |
| `Artwork.UrlPathSkipsLeadingControl` | itunesify.py:128-130 | leading control characters and spaces do not change the path, so ` https://h/a.tif` has the path of `https://h/a.tif` |
| `Artwork.CleanHttpsUrl` | itunesify.py:128-130 | cleaning an https URL keeps `https://` and cleans host and tail separately |
| `Artwork.UrlPathAfterHost` | itunesify.py:128-130 | the path of an https URL without query or fragment is what follows its host, without tabs and line breaks and without its `;params` |
| `Artwork.SplitScheme` | itunesify.py:128-130 | a recognised scheme is the text before the first `:`, in lower case, and the rest follows that `:`; without one the whole URL is the rest |
| `Artwork.DropParams` | itunesify.py:128-130 | cutting `;params` keeps a prefix of the path |
| `Artwork.DropParamsCutsParams` | itunesify.py:128-130 | `;params` after a last segment without `;` are cut off, and nothing else is |
| `Artwork.UrlPathOfPlainUrl` | itunesify.py:128-130 | `urlparse(...).path` of an https URL without query, fragment or `;params` is what follows its host, rid of tabs and line breaks, and exactly that when it holds none |
| `Artwork.UrlPathDropsParams` | itunesify.py:128-130 | the `;params` of an https URL are not part of its path, so `…/x/y;v=1.tif` has the path `…/x/y` and no extension |
| `Artwork.ChooseSource` | itunesify.py:124-130 | the upgraded URL is used on status 200, else the catalog URL on 200, else nothing; the extension comes from the URL used |
| `Artwork.NormalizeExtension` | itunesify.py:133-142 | any extension other than `.tif` or `.jpeg`, in any ASCII case, is kept as it is |
| `Artwork.NormalizeExtensionSettles` | itunesify.py:133-142 | the normalised extension is never TIFF or `.jpeg`, and normalising is idempotent |
| `Artwork.NormalizeUpperCase` | itunesify.py:133-142 | `.TIF` becomes `.png` and `.JPEG` becomes `.jpg`; `.JPG` is kept |
| `Artwork.SweepImages` | itunesify.py:144-147 | exactly the `.jpg`, `.jpeg` and `.png` files are removed; everything else is unchanged |
| `Artwork.PlaceCovers` | itunesify.py:149-169 | the placement loops give `CoverTargets` |
| `Artwork.AnyMusic` | itunesify.py:149 | true exactly when some entry ends in `.mp3` or `.flac` |
| `Artwork.AnyDiscEntry` | itunesify.py:150 | true exactly when some entry starts with `Disc ` |
| `Artwork.CollectDiscTargets` | itunesify.py:164-169 | the listed `Disc ` directories, in listing order |
| `Artwork.DiscTargetsExactly` | itunesify.py:153-169 | a disc target is exactly a listed directory whose name starts with `Disc ` |
| `Artwork.RootCoverIff` | itunesify.py:152-162 | the collection root gets a cover if and only if it holds music or has no `Disc ` entry |
| `Artwork.DiscFileOnlyGetsNoCover` | itunesify.py:150-158 | a root with no music whose only `Disc ` entry is a file gets no cover at all |
| `Artwork.TargetIsCover` | itunesify.py:156-167 | every target path ends in `cover<ext>` |
| `Artwork.DiscCoverLonger` | itunesify.py:156-160 | a disc cover path differs from the root cover path |
| `Artwork.TiffCoverKeepsRawBytes` | itunesify.py:133-162 | as written, a TIFF download leaves the raw TIFF bytes in `cover.png` |
| `Artwork.SaveCoverAsWritten` | itunesify.py:133-169 | the source's order: every cover path holds the downloaded bytes, even for a TIFF; every other path is gone if it is an image and unchanged otherwise |
| `Artwork.SaveCover` | itunesify.py:133-169 | corrected order: every cover path holds the converted image for a TIFF and the download otherwise; every other path is gone if it is an image and unchanged otherwise |
| `Artwork.SaveCoverAgreesOffTiff` | itunesify.py:133-169 | for any extension other than TIFF, the corrected order and the written order agree |
| `Scan.FindAudioFiles` | itunesify.py:636-643 | the walk loop gives `AudioFiles`: directory by directory, names sorted, audio only |
| `Scan.AudioFilesExactly` | itunesify.py:636-643 | a path is found exactly when it is a `.flac` or `.mp3` file of some walked directory, joined to it |
| `Scan.AudioFilesAreAudio` | itunesify.py:641 | every found path ends in `.flac` or `.mp3` |
| `Scan.SortNamesSorted` | itunesify.py:639 | the sorted names are ordered and a permutation of the input |
| `Scan.SortedUnique` | itunesify.py:639 | the ordered permutation is unique, so the model's sort is `list.sort` |
| `Scan.GetLocalTags` | itunesify.py:448-460 | the loop gives `LocalTagsOf`, or `None` where a tag access raises |
| `Scan.ScanTakesFirstNonEmpty` | itunesify.py:452-459 | a field takes the first non-empty value, and later tracks are not read for it |
| `Scan.ScanValueIsFirstNonEmpty` | itunesify.py:452-459 | conversely, a non-empty result is the first non-empty value |
| `Scan.AbsentOptionalStaysNone` | itunesify.py:456-459 | a date or genre that no track carries stays `None` |
| `Scan.MissingArtistFails` | itunesify.py:453 | a first track without `artist` makes the function raise |
| `Scan.VisitCollections` | itunesify.py:645-656 | the loops visit the pairs `Collections(AsWritten, …)`: artists in listing order, each artist's collections sorted, hidden entries skipped, and skipped too every collection whose joined path contains `Albums` or `Singles & EPs` |
| `Scan.VisitArtist` | itunesify.py:650-656 | one artist's sorted listing, without hidden entries and without collections whose joined path passes the substring test |
| `Scan.CollectionsExactly` | itunesify.py:646-656 | under either rule, a pair is visited exactly when the artist and the collection are listed, neither is hidden, and the rule does not skip it; under the corrected rule, when neither is a bucket |
| `Scan.VisitedAsWrittenVisitedAsBucket` | itunesify.py:655 | every collection the loops visit is visited by the corrected rule too |
| `Scan.VisitedOnlyAsBucket` | itunesify.py:655 | a listed, non-hidden collection that is no bucket but whose path contains a bucket name is visited only by the corrected rule |
| `Scan.GreatestAlbumsVisitedOnlyAsBucket` | itunesify.py:645-656 | a listed `Artist/Greatest Albums` is never visited by the loops, though the corrected rule visits it |
| `Scan.TitleWithAlbumsIsSkipped` | itunesify.py:655 | as written, any collection whose name contains `Albums` is skipped |
| `Scan.RootWithAlbumsSkipsAll` | itunesify.py:655 | as written, a music directory whose path contains `Albums` skips everything |
| `Scan.SkipAsWrittenOverreaches` | itunesify.py:655 | `Greatest Albums` and `/srv/Albums` are skipped as written, though neither is a bucket |
| `Scan.SkippedAsBucketIsSkippedAsWritten` | itunesify.py:655 | the corrected rule skips only what the written rule skips |

## Left out

- Terminal UI: prompts, tables, progress bars and re-prompting loops. This covers `BoldPrompt`, `print_*`, `display_success_message`, `handle_*`, `confirm_itunes_collection`, `search_itunes_collection` and `ask_to_organize_folder`. They are user interaction. The user's answer to the fill-in prompt (lines 564-566) is the parameter `accepted` of `Reconcile.HandleMissingTracks`.
- Catalog search (`itunespy`) and HTTP downloads (`requests`): network calls. Status codes and bytes are parameters.
- TIFF decoding and RGBA conversion (PIL): a foreign library. The converted image is a parameter.
- Tag-file I/O (mutagen open, save, delete): tags are a map. Whether FLAC opens a file is `LocalFile.readable`.
- The `metaflac`/`flac` tool calls (lines 95-96, 237, 247): external processes. The bit depth and sample rate they report are parameters of `Organize.Quality`.
- Filesystem effects (`os.walk`, `listdir`, `rename`, `mkdir`, `remove`, file writes): listings are given, and renames are returned as target paths. Bucket creation on demand is not modelled.
- Configuration loading, the constructor prompt and argparse (lines 56-73, 670-680).
- Organize.QualitySuffix: the one-decimal kHz text for rates that are not a multiple of 1000 is a given string, because it comes from float formatting.
- Censor.ReplaceCensoredText: the file is re-read on every call. The model takes the file's lines as an argument instead.
- Tags.WriteTags, Reconcile.PlanFile, Reconcile.AddCustomTracks, Retag.RetagFiles and Retag.RenameFile take the censor dictionary already parsed. In the source each `replace_censored_text` call re-reads the file and may raise `ValueError` (lines 551-556). Parsing once is sound only because `print_itunes_tags` (line 359) parses the same file before any of these runs, on every path that reaches them. A file that changes during a run is not modelled.
- Artwork.SaveCoverAsWritten, Artwork.SaveCover: `listing` is the collection directory as listed after the sweep (lines 149-150 run after lines 144-147). It is a parameter, not derived from the swept file map, so a root image such as `Disc 1.jpg` must already be absent from it.
- Scan.VisitCollections: the artist listing is a total function. In the source, `os.listdir` on a non-hidden plain file in the music directory (line 650) raises `NotADirectoryError`, which ends the whole run. That failure is not modelled.
- PyStr.ParseInt: `int()` is modelled for ASCII digits with an optional sign and surrounding whitespace. Underscore separators and non-ASCII digits are not accepted.
- PyStr.IsDigit: `\d` is ASCII digits only. Python also matches other Unicode decimal digits.
- DiscInfo.DiscDigits: `(?i)` and `.lower()` are ASCII case folding only. Unicode case folding (for example `ſ` matching `s`) is not modelled.
- Reconcile.CandidateTitle: a title tag is its first value. A present but empty value list, which raises `IndexError` in the source, is not modelled.
- Artwork.UrlPath: the `ValueError` that `urlsplit` raises while checking the netloc is not modelled. It is raised for unbalanced `[`/`]` (`https://[h/a.tif`), for a bracketed host that is not a valid IPv6 or IPvFuture address, and for a non-ASCII host whose NFKC form brings in `/`, `?`, `#`, `@` or `:`. In the source it escapes `save_itunes_cover` and ends the run; the model returns the path after the netloc instead. The cleaning of the URL (front stripping, removal of tabs and line breaks) follows Python 3.12's `urlsplit`.
- Retag.RetagFiles: `os.rename` target collisions are not modelled. The source has no guard for them.

## Findings

| source | as written | input that shows it | evidently intended | confidence | as-written member | corrected member |
|---|---|---|---|---|---|---|
| itunesify.py:133-162 | a TIFF download is converted and saved as `cover.png`; then the sweep deletes every `.png`; then the raw TIFF bytes are written under `cover.png` | an artwork URL ending in `.tif` that answers 200, for a collection with music at its root | the converted PNG is what lands in `cover.png` (and in every disc directory) | high, not executed | `Artwork.TiffCoverKeepsRawBytes` | `Artwork.SaveCover` |
| itunesify.py:655 | a collection is skipped when its full path contains `Albums` or `Singles & EPs` as a substring | a collection named `Greatest Albums`, or any collection under a music directory `/srv/Albums` | skip only the bucket directories that earlier runs created | medium, not executed | `Scan.GreatestAlbumsVisitedOnlyAsBucket` | `Scan.CollectionsExactly` |
