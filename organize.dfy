/**
 * Collection relocation (itunesify.py `move_files`): the release title is
 * sanitised, a folder name is built from it, the release year and the file
 * format (with the FLAC quality after it), and the collection directory is
 * moved under the artist into `Singles & EPs` or `Albums`. The bit depth
 * and sample rate come from an external tool and are parameters here; the
 * rename itself is returned as a pair of paths.
 */
module Organize {
  import opened Wrappers
  import opened PyStr
  import opened Tags
  import opened Sanitize

  const SinglesBucket: string := "Singles & EPs"
  const AlbumsBucket: string := "Albums"

  /**
   * What the external tool reports about the first FLAC file: its bit depth
   * as text, its sample rate, and the rate in kHz rendered with one decimal
   * place (used only when the rate is not a whole number of kHz).
   */
  datatype Quality = Quality(bits: string, sampleRate: nat, tenthsText: string)

  /** `"<bits>B-<rate>kHz"`, the rate in whole kHz when it is a multiple of 1000. */
  function QualitySuffix(q: Quality): string {
    q.bits + "B-" + (if q.sampleRate % 1000 == 0 then NatToString(q.sampleRate / 1000) else q.tenthsText) + "kHz"
  }

  /** `"<name> (<year>) [<FORMAT>]"`, then `" [<quality>]"` for FLAC. */
  function FolderName(name: string, year: int, fileType: FileType, q: Quality): string {
    var base := name + " (" + IntToString(year) + ") [" + FormatName(fileType) + "]";
    if fileType == Flac then base + " [" + QualitySuffix(q) + "]" else base
  }

  /** The bucket a sanitised title goes to. */
  function BucketFor(name: string): (r: string)
    ensures r == SinglesBucket || r == AlbumsBucket
  {
    if Contains(name, " - EP") || Contains(name, " - Single") then SinglesBucket else AlbumsBucket
  }

  /**
   * Where the collection directory goes, or `None` where the source raises:
   * no tracks (`local_tracks[0]`) or a first track of neither format (its
   * file type has no `upper`).
   */
  function MoveTarget(tracks: seq<string>, censoredName: string, year: int, artistPath: string, q: Quality)
    : (r: Option<string>)
    ensures r.None? <==> tracks == [] || !IsAudioName(tracks[0])
  {
    if tracks == [] then None
    else
      match GetFileType(tracks[0])
      case None => None
      case Some(t) =>
        var name := Sanitized(censoredName);
        Some(Join(Join(artistPath, BucketFor(name)), FolderName(name, year, t, q)))
  }

  /** `move_files`: the rename it performs, from the collection path to the target. */
  method MoveFiles(tracks: seq<string>, censoredName: string, year: int, collectionPath: string,
                   artistPath: string, q: Quality)
    returns (rename: Option<(string, string)>)
    ensures rename.None? <==> MoveTarget(tracks, censoredName, year, artistPath, q).None?
    ensures rename.Some? ==>
      rename.value == (collectionPath, MoveTarget(tracks, censoredName, year, artistPath, q).value)
  {
    var name := SanitizeName(censoredName);
    if tracks == [] {
      return None;
    }
    var fileType := GetFileType(tracks[0]);
    if fileType.None? {
      return None;
    }
    var folder: string;
    if fileType.value == Flac {
      folder := name + " (" + IntToString(year) + ") [" + FormatName(Flac) + "] [" + QualitySuffix(q) + "]";
    } else {
      folder := name + " (" + IntToString(year) + ") [" + FormatName(fileType.value) + "]";
    }
    assert folder == FolderName(name, year, fileType.value, q);
    var bucket := if Contains(name, " - EP") || Contains(name, " - Single") then SinglesBucket else AlbumsBucket;
    rename := Some((collectionPath, Join(Join(artistPath, bucket), folder)));
  }

  // ------------------------------------------------------------------
  // Properties
  // ------------------------------------------------------------------

  /** The characters sanitising turns into a hyphen: the hyphen itself and six unsafe ones. */
  const HyphenSources: seq<char> := ['-', ':', '/', '\\', '|', '?', '*']

  /**
   * At position `i` of the raw title stands a marker for `word`: a space, a
   * character that sanitises to `-`, a space, then `word`.
   */
  predicate MarkerAt(raw: string, i: nat, word: string) {
    && i + 3 + |word| <= |raw|
    && raw[i] == ' ' && raw[i + 1] in HyphenSources && raw[i + 2] == ' '
    && raw[i + 3..i + 3 + |word|] == word
  }

  predicate HasMarker(raw: string, word: string) {
    exists i: nat :: i < |raw| && MarkerAt(raw, i, word)
  }

  /** Exactly the hyphen sources sanitise to `-`. */
  lemma HyphenSourceIff(c: char)
    ensures SafeChar(c) == '-' <==> c in HyphenSources
  {
  }

  /** A character that is neither replaced nor a replacement comes only from itself. */
  lemma PlainCharIff(c: char, d: char)
    requires d !in Unsafe && d !in Safe
    ensures SafeChar(c) == d <==> c == d
  {
  }

  /** Characters sanitising leaves alone and never produces. */
  predicate PlainWord(word: string) {
    forall k :: 0 <= k < |word| ==> word[k] !in Unsafe && word[k] !in Safe
  }

  /** Where the sanitised title reads `" - " + word`, the raw title holds a marker. */
  lemma MarkerFromSanitized(raw: string, word: string, i: nat)
    requires PlainWord(word)
    requires i + 3 + |word| <= |raw| && Sanitized(raw)[i..i + 3 + |word|] == " - " + word
    ensures MarkerAt(raw, i, word)
  {
    var s := Sanitized(raw);
    var t := " - " + word;
    forall m | 0 <= m < |t| ensures s[i + m] == t[m] {
      assert s[i..i + |t|][m] == s[i + m];
    }
    assert ' ' !in Unsafe && ' ' !in Safe;
    assert t[0] == ' ' && t[1] == '-' && t[2] == ' ';
    assert SafeChar(raw[i]) == ' ' && SafeChar(raw[i + 1]) == '-' && SafeChar(raw[i + 2]) == ' ';
    PlainCharIff(raw[i], ' ');
    HyphenSourceIff(raw[i + 1]);
    PlainCharIff(raw[i + 2], ' ');
    forall k | 0 <= k < |word| ensures raw[i + 3 + k] == word[k] {
      assert t[3 + k] == word[k] && SafeChar(raw[i + 3 + k]) == s[i + 3 + k];
      PlainCharIff(raw[i + 3 + k], word[k]);
    }
    assert raw[i + 3..i + 3 + |word|] == word;
  }

  /** Where the raw title holds a marker, the sanitised title reads `" - " + word`. */
  lemma SanitizedFromMarker(raw: string, word: string, i: nat)
    requires PlainWord(word) && MarkerAt(raw, i, word)
    ensures Sanitized(raw)[i..i + 3 + |word|] == " - " + word
  {
    var s := Sanitized(raw);
    var t := " - " + word;
    HyphenSourceIff(raw[i + 1]);
    forall m | 0 <= m < |t| ensures s[i + m] == t[m] {
      if m >= 3 {
        assert raw[i + 3..i + 3 + |word|][m - 3] == raw[i + m];
        assert t[m] == word[m - 3];
      }
    }
  }

  /**
   * The sanitised title contains `" - " + word` exactly when the raw title
   * holds a marker for `word`, for a word of characters sanitising leaves
   * alone and never produces.
   */
  lemma SanitizedMarkerIff(raw: string, word: string)
    requires PlainWord(word)
    ensures Contains(Sanitized(raw), " - " + word) <==> HasMarker(raw, word)
  {
    var s := Sanitized(raw);
    var t := " - " + word;
    if Contains(s, t) {
      var i := ContainsWitness(s, t);
      MarkerFromSanitized(raw, word, i);
    }
    if HasMarker(raw, word) {
      var i: nat :| i < |raw| && MarkerAt(raw, i, word);
      SanitizedFromMarker(raw, word, i);
      ContainsAt(s, t, i);
    }
  }

  /**
   * The bucket, in terms of the raw title: `Singles & EPs` exactly when the
   * title holds `" ? EP"` or `" ? Single"` with `?` one of the characters
   * sanitising turns into `-`, and `Albums` exactly when it holds neither.
   */
  lemma BucketIff(raw: string)
    ensures BucketFor(Sanitized(raw)) == SinglesBucket <==> HasMarker(raw, "EP") || HasMarker(raw, "Single")
    ensures BucketFor(Sanitized(raw)) == AlbumsBucket <==> !HasMarker(raw, "EP") && !HasMarker(raw, "Single")
  {
    assert " - " + "EP" == " - EP";
    assert " - " + "Single" == " - Single";
    assert PlainWord("EP") && PlainWord("Single");
    SanitizedMarkerIff(raw, "EP");
    SanitizedMarkerIff(raw, "Single");
    assert |SinglesBucket| != |AlbumsBucket|;
  }

  /** A title that says `" - EP"` or `" - Single"` goes to `Singles & EPs`: sanitising keeps the marker. */
  lemma MarkerRoutesToSingles(censoredName: string)
    requires Contains(censoredName, " - EP") || Contains(censoredName, " - Single")
    ensures BucketFor(Sanitized(censoredName)) == SinglesBucket
  {
    if Contains(censoredName, " - EP") {
      SanitizeKeepsSafeSubstring(censoredName, " - EP");
    } else {
      SanitizeKeepsSafeSubstring(censoredName, " - Single");
    }
  }

  /** A hyphen-free title contains neither marker. */
  lemma NoHyphenNoMarker(raw: string)
    requires '-' !in raw
    ensures !Contains(raw, " - EP") && !Contains(raw, " - Single")
  {
    ContainsKeepsChar(raw, " - EP", 1);
    ContainsKeepsChar(raw, " - Single", 1);
  }

  /** Sanitising rewrites `" : EP"` to `" - EP"` where it stands. */
  lemma ColonBecomesHyphen(raw: string, i: nat)
    requires i + 5 <= |raw| && raw[i..i + 5] == " : EP"
    ensures Sanitized(raw)[i..i + 5] == " - EP"
  {
    var s := Sanitized(raw);
    forall k | 0 <= k < 5 ensures s[i + k] == " - EP"[k] {
      assert raw[i + k] == " : EP"[k];
      assert SafeChar(':') == '-';
    }
  }

  /**
   * Sanitising can create the marker: a colon becomes a hyphen, so a title
   * with `" : EP"` and no hyphen anywhere (`"Live : EP"`) carries no marker
   * before sanitising and still goes to `Singles & EPs`.
   */
  lemma ColonMarkerRoutesToSingles(raw: string, i: nat)
    requires i + 5 <= |raw| && raw[i..i + 5] == " : EP"
    ensures '-' !in raw ==> !Contains(raw, " - EP") && !Contains(raw, " - Single")
    ensures BucketFor(Sanitized(raw)) == SinglesBucket
  {
    if '-' !in raw {
      NoHyphenNoMarker(raw);
    }
    ColonBecomesHyphen(raw, i);
    ContainsAt(Sanitized(raw), " - EP", i);
  }

  /** The title `"Killer (Deluxe) - EP"` goes to `Singles & EPs`. */
  lemma DeluxeEpGoesToSingles()
    ensures BucketFor(Sanitized("Killer (Deluxe) - EP")) == SinglesBucket
  {
    ContainsAt("Killer (Deluxe) - EP", " - EP", 15);
    MarkerRoutesToSingles("Killer (Deluxe) - EP");
  }

  /** A rate that is a whole number of kHz is written as that number, which reads back. */
  lemma WholeKilohertz(q: Quality)
    requires q.sampleRate % 1000 == 0
    ensures QualitySuffix(q) == q.bits + "B-" + NatToString(q.sampleRate / 1000) + "kHz"
    ensures DigitsValue(NatToString(q.sampleRate / 1000)) == q.sampleRate / 1000
  {
    NatToStringValue(q.sampleRate / 1000);
  }

  /** 24-bit 96 kHz FLAC gets the suffix `24B-96kHz`. */
  lemma HiResSuffix(tenths: string)
    ensures QualitySuffix(Quality("24", 96000, tenths)) == "24B-96kHz"
  {
    assert NatToString(96) == "96";
  }

  /** A folder name has no separator when its parts have none, so it stays one path component. */
  lemma {:induction false} FolderNameSingleComponent(censoredName: string, year: int, t: FileType, q: Quality)
    requires '/' !in q.bits && '/' !in q.tenthsText
    ensures '/' !in FolderName(Sanitized(censoredName), year, t, q)
  {
    var name := Sanitized(censoredName);
    assert '/' !in name by {
      assert Unsafe[4] == '/';
    }
    var ys := IntToString(year);
    assert '/' !in ys by {
      DigitsHaveNoSeparator(NatToString(if year < 0 then -year else year));
    }
    var qs := QualitySuffix(q);
    assert '/' !in qs by {
      DigitsHaveNoSeparator(NatToString(q.sampleRate / 1000));
    }
    var base := name + " (" + ys + ") [" + FormatName(t) + "]";
    assert '/' !in base;
    assert '/' !in base + " [" + qs + "]";
  }

  /**
   * The folder name starts with the title, ends with `]`, and for FLAC ends
   * with the quality tag.
   */
  lemma FolderNameShape(name: string, year: int, fileType: FileType, q: Quality)
    ensures var r := FolderName(name, year, fileType, q);
      && StartsWith(r, name) && r[|r| - 1] == ']'
      && (fileType == Flac ==> EndsWith(r, QualitySuffix(q) + "]"))
  {
    PartsShape(name, IntToString(year), FormatName(fileType), QualitySuffix(q));
  }

  /** The same for any parts of the folder name. */
  lemma PartsShape(name: string, ys: string, format: string, quality: string)
    ensures var base := name + " (" + ys + ") [" + format + "]";
      && StartsWith(base, name) && base[|base| - 1] == ']'
      && var r := base + " [" + quality + "]";
      && StartsWith(r, name) && r[|r| - 1] == ']' && EndsWith(r, quality + "]")
  {
    var base := name + " (" + ys + ") [" + format + "]";
    var r := base + " [" + quality + "]";
    assert base[..|name|] == name;
    assert r[..|name|] == name;
    assert r[|r| - |quality| - 1..] == quality + "]";
  }

  lemma DigitsHaveNoSeparator(s: string)
    requires AllDigits(s)
    ensures '/' !in s
  {
    forall i | 0 <= i < |s| ensures s[i] != '/' {
      assert IsDigit(s[i]);
    }
  }

  /**
   * The collection lands directly inside the bucket directly inside the
   * artist directory: the target's last component is the folder name and
   * what precedes it is `<artist>/<bucket>`.
   */
  lemma TargetLayout(tracks: seq<string>, censoredName: string, year: int, artistPath: string, q: Quality)
    requires MoveTarget(tracks, censoredName, year, artistPath, q).Some?
    requires artistPath != [] && !EndsWith(artistPath, "/") && '/' !in q.bits && '/' !in q.tenthsText
    ensures var target := MoveTarget(tracks, censoredName, year, artistPath, q).value;
      var name := Sanitized(censoredName);
      var folder := FolderName(name, year, GetFileType(tracks[0]).value, q);
      && target == artistPath + "/" + BucketFor(name) + "/" + folder
      && Basename(target) == folder
  {
    var name := Sanitized(censoredName);
    var t := GetFileType(tracks[0]).value;
    var folder := FolderName(name, year, t, q);
    var bucket := BucketFor(name);
    assert '/' !in folder && folder != [] && folder[0] != '/' by {
      FolderNameSingleComponent(censoredName, year, t, q);
      assert folder[0] in folder;
    }
    BucketShape(name);
    NestedJoin(artistPath, bucket, folder);
  }

  /** `a/b/f` for a plain directory `a`, a plain component `b` and a file name `f`. */
  lemma NestedJoin(a: string, b: string, f: string)
    requires a != [] && !EndsWith(a, "/") && b != [] && b[0] != '/' && b[|b| - 1] != '/'
    requires f != [] && '/' !in f
    ensures Join(Join(a, b), f) == a + "/" + b + "/" + f && Basename(Join(Join(a, b), f)) == f
  {
    assert a[|a| - 1..] != "/" && a[|a| - 1..] == [a[|a| - 1]];
    JoinPlain(a, b);
    var ab := a + "/" + b;
    assert ab[|ab| - 1] == b[|b| - 1];
    assert f[0] in f;
    JoinPlain(ab, f);
    BasenameOfJoin(ab, f);
  }

  /** Both buckets are single non-empty path components. */
  lemma BucketShape(name: string)
    ensures var b := BucketFor(name); b != [] && b[0] != '/' && b[|b| - 1] != '/'
  {
  }
}
