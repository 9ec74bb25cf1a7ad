/**
 * Track reconciliation (itunesify.py `add_custom_tracks`): when the catalog
 * lists fewer tracks than there are local files, every local file is
 * matched against the catalog titles by edit distance; matched catalog
 * tracks are kept, an unmatched file gets a synthesised track, and the
 * resulting list is renumbered 1..N and becomes the release's track list.
 */
module Reconcile {
  import opened Wrappers
  import opened PyStr
  import opened Censor
  import opened Catalog
  import opened Levenshtein

  /**
   * A local file as the reconciliation sees it: its path, whether the FLAC
   * reader opens it (a `MutagenError` skips the file), and the first value
   * of its `title` and `tracknumber` tags when present.
   */
  datatype LocalFile = LocalFile(path: string, readable: bool, title: Option<string>, trackNumber: Option<string>)

  /** What one file adds to the new track list: a catalog track, by index, or a synthesised track. */
  datatype Entry = Existing(index: nat) | Custom(title: string, number: int)

  /** The largest distance at which two titles still match. */
  const MaxDistance: nat := 2

  // ------------------------------------------------------------------
  // Titles
  // ------------------------------------------------------------------

  /** `re.sub(r"^\d+\s*\.?\s*", "", s)`: a leading track number, its dot and the spaces around it removed. */
  function StripNumberPrefix(s: string): (r: string)
    ensures |r| <= |s| && r == s[|s| - |r|..]
    ensures (s == [] || !IsDigit(s[0])) ==> r == s
  {
    var ds := TakeDigits(s);
    if ds == [] then s else SkipDotAndSpaces(s[|ds|..])
  }

  /** What `\s*\.?\s*` consumes at the start of `t` removed. */
  function SkipDotAndSpaces(t: string): (r: string)
    ensures |r| <= |t| && r == t[|t| - |r|..]
  {
    var a := LStrip(t);
    var b := if a != [] && a[0] == '.' then a[1..] else a;
    LStripSuffix(t);
    LStripSuffix(b);
    LStrip(b)
  }

  /** The title a local file is matched by: its title tag, else its file name without number prefix, extension or parenthetical. */
  function CandidateTitle(f: LocalFile): string {
    if f.title.Some? then f.title.value
    else StripNumberPrefix(Strip(Split(SplitExt(Basename(f.path)).0, '(')[0]))
  }

  /** A catalog title as compared: censor-replaced, cut at the first '(' and stripped. */
  function MatchKey(words: CensorMap, name: string): string {
    Strip(Split(Apply(words, name), '(')[0])
  }

  function CatalogKeys(words: CensorMap, tracks: seq<CatalogTrack>): (keys: seq<string>)
    ensures |keys| == |tracks|
    ensures forall k :: 0 <= k < |tracks| ==> keys[k] == MatchKey(words, tracks[k].censoredName)
  {
    seq(|tracks|, k requires 0 <= k < |tracks| => MatchKey(words, tracks[k].censoredName))
  }

  /** The indices of the keys within `MaxDistance` of `title`, in catalog order. */
  function MatchingIndices(title: string, keys: seq<string>): (r: seq<nat>)
    ensures forall k :: k in r ==> k < |keys|
    ensures forall k :: 0 <= k < |keys| ==> (k in r <==> Dist(title, keys[k]) <= MaxDistance)
    ensures forall p, q :: 0 <= p < q < |r| ==> r[p] < r[q]
    decreases |keys|
  {
    if keys == [] then []
    else
      var n := |keys| - 1;
      var init := MatchingIndices(title, keys[..n]);
      var r := if Dist(title, keys[n]) <= MaxDistance then init + [n] else init;
      MatchingStep(title, keys, init, r);
      r
  }

  /** One more key: its index is appended exactly when it matches. */
  lemma MatchingStep(title: string, keys: seq<string>, init: seq<nat>, r: seq<nat>)
    requires keys != []
    requires forall k :: k in init ==> k < |keys| - 1
    requires forall k :: 0 <= k < |keys| - 1 ==> (k in init <==> Dist(title, keys[..|keys| - 1][k]) <= MaxDistance)
    requires forall p, q :: 0 <= p < q < |init| ==> init[p] < init[q]
    requires r == if Dist(title, keys[|keys| - 1]) <= MaxDistance then init + [|keys| - 1] else init
    ensures forall k :: k in r ==> k < |keys|
    ensures forall k :: 0 <= k < |keys| ==> (k in r <==> Dist(title, keys[k]) <= MaxDistance)
    ensures forall p, q :: 0 <= p < q < |r| ==> r[p] < r[q]
  {
    var n := |keys| - 1;
    assert n !in init;
    forall k | 0 <= k < |keys| ensures k in r <==> Dist(title, keys[k]) <= MaxDistance {
      if k < n {
        assert keys[..n][k] == keys[k];
      }
    }
    forall p, q | 0 <= p < q < |r| ensures r[p] < r[q] {
      if q == |init| {
        assert r[p] == init[p] && init[p] in init;
      }
    }
  }

  // ------------------------------------------------------------------
  // The plan: what the new track list holds, as values
  // ------------------------------------------------------------------

  /** The matched catalog tracks, one entry each, in catalog order. */
  function AsExisting(ms: seq<nat>): (es: seq<Entry>)
    ensures |es| == |ms| && forall p :: 0 <= p < |ms| ==> es[p] == Existing(ms[p])
  {
    if ms == [] then [] else AsExisting(ms[..|ms| - 1]) + [Existing(ms[|ms| - 1])]
  }

  /**
   * What one file contributes, or `None` when its `tracknumber` tag does
   * not parse (`int()` raises).
   */
  function Contribution(f: LocalFile, keys: seq<string>): (r: Option<seq<Entry>>)
    ensures r.Some? ==> forall p :: 0 <= p < |r.value| && r.value[p].Existing? ==> r.value[p].index < |keys|
  {
    if !f.readable then Some([])
    else
      var title := CandidateTitle(f);
      var ms := MatchingIndices(title, keys);
      if ms != [] then
        assert forall p :: 0 <= p < |ms| ==> ms[p] in ms;
        Some(AsExisting(ms))
      else if f.trackNumber.Some? then
        match ParseInt(f.trackNumber.value)
        case None => None
        case Some(n) => Some([Custom(title, n)])
      else
        match FirstDigitRun(Basename(f.path))
        case None => Some([])
        case Some(ds) => Some([Custom(title, DigitsValue(ds))])
  }

  /** Each file's contribution, file by file. */
  function Contributions(files: seq<LocalFile>, keys: seq<string>): (cs: seq<Option<seq<Entry>>>)
    ensures |cs| == |files| && forall i :: 0 <= i < |files| ==> cs[i] == Contribution(files[i], keys)
  {
    seq(|files|, i requires 0 <= i < |files| => Contribution(files[i], keys))
  }

  /** The contributions joined in order, or `None` as soon as one of them is. */
  function Concat(cs: seq<Option<seq<Entry>>>): Option<seq<Entry>>
    decreases |cs|
  {
    if cs == [] then Some([])
    else
      match Concat(cs[..|cs| - 1])
      case None => None
      case Some(es) =>
        match cs[|cs| - 1]
        case None => None
        case Some(c) => Some(es + c)
  }

  /** The whole new track list: the files' contributions in file order. */
  function Plan(files: seq<LocalFile>, keys: seq<string>): (r: Option<seq<Entry>>)
    ensures r.Some? ==> forall p :: 0 <= p < |r.value| && r.value[p].Existing? ==> r.value[p].index < |keys|
  {
    var cs := Contributions(files, keys);
    ConcatBounded(cs, |keys|);
    Concat(cs)
  }

  /** Catalog indices that each contribution keeps below `n` stay below `n` in the join. */
  predicate Bounded(es: seq<Entry>, n: nat) {
    forall p :: 0 <= p < |es| && es[p].Existing? ==> es[p].index < n
  }

  lemma {:induction false} ConcatBounded(cs: seq<Option<seq<Entry>>>, n: nat)
    requires forall i :: 0 <= i < |cs| && cs[i].Some? ==> Bounded(cs[i].value, n)
    ensures Concat(cs).Some? ==> Bounded(Concat(cs).value, n)
    decreases |cs|
  {
    if cs != [] {
      var init := cs[..|cs| - 1];
      assert forall i :: 0 <= i < |init| ==> init[i] == cs[i];
      ConcatBounded(init, n);
    }
  }

  /** The index of the last occurrence of `x` in `s`. */
  function LastIndex<T(==)>(s: seq<T>, x: T): (i: nat)
    requires x in s
    ensures i < |s| && s[i] == x && forall j :: i < j < |s| ==> s[j] != x
  {
    if s[|s| - 1] == x then |s| - 1 else LastIndex(s[..|s| - 1], x)
  }

  // ------------------------------------------------------------------
  // The source's loops
  // ------------------------------------------------------------------

  /** The inner loop of `add_custom_tracks`: every catalog track whose title is close enough. */
  method FindMatches(title: string, tracks: seq<CatalogTrack>, words: CensorMap) returns (ms: seq<nat>)
    ensures ms == MatchingIndices(title, CatalogKeys(words, tracks))
  {
    ghost var keys := CatalogKeys(words, tracks);
    ms := [];
    for k := 0 to |tracks|
      invariant ms == MatchingIndices(title, keys[..k])
    {
      var name := ApplyCensorMap(words, tracks[k].censoredName);
      name := Strip(Split(name, '(')[0]);
      assert name == keys[k];
      var d := LevenshteinDistance(title, name);
      MatchingSnoc(title, keys, k);
      if d <= MaxDistance {
        ms := ms + [k];
      }
    }
    assert keys[..|tracks|] == keys;
  }

  /** One iteration of the outer loop, as the entries it appends. */
  method PlanFile(f: LocalFile, tracks: seq<CatalogTrack>, words: CensorMap) returns (r: Option<seq<Entry>>)
    ensures r == Contribution(f, CatalogKeys(words, tracks))
  {
    if !f.readable {
      return Some([]);
    }
    var title := CandidateTitle(f);
    var ms := FindMatches(title, tracks, words);
    if ms != [] {
      return Some(AsExisting(ms));
    }
    if f.trackNumber.Some? {
      var n := ParseInt(f.trackNumber.value);
      if n.None? {
        return None;
      }
      return Some([Custom(title, n.value)]);
    }
    var ds := FirstDigitRun(Basename(f.path));
    if ds.None? {
      return Some([]);
    }
    return Some([Custom(title, DigitsValue(ds.value))]);
  }

  /**
   * The new list realises the entries: a catalog entry is that catalog
   * track itself, a synthesised entry a track with the release's artist,
   * the local title and the local file count.
   */
  predicate Realises(updated: seq<CatalogTrack>, entries: seq<Entry>, catalog: seq<CatalogTrack>,
                     artist: string, fileCount: nat)
  {
    && |updated| == |entries|
    && forall p :: 0 <= p < |updated| ==> RealisesEntry(updated[p], entries[p], catalog, artist, fileCount)
  }

  predicate RealisesEntry(t: CatalogTrack, e: Entry, catalog: seq<CatalogTrack>, artist: string, fileCount: nat) {
    match e
    case Existing(k) => k < |catalog| && t == catalog[k]
    case Custom(title, n) => t.artistName == artist && t.censoredName == title && t.trackCount == fileCount
  }

  /** Synthesised tracks are distinct objects, and none of them is a catalog track. */
  predicate CustomsApart(updated: seq<CatalogTrack>, entries: seq<Entry>, catalog: seq<CatalogTrack>)
    requires |updated| == |entries|
  {
    && (forall p :: 0 <= p < |updated| && entries[p].Custom? ==> updated[p] !in catalog)
    && (forall p, q :: 0 <= p < q < |updated| && entries[p].Custom? && entries[q].Custom? ==> updated[p] != updated[q])
  }

  /** The appending of one file's entries, allocating a track for a synthesised one. */
  method AppendEntries(catalog: seq<CatalogTrack>, artist: string, fileCount: nat, es: seq<Entry>,
                       updated: seq<CatalogTrack>, ghost entries: seq<Entry>)
    returns (result: seq<CatalogTrack>)
    requires Realises(updated, entries, catalog, artist, fileCount) && CustomsApart(updated, entries, catalog)
    requires forall p :: 0 <= p < |es| && es[p].Existing? ==> es[p].index < |catalog|
    ensures Realises(result, entries + es, catalog, artist, fileCount) && CustomsApart(result, entries + es, catalog)
    ensures forall t :: t in result ==> t in updated || t in catalog || fresh(t)
  {
    result := updated;
    for j := 0 to |es|
      invariant Realises(result, entries + es[..j], catalog, artist, fileCount)
      invariant CustomsApart(result, entries + es[..j], catalog)
      invariant forall t :: t in result ==> t in updated || t in catalog || fresh(t)
    {
      var t: CatalogTrack;
      match es[j] {
        case Existing(k) =>
          t := catalog[k];
        case Custom(title, n) =>
          t := new CatalogTrack(artist, title, n, fileCount);
      }
      AppendOne(result, entries + es[..j], catalog, artist, fileCount, t, es[j]);
      assert entries + es[..j + 1] == (entries + es[..j]) + [es[j]];
      result := result + [t];
    }
    assert es[..|es|] == es;
  }

  lemma AppendOne(updated: seq<CatalogTrack>, entries: seq<Entry>, catalog: seq<CatalogTrack>,
                  artist: string, fileCount: nat, t: CatalogTrack, e: Entry)
    requires Realises(updated, entries, catalog, artist, fileCount) && CustomsApart(updated, entries, catalog)
    requires RealisesEntry(t, e, catalog, artist, fileCount)
    requires e.Custom? ==> t !in catalog && t !in updated
    ensures Realises(updated + [t], entries + [e], catalog, artist, fileCount)
    ensures CustomsApart(updated + [t], entries + [e], catalog)
  {
    var u, es := updated + [t], entries + [e];
    forall p | 0 <= p < |u| ensures RealisesEntry(u[p], es[p], catalog, artist, fileCount) {
      if p < |updated| {
        assert u[p] == updated[p] && es[p] == entries[p];
      }
    }
    assert forall p :: 0 <= p < |updated| ==> u[p] == updated[p] && es[p] == entries[p];
  }

  /**
   * The outer loop: the new track list, catalog tracks shared with the
   * release and synthesised tracks newly allocated, or `false` when a
   * `tracknumber` tag does not parse.
   */
  method BuildTrackList(coll: Collection, files: seq<LocalFile>, words: CensorMap)
    returns (ok: bool, updated: seq<CatalogTrack>, ghost entries: seq<Entry>)
    ensures var plan := Plan(files, CatalogKeys(words, coll.tracks));
      && (ok <==> plan.Some?)
      && (ok ==> && plan.value == entries
                 && Realises(updated, entries, coll.tracks, coll.artistName, |files|)
                 && CustomsApart(updated, entries, coll.tracks))
    ensures ok ==> forall t :: t in updated ==> t in coll.tracks || fresh(t)
  {
    ghost var keys := CatalogKeys(words, coll.tracks);
    ghost var cs := Contributions(files, keys);
    entries := [];
    updated := [];
    var i := 0;
    while i < |files|
      invariant 0 <= i <= |files|
      invariant Concat(cs[..i]) == Some(entries)
      invariant Realises(updated, entries, coll.tracks, coll.artistName, |files|)
      invariant CustomsApart(updated, entries, coll.tracks)
      invariant forall t :: t in updated ==> t in coll.tracks || fresh(t)
    {
      var contribution := PlanFile(files[i], coll.tracks, words);
      ConcatSnoc(cs, i);
      if contribution.None? {
        ConcatNoneExtends(cs, i + 1);
        return false, updated, entries;
      }
      var es := contribution.value;
      updated := AppendEntries(coll.tracks, coll.artistName, |files|, es, updated, entries);
      entries := entries + es;
      i := i + 1;
    }
    assert cs[..i] == cs;
    ok := true;
  }

  /** The renumbering loop: each track in turn gets its position plus one. */
  method Renumber(tracks: seq<CatalogTrack>)
    modifies set t | t in tracks
    ensures forall p :: 0 <= p < |tracks| ==> tracks[p].trackNumber == LastIndex(tracks, tracks[p]) + 1
    ensures (forall p, q :: 0 <= p < q < |tracks| ==> tracks[p] != tracks[q])
            ==> forall p :: 0 <= p < |tracks| ==> tracks[p].trackNumber == p + 1
  {
    for i := 0 to |tracks|
      invariant forall p :: 0 <= p < i ==> tracks[p].trackNumber == LastIndex(tracks[..i], tracks[p]) + 1
    {
      ghost var prefix := tracks[..i];
      tracks[i].trackNumber := i + 1;
      assert tracks[..i + 1] == prefix + [tracks[i]];
      forall p | 0 <= p <= i
        ensures tracks[p].trackNumber == LastIndex(tracks[..i + 1], tracks[p]) + 1
      {
        LastIndexSnoc(prefix, tracks[i], tracks[p]);
      }
    }
    assert tracks[..|tracks|] == tracks;
    NumberedInOrder(tracks);
  }

  /** Numbering by last position numbers a list without repetitions by position. */
  lemma NumberedInOrder(tracks: seq<CatalogTrack>)
    requires forall p :: 0 <= p < |tracks| ==> tracks[p].trackNumber == LastIndex(tracks, tracks[p]) + 1
    ensures (forall p, q :: 0 <= p < q < |tracks| ==> tracks[p] != tracks[q])
            ==> forall p :: 0 <= p < |tracks| ==> tracks[p].trackNumber == p + 1
  {
    if forall p, q :: 0 <= p < q < |tracks| ==> tracks[p] != tracks[q] {
      forall p | 0 <= p < |tracks| ensures tracks[p].trackNumber == p + 1 {
        LastIndexDistinct(tracks, p);
      }
    }
  }

  /**
   * `add_custom_tracks`: on success the release's list is the plan realised
   * (catalog tracks by identity, synthesised tracks carrying the release's
   * artist, the local title and the local file count), `track_count` is its
   * length, and every listed track is numbered by its last position in the
   * list. On a `tracknumber` that does not parse nothing has changed.
   */
  method AddCustomTracks(coll: Collection, files: seq<LocalFile>, words: CensorMap)
    returns (ok: bool, ghost entries: seq<Entry>)
    modifies coll, set t | t in coll.tracks
    ensures var plan := Plan(files, CatalogKeys(words, old(coll.tracks)));
      && (ok <==> plan.Some?)
      && (!ok ==> && coll.tracks == old(coll.tracks) && coll.trackCount == old(coll.trackCount)
                  && forall t :: t in old(coll.tracks) ==> t.trackNumber == old(t.trackNumber))
      && (ok ==> && plan.value == entries && coll.trackCount == |coll.tracks|
                 && Realises(coll.tracks, entries, old(coll.tracks), coll.artistName, |files|))
    ensures ok ==> forall p :: 0 <= p < |coll.tracks| && entries[p].Custom? ==> fresh(coll.tracks[p])
    ensures ok ==> forall p :: 0 <= p < |coll.tracks| ==>
                     coll.tracks[p].trackNumber == LastIndex(coll.tracks, coll.tracks[p]) + 1
    ensures ok && ExistingApart(entries, old(coll.tracks))
            ==> forall p :: 0 <= p < |coll.tracks| ==> coll.tracks[p].trackNumber == p + 1
    ensures forall t :: t in old(coll.tracks) && t !in coll.tracks ==> t.trackNumber == old(t.trackNumber)
  {
    ghost var catalog := coll.tracks;
    var updated: seq<CatalogTrack>;
    ok, updated, entries := BuildTrackList(coll, files, words);
    if !ok {
      return;
    }
    if ExistingApart(entries, catalog) {
      AllDistinct(updated, entries, catalog, coll.artistName, |files|);
    }
    assert forall p :: 0 <= p < |updated| && entries[p].Custom? ==> fresh(updated[p]) by {
      forall p | 0 <= p < |updated| && entries[p].Custom? ensures fresh(updated[p]) {
        assert updated[p] in updated && updated[p] !in catalog;
      }
    }
    Renumber(updated);
    assert forall t :: t in catalog && t !in updated ==> t.trackNumber == old(t.trackNumber);
    coll.tracks := updated;
    coll.trackCount := |updated|;
  }

  /** The catalog entries of a plan name pairwise different track objects. */
  predicate ExistingApart(entries: seq<Entry>, catalog: seq<CatalogTrack>) {
    forall p, q :: 0 <= p < q < |entries| && entries[p].Existing? && entries[q].Existing?
                   && entries[p].index < |catalog| && entries[q].index < |catalog|
                   ==> catalog[entries[p].index] != catalog[entries[q].index]
  }

  lemma AllDistinct(updated: seq<CatalogTrack>, entries: seq<Entry>, catalog: seq<CatalogTrack>,
                    artist: string, fileCount: nat)
    requires Realises(updated, entries, catalog, artist, fileCount) && CustomsApart(updated, entries, catalog)
    requires ExistingApart(entries, catalog)
    ensures forall p, q :: 0 <= p < q < |updated| ==> updated[p] != updated[q]
  {
    forall p, q | 0 <= p < q < |updated| ensures updated[p] != updated[q] {
      assert RealisesEntry(updated[p], entries[p], catalog, artist, fileCount);
      assert RealisesEntry(updated[q], entries[q], catalog, artist, fileCount);
    }
  }

  /** The reconciliation runs only when the catalog lists fewer tracks than there are local files. */
  predicate NeedsReconciliation(coll: Collection, files: seq<LocalFile>)
    reads coll
  {
    coll.trackCount < |files|
  }

  /**
   * Lines 628-631 with `handle_missing_tracks` (563-567): when the confirmed
   * release is short and the user accepts, the tracks are filled in. The
   * release filled in is the first search result, `first`, while the count
   * compared is the confirmed one's, `chosen`; the two differ when the user
   * picked another result. The user's answer is the parameter `accepted`.
   */
  method HandleMissingTracks(chosen: Collection, first: Collection, files: seq<LocalFile>, words: CensorMap,
                             accepted: bool)
    returns (ran: bool, ok: bool, ghost entries: seq<Entry>)
    modifies first, set t | t in first.tracks
    ensures ran <==> old(NeedsReconciliation(chosen, files)) && accepted
    ensures !ran ==> !ok
    ensures !ok ==> && first.tracks == old(first.tracks) && first.trackCount == old(first.trackCount)
                    && forall t :: t in old(first.tracks) ==> t.trackNumber == old(t.trackNumber)
    ensures ran ==> (ok <==> Plan(files, CatalogKeys(words, old(first.tracks))).Some?)
    ensures ok ==> && entries == Plan(files, CatalogKeys(words, old(first.tracks))).value
                   && first.trackCount == |first.tracks|
                   && Realises(first.tracks, entries, old(first.tracks), first.artistName, |files|)
    ensures ok ==> forall p :: 0 <= p < |first.tracks| && entries[p].Custom? ==> fresh(first.tracks[p])
    ensures ok ==> forall p :: 0 <= p < |first.tracks| ==>
                     first.tracks[p].trackNumber == LastIndex(first.tracks, first.tracks[p]) + 1
    ensures ok && ExistingApart(entries, old(first.tracks))
            ==> forall p :: 0 <= p < |first.tracks| ==> first.tracks[p].trackNumber == p + 1
    ensures chosen != first ==> chosen.tracks == old(chosen.tracks) && chosen.trackCount == old(chosen.trackCount)
  {
    ran, ok, entries := false, false, [];
    if chosen.trackCount < |files| && accepted {
      ran := true;
      ok, entries := AddCustomTracks(first, files, words);
    }
  }


  // ------------------------------------------------------------------
  // Properties
  // ------------------------------------------------------------------

  /** The number prefix of a file-name title is removed exactly: digits, spaces, an optional dot, spaces. */
  lemma StripNumberPrefixOfParts(ds: string, sp1: string, dot: string, sp2: string, rest: string)
    requires ds != [] && AllDigits(ds)
    requires forall i :: 0 <= i < |sp1| ==> IsSpace(sp1[i])
    requires forall i :: 0 <= i < |sp2| ==> IsSpace(sp2[i])
    requires dot == "" || dot == "."
    requires rest == [] || (!IsSpace(rest[0]) && !IsDigit(rest[0]) && rest[0] != '.')
    ensures StripNumberPrefix(ds + sp1 + dot + sp2 + rest) == rest
  {
    var tail := sp1 + dot + sp2 + rest;
    assert ds + sp1 + dot + sp2 + rest == ds + tail;
    SkipDotAndSpacesOfParts(sp1, dot, sp2, rest);
    TakeDigitsPrefix(ds, tail);
    assert (ds + tail)[|ds|..] == tail;
  }

  lemma SkipDotAndSpacesOfParts(sp1: string, dot: string, sp2: string, rest: string)
    requires forall i :: 0 <= i < |sp1| ==> IsSpace(sp1[i])
    requires forall i :: 0 <= i < |sp2| ==> IsSpace(sp2[i])
    requires dot == "" || dot == "."
    requires rest == [] || (!IsSpace(rest[0]) && !IsDigit(rest[0]) && rest[0] != '.')
    ensures SkipDotAndSpaces(sp1 + dot + sp2 + rest) == rest
    ensures sp1 + dot + sp2 + rest == [] || !IsDigit((sp1 + dot + sp2 + rest)[0])
  {
    if dot == "." {
      assert sp1 + dot + sp2 + rest == sp1 + ("." + (sp2 + rest));
      DottedParts(sp1, sp2, rest);
    } else {
      var spaces := sp1 + sp2;
      assert sp1 + dot + sp2 + rest == spaces + rest;
      UndottedParts(spaces, rest);
    }
  }

  lemma DottedParts(sp1: string, sp2: string, rest: string)
    requires forall i :: 0 <= i < |sp1| ==> IsSpace(sp1[i])
    requires forall i :: 0 <= i < |sp2| ==> IsSpace(sp2[i])
    requires rest == [] || (!IsSpace(rest[0]) && !IsDigit(rest[0]) && rest[0] != '.')
    ensures var z := sp1 + ("." + (sp2 + rest)); SkipDotAndSpaces(z) == rest && !IsDigit(z[0])
  {
    var z := sp1 + ("." + (sp2 + rest));
    assert !IsDigit(z[0]) by {
      if sp1 == [] {
        assert z[0] == '.';
      } else {
        assert z[0] == sp1[0];
      }
    }
    assert SkipDotAndSpaces(z) == rest by {
      SkipWithDot(sp1, sp2 + rest);
      LStripSpaces(sp2, rest);
    }
  }

  lemma UndottedParts(spaces: string, rest: string)
    requires forall i :: 0 <= i < |spaces| ==> IsSpace(spaces[i])
    requires rest == [] || (!IsSpace(rest[0]) && !IsDigit(rest[0]) && rest[0] != '.')
    ensures var z := spaces + rest; SkipDotAndSpaces(z) == rest && (z == [] || !IsDigit(z[0]))
  {
    var z := spaces + rest;
    SkipWithoutDot(spaces, rest);
    if spaces != [] {
      assert z[0] == spaces[0];
    } else if z != [] {
      assert z[0] == rest[0];
    }
  }

  lemma SkipWithDot(sp: string, after: string)
    requires forall i :: 0 <= i < |sp| ==> IsSpace(sp[i])
    ensures SkipDotAndSpaces(sp + ("." + after)) == LStrip(after)
  {
    var a := "." + after;
    assert a[0] == '.' && a[1..] == after;
    LStripSpaces(sp, a);
  }

  lemma SkipWithoutDot(spaces: string, rest: string)
    requires forall i :: 0 <= i < |spaces| ==> IsSpace(spaces[i])
    requires rest == [] || (!IsSpace(rest[0]) && rest[0] != '.')
    ensures SkipDotAndSpaces(spaces + rest) == rest
  {
    LStripSpaces(spaces, rest);
    LStripSpaces([], rest);
    assert [] + rest == rest;
  }

  /** A readable file within distance two of exactly one catalog title yields exactly that catalog track. */
  lemma SingleMatch(f: LocalFile, keys: seq<string>, k: nat)
    requires f.readable && k < |keys| && Dist(CandidateTitle(f), keys[k]) <= MaxDistance
    requires forall j :: 0 <= j < |keys| && j != k ==> Dist(CandidateTitle(f), keys[j]) > MaxDistance
    ensures Contribution(f, keys) == Some([Existing(k)])
  {
    OnlyMatch(CandidateTitle(f), keys, k);
    assert AsExisting([k]) == [Existing(k)];
  }

  /** With a single close key, the matching indices are that key's alone. */
  lemma OnlyMatch(title: string, keys: seq<string>, k: nat)
    requires k < |keys| && Dist(title, keys[k]) <= MaxDistance
    requires forall j :: 0 <= j < |keys| && j != k ==> Dist(title, keys[j]) > MaxDistance
    ensures MatchingIndices(title, keys) == [k]
  {
    var r := MatchingIndices(title, keys);
    assert k in r;
    forall p | 0 <= p < |r| ensures r[p] == k {
      assert r[p] in r;
    }
    AtMostOnce(r, k);
  }

  /** A strictly increasing sequence holds a value at most once. */
  lemma AtMostOnce(r: seq<nat>, k: nat)
    requires forall p, q :: 0 <= p < q < |r| ==> r[p] < r[q]
    requires forall p :: 0 <= p < |r| ==> r[p] == k
    ensures |r| <= 1
  {
    FirstTwoIncrease(r);
  }

  lemma FirstTwoIncrease(r: seq<nat>)
    requires forall p, q :: 0 <= p < q < |r| ==> r[p] < r[q]
    ensures |r| >= 2 ==> r[0] < r[1]
  {
  }

  /** No key close enough means no match. */
  lemma {:induction false} MatchingNone(title: string, keys: seq<string>)
    requires forall j :: 0 <= j < |keys| ==> Dist(title, keys[j]) > MaxDistance
    ensures MatchingIndices(title, keys) == []
    decreases |keys|
  {
    if keys != [] {
      var n := |keys| - 1;
      assert forall j :: 0 <= j < n ==> keys[..n][j] == keys[j];
      MatchingNone(title, keys[..n]);
    }
  }

  /** A file whose candidate title equals a catalog title always keeps that catalog track. */
  lemma ExactTitleKept(f: LocalFile, keys: seq<string>, k: nat)
    requires f.readable && k < |keys| && CandidateTitle(f) == keys[k]
    ensures Contribution(f, keys).Some? && Existing(k) in Contribution(f, keys).value
  {
    DistZeroIffEqual(CandidateTitle(f), keys[k]);
    var ms := MatchingIndices(CandidateTitle(f), keys);
    assert k in ms;
    var p :| 0 <= p < |ms| && ms[p] == k;
    assert AsExisting(ms)[p] == Existing(k);
  }

  /** An unmatched readable file with a parseable `tracknumber` tag yields one synthesised track. */
  lemma UnmatchedTagged(f: LocalFile, keys: seq<string>, n: int)
    requires f.readable && f.trackNumber.Some? && ParseInt(f.trackNumber.value) == Some(n)
    requires forall j :: 0 <= j < |keys| ==> Dist(CandidateTitle(f), keys[j]) > MaxDistance
    ensures Contribution(f, keys) == Some([Custom(CandidateTitle(f), n)])
  {
    MatchingNone(CandidateTitle(f), keys);
  }

  /** Reconciliation fails exactly when some file's contribution does, i.e. on an unparseable `tracknumber`. */
  lemma PlanFailsIff(files: seq<LocalFile>, keys: seq<string>)
    ensures Plan(files, keys).None? <==> exists i :: 0 <= i < |files| && Contribution(files[i], keys).None?
  {
    var cs := Contributions(files, keys);
    ConcatFailsIff(cs);
    if Concat(cs).None? {
      var i :| 0 <= i < |cs| && cs[i].None?;
      assert Contribution(files[i], keys).None?;
    }
  }

  lemma {:induction false} ConcatFailsIff(cs: seq<Option<seq<Entry>>>)
    ensures Concat(cs).None? <==> exists i :: 0 <= i < |cs| && cs[i].None?
    decreases |cs|
  {
    if cs != [] {
      var n := |cs| - 1;
      var init := cs[..n];
      ConcatFailsIff(init);
      assert forall i :: 0 <= i < n ==> init[i] == cs[i];
      if Concat(init).None? {
        var i :| 0 <= i < n && init[i].None?;
        assert cs[i].None?;
      }
    }
  }

  /** A contribution fails exactly on a readable unmatched file whose `tracknumber` tag does not parse. */
  lemma ContributionFailsIff(f: LocalFile, keys: seq<string>)
    ensures Contribution(f, keys).None? <==>
      && f.readable
      && (forall j :: 0 <= j < |keys| ==> Dist(CandidateTitle(f), keys[j]) > MaxDistance)
      && f.trackNumber.Some? && ParseInt(f.trackNumber.value).None?
  {
    if forall j :: 0 <= j < |keys| ==> Dist(CandidateTitle(f), keys[j]) > MaxDistance {
      MatchingNone(CandidateTitle(f), keys);
    }
  }

  /** When every file yields exactly one entry, the new list has one track per local file, in file order. */
  lemma PlanOneEach(files: seq<LocalFile>, keys: seq<string>)
    requires forall i :: 0 <= i < |files| ==> Contribution(files[i], keys).Some? && |Contribution(files[i], keys).value| == 1
    ensures Plan(files, keys).Some? && |Plan(files, keys).value| == |files|
    ensures forall i :: 0 <= i < |files| ==> Plan(files, keys).value[i] == Contribution(files[i], keys).value[0]
  {
    ConcatOneEach(Contributions(files, keys));
  }

  lemma {:induction false} ConcatOneEach(cs: seq<Option<seq<Entry>>>)
    requires forall i :: 0 <= i < |cs| ==> cs[i].Some? && |cs[i].value| == 1
    ensures Concat(cs).Some? && |Concat(cs).value| == |cs|
    ensures forall i :: 0 <= i < |cs| ==> Concat(cs).value[i] == cs[i].value[0]
    decreases |cs|
  {
    if cs != [] {
      var n := |cs| - 1;
      var init := cs[..n];
      assert forall i :: 0 <= i < n ==> init[i] == cs[i];
      ConcatOneEach(init);
    }
  }

  lemma MatchingSnoc(title: string, keys: seq<string>, k: nat)
    requires k < |keys|
    ensures MatchingIndices(title, keys[..k + 1])
         == MatchingIndices(title, keys[..k]) + (if Dist(title, keys[k]) <= MaxDistance then [k] else [])
  {
    assert keys[..k + 1][..k] == keys[..k];
  }

  lemma ConcatSnoc(cs: seq<Option<seq<Entry>>>, i: nat)
    requires i < |cs|
    ensures Concat(cs[..i + 1])
         == match Concat(cs[..i])
            case None => None
            case Some(es) =>
              match cs[i]
              case None => None
              case Some(c) => Some(es + c)
  {
    assert cs[..i + 1][..i] == cs[..i];
  }

  lemma {:induction false} ConcatNoneExtends(cs: seq<Option<seq<Entry>>>, n: nat)
    requires n <= |cs| && Concat(cs[..n]) == None
    ensures Concat(cs) == None
    decreases |cs| - n
  {
    if n < |cs| {
      assert cs[..n + 1][..n] == cs[..n];
      ConcatNoneExtends(cs, n + 1);
    } else {
      assert cs[..n] == cs;
    }
  }

  lemma {:induction false} LastIndexSnoc<T>(s: seq<T>, y: T, x: T)
    requires x in s + [y]
    ensures LastIndex(s + [y], x) == if x == y then |s| else LastIndex(s, x)
  {
    if x != y {
      assert (s + [y])[..|s|] == s;
      assert x in s;
    }
  }

  /** In a list without repetitions each element's last position is its position. */
  lemma LastIndexDistinct<T>(s: seq<T>, p: nat)
    requires p < |s| && forall i, j :: 0 <= i < j < |s| ==> s[i] != s[j]
    ensures LastIndex(s, s[p]) == p
  {
  }
}
