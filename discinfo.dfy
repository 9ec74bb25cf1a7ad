/**
 * Disc numbering (itunesify.py `extract_disc_info`): a collection directory
 * named like `Disc 2` or `cd03` gives the disc number, and the entries of its
 * parent directory with such names give the disc count. The parent
 * directory's listing is a parameter.
 */
module DiscInfo {
  import opened Wrappers
  import opened PyStr

  /** Character `c` matches the lower-case ASCII letter `p` under `(?i)`, for ASCII input. */
  predicate MatchesLetter(c: char, p: char) {
    LowerChar(c) == p
  }

  /** The first `|w|` characters of `s` match the lower-case word `w`, ignoring ASCII case. */
  predicate StartsWithIgnoringCase(s: string, w: string) {
    |w| <= |s| && forall i :: 0 <= i < |w| ==> MatchesLetter(s[i], w[i])
  }

  /** The two words the pattern accepts, in lower case. */
  const DiscWord: string := "disc"
  const CdWord: string := "cd"

  /** Both words are lower-case letters; they differ in their first letter and their length. */
  lemma WordsAreLetters()
    ensures |DiscWord| == 4 && |CdWord| == 2 && DiscWord[0] == 'd' && CdWord[0] == 'c'
    ensures forall i :: 0 <= i < |DiscWord| ==> 'a' <= DiscWord[i] <= 'z'
    ensures forall i :: 0 <= i < |CdWord| ==> 'a' <= CdWord[i] <= 'z'
  {
  }

  /**
   * The digits of a name matched by `(?i)^(?:disc|cd)\s*\d+$`, if it matches:
   * the word, any whitespace, one or more digits, then the end of the name
   * or a final newline (which `$` also accepts).
   */
  function DiscDigits(name: string): Option<string> {
    if StartsWithIgnoringCase(name, DiscWord) then DigitsAfterWord(name[|DiscWord|..])
    else if StartsWithIgnoringCase(name, CdWord) then DigitsAfterWord(name[|CdWord|..])
    else None
  }

  /** What `\s*\d+$` matches at the start of `rest`: the digits, if the rest matches. */
  function DigitsAfterWord(rest: string): (r: Option<string>)
    ensures r.Some? ==> r.value != [] && AllDigits(r.value)
  {
    var t := LStrip(rest);
    var ds := TakeDigits(t);
    if ds != [] && (t == ds || t == ds + "\n") then Some(ds) else None
  }

  predicate IsDiscDir(name: string) { DiscDigits(name).Some? }

  /** How many of the listed names match the disc pattern. */
  function CountDiscDirs(names: seq<string>): (n: nat)
    ensures n <= |names|
  {
    if names == [] then 0
    else CountDiscDirs(names[..|names| - 1]) + (if IsDiscDir(names[|names| - 1]) then 1 else 0)
  }

  /**
   * `extract_disc_info(path)` given the listing of the directory two levels
   * up: `(count, number)`, both padded to width 2, or `("01", "01")` when
   * the file's directory is not a disc directory. The number is the search
   * for the first digit run in the directory name, as in the source.
   */
  function ExtractDiscInfo(path: string, parentListing: seq<string>): (r: (string, string))
    ensures |r.0| >= 2 && AllDigits(r.0) && |r.1| >= 2 && AllDigits(r.1)
  {
    var dirName := Basename(Dirname(path));
    if IsDiscDir(dirName) then
      FirstRunIsDiscDigits(dirName);
      var count := IntToString(CountDiscDirs(parentListing));
      var number := FirstDigitRun(dirName).value;
      PaddedStaysDigits(count);
      PaddedStaysDigits(number);
      (ZFill(count, 2), ZFill(number, 2))
    else ("01", "01")
  }

  /** Padding a digit string to width 2 gives at least two digits. */
  lemma PaddedStaysDigits(ds: string)
    requires ds != [] && AllDigits(ds)
    ensures |ZFill(ds, 2)| >= 2 && AllDigits(ZFill(ds, 2))
  {
    PaddedPositive(ds, 2);
  }

  // ------------------------------------------------------------------
  // Properties
  // ------------------------------------------------------------------

  /** In a disc directory name the first digit run is the run the pattern matched. */
  lemma FirstRunIsDiscDigits(name: string)
    requires IsDiscDir(name)
    ensures FirstDigitRun(name) == DiscDigits(name)
  {
    WordsAreLetters();
    if StartsWithIgnoringCase(name, DiscWord) {
      FirstRunAfterPrefix(name, DiscWord);
    } else {
      FirstRunAfterPrefix(name, CdWord);
    }
  }

  lemma FirstRunAfterPrefix(name: string, w: string)
    requires StartsWithIgnoringCase(name, w) && forall i :: 0 <= i < |w| ==> 'a' <= w[i] <= 'z'
    requires DigitsAfterWord(name[|w|..]).Some?
    ensures FirstDigitRun(name) == DigitsAfterWord(name[|w|..])
  {
    WordHasNoDigits(name, w);
    SkipNonDigits(name, |w|);
    FirstRunAfterWord(name[|w|..]);
  }

  lemma WordHasNoDigits(name: string, w: string)
    requires StartsWithIgnoringCase(name, w) && forall i :: 0 <= i < |w| ==> 'a' <= w[i] <= 'z'
    ensures forall i :: 0 <= i < |w| ==> !IsDigit(name[i])
  {
    forall i | 0 <= i < |w| ensures !IsDigit(name[i]) {
      assert MatchesLetter(name[i], w[i]);
    }
  }

  lemma FirstRunAfterWord(rest: string)
    requires DigitsAfterWord(rest).Some?
    ensures FirstDigitRun(rest) == DigitsAfterWord(rest)
  {
    var t := LStrip(rest);
    var sp := |rest| - |t|;
    LStripSuffix(rest);
    assert forall i :: 0 <= i < sp ==> IsSpace(rest[i]);
    SkipNonDigits(rest, sp);
    assert rest[sp..] == t;
    assert IsDigit(t[0]);
  }

  /** Skipping a prefix without digits does not change the first digit run. */
  lemma {:induction false} SkipNonDigits(s: string, k: nat)
    requires k <= |s| && forall i :: 0 <= i < k ==> !IsDigit(s[i])
    ensures FirstDigitRun(s) == FirstDigitRun(s[k..])
    decreases k
  {
    if k > 0 {
      assert s[1..][k - 1..] == s[k..];
      SkipNonDigits(s[1..], k - 1);
    }
  }

  /** The disc number of a disc directory is its digits padded to two; the count is the matching siblings. */
  lemma DiscInfoOfDiscDir(path: string, parentListing: seq<string>)
    requires IsDiscDir(Basename(Dirname(path)))
    ensures var d := DiscDigits(Basename(Dirname(path))).value;
      ExtractDiscInfo(path, parentListing)
        == (ZFill(IntToString(CountDiscDirs(parentListing)), 2), ZFill(d, 2))
  {
    FirstRunIsDiscDigits(Basename(Dirname(path)));
  }

  /** Any name built as word, whitespace, digits and optional newline matches, giving those digits. */
  lemma DiscDirOfParts(word: string, space: string, ds: string, newline: bool)
    requires (StartsWithIgnoringCase(word, DiscWord) && |word| == |DiscWord|)
          || (StartsWithIgnoringCase(word, CdWord) && |word| == |CdWord|)
    requires forall i :: 0 <= i < |space| ==> IsSpace(space[i])
    requires ds != [] && AllDigits(ds)
    ensures DiscDigits(word + space + ds + (if newline then "\n" else "")) == Some(ds)
  {
    var tail := if newline then "\n" else "";
    var rest := space + (ds + tail);
    assert word + space + ds + tail == word + rest;
    DigitsAfterParts(space, ds, tail);
    DiscDigitsAfterWord(word, rest);
  }

  /** The word decides where the digits are looked for. */
  lemma DiscDigitsAfterWord(word: string, rest: string)
    requires (StartsWithIgnoringCase(word, DiscWord) && |word| == |DiscWord|)
          || (StartsWithIgnoringCase(word, CdWord) && |word| == |CdWord|)
    ensures DiscDigits(word + rest) == DigitsAfterWord(rest)
  {
    var name := word + rest;
    WordsAreLetters();
    assert StartsWithIgnoringCase(name, DiscWord) <==> |word| == |DiscWord| by {
      assert MatchesLetter(word[0], DiscWord[0]) ==> |word| == |DiscWord|;
      assert name[0] == word[0];
    }
    assert name[|word|..] == rest;
  }

  /** Whitespace, digits and a tail that is empty or one newline give those digits. */
  lemma DigitsAfterParts(space: string, ds: string, tail: string)
    requires forall i :: 0 <= i < |space| ==> IsSpace(space[i])
    requires ds != [] && AllDigits(ds)
    requires tail == [] || tail == "\n"
    ensures DigitsAfterWord(space + (ds + tail)) == Some(ds)
  {
    LStripSpaces(space, ds + tail);
    TakeDigitsPrefix(ds, tail);
  }

  /** A name outside the pattern gives the default pair. */
  lemma DiscInfoDefault(path: string, parentListing: seq<string>)
    requires !IsDiscDir(Basename(Dirname(path)))
    ensures ExtractDiscInfo(path, parentListing) == ("01", "01")
  {
  }

  /** The count covers the directory itself whenever the listing contains it. */
  lemma {:induction false} CountIncludesSelf(names: seq<string>, name: string)
    requires name in names && IsDiscDir(name)
    ensures CountDiscDirs(names) >= 1
    decreases |names|
  {
    if names[|names| - 1] != name {
      assert name in names[..|names| - 1];
      CountIncludesSelf(names[..|names| - 1], name);
    }
  }

  /** A padded digit run, such as the disc number, reads back as the run's value. */
  lemma PaddedDigitsReadBack(ds: string)
    requires ds != [] && AllDigits(ds)
    ensures ParseInt(ZFill(ds, 2)) == Some(DigitsValue(ds) as int)
  {
    var pad: nat := if |ds| >= 2 then 0 else 2 - |ds|;
    ZerosValue(pad, ds);
    PaddedPositive(ds, 2);
    ParseUnsigned(Zeros(pad) + ds);
  }
  /** Every listed name is a disc directory, so all of them are counted. */
  lemma {:induction false} CountAllDiscDirs(names: seq<string>)
    requires forall i :: 0 <= i < |names| ==> IsDiscDir(names[i])
    ensures CountDiscDirs(names) == |names|
    decreases |names|
  {
    if names != [] {
      var init := names[..|names| - 1];
      assert forall i :: 0 <= i < |init| ==> init[i] == names[i];
      CountAllDiscDirs(init);
    }
  }

  /** `Disc <n>` is a disc directory name whose digits are `n`. */
  lemma DiscName(ds: string)
    requires ds != [] && AllDigits(ds)
    ensures DiscDigits("Disc " + ds) == Some(ds)
  {
    assert StartsWithIgnoringCase("Disc", DiscWord) by {
      assert LowerChar('D') == 'd';
    }
    DiscDirOfParts("Disc", " ", ds, false);
    assert "Disc" + " " + ds + "" == "Disc " + ds;
  }

  /** The directory of `dir/name` is `dir`, for a directory path without a trailing separator. */
  lemma DirnameOfChild(dir: string, name: string)
    requires '/' !in name && dir != [] && dir[|dir| - 1] != '/' && dir[0] == '/'
    ensures Dirname(dir + "/" + name) == dir
  {
    var x := dir + "/";
    assert dir + "/" + name == x + name;
    RFindAppend(x, name, '/');
    assert RFind(x, '/') == |dir|;
    var head := (x + name)[..|dir| + 1];
    assert head == x;
    assert head[0] == '/' && !OnlyChar(head, '/') by {
      assert head[|dir| - 1] == dir[|dir| - 1];
    }
    assert RStripChar(x, '/') == RStripChar(dir, '/');
  }

  /** Sibling directories named `Disc 1`, `Disc 2`, ... in order. */
  predicate NumberedDiscs(listing: seq<string>) {
    forall i :: 0 <= i < |listing| ==> listing[i] == "Disc " + NatToString(i + 1)
  }

  /** All of them are disc directories, so their count is their number. */
  lemma NumberedDiscsCounted(listing: seq<string>)
    requires NumberedDiscs(listing)
    ensures CountDiscDirs(listing) == |listing|
  {
    forall i | 0 <= i < |listing| ensures IsDiscDir(listing[i]) {
      DiscName(NatToString(i + 1));
    }
    CountAllDiscDirs(listing);
  }

  /** A file directly in `<collection>/<name>` has `name` as its directory's name. */
  lemma DirectoryNameOf(collection: string, name: string, file: string)
    requires '/' !in file && '/' !in name && name != []
    requires collection != [] && collection[0] == '/' && collection[|collection| - 1] != '/'
    ensures Basename(Dirname(collection + "/" + name + "/" + file)) == name
  {
    var discDir := collection + "/" + name;
    DirnameOfChild(discDir, file);
    BasenameAfterSeparator(collection + "/", name);
  }

  /** A file in a `Disc <digits>` directory takes those digits, padded, as its disc number. */
  lemma InDiscDir(path: string, ds: string, listing: seq<string>)
    requires ds != [] && AllDigits(ds) && Basename(Dirname(path)) == "Disc " + ds
    ensures ExtractDiscInfo(path, listing) == (ZFill(IntToString(CountDiscDirs(listing)), 2), ZFill(ds, 2))
  {
    DiscName(ds);
    DiscInfoOfDiscDir(path, listing);
  }

  /** Ten numbered disc directories are counted `10`. */
  lemma TenDiscsCount(listing: seq<string>)
    requires |listing| == 10 && NumberedDiscs(listing)
    ensures ZFill(IntToString(CountDiscDirs(listing)), 2) == "10"
  {
    NumberedDiscsCounted(listing);
    assert NatToString(10) == "10";
  }

  /** A file in `Disc 3` has disc number `03`, whatever the count. */
  lemma DiscNumberThree(path: string, listing: seq<string>)
    requires Basename(Dirname(path)) == "Disc 3"
    ensures ExtractDiscInfo(path, listing) == (ZFill(IntToString(CountDiscDirs(listing)), 2), "03")
  {
    assert "Disc 3" == "Disc " + "3";
    InDiscDir(path, "3", listing);
    assert ZFill("3", 2) == "03";
  }

  /**
   * A track in `Disc 3` among the sibling directories
   * `Disc 1` to `Disc 10` gets disc number `03` and disc count `10`.
   */
  lemma DiscThreeOfTen(collection: string, file: string, listing: seq<string>)
    requires '/' !in file && collection != [] && collection[0] == '/' && collection[|collection| - 1] != '/'
    requires |listing| == 10 && NumberedDiscs(listing)
    ensures ExtractDiscInfo(collection + "/Disc 3/" + file, listing) == ("10", "03")
  {
    var path := collection + "/Disc 3/" + file;
    assert path == collection + "/" + "Disc 3" + "/" + file;
    DirectoryNameOf(collection, "Disc 3", file);
    DiscNumberThree(path, listing);
    TenDiscsCount(listing);
  }
}
