/**
 * The censor dictionary (itunesify.py `replace_censored_text`): a file of
 * `censored:uncensored` lines is read into an insertion-ordered dictionary
 * and its pairs are applied to a text with `str.replace`, in that order.
 * The file's lines are a parameter here; reading the file is not modelled.
 */
module Censor {
  import opened Wrappers
  import opened PyStr

  /** An insertion-ordered dictionary from censored to uncensored words. */
  type CensorMap = seq<(string, string)>

  predicate DistinctKeys(m: CensorMap) {
    forall i, j :: 0 <= i < j < |m| ==> m[i].0 != m[j].0
  }

  function Keys(m: CensorMap): (ks: seq<string>)
    ensures |ks| == |m| && forall i :: 0 <= i < |m| ==> ks[i] == m[i].0
  {
    if m == [] then [] else [m[0].0] + Keys(m[1..])
  }

  /** `d.get(k)`. */
  function Lookup(m: CensorMap, k: string): (r: Option<string>)
    ensures r.None? <==> k !in Keys(m)
    ensures r.Some? ==> exists i :: 0 <= i < |m| && m[i] == (k, r.value)
  {
    if m == [] then None
    else if m[0].0 == k then Some(m[0].1)
    else (assert Keys(m) == [m[0].0] + Keys(m[1..]);
          var r := Lookup(m[1..], k);
          assert r.Some? ==> exists i :: 0 <= i < |m[1..]| && m[1..][i] == (k, r.value);
          r)
  }

  /** `d[k] = v`: an existing key keeps its position and takes the new value; a new key goes last. */
  function Put(m: CensorMap, k: string, v: string): CensorMap
    decreases |m|
  {
    if m == [] then [(k, v)]
    else if m[0].0 == k then [(k, v)] + m[1..]
    else [m[0]] + Put(m[1..], k, v)
  }

  lemma {:induction false} PutKeys(m: CensorMap, k: string, v: string)
    ensures Keys(Put(m, k, v)) == if k in Keys(m) then Keys(m) else Keys(m) + [k]
    decreases |m|
  {
    if m != [] {
      assert Keys(m) == [m[0].0] + Keys(m[1..]);
      if m[0].0 != k {
        PutKeys(m[1..], k, v);
        assert Keys(Put(m, k, v)) == [m[0].0] + Keys(Put(m[1..], k, v));
      } else {
        assert Keys(Put(m, k, v)) == [k] + Keys(m[1..]);
      }
    }
  }

  lemma {:induction false} PutLookup(m: CensorMap, k: string, v: string, q: string)
    requires DistinctKeys(m)
    ensures Lookup(Put(m, k, v), q) == if q == k then Some(v) else Lookup(m, q)
    decreases |m|
  {
    if m != [] && m[0].0 != k {
      PutLookup(m[1..], k, v, q);
    }
    if m != [] && m[0].0 == k && q != k {
      assert Put(m, k, v)[1..] == m[1..];
    }
  }

  lemma PutDistinct(m: CensorMap, k: string, v: string)
    requires DistinctKeys(m)
    ensures DistinctKeys(Put(m, k, v))
  {
    var r := Put(m, k, v);
    PutKeys(m, k, v);
    assert forall i :: 0 <= i < |r| ==> r[i].0 == Keys(r)[i];
    forall i, j | 0 <= i < j < |r| ensures r[i].0 != r[j].0 {
      assert Keys(r)[i] == r[i].0 && Keys(r)[j] == r[j].0;
      if k !in Keys(m) && j == |m| {
        assert Keys(m)[i] == r[i].0;
      } else {
        assert Keys(m)[i] == r[i].0 && Keys(m)[j] == r[j].0;
      }
    }
  }

  /** One line of the file: `line.strip().split(":")` must give exactly two parts, otherwise `ValueError`. */
  function ParseLine(line: string): Option<(string, string)> {
    var parts := Split(Strip(line), ':');
    if |parts| == 2 then Some((parts[0], parts[1])) else None
  }

  /** Each line of the file, parsed on its own. */
  function ParsedLines(lines: seq<string>): (ps: seq<Option<(string, string)>>)
    ensures |ps| == |lines| && forall i :: 0 <= i < |lines| ==> ps[i] == ParseLine(lines[i])
  {
    seq(|lines|, i requires 0 <= i < |lines| => ParseLine(lines[i]))
  }

  /** The dictionary the parsed lines build, in file order, or `None` once a line has failed. */
  function Collect(ps: seq<Option<(string, string)>>): Option<CensorMap>
    decreases |ps|
  {
    if ps == [] then Some([])
    else
      match Collect(ps[..|ps| - 1])
      case None => None
      case Some(m) =>
        match ps[|ps| - 1]
        case None => None
        case Some(p) => Some(Put(m, p.0, p.1))
  }

  /** The dictionary read from the file's lines. */
  function ParseCensorMap(lines: seq<string>): Option<CensorMap> {
    Collect(ParsedLines(lines))
  }

  /** The pairs applied in dictionary order, each with `str.replace`. */
  function Apply(m: CensorMap, text: string): string
    decreases |m|
  {
    if m == [] then text
    else Replace(Apply(m[..|m| - 1], text), m[|m| - 1].0, m[|m| - 1].1)
  }

  /** What `replace_censored_text(text)` returns, `None` standing for the `ValueError`. */
  function CensorText(lines: seq<string>, text: string): Option<string> {
    match ParseCensorMap(lines)
    case None => None
    case Some(m) => Some(Apply(m, text))
  }

  /** `replace_censored_text`: build the dictionary, then apply it. */
  method ReplaceCensoredText(lines: seq<string>, text: string) returns (r: Option<string>)
    ensures r == CensorText(lines, text)
  {
    var words := ReadCensorMap(lines);
    if words.None? {
      return None;
    }
    var t := ApplyCensorMap(words.value, text);
    r := Some(t);
  }

  /** The source's first loop: one dictionary assignment per line, stopping at the first line that fails. */
  method ReadCensorMap(lines: seq<string>) returns (r: Option<CensorMap>)
    ensures r == ParseCensorMap(lines)
  {
    ghost var ps := ParsedLines(lines);
    var words: CensorMap := [];
    var i := 0;
    while i < |lines|
      invariant 0 <= i <= |lines|
      invariant Collect(ps[..i]) == Some(words)
    {
      assert ps[..i + 1][..i] == ps[..i];
      var pair := ParseLine(lines[i]);
      if pair.None? {
        CollectNoneExtends(ps, i + 1);
        return None;
      }
      words := Put(words, pair.value.0, pair.value.1);
      i := i + 1;
    }
    assert ps[..i] == ps;
    r := Some(words);
  }

  /** The source's second loop: `text.replace` once per dictionary entry, in order. */
  method ApplyCensorMap(words: CensorMap, text: string) returns (t: string)
    ensures t == Apply(words, text)
  {
    t := text;
    var j := 0;
    while j < |words|
      invariant 0 <= j <= |words|
      invariant t == Apply(words[..j], text)
    {
      assert words[..j + 1][..j] == words[..j];
      t := Replace(t, words[j].0, words[j].1);
      j := j + 1;
    }
    assert words[..j] == words;
  }

  lemma {:induction false} CollectNoneExtends(ps: seq<Option<(string, string)>>, n: nat)
    requires n <= |ps| && Collect(ps[..n]) == None
    ensures Collect(ps) == None
    decreases |ps| - n
  {
    if n < |ps| {
      assert ps[..n + 1][..n] == ps[..n];
      CollectNoneExtends(ps, n + 1);
    } else {
      assert ps[..n] == ps;
    }
  }

  // ------------------------------------------------------------------
  // Properties
  // ------------------------------------------------------------------

  /** A parsed line is its two parts around the one ':' of the stripped line. */
  lemma ParseLineInverse(line: string)
    requires ParseLine(line).Some?
    ensures var (k, v) := ParseLine(line).value;
      Strip(line) == k + ":" + v && ':' !in k && ':' !in v
  {
    var parts := Split(Strip(line), ':');
    SplitJoin(Strip(line), ':');
    assert JoinWith(parts[1..], ':') == parts[1];
  }

  /** A `censored:uncensored` line, with or without its newline, parses to the pair. */
  lemma ParseLineOfPair(k: string, v: string, newline: bool)
    requires ':' !in k && ':' !in v
    requires k == [] || !IsSpace(k[0])
    requires v == [] || !IsSpace(v[|v| - 1])
    ensures ParseLine(k + ":" + v + (if newline then "\n" else "")) == Some((k, v))
  {
    var s := k + ":" + v;
    assert s[0] == (if k == [] then ':' else k[0]);
    assert s[|s| - 1] == (if v == [] then ':' else v[|v| - 1]);
    StripNoSpace(s);
    if newline {
      StripNewline(s);
    } else {
      assert s + "" == s;
    }
    SplitTwo(k, v, ':');
  }

  /** The newline a file line ends with does not survive `strip()`. */
  lemma StripNewline(s: string)
    requires s != [] && !IsSpace(s[0])
    ensures Strip(s + "\n") == Strip(s)
  {
    var line := s + "\n";
    assert line[0] == s[0];
    assert LStrip(line) == line;
    assert line[..|line| - 1] == s;
    assert LStrip(s) == s;
  }

  /** The file is refused exactly when one of its lines does not split into two parts. */
  lemma {:induction false} CollectFailsIff(ps: seq<Option<(string, string)>>)
    ensures Collect(ps).None? <==> exists i :: 0 <= i < |ps| && ps[i].None?
    decreases |ps|
  {
    if ps != [] {
      var init := ps[..|ps| - 1];
      CollectFailsIff(init);
      if Collect(ps).None? {
        if Collect(init).None? {
          var i :| 0 <= i < |init| && init[i].None?;
          assert ps[i] == init[i];
        }
      } else {
        forall i | 0 <= i < |ps| ensures ps[i].Some? {
          if i < |init| {
            assert ps[i] == init[i];
          }
        }
      }
    }
  }

  /** Every word appears once in the dictionary. */
  lemma {:induction false} CollectDistinct(ps: seq<Option<(string, string)>>)
    requires Collect(ps).Some?
    ensures DistinctKeys(Collect(ps).value)
    decreases |ps|
  {
    if ps != [] {
      var init := ps[..|ps| - 1];
      CollectDistinct(init);
      var p := ps[|ps| - 1].value;
      PutDistinct(Collect(init).value, p.0, p.1);
    }
  }

  /** A word's replacement is the one given on the last line that names it. */
  lemma {:induction false} LastLineWins(ps: seq<Option<(string, string)>>, i: nat, k: string, v: string)
    requires Collect(ps).Some?
    requires i < |ps| && ps[i] == Some((k, v))
    requires forall j :: i < j < |ps| ==> ps[j].Some? && ps[j].value.0 != k
    ensures Lookup(Collect(ps).value, k) == Some(v)
    decreases |ps|
  {
    var init := ps[..|ps| - 1];
    var m := Collect(init).value;
    var p := ps[|ps| - 1].value;
    CollectDistinct(init);
    PutLookup(m, p.0, p.1, k);
    if i < |ps| - 1 {
      LastLineWins(init, i, k, v);
    }
  }

  /** A word no line names has no replacement. */
  lemma {:induction false} UnnamedWordAbsent(ps: seq<Option<(string, string)>>, k: string)
    requires Collect(ps).Some?
    requires forall j :: 0 <= j < |ps| ==> ps[j].Some? && ps[j].value.0 != k
    ensures Lookup(Collect(ps).value, k) == None
    decreases |ps|
  {
    if ps != [] {
      var init := ps[..|ps| - 1];
      var m := Collect(init).value;
      var p := ps[|ps| - 1].value;
      CollectDistinct(init);
      PutLookup(m, p.0, p.1, k);
      UnnamedWordAbsent(init, k);
    }
  }

  /** The words keep the order in which the file first names them. */
  lemma CollectKeys(ps: seq<Option<(string, string)>>)
    requires |ps| > 0 && Collect(ps).Some?
    ensures var m := Collect(ps[..|ps| - 1]).value; var k := ps[|ps| - 1].value.0;
      Keys(Collect(ps).value) == if k in Keys(m) then Keys(m) else Keys(m) + [k]
  {
    var p := ps[|ps| - 1].value;
    PutKeys(Collect(ps[..|ps| - 1]).value, p.0, p.1);
  }

  /** A text in which no (non-empty) censored word occurs comes back unchanged. */
  lemma {:induction false} ApplyAbsentWords(m: CensorMap, text: string)
    requires forall i :: 0 <= i < |m| ==> m[i].0 != [] && !Contains(text, m[i].0)
    ensures Apply(m, text) == text
    decreases |m|
  {
    if m != [] {
      ApplyAbsentWords(m[..|m| - 1], text);
      ReplaceAbsent(text, m[|m| - 1].0, m[|m| - 1].1);
    }
  }
}
