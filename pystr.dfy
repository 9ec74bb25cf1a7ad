/**
 * The Python string and path operations the pipeline is built from, with
 * CPython's semantics on the inputs the pipeline gives them: `str.strip`,
 * `str.split`, `str.replace`, `str.zfill`, `str(int)`, `int(str)`, the
 * regular-expression search `\d+`, and the `posixpath` helpers `basename`,
 * `dirname`, `splitext` and `join`.
 */
module PyStr {
  import opened Wrappers

  // ------------------------------------------------------------------
  // Characters
  // ------------------------------------------------------------------

  /** The characters `str.isspace()` accepts; `str.strip()` and `\s` use this class. */
  predicate IsSpace(c: char) {
    c == ' ' || ('\t' <= c <= '\r') || ('\U{1c}' <= c <= '\U{1f}')
    || c == '\U{85}' || c == '\U{a0}' || c == '\U{1680}'
    || ('\U{2000}' <= c <= '\U{200a}') || c == '\U{2028}' || c == '\U{2029}'
    || c == '\U{202f}' || c == '\U{205f}' || c == '\U{3000}'
  }

  predicate IsDigit(c: char) { '0' <= c <= '9' }

  predicate AllDigits(s: string) { forall i :: 0 <= i < |s| ==> IsDigit(s[i]) }

  function DigitValue(c: char): (d: nat)
    requires IsDigit(c)
    ensures d < 10
  {
    (c as int) - ('0' as int)
  }

  function DigitChar(d: nat): (c: char)
    requires d < 10
    ensures IsDigit(c) && DigitValue(c) == d
  {
    (('0' as int) + d) as char
  }

  /** ASCII case mapping, the part of `str.lower()` the pipeline's comparisons depend on. */
  function LowerChar(c: char): char {
    if 'A' <= c <= 'Z' then ((c as int) + 32) as char else c
  }

  function AsciiLower(s: string): (r: string)
    ensures |r| == |s| && forall i :: 0 <= i < |s| ==> r[i] == LowerChar(s[i])
  {
    seq(|s|, i requires 0 <= i < |s| => LowerChar(s[i]))
  }

  // ------------------------------------------------------------------
  // Prefixes, suffixes, substrings
  // ------------------------------------------------------------------

  predicate StartsWith(s: string, p: string) { |p| <= |s| && s[..|p|] == p }

  predicate EndsWith(s: string, p: string) { |p| <= |s| && s[|s| - |p|..] == p }

  /** The substring test `t in s`. */
  predicate Contains(s: string, t: string)
    decreases |s|
  {
    StartsWith(s, t) || (s != [] && Contains(s[1..], t))
  }

  lemma {:induction false} ContainsAt(s: string, t: string, i: nat)
    requires i + |t| <= |s| && s[i..i + |t|] == t
    ensures Contains(s, t)
    decreases i
  {
    if i == 0 {
      assert s[..|t|] == t;
    } else {
      assert s[1..][i - 1..i - 1 + |t|] == t;
      ContainsAt(s[1..], t, i - 1);
    }
  }

  lemma {:induction false} ContainsWitness(s: string, t: string) returns (i: nat)
    requires Contains(s, t)
    ensures i + |t| <= |s| && s[i..i + |t|] == t
    decreases |s|
  {
    if StartsWith(s, t) {
      i := 0;
    } else {
      var j := ContainsWitness(s[1..], t);
      assert s[1..][j..j + |t|] == s[j + 1..j + 1 + |t|];
      i := j + 1;
    }
  }

  /** Containment is transitive. */
  lemma ContainsWithin(s: string, u: string, t: string)
    requires Contains(s, u) && Contains(u, t)
    ensures Contains(s, t)
  {
    var i := ContainsWitness(s, u);
    var j := ContainsWitness(u, t);
    forall m | 0 <= m < |t| ensures s[i + j + m] == t[m] {
      assert s[i..i + |u|][j + m] == u[j + m];
      assert u[j..j + |t|][m] == t[m];
    }
    assert s[i + j..i + j + |t|] == t;
    ContainsAt(s, t, i + j);
  }

  /** Every character of a contained string occurs in the containing one. */
  lemma ContainsKeepsChar(s: string, t: string, k: nat)
    requires k < |t|
    ensures Contains(s, t) ==> t[k] in s
  {
    if Contains(s, t) {
      var i := ContainsWitness(s, t);
      assert s[i..i + |t|][k] == s[i + k];
    }
  }

  lemma EndsWithContains(s: string, t: string)
    requires EndsWith(s, t)
    ensures Contains(s, t)
  {
    ContainsAt(s, t, |s| - |t|);
  }

  lemma {:induction false} ContainsCharIff(s: string, c: char)
    ensures Contains(s, [c]) <==> c in s
    decreases |s|
  {
    if s != [] {
      ContainsCharIff(s[1..], c);
      assert s == [s[0]] + s[1..];
    }
  }

  // ------------------------------------------------------------------
  // Searching for a character
  // ------------------------------------------------------------------

  /** `s.find(c)` for a character that occurs. */
  function IndexOf(s: string, c: char): (i: nat)
    requires c in s
    ensures i < |s| && s[i] == c && c !in s[..i]
  {
    if s[0] == c then 0 else 1 + IndexOf(s[1..], c)
  }

  /** `s.rfind(c)`: the last index of `c`, or -1. */
  function RFind(s: string, c: char): (i: int)
    ensures -1 <= i < |s|
    ensures i == -1 <==> c !in s
    ensures i >= 0 ==> s[i] == c && c !in s[i + 1..]
  {
    if s == [] then -1
    else if s[|s| - 1] == c then |s| - 1
    else (assert s[..|s| - 1] + [s[|s| - 1]] == s; RFind(s[..|s| - 1], c))
  }

  // ------------------------------------------------------------------
  // strip
  // ------------------------------------------------------------------

  function LStrip(s: string): (r: string)
    ensures |r| <= |s|
    ensures r == [] || !IsSpace(r[0])
    ensures forall i :: 0 <= i < |s| - |r| ==> IsSpace(s[i])
  {
    if s != [] && IsSpace(s[0]) then LStrip(s[1..]) else s
  }

  /** What `LStrip` keeps is a suffix of its input. */
  lemma {:induction false} LStripSuffix(s: string)
    ensures LStrip(s) == s[|s| - |LStrip(s)|..]
    decreases |s|
  {
    if s != [] && IsSpace(s[0]) {
      LStripSuffix(s[1..]);
    }
  }

  function RStrip(s: string): (r: string)
    ensures |r| <= |s| && r == s[..|r|]
    ensures r == [] || !IsSpace(r[|r| - 1])
    ensures forall i :: |r| <= i < |s| ==> IsSpace(s[i])
  {
    if s != [] && IsSpace(s[|s| - 1]) then RStrip(s[..|s| - 1]) else s
  }

  /** `s.strip()`: leading and trailing whitespace removed. */
  function Strip(s: string): string {
    RStrip(LStrip(s))
  }

  lemma StripNoSpace(s: string)
    requires s == [] || (!IsSpace(s[0]) && !IsSpace(s[|s| - 1]))
    ensures Strip(s) == s
  {
  }

  // ------------------------------------------------------------------
  // split
  // ------------------------------------------------------------------

  /** `s.split(c)` for a one-character separator: the pieces between the separators. */
  function Split(s: string, c: char): (r: seq<string>)
    ensures |r| >= 1
    ensures forall i :: 0 <= i < |r| ==> c !in r[i]
    ensures c !in s ==> r == [s]
    decreases |s|
  {
    if c !in s then [s]
    else
      var i := IndexOf(s, c);
      [s[..i]] + Split(s[i + 1..], c)
  }

  /** The pieces joined back with the separator: inverse of `Split`. */
  function JoinWith(parts: seq<string>, c: char): string
    requires |parts| >= 1
    decreases |parts|
  {
    if |parts| == 1 then parts[0] else parts[0] + [c] + JoinWith(parts[1..], c)
  }

  lemma {:induction false} SplitJoin(s: string, c: char)
    ensures JoinWith(Split(s, c), c) == s
    decreases |s|
  {
    if c in s {
      var i := IndexOf(s, c);
      SplitJoin(s[i + 1..], c);
      assert s == s[..i] + [c] + s[i + 1..];
    }
  }

  lemma {:induction false} SplitTwo(a: string, b: string, c: char)
    requires c !in a && c !in b
    ensures Split(a + [c] + b, c) == [a, b]
  {
    var s := a + [c] + b;
    assert s[..|a|] == a && s[|a|] == c;
    var i := IndexOf(s, c);
    assert i == |a|;
    assert s[..i] == a;
    assert s[i + 1..] == b;
  }

  // ------------------------------------------------------------------
  // replace
  // ------------------------------------------------------------------

  /**
   * `s.replace(pat, rep)`: every non-overlapping occurrence of `pat`,
   * scanning left to right, is replaced; an empty `pat` puts `rep` before
   * every character and at the end.
   */
  function Replace(s: string, pat: string, rep: string): string
    decreases |s|
  {
    if pat == [] then InsertAround(s, rep)
    else if StartsWith(s, pat) then rep + Replace(s[|pat|..], pat, rep)
    else if s == [] then []
    else [s[0]] + Replace(s[1..], pat, rep)
  }

  function InsertAround(s: string, rep: string): (r: string)
    ensures StartsWith(r, rep)
  {
    if s == [] then rep else rep + [s[0]] + InsertAround(s[1..], rep)
  }

  /** Every position of `s` holding `a` holds `b` instead. */
  function SubstChar(s: string, a: char, b: char): (r: string)
    ensures |r| == |s|
    ensures forall i :: 0 <= i < |s| ==> r[i] == (if s[i] == a then b else s[i])
  {
    seq(|s|, i requires 0 <= i < |s| => if s[i] == a then b else s[i])
  }

  lemma {:induction false} ReplaceOneChar(s: string, a: char, b: char)
    ensures Replace(s, [a], [b]) == SubstChar(s, a, b)
    decreases |s|
  {
    if s != [] {
      ReplaceOneChar(s[1..], a, b);
      assert SubstChar(s, a, b) == [if s[0] == a then b else s[0]] + SubstChar(s[1..], a, b);
    }
  }

  lemma {:induction false} ReplaceAbsent(s: string, pat: string, rep: string)
    requires pat != [] && !Contains(s, pat)
    ensures Replace(s, pat, rep) == s
    decreases |s|
  {
    if s != [] {
      ReplaceAbsent(s[1..], pat, rep);
    }
  }

  lemma {:induction false} ReplaceKeepsChar(s: string, pat: string, rep: string, c: char)
    requires c in s && c in rep
    ensures c in Replace(s, pat, rep)
    decreases |s|
  {
    if pat == [] || StartsWith(s, pat) {
      assert Replace(s, pat, rep)[..|rep|] == rep;
    } else if s[0] != c {
      assert c in s[1..];
      ReplaceKeepsChar(s[1..], pat, rep, c);
    }
  }

  lemma ReplacePrefix(s: string, pat: string, rep: string)
    requires StartsWith(s, pat)
    ensures StartsWith(Replace(s, pat, rep), rep)
  {
  }

  // ------------------------------------------------------------------
  // Integers as text
  // ------------------------------------------------------------------

  /** The value of a run of decimal digits, leading zeros allowed. */
  function DigitsValue(ds: string): nat
    requires AllDigits(ds)
  {
    if ds == [] then 0 else DigitsValue(ds[..|ds| - 1]) * 10 + DigitValue(ds[|ds| - 1])
  }

  /** `str(n)` for `n >= 0`: decimal digits, no leading zero. */
  function NatToString(n: nat): (r: string)
    ensures |r| >= 1 && AllDigits(r)
    ensures |r| > 1 ==> r[0] != '0'
  {
    if n < 10 then [DigitChar(n)] else NatToString(n / 10) + [DigitChar(n % 10)]
  }

  /** `str(n)`. */
  function IntToString(n: int): string {
    if n < 0 then "-" + NatToString(-n) else NatToString(n)
  }

  function Zeros(k: nat): (r: string)
    ensures |r| == k && forall i :: 0 <= i < k ==> r[i] == '0'
  {
    seq(k, i => '0')
  }

  /** `s.zfill(width)`: zeros on the left up to `width`, after a leading sign. */
  function ZFill(s: string, width: nat): (r: string)
    ensures |r| == if |s| >= width then |s| else width
  {
    if |s| >= width then s
    else if s != [] && (s[0] == '+' || s[0] == '-') then [s[0]] + Zeros(width - |s|) + s[1..]
    else Zeros(width - |s|) + s
  }

  /**
   * `int(s)` for a string: surrounding whitespace, an optional sign and at
   * least one ASCII digit; anything else raises `ValueError` (`None` here).
   */
  function ParseInt(s: string): Option<int> {
    ParseStripped(Strip(s))
  }

  /** `int()` on text that has no surrounding whitespace. */
  function ParseStripped(t: string): Option<int> {
    if t != [] && (t[0] == '-' || t[0] == '+') then
      (if t[1..] != [] && AllDigits(t[1..])
       then Some(if t[0] == '-' then -(DigitsValue(t[1..]) as int) else DigitsValue(t[1..]) as int)
       else None)
    else if t != [] && AllDigits(t) then Some(DigitsValue(t) as int)
    else None
  }

  lemma {:induction false} NatToStringValue(n: nat)
    ensures DigitsValue(NatToString(n)) == n
  {
    if n >= 10 {
      var r := NatToString(n);
      NatToStringValue(n / 10);
      assert r[..|r| - 1] == NatToString(n / 10);
    }
  }

  lemma {:induction false} LeadingZeroValue(ds: string)
    requires AllDigits(ds)
    ensures AllDigits("0" + ds) && DigitsValue("0" + ds) == DigitsValue(ds)
    decreases |ds|
  {
    if ds != [] {
      var zs := "0" + ds;
      assert zs[..|zs| - 1] == "0" + ds[..|ds| - 1];
      LeadingZeroValue(ds[..|ds| - 1]);
    }
  }

  lemma {:induction false} ZerosValue(k: nat, ds: string)
    requires AllDigits(ds)
    ensures AllDigits(Zeros(k) + ds) && DigitsValue(Zeros(k) + ds) == DigitsValue(ds)
    decreases k
  {
    if k > 0 {
      ZerosValue(k - 1, ds);
      assert Zeros(k) == "0" + Zeros(k - 1);
      assert Zeros(k) + ds == "0" + (Zeros(k - 1) + ds);
      LeadingZeroValue(Zeros(k - 1) + ds);
    } else {
      assert Zeros(k) + ds == ds;
    }
  }

  /** `int(str(n).zfill(w)) == n`: the padded numbers written to tags and file names read back. */
  lemma ParseZFill(n: int, width: nat)
    ensures ParseInt(ZFill(IntToString(n), width)) == Some(n)
  {
    var m: nat := if n < 0 then -n else n;
    var ds := NatToString(m);
    NatToStringValue(m);
    if n < 0 {
      ParsePaddedNegative(IntToString(n), ds, width);
    } else {
      ParsePaddedPositive(IntToString(n), ds, width, m);
    }
  }

  lemma ParsePaddedNegative(s: string, ds: string, width: nat)
    requires ds != [] && AllDigits(ds) && s == "-" + ds
    ensures ParseInt(ZFill(s, width)) == Some(-(DigitsValue(ds) as int))
  {
    var body := PaddedNegative(s, ds, width);
    ParseNegativeValue(ZFill(s, width), body, DigitsValue(ds));
  }

  lemma ParseNegativeValue(z: string, body: string, v: int)
    requires body != [] && AllDigits(body) && DigitsValue(body) == v && z == "-" + body
    ensures ParseInt(z) == Some(-v)
  {
    ParseSigned(body);
  }

  lemma ParsePaddedPositive(s: string, ds: string, width: nat, m: nat)
    requires ds != [] && AllDigits(ds) && DigitsValue(ds) == m && s == ds
    ensures ParseInt(ZFill(s, width)) == Some(m as int)
  {
    var pad: nat := if |ds| >= width then 0 else width - |ds|;
    ZerosValue(pad, ds);
    PaddedPositive(ds, width);
    ParseUnsigned(Zeros(pad) + ds);
  }


  lemma PaddedPositive(ds: string, width: nat)
    requires ds != [] && AllDigits(ds)
    ensures ZFill(ds, width) == Zeros(if |ds| >= width then 0 else width - |ds|) + ds
  {
    if |ds| >= width {
      assert Zeros(0) + ds == ds;
    }
  }

  lemma ParseUnsigned(body: string)
    requires body != [] && AllDigits(body)
    ensures ParseInt(body) == Some(DigitsValue(body) as int)
  {
    assert IsDigit(body[0]) && IsDigit(body[|body| - 1]);
    StripNoSpace(body);
    assert ParseInt(body) == ParseStripped(body);
  }

  lemma ParseSigned(body: string)
    requires body != [] && AllDigits(body)
    ensures ParseInt("-" + body) == Some(-(DigitsValue(body) as int))
  {
    StripSigned(body);
    StrippedSigned(body);
  }

  lemma StripSigned(body: string)
    requires body != [] && AllDigits(body)
    ensures Strip("-" + body) == "-" + body
  {
    var z := "-" + body;
    assert z[|z| - 1] == body[|body| - 1];
    assert !IsSpace(z[0]) && !IsSpace(z[|z| - 1]);
    StripNoSpace(z);
  }

  lemma StrippedSigned(body: string)
    requires body != [] && AllDigits(body)
    ensures ParseStripped("-" + body) == Some(-(DigitsValue(body) as int))
  {
    var z := "-" + body;
    assert z[0] == '-' && z[1..] == body;
  }

  /** Padding a negative number puts the zeros between the sign and the digits, keeping the value. */
  lemma PaddedNegative(s: string, ds: string, width: nat) returns (body: string)
    requires ds != [] && AllDigits(ds) && s == "-" + ds
    ensures ZFill(s, width) == "-" + body
    ensures body != [] && AllDigits(body) && DigitsValue(body) == DigitsValue(ds)
  {
    var pad: nat := if |ds| + 1 >= width then 0 else width - |ds| - 1;
    body := Zeros(pad) + ds;
    ZerosValue(pad, ds);
    assert s[1..] == ds;
    if |ds| + 1 >= width {
      assert Zeros(0) + ds == ds;
    }
  }

  /** `re.search(r"\d+", s)`: the leftmost maximal run of digits, if any. */
  function FirstDigitRun(s: string): (r: Option<string>)
    ensures r.Some? ==> r.value != [] && AllDigits(r.value) && Contains(s, r.value)
    ensures r.None? <==> forall i :: 0 <= i < |s| ==> !IsDigit(s[i])
  {
    if s == [] then None
    else if IsDigit(s[0]) then (ContainsAt(s, TakeDigits(s), 0); Some(TakeDigits(s)))
    else
      FirstDigitRun(s[1..])
  }

  /** The digits at the front of `s`. */
  function TakeDigits(s: string): (r: string)
    ensures |r| <= |s| && r == s[..|r|] && AllDigits(r)
    ensures |r| < |s| ==> !IsDigit(s[|r|])
  {
    if s != [] && IsDigit(s[0]) then [s[0]] + TakeDigits(s[1..]) else []
  }

  /** Leading whitespace in front of a non-space is exactly what `lstrip` removes. */
  lemma {:induction false} LStripSpaces(space: string, s: string)
    requires forall i :: 0 <= i < |space| ==> IsSpace(space[i])
    requires s == [] || !IsSpace(s[0])
    ensures LStrip(space + s) == s
    decreases |space|
  {
    if space != [] {
      assert (space + s)[1..] == space[1..] + s;
      LStripSpaces(space[1..], s);
    } else {
      assert space + s == s;
    }
  }

  /** The leading digit run of digits followed by a non-digit is those digits. */
  lemma {:induction false} TakeDigitsPrefix(ds: string, tail: string)
    requires AllDigits(ds) && (tail == [] || !IsDigit(tail[0]))
    ensures TakeDigits(ds + tail) == ds
    decreases |ds|
  {
    if ds != [] {
      assert (ds + tail)[1..] == ds[1..] + tail;
      TakeDigitsPrefix(ds[1..], tail);
    } else {
      assert ds + tail == tail;
    }
  }


  // ------------------------------------------------------------------
  // posixpath
  // ------------------------------------------------------------------

  /** `os.path.basename(p)`: what follows the last '/'. */
  function Basename(p: string): (r: string)
    ensures '/' !in r
  {
    p[RFind(p, '/') + 1..]
  }

  predicate OnlyChar(s: string, c: char) { forall i :: 0 <= i < |s| ==> s[i] == c }

  /** `os.path.dirname(p)`: up to the last '/', with trailing slashes dropped unless it is all slashes. */
  function Dirname(p: string): string {
    var head := p[..RFind(p, '/') + 1];
    if head != [] && !OnlyChar(head, '/') then RStripChar(head, '/') else head
  }

  function RStripChar(s: string, c: char): (r: string)
    ensures |r| <= |s| && r == s[..|r|]
  {
    if s != [] && s[|s| - 1] == c then RStripChar(s[..|s| - 1], c) else s
  }

  /**
   * `os.path.splitext(p)`: the extension is the last '.' and what follows,
   * provided it comes after the last '/' and some character other than '.'
   * precedes it in the final component; otherwise the extension is empty.
   */
  function SplitExt(p: string): (r: (string, string))
    ensures r.0 + r.1 == p
    ensures r.1 == [] || (r.1[0] == '.' && '/' !in r.1)
  {
    var sep := RFind(p, '/');
    var dot := RFind(p, '.');
    if dot > sep && !OnlyChar(p[sep + 1..dot], '.') then
      ExtensionAfterSeparator(p, sep, dot);
      (p[..dot], p[dot..])
    else (p, [])
  }

  /** What follows the last '.', when it comes after the last '/', starts with the dot and holds no '/'. */
  lemma ExtensionAfterSeparator(p: string, sep: int, dot: int)
    requires -1 <= sep < dot < |p| && p[dot] == '.'
    requires if sep == -1 then '/' !in p else '/' !in p[sep + 1..]
    ensures p[..dot] + p[dot..] == p && p[dot..][0] == '.' && '/' !in p[dot..]
  {
    if sep == -1 {
      assert p[0..] == p;
    }
    NotInLaterSuffix(p, '/', sep + 1, dot);
  }

  lemma NotInLaterSuffix(p: string, c: char, a: nat, b: nat)
    requires a <= b <= |p| && c !in p[a..]
    ensures c !in p[b..]
  {
    forall i | b <= i < |p| ensures p[i] != c {
      assert p[a..][i - a] == p[i];
    }
    assert forall j :: 0 <= j < |p| - b ==> p[b..][j] == p[b + j];
  }

  /** `os.path.join(a, b)` for two components. */
  function Join(a: string, b: string): string {
    if b != [] && b[0] == '/' then b
    else if a == [] || a[|a| - 1] == '/' then a + b
    else a + "/" + b
  }

  /** Joining a component without a leading separator to a path without a trailing one inserts one separator. */
  lemma JoinPlain(a: string, b: string)
    requires a != [] && a[|a| - 1] != '/' && (b == [] || b[0] != '/')
    ensures Join(a, b) == a + "/" + b
  {
  }

  lemma JoinEndsWith(a: string, b: string)
    ensures EndsWith(Join(a, b), b)
  {
  }

  /** The last component of a joined path is the component joined, when it has no separator. */
  lemma BasenameOfJoin(a: string, b: string)
    requires '/' !in b
    ensures Basename(Join(a, b)) == b
  {
    assert b != [] ==> b[0] in b;
    if a == [] || EndsWith(a, "/") {
      BasenameAfterSeparator(a, b);
    } else {
      BasenameAfterSeparator(a + "/", b);
    }
  }

  lemma BasenameAfterSeparator(x: string, b: string)
    requires x == [] || x[|x| - 1] == '/'
    requires '/' !in b
    ensures Basename(x + b) == b
  {
    var p := x + b;
    RFindAppend(x, b, '/');
    if x != [] {
      RFindLast(x, '/');
    }
    assert RFind(p, '/') + 1 == |x|;
    assert p[|x|..] == b;
  }

  lemma RFindLast(x: string, c: char)
    requires x != [] && x[|x| - 1] == c
    ensures RFind(x, c) == |x| - 1
  {
  }

  lemma {:induction false} RFindAppend(x: string, b: string, c: char)
    requires c !in b
    ensures RFind(x + b, c) == RFind(x, c)
    decreases |b|
  {
    if b != [] {
      var b' := b[..|b| - 1];
      assert (x + b)[..|x + b| - 1] == x + b';
      assert (x + b)[|x + b| - 1] == b[|b| - 1];
      RFindAppend(x, b', c);
    } else {
      assert x + b == x;
    }
  }


  // ------------------------------------------------------------------
  // Ordering of strings
  // ------------------------------------------------------------------

  /** Python's `<=` on `str`: code points compared left to right, a prefix first. */
  predicate LessEq(a: string, b: string)
    decreases |a|
  {
    a == [] || (b != [] && (a[0] < b[0] || (a[0] == b[0] && LessEq(a[1..], b[1..]))))
  }

  lemma {:induction false} LessEqTotal(a: string, b: string)
    ensures LessEq(a, b) || LessEq(b, a)
    decreases |a|
  {
    if a != [] && b != [] && a[0] == b[0] {
      LessEqTotal(a[1..], b[1..]);
    }
  }

  lemma {:induction false} LessEqTransitive(a: string, b: string, c: string)
    requires LessEq(a, b) && LessEq(b, c)
    ensures LessEq(a, c)
    decreases |a|
  {
    if a != [] && b != [] && c != [] && a[0] == b[0] && b[0] == c[0] {
      LessEqTransitive(a[1..], b[1..], c[1..]);
    }
  }

  lemma {:induction false} LessEqAntisymmetric(a: string, b: string)
    requires LessEq(a, b) && LessEq(b, a)
    ensures a == b
    decreases |a|
  {
    if a != [] {
      LessEqAntisymmetric(a[1..], b[1..]);
      assert a == [a[0]] + a[1..] && b == [b[0]] + b[1..];
    }
  }
}
