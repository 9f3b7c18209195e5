/** The handful of Python `str` operations the tools rely on, written out on
    `seq<char>`. Case mapping and digit tests cover ASCII only. */
module Text {

  import opened Wrappers

  /** Python's `str.isspace()` for one character. */
  predicate IsSpace(c: char) {
    || c in {' ', '\t', '\n', '\r', '\U{B}', '\U{C}', '\U{1C}', '\U{1D}', '\U{1E}', '\U{1F}'}
    || c in {'\U{85}', '\U{A0}', '\U{1680}', '\U{2028}', '\U{2029}', '\U{202F}', '\U{205F}', '\U{3000}'}
    || '\U{2000}' <= c <= '\U{200A}'
  }

  /** `not s.strip()`: the string is empty or holds only whitespace. */
  predicate AllSpace(s: string) {
    forall i :: 0 <= i < |s| ==> IsSpace(s[i])
  }

  predicate IsDigit(c: char) {
    '0' <= c <= '9'
  }

  function LowerChar(c: char): char {
    if 'A' <= c <= 'Z' then (c as int + 32) as char else c
  }

  function UpperChar(c: char): char {
    if 'a' <= c <= 'z' then (c as int - 32) as char else c
  }

  /** `s.lower()` */
  function Lower(s: string): (r: string)
    ensures |r| == |s|
    ensures forall i :: 0 <= i < |s| ==> r[i] == LowerChar(s[i])
  {
    seq(|s|, i requires 0 <= i < |s| => LowerChar(s[i]))
  }

  /** `s.capitalize()`: first character upper case, the rest lower case. */
  function Capitalize(s: string): (r: string)
    ensures |r| == |s|
    ensures |s| > 0 ==> r[0] == UpperChar(s[0]) && r[1..] == Lower(s[1..])
  {
    if s == "" then "" else [UpperChar(s[0])] + Lower(s[1..])
  }

  predicate StartsWith(s: string, prefix: string) {
    |prefix| <= |s| && s[..|prefix|] == prefix
  }

  predicate EndsWith(s: string, suffix: string) {
    |suffix| <= |s| && s[|s| - |suffix|..] == suffix
  }

  /** `s[:n]` */
  function Take(s: string, n: nat): (r: string)
    ensures |r| == if n <= |s| then n else |s|
    ensures StartsWith(s, r)
  {
    if n <= |s| then s[..n] else s
  }

  /** `s.split(sep)` generalised to a set of single-character separators:
      never empty, and the pieces carry no separator. */
  function Split(s: string, seps: set<char>): (r: seq<string>)
    ensures |r| >= 1
    ensures forall i :: 0 <= i < |r| ==> forall j :: 0 <= j < |r[i]| ==> r[i][j] !in seps
    ensures StartsWith(s, r[0]) && (|r[0]| < |s| ==> s[|r[0]|] in seps)
    decreases |s|
  {
    if |s| == 0 then [""]
    else
      var rest := Split(s[1..], seps);
      if s[0] in seps then [""] + rest else [[s[0]] + rest[0]] + rest[1..]
  }

  /** `sep.join(parts)` */
  function Join(parts: seq<string>, sep: string): string
    decreases |parts|
  {
    if |parts| == 0 then ""
    else if |parts| == 1 then parts[0]
    else parts[0] + sep + Join(parts[1..], sep)
  }

  /** Splitting on one character and joining with it gives the string back. */
  lemma {:induction false} SplitJoin(s: string, c: char)
    ensures Join(Split(s, {c}), [c]) == s
    decreases |s|
  {
    if |s| > 0 {
      var rest := Split(s[1..], {c});
      SplitJoin(s[1..], c);
      if s[0] == c {
        assert Split(s, {c}) == [""] + rest;
        assert Join([""] + rest, [c]) == "" + [c] + Join(rest, [c]);
        assert s == [s[0]] + s[1..];
      } else {
        assert Split(s, {c}) == [[s[0]] + rest[0]] + rest[1..];
        if |rest| == 1 {
          assert s == [s[0]] + rest[0];
        } else {
          assert Join(rest, [c]) == rest[0] + [c] + Join(rest[1..], [c]);
          assert s == [s[0]] + s[1..];
        }
      }
    }
  }

  /** `s.replace(pat, '')`: every non-overlapping occurrence, scanning left to right. */
  function RemoveAll(s: string, pat: string): (r: string)
    ensures |r| <= |s|
    decreases |s|
  {
    if |pat| == 0 || |s| < |pat| then s
    else if s[..|pat|] == pat then RemoveAll(s[|pat|..], pat)
    else [s[0]] + RemoveAll(s[1..], pat)
  }

  /** A string that cannot contain the pattern's first character is left alone. */
  lemma {:induction false} RemoveAllAbsent(s: string, pat: string)
    requires |pat| > 0
    requires forall i :: 0 <= i < |s| ==> s[i] != pat[0]
    ensures RemoveAll(s, pat) == s
    decreases |s|
  {
    if |s| >= |pat| {
      assert s[..|pat|][0] == s[0];
      RemoveAllAbsent(s[1..], pat);
      assert s == [s[0]] + s[1..];
    }
  }

  /** Removing a leading occurrence of the pattern, then nothing else. */
  lemma RemoveAllPrefix(pat: string, t: string)
    requires |pat| > 0
    requires forall i :: 0 <= i < |t| ==> t[i] != pat[0]
    ensures RemoveAll(pat + t, pat) == t
  {
    assert (pat + t)[..|pat|] == pat;
    assert (pat + t)[|pat|..] == t;
    RemoveAllAbsent(t, pat);
  }

  /** `s.replace(pat, rep, 1)`: only the first occurrence is replaced. */
  function ReplaceFirst(s: string, pat: string, rep: string): (r: string)
    ensures StartsWith(s, pat) ==> r == rep + s[|pat|..]
    decreases |s|
  {
    if |pat| == 0 then rep + s
    else if |s| < |pat| then s
    else if s[..|pat|] == pat then rep + s[|pat|..]
    else [s[0]] + ReplaceFirst(s[1..], pat, rep)
  }

  /** Index of the last occurrence of `c`. */
  function LastIndexOf(s: string, c: char): (r: Option<nat>)
    ensures r.None? <==> c !in s
    ensures r.Some? ==> r.value < |s| && s[r.value] == c && c !in s[r.value + 1..]
  {
    if |s| == 0 then None
    else if s[|s| - 1] == c then Some(|s| - 1)
    else
      var r := LastIndexOf(s[..|s| - 1], c);
      assert s[..|s| - 1] + [s[|s| - 1]] == s;
      r
  }

  /** `os.path.splitext(name)[1]` for a bare file name: the suffix from the last
      dot, unless every character before that dot is itself a dot. */
  function Extension(name: string): (r: string)
    ensures r == "" || (r[0] == '.' && EndsWith(name, r) && '.' !in r[1..] && |r| < |name|)
  {
    match LastIndexOf(name, '.')
    case None => ""
    case Some(k) =>
      if exists i :: 0 <= i < k && name[i] != '.' then name[k..] else ""
  }

  /** A name has the `.lby` extension exactly when it ends in `.lby` and has a
      non-dot character before that suffix. */
  lemma LbyExtension(name: string)
    ensures Extension(name) == ".lby" <==>
      EndsWith(name, ".lby") && exists i :: 0 <= i < |name| - 4 && name[i] != '.'
  {
    if EndsWith(name, ".lby") {
      var k := |name| - 4;
      assert name[k..] == ".lby";
      assert name[k] == '.';
      assert name[k + 1..] == "lby";
      assert LastIndexOf(name, '.') == Some(k);
    }
    if Extension(name) == ".lby" {
      assert EndsWith(name, ".lby");
    }
  }

  /** Splitting a separator-free word followed by a separator. */
  lemma {:induction false} SplitAfterWord(w: string, c: char, rest: string, seps: set<char>)
    requires c in seps
    requires forall i :: 0 <= i < |w| ==> w[i] !in seps
    ensures Split(w + [c] + rest, seps) == [w] + Split(rest, seps)
    decreases |w|
  {
    if |w| == 0 {
      assert w + [c] + rest == [c] + rest;
      assert ([c] + rest)[1..] == rest;
    } else {
      SplitAfterWord(w[1..], c, rest, seps);
      assert (w + [c] + rest)[1..] == w[1..] + [c] + rest;
      assert w == [w[0]] + w[1..];
    }
  }

  /** A separator-free word splits into itself. */
  lemma {:induction false} SplitWord(w: string, seps: set<char>)
    requires forall i :: 0 <= i < |w| ==> w[i] !in seps
    ensures Split(w, seps) == [w]
    decreases |w|
  {
    if |w| > 0 {
      SplitWord(w[1..], seps);
      assert w == [w[0]] + w[1..];
    }
  }

  /** Joining separator-free pieces and splitting again gives them back: the
      converse of `SplitJoin`. */
  lemma {:induction false} SplitOfJoin(parts: seq<string>, c: char, seps: set<char>)
    requires |parts| >= 1 && c in seps
    requires forall k :: 0 <= k < |parts| ==> forall i :: 0 <= i < |parts[k]| ==> parts[k][i] !in seps
    ensures Split(Join(parts, [c]), seps) == parts
    decreases |parts|
  {
    if |parts| == 1 {
      SplitWord(parts[0], seps);
    } else {
      SplitOfJoin(parts[1..], c, seps);
      SplitAfterWord(parts[0], c, Join(parts[1..], [c]), seps);
    }
  }

  // ---------------------------------------------------------------- integers

  /** `r` is `s[i..j]`, and everything outside `i..j` is whitespace. */
  predicate Trimmed(s: string, r: string, i: nat, j: nat) {
    i <= j <= |s| && r == s[i..j] && AllSpace(s[..i]) && AllSpace(s[j..])
  }

  /** Removing a leading white-space character keeps a trimmed result
      trimmed. */
  lemma TrimmedFront(s: string, t: string, r: string)
    requires |s| > 0 && IsSpace(s[0]) && t == s[1..]
    requires exists i: nat, j: nat :: Trimmed(t, r, i, j)
    ensures exists i: nat, j: nat :: Trimmed(s, r, i, j)
  {
    var i: nat, j: nat :| Trimmed(t, r, i, j);
    assert t[i..j] == s[i + 1..j + 1];
    assert s[..i + 1] == [s[0]] + t[..i];
    assert s[j + 1..] == t[j..];
    assert Trimmed(s, r, i + 1, j + 1);
  }

  /** Removing a trailing white-space character keeps a trimmed result
      trimmed. */
  lemma TrimmedBack(s: string, t: string, r: string)
    requires |s| > 0 && IsSpace(s[|s| - 1]) && t == s[..|s| - 1]
    requires exists i: nat, j: nat :: Trimmed(t, r, i, j)
    ensures exists i: nat, j: nat :: Trimmed(s, r, i, j)
  {
    var i: nat, j: nat :| Trimmed(t, r, i, j);
    assert t[i..j] == s[i..j];
    assert t[..i] == s[..i];
    assert s[j..] == t[j..] + [s[|s| - 1]];
    assert Trimmed(s, r, i, j);
  }

  /** `s.strip()`: leading and trailing whitespace removed, and nothing else. */
  function Strip(s: string): (r: string)
    ensures exists i: nat, j: nat :: Trimmed(s, r, i, j)
    ensures |r| > 0 ==> !IsSpace(r[0]) && !IsSpace(r[|r| - 1])
    ensures (forall i :: 0 <= i < |s| ==> !IsSpace(s[i])) ==> r == s
    decreases |s|
  {
    if |s| == 0 then
      assert Trimmed(s, s, 0, 0);
      s
    else if IsSpace(s[0]) then
      var r := Strip(s[1..]);
      TrimmedFront(s, s[1..], r);
      r
    else if IsSpace(s[|s| - 1]) then
      var r := Strip(s[..|s| - 1]);
      TrimmedBack(s, s[..|s| - 1], r);
      r
    else
      assert Trimmed(s, s, 0, |s|);
      s
  }

  /** The digits of a decimal literal in the form `int()` accepts: digits,
      with single underscores allowed between two digits. */
  predicate DecimalBody(b: string) {
    && |b| > 0
    && IsDigit(b[0])
    && (forall i :: 0 <= i < |b| ==> IsDigit(b[i]) || b[i] == '_')
    && (forall i :: 0 <= i < |b| && b[i] == '_' ==> i + 1 < |b| && IsDigit(b[i + 1]))
  }

  function DigitValue(c: char): nat
    requires IsDigit(c)
  {
    c as int - '0' as int
  }

  /** The value of a decimal body, underscores ignored. */
  function BodyValue(b: string): nat
    requires forall i :: 0 <= i < |b| ==> IsDigit(b[i]) || b[i] == '_'
    decreases |b|
  {
    if |b| == 0 then 0
    else if b[|b| - 1] == '_' then BodyValue(b[..|b| - 1])
    else BodyValue(b[..|b| - 1]) * 10 + DigitValue(b[|b| - 1])
  }

  /** A literal without its sign, if it has one. */
  function Unsigned(t: string): string {
    if |t| > 0 && (t[0] == '-' || t[0] == '+') then t[1..] else t
  }

  function Magnitude(n: int): nat {
    if n < 0 then -n else n
  }

  /** `int(s)` for base 10: surrounding whitespace, an optional sign, then a
      decimal body; `None` where Python raises `ValueError`. */
  function ParseInt(s: string): (r: Option<int>)
    ensures r.Some? ==> |Strip(s)| > 0
  {
    var t := Strip(s);
    if |t| == 0 then None
    else
      var neg := t[0] == '-';
      var body := if t[0] == '-' || t[0] == '+' then t[1..] else t;
      if DecimalBody(body) then
        var v: int := BodyValue(body);
        Some(if neg then -v else v)
      else None
  }

  /** `str(n)` for a natural number. */
  function ShowNat(n: nat): (r: string)
    ensures |r| > 0 && forall i :: 0 <= i < |r| ==> IsDigit(r[i])
    ensures r[0] == '0' ==> n == 0
    decreases n
  {
    if n < 10 then [('0' as int + n) as char]
    else ShowNat(n / 10) + [('0' as int + n % 10) as char]
  }

  /** `str(n)`. */
  function ShowInt(n: int): (r: string)
    ensures |r| > 0
  {
    if n < 0 then "-" + ShowNat(-n) else ShowNat(n)
  }

  lemma {:induction false} ShowNatValue(n: nat)
    ensures DecimalBody(ShowNat(n))
    ensures BodyValue(ShowNat(n)) == n
    decreases n
  {
    var r := ShowNat(n);
    if n >= 10 {
      ShowNatValue(n / 10);
      assert r[..|r| - 1] == ShowNat(n / 10);
    }
  }

  /** What `int()` accepts: after stripping, an optional sign and a decimal
      body. The value's magnitude is the body's, and only a `-` makes it
      negative. */
  lemma ParseIntAccepts(s: string)
    ensures ParseInt(s).Some? <==> |Strip(s)| > 0 && DecimalBody(Unsigned(Strip(s)))
    ensures ParseInt(s).Some? ==> Magnitude(ParseInt(s).value) == BodyValue(Unsigned(Strip(s)))
    ensures ParseInt(s).Some? && ParseInt(s).value < 0 ==> Strip(s)[0] == '-'
  {
  }

  /** `int(str(n)) == n`: printing an integer and parsing it back is the identity. */
  lemma ParseShow(n: int)
    ensures ParseInt(ShowInt(n)) == Some(n)
  {
    var s := ShowInt(n);
    var m: nat := if n < 0 then -n else n;
    ShowIntPlain(n);
    ShowNatValue(m);
    if n < 0 {
      assert s[1..] == ShowNat(m);
    }
  }

  /** A printed integer has no surrounding whitespace to strip. */
  lemma ShowIntPlain(n: int)
    ensures Strip(ShowInt(n)) == ShowInt(n)
  {
    var s := ShowInt(n);
    forall i | 0 <= i < |s|
      ensures !IsSpace(s[i])
    {
      if n < 0 && i > 0 {
        assert s[i] == ShowNat(-n)[i - 1];
      }
    }
  }
}
