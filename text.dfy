/** String helpers the system borrows from Python: `str.strip()`, the suffix
    of a file path, and reading a non-negative decimal number. */
module Text {
  import opened Wrappers

  /** Python's `str.isspace()` for one character. */
  predicate IsSpace(c: char) {
    || ('\t' <= c <= '\r')
    || ('\U{1C}' <= c <= ' ')
    || c == '\U{85}' || c == '\U{A0}' || c == '\U{1680}'
    || ('\U{2000}' <= c <= '\U{200A}')
    || c == '\U{2028}' || c == '\U{2029}' || c == '\U{202F}' || c == '\U{205F}'
    || c == '\U{3000}'
  }

  predicate AllSpace(s: string) {
    forall k :: 0 <= k < |s| ==> IsSpace(s[k])
  }

  /** No whitespace at either end: what `strip()` leaves behind. */
  predicate Trimmed(s: string) {
    s == [] || (!IsSpace(s[0]) && !IsSpace(s[|s| - 1]))
  }

  /** Python's `s.strip()`: drops whitespace from both ends. */
  function Strip(s: string): (r: string)
    ensures Trimmed(r)
    decreases |s|
  {
    if s != [] && IsSpace(s[0]) then Strip(s[1..])
    else if s != [] && IsSpace(s[|s| - 1]) then Strip(s[..|s| - 1])
    else s
  }

  /** Whatever surrounds a trimmed core with whitespace, `strip()` recovers the core. */
  lemma {:induction false} StripUnique(a: string, m: string, b: string)
    requires AllSpace(a) && AllSpace(b) && Trimmed(m)
    ensures Strip(a + m + b) == m
    decreases |a| + |b|
  {
    var s := a + m + b;
    if a != [] {
      assert s[0] == a[0];
      assert s[1..] == a[1..] + m + b;
      StripUnique(a[1..], m, b);
    } else if b != [] {
      assert s == m + b;
      if m == [] {
        assert s[0] == b[0];
        assert s[1..] == [] + [] + b[1..];
        StripUnique([], [], b[1..]);
      } else {
        assert s[0] == m[0];
        assert s[|s| - 1] == b[|b| - 1];
        assert s[..|s| - 1] == [] + m + b[..|b| - 1];
        StripUnique([], m, b[..|b| - 1]);
      }
    } else {
      assert s == m;
    }
  }

  /** `s` is `i` whitespace characters, then `r`, then whitespace. */
  predicate SplitsAt(s: string, i: nat, r: string) {
    && i + |r| <= |s|
    && (forall j :: 0 <= j < |r| ==> r[j] == s[i + j])
    && (forall j :: 0 <= j < |s| && !(i <= j < i + |r|) ==> IsSpace(s[j]))
  }

  /** `strip()` removes whitespace only, and only at the ends: the input is
      `i` whitespace characters, then the result, then whitespace. */
  lemma {:induction false} StripSplits(s: string) returns (i: nat)
    ensures SplitsAt(s, i, Strip(s))
    decreases |s|
  {
    if s != [] && IsSpace(s[0]) {
      var k := StripSplits(s[1..]);
      SplitsAtCons(s, k, Strip(s));
      i := k + 1;
    } else if s != [] && IsSpace(s[|s| - 1]) {
      i := StripSplits(s[..|s| - 1]);
      SplitsAtSnoc(s, i, Strip(s));
    } else {
      i := 0;
    }
  }

  lemma SplitsAtCons(s: string, k: nat, r: string)
    requires s != [] && IsSpace(s[0]) && SplitsAt(s[1..], k, r)
    ensures SplitsAt(s, k + 1, r)
  {
    var t := s[1..];
    forall j | 0 <= j < |r| ensures r[j] == s[k + 1 + j] {
      assert s[k + 1 + j] == t[k + j];
    }
    forall j | 0 <= j < |s| && !(k + 1 <= j < k + 1 + |r|) ensures IsSpace(s[j]) {
      if j > 0 { assert s[j] == t[j - 1]; }
    }
  }

  lemma SplitsAtSnoc(s: string, i: nat, r: string)
    requires s != [] && IsSpace(s[|s| - 1]) && SplitsAt(s[..|s| - 1], i, r)
    ensures SplitsAt(s, i, r)
  {
    var t := s[..|s| - 1];
    forall j | 0 <= j < |s| && !(i <= j < i + |r|) ensures IsSpace(s[j]) {
      if j < |t| { assert s[j] == t[j]; }
    }
  }

  /** Stripping twice is stripping once: the item that `process_dataframe`
      strips is stripped again inside `find_item_index` without effect. */
  lemma StripIdempotent(s: string)
    ensures Strip(Strip(s)) == Strip(s)
  {
    var r := Strip(s);
    StripUnique([], r, []);
    assert [] + r + [] == r;
  }

  // ---------------------------------------------------------------------------
  // File suffixes, as Python's `pathlib.PurePath.suffix` computes them.

  predicate IsSeparator(c: char) { c == '/' || c == '\\' }

  /** The final component of a path: trailing separators are ignored, then
      everything after the last separator. */
  function FileName(path: string): (name: string)
    ensures forall k :: 0 <= k < |name| ==> !IsSeparator(name[k])
    ensures |name| <= |path|
    ensures path != [] && !IsSeparator(path[|path| - 1]) ==>
              && name != [] && EndsWith(path, name)
              && (|name| < |path| ==> IsSeparator(path[|path| - |name| - 1]))
    decreases |path|
  {
    if path == [] then []
    else if IsSeparator(path[|path| - 1]) then FileName(path[..|path| - 1])
    else LastComponent(path)
  }

  function LastComponent(path: string): (name: string)
    ensures |name| <= |path| && name == path[|path| - |name|..]
    ensures forall k :: 0 <= k < |name| ==> !IsSeparator(name[k])
    ensures |name| < |path| ==> IsSeparator(path[|path| - |name| - 1])
  {
    if path == [] || IsSeparator(path[|path| - 1]) then []
    else LastComponent(path[..|path| - 1]) + [path[|path| - 1]]
  }

  /** Position of the last occurrence of `c` in `s`. */
  function LastIndexOf(s: string, c: char): (r: Option<nat>)
    ensures r.None? ==> c !in s
    ensures r.Some? ==> r.value < |s| && s[r.value] == c && c !in s[r.value + 1..]
  {
    if s == [] then None
    else if s[|s| - 1] == c then Some(|s| - 1)
    else LastIndexOf(s[..|s| - 1], c)
  }

  /** The suffix of a file name: from its last dot on, provided that dot is
      neither the first nor the last character; otherwise empty. */
  function Suffix(name: string): (r: string)
    ensures r != [] ==> && |r| >= 2 && |r| < |name| && EndsWith(name, r)
                        && r[0] == '.' && '.' !in r[1..]
    ensures r == [] ==> forall i :: 0 < i < |name| - 1 ==> name[i] != '.' || '.' in name[i + 1..]
  {
    match LastIndexOf(name, '.')
    case Some(i) => if 0 < i < |name| - 1 then name[i..] else ""
    case None => ""
  }

  predicate EndsWith(s: string, tail: string) {
    |tail| <= |s| && s[|s| - |tail|..] == tail
  }

  /** For an extension made of one dot and a dot-free tail, a name has that
      suffix exactly when it ends with the extension and has something before it. */
  lemma SuffixIs(name: string, ext: string)
    requires |ext| >= 2 && ext[0] == '.' && '.' !in ext[1..]
    ensures Suffix(name) == ext <==> (EndsWith(name, ext) && |name| > |ext|)
  {
    if EndsWith(name, ext) && |name| > |ext| {
      var i := |name| - |ext|;
      assert name[i] == '.';
      assert name[i + 1..] == ext[1..];
      LastIndexOfAt(name, '.', i);
    }
    if Suffix(name) == ext {
      var i := LastIndexOf(name, '.').value;
      assert name[i..] == ext;
    }
  }

  lemma {:induction false} LastIndexOfAt(s: string, c: char, i: nat)
    requires i < |s| && s[i] == c && c !in s[i + 1..]
    ensures LastIndexOf(s, c) == Some(i)
    decreases |s|
  {
    if i != |s| - 1 {
      assert s[|s| - 1] in s[i + 1..];
      assert s[..|s| - 1][i + 1..] == s[i + 1..|s| - 1];
      LastIndexOfAt(s[..|s| - 1], c, i);
    }
  }

  // ---------------------------------------------------------------------------
  // Non-negative decimal numbers.

  predicate IsDigit(c: char) { '0' <= c <= '9' }

  predicate AllDigits(s: string) {
    forall k :: 0 <= k < |s| ==> IsDigit(s[k])
  }

  function DigitValue(c: char): nat
    requires IsDigit(c)
  {
    (c as int - '0' as int) as nat
  }

  /** The shortest decimal spelling of `n`. */
  function NatToString(n: nat): (s: string)
    ensures s != [] && AllDigits(s)
  {
    var d := ['0' + ((n % 10) as char)];
    if n < 10 then d else NatToString(n / 10) + d
  }

  /** A number as read from text: a non-empty run of decimal digits, read
      most significant digit first; anything else is not a number. */
  function ParseNat(s: string): (r: Option<nat>)
    ensures r.Some? <==> s != [] && AllDigits(s)
    decreases |s|
  {
    if s == [] || !IsDigit(s[|s| - 1]) then None
    else if |s| == 1 then Some(DigitValue(s[0]))
    else
      assert forall k :: 0 <= k < |s| - 1 ==> s[k] == s[..|s| - 1][k];
      match ParseNat(s[..|s| - 1])
      case None => None
      case Some(v) => Some(v * 10 + DigitValue(s[|s| - 1]))
  }

  /** Reading back the decimal spelling of `n` gives `n`. */
  lemma {:induction false} ParseNatOfNatToString(n: nat)
    ensures ParseNat(NatToString(n)) == Some(n)
  {
    var s := NatToString(n);
    if n >= 10 {
      ParseNatOfNatToString(n / 10);
      assert s[..|s| - 1] == NatToString(n / 10);
    }
  }
}
