/**
 * The pieces of JavaScript string semantics the parsers and filters rely on:
 * the characters `\s` and `String.prototype.trim` treat as white space, the
 * characters `.` cannot match, ASCII digits, and the case folding a
 * case-insensitive (non-unicode) regular expression applies to the letters
 * that occur in the patterns of this program.
 */
module JsText {
  import opened Wrappers

  /** A string is truthy in JavaScript when it is present and not empty. */
  predicate Truthy(s: Option<string>) {
    s.Some? && s.value != ""
  }

  /** LineTerminator: the only characters `.` does not match. */
  predicate IsLineTerminator(c: char) {
    c == '\n' || c == '\r' || c == '\U{2028}' || c == '\U{2029}'
  }

  /** WhiteSpace or LineTerminator: what `\s` matches and `trim()` removes. */
  predicate IsWs(c: char) {
    || IsLineTerminator(c)
    || c == '\t' || c == '\U{000B}' || c == '\U{000C}' || c == ' '
    || c == '\U{00A0}' || c == '\U{1680}'
    || ('\U{2000}' <= c <= '\U{200A}')
    || c == '\U{202F}' || c == '\U{205F}' || c == '\U{3000}' || c == '\U{FEFF}'
  }

  /** `\d`: ASCII digits only. */
  predicate IsAsciiDigit(c: char) {
    '0' <= c <= '9'
  }

  predicate AllWs(s: string, i: nat, j: nat)
    requires i <= j <= |s|
  {
    forall k :: i <= k < j ==> IsWs(s[k])
  }

  predicate NoLineTerminator(s: string, i: nat, j: nat)
    requires i <= j <= |s|
  {
    forall k :: i <= k < j ==> !IsLineTerminator(s[k])
  }

  predicate AllDigits(s: string, i: nat, j: nat)
    requires i <= j <= |s|
  {
    forall k :: i <= k < j ==> IsAsciiDigit(s[k])
  }

  /** Length of the longest run of white space starting at `s[i]`. */
  function WsRun(s: string, i: nat): (n: nat)
    requires i <= |s|
    ensures i + n <= |s|
    ensures AllWs(s, i, i + n)
    ensures i + n == |s| || !IsWs(s[i + n])
    decreases |s| - i
  {
    if i < |s| && IsWs(s[i]) then 1 + WsRun(s, i + 1) else 0
  }

  /** A run that is all white space can extend no further than `WsRun`. */
  lemma WsRunIsLongest(s: string, i: nat, j: nat)
    requires i <= j <= |s| && AllWs(s, i, j)
    ensures j <= i + WsRun(s, i)
  {
  }

  predicate AllWsSeq(w: string) {
    forall k :: 0 <= k < |w| ==> IsWs(w[k])
  }

  /** `trimStart()`: drops the leading white space. */
  function TrimStart(s: string): (r: string)
    ensures |r| <= |s|
    ensures r == [] || !IsWs(r[0])
  {
    if s != [] && IsWs(s[0]) then TrimStart(s[1..]) else s
  }

  /** `trimEnd()`: drops the trailing white space. */
  function TrimEnd(s: string): (r: string)
    ensures |r| <= |s|
    ensures r == [] || !IsWs(r[|r| - 1])
  {
    if s != [] && IsWs(s[|s| - 1]) then TrimEnd(s[..|s| - 1]) else s
  }

  /** `trim()`: the longest infix of `s` that neither starts nor ends with white space. */
  function Trim(s: string): string {
    TrimEnd(TrimStart(s))
  }

  lemma {:induction false} TrimStartOfWsPrefix(w: string, s: string)
    requires AllWsSeq(w)
    ensures TrimStart(w + s) == TrimStart(s)
  {
    if w != [] {
      assert (w + s)[1..] == w[1..] + s;
      TrimStartOfWsPrefix(w[1..], s);
    } else {
      assert w + s == s;
    }
  }

  lemma {:induction false} TrimEndOfWsSuffix(s: string, w: string)
    requires AllWsSeq(w)
    ensures TrimEnd(s + w) == TrimEnd(s)
  {
    if w != [] {
      var w' := w[..|w| - 1];
      assert (s + w)[..|s + w| - 1] == s + w';
      TrimEndOfWsSuffix(s, w');
    } else {
      assert s + w == s;
    }
  }

  lemma {:induction false} TrimStartOfConcat(x: string, y: string)
    ensures TrimStart(x + y) == if TrimStart(x) == [] then TrimStart(y) else TrimStart(x) + y
  {
    if x == [] {
      assert x + y == y;
    } else if IsWs(x[0]) {
      assert (x + y)[1..] == x[1..] + y;
      TrimStartOfConcat(x[1..], y);
    }
  }

  /** Surrounding white space does not change what `trim()` returns. */
  lemma TrimOfPadded(w1: string, x: string, w2: string)
    requires AllWsSeq(w1) && AllWsSeq(w2)
    ensures Trim(w1 + x + w2) == Trim(x)
  {
    assert w1 + x + w2 == w1 + (x + w2);
    TrimStartOfWsPrefix(w1, x + w2);
    TrimStartOfConcat(x, w2);
    if TrimStart(x) == [] {
      TrimStartOfWsPrefix(w2, []);
      assert w2 + [] == w2;
      assert TrimStart(w2) == [];
      assert TrimEnd(TrimStart(x)) == [];
    } else {
      TrimEndOfWsSuffix(TrimStart(x), w2);
    }
  }

  /** `trimStart()` returns a suffix of its argument and drops only white space. */
  lemma {:induction false} TrimStartIsSuffix(s: string)
    ensures TrimStart(s) == s[|s| - |TrimStart(s)|..]
    ensures AllWs(s, 0, |s| - |TrimStart(s)|)
  {
    if s != [] && IsWs(s[0]) {
      TrimStartIsSuffix(s[1..]);
    }
  }

  /** `trimEnd()` returns a prefix of its argument and drops only white space. */
  lemma {:induction false} TrimEndIsPrefix(s: string)
    ensures TrimEnd(s) == s[..|TrimEnd(s)|]
    ensures AllWs(s, |TrimEnd(s)|, |s|)
  {
    if s != [] && IsWs(s[|s| - 1]) {
      TrimEndIsPrefix(s[..|s| - 1]);
    }
  }

  /** A string with no white space at either end trims to itself. */
  lemma TrimOfUnpadded(s: string)
    requires s != [] && !IsWs(s[0]) && !IsWs(s[|s| - 1])
    ensures Trim(s) == s
  {
  }

  /** Trimming twice is trimming once. */
  lemma TrimIdempotent(s: string)
    ensures Trim(Trim(s)) == Trim(s)
  {
    var u := TrimStart(s);
    var t := TrimEnd(u);
    TrimEndIsPrefix(u);
    assert t == [] || t[0] == u[0];
    assert TrimStart(t) == t;
  }

  /** A slice of `s` padded on both sides by white space trims like the padded slice. */
  lemma TrimOfWsPaddedSlice(s: string, a: nat, b: nat, c: nat, d: nat)
    requires a <= b <= c <= d <= |s|
    requires AllWs(s, a, b) && AllWs(s, c, d)
    ensures Trim(s[a..d]) == Trim(s[b..c])
  {
    assert s[a..d] == s[a..b] + s[b..c] + s[c..d];
    TrimOfPadded(s[a..b], s[b..c], s[c..d]);
  }

  /** White space in front of a suffix does not change what `trim()` returns. */
  lemma TrimOfWsPrefixedSuffix(s: string, a: nat, b: nat)
    requires a <= b <= |s| && AllWs(s, a, b)
    ensures Trim(s[a..]) == Trim(s[b..])
  {
    assert s[a..] == s[a..b] + s[b..];
    TrimStartOfWsPrefix(s[a..b], s[b..]);
  }

  /**
   * Case folding of a case-insensitive regular expression without the `u`
   * flag, restricted to the letters that occur in this program's patterns:
   * the ASCII letters and the Polish letters ą ć ę ł ń ó ś ź ż. Every other
   * character folds to itself.
   */
  function Fold(c: char): char {
    if 'a' <= c <= 'z' then (c as int - 32) as char
    else if c == 'ą' then 'Ą'
    else if c == 'ć' then 'Ć'
    else if c == 'ę' then 'Ę'
    else if c == 'ł' then 'Ł'
    else if c == 'ń' then 'Ń'
    else if c == 'ó' then 'Ó'
    else if c == 'ś' then 'Ś'
    else if c == 'ź' then 'Ź'
    else if c == 'ż' then 'Ż'
    else c
  }

  predicate SameCI(a: char, b: char) {
    Fold(a) == Fold(b)
  }

  /** `lit` occurs case-insensitively in `t` at position `k`. */
  predicate MatchesAtCI(t: string, k: nat, lit: string) {
    k + |lit| <= |t| && forall i :: 0 <= i < |lit| ==> SameCI(t[k + i], lit[i])
  }

  predicate EqualsCI(t: string, lit: string) {
    |t| == |lit| && MatchesAtCI(t, 0, lit)
  }

  predicate StartsWithCI(t: string, lit: string) {
    MatchesAtCI(t, 0, lit)
  }

  predicate ContainsCI(t: string, lit: string) {
    exists k: nat :: k <= |t| && MatchesAtCI(t, k, lit)
  }

  /** The value of a string of decimal digits. */
  function DigitsValue(s: string): (n: nat)
    requires forall k :: 0 <= k < |s| ==> IsAsciiDigit(s[k])
  {
    if s == [] then 0
    else
      assert IsAsciiDigit(s[|s| - 1]);
      10 * DigitsValue(s[..|s| - 1]) + (s[|s| - 1] as int - '0' as int)
  }
}
