/**
 * The Python string built-ins the sync script relies on: `str.isspace`,
 * `str.strip`, `str.lower`, `str.split()` with no separator, `str(n)` for a
 * non-negative integer, and the character class `\d` of its regular expression.
 */
module PyText {

  /** `c.isspace()`: the characters Python 3 treats as whitespace. */
  predicate IsSpace(c: char) {
    c == '\t' || c == '\n' || c == '\U{B}' || c == '\U{C}' || c == '\r'
    || ('\U{1C}' <= c <= '\U{1F}') || c == ' ' || c == '\U{85}' || c == '\U{A0}'
    || c == '\U{1680}' || ('\U{2000}' <= c <= '\U{200A}') || c == '\U{2028}'
    || c == '\U{2029}' || c == '\U{202F}' || c == '\U{205F}' || c == '\U{3000}'
  }

  /** A character that belongs to a word of `str.split()`. */
  predicate IsWordChar(c: char) {
    !IsSpace(c)
  }

  /** An ASCII decimal digit, the digits `str(n)` writes. */
  predicate IsDigit(c: char) {
    '0' <= c <= '9'
  }

  /** The length of the word `s` starts with: its longest prefix free of whitespace. */
  function WordSpan(s: string): (n: nat)
    ensures n <= |s|
    ensures forall i :: 0 <= i < n ==> IsWordChar(s[i])
    ensures n < |s| ==> IsSpace(s[n])
  {
    if s == [] || IsSpace(s[0]) then 0 else 1 + WordSpan(s[1..])
  }

  /** `s.lstrip()`. */
  function TrimLeft(s: string): string {
    if s != [] && IsSpace(s[0]) then TrimLeft(s[1..]) else s
  }

  /** `s.rstrip()`. */
  function TrimRight(s: string): string {
    if s != [] && IsSpace(s[|s| - 1]) then TrimRight(s[..|s| - 1]) else s
  }

  /** `s.strip()`. */
  function Strip(s: string): string {
    TrimRight(TrimLeft(s))
  }

  /** `lstrip` drops the leading whitespace and nothing else. */
  lemma {:induction false} TrimLeftSpec(s: string)
    ensures var r := TrimLeft(s);
      |r| <= |s| && r == s[|s| - |r|..]
      && (forall i :: 0 <= i < |s| - |r| ==> IsSpace(s[i]))
      && (r != [] ==> !IsSpace(r[0]))
  {
    if s != [] && IsSpace(s[0]) {
      TrimLeftSpec(s[1..]);
      var r := TrimLeft(s);
      forall i | 1 <= i < |s| - |r| ensures IsSpace(s[i]) {
        assert s[i] == s[1..][i - 1];
      }
    }
  }

  /** `rstrip` drops the trailing whitespace and nothing else. */
  lemma {:induction false} TrimRightSpec(s: string)
    ensures var r := TrimRight(s);
      |r| <= |s| && r == s[..|r|]
      && (forall i :: |r| <= i < |s| ==> IsSpace(s[i]))
      && (r != [] ==> !IsSpace(r[|r| - 1]))
  {
    if s != [] && IsSpace(s[|s| - 1]) {
      TrimRightSpec(s[..|s| - 1]);
      var r := TrimRight(s);
      forall i | |r| <= i < |s| - 1 ensures IsSpace(s[i]) {
        assert s[i] == s[..|s| - 1][i];
      }
    }
  }

  /** A string is left alone by `strip` exactly when it neither starts nor ends with whitespace. */
  lemma StripFixed(s: string)
    ensures Strip(s) == s <==> (s == [] || (!IsSpace(s[0]) && !IsSpace(s[|s| - 1])))
  {
    TrimLeftSpec(s);
    TrimRightSpec(TrimLeft(s));
    if s != [] && !IsSpace(s[0]) && !IsSpace(s[|s| - 1]) {
      assert TrimLeft(s) == s;
    }
  }

  /**
   * `c.lower()` as far as it can produce an ASCII character: ASCII capitals
   * and the Kelvin sign, which Python lower-cases to `k`. Every other
   * character is kept; Python maps the remaining capitals to non-ASCII text.
   */
  function LowerChar(c: char): char {
    if 'A' <= c <= 'Z' then (c as int + 32) as char
    else if c == '\U{212A}' then 'k'
    else c
  }

  /** `s.lower()`, character by character. */
  function Lower(s: string): (r: string)
    ensures |r| == |s|
    ensures forall i :: 0 <= i < |s| ==> (IsSpace(r[i]) <==> IsSpace(s[i]))
    // no capital letter survives: A-Z move down by 32, the Kelvin sign becomes 'k'
    ensures forall i :: 0 <= i < |r| ==> !('A' <= r[i] <= 'Z')
    ensures forall i :: 0 <= i < |s| && 'A' <= s[i] <= 'Z' ==> r[i] as int == s[i] as int + 32
    ensures forall i :: 0 <= i < |s| && s[i] == '\U{212A}' ==> r[i] == 'k'
    // every other character is kept as it is
    ensures forall i :: 0 <= i < |s| && !('A' <= s[i] <= 'Z') && s[i] != '\U{212A}' ==> r[i] == s[i]
  {
    seq(|s|, i requires 0 <= i < |s| => LowerChar(s[i]))
  }

  /** Lowering twice changes nothing more than lowering once. */
  lemma LowerIdempotent(s: string)
    ensures Lower(Lower(s)) == Lower(s)
  {
    var r := Lower(s);
    assert forall i :: 0 <= i < |r| ==> Lower(r)[i] == r[i];
  }

  /** `s.split()`: the maximal runs of non-whitespace characters, left to right. */
  function Split(s: string): seq<string>
    decreases |s|
  {
    if s == [] then []
    else if IsSpace(s[0]) then Split(s[1..])
    else
      var n := WordSpan(s);
      [s[..n]] + Split(s[n..])
  }

  /** `w` occurs in `s` at `i` as a whole word: non-empty, free of whitespace, and bounded by whitespace or the ends of `s`. */
  ghost predicate WordAt(s: string, i: nat, w: string) {
    0 < |w| && i + |w| <= |s| && s[i..i + |w|] == w
    && (forall k :: 0 <= k < |w| ==> IsWordChar(w[k]))
    && (i == 0 || IsSpace(s[i - 1]))
    && (i + |w| == |s| || IsSpace(s[i + |w|]))
  }

  /** A whole word of `s[1..]` is a whole word of `s`, one position on. */
  lemma WordShiftRight(s: string, w: string, i: nat)
    requires s != [] && IsSpace(s[0])
    requires WordAt(s[1..], i, w)
    ensures WordAt(s, i + 1, w)
  {
    assert s[i + 1..i + 1 + |w|] == s[1..][i..i + |w|];
  }

  /** A whole word of `s`, when `s` starts with whitespace, is a whole word of `s[1..]`. */
  lemma WordShiftLeft(s: string, w: string, i: nat)
    requires s != [] && IsSpace(s[0])
    requires WordAt(s, i, w)
    ensures i > 0 && WordAt(s[1..], i - 1, w)
  {
    assert w[0] == s[i];
    assert s[1..][i - 1..i - 1 + |w|] == s[i..i + |w|];
  }

  /** Past a leading whitespace character, the whole words of `s` are those of `s[1..]`. */
  lemma WordsPastSpace(s: string, w: string)
    requires s != [] && IsSpace(s[0])
    ensures (exists i: nat :: WordAt(s, i, w)) <==> (exists i: nat :: WordAt(s[1..], i, w))
  {
    if exists i: nat :: WordAt(s[1..], i, w) {
      var i: nat :| WordAt(s[1..], i, w);
      WordShiftRight(s, w, i);
    }
    if exists i: nat :: WordAt(s, i, w) {
      var i: nat :| WordAt(s, i, w);
      WordShiftLeft(s, w, i);
    }
  }

  /** A whole word that starts inside the leading word of `s` is that leading word. */
  lemma LeadingWord(s: string, w: string, i: nat)
    requires s != [] && IsWordChar(s[0])
    requires WordAt(s, i, w) && i <= WordSpan(s)
    ensures i == 0 && w == s[..WordSpan(s)]
  {
  }

  /** A whole word of what follows the leading word of `s` is a whole word of `s`. */
  lemma WordAfterLeading(s: string, w: string, j: nat)
    requires s != [] && IsWordChar(s[0])
    requires WordAt(s[WordSpan(s)..], j, w)
    ensures WordAt(s, j + WordSpan(s), w)
  {
    var n := WordSpan(s);
    WordNotAtSpace(s[n..], w, j);
    WordFromSuffix(s, w, j, n);
  }

  /** A whole word does not start on whitespace. */
  lemma WordNotAtSpace(t: string, w: string, j: nat)
    requires WordAt(t, j, w) && IsSpace(t[0])
    ensures 0 < j
  {
    assert w[0] == t[j];
  }

  /** A whole word of `s[n..]` that does not start at its beginning is a whole word of `s`. */
  lemma WordFromSuffix(s: string, w: string, j: nat, n: nat)
    requires n <= |s| && 0 < j && WordAt(s[n..], j, w)
    ensures WordAt(s, j + n, w)
  {
    var t := s[n..];
    assert s[j + n - 1] == t[j - 1];
    assert s[j + n..j + n + |w|] == t[j..j + |w|];
    if j + |w| < |t| {
      assert s[j + n + |w|] == t[j + |w|];
    }
  }

  /** A whole word of `s` past its leading word is a whole word of the rest. */
  lemma WordPastLeading(s: string, w: string, i: nat)
    requires s != [] && IsWordChar(s[0])
    requires WordAt(s, i, w) && i > WordSpan(s)
    ensures WordAt(s[WordSpan(s)..], i - WordSpan(s), w)
  {
    WordInSuffix(s, w, i, WordSpan(s));
  }

  /** A whole word of `s` that starts after position `n` is a whole word of `s[n..]`. */
  lemma WordInSuffix(s: string, w: string, i: nat, n: nat)
    requires WordAt(s, i, w) && n < i
    ensures WordAt(s[n..], i - n, w)
  {
    var t := s[n..];
    assert t[i - n - 1] == s[i - 1];
    assert t[i - n..i - n + |w|] == s[i..i + |w|];
    if i + |w| < |s| {
      assert t[i - n + |w|] == s[i + |w|];
    }
  }

  /** Past the leading word of `s`, the whole words of `s` are those of the rest. */
  lemma WordsPastWord(s: string, w: string)
    requires s != [] && IsWordChar(s[0])
    ensures var n := WordSpan(s);
      (exists i: nat :: WordAt(s, i, w)) <==> (w == s[..n] || exists i: nat :: WordAt(s[n..], i, w))
  {
    var n := WordSpan(s);
    if w == s[..n] {
      assert s[0..n] == w;
      assert WordAt(s, 0, w);
    }
    if exists j: nat :: WordAt(s[n..], j, w) {
      var j: nat :| WordAt(s[n..], j, w);
      WordAfterLeading(s, w, j);
    }
    if exists i: nat :: WordAt(s, i, w) {
      var i: nat :| WordAt(s, i, w);
      if i <= n {
        LeadingWord(s, w, i);
      } else {
        WordPastLeading(s, w, i);
      }
    }
  }

  /** The words `split` returns are exactly the whole words of `s`: no word is cut out of a longer one. */
  lemma {:induction false} SplitWords(s: string, w: string)
    ensures w in Split(s) <==> exists i: nat :: WordAt(s, i, w)
    decreases |s|
  {
    if s == [] {
    } else if IsSpace(s[0]) {
      SplitWords(s[1..], w);
      WordsPastSpace(s, w);
    } else {
      var n := WordSpan(s);
      SplitWords(s[n..], w);
      WordsPastWord(s, w);
    }
  }

  /** The character `str` writes for a decimal digit. */
  function DigitChar(d: nat): (c: char)
    requires d < 10
    ensures IsDigit(c)
  {
    ('0' as int + d) as char
  }

  /** `str(n)` for a non-negative integer: decimal digits, no leading zero. */
  function NatToString(n: nat): (r: string)
    ensures |r| > 0
    ensures forall i :: 0 <= i < |r| ==> IsDigit(r[i])
    ensures r[0] == '0' ==> n == 0
  {
    if n < 10 then [DigitChar(n)] else NatToString(n / 10) + [DigitChar(n % 10)]
  }

  /** The number a string of decimal digits denotes (`int(s)`). */
  function DigitsValue(s: string): nat
    requires forall i :: 0 <= i < |s| ==> IsDigit(s[i])
  {
    if s == [] then 0
    else
      assert IsDigit(s[|s| - 1]);
      DigitsValue(s[..|s| - 1]) * 10 + (s[|s| - 1] as int - '0' as int)
  }

  /** `int(str(n)) == n`. */
  lemma {:induction false} NatToStringRoundTrip(n: nat)
    ensures DigitsValue(NatToString(n)) == n
  {
    if n >= 10 {
      var r := NatToString(n);
      assert r[..|r| - 1] == NatToString(n / 10);
      NatToStringRoundTrip(n / 10);
    }
  }

  /** Different numbers are written as different strings. */
  lemma NatToStringInjective(m: nat, n: nat)
    ensures NatToString(m) == NatToString(n) ==> m == n
  {
    NatToStringRoundTrip(m);
    NatToStringRoundTrip(n);
  }
}
