// The handful of Python `str` operations the site-list tool relies on,
// written out so that the rest of the model can state exactly what each
// call in ie-mode.py does: `strip()`, `in`, `split(sep, 1)`, `split()`,
// `isdigit()`, `lower() == word` and `int()`.
module Text {

  datatype Option<T> = None | Some(value: T)

  /** Python's `str.isspace()` for one character: the ASCII controls
      \t \n \v \f \r, the separators U+001C..U+001F, the space, and the
      Unicode space characters. */
  predicate IsSpace(c: char) {
    var n := c as int;
    n == 32 || 9 <= n <= 13 || 28 <= n <= 31 || n == 0x85 || n == 0xA0 ||
    n == 0x1680 || 0x2000 <= n <= 0x200A || n == 0x2028 || n == 0x2029 ||
    n == 0x202F || n == 0x205F || n == 0x3000
  }

  function StripLeft(s: string): (r: string)
    ensures |r| <= |s| && r == s[|s| - |r|..]
    ensures r == [] || !IsSpace(r[0])
    ensures forall i :: 0 <= i < |s| - |r| ==> IsSpace(s[i])
  {
    if |s| > 0 && IsSpace(s[0]) then StripLeft(s[1..]) else s
  }

  function StripRight(s: string): (r: string)
    ensures |r| <= |s| && r == s[..|r|]
    ensures r == [] || !IsSpace(r[|r| - 1])
    ensures forall i :: |r| <= i < |s| ==> IsSpace(s[i])
  {
    if |s| > 0 && IsSpace(s[|s| - 1]) then StripRight(s[..|s| - 1]) else s
  }

  /** `s.strip()`: a slice of `s` that neither starts nor ends with
      whitespace, obtained by dropping only whitespace. */
  function Strip(s: string): (r: string)
    ensures |s| - |StripLeft(s)| + |r| <= |s|
    ensures r == s[|s| - |StripLeft(s)|..|s| - |StripLeft(s)| + |r|]
    ensures r == [] || (!IsSpace(r[0]) && !IsSpace(r[|r| - 1]))
  {
    var l := StripLeft(s);
    var r := StripRight(l);
    SliceOfSuffix(s, |s| - |l|, |r|);
    r
  }

  /** A prefix of a suffix is a middle slice. */
  lemma SliceOfSuffix(s: string, a: nat, n: nat)
    requires a + n <= |s|
    ensures s[a..][..n] == s[a..a + n]
  {
  }

  /** `strip()` drops whitespace only: every character before and after
      the result is whitespace, and the result is empty exactly when the
      whole text is. */
  lemma StripDropsSpace(s: string)
    ensures forall i :: 0 <= i < |s| - |StripLeft(s)| ==> IsSpace(s[i])
    ensures forall i :: |s| - |StripLeft(s)| + |Strip(s)| <= i < |s| ==> IsSpace(s[i])
    ensures Strip(s) == [] <==> forall i :: 0 <= i < |s| ==> IsSpace(s[i])
  {
    var a := |s| - |StripLeft(s)|;
    var l := StripLeft(s);
    assert forall i :: a <= i < |s| ==> s[i] == l[i - a];
    if Strip(s) == [] && |s| > 0 {
      assert StripRight(l) == [];
    }
  }

  lemma StripKeeps(s: string)
    requires s != [] && !IsSpace(s[0]) && !IsSpace(s[|s| - 1])
    ensures Strip(s) == s
  {
  }

  /** `p` occurs in `s` starting at index `i`. */
  predicate OccursAt(s: string, p: string, i: int) {
    0 <= i && i + |p| <= |s| && s[i..i + |p|] == p
  }

  /** `s.find(p, i)`: the first occurrence of `p` at or after `i`, or -1. */
  function FindFrom(s: string, p: string, i: nat): (r: int)
    ensures r == -1 || (i <= r && OccursAt(s, p, r))
    ensures r == -1 ==> forall k :: i <= k ==> !OccursAt(s, p, k)
    ensures r != -1 ==> forall k :: i <= k < r ==> !OccursAt(s, p, k)
    decreases |s| - i
  {
    if i + |p| > |s| then -1
    else if s[i..i + |p|] == p then i
    else FindFrom(s, p, i + 1)
  }

  function Find(s: string, p: string): int {
    FindFrom(s, p, 0)
  }

  /** Python's `p in s` for strings. */
  predicate Contains(s: string, p: string) {
    Find(s, p) >= 0
  }

  lemma OccursContains(s: string, p: string, k: int)
    requires OccursAt(s, p, k)
    ensures Contains(s, p) && Find(s, p) <= k
  {
  }

  lemma OccursInSlice(s: string, p: string, a: nat, b: nat, k: int)
    requires a <= b <= |s| && OccursAt(s[a..b], p, k)
    ensures OccursAt(s, p, a + k)
  {
    forall j | 0 <= j < |p|
      ensures s[a + k..a + k + |p|][j] == p[j]
    {
      assert s[a..b][k..k + |p|][j] == p[j];
    }
  }

  /** A substring of a slice is a substring of the whole. */
  lemma ContainsSlice(s: string, p: string, a: nat, b: nat)
    requires a <= b <= |s| && Contains(s[a..b], p)
    ensures Contains(s, p)
  {
    var k := Find(s[a..b], p);
    OccursInSlice(s, p, a, b, k);
    OccursContains(s, p, a + k);
  }

  /** The first index of `c` in `s`, or `|s|` when `c` does not occur. */
  function CharIndex(s: string, c: char): (r: nat)
    ensures r <= |s|
    ensures r < |s| ==> s[r] == c
    ensures forall k :: 0 <= k < r ==> s[k] != c
  {
    if s == [] then 0 else if s[0] == c then 0 else 1 + CharIndex(s[1..], c)
  }

  lemma CharIndexConcat(a: string, b: string, c: char)
    ensures CharIndex(a + b, c) ==
            if CharIndex(a, c) < |a| then CharIndex(a, c) else |a| + CharIndex(b, c)
  {
    var r := CharIndex(a + b, c);
    var i := CharIndex(a, c);
    if i < |a| {
      assert (a + b)[i] == c;
    } else {
      var j := CharIndex(b, c);
      assert forall k :: 0 <= k < |a| ==> (a + b)[k] == a[k];
      if j < |b| {
        assert (a + b)[|a| + j] == c;
      }
      assert forall k :: |a| <= k < |a| + j ==> (a + b)[k] == b[k - |a|];
    }
  }

  /** Length of the leading run of non-whitespace characters. */
  function WordEnd(s: string): (r: nat)
    ensures r <= |s|
    ensures forall k :: 0 <= k < r ==> !IsSpace(s[k])
    ensures r < |s| ==> IsSpace(s[r])
  {
    if s == [] || IsSpace(s[0]) then 0 else 1 + WordEnd(s[1..])
  }

  /** `s.split()`: the maximal runs of non-whitespace characters, in order. */
  function Words(s: string): (r: seq<string>)
    ensures forall i :: 0 <= i < |r| ==> r[i] != [] && forall k :: 0 <= k < |r[i]| ==> !IsSpace(r[i][k])
    decreases |s|
  {
    if s == [] then []
    else if IsSpace(s[0]) then Words(s[1..])
    else
      var k := WordEnd(s);
      [s[..k]] + Words(s[k..])
  }

  /** A non-empty word with no whitespace splits into itself. */
  lemma WordsOfWord(w: string)
    requires w != [] && forall k :: 0 <= k < |w| ==> !IsSpace(w[k])
    ensures Words(w) == [w]
  {
    WordEndAll(w);
    assert !IsSpace(w[0]);
    assert w[..|w|] == w;
    assert w[|w|..] == [];
    assert Words(w[|w|..]) == [];
  }

  lemma {:induction false} WordEndAll(w: string)
    requires forall k :: 0 <= k < |w| ==> !IsSpace(w[k])
    ensures WordEnd(w) == |w|
  {
    if w != [] {
      WordEndAll(w[1..]);
    }
  }

  /** `WordEnd` does not look past the first whitespace character. */
  lemma {:induction false} WordEndConcat(a: string, c: char, b: string)
    requires IsSpace(c)
    ensures WordEnd(a + [c] + b) == WordEnd(a)
  {
    if a == [] {
      assert (a + [c] + b)[0] == c;
    } else {
      var s := a + [c] + b;
      assert s[0] == a[0];
      if !IsSpace(a[0]) {
        assert s[1..] == a[1..] + [c] + b;
        WordEndConcat(a[1..], c, b);
      }
    }
  }

  /** Splitting text joined at a whitespace character gives the words of
      each side, in order. */
  lemma {:induction false} WordsConcat(a: string, c: char, b: string)
    requires IsSpace(c)
    ensures Words(a + [c] + b) == Words(a) + Words(b)
    decreases |a|
  {
    var s := a + [c] + b;
    if a == [] {
      assert s[1..] == b;
    } else if IsSpace(a[0]) {
      assert s[0] == a[0];
      assert s[1..] == a[1..] + [c] + b;
      WordsConcat(a[1..], c, b);
    } else {
      assert s[0] == a[0];
      var k := WordEnd(a);
      WordEndConcat(a, c, b);
      assert k > 0;
      assert s[..k] == a[..k];
      assert s[k..] == a[k..] + [c] + b;
      WordsConcat(a[k..], c, b);
    }
  }

  predicate IsAsciiDigit(c: char) {
    '0' <= c <= '9'
  }

  /** `t.isdigit()` restricted to ASCII digits. */
  predicate AllDigits(t: string) {
    |t| > 0 && forall i :: 0 <= i < |t| ==> IsAsciiDigit(t[i])
  }

  /** The decimal value of a digit string (leading zeros allowed). */
  function DigitsValue(t: string): (r: nat)
    requires forall i :: 0 <= i < |t| ==> IsAsciiDigit(t[i])
    ensures |t| == 1 ==> r == t[0] as int - '0' as int
  {
    if t == [] then 0
    else
      var d := t[|t| - 1];
      assert IsAsciiDigit(d);
      10 * DigitsValue(t[..|t| - 1]) + (d as int - '0' as int)
  }

  /** The characters whose Python lower-case form is the ASCII letter
      `w`: `w` itself, its upper-case form, and for `k` also the Kelvin
      sign U+212A. */
  predicate LowersTo(c: char, w: char) {
    c == w || ('a' <= w <= 'z' && c as int == w as int - 32) || (w == 'k' && c == '\U{212A}')
  }

  /** `s.lower() == w` for a lower-case ASCII word `w` (no character
      lowers to more than one ASCII letter of such a word). */
  predicate LowerIs(s: string, w: string) {
    |s| == |w| && forall i :: 0 <= i < |s| ==> LowersTo(s[i], w[i])
  }

  predicate IsNumeralChar(c: char) {
    IsAsciiDigit(c) || c == '_'
  }

  /** The body of a Python integer literal accepted by `int()`: digits,
      with single underscores allowed between two digits. */
  predicate IsNumeral(b: string) {
    |b| > 0 && IsAsciiDigit(b[0]) && IsAsciiDigit(b[|b| - 1]) &&
    (forall i :: 0 <= i < |b| ==> IsNumeralChar(b[i])) &&
    (forall i :: 0 <= i < |b| - 1 ==> !(b[i] == '_' && b[i + 1] == '_'))
  }

  function DropUnderscores(b: string): (r: string)
    requires forall i :: 0 <= i < |b| ==> IsNumeralChar(b[i])
    ensures forall i :: 0 <= i < |r| ==> IsAsciiDigit(r[i])
  {
    if b == [] then []
    else
      assert IsNumeralChar(b[0]);
      var rest := DropUnderscores(b[1..]);
      if b[0] == '_' then rest else [b[0]] + rest
  }

  /** Digits without underscores are kept as they are. */
  lemma {:induction false} DropNoUnderscores(b: string)
    requires forall i :: 0 <= i < |b| ==> IsNumeralChar(b[i])
    ensures (forall i :: 0 <= i < |b| ==> IsAsciiDigit(b[i])) ==> DropUnderscores(b) == b
  {
    if b != [] {
      DropNoUnderscores(b[1..]);
      assert [b[0]] + b[1..] == b;
    }
  }

  /** Python's `int(s)` in base 10: `None` where Python raises ValueError. */
  function ParseInt(s: string): (r: Option<int>)
    ensures r.Some? ==> Strip(s) != []
  {
    var t := Strip(s);
    if t == [] then None
    else
      var neg := t[0] == '-';
      var body := if t[0] == '-' || t[0] == '+' then t[1..] else t;
      if IsNumeral(body) then
        var v: int := DigitsValue(DropUnderscores(body));
        var n: int := if neg then -v else v;
        Some(n)
      else None
  }

  /** Digits with no underscore form a numeral. */
  lemma DigitsNumeral(b: string)
    requires AllDigits(b)
    ensures IsNumeral(b) && DropUnderscores(b) == b
  {
    assert forall i :: 0 <= i < |b| ==> IsNumeralChar(b[i]);
    DropNoUnderscores(b);
  }

  /** `int()` of a stripped run of digits is their value. */
  lemma ParseIntDigits(s: string)
    requires AllDigits(Strip(s))
    ensures ParseInt(s) == Some(DigitsValue(Strip(s)) as int)
  {
    var t := Strip(s);
    assert IsAsciiDigit(t[0]);
    DigitsNumeral(t);
  }

  /** `int()` of a '-' and a run of digits is the negated value. */
  lemma ParseIntNegative(s: string)
    requires |Strip(s)| > 1 && Strip(s)[0] == '-' && AllDigits(Strip(s)[1..])
    ensures ParseInt(s) == Some(-(DigitsValue(Strip(s)[1..]) as int))
  {
    var t := Strip(s);
    DigitsNumeral(t[1..]);
  }

  /** `int()` accepts only an optional sign followed by digits and
      underscores. */
  lemma ParseIntAccepts(s: string)
    requires ParseInt(s).Some?
    ensures forall i :: 1 <= i < |Strip(s)| ==> IsNumeralChar(Strip(s)[i])
    ensures IsNumeralChar(Strip(s)[0]) || Strip(s)[0] == '-' || Strip(s)[0] == '+'
  {
    var t := Strip(s);
    var body := if t[0] == '-' || t[0] == '+' then t[1..] else t;
    assert IsNumeral(body);
    forall i | 1 <= i < |t|
      ensures IsNumeralChar(t[i])
    {
      if t[0] == '-' || t[0] == '+' {
        assert t[i] == body[i - 1];
      } else {
        assert t[i] == body[i];
      }
    }
  }
}
