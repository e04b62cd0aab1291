// The text of the deletion ledger as `readlines()` sees it: lines that
// keep their '\n' terminator, and the text they join back into.
module LedgerText {
  import opened Text

  function Content(file: Option<string>): string {
    if file.Some? then file.value else ""
  }

  /** Length of the first line of `s`, its '\n' included. */
  function LineEnd(s: string): (k: nat)
    ensures s != [] ==> 1 <= k <= |s|
  {
    if CharIndex(s, '\n') < |s| then CharIndex(s, '\n') + 1 else |s|
  }

  /** `f.readlines()` */
  function SplitLines(s: string): (r: seq<string>)
    decreases |s|
  {
    if s == [] then [] else [s[..LineEnd(s)]] + SplitLines(s[LineEnd(s)..])
  }

  /** Writing lines one after another. */
  function Join(lines: seq<string>): string {
    if lines == [] then [] else lines[0] + Join(lines[1..])
  }

  /** A line as `readlines()` returns it: not empty, with a '\n' at most at its end. */
  predicate IsLine(l: string) {
    l != [] && forall i :: 0 <= i < |l| - 1 ==> l[i] != '\n'
  }

  predicate Terminated(l: string) {
    l != [] && l[|l| - 1] == '\n'
  }

  predicate WellFormed(lines: seq<string>) {
    (forall i :: 0 <= i < |lines| ==> IsLine(lines[i])) &&
    (forall i :: 0 <= i < |lines| - 1 ==> Terminated(lines[i]))
  }

  /** One step of `SplitLines` on non-empty text. */
  lemma SplitLinesStep(s: string)
    requires s != []
    ensures SplitLines(s) == [s[..LineEnd(s)]] + SplitLines(s[LineEnd(s)..])
  {
  }

  /** Every line `readlines()` returns is a line, and all but the last end in '\n'. */
  lemma {:induction false} SplitLinesWellFormed(s: string)
    ensures WellFormed(SplitLines(s))
    decreases |s|
  {
    if s != [] {
      var k := LineEnd(s);
      SplitLinesStep(s);
      SplitLinesWellFormed(s[k..]);
      var rest := SplitLines(s[k..]);
      var ls := [s[..k]] + rest;
      assert IsLine(s[..k]);
      if k < |s| {
        assert Terminated(s[..k]);
      }
      assert forall i :: 1 <= i < |ls| ==> ls[i] == rest[i - 1];
    }
  }

  /** `readlines()` loses nothing: the lines join back into the text. */
  lemma {:induction false} JoinSplitLines(s: string)
    ensures Join(SplitLines(s)) == s
    decreases |s|
  {
    if s != [] {
      var k := LineEnd(s);
      SplitLinesStep(s);
      JoinCons(s[..k], SplitLines(s[k..]));
      JoinSplitLines(s[k..]);
      assert s[..k] + s[k..] == s;
    }
  }

  lemma JoinCons(l: string, rest: seq<string>)
    ensures Join([l] + rest) == l + Join(rest)
  {
    assert ([l] + rest)[1..] == rest;
  }

  /** The first line of joined well-formed lines is the first of them. */
  lemma LineEndOfJoin(l: string, rest: seq<string>)
    requires IsLine(l) && (rest != [] ==> Terminated(l))
    ensures LineEnd(l + Join(rest)) == |l|
  {
    CharIndexConcat(l, Join(rest), '\n');
    if rest != [] {
      assert CharIndex(l, '\n') == |l| - 1;
    } else {
      assert Join(rest) == [];
      assert l + Join(rest) == l;
    }
  }

  lemma {:induction false} SplitLinesJoin(lines: seq<string>)
    requires WellFormed(lines)
    ensures SplitLines(Join(lines)) == lines
  {
    if lines != [] {
      var l := lines[0];
      var rest := lines[1..];
      assert WellFormed(rest) by {
        assert forall i :: 0 <= i < |rest| ==> rest[i] == lines[i + 1];
      }
      SplitLinesJoin(rest);
      var s := Join(lines);
      assert s == l + Join(rest);
      LineEndOfJoin(l, rest);
      assert s[..|l|] == l && s[|l|..] == Join(rest);
      assert SplitLines(s) == [l] + SplitLines(Join(rest));
      assert [l] + rest == lines;
    }
  }

  lemma LineEndAppend(a: string, b: string)
    requires a != [] && a[|a| - 1] == '\n'
    ensures LineEnd(a + b) == LineEnd(a) <= |a|
    ensures (a + b)[..LineEnd(a)] == a[..LineEnd(a)]
    ensures (a + b)[LineEnd(a)..] == a[LineEnd(a)..] + b
  {
    CharIndexConcat(a, b, '\n');
    assert CharIndex(a, '\n') < |a|;
  }

  lemma SplitLinesAppendStep(a: string, b: string)
    requires a != [] && a[|a| - 1] == '\n'
    ensures LineEnd(a) <= |a|
    ensures EndsInNewline(a[LineEnd(a)..])
    ensures SplitLines(a) == [a[..LineEnd(a)]] + SplitLines(a[LineEnd(a)..])
    ensures SplitLines(a + b) == [a[..LineEnd(a)]] + SplitLines(a[LineEnd(a)..] + b)
  {
    LineEndAppend(a, b);
    SplitLinesStep(a);
    SplitLinesStep(a + b);
    var t := a[LineEnd(a)..];
    if t != [] {
      assert t[|t| - 1] == a[|a| - 1];
    }
  }

  /** Empty, or ending with a complete line. */
  predicate EndsInNewline(s: string) {
    s == [] || s[|s| - 1] == '\n'
  }

  lemma ConsThenAppend(h: string, x: seq<string>, y: seq<string>)
    ensures [h] + (x + y) == ([h] + x) + y
  {
  }

  /** Text appended after a complete line starts new lines. */
  lemma {:induction false} SplitLinesAppend(a: string, b: string)
    requires EndsInNewline(a)
    ensures SplitLines(a + b) == SplitLines(a) + SplitLines(b)
    decreases |a|
  {
    if a == [] {
      assert a + b == b;
    } else {
      SplitLinesAppendStep(a, b);
      var t := a[LineEnd(a)..];
      SplitLinesAppend(t, b);
      ConsThenAppend(a[..LineEnd(a)], SplitLines(t), SplitLines(b));
    }
  }

  lemma SplitOneLine(l: string)
    requires IsLine(l)
    ensures SplitLines(l) == [l]
  {
    assert CharIndex(l, '\n') >= |l| - 1;
    assert LineEnd(l) == |l|;
    assert l[..|l|] == l;
    assert l[|l|..] == [];
    SplitLinesStep(l);
    assert SplitLines([]) == [];
  }

  lemma {:induction false} JoinSnoc(lines: seq<string>, x: string)
    ensures Join(lines + [x]) == Join(lines) + x
  {
    if lines == [] {
      assert [x][1..] == [];
    } else {
      assert (lines + [x])[1..] == lines[1..] + [x];
      JoinSnoc(lines[1..], x);
    }
  }

}
