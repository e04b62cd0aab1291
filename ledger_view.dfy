// The deletion ledger as a sequence of lines, each classified by a
// function `f` into a `Shape`. Everything here is about that sequence:
// which records the live view shows, what a removal keeps, where a
// removal stops. The classification of one line of text lives in the
// `Ledger` module.
module LedgerView {

  /** (url, line) as load_deleted_records returns it: the URL and the
      stripped line it was read from. */
  datatype Record = Record(url: string, line: string)

  /** How one ledger line reads:
      - `Plain`: the raw line holds no " | ";
      - `Broken`: the raw line holds " | " but its stripped form does not
        (the separator straddles the surrounding whitespace);
      - `Entry(url, text)`: `text` is the stripped line and `url` what
        follows its first " | ". */
  datatype Shape = Plain | Broken | Entry(url: string, text: string)

  predicate Carries(x: Shape, url: string) {
    x.Entry? && x.url == url
  }

  /** The URL a line carries, if any. */
  function Carried(x: Shape): set<string> {
    if x.Entry? then {x.url} else {}
  }

  /** What a line contributes to the live view when `later` are the URLs
      the lines after it carry. */
  function Shown(x: Shape, later: set<string>): seq<Record> {
    if x.Entry? && x.url !in later then [Record(x.url, x.text)] else []
  }

  /** The URLs the lines carry. */
  function UrlsOf<L>(f: L -> Shape, lines: seq<L>): set<string> {
    if lines == [] then {}
    else Carried(f(lines[0])) + UrlsOf(f, lines[1..])
  }

  /** The live view: an entry is shown when no later line carries the
      same URL; records stay in file order. */
  function View<L>(f: L -> Shape, lines: seq<L>): (r: seq<Record>)
    ensures |r| <= |lines|
  {
    if lines == [] then []
    else Shown(f(lines[0]), UrlsOf(f, lines[1..])) + View(f, lines[1..])
  }

  function WithoutUrl(view: seq<Record>, url: string): (r: seq<Record>)
    ensures |r| <= |view|
    ensures forall k :: 0 <= k < |r| ==> r[k].url != url && r[k] in view
    ensures forall k :: 0 <= k < |view| && view[k].url != url ==> view[k] in r
  {
    if view == [] then []
    else (if view[0].url == url then [] else [view[0]]) + WithoutUrl(view[1..], url)
  }

  lemma {:induction false} UrlsOfCarries<L>(f: L -> Shape, lines: seq<L>, url: string)
    ensures url in UrlsOf(f, lines) <==> exists i :: 0 <= i < |lines| && Carries(f(lines[i]), url)
  {
    if lines != [] {
      var rest := lines[1..];
      UrlsOfCarries(f, rest, url);
      if exists i :: 1 <= i < |lines| && Carries(f(lines[i]), url) {
        var i :| 1 <= i < |lines| && Carries(f(lines[i]), url);
        assert Carries(f(rest[i - 1]), url);
      }
      if exists i :: 0 <= i < |rest| && Carries(f(rest[i]), url) {
        var i :| 0 <= i < |rest| && Carries(f(rest[i]), url);
        assert Carries(f(lines[i + 1]), url);
      }
    }
  }

  /** The live view shows every URL the ledger carries, and only those. */
  lemma {:induction false} ViewUrls<L>(f: L -> Shape, lines: seq<L>)
    ensures (set r | r in View(f, lines) :: r.url) == UrlsOf(f, lines)
  {
    if lines != [] {
      ViewUrls(f, lines[1..]);
      var x := f(lines[0]);
      var head := if x.Entry? && x.url !in UrlsOf(f, lines[1..]) then [Record(x.url, x.text)] else [];
      assert View(f, lines) == head + View(f, lines[1..]);
      assert forall r :: r in View(f, lines) <==> r in head || r in View(f, lines[1..]);
    }
  }

  predicate DistinctUrls(v: seq<Record>) {
    forall i, j :: 0 <= i < j < |v| ==> v[i].url != v[j].url
  }

  /** No URL is shown twice. */
  lemma {:induction false} ViewDistinct<L>(f: L -> Shape, lines: seq<L>)
    ensures DistinctUrls(View(f, lines))
  {
    if lines != [] {
      ViewDistinct(f, lines[1..]);
      ViewUrls(f, lines[1..]);
      var x := f(lines[0]);
      var v := View(f, lines);
      var tail := View(f, lines[1..]);
      if x.Entry? && x.url !in UrlsOf(f, lines[1..]) {
        assert v == [Record(x.url, x.text)] + tail;
        forall j | 1 <= j < |v|
          ensures v[0].url != v[j].url
        {
          assert v[j] == tail[j - 1] && v[j] in tail;
        }
      } else {
        assert v == tail;
      }
    }
  }

  /** The view and the URLs of a suffix, one line at a time. */
  lemma ViewFrom<L>(f: L -> Shape, lines: seq<L>, i: nat)
    requires i < |lines|
    ensures View(f, lines[i..]) == Shown(f(lines[i]), UrlsOf(f, lines[i + 1..])) + View(f, lines[i + 1..])
    ensures UrlsOf(f, lines[i..]) == Carried(f(lines[i])) + UrlsOf(f, lines[i + 1..])
  {
    assert lines[i..][1..] == lines[i + 1..];
  }

  /** One step of the loader, which walks the lines from the newest:
      the record of line `i` is added when its URL was not seen yet. */
  lemma LoadStep<L>(f: L -> Shape, lines: seq<L>, i: nat, records: seq<Record>, seen: set<string>)
    requires i < |lines|
    requires records == Reverse(View(f, lines[i + 1..])) && seen == UrlsOf(f, lines[i + 1..])
    ensures f(lines[i]).Entry? && f(lines[i]).url !in seen ==>
              records + [Record(f(lines[i]).url, f(lines[i]).text)] == Reverse(View(f, lines[i..])) &&
              seen + {f(lines[i]).url} == UrlsOf(f, lines[i..])
    ensures !(f(lines[i]).Entry? && f(lines[i]).url !in seen) ==>
              records == Reverse(View(f, lines[i..])) && seen == UrlsOf(f, lines[i..])
  {
    ViewFrom(f, lines, i);
    var x := f(lines[i]);
    if x.Entry? && x.url !in seen {
      ReverseCons(Record(x.url, x.text), View(f, lines[i + 1..]));
    } else {
      assert Shown(x, seen) == [];
      assert View(f, lines[i..]) == View(f, lines[i + 1..]);
    }
  }

  /** The view of three lines, two of which carry the same URL. */
  lemma ViewOfThree<L>(f: L -> Shape, l1: L, l2: L, l3: L, u: string, w: string, t1: string, t2: string, t3: string)
    requires u != w
    requires f(l1) == Entry(u, t1) && f(l2) == Entry(w, t2) && f(l3) == Entry(u, t3)
    ensures View(f, [l1, l2, l3]) == [Record(w, t2), Record(u, t3)]
  {
    var ls := [l1, l2, l3];
    assert ls[1..] == [l2, l3] && [l2, l3][1..] == [l3] && [l3][1..] == [];
    assert UrlsOf(f, [l3]) == {u};
    assert UrlsOf(f, [l2, l3]) == {w, u};
    assert View(f, [l3]) == [Record(u, t3)];
    assert View(f, [l2, l3]) == [Record(w, t2), Record(u, t3)];
  }

  function Shift(ps: seq<nat>): (r: seq<nat>)
    ensures |r| == |ps| && forall k :: 0 <= k < |ps| ==> r[k] == ps[k] + 1
  {
    if ps == [] then [] else [ps[0] + 1] + Shift(ps[1..])
  }

  /** The line numbers the live view's records come from. */
  function Positions<L>(f: L -> Shape, lines: seq<L>): seq<nat> {
    if lines == [] then []
    else
      var x := f(lines[0]);
      (if x.Entry? && x.url !in UrlsOf(f, lines[1..]) then [0] else []) + Shift(Positions(f, lines[1..]))
  }

  /** `ps` gives, for each record of `v`, a line of which it is the entry. */
  predicate EntriesAt<L>(f: L -> Shape, lines: seq<L>, v: seq<Record>, ps: seq<nat>) {
    |ps| == |v| &&
    forall k :: 0 <= k < |ps| ==> ps[k] < |lines| && f(lines[ps[k]]) == Entry(v[k].url, v[k].line)
  }

  /** No line after position `ps[k]` carries the URL of `v[k]`. */
  predicate LastCarriers<L>(f: L -> Shape, lines: seq<L>, v: seq<Record>, ps: seq<nat>) {
    forall k, j :: 0 <= k < |ps| && k < |v| && ps[k] < j < |lines| ==> !Carries(f(lines[j]), v[k].url)
  }

  predicate Increasing(ps: seq<nat>) {
    forall a, b :: 0 <= a < b < |ps| ==> ps[a] < ps[b]
  }

  /** The first line's entry is shown when no later line carries its URL. */
  predicate HeadShown<L>(f: L -> Shape, lines: seq<L>) {
    lines != [] && f(lines[0]).Entry? && f(lines[0]).url !in UrlsOf(f, lines[1..])
  }

  /** One step of `View` and `Positions` on non-empty lines. */
  lemma ViewPositionsStep<L>(f: L -> Shape, lines: seq<L>)
    requires lines != []
    ensures HeadShown(f, lines) ==>
              View(f, lines) == [Record(f(lines[0]).url, f(lines[0]).text)] + View(f, lines[1..]) &&
              Positions(f, lines) == [0] + Shift(Positions(f, lines[1..]))
    ensures !HeadShown(f, lines) ==>
              View(f, lines) == View(f, lines[1..]) &&
              Positions(f, lines) == Shift(Positions(f, lines[1..]))
  {
  }

  /** Each record of the live view is the entry of the line at its
      position. */
  lemma {:induction false} PositionsEntries<L>(f: L -> Shape, lines: seq<L>)
    ensures EntriesAt(f, lines, View(f, lines), Positions(f, lines))
  {
    if lines != [] {
      var rest := lines[1..];
      PositionsEntries(f, rest);
      ViewPositionsStep(f, lines);
      var v', ps' := View(f, rest), Positions(f, rest);
      var sh := Shift(ps');
      var v, ps := View(f, lines), Positions(f, lines);
      forall k | 0 <= k < |ps'|
        ensures sh[k] < |lines| && f(lines[sh[k]]) == Entry(v'[k].url, v'[k].line)
      {
        assert lines[sh[k]] == rest[ps'[k]];
      }
      if HeadShown(f, lines) {
        forall k | 0 <= k < |ps|
          ensures ps[k] < |lines| && f(lines[ps[k]]) == Entry(v[k].url, v[k].line)
        {
          if k > 0 {
            assert ps[k] == sh[k - 1] && v[k] == v'[k - 1];
          }
        }
      }
    }
  }

  /** The first line's entry, when shown, is the last line carrying its URL. */
  lemma HeadIsLast<L>(f: L -> Shape, lines: seq<L>)
    requires lines != [] && f(lines[0]).Entry? && f(lines[0]).url !in UrlsOf(f, lines[1..])
    ensures forall j :: 0 < j < |lines| ==> !Carries(f(lines[j]), f(lines[0]).url)
  {
    var rest := lines[1..];
    UrlsOfCarries(f, rest, f(lines[0]).url);
    forall j | 0 < j < |lines|
      ensures !Carries(f(lines[j]), f(lines[0]).url)
    {
      assert lines[j] == rest[j - 1];
    }
  }

  /** What holds of the rest's records holds of them one line further on. */
  lemma ShiftLast<L>(f: L -> Shape, lines: seq<L>)
    requires lines != []
    requires LastCarriers(f, lines[1..], View(f, lines[1..]), Positions(f, lines[1..]))
    ensures LastCarriers(f, lines, View(f, lines[1..]), Shift(Positions(f, lines[1..])))
  {
    var rest := lines[1..];
    var v', ps' := View(f, rest), Positions(f, rest);
    var sh := Shift(ps');
    forall k, j | 0 <= k < |sh| && k < |v'| && sh[k] < j < |lines|
      ensures !Carries(f(lines[j]), v'[k].url)
    {
      assert lines[j] == rest[j - 1];
    }
  }

  /** No line after a record's position carries its URL: the live view
      shows the last line for each URL. */
  lemma {:induction false} PositionsLast<L>(f: L -> Shape, lines: seq<L>)
    ensures LastCarriers(f, lines, View(f, lines), Positions(f, lines))
  {
    if lines != [] {
      var rest := lines[1..];
      PositionsLast(f, rest);
      ShiftLast(f, lines);
      var x := f(lines[0]);
      var v', sh := View(f, rest), Shift(Positions(f, rest));
      var v, ps := View(f, lines), Positions(f, lines);
      if x.Entry? && x.url !in UrlsOf(f, rest) {
        assert v == [Record(x.url, x.text)] + v' && ps == [0] + sh;
        HeadIsLast(f, lines);
        forall k, j | 0 <= k < |ps| && k < |v| && ps[k] < j < |lines|
          ensures !Carries(f(lines[j]), v[k].url)
        {
          if k > 0 {
            assert ps[k] == sh[k - 1] && v[k] == v'[k - 1];
          }
        }
      } else {
        assert v == v' && ps == sh;
      }
    }
  }

  /** Shifting keeps the positions increasing. */
  lemma ShiftIncreasing(ps: seq<nat>)
    requires Increasing(ps)
    ensures Increasing(Shift(ps))
  {
  }

  /** The records are ordered by the position of the line they come from. */
  lemma {:induction false} PositionsIncreasing<L>(f: L -> Shape, lines: seq<L>)
    ensures Increasing(Positions(f, lines))
  {
    if lines != [] {
      var rest := lines[1..];
      PositionsIncreasing(f, rest);
      ViewPositionsStep(f, lines);
      var ps' := Positions(f, rest);
      var sh := Shift(ps');
      ShiftIncreasing(ps');
      var ps := Positions(f, lines);
      if HeadShown(f, lines) {
        forall a, b | 0 <= a < b < |ps|
          ensures ps[a] < ps[b]
        {
          assert ps[b] == sh[b - 1] >= 1;
          if a > 0 {
            assert ps[a] == sh[a - 1];
          }
        }
      }
    }
  }

  lemma {:induction false} UrlsOfAppend<L>(f: L -> Shape, lines: seq<L>, x: L)
    ensures UrlsOf(f, lines + [x]) == UrlsOf(f, lines) + UrlsOf(f, [x])
  {
    if lines != [] {
      assert (lines + [x])[1..] == lines[1..] + [x];
      UrlsOfAppend(f, lines[1..], x);
    } else {
      assert [] + [x] == [x];
    }
  }

  lemma {:induction false} WithoutUrlConcat(a: seq<Record>, b: seq<Record>, url: string)
    ensures WithoutUrl(a + b, url) == WithoutUrl(a, url) + WithoutUrl(b, url)
  {
    if a != [] {
      assert (a + b)[1..] == a[1..] + b;
      WithoutUrlConcat(a[1..], b, url);
    } else {
      assert a + b == b;
    }
  }

  lemma ShownLater(y: Shape, later: set<string>, url: string)
    ensures Shown(y, later + {url}) == WithoutUrl(Shown(y, later), url)
  {
  }

  /** Appending an entry for `url` moves `url` to the end of the live view,
      with the new line's text. */
  lemma {:induction false} ViewAppend<L>(f: L -> Shape, lines: seq<L>, x: L)
    requires f(x).Entry?
    ensures View(f, lines + [x]) == WithoutUrl(View(f, lines), f(x).url) + [Record(f(x).url, f(x).text)]
  {
    var u, r := f(x).url, Record(f(x).url, f(x).text);
    if lines == [] {
      assert [x][1..] == [];
      assert View(f, [x]) == Shown(f(x), {}) + View(f, []);
    } else {
      var rest := lines[1..];
      var y := f(lines[0]);
      var lx := lines + [x];
      assert lx[0] == lines[0] && lx[1..] == rest + [x];
      assert View(f, lx) == Shown(y, UrlsOf(f, rest + [x])) + View(f, rest + [x]);
      assert View(f, lines) == Shown(y, UrlsOf(f, rest)) + View(f, rest);
      ViewAppend(f, rest, x);
      UrlsOfAppend(f, rest, x);
      assert [x][1..] == [];
      assert UrlsOf(f, [x]) == {u};
      calc {
        View(f, lines + [x]);
        Shown(y, UrlsOf(f, rest) + {u}) + View(f, rest + [x]);
        { ShownLater(y, UrlsOf(f, rest), u); }
        WithoutUrl(Shown(y, UrlsOf(f, rest)), u) + (WithoutUrl(View(f, rest), u) + [r]);
        { WithoutUrlConcat(Shown(y, UrlsOf(f, rest)), View(f, rest), u); }
        WithoutUrl(View(f, lines), u) + [r];
      }
    }
  }

  // ---------------------------------------------------------------------
  // Removing the records of one URL

  /** The line is an entry for `target`, which the rewrite leaves out. */
  predicate Drops(x: Shape, target: string) {
    x.Entry? && x.url == target
  }

  /** The lines written back: all but the entries for `target`, verbatim
      and in order. */
  function Keep<L>(f: L -> Shape, lines: seq<L>, target: string): (r: seq<L>)
    ensures |r| <= |lines|
    ensures forall k :: 0 <= k < |r| ==> !Drops(f(r[k]), target)
  {
    if lines == [] then []
    else (if Drops(f(lines[0]), target) then [] else [lines[0]]) + Keep(f, lines[1..], target)
  }

  /** Index of the first line on which the rewrite raises, or `|lines|`. */
  function FirstBreak<L>(f: L -> Shape, lines: seq<L>): (r: nat)
    ensures r <= |lines| && (r < |lines| ==> f(lines[r]).Broken?)
    ensures forall k :: 0 <= k < r ==> !f(lines[k]).Broken?
  {
    if lines == [] then 0 else if f(lines[0]).Broken? then 0 else 1 + FirstBreak(f, lines[1..])
  }

  /** The lines before the first `Broken` one hold no `Broken` line. */
  lemma {:induction false} FirstBreakPrefix<L>(f: L -> Shape, lines: seq<L>)
    ensures FirstBreak(f, lines) <= |lines|
    ensures var p := lines[..FirstBreak(f, lines)]; FirstBreak(f, p) == |p|
  {
    if lines != [] && !f(lines[0]).Broken? {
      FirstBreakPrefix(f, lines[1..]);
      var n := FirstBreak(f, lines[1..]);
      assert lines[..1 + n] == [lines[0]] + lines[1..][..n];
      assert ([lines[0]] + lines[1..][..n])[1..] == lines[1..][..n];
    }
  }

  /** The rewrite's progress over line `i` when it got through the lines
      before it. */
  lemma BreakStep<L>(f: L -> Shape, lines: seq<L>, i: nat)
    requires i < |lines| && FirstBreak(f, lines) >= i
    ensures f(lines[i]).Broken? ==> FirstBreak(f, lines) == i
    ensures !f(lines[i]).Broken? ==> FirstBreak(f, lines) >= i + 1
  {
  }

  lemma {:induction false} KeepSnoc<L>(f: L -> Shape, lines: seq<L>, x: L, target: string)
    ensures Keep(f, lines + [x], target) == Keep(f, lines, target) + (if Drops(f(x), target) then [] else [x])
  {
    if lines == [] {
      assert [x][1..] == [];
    } else {
      assert (lines + [x])[1..] == lines[1..] + [x];
      KeepSnoc(f, lines[1..], x, target);
    }
  }

  lemma {:induction false} UrlsOfKeep<L>(f: L -> Shape, lines: seq<L>, target: string)
    ensures UrlsOf(f, Keep(f, lines, target)) == UrlsOf(f, lines) - {target}
  {
    if lines != [] {
      var rest := lines[1..];
      UrlsOfKeep(f, rest, target);
      var l := lines[0];
      var kr := Keep(f, rest, target);
      if Drops(f(l), target) {
        assert Keep(f, lines, target) == kr;
        assert UrlsOf(f, lines) == {target} + UrlsOf(f, rest);
      } else {
        assert Keep(f, lines, target) == [l] + kr;
        assert ([l] + kr)[1..] == kr;
        assert UrlsOf(f, [l] + kr) == (if f(l).Entry? then {f(l).url} else {}) + UrlsOf(f, kr);
      }
    }
  }

  /** After the removal the live view is the old one without `target`. */
  lemma {:induction false} ViewKeep<L>(f: L -> Shape, lines: seq<L>, target: string)
    ensures View(f, Keep(f, lines, target)) == WithoutUrl(View(f, lines), target)
  {
    if lines != [] {
      var l := lines[0];
      var rest := lines[1..];
      ViewKeep(f, rest, target);
      UrlsOfKeep(f, rest, target);
      var x := f(l);
      var v := View(f, rest);
      if Drops(x, target) {
        assert Keep(f, lines, target) == Keep(f, rest, target);
        if x.url !in UrlsOf(f, rest) {
          var r := Record(x.url, x.text);
          assert View(f, lines) == [r] + v;
          assert ([r] + v)[1..] == v;
          assert WithoutUrl([r] + v, target) == WithoutUrl(v, target);
        } else {
          assert View(f, lines) == v;
        }
      } else {
        var kr := Keep(f, rest, target);
        assert Keep(f, lines, target) == [l] + kr;
        assert ([l] + kr)[1..] == kr;
        assert (x.Entry? && x.url !in UrlsOf(f, kr)) == (x.Entry? && x.url !in UrlsOf(f, rest));
        if x.Entry? && x.url !in UrlsOf(f, rest) {
          var r := Record(x.url, x.text);
          assert View(f, lines) == [r] + v;
          assert ([r] + v)[1..] == v;
          assert View(f, [l] + kr) == [r] + View(f, kr);
          assert WithoutUrl([r] + v, target) == [r] + WithoutUrl(v, target);
        } else {
          assert View(f, lines) == v;
          assert View(f, [l] + kr) == View(f, kr);
        }
      }
    }
  }

  lemma {:induction false} KeepTwice<L>(f: L -> Shape, lines: seq<L>, target: string)
    ensures Keep(f, Keep(f, lines, target), target) == Keep(f, lines, target)
  {
    if lines != [] {
      KeepTwice(f, lines[1..], target);
      var kr := Keep(f, lines[1..], target);
      if Drops(f(lines[0]), target) {
        assert Keep(f, lines, target) == kr;
      } else {
        assert Keep(f, lines, target) == [lines[0]] + kr;
        assert ([lines[0]] + kr)[1..] == kr;
      }
    }
  }

  /** A rewrite that got through every line leaves lines it also gets
      through. */
  lemma {:induction false} KeepNoBreaks<L>(f: L -> Shape, lines: seq<L>, target: string)
    requires FirstBreak(f, lines) == |lines|
    ensures FirstBreak(f, Keep(f, lines, target)) == |Keep(f, lines, target)|
  {
    if lines != [] {
      KeepNoBreaks(f, lines[1..], target);
      var kr := Keep(f, lines[1..], target);
      if !Drops(f(lines[0]), target) {
        assert ([lines[0]] + kr)[1..] == kr;
      }
    }
  }

  // ---------------------------------------------------------------------
  // Reversal, for the loader that walks the lines from the newest

  function Reverse<T>(s: seq<T>): (r: seq<T>)
    ensures |r| == |s|
  {
    if s == [] then [] else Reverse(s[1..]) + [s[0]]
  }

  lemma ReverseCons<T>(x: T, s: seq<T>)
    ensures Reverse([x] + s) == Reverse(s) + [x]
  {
    assert ([x] + s)[1..] == s;
  }

  lemma {:induction false} ReverseSnoc<T>(s: seq<T>, x: T)
    ensures Reverse(s + [x]) == [x] + Reverse(s)
  {
    if s == [] {
      assert [x][1..] == [];
    } else {
      assert (s + [x])[1..] == s[1..] + [x];
      ReverseSnoc(s[1..], x);
    }
  }

  lemma {:induction false} ReverseTwice<T>(s: seq<T>)
    ensures Reverse(Reverse(s)) == s
  {
    if s != [] {
      ReverseTwice(s[1..]);
      ReverseSnoc(Reverse(s[1..]), s[0]);
      assert s == [s[0]] + s[1..];
    }
  }
}
