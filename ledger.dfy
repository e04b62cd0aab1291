// The deletion ledger, old-site.txt: one "<timestamp> | <url>" record per
// removed URL, appended and never rewritten except by an explicit removal
// of every record of one URL or by clearing (ie-mode.py:74-118).
//
// The file is its text (`None` when it does not exist); its lines are what
// `readlines()` returns, each keeping its '\n' terminator.
module Ledger {
  import opened Text
  import opened LedgerText
  import opened LedgerView

  const Sep: string := " | "

  /** `s.split(' | ', 1)[1]` */
  function UrlOf(s: string): (r: string)
    requires Contains(s, Sep)
    ensures s == s[..Find(s, Sep)] + Sep + r
  {
    var i := Find(s, Sep);
    assert s[i..i + 3] == Sep;
    assert s == s[..i] + s[i..i + 3] + s[i + 3..];
    s[i + 3..]
  }

  /** How one line of the file reads, in the order remove_url_from_deleted
      looks at it (ie-mode.py:105-107): first the raw line, then its
      stripped form. */
  function ShapeOf(line: string): (r: Shape)
    ensures r.Plain? <==> !Contains(line, Sep)
    ensures r.Broken? <==> Contains(line, Sep) && !Contains(Strip(line), Sep)
    ensures r.Entry? ==> r.text == Strip(line)
  {
    if !Contains(line, Sep) then Plain
    else
      var s := Strip(line);
      if !Contains(s, Sep) then Broken else Entry(UrlOf(s), s)
  }

  /** The stripped line holds " | " exactly for entries, and then the
      entry's URL is the part after the first " | ", never empty: a
      stripped line cannot end in the separator's trailing space. */
  lemma StrippedEntry(line: string)
    ensures Contains(Strip(line), Sep) <==> ShapeOf(line).Entry?
    ensures ShapeOf(line).Entry? ==>
              ShapeOf(line).text == Strip(line) && ShapeOf(line).url == UrlOf(Strip(line)) &&
              ShapeOf(line).url != []
  {
    var s := Strip(line);
    if Contains(s, Sep) {
      StripContains(line);
      UrlNonEmpty(s);
      assert ShapeOf(line) == Entry(UrlOf(s), s);
    } else {
      assert !ShapeOf(line).Entry?;
    }
  }

  /** A separator in the stripped line is one in the line. */
  lemma StripContains(line: string)
    requires Contains(Strip(line), Sep)
    ensures Contains(line, Sep)
  {
    var s := Strip(line);
    var a := |line| - |StripLeft(line)|;
    assert s == line[a..a + |s|];
    ContainsSlice(line, Sep, a, a + |s|);
  }

  /** Text not ending in whitespace has a non-empty part after " | ". */
  lemma UrlNonEmpty(s: string)
    requires Contains(s, Sep) && !IsSpace(s[|s| - 1])
    ensures UrlOf(s) != []
  {
    var i := Find(s, Sep);
    assert OccursAt(s, Sep, i);
    assert s[i + 2] == s[i..i + 3][2] == ' ';
    assert i + 3 < |s|;
  }

  /** The live view of a ledger's lines. */
  function LiveView(lines: seq<string>): seq<Record> {
    View(ShapeOf, lines)
  }

  /** A missing ledger file has an empty live view. */
  function LiveViewOf(file: Option<string>): (r: seq<Record>)
    ensures file.None? ==> r == []
  {
    if file.None? then [] else LiveView(SplitLines(file.value))
  }

  // ---------------------------------------------------------------------
  // Loading the live view

  /** load_deleted_records (ie-mode.py:74-92): walk the lines from the
      newest, keep the first record seen per URL, then reverse. */
  method LoadDeletedRecords(file: Option<string>) returns (view: seq<Record>)
    ensures view == LiveViewOf(file)
    ensures DistinctUrls(view)
  {
    if file.None? {
      return [];
    }
    var lines := SplitLines(file.value);
    var records: seq<Record> := [];
    var seen: set<string> := {};
    var i := |lines|;
    while i > 0
      invariant 0 <= i <= |lines|
      invariant records == Reverse(View(ShapeOf, lines[i..]))
      invariant seen == UrlsOf(ShapeOf, lines[i..])
    {
      i := i - 1;
      LoadStep(ShapeOf, lines, i, records, seen);
      StrippedEntry(lines[i]);
      var line := Strip(lines[i]);
      if Contains(line, Sep) {
        var url := UrlOf(line);
        if url != [] && url !in seen {
          records := records + [Record(url, line)];
          seen := seen + {url};
        }
      }
    }
    assert lines[0..] == lines;
    ReverseTwice(LiveView(lines));
    view := Reverse(records);
    ViewDistinct(ShapeOf, lines);
  }

  // ---------------------------------------------------------------------
  // Appending a record

  /** The line save_deleted_record writes (ie-mode.py:97). */
  function RecordLine(stamp: string, url: string): (r: string)
  {
    stamp + Sep + url + "\n"
  }

  /** A timestamp as `strftime("%Y-%m-%d %H:%M:%S")` formats one: it does
      not start with whitespace and holds neither '|' nor a line break. */
  predicate ValidStamp(stamp: string) {
    stamp != [] && !IsSpace(stamp[0]) && '|' !in stamp && '\n' !in stamp
  }

  /** A URL that reads back unchanged from its record line. */
  predicate ValidRecordUrl(url: string) {
    url != [] && !IsSpace(url[|url| - 1]) && '\n' !in url
  }

  /** save_deleted_record (ie-mode.py:94-97): the file is opened for
      appending and created when missing. */
  function SaveDeletedRecord(file: Option<string>, stamp: string, url: string): (r: Option<string>)
    ensures r.Some? && |Content(file)| < |r.value| && r.value[..|Content(file)|] == Content(file)
  {
    Some(Content(file) + RecordLine(stamp, url))
  }

  lemma RecordLineIsLine(stamp: string, url: string)
    requires ValidStamp(stamp) && ValidRecordUrl(url)
    ensures IsLine(RecordLine(stamp, url)) && Terminated(RecordLine(stamp, url))
  {
    var line := RecordLine(stamp, url);
    forall i | 0 <= i < |line| - 1 ensures line[i] != '\n' {
      if i < |stamp| {
        assert line[i] == stamp[i];
      } else if i >= |stamp| + 3 {
        assert line[i] == url[i - |stamp| - 3];
      }
    }
  }

  lemma RecordLineStrips(stamp: string, url: string)
    requires ValidStamp(stamp) && ValidRecordUrl(url)
    ensures Strip(RecordLine(stamp, url)) == stamp + Sep + url
  {
    var s := stamp + Sep + url;
    var line := s + "\n";
    assert line == RecordLine(stamp, url);
    assert StripLeft(line) == line;
    assert line[..|line| - 1] == s;
    assert StripRight(line) == StripRight(s);
    StripKeeps(s);
  }

  lemma RecordLineFind(stamp: string, url: string)
    requires ValidStamp(stamp)
    ensures Find(stamp + Sep + url, Sep) == |stamp|
  {
    var s := stamp + Sep + url;
    assert OccursAt(s, Sep, |stamp|) by {
      assert s[|stamp|..|stamp| + 3] == Sep;
    }
    forall k | 0 <= k < |stamp|
      ensures !OccursAt(s, Sep, k)
    {
      if k + 1 < |stamp| {
        assert s[k + 1] == stamp[k + 1] != '|';
      } else {
        assert s[k + 1] == ' ';
      }
    }
  }

  /** A record line reads back as an entry for its URL. */
  lemma RecordLineShape(stamp: string, url: string)
    requires ValidStamp(stamp) && ValidRecordUrl(url)
    ensures ShapeOf(RecordLine(stamp, url)) == Entry(url, stamp + Sep + url)
  {
    var s := stamp + Sep + url;
    var line := RecordLine(stamp, url);
    RecordLineStrips(stamp, url);
    RecordLineFind(stamp, url);
    OccursContains(s, Sep, |stamp|);
    assert s[|stamp| + 3..] == url;
    StrippedEntry(line);
  }

  /** After a record for `url` is appended to a ledger whose text ends
      with a complete line, `url` is the last entry of the live view and
      no other entry changes. */
  lemma SaveShowsLast(file: Option<string>, stamp: string, url: string)
    requires ValidStamp(stamp) && ValidRecordUrl(url)
    requires Content(file) == [] || Content(file)[|Content(file)| - 1] == '\n'
    ensures LiveViewOf(SaveDeletedRecord(file, stamp, url)) ==
            WithoutUrl(LiveViewOf(file), url) + [Record(url, stamp + Sep + url)]
  {
    var c := Content(file);
    var line := RecordLine(stamp, url);
    RecordLineShape(stamp, url);
    RecordLineIsLine(stamp, url);
    SplitLinesAppend(c, line);
    SplitOneLine(line);
    ViewAppend(ShapeOf, SplitLines(c), line);
    assert LiveViewOf(file) == LiveView(SplitLines(c));
  }

  /** A URL deleted twice, with another deleted in between: only its
      newer record is shown, in the slot of that record, after the other. */
  lemma LiveViewExample(t1: string, t2: string, t3: string, a: string, b: string)
    requires ValidStamp(t1) && ValidStamp(t2) && ValidStamp(t3)
    requires ValidRecordUrl(a) && ValidRecordUrl(b) && a != b
    ensures LiveView([RecordLine(t1, a), RecordLine(t2, b), RecordLine(t3, a)]) ==
            [Record(b, t2 + Sep + b), Record(a, t3 + Sep + a)]
  {
    RecordLineShape(t1, a);
    RecordLineShape(t2, b);
    RecordLineShape(t3, a);
    ViewOfThree(ShapeOf, RecordLine(t1, a), RecordLine(t2, b), RecordLine(t3, a),
                a, b, t1 + Sep + a, t2 + Sep + b, t3 + Sep + a);
  }

  // ---------------------------------------------------------------------
  // Removing every record of one URL, and clearing

  /** One line of the rewrite, for a line on which it does not raise. */
  lemma RemoveStep(f: string -> Shape, lines: seq<string>, i: nat, target: string, written: string)
    requires i < |lines| && written == Join(Keep(f, lines[..i], target))
    ensures Drops(f(lines[i]), target) ==> written == Join(Keep(f, lines[..i + 1], target))
    ensures !Drops(f(lines[i]), target) ==> written + lines[i] == Join(Keep(f, lines[..i + 1], target))
  {
    assert lines[..i + 1] == lines[..i] + [lines[i]];
    var k := Keep(f, lines[..i], target);
    KeepSnoc(f, lines[..i], lines[i], target);
    if Drops(f(lines[i]), target) {
      assert k + [] == k;
    } else {
      JoinSnoc(k, lines[i]);
    }
  }

  /** One line of remove_url_from_deleted's loop (ie-mode.py:104-109),
      told by the tests the code makes on it. */
  lemma RemoveLineStep(lines: seq<string>, i: nat, target: string, written: string)
    requires i < |lines| && FirstBreak(ShapeOf, lines) >= i
    requires written == Join(Keep(ShapeOf, lines[..i], target))
    ensures !Contains(lines[i], Sep) ==>
              written + lines[i] == Join(Keep(ShapeOf, lines[..i + 1], target)) && FirstBreak(ShapeOf, lines) >= i + 1
    ensures Contains(lines[i], Sep) && !Contains(Strip(lines[i]), Sep) ==> FirstBreak(ShapeOf, lines) == i
    ensures Contains(lines[i], Sep) && Contains(Strip(lines[i]), Sep) && UrlOf(Strip(lines[i])) != target ==>
              written + lines[i] == Join(Keep(ShapeOf, lines[..i + 1], target)) && FirstBreak(ShapeOf, lines) >= i + 1
    ensures Contains(lines[i], Sep) && Contains(Strip(lines[i]), Sep) && UrlOf(Strip(lines[i])) == target ==>
              written == Join(Keep(ShapeOf, lines[..i + 1], target)) && FirstBreak(ShapeOf, lines) >= i + 1
  {
    RemoveStep(ShapeOf, lines, i, target, written);
    BreakStep(ShapeOf, lines, i);
  }

  /** The ledger after a removal that does not raise. */
  function RemovedFile(file: Option<string>, target: string): (r: Option<string>)
    ensures r.None? <==> file.None?
  {
    if file.None? then None else Some(Join(Keep(ShapeOf, SplitLines(file.value), target)))
  }

  /** The text a rewrite of `lines` leaves: the lines before the first
      one on which it raises, without the entries for `target`. */
  function Rewritten(lines: seq<string>, target: string): string {
    Join(Keep(ShapeOf, lines[..FirstBreak(ShapeOf, lines)], target))
  }

  /** What remove_url_from_deleted leaves: the new file and whether it got
      through every line. A missing file is left missing. */
  function RemoveResult(file: Option<string>, target: string): (r: (Option<string>, bool))
    ensures file.None? ==> r == (None, true)
    ensures file.Some? ==> r.0.Some?
    ensures r.1 ==> r.0 == RemovedFile(file, target)
  {
    if file.None? then (None, true)
    else
      var lines := SplitLines(file.value);
      assert lines[..|lines|] == lines;
      (Some(Rewritten(lines, target)), FirstBreak(ShapeOf, lines) == |lines|)
  }

  /** On a ledger with no line it raises on, the rewrite succeeds and
      leaves the ledger without the target's entries. */
  lemma RemoveWithoutBreak(file: Option<string>, target: string)
    requires file.Some? ==> FirstBreak(ShapeOf, SplitLines(file.value)) == |SplitLines(file.value)|
    ensures RemoveResult(file, target) == (RemovedFile(file, target), true)
  {
    if file.Some? {
      var lines := SplitLines(file.value);
      assert lines[..|lines|] == lines;
    }
  }

  /** remove_url_from_deleted (ie-mode.py:99-111). The file is opened for
      writing before the loop, so a `Broken` line, on which the two-way
      unpacking raises ValueError, leaves only the lines kept before it;
      `ok` is false exactly then. */
  method RemoveUrlFromDeleted(file: Option<string>, target: string) returns (file': Option<string>, ok: bool)
    ensures file.None? ==> file' == None && ok
    ensures file.Some? ==> ok == (FirstBreak(ShapeOf, SplitLines(file.value)) == |SplitLines(file.value)|)
    ensures file.Some? ==> file' == Some(Rewritten(SplitLines(file.value), target))
  {
    if file.None? {
      return None, true;
    }
    var lines := SplitLines(file.value);
    var written := "";
    var i := 0;
    while i < |lines|
      invariant 0 <= i <= |lines|
      invariant FirstBreak(ShapeOf, lines) >= i
      invariant written == Join(Keep(ShapeOf, lines[..i], target))
    {
      var line := lines[i];
      RemoveLineStep(lines, i, target, written);
      if Contains(line, Sep) {
        var stripped := Strip(line);
        if !Contains(stripped, Sep) {
          return Some(written), false;
        }
        var url := UrlOf(stripped);
        if url != target {
          written := written + line;
        }
      } else {
        written := written + line;
      }
      i := i + 1;
    }
    assert lines[..i] == lines;
    return Some(written), true;
  }

  /** What is written back keeps the shape of `readlines()` output. */
  lemma {:induction false} KeepWellFormed(lines: seq<string>, target: string)
    requires WellFormed(lines)
    ensures WellFormed(Keep(ShapeOf, lines, target))
  {
    if lines != [] {
      var rest := lines[1..];
      assert WellFormed(rest) by {
        assert forall i :: 0 <= i < |rest| ==> rest[i] == lines[i + 1];
      }
      KeepWellFormed(rest, target);
      var kr := Keep(ShapeOf, rest, target);
      if Drops(ShapeOf(lines[0]), target) {
        assert Keep(ShapeOf, lines, target) == kr;
      } else {
        var r := [lines[0]] + kr;
        assert Keep(ShapeOf, lines, target) == r;
        assert |kr| <= |rest|;
        forall i | 0 <= i < |r| ensures IsLine(r[i]) && (i < |r| - 1 ==> Terminated(r[i])) {
          if i > 0 {
            assert r[i] == kr[i - 1];
          }
        }
      }
    }
  }

  /** Reading back what a removal wrote gives the lines it kept. */
  lemma ReadBackKept(file: Option<string>, target: string)
    requires file.Some?
    ensures SplitLines(RemovedFile(file, target).value) == Keep(ShapeOf, SplitLines(file.value), target)
  {
    var lines := SplitLines(file.value);
    SplitLinesWellFormed(file.value);
    KeepWellFormed(lines, target);
    SplitLinesJoin(Keep(ShapeOf, lines, target));
  }

  /** Removing the records of a URL twice is the same as once, and the
      second removal does not raise when the first did not. */
  lemma RemoveTwiceIsOnce(file: Option<string>, target: string)
    requires file.Some? ==> FirstBreak(ShapeOf, SplitLines(file.value)) == |SplitLines(file.value)|
    ensures RemovedFile(RemovedFile(file, target), target) == RemovedFile(file, target)
    ensures var once := RemovedFile(file, target);
            once.Some? ==> FirstBreak(ShapeOf, SplitLines(once.value)) == |SplitLines(once.value)|
  {
    if file.Some? {
      var lines := SplitLines(file.value);
      ReadBackKept(file, target);
      KeepTwice(ShapeOf, lines, target);
      KeepNoBreaks(ShapeOf, lines, target);
    }
  }

  /** remove_url_from_deleted run twice: whatever the first call left,
      also when it stopped on a malformed line, the second call gets
      through every line and leaves the file as it is. */
  lemma RemoveResultTwice(file: Option<string>, target: string)
    ensures RemoveResult(RemoveResult(file, target).0, target) == (RemoveResult(file, target).0, true)
  {
    if file.Some? {
      var lines := SplitLines(file.value);
      var pre := lines[..FirstBreak(ShapeOf, lines)];
      FirstBreakPrefix(ShapeOf, lines);
      SplitLinesWellFormed(file.value);
      assert WellFormed(pre) by {
        assert forall i :: 0 <= i < |pre| ==> pre[i] == lines[i];
      }
      var kept := Keep(ShapeOf, pre, target);
      KeepWellFormed(pre, target);
      SplitLinesJoin(kept);
      KeepTwice(ShapeOf, pre, target);
      KeepNoBreaks(ShapeOf, pre, target);
      assert kept[..|kept|] == kept;
      assert RemoveResult(file, target).0 == Some(Join(kept));
    }
  }

  /** Afterwards the live view has no entry for `target`, and every other
      entry is unchanged. */
  lemma RemovedLiveView(file: Option<string>, target: string)
    ensures LiveViewOf(RemovedFile(file, target)) == WithoutUrl(LiveViewOf(file), target)
  {
    if file.Some? {
      ReadBackKept(file, target);
      ViewKeep(ShapeOf, SplitLines(file.value), target);
    }
  }

  /** clear_all_deleted_records (ie-mode.py:113-118): an existing file is
      truncated, a missing one stays missing. */
  function ClearAll(file: Option<string>): (r: Option<string>)
    ensures r.Some? == file.Some? && Content(r) == []
    ensures LiveViewOf(r) == []
  {
    if file.Some? then Some("") else None
  }

  // ---------------------------------------------------------------------
  // Several records in a row

  /** The ledger after save_deleted_record ran for each of `urls` in turn,
      the `k`-th record stamped `stamp(k)`. */
  function AppendRecords(file: Option<string>, urls: seq<string>, stamp: nat -> string): (r: Option<string>)
    ensures urls != [] ==> r.Some?
    ensures urls == [] ==> r == file
    decreases |urls|
  {
    if urls == [] then file
    else SaveDeletedRecord(AppendRecords(file, urls[..|urls| - 1], stamp), stamp(|urls| - 1), urls[|urls| - 1])
  }

  predicate EndsLine(file: Option<string>) {
    Content(file) == [] || Content(file)[|Content(file)| - 1] == '\n'
  }

  /** The URLs the live view shows. */
  function ShownUrls(view: seq<Record>): set<string> {
    set r | r in view :: r.url
  }

  lemma ShownAfterSave(v: seq<Record>, u: string, text: string)
    ensures ShownUrls(WithoutUrl(v, u) + [Record(u, text)]) == ShownUrls(v) + {u}
  {
    var after := WithoutUrl(v, u) + [Record(u, text)];
    forall x | x in ShownUrls(v) + {u} ensures x in ShownUrls(after) {
      if x != u {
        var r :| r in v && r.url == x;
        assert r in after;
      } else {
        assert after[|after| - 1] in after;
      }
    }
  }

  lemma SaveEndsLine(file: Option<string>, stamp: string, url: string)
    ensures EndsLine(SaveDeletedRecord(file, stamp, url))
  {
    var c := Content(SaveDeletedRecord(file, stamp, url));
    assert c == Content(file) + (stamp + Sep + url) + "\n";
  }

  function UrlSet(urls: seq<string>): set<string> {
    set u | u in urls
  }

  lemma LastIndexSet(urls: seq<string>)
    requires urls != []
    ensures UrlSet(urls) == UrlSet(urls[..|urls| - 1]) + {urls[|urls| - 1]}
  {
    assert urls == urls[..|urls| - 1] + [urls[|urls| - 1]];
  }

  /** A saved record's URL joins the URLs the live view shows. */
  lemma SaveAddsShown(file: Option<string>, stamp: string, url: string)
    requires EndsLine(file) && ValidStamp(stamp) && ValidRecordUrl(url)
    ensures EndsLine(SaveDeletedRecord(file, stamp, url))
    ensures ShownUrls(LiveViewOf(SaveDeletedRecord(file, stamp, url))) == ShownUrls(LiveViewOf(file)) + {url}
  {
    SaveShowsLast(file, stamp, url);
    SaveEndsLine(file, stamp, url);
    ShownAfterSave(LiveViewOf(file), url, stamp + Sep + url);
  }

  /** Every URL recorded in a row is shown by the live view afterwards,
      and so is every URL shown before. */
  lemma {:induction false} AppendRecordsShowsAll(file: Option<string>, urls: seq<string>, stamp: nat -> string)
    requires EndsLine(file)
    requires forall k :: 0 <= k < |urls| ==> ValidStamp(stamp(k)) && ValidRecordUrl(urls[k])
    ensures EndsLine(AppendRecords(file, urls, stamp))
    ensures ShownUrls(LiveViewOf(AppendRecords(file, urls, stamp))) ==
            ShownUrls(LiveViewOf(file)) + UrlSet(urls)
    decreases |urls|
  {
    if urls != [] {
      var init := urls[..|urls| - 1];
      assert forall k :: 0 <= k < |init| ==> init[k] == urls[k];
      AppendRecordsShowsAll(file, init, stamp);
      AppendShowsLast(file, urls, stamp);
    }
  }

  /** The last append of a row adds its URL to what the view shows. */
  lemma AppendShowsLast(file: Option<string>, urls: seq<string>, stamp: nat -> string)
    requires urls != []
    requires ValidStamp(stamp(|urls| - 1)) && ValidRecordUrl(urls[|urls| - 1])
    requires EndsLine(AppendRecords(file, urls[..|urls| - 1], stamp))
    requires ShownUrls(LiveViewOf(AppendRecords(file, urls[..|urls| - 1], stamp))) ==
             ShownUrls(LiveViewOf(file)) + UrlSet(urls[..|urls| - 1])
    ensures EndsLine(AppendRecords(file, urls, stamp))
    ensures ShownUrls(LiveViewOf(AppendRecords(file, urls, stamp))) ==
            ShownUrls(LiveViewOf(file)) + UrlSet(urls)
  {
    var n := |urls| - 1;
    var before := AppendRecords(file, urls[..n], stamp);
    assert AppendRecords(file, urls, stamp) == SaveDeletedRecord(before, stamp(n), urls[n]);
    SaveAddsShown(before, stamp(n), urls[n]);
    LastIndexSet(urls);
  }

  /** Every URL the live view shows is a non-empty string. */
  lemma LiveViewUrlsNonEmpty(file: Option<string>)
    ensures forall k :: 0 <= k < |LiveViewOf(file)| ==> LiveViewOf(file)[k].url != ""
  {
    if file.Some? {
      var lines := SplitLines(file.value);
      PositionsEntries(ShapeOf, lines);
      var v, ps := View(ShapeOf, lines), Positions(ShapeOf, lines);
      forall k | 0 <= k < |v| ensures v[k].url != "" {
        StrippedEntry(lines[ps[k]]);
      }
    }
  }
}
