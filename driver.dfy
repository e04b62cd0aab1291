// The editing session of `main` (ie-mode.py:446-504): the list read from
// the site list document, the deletion ledger and its live view, the
// user's actions in turn, then saving.
module Driver {
  import opened Text
  import opened ListModel
  import opened LedgerText
  import opened LedgerView
  import opened Ledger
  import opened SiteList
  import opened PolicyMirror

  /** One menu action with everything the user types for it; `stamp(k)`
      is the time the `k`-th record of a deletion is written at. */
  datatype Action =
    | Add(inputs: seq<string>)
    | Delete(choice: string, stamp: nat -> string)
    | Manage(replies: seq<string>)

  predicate NonEmptyUrls(urls: seq<string>) {
    forall k :: 0 <= k < |urls| ==> urls[k] != ""
  }

  /** How one round of the restore prompt ends: the function returns, or
      it asks again after `used` replies were read. */
  datatype Round =
    | Stop(urls: seq<string>, file: Option<string>)
    | Again(urls: seq<string>, file: Option<string>, used: nat)

  /** Options 1 (restore) and 2 (forget) once the position reply was read
      as `pos`. A position that is not a number asks again; one outside
      the list returns unchanged; restoring a URL already in the list
      returns unchanged; otherwise 1 appends the URL, both rewrite the
      ledger without it, and the function returns, unless the rewrite
      raised, which asks again. */
  function Pick(urls: seq<string>, file: Option<string>, view: seq<Record>, c: int, pos: Option<int>): (r: Round)
    ensures r.Again? ==> r.used == 2
    ensures pos.Some? && !(0 <= pos.value - 1 < |view|) ==> r == Stop(urls, file)
  {
    match pos
    case None => Again(urls, file, 2)
    case Some(n) =>
      if 0 <= n - 1 < |view| then
        var url := view[n - 1].url;
        if c == 1 && url in urls then Stop(urls, file)
        else
          var urls' := if c == 1 then urls + [url] else urls;
          var removed := RemoveResult(file, url);
          if removed.1 then Stop(urls', removed.0) else Again(urls', removed.0, 2)
      else Stop(urls, file)
  }

  /** One round of restore_from_deleted's prompt loop (ie-mode.py:226-262):
      a reply that is not a number asks again; 0 returns; 1 and 2 read a
      position; 3 reads a confirmation and clears the ledger on 'y', then
      returns; any other number asks again. Running out of replies
      returns. */
  function ManageRound(urls: seq<string>, file: Option<string>, view: seq<Record>, replies: seq<string>): (r: Round)
    requires replies != []
    ensures r.Again? ==> 1 <= r.used <= |replies|
    ensures ParseInt(replies[0]) == Some(0) ==> r == Stop(urls, file)
  {
    RoundOn(urls, file, view, ParseInt(replies[0]), replies)
  }

  /** The round once the option reply was read as `choice`. */
  function RoundOn(urls: seq<string>, file: Option<string>, view: seq<Record>, choice: Option<int>, replies: seq<string>): (r: Round)
    requires replies != []
    ensures r.Again? ==> 1 <= r.used <= |replies|
    ensures choice == Some(0) ==> r == Stop(urls, file)
    ensures choice.None? ==> r == Again(urls, file, 1)
  {
    match choice
    case None => Again(urls, file, 1)
    case Some(c) =>
      if c == 0 then Stop(urls, file)
      else if c == 1 || c == 2 then
        if |replies| == 1 then Stop(urls, file)
        else Pick(urls, file, view, c, ParseInt(replies[1]))
      else if c == 3 then
        if |replies| == 1 then Stop(urls, file)
        else Stop(urls, if LowerIs(Strip(replies[1]), "y") then ClearAll(file) else file)
      else Again(urls, file, 1)
  }

  /** restore_from_deleted (ie-mode.py:212-264), `view` being the records
      listed when it was entered: nothing to manage returns at once,
      otherwise rounds follow each other until one returns. */
  function ManageFrom(urls: seq<string>, file: Option<string>, view: seq<Record>, replies: seq<string>): (r: (seq<string>, Option<string>))
    ensures replies == [] || view == [] ==> r == (urls, file)
    decreases |replies|
  {
    if view == [] || replies == [] then (urls, file)
    else match ManageRound(urls, file, view, replies)
      case Stop(u, f) => (u, f)
      case Again(u, f, k) => ManageFrom(u, f, view, replies[k..])
  }

  /** What one action does to the list and the ledger. The live view the
      manage action works from is the one loaded after the previous
      action. */
  function Step(urls: seq<string>, file: Option<string>, a: Action): (r: (seq<string>, Option<string>))
    ensures a.Add? ==> r.1 == file
    ensures a.Delete? && DeleteOutcome(urls, a.choice).1 == [] ==> r.1 == file
  {
    match a
    case Add(inputs) => (AddSession(urls, inputs), file)
    case Delete(choice, stamp) =>
      var o := DeleteOutcome(urls, choice);
      (o.0, AppendRecords(file, o.1, stamp))
    case Manage(replies) => ManageFrom(urls, file, LiveViewOf(file), replies)
  }

  /** The list and the ledger after the actions, in order. */
  function RunFrom(urls: seq<string>, file: Option<string>, actions: seq<Action>): (r: (seq<string>, Option<string>))
    ensures (forall k :: 0 <= k < |actions| ==> actions[k].Add?) ==> r.1 == file
    decreases |actions|
  {
    if actions == [] then (urls, file)
    else
      var next := Step(urls, file, actions[0]);
      RunFrom(next.0, next.1, actions[1..])
  }

  // ---------------------------------------------------------------------
  // The decisions of the manage prompt

  /** Options 1 and 2 on a listed record, when restoring does not find
      the URL in the list and the ledger has no line the rewrite raises on. */
  lemma PickRemoves(urls: seq<string>, file: Option<string>, view: seq<Record>, c: int, n: int)
    requires c == 1 || c == 2
    requires 0 <= n - 1 < |view| && !(c == 1 && view[n - 1].url in urls)
    requires file.Some? ==> FirstBreak(ShapeOf, SplitLines(file.value)) == |SplitLines(file.value)|
    ensures Pick(urls, file, view, c, Some(n)) ==
            Stop(if c == 1 then urls + [view[n - 1].url] else urls, RemovedFile(file, view[n - 1].url))
  {
    RemoveWithoutBreak(file, view[n - 1].url);
  }

  /** When option 1 or 2 settles in the first round, that round's result
      is the prompt's. */
  lemma PickSettles(urls: seq<string>, file: Option<string>, view: seq<Record>, r0: string, r1: string, rest: seq<string>)
    requires view != []
    requires ParseInt(r0) == Some(1) || ParseInt(r0) == Some(2)
    requires Pick(urls, file, view, ParseInt(r0).value, ParseInt(r1)).Stop?
    ensures ManageFrom(urls, file, view, [r0, r1] + rest) ==
            (Pick(urls, file, view, ParseInt(r0).value, ParseInt(r1)).urls,
             Pick(urls, file, view, ParseInt(r0).value, ParseInt(r1)).file)
  {
    var replies := [r0, r1] + rest;
    assert replies[0] == r0 && replies[1] == r1;
    assert ManageRound(urls, file, view, replies) == Pick(urls, file, view, ParseInt(r0).value, ParseInt(r1));
  }

  /** Restoring a listed URL that is not in the list appends it and drops
      its records from the ledger. */
  lemma RestoreAppends(urls: seq<string>, file: Option<string>, view: seq<Record>, r0: string, r1: string, rest: seq<string>)
    requires ParseInt(r0) == Some(1)
    requires ParseInt(r1).Some? && 0 <= ParseInt(r1).value - 1 < |view|
    requires view[ParseInt(r1).value - 1].url !in urls
    requires file.Some? ==> FirstBreak(ShapeOf, SplitLines(file.value)) == |SplitLines(file.value)|
    ensures ManageFrom(urls, file, view, [r0, r1] + rest) ==
            (urls + [view[ParseInt(r1).value - 1].url], RemovedFile(file, view[ParseInt(r1).value - 1].url))
    ensures LiveViewOf(RemovedFile(file, view[ParseInt(r1).value - 1].url)) ==
            WithoutUrl(LiveViewOf(file), view[ParseInt(r1).value - 1].url)
  {
    var n := ParseInt(r1).value;
    PickRemoves(urls, file, view, 1, n);
    PickSettles(urls, file, view, r0, r1, rest);
    RemovedLiveView(file, view[n - 1].url);
  }

  /** Restoring a URL already in the list changes nothing. */
  lemma RestorePresent(urls: seq<string>, file: Option<string>, view: seq<Record>, r0: string, r1: string, rest: seq<string>)
    requires ParseInt(r0) == Some(1)
    requires ParseInt(r1).Some? && 0 <= ParseInt(r1).value - 1 < |view|
    requires view[ParseInt(r1).value - 1].url in urls
    ensures ManageFrom(urls, file, view, [r0, r1] + rest) == (urls, file)
  {
    assert Pick(urls, file, view, 1, ParseInt(r1)) == Stop(urls, file);
    PickSettles(urls, file, view, r0, r1, rest);
  }

  /** A position outside the listed records changes nothing, for restoring
      and for forgetting alike. */
  lemma PositionOutOfRange(urls: seq<string>, file: Option<string>, view: seq<Record>, r0: string, r1: string, rest: seq<string>)
    requires view != []
    requires ParseInt(r0) == Some(1) || ParseInt(r0) == Some(2)
    requires ParseInt(r1).Some? && !(0 <= ParseInt(r1).value - 1 < |view|)
    ensures ManageFrom(urls, file, view, [r0, r1] + rest) == (urls, file)
  {
    PickSettles(urls, file, view, r0, r1, rest);
  }

  /** Forgetting a listed URL drops its records and leaves the list alone. */
  lemma ForgetOne(urls: seq<string>, file: Option<string>, view: seq<Record>, r0: string, r1: string, rest: seq<string>)
    requires ParseInt(r0) == Some(2)
    requires ParseInt(r1).Some? && 0 <= ParseInt(r1).value - 1 < |view|
    requires file.Some? ==> FirstBreak(ShapeOf, SplitLines(file.value)) == |SplitLines(file.value)|
    ensures ManageFrom(urls, file, view, [r0, r1] + rest) ==
            (urls, RemovedFile(file, view[ParseInt(r1).value - 1].url))
  {
    PickRemoves(urls, file, view, 2, ParseInt(r1).value);
    PickSettles(urls, file, view, r0, r1, rest);
  }

  /** Confirming the clear empties the live view and keeps the list. */
  lemma ClearConfirmed(urls: seq<string>, file: Option<string>, view: seq<Record>, r0: string, r1: string, rest: seq<string>)
    requires view != []
    requires ParseInt(r0) == Some(3) && LowerIs(Strip(r1), "y")
    ensures ManageFrom(urls, file, view, [r0, r1] + rest).0 == urls
    ensures LiveViewOf(ManageFrom(urls, file, view, [r0, r1] + rest).1) == []
  {
    var replies := [r0, r1] + rest;
    assert replies[0] == r0 && replies[1] == r1;
    assert ManageRound(urls, file, view, replies) == Stop(urls, ClearAll(file));
  }

  /** The list grows only at its end, and only by URLs the view listed. */
  predicate GrowsFrom(urls: seq<string>, r: seq<string>, view: seq<Record>) {
    |urls| <= |r| && r[..|urls|] == urls &&
    forall k :: |urls| <= k < |r| ==> r[k] in ShownUrls(view)
  }

  lemma GrowsTrans(a: seq<string>, b: seq<string>, c: seq<string>, view: seq<Record>)
    requires GrowsFrom(a, b, view) && GrowsFrom(b, c, view)
    ensures GrowsFrom(a, c, view)
  {
    assert c[..|a|] == c[..|b|][..|a|];
    forall k | |a| <= k < |c| ensures c[k] in ShownUrls(view) {
      if k < |b| {
        assert c[k] == c[..|b|][k] == b[k];
      }
    }
  }

  lemma PickGrows(urls: seq<string>, file: Option<string>, view: seq<Record>, c: int, pos: Option<int>)
    ensures GrowsFrom(urls, Pick(urls, file, view, c, pos).urls, view)
    ensures NoDup(urls) ==> NoDup(Pick(urls, file, view, c, pos).urls)
  {
    assert urls[..|urls|] == urls;
    if pos.Some? && 0 <= pos.value - 1 < |view| && c == 1 {
      var url := view[pos.value - 1].url;
      assert view[pos.value - 1] in view;
      assert (urls + [url])[..|urls|] == urls;
    }
  }

  /** A round changes the list only through options 1 and 2. */
  lemma RoundKeepsOrPicks(urls: seq<string>, file: Option<string>, view: seq<Record>, replies: seq<string>)
    requires replies != []
    ensures ManageRound(urls, file, view, replies).urls == urls ||
            (|replies| > 1 && ParseInt(replies[0]).Some? &&
             ManageRound(urls, file, view, replies) == Pick(urls, file, view, ParseInt(replies[0]).value, ParseInt(replies[1])))
  {
    var p := ParseInt(replies[0]);
    assert ManageRound(urls, file, view, replies) == RoundOn(urls, file, view, p, replies);
    RoundOnKeepsOrPicks(urls, file, view, p, replies);
  }

  lemma RoundOnKeepsOrPicks(urls: seq<string>, file: Option<string>, view: seq<Record>, p: Option<int>, replies: seq<string>)
    requires replies != []
    ensures RoundOn(urls, file, view, p, replies).urls == urls ||
            (|replies| > 1 && p.Some? &&
             RoundOn(urls, file, view, p, replies) == Pick(urls, file, view, p.value, ParseInt(replies[1])))
  {
    var r := RoundOn(urls, file, view, p, replies);
    if p.None? {
      assert r == Again(urls, file, 1);
    } else if (p.value == 1 || p.value == 2) && |replies| > 1 {
      assert r == Pick(urls, file, view, p.value, ParseInt(replies[1]));
    } else {
      assert r.urls == urls;
    }
  }

  lemma RoundGrows(urls: seq<string>, file: Option<string>, view: seq<Record>, replies: seq<string>)
    requires replies != []
    ensures GrowsFrom(urls, ManageRound(urls, file, view, replies).urls, view)
    ensures NoDup(urls) ==> NoDup(ManageRound(urls, file, view, replies).urls)
  {
    assert urls[..|urls|] == urls;
    RoundKeepsOrPicks(urls, file, view, replies);
    if |replies| > 1 && ParseInt(replies[0]).Some? {
      PickGrows(urls, file, view, ParseInt(replies[0]).value, ParseInt(replies[1]));
    }
  }

  /** Managing the ledger only appends URLs the view listed, and never one
      already in the list. */
  lemma {:induction false} ManageGrows(urls: seq<string>, file: Option<string>, view: seq<Record>, replies: seq<string>)
    ensures GrowsFrom(urls, ManageFrom(urls, file, view, replies).0, view)
    ensures NoDup(urls) ==> NoDup(ManageFrom(urls, file, view, replies).0)
    decreases |replies|
  {
    assert urls[..|urls|] == urls;
    if view != [] && replies != [] {
      var round := ManageRound(urls, file, view, replies);
      RoundGrows(urls, file, view, replies);
      if round.Again? {
        ManageGrows(round.urls, round.file, view, replies[round.used..]);
        GrowsTrans(urls, round.urls, ManageFrom(round.urls, round.file, view, replies[round.used..]).0, view);
      }
    }
  }

  // ---------------------------------------------------------------------
  // Whole sessions

  lemma AppendsOneNonEmpty(urls: seq<string>, r: seq<string>)
    requires AppendsOne(urls, r) && NonEmptyUrls(urls)
    ensures NonEmptyUrls(r)
  {
    if r != urls {
      var n := |urls|;
      assert HasScheme(r[n]) && r[..n] == urls;
      assert r[n] != "" by {
        assert |"http://"| == 7;
      }
      forall k | 0 <= k < |r| ensures r[k] != "" {
        if k < n {
          assert r[k] == r[..n][k];
        }
      }
    }
  }

  lemma AddKeeps(urls: seq<string>, inputs: seq<string>)
    ensures NoDup(urls) ==> NoDup(AddSession(urls, inputs))
    ensures NonEmptyUrls(urls) ==> NonEmptyUrls(AddSession(urls, inputs))
  {
    AddSessionAppendsOnce(urls, inputs);
    if NoDup(urls) {
      AddSessionKeepsNoDup(urls, inputs);
    }
    if NonEmptyUrls(urls) {
      AppendsOneNonEmpty(urls, AddSession(urls, inputs));
    }
  }

  lemma DeleteKeeps(urls: seq<string>, choice: string)
    ensures NonEmptyUrls(urls) ==> NonEmptyUrls(DeleteOutcome(urls, choice).0)
  {
    var r := DeleteOutcome(urls, choice).0;
    if NonEmptyUrls(urls) {
      forall k | 0 <= k < |r| ensures r[k] != "" {
        assert r[k] in multiset(r);
        assert r[k] in multiset(urls);
      }
    }
  }

  lemma ManageKeeps(urls: seq<string>, file: Option<string>, replies: seq<string>)
    ensures NoDup(urls) ==> NoDup(ManageFrom(urls, file, LiveViewOf(file), replies).0)
    ensures NonEmptyUrls(urls) ==> NonEmptyUrls(ManageFrom(urls, file, LiveViewOf(file), replies).0)
  {
    var view := LiveViewOf(file);
    var r := ManageFrom(urls, file, view, replies).0;
    ManageGrows(urls, file, view, replies);
    LiveViewUrlsNonEmpty(file);
    if NonEmptyUrls(urls) {
      forall k | 0 <= k < |r| ensures r[k] != "" {
        if k < |urls| {
          assert r[k] == r[..|urls|][k];
        } else {
          assert r[k] in ShownUrls(view);
        }
      }
    }
  }

  lemma StepKeeps(urls: seq<string>, file: Option<string>, a: Action)
    ensures NoDup(urls) ==> NoDup(Step(urls, file, a).0)
    ensures NonEmptyUrls(urls) ==> NonEmptyUrls(Step(urls, file, a).0)
  {
    match a
    case Add(inputs) => AddKeeps(urls, inputs);
    case Delete(choice, stamp) => DeleteKeeps(urls, choice);
    case Manage(replies) => ManageKeeps(urls, file, replies);
  }

  /** A session keeps the list free of duplicates and of empty URLs. */
  lemma {:induction false} RunKeeps(urls: seq<string>, file: Option<string>, actions: seq<Action>)
    ensures NoDup(urls) ==> NoDup(RunFrom(urls, file, actions).0)
    ensures NonEmptyUrls(urls) ==> NonEmptyUrls(RunFrom(urls, file, actions).0)
    decreases |actions|
  {
    if actions != [] {
      var next := Step(urls, file, actions[0]);
      StepKeeps(urls, file, actions[0]);
      RunKeeps(next.0, next.1, actions[1..]);
    }
  }

  lemma AppendRecordsSnoc(file: Option<string>, urls: seq<string>, k: nat, stamp: nat -> string)
    requires k < |urls|
    ensures AppendRecords(file, urls[..k + 1], stamp) ==
            SaveDeletedRecord(AppendRecords(file, urls[..k], stamp), stamp(k), urls[k])
  {
    assert urls[..k + 1][..k] == urls[..k];
  }

  /** The choice handling of delete_urls (ie-mode.py:179-205): an empty
      list or a choice naming no position removes nothing; 'all' (in any
      case) removes everything; otherwise the chosen positions are popped
      from the highest down, an out-of-range one skipped. Returns the list
      left and the URLs removed, in the order they were popped. */
  method ChooseDeletions(urls: seq<string>, choice: string) returns (kept: seq<string>, removed: seq<string>)
    ensures (kept, removed) == DeleteOutcome(urls, choice)
  {
    if urls == [] {
      return urls, [];
    }
    var c := Strip(choice);
    if LowerIs(c, "all") {
      return [], urls;
    }
    var indices := ParseIndices(c);
    if indices == [] {
      return urls, [];
    }
    kept, removed := PopInOrder(urls, SortDescending(indices));
  }

  /** The popping loop of delete_urls (ie-mode.py:201-204): each position
      in turn, one outside the current list skipped. */
  method PopInOrder(urls: seq<string>, order: seq<int>) returns (kept: seq<string>, removed: seq<string>)
    ensures (kept, removed) == PopEach(urls, order)
  {
    kept, removed := urls, [];
    var j := 0;
    assert order[j..] == order;
    assert removed + PopEach(kept, order).1 == PopEach(kept, order).1;
    while j < |order|
      invariant 0 <= j <= |order|
      invariant PopEach(urls, order) == (PopEach(kept, order[j..]).0, removed + PopEach(kept, order[j..]).1)
    {
      ghost var rest := PopEach(kept, order[j..]);
      assert order[j..][0] == order[j] && order[j..][1..] == order[j + 1..];
      var idx := order[j];
      if 0 <= idx < |kept| {
        ghost var after := PopEach(kept[..idx] + kept[idx + 1..], order[j + 1..]);
        assert rest == (after.0, [kept[idx]] + after.1);
        assert removed + rest.1 == (removed + [kept[idx]]) + after.1;
        removed := removed + [kept[idx]];
        kept := kept[..idx] + kept[idx + 1..];
      } else {
        assert rest == PopEach(kept, order[j + 1..]);
      }
      j := j + 1;
    }
    assert order[j..] == [] && removed + [] == removed;
  }

  class Session {
    /** current_urls */
    var urls: seq<string>
    /** old-site.txt */
    var ledger: Option<string>
    /** deleted_records: the live view as last loaded */
    var deleted: seq<Record>

    /** The start of `main` (ie-mode.py:457-458): the list is read from the
        document and the live view from the ledger. */
    constructor (doc: DocFile, file: Option<string>)
      ensures urls == ParseXml(doc) && ledger == file && deleted == LiveViewOf(file)
    {
      var view := LoadDeletedRecords(file);
      urls := ParseXml(doc);
      ledger := file;
      deleted := view;
    }

    /** add_new_url (ie-mode.py:146-177): read lines until one is accepted
        or 'back' is typed. */
    method AddNewUrl(inputs: seq<string>)
      modifies this
      ensures urls == AddSession(old(urls), inputs)
      ensures ledger == old(ledger) && deleted == old(deleted)
    {
      var current := urls;
      var i := 0;
      while i < |inputs|
        invariant 0 <= i <= |inputs|
        invariant current == urls == old(urls) && ledger == old(ledger) && deleted == old(deleted)
        invariant AddSession(current, inputs) == AddSession(current, inputs[i..])
      {
        assert inputs[i..][0] == inputs[i] && inputs[i..][1..] == inputs[i + 1..];
        AddSessionStep(current, inputs[i..]);
        var attempt := AddAttempt(current, inputs[i]);
        if attempt.Back? {
          return;
        } else if attempt.Accept? {
          urls := current + [attempt.url];
          return;
        }
        i := i + 1;
      }
    }

    /** delete_urls (ie-mode.py:179-210): the chosen entries leave the
        list, then one ledger record per removed URL is appended, the
        `k`-th stamped `stamp(k)`. */
    method DeleteUrls(choice: string, stamp: nat -> string)
      modifies this
      ensures urls == DeleteOutcome(old(urls), choice).0
      ensures ledger == AppendRecords(old(ledger), DeleteOutcome(old(urls), choice).1, stamp)
      ensures deleted == old(deleted)
    {
      var kept, toDelete := ChooseDeletions(urls, choice);
      var written := ledger;
      var k := 0;
      assert toDelete[..k] == [];
      while k < |toDelete|
        invariant 0 <= k <= |toDelete|
        invariant written == AppendRecords(old(ledger), toDelete[..k], stamp)
        invariant urls == old(urls) && ledger == old(ledger) && deleted == old(deleted)
      {
        AppendRecordsSnoc(old(ledger), toDelete, k, stamp);
        written := SaveDeletedRecord(written, stamp(k), toDelete[k]);
        k := k + 1;
      }
      assert toDelete[..k] == toDelete;
      urls := kept;
      ledger := written;
    }

    /** restore_from_deleted (ie-mode.py:212-264), working from the live
        view loaded before it was entered. */
    method Manage(replies: seq<string>)
      modifies this
      ensures (urls, ledger) == ManageFrom(old(urls), old(ledger), old(deleted), replies)
      ensures deleted == old(deleted)
    {
      if deleted == [] {
        return;
      }
      var i := 0;
      while i < |replies|
        invariant 0 <= i <= |replies|
        invariant deleted == old(deleted)
        invariant ManageFrom(old(urls), old(ledger), deleted, replies) == ManageFrom(urls, ledger, deleted, replies[i..])
        decreases |replies| - i
      {
        ghost var rs := replies[i..];
        ghost var round := ManageRound(urls, ledger, deleted, rs);
        assert rs[0] == replies[i];
        var sub := ParseInt(replies[i]);
        if sub.None? {
          assert rs[1..] == replies[i + 1..];
          i := i + 1;
          continue;
        }
        var c := sub.value;
        if c == 0 {
          return;
        }
        if c == 1 || c == 2 {
          if i + 1 == |replies| {
            return;
          }
          assert rs[1] == replies[i + 1] && rs[2..] == replies[i + 2..];
          var pos := ParseInt(replies[i + 1]);
          assert round == Pick(urls, ledger, deleted, c, pos);
          var again := PickRecord(c, pos);
          if again {
            i := i + 2;
            continue;
          }
          return;
        }
        if c == 3 {
          if i + 1 == |replies| {
            return;
          }
          assert rs[1] == replies[i + 1];
          if LowerIs(Strip(replies[i + 1]), "y") {
            ledger := ClearAll(ledger);
          }
          return;
        }
        assert rs[1..] == replies[i + 1..];
        i := i + 1;
      }
    }

    /** Options 1 and 2 of the restore prompt once the position was read
        (ie-mode.py:230-252); `again` tells whether the prompt asks again. */
    method PickRecord(c: int, pos: Option<int>) returns (again: bool)
      modifies this
      ensures (if again then Again(urls, ledger, 2) else Stop(urls, ledger)) ==
              Pick(old(urls), old(ledger), deleted, c, pos)
      ensures deleted == old(deleted)
    {
      ghost var round := Pick(urls, ledger, deleted, c, pos);
      if pos.None? {
        return true;
      }
      var idx := pos.value - 1;
      if !(0 <= idx < |deleted|) {
        return false;
      }
      var url := deleted[idx].url;
      if c == 1 && url in urls {
        return false;
      }
      ghost var removed := RemoveResult(ledger, url);
      assert round == (if removed.1 then Stop(if c == 1 then urls + [url] else urls, removed.0)
                       else Again(if c == 1 then urls + [url] else urls, removed.0, 2));
      if c == 1 {
        urls := urls + [url];
      }
      var file', ok := RemoveUrlFromDeleted(ledger, url);
      assert (file', ok) == removed;
      ledger := file';
      again := !ok;
    }

    /** `deleted_records = load_deleted_records(...)` after every action. */
    method Reload()
      modifies this
      ensures deleted == LiveViewOf(ledger)
      ensures urls == old(urls) && ledger == old(ledger)
    {
      deleted := LoadDeletedRecords(ledger);
    }

    /** The action loop of `main` (ie-mode.py:466-486): each action in
        turn, the live view reloaded after each. */
    method Edit(actions: seq<Action>)
      requires deleted == LiveViewOf(ledger)
      modifies this
      ensures (urls, ledger) == RunFrom(old(urls), old(ledger), actions)
      ensures deleted == LiveViewOf(ledger)
    {
      var i := 0;
      while i < |actions|
        invariant 0 <= i <= |actions|
        invariant deleted == LiveViewOf(ledger)
        invariant RunFrom(old(urls), old(ledger), actions) == RunFrom(urls, ledger, actions[i..])
      {
        ghost var next := Step(urls, ledger, actions[i]);
        assert actions[i..][0] == actions[i] && actions[i..][1..] == actions[i + 1..];
        assert RunFrom(urls, ledger, actions[i..]) == RunFrom(next.0, next.1, actions[i + 1..]);
        match actions[i] {
          case Add(inputs) =>
            AddNewUrl(inputs);
          case Delete(choice, stamp) =>
            DeleteUrls(choice, stamp);
          case Manage(replies) =>
            Manage(replies);
        }
        assert (urls, ledger) == next;
        Reload();
        i := i + 1;
      }
    }

    /** `main` from the first action to the end (ie-mode.py:466-504): the
        actions, then saving the list and pointing the policy at it. The
        saved document reads back as the final list. */
    method Run(actions: seq<Action>, host: Host, version: string, outcomes: Outcomes)
      requires deleted == LiveViewOf(ledger)
      modifies this, host
      ensures (urls, ledger) == RunFrom(old(urls), old(ledger), actions)
      ensures urls != [] ==> host.document == Present(BuildSiteList(urls, version))
      ensures urls != [] ==>
                host.policy == WithSiteList(old(host.policy), XmlPath, outcomes.siteListAdded, outcomes.levelAdded)
      ensures urls == [] ==>
                host.document == Missing &&
                host.policy == WithoutDeleted(old(host.policy), outcomes.siteListDeleted, outcomes.levelDeleted)
      ensures NonEmptyUrls(old(urls)) ==> ParseXml(host.document) == urls
      ensures NoDup(old(urls)) ==> NoDup(urls)
    {
      Edit(actions);
      RunKeeps(old(urls), old(ledger), actions);
      host.Finalize(urls, version, outcomes);
      if urls != [] && NonEmptyUrls(old(urls)) {
        RoundTrip(urls, version);
      }
    }
  }
}
