// The machine state the editor converges when the user finishes: the site
// list document and the two Edge policy values under
// HKLM\SOFTWARE\Policies\Microsoft\Edge, plus the registry backup
// (ie-mode.py:266-337 and 488-504). Whether each `reg` command succeeds is
// an input: the commands themselves run outside the program.
module PolicyMirror {
  import opened Text
  import opened SiteList

  /** A registry value of the policy key. */
  datatype RegValue = Sz(s: string) | Dword(n: int)

  const SiteListValue: string := "InternetExplorerIntegrationSiteList"
  const LevelValue: string := "InternetExplorerIntegrationLevel"

  /** `ie_mode_registry_backup.reg`, next to the site list. */
  const BackupPath: string := @"C:\ProgramData\Microsoft\Edge\ie_mode_registry_backup.reg"

  /** The outcome of each external command `main` may run while finishing:
      the two `reg add`s and the `reg export` of a non-empty list, and the
      two `reg delete`s of an empty one. */
  datatype Outcomes = Outcomes(siteListAdded: bool, levelAdded: bool, exported: bool,
                               siteListDeleted: bool, levelDeleted: bool)

  /** The policy with `SiteList` pointing at `path` and IE mode level 1
      (IE mode), each value written only when its `reg add` succeeded. */
  function WithSiteList(policy: map<string, RegValue>, path: string, ok1: bool, ok2: bool): (p: map<string, RegValue>)
    ensures SiteListValue in p && p[SiteListValue] == Sz(path) <== ok1
    ensures LevelValue in p && p[LevelValue] == Dword(1) <== ok2
    ensures !ok1 ==> (SiteListValue in p <==> SiteListValue in policy) &&
                     (SiteListValue in policy ==> p[SiteListValue] == policy[SiteListValue])
    ensures !ok2 ==> (LevelValue in p <==> LevelValue in policy) &&
                     (LevelValue in policy ==> p[LevelValue] == policy[LevelValue])
    ensures forall k :: k != SiteListValue && k != LevelValue ==> (k in p <==> k in policy)
    ensures forall k :: k in p && k != SiteListValue && k != LevelValue ==> p[k] == policy[k]
  {
    var p1 := if ok1 then policy[SiteListValue := Sz(path)] else policy;
    if ok2 then p1[LevelValue := Dword(1)] else p1
  }

  /** The policy with both IE mode values gone and every other value kept. */
  function WithoutIeMode(policy: map<string, RegValue>): (p: map<string, RegValue>)
    ensures SiteListValue !in p && LevelValue !in p
    ensures forall k :: k != SiteListValue && k != LevelValue ==> (k in p <==> k in policy)
    ensures forall k :: k in p ==> k in policy && p[k] == policy[k]
  {
    policy - {SiteListValue, LevelValue}
  }

  /** The policy after the two `reg delete` commands: a value is gone when
      its delete succeeded and kept as it was when the delete failed. */
  function WithoutDeleted(policy: map<string, RegValue>, ok1: bool, ok2: bool): (p: map<string, RegValue>)
    ensures ok1 ==> SiteListValue !in p
    ensures ok2 ==> LevelValue !in p
    ensures !ok1 ==> (SiteListValue in p <==> SiteListValue in policy)
    ensures !ok2 ==> (LevelValue in p <==> LevelValue in policy)
    ensures forall k :: k in p ==> k in policy && p[k] == policy[k]
    ensures forall k :: k in policy && k != SiteListValue && k != LevelValue ==> k in p
  {
    var p1 := if ok1 then policy - {SiteListValue} else policy;
    if ok2 then p1 - {LevelValue} else p1
  }

  /** When both deletes succeed the IE mode values are gone, whether or
      not they were there before. */
  lemma DeletedBoth(policy: map<string, RegValue>)
    ensures WithoutDeleted(policy, true, true) == WithoutIeMode(policy)
  {
    var p := WithoutDeleted(policy, true, true);
    var q := WithoutIeMode(policy);
    assert forall k :: k in p <==> k in q;
  }

  class Host {
    /** ie-sitelist.xml */
    var document: DocFile
    /** the values of HKLM\SOFTWARE\Policies\Microsoft\Edge */
    var policy: map<string, RegValue>
    /** the last exported copy of the policy key, if any */
    var backup: Option<map<string, RegValue>>

    constructor (document: DocFile, policy: map<string, RegValue>, backup: Option<map<string, RegValue>>)
      ensures this.document == document && this.policy == policy && this.backup == backup
    {
      this.document := document;
      this.policy := policy;
      this.backup := backup;
    }

    /** create_xml (ie-mode.py:266-282): the document is replaced by the
        site list for `urls`, stamped with `version`. */
    method CreateXml(urls: seq<string>, version: string)
      modifies this
      ensures document == Present(BuildSiteList(urls, version))
      ensures policy == old(policy) && backup == old(backup)
    {
      document := Present(BuildSiteList(urls, version));
    }

    /** set_registry_via_cmd (ie-mode.py:284-308): both `reg add` commands
        run; the result says whether both succeeded. */
    method SetRegistry(path: string, ok1: bool, ok2: bool) returns (ok: bool)
      modifies this
      ensures ok == (ok1 && ok2)
      ensures policy == WithSiteList(old(policy), path, ok1, ok2)
      ensures document == old(document) && backup == old(backup)
    {
      if ok1 {
        policy := policy[SiteListValue := Sz(path)];
      }
      if ok2 {
        policy := policy[LevelValue := Dword(1)];
      }
      ok := ok1 && ok2;
    }

    /** clear_registry_keys (ie-mode.py:310-324): one `reg delete` per
        value; a failed delete is ignored and leaves its value in place. */
    method ClearRegistryKeys(ok1: bool, ok2: bool)
      modifies this
      ensures policy == WithoutDeleted(old(policy), ok1, ok2)
      ensures document == old(document) && backup == old(backup)
    {
      var keys := [SiteListValue, LevelValue];
      var oks := [ok1, ok2];
      var i := 0;
      while i < |keys|
        invariant 0 <= i <= |keys|
        invariant policy == WithoutDeleted(old(policy), i > 0 && ok1, i > 1 && ok2)
        invariant document == old(document) && backup == old(backup)
      {
        if oks[i] {
          policy := policy - {keys[i]};
        }
        i := i + 1;
      }
    }

    /** export_registry_backup (ie-mode.py:326-337): on success the key is
        written to the backup file and its path returned. */
    method ExportRegistryBackup(exported: bool) returns (path: Option<string>)
      modifies this
      ensures exported ==> backup == Some(policy) && path == Some(BackupPath)
      ensures !exported ==> backup == old(backup) && path == None
      ensures document == old(document) && policy == old(policy)
    {
      if exported {
        backup := Some(policy);
        return Some(BackupPath);
      }
      return None;
    }

    /** The saving branch of `main` (ie-mode.py:488-504). A non-empty list
        is written and the policy pointed at it, with a backup only when
        both values were written; an empty list removes the document and
        each value whose delete succeeds. */
    method Finalize(urls: seq<string>, version: string, outcomes: Outcomes)
      modifies this
      ensures urls != [] ==> document == Present(BuildSiteList(urls, version))
      ensures urls != [] ==> policy == WithSiteList(old(policy), XmlPath, outcomes.siteListAdded, outcomes.levelAdded)
      ensures urls != [] ==>
                backup == (if outcomes.siteListAdded && outcomes.levelAdded && outcomes.exported
                           then Some(policy) else old(backup))
      ensures urls == [] ==>
                document == Missing && backup == old(backup) &&
                policy == WithoutDeleted(old(policy), outcomes.siteListDeleted, outcomes.levelDeleted)
    {
      if urls != [] {
        CreateXml(urls, version);
        var ok := SetRegistry(XmlPath, outcomes.siteListAdded, outcomes.levelAdded);
        if ok {
          var saved := ExportRegistryBackup(outcomes.exported);
        }
      } else {
        if document != Missing {
          document := Missing;
        }
        ClearRegistryKeys(outcomes.siteListDeleted, outcomes.levelDeleted);
      }
    }
  }

  /** When every `reg` command succeeds: after saving a non-empty list the
      document reads back as the list and the policy points at it in IE
      mode; saving an empty list leaves nothing of IE mode behind. */
  lemma FinalizeConverges(urls: seq<string>, version: string, policy: map<string, RegValue>)
    requires forall k :: 0 <= k < |urls| ==> urls[k] != ""
    ensures urls != [] ==>
              ParseXml(Present(BuildSiteList(urls, version))) == urls &&
              var p := WithSiteList(policy, XmlPath, true, true);
              p[SiteListValue] == Sz(XmlPath) && p[LevelValue] == Dword(1)
    ensures ParseXml(Missing) == [] &&
            SiteListValue !in WithoutDeleted(policy, true, true) && LevelValue !in WithoutDeleted(policy, true, true)
  {
    RoundTrip(urls, version);
  }
}
