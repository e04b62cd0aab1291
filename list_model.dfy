// The active site list: validation and port stripping of a typed URL,
// duplicate-free append, and removal by the 1-based positions the user
// types (ie-mode.py:145-210).
module ListModel {
  import opened Text

  predicate StartsWith(s: string, p: string) {
    |p| <= |s| && s[..|p|] == p
  }

  /** `url.startswith(('http://', 'https://'))` */
  predicate HasScheme(url: string) {
    StartsWith(url, "http://") || StartsWith(url, "https://")
  }

  /** The scheme prefix a URL with `HasScheme` starts with. */
  function SchemePrefix(url: string): string {
    if StartsWith(url, "https://") then "https://" else "http://"
  }

  predicate NoDup(s: seq<string>) {
    forall i, j :: 0 <= i < j < |s| ==> s[i] != s[j]
  }

  /** Python's `url[8:]`: empty when the string is shorter. */
  function FromEight(url: string): string {
    if |url| >= 8 then url[8..] else []
  }

  /** The separator "://" is found right after the scheme name. */
  lemma SchemeSeparator(url: string)
    requires HasScheme(url)
    ensures Find(url, "://") == |SchemePrefix(url)| - 3
  {
    var n := |SchemePrefix(url)| - 3;
    assert url[..n + 3] == SchemePrefix(url);
    assert url[n..n + 3] == "://";
    assert OccursAt(url, "://", n);
    forall k | 0 <= k < n
      ensures !OccursAt(url, "://", k)
    {
      assert url[k] != ':';
    }
  }

  /** The text before the first "://" is the scheme name. */
  lemma SchemeName(url: string)
    requires HasScheme(url)
    ensures Contains(url, "://")
    ensures url[..Find(url, "://")] + "://" == SchemePrefix(url)
  {
    SchemeSeparator(url);
    var n := |SchemePrefix(url)| - 3;
    assert url[..n + 3] == SchemePrefix(url);
    assert url[..n + 3] == url[..n] + url[n..n + 3];
  }

  lemma PrefixOfConcat(p: string, a: string, b: string)
    ensures StartsWith(p + a + b, p)
  {
    assert (p + a + b)[..|p|] == p;
  }

  /** `url.split('://')[1]`: the text between the first "://" and the
      next one (or the end of the string). */
  function HostPart(url: string): (r: string)
    requires Contains(url, "://")
    ensures !Contains(r, "://")
  {
    var a := Find(url, "://") + 3;
    var b := FindFrom(url, "://", a);
    HostPartClean(url, a, b);
    url[a..if b < 0 then |url| else b]
  }

  /** The text from `a` up to the next "://" (or the end) holds no "://". */
  lemma HostPartClean(url: string, a: nat, b: int)
    requires a <= |url| && b == FindFrom(url, "://", a)
    ensures !Contains(url[a..if b < 0 then |url| else b], "://")
  {
    var e := if b < 0 then |url| else b;
    var r := url[a..e];
    forall k | 0 <= k && k + 3 <= |r|
      ensures !OccursAt(r, "://", k)
    {
      assert r[k..k + 3] == url[a + k..a + k + 3];
      if b >= 0 {
        assert a <= a + k < b;
      }
      assert !OccursAt(url, "://", a + k);
    }
  }

  /** Port stripping as add_new_url does it (ie-mode.py:162-169): when a
      ':' occurs from index 8 on, the URL is rebuilt from the scheme name,
      the host part up to its first ':' and the host part from its first
      '/' on. */
  function Normalize(url: string): (r: string)
    requires HasScheme(url)
    ensures StartsWith(r, SchemePrefix(url))
    ensures ':' !in FromEight(url) ==> r == url
  {
    var tail := FromEight(url);
    if CharIndex(tail, ':') < |tail| then
      SchemeSeparator(url);
      var proto := url[..Find(url, "://")];
      var hostPart := HostPart(url);
      var host := hostPart[..CharIndex(hostPart, ':')];
      var slash := CharIndex(hostPart, '/');
      // `'/' + '/'.join(host_part.split('/')[1:])` is the host part from its first '/'
      var path := if slash < |hostPart| then hostPart[slash..] else "";
      SchemeName(url);
      PrefixOfConcat(proto + "://", host, path);
      proto + "://" + host + path
    else
      url
  }

  lemma NoSeparatorInRest(host: string, port: string, path: string)
    requires ':' !in host && AllDigits(port)
    requires !Contains(path, "://")
    ensures !Contains(host + ":" + port + path, "://")
  {
    var rest := host + ":" + port + path;
    var n := |host| + 1 + |port|;
    forall j | 0 <= j
      ensures !OccursAt(rest, "://", j)
    {
      if j + 3 <= |rest| {
        var w := rest[j..j + 3];
        var sep: string := "://";
        assert sep[0] == ':' && sep[1] == '/';
        if j < |host| {
          assert w[0] == rest[j] == host[j];
          assert host[j] in host;
          assert w != sep;
        } else if j == |host| {
          assert w[1] == rest[j + 1] == port[0];
          assert IsAsciiDigit(port[0]);
          assert w != sep;
        } else if j < n {
          assert w[0] == rest[j] == port[j - |host| - 1];
          assert IsAsciiDigit(port[j - |host| - 1]);
          assert w != sep;
        } else {
          assert w == path[j - n..j - n + 3];
          assert !OccursAt(path, "://", j - n);
        }
      }
    }
  }

  /** The pieces add_new_url takes apart in a URL built from a scheme
      name and a host part with no second "://". */
  lemma SplitSchemeAndHost(scheme: string, rest: string, url: string)
    requires scheme == "http" || scheme == "https"
    requires !Contains(rest, "://")
    requires url == scheme + "://" + rest
    ensures HasScheme(url) && SchemePrefix(url) == scheme + "://"
    ensures Contains(url, "://") && Find(url, "://") == |scheme|
    ensures HostPart(url) == rest
  {
    assert url[..|scheme| + 3] == scheme + "://";
    if scheme == "http" {
      assert url[4] == ':';
    } else {
      assert url[..8] == "https://";
    }
    SchemeSeparator(url);
    var p := scheme + "://";
    var a := |p|;
    assert Find(url, "://") + 3 == a;
    NoSeparatorAfter(p, rest, url);
    assert url[a..|url|] == rest by {
      assert forall i :: 0 <= i < |rest| ==> url[a..|url|][i] == url[a + i] == rest[i];
    }
    assert HostPart(url) == url[a..|url|];
  }

  /** After a prefix, text that holds no "://" has no "://" to find. */
  lemma NoSeparatorAfter(p: string, rest: string, url: string)
    requires !Contains(rest, "://")
    requires url == p + rest
    ensures FindFrom(url, "://", |p|) == -1
  {
    var a := |p|;
    assert url[a..] == rest;
    forall k | a <= k
      ensures !OccursAt(url, "://", k)
    {
      if k + 3 <= |url| {
        assert url[k..k + 3] == url[a..][k - a..k - a + 3] == rest[k - a..k - a + 3];
        assert !OccursAt(rest, "://", k - a);
      }
    }
  }

  /** In `host:port/path` the host ends at the first ':' and the path
      starts at the first '/'. */
  lemma SplitHostPortPath(host: string, port: string, path: string, hp: string)
    requires ':' !in host && '/' !in host && AllDigits(port)
    requires path == [] || path[0] == '/'
    requires hp == host + (":" + port + path)
    ensures CharIndex(hp, ':') == |host| && hp[..|host|] == host
    ensures path == [] ==> CharIndex(hp, '/') == |hp|
    ensures path != [] ==> CharIndex(hp, '/') == |host| + 1 + |port| && hp[|host| + 1 + |port|..] == path
  {
    CharIndexConcat(host, ":" + port + path, ':');
    assert CharIndex(host, ':') == |host|;
    assert '/' !in ":" + port by {
      assert forall k :: 0 <= k < |port| ==> IsAsciiDigit(port[k]);
    }
    assert CharIndex(host, '/') == |host|;
    assert CharIndex(":" + port, '/') == 1 + |port|;
    CharIndexConcat(host, ":" + port + path, '/');
    CharIndexConcat(":" + port, path, '/');
    if path != [] {
      assert CharIndex(path, '/') == 0;
    }
  }

  /** Normalize on a URL with a ':' from index 8 on. */
  lemma NormalizeColon(url: string)
    requires HasScheme(url) && CharIndex(FromEight(url), ':') < |FromEight(url)|
    ensures Contains(url, "://")
    ensures Normalize(url) ==
            url[..Find(url, "://")] + "://" + HostPart(url)[..CharIndex(HostPart(url), ':')] +
            (if CharIndex(HostPart(url), '/') < |HostPart(url)| then HostPart(url)[CharIndex(HostPart(url), '/')..] else "")
  {
    SchemeSeparator(url);
  }

  /** How add_new_url's tests see `scheme://host:port/path`. */
  lemma PortUrlParts(scheme: string, host: string, port: string, path: string, url: string)
    requires scheme == "http" || scheme == "https"
    requires host != [] && ':' !in host && '/' !in host
    requires AllDigits(port)
    requires !Contains(path, "://")
    requires url == scheme + "://" + (host + (":" + port + path))
    ensures HasScheme(url) && Contains(url, "://")
    ensures CharIndex(FromEight(url), ':') < |FromEight(url)|
    ensures url[..Find(url, "://")] == scheme
    ensures HostPart(url) == host + (":" + port + path)
  {
    var rest := host + (":" + port + path);
    assert rest == host + ":" + port + path;
    NoSeparatorInRest(host, port, path);
    SplitSchemeAndHost(scheme, rest, url);
    SchemeSeparator(url);
    // a ':' sits at index |scheme| + 3 + |host| >= 8
    var tail := FromEight(url);
    assert tail[|scheme| + 3 + |host| - 8] == url[|scheme| + 3 + |host|] == ':';
    assert url[..|scheme|] == scheme;
  }

  /** `https://host:8080/path` becomes `https://host/path`, and
      `https://host:8080` becomes `https://host`. */
  lemma NormalizeStripsPort(scheme: string, host: string, port: string, path: string)
    requires scheme == "http" || scheme == "https"
    requires host != [] && ':' !in host && '/' !in host
    requires AllDigits(port)
    requires path == [] || path[0] == '/'
    requires !Contains(path, "://")
    ensures HasScheme(scheme + "://" + host + ":" + port + path)
    ensures Normalize(scheme + "://" + host + ":" + port + path) == scheme + "://" + host + path
  {
    var hp := host + (":" + port + path);
    var url := scheme + "://" + hp;
    assert url == scheme + "://" + host + ":" + port + path;
    PortUrlParts(scheme, host, port, path, url);
    SplitHostPortPath(host, port, path, hp);
    NormalizeColon(url);
    assert HostPart(url) == hp;
    assert hp[..CharIndex(hp, ':')] == host;
    if path == [] {
      assert Normalize(url) == scheme + "://" + host + "";
      assert host + "" == host + path;
    } else {
      assert Normalize(url) == scheme + "://" + host + path;
    }
  }

  /** The colon test starts one character into the host of an `http://`
      URL, so a colon right after `http://` is not seen. */
  lemma NormalizeSkipsIndexSeven(rest: string, url: string)
    requires ':' !in rest
    requires url == "http://" + ":" + rest
    ensures HasScheme(url) && Normalize(url) == url
  {
    assert url[..7] == "http://";
    assert FromEight(url) == rest;
  }

  /** A ':' that is not followed by '/' cannot start a "://". */
  lemma NoSeparatorWithoutSlash(s: string)
    requires forall j :: 0 <= j < |s| - 1 && s[j] == ':' ==> s[j + 1] != '/'
    ensures !Contains(s, "://")
  {
    forall j | 0 <= j
      ensures !OccursAt(s, "://", j)
    {
      if j + 3 <= |s| {
        var sep: string := "://";
        assert sep[0] == ':' && sep[1] == '/';
        if s[j] == ':' {
          assert s[j + 1] != '/';
          assert s[j..j + 3][1] != sep[1];
        } else {
          assert s[j..j + 3][0] != sep[0];
        }
      }
    }
  }

  /** How add_new_url's tests see the host part `host/seg:tail`. */
  lemma SplitHostSegment(host: string, seg: string, tail: string, hp: string)
    requires ':' !in host && '/' !in host
    requires ':' !in seg && '/' !in seg && ':' !in tail && '/' !in tail
    requires hp == host + ("/" + seg + ":" + tail)
    ensures !Contains(hp, "://")
    ensures CharIndex(hp, ':') == |host| + 1 + |seg| && hp[..|host| + 1 + |seg|] == host + "/" + seg
    ensures CharIndex(hp, '/') == |host| && hp[|host|..] == "/" + seg + ":" + tail
  {
    var i0 := |host| + 1 + |seg|;
    forall k | 0 <= k < |hp| && k != i0
      ensures hp[k] != ':'
    {
      if k < |host| {
        assert hp[k] == host[k];
      } else if |host| < k < i0 {
        assert hp[k] == seg[k - |host| - 1];
      } else if k > i0 {
        assert hp[k] == tail[k - i0 - 1];
      }
    }
    if i0 + 1 < |hp| {
      assert hp[i0 + 1] == tail[0];
    }
    NoSeparatorWithoutSlash(hp);
    CharIndexIs(hp, ':', i0);
    forall k | 0 <= k < |host|
      ensures hp[k] != '/'
    {
      assert hp[k] == host[k];
    }
    CharIndexIs(hp, '/', |host|);
  }

  /** A ':' inside the path (`http://wiki/Help:Contents`) passes the colon
      test; the host is then cut at that ':' and so takes the first path
      segment with it, and the path is appended after it again. */
  lemma NormalizeRepeatsPath(scheme: string, host: string, seg: string, tail: string, url: string)
    requires scheme == "http" || scheme == "https"
    requires host != [] && ':' !in host && '/' !in host
    requires ':' !in seg && '/' !in seg && ':' !in tail && '/' !in tail
    requires url == scheme + "://" + (host + ("/" + seg + ":" + tail))
    ensures HasScheme(url)
    ensures Normalize(url) == scheme + "://" + (host + "/" + seg) + ("/" + seg + ":" + tail)
    ensures Normalize(url) != url
  {
    var hp := host + ("/" + seg + ":" + tail);
    var i0 := |host| + 1 + |seg|;
    SplitHostSegment(host, seg, tail, hp);
    SplitSchemeAndHost(scheme, hp, url);
    assert url[..|scheme|] == scheme;
    assert url[|scheme| + 3 + i0] == hp[i0];
    ColonFromEight(url, |scheme| + 3 + i0);
    NormalizeParts(url, scheme, hp, i0, |host|);
    assert |Normalize(url)| == |url| + |seg| + 1;
  }

  /** A ':' at index 8 or later passes the colon test. */
  lemma ColonFromEight(url: string, i: nat)
    requires 8 <= i < |url| && url[i] == ':'
    ensures CharIndex(FromEight(url), ':') < |FromEight(url)|
  {
    assert FromEight(url)[i - 8] == ':';
  }

  /** Normalize once the host part and its first ':' and '/' are known. */
  lemma NormalizeParts(url: string, scheme: string, hp: string, colon: nat, slash: nat)
    requires HasScheme(url) && CharIndex(FromEight(url), ':') < |FromEight(url)|
    requires Contains(url, "://") && url[..Find(url, "://")] == scheme && HostPart(url) == hp
    requires CharIndex(hp, ':') == colon && CharIndex(hp, '/') == slash < |hp|
    ensures Normalize(url) == scheme + "://" + hp[..colon] + hp[slash..]
  {
    NormalizeColon(url);
  }

  /** The first `c` in `s` is at `k`. */
  lemma CharIndexIs(s: string, c: char, k: nat)
    requires k <= |s| && (k < |s| ==> s[k] == c)
    requires forall j :: 0 <= j < k ==> s[j] != c
    ensures CharIndex(s, c) == k
  {
  }

  /** The text after the scheme prefix with the port taken out of its
      authority (the text up to the first '/'), when that holds a ':'. */
  function StripAuthorityPort(rest: string): string {
    var slash := CharIndex(rest, '/');
    var colon := CharIndex(rest[..slash], ':');
    if colon < slash then rest[..colon] + rest[slash..] else rest
  }

  /** The port stripping add_new_url evidently intends: a ':' in the
      authority starts a port, which is dropped up to the first '/'; a URL
      whose authority has no ':' is kept as typed. */
  function StripPort(url: string): (r: string)
    requires HasScheme(url)
    ensures StartsWith(r, SchemePrefix(url))
  {
    var p := SchemePrefix(url);
    PrefixOfConcat(p, StripAuthorityPort(url[|p|..]), []);
    p + StripAuthorityPort(url[|p|..])
  }

  /** A string that starts with the scheme prefix of an http(s) URL has
      the same scheme prefix. */
  lemma SamePrefix(url: string, r: string)
    requires HasScheme(url) && StartsWith(r, SchemePrefix(url))
    ensures HasScheme(r) && SchemePrefix(r) == SchemePrefix(url)
  {
    if SchemePrefix(url) == "http://" {
      assert r[4] == ':';
    }
  }

  /** An authority with no ':' is kept with its path. */
  lemma StripAuthorityKeeps(authority: string, path: string)
    requires ':' !in authority && '/' !in authority
    requires path == [] || path[0] == '/'
    ensures StripAuthorityPort(authority + path) == authority + path
  {
    var rest := authority + path;
    forall j | 0 <= j < |authority|
      ensures rest[j] != '/'
    {
      assert rest[j] == authority[j];
    }
    CharIndexIs(rest, '/', |authority|);
    assert rest[..|authority|] == authority;
    CharIndexIs(authority, ':', |authority|);
  }

  /** A URL whose authority holds no ':' is kept as typed. */
  lemma StripPortKeeps(url: string, authority: string, path: string)
    requires HasScheme(url)
    requires ':' !in authority && '/' !in authority
    requires path == [] || path[0] == '/'
    requires url == SchemePrefix(url) + authority + path
    ensures StripPort(url) == url
  {
    var p := SchemePrefix(url);
    assert url[|p|..] == authority + path;
    StripAuthorityKeeps(authority, path);
  }

  /** `host:port/path` becomes `host/path`. */
  lemma StripAuthorityRemoves(host: string, port: string, path: string)
    requires ':' !in host && '/' !in host && '/' !in port
    requires path == [] || path[0] == '/'
    ensures StripAuthorityPort(host + (":" + port + path)) == host + path
  {
    var rest := host + (":" + port + path);
    var slash := |host| + 1 + |port|;
    forall j | 0 <= j < slash
      ensures rest[j] != '/'
    {
      if j < |host| {
        assert rest[j] == host[j];
      } else if j > |host| {
        assert rest[j] == port[j - |host| - 1];
      }
    }
    assert rest[slash..] == path;
    CharIndexIs(rest, '/', slash);
    var auth := rest[..slash];
    forall j | 0 <= j < |host|
      ensures auth[j] != ':'
    {
      assert auth[j] == host[j];
    }
    CharIndexIs(auth, ':', |host|);
    assert rest[..|host|] == host;
  }

  /** `scheme://host:port/path` becomes `scheme://host/path`, for any port
      text and any path. */
  lemma StripPortRemovesPort(scheme: string, host: string, port: string, path: string, url: string)
    requires scheme == "http" || scheme == "https"
    requires ':' !in host && '/' !in host && '/' !in port
    requires path == [] || path[0] == '/'
    requires url == scheme + "://" + (host + (":" + port + path))
    ensures HasScheme(url)
    ensures StripPort(url) == scheme + "://" + host + path
  {
    var p := scheme + "://";
    assert url[..|p|] == p;
    if scheme == "http" {
      assert url[4] == ':';
    }
    assert SchemePrefix(url) == p;
    assert url[|p|..] == host + (":" + port + path);
    StripAuthorityRemoves(host, port, path);
  }

  /** What StripAuthorityPort leaves: an authority with no ':' or '/', and
      the path from the first '/' on. */
  lemma StripAuthoritySplits(rest: string) returns (a: string, b: string)
    ensures ':' !in a && '/' !in a && (b == [] || b[0] == '/')
    ensures StripAuthorityPort(rest) == a + b
  {
    var slash := CharIndex(rest, '/');
    var auth := rest[..slash];
    var colon := CharIndex(auth, ':');
    var k := if colon < slash then colon else slash;
    a := rest[..k];
    b := rest[slash..];
    forall j | 0 <= j < k
      ensures a[j] != ':' && a[j] != '/'
    {
      assert a[j] == auth[j] == rest[j];
    }
    if colon >= slash {
      assert rest == a + b;
    }
  }

  /** Stripping twice strips no more than stripping once. */
  lemma StripPortIdempotent(url: string)
    requires HasScheme(url)
    ensures HasScheme(StripPort(url))
    ensures StripPort(StripPort(url)) == StripPort(url)
  {
    var p := SchemePrefix(url);
    var a, b := StripAuthoritySplits(url[|p|..]);
    SamePrefix(url, StripPort(url));
    assert StripPort(url) == p + a + b;
    StripPortKeeps(StripPort(url), a, b);
  }

  /** On the URLs add_new_url is meant for, `scheme://host:port/path` with
      a numeric port, the code as written and the corrected stripping give
      the same result. */
  lemma CleanupsAgreeOnPort(scheme: string, host: string, port: string, path: string, url: string)
    requires scheme == "http" || scheme == "https"
    requires host != [] && ':' !in host && '/' !in host
    requires AllDigits(port)
    requires path == [] || path[0] == '/'
    requires !Contains(path, "://")
    requires url == scheme + "://" + (host + (":" + port + path))
    ensures HasScheme(url) && Normalize(url) == StripPort(url)
  {
    assert url == scheme + "://" + host + ":" + port + path;
    NormalizeStripsPort(scheme, host, port, path);
    assert '/' !in port by {
      assert forall k :: 0 <= k < |port| ==> IsAsciiDigit(port[k]);
    }
    StripPortRemovesPort(scheme, host, port, path, url);
  }

  /** A URL with no ':' after its scheme prefix is kept by both the code
      as written and the corrected stripping. */
  lemma CleanupsAgreeWithoutColon(url: string)
    requires HasScheme(url)
    requires ':' !in url[|SchemePrefix(url)|..]
    ensures Normalize(url) == url && StripPort(url) == url
  {
    var p := SchemePrefix(url);
    var rest := url[|p|..];
    assert ':' !in FromEight(url) by {
      if |url| >= 8 {
        forall k | 0 <= k < |url| - 8
          ensures FromEight(url)[k] != ':'
        {
          assert FromEight(url)[k] == rest[k + 8 - |p|];
        }
      }
    }
    var slash := CharIndex(rest, '/');
    var auth := rest[..slash];
    forall k | 0 <= k < |auth|
      ensures auth[k] != ':'
    {
      assert auth[k] == rest[k];
    }
    CharIndexIs(auth, ':', |auth|);
    assert rest[..slash] + rest[slash..] == rest;
    assert StripAuthorityPort(rest) == rest;
    assert StripPort(url) == p + rest;
    assert url[..|p|] == p;
    assert url == url[..|p|] + rest;
  }

  /** What add_new_url does with one typed line (ie-mode.py:153-177). */
  datatype AddStep = Back | NotHttp | AlreadyPresent | Accept(url: string)

  function AddAttempt(urls: seq<string>, line: string): (r: AddStep)
    ensures r == Back <==> LowerIs(Strip(line), "back")
    ensures r == NotHttp <==> !LowerIs(Strip(line), "back") && !HasScheme(Strip(line))
    ensures r.Accept? ==> r.url !in urls && HasScheme(r.url)
    ensures r == AlreadyPresent ==> HasScheme(Strip(line)) && StripPort(Strip(line)) in urls
  {
    var u := Strip(line);
    if LowerIs(u, "back") then Back
    else if !HasScheme(u) then NotHttp
    else
      var clean := StripPort(u);
      SamePrefix(u, clean);
      if clean in urls then AlreadyPresent else Accept(clean)
  }

  /** An accepted line is stored as its stripped, port-free form, and a
      line is rejected as present exactly when that form is already listed. */
  lemma AddAttemptStores(urls: seq<string>, line: string)
    ensures AddAttempt(urls, line).Accept? ==>
              HasScheme(Strip(line)) && AddAttempt(urls, line).url == StripPort(Strip(line))
    ensures AddAttempt(urls, line) == AlreadyPresent <==>
              !LowerIs(Strip(line), "back") && HasScheme(Strip(line)) && StripPort(Strip(line)) in urls
  {
  }

  /** The list after add_new_url has read `inputs`: the prompt repeats
      until a line is accepted or 'back' is typed. */
  function AddSession(urls: seq<string>, inputs: seq<string>): (r: seq<string>)
    ensures urls <= r && |r| <= |urls| + 1
  {
    if inputs == [] then urls
    else
      match AddAttempt(urls, inputs[0])
      case Back => urls
      case Accept(u) => urls + [u]
      case _ => AddSession(urls, inputs[1..])
  }

  /** One typed line of an adding session. */
  lemma AddSessionStep(urls: seq<string>, inputs: seq<string>)
    requires inputs != []
    ensures AddAttempt(urls, inputs[0]).Back? ==> AddSession(urls, inputs) == urls
    ensures AddAttempt(urls, inputs[0]).Accept? ==>
              AddSession(urls, inputs) == urls + [AddAttempt(urls, inputs[0]).url]
    ensures AddAttempt(urls, inputs[0]).NotHttp? || AddAttempt(urls, inputs[0]).AlreadyPresent? ==>
              AddSession(urls, inputs) == AddSession(urls, inputs[1..])
  {
  }

  /** Adding either leaves the list alone or appends one new http(s) URL. */
  predicate AppendsOne(urls: seq<string>, r: seq<string>) {
    r == urls ||
    (|r| == |urls| + 1 && r[..|urls|] == urls && r[|urls|] !in urls && HasScheme(r[|urls|]))
  }

  lemma {:induction false} AddSessionAppendsOnce(urls: seq<string>, inputs: seq<string>)
    ensures AppendsOne(urls, AddSession(urls, inputs))
  {
    if inputs != [] {
      match AddAttempt(urls, inputs[0])
      case Back =>
      case Accept(u) => assert (urls + [u])[..|urls|] == urls;
      case NotHttp => AddSessionAppendsOnce(urls, inputs[1..]);
      case AlreadyPresent => AddSessionAppendsOnce(urls, inputs[1..]);
    }
  }

  /** A duplicate-free list stays duplicate-free. */
  lemma AddSessionKeepsNoDup(urls: seq<string>, inputs: seq<string>)
    requires NoDup(urls)
    ensures NoDup(AddSession(urls, inputs))
  {
    AddSessionAppendsOnce(urls, inputs);
    var r := AddSession(urls, inputs);
    if r != urls {
      forall i, j | 0 <= i < j < |r|
        ensures r[i] != r[j]
      {
        if j == |urls| {
          assert r[i] == urls[i];
        } else {
          assert r[i] == urls[i] && r[j] == urls[j];
        }
      }
    }
  }

  /** `[int(x) - 1 for x in words if x.isdigit()]` (ie-mode.py:194). */
  function IndicesOf(words: seq<string>): (r: seq<int>)
    ensures forall i :: 0 <= i < |r| ==> r[i] >= -1
    ensures |r| <= |words|
  {
    if words == [] then []
    else
      (if AllDigits(words[0]) then [DigitsValue(words[0]) - 1] else []) + IndicesOf(words[1..])
  }

  /** Words that are all numbers give one index each, the number minus
      one, in order; words none of which is a number give no index. */
  lemma {:induction false} IndicesOfNumbers(words: seq<string>)
    ensures (forall j :: 0 <= j < |words| ==> AllDigits(words[j])) ==>
              |IndicesOf(words)| == |words| &&
              forall i :: 0 <= i < |words| ==> IndicesOf(words)[i] == DigitsValue(words[i]) - 1
    ensures (forall j :: 0 <= j < |words| ==> !AllDigits(words[j])) ==> IndicesOf(words) == []
  {
    if words != [] {
      IndicesOfNumbers(words[1..]);
    }
  }

  /** The indices of two runs of words are those of each run, in order:
      the comprehension keeps the order of the words. */
  lemma {:induction false} IndicesOfAppend(a: seq<string>, b: seq<string>)
    ensures IndicesOf(a + b) == IndicesOf(a) + IndicesOf(b)
  {
    if a == [] {
      assert a + b == b;
    } else {
      var ab := a + b;
      assert ab[0] == a[0];
      assert ab[1..] == a[1..] + b;
      var h := if AllDigits(a[0]) then [DigitsValue(a[0]) - 1] else [];
      assert IndicesOf(ab) == h + IndicesOf(a[1..] + b);
      IndicesOfAppend(a[1..], b);
      assert IndicesOf(a) == h + IndicesOf(a[1..]);
    }
  }

  function ParseIndices(choice: string): (r: seq<int>)
    ensures |r| <= |Words(choice)|
  {
    IndicesOf(Words(choice))
  }

  predicate Descending(s: seq<int>) {
    forall i, j :: 0 <= i < j < |s| ==> s[i] >= s[j]
  }

  predicate StrictlyDescending(s: seq<int>) {
    forall i, j :: 0 <= i < j < |s| ==> s[i] > s[j]
  }

  function Insert(x: int, s: seq<int>): (r: seq<int>)
    requires Descending(s)
    ensures Descending(r) && multiset(r) == multiset(s) + multiset{x}
  {
    if s == [] || x >= s[0] then [x] + s
    else
      var t := Insert(x, s[1..]);
      assert s == [s[0]] + s[1..];
      HeadDominates(s[0], s[1..], x, t);
      [s[0]] + t
  }

  /** A value above `x` and above every element of `rest` is above every
      element of a rearrangement of `rest` with `x`. */
  lemma HeadDominates(top: int, rest: seq<int>, x: int, t: seq<int>)
    requires x < top && forall k :: 0 <= k < |rest| ==> rest[k] <= top
    requires multiset(t) == multiset(rest) + multiset{x}
    requires Descending(t)
    ensures Descending([top] + t)
  {
    forall k | 0 <= k < |t| ensures t[k] <= top {
      assert t[k] in multiset(t);
      if t[k] != x {
        assert t[k] in multiset(rest);
        assert t[k] in rest;
      }
    }
    var r := [top] + t;
    forall i, j | 0 <= i < j < |r| ensures r[i] >= r[j] {
      assert r[j] == t[j - 1];
      if i > 0 {
        assert r[i] == t[i - 1];
      }
    }
  }

  /** `sorted(indices, reverse=True)` */
  function SortDescending(s: seq<int>): (r: seq<int>)
    ensures Descending(r) && multiset(r) == multiset(s)
  {
    if s == [] then []
    else
      assert s == [s[0]] + s[1..];
      Insert(s[0], SortDescending(s[1..]))
  }

  predicate Distinct(s: seq<int>) {
    forall i, j :: 0 <= i < j < |s| ==> s[i] != s[j]
  }

  lemma {:induction false} InsertDistinct(x: int, t: seq<int>)
    requires Descending(t) && Distinct(t) && x !in t
    ensures Distinct(Insert(x, t))
  {
    if t != [] && x < t[0] {
      var u := Insert(x, t[1..]);
      InsertDistinct(x, t[1..]);
      assert t[0] !in t[1..];
      assert t[0] !in multiset(u);
    }
  }

  /** Distinct indices sort into a strictly descending sequence. */
  lemma {:induction false} SortDistinct(s: seq<int>)
    requires Distinct(s)
    ensures Distinct(SortDescending(s))
    ensures StrictlyDescending(SortDescending(s))
  {
    if s != [] {
      var t := SortDescending(s[1..]);
      SortDistinct(s[1..]);
      assert s[0] !in s[1..];
      assert s[0] !in multiset(t);
      InsertDistinct(s[0], t);
    }
  }

  /** The pop loop of delete_urls (ie-mode.py:201-204): each index in
      turn pops that position of the current list when it is in range. */
  function PopEach(xs: seq<string>, ds: seq<int>): (r: (seq<string>, seq<string>))
    ensures |r.0| + |r.1| == |xs|
  {
    if ds == [] then (xs, [])
    else
      var d := ds[0];
      if 0 <= d < |xs| then
        var after := PopEach(xs[..d] + xs[d + 1..], ds[1..]);
        (after.0, [xs[d]] + after.1)
      else PopEach(xs, ds[1..])
  }

  /** The entries of `xs` at positions not in `s`, in their original order. */
  function Survivors(xs: seq<string>, s: set<int>): seq<string> {
    if xs == [] then []
    else Survivors(xs[..|xs| - 1], s) + (if |xs| - 1 in s then [] else [xs[|xs| - 1]])
  }

  /** The entries of `xs` at the in-range positions of `ds`, in the order of `ds`. */
  function Picked(xs: seq<string>, ds: seq<int>): seq<string> {
    if ds == [] then []
    else (if 0 <= ds[0] < |xs| then [xs[ds[0]]] else []) + Picked(xs, ds[1..])
  }

  function ToSet(ds: seq<int>): set<int> {
    set d | d in ds
  }

  lemma {:induction false} SurvivorsOnlyInRange(xs: seq<string>, s: set<int>, t: set<int>)
    requires forall i :: 0 <= i < |xs| ==> (i in s <==> i in t)
    ensures Survivors(xs, s) == Survivors(xs, t)
  {
    if xs != [] {
      SurvivorsOnlyInRange(xs[..|xs| - 1], s, t);
    }
  }

  lemma {:induction false} SurvivorsSplit(xs: seq<string>, s: set<int>, k: nat)
    requires k <= |xs|
    requires forall i :: k <= i < |xs| ==> i !in s
    ensures Survivors(xs, s) == Survivors(xs[..k], s) + xs[k..]
    decreases |xs| - k
  {
    if k < |xs| {
      var init := xs[..|xs| - 1];
      SurvivorsSplit(init, s, k);
      assert init[..k] == xs[..k];
      assert init[k..] + [xs[|xs| - 1]] == xs[k..];
    } else {
      assert xs[..k] == xs;
    }
  }

  /** Popping position `d` of the list equals leaving `d` out, for
      positions below `d`. */
  lemma SurvivorsPop(xs: seq<string>, s: set<int>, d: nat)
    requires d < |xs|
    requires forall i :: i in s ==> i < d
    ensures Survivors(xs[..d] + xs[d + 1..], s) == Survivors(xs, s + {d})
  {
    var ys := xs[..d] + xs[d + 1..];
    SurvivorsSplit(ys, s, d);
    assert ys[..d] == xs[..d] && ys[d..] == xs[d + 1..];
    SurvivorsSplit(xs, s + {d}, d + 1);
    assert xs[..d + 1][..d] == xs[..d];
    SurvivorsOnlyInRange(xs[..d], s + {d}, s);
  }

  lemma {:induction false} PickedAgree(xs: seq<string>, ys: seq<string>, ds: seq<int>, d: nat)
    requires d <= |xs| && d <= |ys| && xs[..d] == ys[..d]
    requires forall i :: 0 <= i < |ds| ==> ds[i] < d
    ensures Picked(xs, ds) == Picked(ys, ds)
  {
    if ds != [] {
      if 0 <= ds[0] {
        assert xs[ds[0]] == xs[..d][ds[0]] == ys[ds[0]];
      }
      PickedAgree(xs, ys, ds[1..], d);
    }
  }

  /** With distinct indices, popping from the highest down removes exactly
      the in-range positions of the original list: the survivors keep their
      order and the removed entries come out in descending position order. */
  lemma {:induction false} PopDescending(xs: seq<string>, ds: seq<int>)
    requires StrictlyDescending(ds)
    ensures PopEach(xs, ds) == (Survivors(xs, ToSet(ds)), Picked(xs, ds))
  {
    if ds == [] {
      assert ToSet(ds) == {};
      SurvivorsSplit(xs, {}, 0);
      assert xs[..0] == [] && xs[0..] == xs;
      assert Survivors(xs, {}) == xs;
      assert Picked(xs, ds) == [];
    } else {
      var d := ds[0];
      var rest := ds[1..];
      assert ToSet(ds) == ToSet(rest) + {d} by {
        assert ds == [d] + rest;
      }
      assert forall i :: 0 <= i < |rest| ==> rest[i] < d by {
        assert forall i :: 0 <= i < |rest| ==> rest[i] == ds[i + 1];
      }
      forall i, j | 0 <= i < j < |rest| ensures rest[i] > rest[j] {
        assert rest[i] == ds[i + 1] && rest[j] == ds[j + 1];
      }
      if 0 <= d < |xs| {
        var ys := xs[..d] + xs[d + 1..];
        PopDescending(ys, rest);
        SurvivorsPop(xs, ToSet(rest), d);
        assert ys[..d] == xs[..d];
        PickedAgree(xs, ys, rest, d);
      } else {
        PopDescending(xs, rest);
        SurvivorsOnlyInRange(xs, ToSet(ds), ToSet(rest));
        assert PopEach(xs, ds) == PopEach(xs, rest);
        assert Picked(xs, ds) == Picked(xs, rest);
      }
    }
  }

  /** Indices that are all out of range change nothing. */
  lemma {:induction false} PopNoneInRange(xs: seq<string>, ds: seq<int>)
    requires forall i :: 0 <= i < |ds| ==> ds[i] < 0 || ds[i] >= |xs|
    ensures PopEach(xs, ds) == (xs, [])
  {
    if ds != [] {
      PopNoneInRange(xs, ds[1..]);
    }
  }

  /** A repeated index pops the same position twice: typing "1 1"
      removes the first two entries. */
  lemma RepeatedIndexPopsTwice(a: string, b: string, c: string)
    ensures SortDescending([0, 0]) == [0, 0]
    ensures PopEach([a, b, c], [0, 0]) == ([c], [a, b])
  {
    var once := PopEach([c], []);
    assert once.0 == [c] && once.1 == [];
    var twice := PopEach([b, c], [0]);
    assert [b, c][..0] + [b, c][1..] == [c] && [0][1..] == [];
    assert twice == (once.0, [b] + once.1);
    assert twice.0 == [c] && twice.1 == [b];
    assert [a, b, c][..0] + [a, b, c][1..] == [b, c] && [0, 0][1..] == [0];
    assert PopEach([a, b, c], [0, 0]) == (twice.0, [a] + twice.1);
    assert [a] + twice.1 == [a, b];
  }

  lemma RemoveAt(xs: seq<string>, d: nat)
    requires d < |xs|
    ensures multiset(xs[..d] + xs[d + 1..]) + multiset{xs[d]} == multiset(xs)
    ensures NoDup(xs) ==> NoDup(xs[..d] + xs[d + 1..])
  {
    assert xs == xs[..d] + [xs[d]] + xs[d + 1..];
    var ys := xs[..d] + xs[d + 1..];
    if NoDup(xs) {
      forall i, j | 0 <= i < j < |ys| ensures ys[i] != ys[j] {
        var i' := if i < d then i else i + 1;
        var j' := if j < d then j else j + 1;
        assert ys[i] == xs[i'] && ys[j] == xs[j'];
      }
    }
  }

  /** Popping loses nothing: the remaining and the removed entries make up
      the list, and a duplicate-free list stays duplicate-free. */
  lemma {:induction false} PopEachConserves(xs: seq<string>, ds: seq<int>)
    ensures multiset(PopEach(xs, ds).0) + multiset(PopEach(xs, ds).1) == multiset(xs)
    ensures NoDup(xs) ==> NoDup(PopEach(xs, ds).0)
  {
    if ds != [] {
      var d := ds[0];
      if 0 <= d < |xs| {
        RemoveAt(xs, d);
        PopEachConserves(xs[..d] + xs[d + 1..], ds[1..]);
      } else {
        PopEachConserves(xs, ds[1..]);
      }
    }
  }

  /** What delete_urls (ie-mode.py:179-210) does to the list: the list
      that remains and the URLs removed, in the order they are removed.
      'all' in any letter case removes everything in list order; otherwise
      the typed positions pop from the highest down, and nothing happens
      when no position was typed. */
  function DeleteOutcome(urls: seq<string>, choice: string): (r: (seq<string>, seq<string>))
    ensures multiset(r.0) + multiset(r.1) == multiset(urls)
    ensures NoDup(urls) ==> NoDup(r.0)
  {
    if urls == [] then (urls, [])
    else
      var c := Strip(choice);
      if LowerIs(c, "all") then ([], urls)
      else
        var indices := ParseIndices(c);
        if indices == [] then (urls, [])
        else
          PopEachConserves(urls, SortDescending(indices));
          PopEach(urls, SortDescending(indices))
  }

  lemma ToSetSorted(ds: seq<int>)
    ensures ToSet(SortDescending(ds)) == ToSet(ds)
  {
    var s := SortDescending(ds);
    assert forall x :: x in s <==> x in multiset(s);
    assert forall x :: x in ds <==> x in multiset(ds);
  }

  /** Distinct positions remove exactly the entries at the in-range
      positions, keep the others in order, and log the removed ones from
      the highest position down. */
  lemma DeleteDistinctPositions(urls: seq<string>, choice: string)
    requires urls != [] && !LowerIs(Strip(choice), "all")
    requires Distinct(ParseIndices(Strip(choice)))
    ensures var ds := ParseIndices(Strip(choice));
            DeleteOutcome(urls, choice) ==
              (Survivors(urls, ToSet(ds)), Picked(urls, SortDescending(ds)))
  {
    var ds := ParseIndices(Strip(choice));
    if ds != [] {
      SortDistinct(ds);
      PopDescending(urls, SortDescending(ds));
      ToSetSorted(ds);
    } else {
      assert ToSet(ds) == {};
      SurvivorsOnlyInRange(urls, {}, {});
      PopNoneInRange(urls, []);
      assert Picked(urls, []) == [];
      SurvivorsNone(urls);
    }
  }

  lemma {:induction false} SurvivorsNone(xs: seq<string>)
    ensures Survivors(xs, {}) == xs
  {
    if xs != [] {
      SurvivorsNone(xs[..|xs| - 1]);
    }
  }

  /** Typed positions that are all out of range, repeated or not, remove
      nothing and log nothing (unless the line is 'all'). */
  lemma DeleteNoneInRange(urls: seq<string>, choice: string)
    requires !LowerIs(Strip(choice), "all")
    requires forall i :: 0 <= i < |ParseIndices(Strip(choice))| ==>
               ParseIndices(Strip(choice))[i] < 0 || ParseIndices(Strip(choice))[i] >= |urls|
    ensures DeleteOutcome(urls, choice) == (urls, [])
  {
    var indices := ParseIndices(Strip(choice));
    if urls != [] && indices != [] {
      var ds := SortDescending(indices);
      forall i | 0 <= i < |ds|
        ensures ds[i] < 0 || ds[i] >= |urls|
      {
        assert ds[i] in multiset(ds);
        assert ds[i] in indices;
      }
      PopNoneInRange(urls, ds);
    }
  }

  /** 'all' empties the list and logs every entry in list order. */
  lemma DeleteAll(urls: seq<string>, choice: string)
    requires urls != [] && LowerIs(Strip(choice), "all")
    ensures DeleteOutcome(urls, choice) == ([], urls)
  {
  }
}
