/** URL dispatch by substring search, against the URLs the API documents. */
module Routing {
  import opened Seqs
  import opened Strings

  datatype Method = Get | Post | Put | Delete | Other

  /** The handler a request reaches, with the path parameters it is given. */
  datatype Route =
    | Health | Login | CreateApp | ListApps | GetApp(app: string) | DeleteApp(app: string)
    | ListNamespaces(app: string) | CreateNamespace
    | GetConfig(ns: string, key: string) | SetConfig(ns: string, key: string) | DeleteConfig(ns: string, key: string)
    | Publish(ns: string) | GetReleases(ns: string) | Notifications
    | Unhandled    // the URL matches but no branch handles the method: an empty body
    | NotFound

  const APPS := "/api/v1/apps/"
  const NAMESPACES := "/api/v1/namespaces/"

  function ExtractPathParam(url: string, prefix: string, suffix: string): string {
    match Find(url, prefix, 0)
    case None => ""
    case Some(at) =>
      var start := at + |prefix|;
      if suffix == "" then url[start..] else
        match Find(url, suffix, start)
        case None => ""
        case Some(end) => url[start..end]
  }

  predicate StartsWith(target: string, prefix: string) { Find(target, prefix, 0) == Some(0) }
  predicate Has(target: string, pattern: string) { Find(target, pattern, 0).Some? }

  lemma StartsWithIff(target: string, prefix: string)
    ensures StartsWith(target, prefix) <==> OccursAt(target, prefix, 0)
  {
    FindSpec(target, prefix, 0);
  }

  lemma HasIff(target: string, pattern: string)
    ensures Has(target, pattern) <==> Contains(target, pattern)
  {
    FindSpec(target, pattern, 0);
  }

  function Dispatch(target: string, verb: Method): Route {
    if target == "/health" then Health
    else if target == "/api/v1/auth/login" && verb == Post then Login
    else if target == "/api/v1/apps" then
      if verb == Post then CreateApp else if verb == Get then ListApps else Unhandled
    else if StartsWith(target, APPS) && !Has(target, "/namespaces") then
      var app := ExtractPathParam(target, APPS, "");
      if verb == Get then GetApp(app) else if verb == Delete then DeleteApp(app) else Unhandled
    else if StartsWith(target, APPS) && Has(target, "/namespaces") then
      var app := ExtractPathParam(target, APPS, "/namespaces");
      if verb == Get then ListNamespaces(app) else Unhandled
    else if target == "/api/v1/namespaces" && verb == Post then CreateNamespace
    else if StartsWith(target, NAMESPACES) && Has(target, "/keys/") then
      var ns := ExtractPathParam(target, NAMESPACES, "/keys/");
      var key := ExtractPathParam(target, "/keys/", "");
      if verb == Get then GetConfig(ns, key)
      else if verb == Put then SetConfig(ns, key)
      else if verb == Delete then DeleteConfig(ns, key)
      else Unhandled
    else if StartsWith(target, NAMESPACES) && Has(target, "/publish") then
      Publish(ExtractPathParam(target, NAMESPACES, "/publish"))
    else if StartsWith(target, NAMESPACES) && Has(target, "/releases") then
      GetReleases(ExtractPathParam(target, NAMESPACES, "/releases"))
    else if target == "/api/v1/notifications" then Notifications
    else NotFound
  }

  function KeysUrl(ns: string, key: string): string { NAMESPACES + (ns + "/keys/" + key) }
  function PublishUrl(ns: string): string { NAMESPACES + (ns + "/publish") }
  function ReleasesUrl(ns: string): string { NAMESPACES + (ns + "/releases") }
  function AppUrl(app: string): string { APPS + app }
  function AppNamespacesUrl(app: string): string { APPS + (app + "/namespaces") }

  function Segments(id: string): seq<string> { Split(id, '/') }

  // Occurrences of a pattern that begins with a slash.

  /** A slash followed by a word without slashes. */
  predicate SlashWord(p: string) { p != [] && p[0] == '/' && '/' !in p[1..] }

  lemma OccursChar(s: string, p: string, i: nat, j: nat)
    requires OccursAt(s, p, i) && j < |p|
    ensures s[i + j] == p[j]
  {
    assert s[i..i + |p|][j] == p[j];
  }

  lemma OccursWhere(s: string, p: string, i: nat)
    requires i + |p| <= |s| && forall j :: 0 <= j < |p| ==> s[i + j] == p[j]
    ensures OccursAt(s, p, i)
  {
    assert s[i..i + |p|] == p;
  }

  /** An occurrence in `a + b` that lies inside `b` is an occurrence in `b`, and the other way round. */
  lemma OccursShift(a: string, b: string, p: string, i: nat)
    ensures OccursAt(a + b, p, |a| + i) <==> OccursAt(b, p, i)
  {
    if i + |p| <= |b| { assert (a + b)[|a| + i..|a| + i + |p|] == b[i..i + |p|]; }
  }

  lemma OccursInPrefix(a: string, b: string, p: string, i: nat)
    requires i + |p| <= |a|
    ensures OccursAt(a + b, p, i) <==> OccursAt(a, p, i)
  {
    assert (a + b)[i..i + |p|] == a[i..i + |p|];
  }

  /** A slash word cannot straddle a slash. */
  lemma NoStraddle(a: string, b: string, p: string, i: nat)
    requires SlashWord(p) && b != [] && b[0] == '/' && i < |a| && OccursAt(a + b, p, i)
    ensures i + |p| <= |a|
  {
    if i + |p| > |a| {
      OccursChar(a + b, p, i, |a| - i);
    }
  }

  /** An occurrence starts with a slash, so in a slash followed by slash-free text it starts at the front. */
  lemma StartsAtSlash(s: string, p: string, i: nat)
    requires OccursAt(s, p, i) && p != [] && p[0] == '/'
    ensures s[i] == '/'
  {
    OccursChar(s, p, i, 0);
  }

  // Occurrences and segments.

  ghost predicate SomeStartsWith(segments: seq<string>, w: string) {
    exists j :: 0 <= j < |segments| && w <= segments[j]
  }

  lemma SomeStartsWithCons(first: string, rest: seq<string>, w: string)
    ensures SomeStartsWith([first] + rest, w) <==> w <= first || SomeStartsWith(rest, w)
  {
    var all := [first] + rest;
    if w <= first { assert w <= all[0]; }
    if SomeStartsWith(rest, w) {
      var j :| 0 <= j < |rest| && w <= rest[j];
      assert w <= all[j + 1];
    }
    if SomeStartsWith(all, w) {
      var j :| 0 <= j < |all| && w <= all[j];
      if j > 0 { assert w <= rest[j - 1]; }
    }
  }

  /** At the front of "/" + s a slash word matches exactly when the first segment starts with the word. */
  lemma FrontMatches(s: string, w: string)
    requires '/' !in w
    ensures OccursAt("/" + s, "/" + w, 0) <==> w <= Segments(s)[0]
  {
    var text, p := "/" + s, "/" + w;
    if OccursAt(text, p, 0) {
      forall j | 0 <= j < |w| ensures s[j] == w[j] {
        OccursChar(text, p, 0, j + 1);
      }
    }
    if w <= Segments(s)[0] {
      forall j | 0 <= j < |p| ensures text[0 + j] == p[j] {}
      OccursWhere(text, p, 0);
    }
  }

  /** When no occurrence starts inside `a` past its front, only the front and `y` can hold one. */
  lemma ContainsSplit(a: string, y: string, p: string)
    requires forall i: nat :: 0 < i < |a| ==> !OccursAt(a + y, p, i)
    ensures Contains(a + y, p) <==> (a != [] && OccursAt(a + y, p, 0)) || Contains(y, p)
  {
    if Contains(a + y, p) {
      var i: nat :| OccursAt(a + y, p, i);
      if i >= |a| { OccursShift(a, y, p, i - |a|); }
    }
    if Contains(y, p) {
      var i: nat :| OccursAt(y, p, i);
      OccursShift(a, y, p, i);
    }
  }

  /** A pattern that begins with a slash does not start inside a segment. */
  lemma NotInsideSegment(lead: string, a: string, y: string, p: string, i: nat)
    requires '/' !in a && p != [] && p[0] == '/' && |lead| <= i < |lead + a|
    ensures !OccursAt(lead + a + y, p, i)
  {
    if OccursAt(lead + a + y, p, i) { StartsAtSlash(lead + a + y, p, i); }
  }

  lemma {:induction false} WordInSegments(s: string, w: string)
    requires '/' !in w
    ensures Contains("/" + s, "/" + w) <==> SomeStartsWith(Segments(s), w)
    decreases |s|
  {
    var text, p := "/" + s, "/" + w;
    FrontMatches(s, w);
    match IndexOf(s, '/', 0)
    case None =>
      forall i: nat | OccursAt(text, p, i) ensures i == 0 { StartsAtSlash(text, p, i); }
      assert Segments(s) == [s];
      assert SomeStartsWith(Segments(s), w) <==> w <= Segments(s)[0];
    case Some(at) =>
      var a, rest := s[..at], s[at + 1..];
      WordInSegments(rest, w);
      SomeStartsWithCons(a, Segments(rest), w);
      assert text == ("/" + a) + ("/" + rest);
      forall i: nat | 0 < i < |"/" + a| ensures !OccursAt(text, p, i) { NotInsideSegment("/", a, "/" + rest, p, i); }
      ContainsSplit("/" + a, "/" + rest, p);
  }

  lemma WordInLaterSegments(s: string, w: string)
    requires '/' !in w
    ensures Contains(s, "/" + w) <==> SomeStartsWith(Segments(s)[1..], w)
  {
    var p := "/" + w;
    match IndexOf(s, '/', 0)
    case None =>
      forall i: nat ensures !OccursAt(s, p, i) { if OccursAt(s, p, i) { StartsAtSlash(s, p, i); } }
    case Some(at) =>
      var a, rest := s[..at], s[at + 1..];
      WordInSegments(rest, w);
      assert Segments(s)[1..] == Segments(rest);
      assert s == a + ("/" + rest) == "" + a + ("/" + rest);
      forall i: nat | i < |a| ensures !OccursAt(s, p, i) { NotInsideSegment("", a, "/" + rest, p, i); }
      ContainsSplit(a, "/" + rest, p);
  }

  /** At the front of "/" + s + "/" a whole segment matches exactly when it is the first. */
  lemma FrontIsSegment(s: string, w: string)
    requires '/' !in w
    ensures OccursAt("/" + s + "/", "/" + w + "/", 0) <==> w == Segments(s)[0]
  {
    var text, p := "/" + s + "/", "/" + w + "/";
    var first := Segments(s)[0];
    assert first <= s && '/' !in first && text[|first| + 1] == '/';
    if OccursAt(text, p, 0) {
      forall j | 0 <= j < |p| ensures text[j] == p[j] { OccursChar(text, p, 0, j); }
      assert p[|w| + 1] == '/';
      assert |w| == |first|;
      forall j | 0 <= j < |w| ensures w[j] == first[j] { assert text[j + 1] == p[j + 1]; }
    }
    if w == first {
      forall j | 0 <= j < |p| ensures text[0 + j] == p[j] {}
      OccursWhere(text, p, 0);
    }
  }

  lemma {:induction false} WholeSegment(s: string, w: string)
    requires '/' !in w
    ensures Contains("/" + s + "/", "/" + w + "/") <==> w in Segments(s)
    decreases |s|
  {
    var text, p := "/" + s + "/", "/" + w + "/";
    FrontIsSegment(s, w);
    match IndexOf(s, '/', 0)
    case None =>
      forall i: nat | OccursAt(text, p, i) ensures i == 0 { StartsAtSlash(text, p, i); }
    case Some(at) =>
      var a, rest := s[..at], s[at + 1..];
      WholeSegment(rest, w);
      assert text == ("/" + a) + ("/" + rest + "/");
      forall i: nat | 0 < i < |"/" + a| ensures !OccursAt(text, p, i) {
        NotInsideSegment("/", a, "/" + rest + "/", p, i);
      }
      ContainsSplit("/" + a, "/" + rest + "/", p);
  }

  // Searching a whole URL.

  /** The fixed part before the last slash of a prefix: none of the searched patterns starts in it. */
  lemma NotInFixedPart(fixed: string, y: string, p: string, i: nat)
    requires (fixed == "/api/v1/namespaces" && p in {"/keys/", "/publish", "/releases"})
             || (fixed == "/api/v1/apps" && p == "/namespaces")
    requires y != [] && y[0] == '/' && i < |fixed|
    ensures !OccursAt(fixed + y, p, i)
  {
    if OccursAt(fixed + y, p, i) {
      OccursChar(fixed + y, p, i, 0);
      OccursChar(fixed + y, p, i, 1);
    }
  }

  lemma HasMeansContains(fixed: string, y: string, p: string)
    requires (fixed == "/api/v1/namespaces" && p in {"/keys/", "/publish", "/releases"})
             || (fixed == "/api/v1/apps" && p == "/namespaces")
    requires y != [] && y[0] == '/'
    ensures Has(fixed + y, p) <==> Contains(y, p)
  {
    var url := fixed + y;
    HasIff(url, p);
    if Contains(url, p) {
      var at: nat :| OccursAt(url, p, at);
      if at < |fixed| { NotInFixedPart(fixed, y, p, at); }
      OccursShift(fixed, y, p, at - |fixed|);
    }
    if Contains(y, p) {
      var i: nat :| OccursAt(y, p, i);
      OccursShift(fixed, y, p, i);
    }
  }

  /** Searching past a prefix is searching what follows it. */
  lemma {:induction false} FindShifted(prefix: string, tail: string, suffix: string, from: nat)
    ensures Find(prefix + tail, suffix, |prefix| + from)
            == match Find(tail, suffix, from) case Some(at) => Some(|prefix| + at) case None => None
    decreases |tail| - from
  {
    OccursShift(prefix, tail, suffix, from);
    if from + |suffix| <= |tail| && !OccursAt(tail, suffix, from) {
      FindShifted(prefix, tail, suffix, from + 1);
    }
  }

  lemma ExtractAt(prefix: string, tail: string, suffix: string)
    requires suffix != [] && Find(tail, suffix, 0).Some?
    ensures ExtractPathParam(prefix + tail, prefix, suffix) == tail[..Find(tail, suffix, 0).value]
  {
    var url, at := prefix + tail, Find(tail, suffix, 0).value;
    assert Find(url, prefix, 0) == Some(0) by { assert url[0..|prefix|] == prefix; }
    FindShifted(prefix, tail, suffix, 0);
    assert Find(url, suffix, |prefix|) == Some(|prefix| + at);
    assert url[|prefix|..|prefix| + at] == tail[..at];
  }

  /** Cutting between a prefix and the first suffix gives the parameter back when nothing cuts earlier. */
  lemma ExtractIs(prefix: string, param: string, suffix: string, rest: string)
    requires suffix != []
    ensures ExtractPathParam(prefix + (param + suffix + rest), prefix, suffix) == param <==>
            forall i: nat :: i < |param| ==> !OccursAt(param + suffix + rest, suffix, i)
  {
    var tail := param + suffix + rest;
    assert tail[|param|..|param| + |suffix|] == suffix;
    assert OccursAt(tail, suffix, |param|);
    FindSpec(tail, suffix, 0);
    ExtractAt(prefix, tail, suffix);
    var at := Find(tail, suffix, 0).value;
    assert at <= |param|;
    assert |tail[..at]| == at && tail[..|param|] == param;
  }

  // Which branch a URL reaches.

  lemma AtNamespaces(rest: string)
    ensures var url := NAMESPACES + rest;
            && url == "/api/v1/namespaces" + ("/" + rest)
            && StartsWith(url, NAMESPACES) && !StartsWith(url, APPS)
            && url != "/health" && url != "/api/v1/auth/login" && url != "/api/v1/apps" && url != "/api/v1/namespaces"
  {
    var url := NAMESPACES + rest;
    StartsWithIff(url, NAMESPACES);
    StartsWithIff(url, APPS);
    assert url[8] == 'n' && APPS[8] == 'a' && |url| >= 19;
    assert !OccursAt(url, APPS, 0) by {
      assert url[0..13][8] == 'n';
    }
  }

  lemma AtApps(rest: string)
    ensures var url := APPS + rest;
            && url == "/api/v1/apps" + ("/" + rest)
            && StartsWith(url, APPS)
            && url != "/health" && url != "/api/v1/auth/login" && url != "/api/v1/apps"
  {
    var url := APPS + rest;
    StartsWithIff(url, APPS);
    assert |url| >= 13 && url[8] == 'a' && url[9] == 'p';
    assert "/api/v1/auth/login"[9] == 'u';
  }

  /** Text without a slash after "/" + ns + "/" adds no further "/keys/". */
  lemma KeysBeforeTail(ns: string, tail: string)
    requires '/' !in tail
    ensures Contains("/" + ns + "/" + tail, "/keys/") <==> "keys" in Segments(ns)
  {
    var head, p := "/" + ns + "/", "/keys/";
    assert "/" + "keys" + "/" == p;
    WholeSegment(ns, "keys");
    forall i: nat | OccursAt(head + tail, p, i) ensures OccursAt(head, p, i) {
      OccursChar(head + tail, p, i, 5);
      OccursInPrefix(head, tail, p, i);
    }
    if Contains(head, p) {
      var i: nat :| OccursAt(head, p, i);
      OccursInPrefix(head, tail, p, i);
    }
  }

  /** Before the "/keys/" of a keys URL there is another exactly when some segment is "keys". */
  lemma EarlierKeys(ns: string, key: string)
    ensures (exists i: nat :: i <= |ns| && OccursAt("/" + ns + "/keys/" + key, "/keys/", i)) <==> "keys" in Segments(ns)
  {
    var head, p, tail := "/" + ns + "/", "/keys/", "keys/" + key;
    var y := "/" + ns + "/keys/" + key;
    assert "/" + "keys" + "/" == p;
    assert y == head + tail;
    WholeSegment(ns, "keys");
    assert y[|ns| + 1] == '/';
    forall i: nat | i <= |ns| && OccursAt(y, p, i) ensures OccursAt(head, p, i) {
      if i + 6 > |head| {
        OccursChar(y, p, i, |ns| + 1 - i);
      }
      OccursInPrefix(head, tail, p, i);
    }
    if Contains(head, p) {
      var i: nat :| OccursAt(head, p, i);
      OccursInPrefix(head, tail, p, i);
    }
  }

  /** The key is what follows the very first "/keys/" of the URL. */
  lemma ExtractsKey(ns: string, key: string)
    ensures Has(KeysUrl(ns, key), "/keys/")
    ensures ExtractPathParam(KeysUrl(ns, key), "/keys/", "") == key <==> "keys" !in Segments(ns)
  {
    var fixed, y, p := "/api/v1/namespaces", "/" + ns + "/keys/" + key, "/keys/";
    var url := KeysUrl(ns, key);
    assert url == fixed + y;
    assert y[|ns| + 1..|ns| + 7] == p;
    OccursShift(fixed, y, p, |ns| + 1);
    EarlierKeys(ns, key);
    FindSpec(url, p, 0);
    var at := Find(url, p, 0).value;
    if at < |fixed| { NotInFixedPart(fixed, y, p, at); }
    OccursShift(fixed, y, p, at - |fixed|);
    assert url[|fixed| + |ns| + 7..] == key;
    forall i: nat | i <= |ns| && OccursAt(y, p, i) ensures at < |fixed| + |ns| + 1 {
      OccursShift(fixed, y, p, i);
    }
  }

  lemma ExtractsKeysNamespace(ns: string, key: string)
    requires "keys" !in Segments(ns)
    ensures ExtractPathParam(KeysUrl(ns, key), NAMESPACES, "/keys/") == ns
  {
    var tail := ns + "/keys/" + key;
    EarlierKeys(ns, key);
    assert "/" + ns + "/keys/" + key == "/" + tail;
    forall i: nat | i < |ns| ensures !OccursAt(tail, "/keys/", i) {
      OccursShift("/", tail, "/keys/", i);
    }
    ExtractIs(NAMESPACES, ns, "/keys/", key);
  }

  lemma KeysBranch(ns: string, key: string)
    ensures var url := KeysUrl(ns, key);
            var ns', key' := ExtractPathParam(url, NAMESPACES, "/keys/"), ExtractPathParam(url, "/keys/", "");
            && Dispatch(url, Get) == GetConfig(ns', key')
            && Dispatch(url, Put) == SetConfig(ns', key')
            && Dispatch(url, Delete) == DeleteConfig(ns', key')
  {
    AtNamespaces(ns + "/keys/" + key);
    ExtractsKey(ns, key);
  }

  /**
   * The keys URL reaches its own branch for every id and key, and both come back unchanged exactly
   * when no segment of the id is "keys".
   */
  lemma KeysUrlRoundTrip(ns: string, key: string)
    ensures Dispatch(KeysUrl(ns, key), Get) == GetConfig(ns, key) <==> "keys" !in Segments(ns)
    ensures Dispatch(KeysUrl(ns, key), Put) == SetConfig(ns, key) <==> "keys" !in Segments(ns)
    ensures Dispatch(KeysUrl(ns, key), Delete) == DeleteConfig(ns, key) <==> "keys" !in Segments(ns)
    ensures Dispatch(KeysUrl(ns, key), Get).GetConfig?
  {
    KeysBranch(ns, key);
    ExtractsKey(ns, key);
    if "keys" !in Segments(ns) {
      ExtractsKeysNamespace(ns, key);
    }
  }

  /** A parameter before a slash word at the end of the URL is cut early by a later segment starting with it. */
  lemma ExtractBeforeWord(prefix: string, param: string, w: string)
    requires '/' !in w
    ensures ExtractPathParam(prefix + (param + ("/" + w)), prefix, "/" + w) == param
            <==> !SomeStartsWith(Segments(param)[1..], w)
  {
    var p := "/" + w;
    WordInLaterSegments(param, w);
    ExtractIs(prefix, param, p, "");
    assert param + p + "" == param + p;
    forall i: nat | i < |param| ensures OccursAt(param + p, p, i) <==> OccursAt(param, p, i) {
      if OccursAt(param + p, p, i) { NoStraddle(param, p, p, i); }
      if i + |p| <= |param| { OccursInPrefix(param, p, p, i); }
    }
    forall i: nat | OccursAt(param, p, i) ensures i < |param| {}
  }

  /** The branches of a namespace URL, in the order they are tried. */
  lemma NamespaceBranches(rest: string, verb: Method)
    ensures var url := NAMESPACES + rest;
            && (Has(url, "/keys/") ==> !Dispatch(url, verb).Publish? && !Dispatch(url, verb).GetReleases?)
            && (!Has(url, "/keys/") && Has(url, "/publish") ==>
                  Dispatch(url, verb) == Publish(ExtractPathParam(url, NAMESPACES, "/publish")))
            && (!Has(url, "/keys/") && !Has(url, "/publish") && Has(url, "/releases") ==>
                  Dispatch(url, verb) == GetReleases(ExtractPathParam(url, NAMESPACES, "/releases")))
  {
    AtNamespaces(rest);
  }

  lemma EndsWithWord(fixed: string, id: string, p: string)
    requires (fixed == "/api/v1/namespaces" && p in {"/publish", "/releases"})
             || (fixed == "/api/v1/apps" && p == "/namespaces")
    ensures Has(fixed + ("/" + id + p), p)
  {
    var y := "/" + id + p;
    assert y[|id| + 1..|id| + 1 + |p|] == p;
    assert OccursAt(y, p, |id| + 1);
    HasMeansContains(fixed, y, p);
  }

  lemma PublishUrlHas(ns: string)
    ensures Has(PublishUrl(ns), "/keys/") <==> "keys" in Segments(ns)
    ensures Has(PublishUrl(ns), "/publish")
  {
    var y := "/" + ns + "/publish";
    assert PublishUrl(ns) == "/api/v1/namespaces" + y;
    assert y == "/" + ns + "/" + "publish";
    KeysBeforeTail(ns, "publish");
    HasMeansContains("/api/v1/namespaces", y, "/keys/");
    EndsWithWord("/api/v1/namespaces", ns, "/publish");
  }

  /** The publish URL reaches publish with the id unchanged exactly on these ids. */
  lemma PublishUrlRoundTrip(ns: string, verb: Method)
    ensures Dispatch(PublishUrl(ns), verb) == Publish(ns)
            <==> "keys" !in Segments(ns) && !SomeStartsWith(Segments(ns)[1..], "publish")
  {
    NamespaceBranches(ns + "/publish", verb);
    PublishUrlHas(ns);
    assert "/" + "publish" == "/publish";
    ExtractBeforeWord(NAMESPACES, ns, "publish");
  }

  /** No "/publish" in the "/releases" at the end of a releases URL, so all of them are in the id. */
  lemma PublishBeforeReleases(ns: string)
    ensures Contains("/" + ns + "/releases", "/publish") <==> SomeStartsWith(Segments(ns), "publish")
  {
    var head, tail, p := "/" + ns, "/releases", "/publish";
    assert "/" + "publish" == p;
    WordInSegments(ns, "publish");
    forall i: nat | OccursAt(head + tail, p, i) ensures OccursAt(head, p, i) {
      if i >= |head| {
        OccursShift(head, tail, p, i - |head|);
        OccursChar(tail, p, i - |head|, 0);
        OccursChar(tail, p, i - |head|, 1);
      } else {
        NoStraddle(head, tail, p, i);
        OccursInPrefix(head, tail, p, i);
      }
    }
    if Contains(head, p) {
      var i: nat :| OccursAt(head, p, i);
      OccursInPrefix(head, tail, p, i);
    }
  }

  lemma ReleasesUrlHas(ns: string)
    ensures Has(ReleasesUrl(ns), "/keys/") <==> "keys" in Segments(ns)
    ensures Has(ReleasesUrl(ns), "/publish") <==> SomeStartsWith(Segments(ns), "publish")
    ensures Has(ReleasesUrl(ns), "/releases")
  {
    var y := "/" + ns + "/releases";
    assert ReleasesUrl(ns) == "/api/v1/namespaces" + y;
    assert y == "/" + ns + "/" + "releases";
    KeysBeforeTail(ns, "releases");
    HasMeansContains("/api/v1/namespaces", y, "/keys/");
    PublishBeforeReleases(ns);
    HasMeansContains("/api/v1/namespaces", y, "/publish");
    EndsWithWord("/api/v1/namespaces", ns, "/releases");
  }

  /** The releases URL reaches releases with the id unchanged exactly on these ids. */
  lemma ReleasesUrlRoundTrip(ns: string, verb: Method)
    ensures Dispatch(ReleasesUrl(ns), verb) == GetReleases(ns)
            <==> && "keys" !in Segments(ns)
                 && !SomeStartsWith(Segments(ns), "publish")
                 && !SomeStartsWith(Segments(ns)[1..], "releases")
  {
    NamespaceBranches(ns + "/releases", verb);
    ReleasesUrlHas(ns);
    assert "/" + "releases" == "/releases";
    ExtractBeforeWord(NAMESPACES, ns, "releases");
  }

  /** The application URL reaches the application exactly when no segment of its id starts with "namespaces". */
  lemma AppUrlRoundTrip(app: string)
    ensures Dispatch(AppUrl(app), Get) == GetApp(app) <==> !SomeStartsWith(Segments(app), "namespaces")
    ensures Dispatch(AppUrl(app), Delete) == DeleteApp(app) <==> !SomeStartsWith(Segments(app), "namespaces")
  {
    AtApps(app);
    assert "/" + "namespaces" == "/namespaces";
    WordInSegments(app, "namespaces");
    HasMeansContains("/api/v1/apps", "/" + app, "/namespaces");
    assert AppUrl(app)[|APPS|..] == app;
  }

  lemma AppNamespacesUrlHas(app: string)
    ensures Has(AppNamespacesUrl(app), "/namespaces")
  {
    assert AppNamespacesUrl(app) == "/api/v1/apps" + ("/" + app + "/namespaces");
    EndsWithWord("/api/v1/apps", app, "/namespaces");
  }

  lemma AppNamespacesBranch(app: string)
    ensures var url := AppNamespacesUrl(app);
            Dispatch(url, Get) == ListNamespaces(ExtractPathParam(url, APPS, "/namespaces"))
  {
    AtApps(app + "/namespaces");
    AppNamespacesUrlHas(app);
  }

  /** The namespaces URL of an application returns its id exactly when no later segment starts with "namespaces". */
  lemma AppNamespacesUrlRoundTrip(app: string)
    ensures Dispatch(AppNamespacesUrl(app), Get) == ListNamespaces(app)
            <==> !SomeStartsWith(Segments(app)[1..], "namespaces")
  {
    AppNamespacesBranch(app);
    assert "/" + "namespaces" == "/namespaces";
    ExtractBeforeWord(APPS, app, "namespaces");
  }

  lemma NotificationUrlPrefix(query: string)
    ensures var url := "/api/v1/notifications?" + query; !StartsWith(url, APPS) && !StartsWith(url, NAMESPACES)
  {
    var url := "/api/v1/notifications?" + query;
    StartsWithIff(url, APPS);
    StartsWithIff(url, NAMESPACES);
    assert url[0..13][8] == 'n' && APPS[8] == 'a';
    assert url[0..19][9] == 'o' && NAMESPACES[9] == 'a';
  }

  /** A notification URL with the documented query string is never found, whatever the query. */
  lemma NotificationQueryNotFound(query: string, verb: Method)
    ensures Dispatch("/api/v1/notifications?" + query, verb) == NotFound
  {
    var url := "/api/v1/notifications?" + query;
    NotificationUrlPrefix(query);
    assert |url| >= 22 && url[21] == '?';
  }

  // Routes without parameters.

  const LOGIN := "/api/v1/auth/login"
  const CREATE_NAMESPACE := "/api/v1/namespaces"
  const NOTIFICATIONS := "/api/v1/notifications"

  /** None of these URLs falls under the prefixes of the parametrised routes. */
  lemma FixedUrlsApart(url: string)
    requires url == LOGIN || url == CREATE_NAMESPACE || url == NOTIFICATIONS
    ensures !StartsWith(url, APPS) && !StartsWith(url, NAMESPACES)
  {
    StartsWithIff(url, APPS);
    StartsWithIff(url, NAMESPACES);
    if OccursAt(url, APPS, 0) {
      OccursChar(url, APPS, 0, 8);
      OccursChar(url, APPS, 0, 9);
    }
    if OccursAt(url, NAMESPACES, 0) {
      OccursChar(url, NAMESPACES, 0, 8);
      OccursChar(url, NAMESPACES, 0, 9);
    }
  }

  lemma FixedUrlsDiffer()
    ensures "/health" != LOGIN && "/health" != "/api/v1/apps" && LOGIN != "/api/v1/apps"
    ensures CREATE_NAMESPACE !in {"/health", LOGIN, "/api/v1/apps"}
    ensures NOTIFICATIONS !in {"/health", LOGIN, "/api/v1/apps", CREATE_NAMESPACE}
  {
    assert LOGIN[8] == 'a' && CREATE_NAMESPACE[8] == 'n' && NOTIFICATIONS[8] == 'n' && "/api/v1/apps"[8] == 'a';
    assert LOGIN[9] == 'u' && "/api/v1/apps"[9] == 'p' && CREATE_NAMESPACE[9] == 'a' && NOTIFICATIONS[9] == 'o';
    assert "/health"[1] == 'h' && LOGIN[1] == 'a' && CREATE_NAMESPACE[1] == 'a' && NOTIFICATIONS[1] == 'a';
  }

  /** Exactly which URL and method reach each route without parameters. */
  lemma FixedRoutes(target: string, verb: Method)
    ensures Dispatch(target, verb) == Health <==> target == "/health"
    ensures Dispatch(target, verb) == Login <==> target == "/api/v1/auth/login" && verb == Post
    ensures Dispatch(target, verb) == CreateApp <==> target == "/api/v1/apps" && verb == Post
    ensures Dispatch(target, verb) == ListApps <==> target == "/api/v1/apps" && verb == Get
    ensures Dispatch(target, verb) == CreateNamespace <==> target == "/api/v1/namespaces" && verb == Post
    ensures Dispatch(target, verb) == Notifications <==> target == "/api/v1/notifications"
  {
    FixedUrlsDiffer();
    if target == LOGIN || target == CREATE_NAMESPACE || target == NOTIFICATIONS { FixedUrlsApart(target); }
  }

  /** A method a fixed URL does not serve is not found there, except under the applications. */
  lemma OtherMethods(verb: Method)
    ensures verb != Post ==> Dispatch("/api/v1/auth/login", verb) == NotFound
    ensures verb != Post ==> Dispatch("/api/v1/namespaces", verb) == NotFound
    ensures verb != Post && verb != Get ==> Dispatch("/api/v1/apps", verb) == Unhandled
  {
    FixedUrlsDiffer();
    FixedUrlsApart(LOGIN);
    FixedUrlsApart(CREATE_NAMESPACE);
  }

  /** Key and application URLs answer other methods with an empty body, whatever the id. */
  lemma UnhandledMethods(ns: string, key: string, app: string, verb: Method)
    ensures verb == Post || verb == Other ==> Dispatch(KeysUrl(ns, key), verb) == Unhandled
    ensures verb == Post || verb == Put || verb == Other ==> Dispatch(AppUrl(app), verb) == Unhandled
    ensures verb != Get ==> Dispatch(AppNamespacesUrl(app), verb) == Unhandled
  {
    AtNamespaces(ns + "/keys/" + key);
    ExtractsKey(ns, key);
    AtApps(app);
    AtApps(app + "/namespaces");
    AppNamespacesUrlHas(app);
  }

  /** A keys URL that names no namespace at all still reaches the keys, with an empty namespace. */
  lemma KeysWithoutNamespace(key: string)
    requires !Contains("keys/" + key, "/keys/")
    ensures Dispatch(NAMESPACES + ("keys/" + key), Get) == GetConfig("", key)
  {
    var fixed, tail, p := "/api/v1/namespaces", "keys/" + key, "/keys/";
    var url := NAMESPACES + tail;
    AtNamespaces(tail);
    assert url == fixed + ("/" + tail);
    assert ("/" + tail)[0..6] == p;
    OccursShift(fixed, "/" + tail, p, 0);
    FindSpec(url, p, 0);
    var at := Find(url, p, 0).value;
    if at < |fixed| { NotInFixedPart(fixed, "/" + tail, p, at); }
    assert at == 18 && url[24..] == key;
    FindShifted(NAMESPACES, tail, p, 0);
    FindSpec(tail, p, 0);
  }
}
