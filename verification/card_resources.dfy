/** How cards are found on disk: the Lovelace resource list (from
    `.storage/lovelace` in storage mode, from `ui-lovelace.yaml` otherwise)
    names each card by the URL of its script; local URLs give the card's
    name and, rewritten to the `www` directory, the directory its files are
    downloaded to. Companion scripts (`.lib.js`, `-editor.js`) are derived
    from the main script's URL. */
module CardResources {
  import opened Wrappers
  import opened Text

  /** Python's `s[:n]`. */
  function Head(s: string, n: nat): (r: string)
    ensures StartsWith(s, r) && |r| <= n
    ensures |s| >= n ==> |r| == n
  {
    if |s| <= n then s else s[..n]
  }

  /** `entry['url'][:4] == 'http'`: the resource is served from elsewhere. */
  predicate IsRemote(url: string) {
    Head(url, 4) == "http"
  }

  /** The four-character test is a prefix test. */
  lemma IsRemoteIsPrefix(url: string)
    ensures IsRemote(url) <==> StartsWith(url, "http")
  {
    if StartsWith(url, "http") {
      assert Head(url, 4) == url[..4];
    }
  }

  /** `url.split('/')[-1].split('.js')[0]`: the file name of the URL up to
      its first `.js`, or the whole file name when it has none. */
  function ResourceName(url: string): (r: string)
    ensures !Contains(r, ".js") && StartsWith(AfterLast(url, "/"), r)
    ensures Contains(AfterLast(url, "/"), ".js") ==> OccursAt(AfterLast(url, "/"), ".js", |r|)
    ensures !Contains(AfterLast(url, "/"), ".js") ==> r == AfterLast(url, "/")
  {
    BeforeFirst(AfterLast(url, "/"), ".js")
  }

  lemma OccursAtIndex(s: string, pat: string, i: nat, k: nat)
    requires OccursAt(s, pat, i) && k < |pat|
    ensures s[i + k] == pat[k]
  {
    assert s[i..i + |pat|][k] == s[i + k];
  }

  /** The text after the last `/` of `prefix + "/" + t` is `t` when `t` has
      no `/`. */
  lemma AfterLastSlash(prefix: string, t: string)
    requires '/' !in t
    ensures AfterLast(prefix + "/" + t, "/") == t
  {
    var s := prefix + "/" + t;
    AfterLastNotShorter(prefix, t);
    AfterLastNotLonger(prefix, t);
    assert s[|s| - |t|..] == t;
  }

  lemma AfterLastNotShorter(prefix: string, t: string)
    requires '/' !in t
    ensures |AfterLast(prefix + "/" + t, "/")| >= |t|
  {
    var s := prefix + "/" + t;
    var r := AfterLast(s, "/");
    if |r| < |t| {
      OccursAtIndex(s, "/", |s| - |r| - 1, 0);
      assert false;
    }
  }

  lemma AfterLastNotLonger(prefix: string, t: string)
    requires '/' !in t
    ensures |AfterLast(prefix + "/" + t, "/")| <= |t|
  {
    var s := prefix + "/" + t;
    var r := AfterLast(s, "/");
    assert s[|prefix|] == '/';
    if |r| > |t| {
      assert OccursAt(r, "/", |prefix| - (|s| - |r|));
      assert false;
    }
  }

  /** The text before the first `.js` of `name + ".js" + suffix` is `name`
      when `name` holds no `.js`. */
  lemma BeforeFirstJs(name: string, suffix: string)
    requires !Contains(name, ".js")
    ensures BeforeFirst(name + ".js" + suffix, ".js") == name
  {
    var t := name + ".js" + suffix;
    var n := |name|;
    assert t[n..n + 3] == ".js";
    assert OccursAt(t, ".js", n);
    var r := BeforeFirst(t, ".js");
    if |r| > n {
      assert false;
    }
    if |r| < n {
      if |r| + 3 <= n {
        assert t[|r|..|r| + 3] == name[|r|..|r| + 3];
        assert OccursAt(name, ".js", |r|);
      } else {
        OccursAtIndex(t, ".js", |r|, n - |r|);
      }
      assert false;
    }
    assert t[..n] == name;
  }

  /** The name of a card is the file name of its script: a local URL
      `prefix/name.js…` names the card `name`. */
  lemma ResourceNameOf(prefix: string, name: string, suffix: string)
    requires '/' !in name && '/' !in suffix && !Contains(name, ".js")
    ensures ResourceName(prefix + "/" + name + ".js" + suffix) == name
  {
    var t := name + ".js" + suffix;
    assert prefix + "/" + name + ".js" + suffix == prefix + "/" + t;
    AfterLastSlash(prefix, t);
    BeforeFirstJs(name, suffix);
  }

  /** `localcards`: the names of the local resources, in order. */
  function LocalCards(resources: seq<string>): (r: seq<string>)
    ensures |r| <= |resources|
    decreases |resources|
  {
    if |resources| == 0 then []
    else
      (if IsRemote(resources[0]) then [] else [ResourceName(resources[0])])
      + LocalCards(resources[1..])
  }

  /** A local resource whose name is `name`. */
  predicate NamedBy(url: string, name: string) {
    !IsRemote(url) && ResourceName(url) == name
  }

  /** The loop of `get_card_dir`: the first local resource named `name`. */
  function FindCardUrl(resources: seq<string>, name: string): (r: Option<string>)
    ensures r.Some? ==> exists i :: 0 <= i < |resources| && resources[i] == r.value
                                   && NamedBy(r.value, name)
                                   && forall j :: 0 <= j < i ==> !NamedBy(resources[j], name)
    ensures r.None? ==> forall j :: 0 <= j < |resources| ==> !NamedBy(resources[j], name)
    decreases |resources|
  {
    if |resources| == 0 then None
    else if NamedBy(resources[0], name) then Some(resources[0])
    else
      var r := FindCardUrl(resources[1..], name);
      if r.Some? then
        ghost var i :| 0 <= i < |resources[1..]| && resources[1..][i] == r.value
                       && NamedBy(r.value, name)
                       && forall j :: 0 <= j < i ==> !NamedBy(resources[1..][j], name);
        assert resources[i + 1] == r.value;
        r
      else r
  }

  /** A card's directory is found exactly when the card is one of the
      local cards. */
  lemma {:induction false} FindCardUrlLocal(resources: seq<string>, name: string)
    ensures FindCardUrl(resources, name).Some? <==> name in LocalCards(resources)
    decreases |resources|
  {
    if |resources| > 0 {
      FindCardUrlLocal(resources[1..], name);
    }
  }

  /** The URL rewritten to a path under the configuration directory: the
      two `replace` calls of `get_card_dir`, each behind its `in` guard. */
  function WwwPath(url: string): string {
    var u1 := if Contains(url, "/customcards/") then Replace(url, "/customcards/", "/www/") else url;
    if Contains(u1, "/local/") then Replace(u1, "/local/", "/www/") else u1
  }

  /** The guards change nothing: the rewrite is two plain `replace` calls. */
  lemma WwwPathUnguarded(url: string)
    ensures WwwPath(url) == Replace(Replace(url, "/customcards/", "/www/"), "/local/", "/www/")
  {
    if !Contains(url, "/customcards/") {
      JoinSplit(url, "/customcards/");
      assert Split(url, "/customcards/") == [url];
    }
    var u1 := Replace(url, "/customcards/", "/www/");
    if !Contains(u1, "/local/") {
      assert Split(u1, "/local/") == [u1];
    }
  }

  /** The directory `get_card_dir` stores: the configuration directory and
      the rewritten URL, up to the first `name.js`. */
  function CardDir(baseDir: string, url: string, name: string): string {
    BeforeFirst(baseDir + WwwPath(url), name + ".js")
  }

  /** The file the upgrade writes, the stored directory followed by
      `name.js`, is the path the rewritten URL points to (up to anything
      after the first `name.js`). */
  lemma CardDirFile(baseDir: string, url: string, name: string)
    requires Contains(baseDir + WwwPath(url), name + ".js")
    ensures StartsWith(baseDir + WwwPath(url), CardDir(baseDir, url, name) + name + ".js")
    ensures !Contains(CardDir(baseDir, url, name), name + ".js")
  {
    var p := baseDir + WwwPath(url);
    var d := CardDir(baseDir, url, name);
    var pat := name + ".js";
    assert p[..|d| + |pat|] == p[..|d|] + p[|d|..|d| + |pat|];
  }

  /** `remote_location[:-3] + '.lib.js'`. */
  function LibUrl(remote: string): string {
    DropLast(remote, 3) + ".lib.js"
  }

  /** `remote_location[:-3] + '-editor.js'`. */
  function EditorUrl(remote: string): string {
    DropLast(remote, 3) + "-editor.js"
  }

  /** For a script `stem.js` the companions are `stem.lib.js` and
      `stem-editor.js`; for a URL shorter than three characters Python's
      slice leaves nothing of it. */
  lemma CompanionUrls(remote: string)
    ensures forall stem :: remote == stem + ".js" ==>
              LibUrl(remote) == stem + ".lib.js" && EditorUrl(remote) == stem + "-editor.js"
    ensures |remote| < 3 ==> LibUrl(remote) == ".lib.js" && EditorUrl(remote) == "-editor.js"
  {
    forall stem | remote == stem + ".js"
      ensures LibUrl(remote) == stem + ".lib.js" && EditorUrl(remote) == stem + "-editor.js"
    {
      assert DropLast(remote, 3) == stem;
    }
  }
}
