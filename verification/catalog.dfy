/** The remote catalog: the manifests fetched for one add-on category,
    merged by package name into an insertion-ordered mapping (a Python
    dict). A failed fetch is `None`; an entry missing a required key is
    skipped; a later entry for the same name replaces the data but keeps
    the position where the name first appeared. */
module Catalog {
  import opened Wrappers

  datatype Category = Cards | Components | PythonScripts

  /** One value of a manifest object; a key missing from the JSON object is
      `None`. For components and scripts `localLocation` holds the value
      after `common.normalize_path`, which is not part of this model. */
  datatype RawEntry = RawEntry(
    version: Option<string>,
    localLocation: Option<string>,
    remoteLocation: Option<string>,
    visitRepo: Option<string>,
    changelog: Option<string>)

  /** One fetched manifest: its `(name, value)` items in document order. */
  type Source = seq<(string, RawEntry)>

  /** A catalog entry. Card manifests have no `local_location`; card entries
      carry the empty string there and never read it. */
  datatype Entry = Entry(
    name: string,
    version: string,
    localLocation: string,
    remoteLocation: string,
    visitRepo: string,
    changelog: string)

  /** The keys every entry of the category must have. */
  predicate Complete(cat: Category, raw: RawEntry) {
    && raw.version.Some?
    && (cat == Cards || raw.localLocation.Some?)
    && raw.remoteLocation.Some?
    && raw.visitRepo.Some?
    && raw.changelog.Some?
  }

  /** Reading one manifest item; `None` where the source catches a `KeyError`. */
  function ParseEntry(cat: Category, name: string, raw: RawEntry): (r: Option<Entry>)
    ensures r.Some? <==> Complete(cat, raw)
    ensures r.Some? ==> r.value.name == name && Some(r.value.version) == raw.version
    ensures r.Some? ==> Some(r.value.remoteLocation) == raw.remoteLocation
    ensures r.Some? && cat != Cards ==> Some(r.value.localLocation) == raw.localLocation
    ensures r.Some? ==> Some(r.value.visitRepo) == raw.visitRepo && Some(r.value.changelog) == raw.changelog
  {
    if !Complete(cat, raw) then None
    else
      var local := if cat == Cards then "" else raw.localLocation.value;
      Some(Entry(name, raw.version.value, local, raw.remoteLocation.value,
                 raw.visitRepo.value, raw.changelog.value))
  }

  function Names(c: seq<Entry>): (r: seq<string>)
    ensures |r| == |c| && forall i :: 0 <= i < |c| ==> r[i] == c[i].name
  {
    seq(|c|, i requires 0 <= i < |c| => c[i].name)
  }

  lemma NamesConcat(a: seq<Entry>, b: seq<Entry>)
    ensures Names(a + b) == Names(a) + Names(b)
  {
    assert forall i :: 0 <= i < |a + b| ==> Names(a + b)[i] == (Names(a) + Names(b))[i];
  }

  predicate Distinct(xs: seq<string>) {
    forall i, j :: 0 <= i < j < |xs| ==> xs[i] != xs[j]
  }

  /** A catalog is a sequence of entries with pairwise distinct names. */
  predicate Valid(c: seq<Entry>) {
    Distinct(Names(c))
  }

  /** `catalog.get(name)`: the entry stored under `name`. */
  function Lookup(c: seq<Entry>, name: string): (r: Option<Entry>)
    ensures r.Some? <==> name in Names(c)
    ensures r.Some? ==> r.value in c && r.value.name == name
  {
    if |c| == 0 then None
    else if c[0].name == name then Some(c[0])
    else
      NamesConcat([c[0]], c[1..]);
      Lookup(c[1..], name)
  }

  /** In a catalog every entry is found under its own name. */
  lemma {:induction false} LookupMember(c: seq<Entry>, i: nat)
    requires Valid(c) && i < |c|
    ensures Lookup(c, c[i].name) == Some(c[i])
    decreases |c|
  {
    if i > 0 {
      assert Names(c)[0] != Names(c)[i];
      assert Valid(c[1..]) by {
        forall a, b | 0 <= a < b < |c[1..]|
          ensures Names(c[1..])[a] != Names(c[1..])[b]
        {
          assert Names(c)[a + 1] != Names(c)[b + 1];
        }
      }
      LookupMember(c[1..], i - 1);
    }
  }

  /** `catalog[e.name] = e` on a Python dict. */
  function Put(c: seq<Entry>, e: Entry): (r: seq<Entry>)
    decreases |c|
  {
    if |c| == 0 then [e]
    else if c[0].name == e.name then [e] + c[1..]
    else [c[0]] + Put(c[1..], e)
  }

  /** Assigning a key that is present keeps every name in place; a new key
      goes last. */
  lemma {:induction false} PutNames(c: seq<Entry>, e: Entry)
    ensures Names(Put(c, e)) == if e.name in Names(c) then Names(c) else Names(c) + [e.name]
    decreases |c|
  {
    if |c| == 0 {
    } else if c[0].name == e.name {
      NamesConcat([e], c[1..]);
      NamesConcat([c[0]], c[1..]);
    } else {
      var rest := Put(c[1..], e);
      PutNames(c[1..], e);
      NamesConcat([c[0]], c[1..]);
      NamesConcat([c[0]], rest);
      if e.name !in Names(c[1..]) {
        assert Names([c[0]]) + (Names(c[1..]) + [e.name]) == Names(c) + [e.name];
      }
    }
  }

  /** After the assignment the key maps to the new entry and every other key
      to what it mapped to before. */
  lemma {:induction false} PutLookup(c: seq<Entry>, e: Entry, name: string)
    ensures Lookup(Put(c, e), name) == if name == e.name then Some(e) else Lookup(c, name)
    decreases |c|
  {
    if |c| > 0 && c[0].name != e.name {
      PutLookup(c[1..], e, name);
      assert Put(c, e)[1..] == Put(c[1..], e);
    }
  }

  /** Assigning an entry keeps the names distinct. */
  lemma PutValid(c: seq<Entry>, e: Entry)
    requires Valid(c)
    ensures Valid(Put(c, e))
  {
    var r := Put(c, e);
    PutNames(c, e);
    if e.name !in Names(c) {
      assert Names(r) == Names(c) + [e.name];
      forall i, j | 0 <= i < j < |Names(r)| ensures Names(r)[i] != Names(r)[j] {
        if j == |Names(c)| {
          assert Names(r)[i] == Names(c)[i];
        }
      }
    }
  }

  /** The entries of one manifest that have every required key, in order. */
  function Parsed(cat: Category, src: Source): (r: seq<Entry>)
    ensures |r| <= |src|
  {
    if |src| == 0 then []
    else
      var head := match ParseEntry(cat, src[0].0, src[0].1)
        case Some(e) => [e]
        case None => [];
      head + Parsed(cat, src[1..])
  }

  /** Every complete entry of every manifest that was fetched, in the order
      the source's nested loop visits them. */
  function Stream(cat: Category, sources: seq<Option<Source>>): seq<Entry>
  {
    if |sources| == 0 then []
    else FromSource(cat, sources[0]) + Stream(cat, sources[1..])
  }

  /** What one fetch contributes: nothing when it failed. */
  function FromSource(cat: Category, source: Option<Source>): seq<Entry>
  {
    match source
    case None => []
    case Some(src) => Parsed(cat, src)
  }

  /** The dict built by assigning every entry of `s` in turn. */
  function Merge(s: seq<Entry>): seq<Entry>
  {
    if |s| == 0 then [] else Put(Merge(s[..|s| - 1]), s[|s| - 1])
  }

  /** The catalog a full fetch produces (`get_info_all_cards`,
      `get_info_all_components`, `get_info_all_python_scripts`). */
  function Fetch(cat: Category, sources: seq<Option<Source>>): seq<Entry>
  {
    Merge(Stream(cat, sources))
  }

  /** Reference: the last entry of `s` with the given name. */
  function LastWith(s: seq<Entry>, name: string): Option<Entry>
  {
    if |s| == 0 then None
    else if s[|s| - 1].name == name then Some(s[|s| - 1])
    else LastWith(s[..|s| - 1], name)
  }

  /** Reference: `xs` keeping only the first occurrence of each name. */
  function Dedup(xs: seq<string>): seq<string>
  {
    if |xs| == 0 then []
    else
      var d := Dedup(xs[..|xs| - 1]);
      if xs[|xs| - 1] in d then d else d + [xs[|xs| - 1]]
  }

  lemma {:induction false} DedupMembers(xs: seq<string>)
    ensures forall x :: x in Dedup(xs) <==> x in xs
  {
    if |xs| > 0 {
      DedupMembers(xs[..|xs| - 1]);
      assert xs == xs[..|xs| - 1] + [xs[|xs| - 1]];
    }
  }

  /** Merging yields a catalog: every name at most once. */
  lemma {:induction false} MergeValid(s: seq<Entry>)
    ensures Valid(Merge(s))
  {
    if |s| > 0 {
      MergeValid(s[..|s| - 1]);
      PutValid(Merge(s[..|s| - 1]), s[|s| - 1]);
    }
  }

  /** Last writer wins: the merged entry for a name is its last occurrence. */
  lemma {:induction false} MergeLookup(s: seq<Entry>, name: string)
    ensures Lookup(Merge(s), name) == LastWith(s, name)
  {
    if |s| > 0 {
      MergeLookup(s[..|s| - 1], name);
      PutLookup(Merge(s[..|s| - 1]), s[|s| - 1], name);
    }
  }

  /** Dict order: the names appear in the order they were first assigned. */
  lemma {:induction false} MergeNames(s: seq<Entry>)
    ensures Names(Merge(s)) == Dedup(Names(s))
  {
    if |s| > 0 {
      var init := s[..|s| - 1];
      MergeNames(init);
      PutNames(Merge(init), s[|s| - 1]);
      assert Names(s) == Names(init) + [s[|s| - 1].name];
      assert Names(s)[..|s| - 1] == Names(init);
      DedupMembers(Names(init));
    }
  }

  /** Assigning more entries never moves a name already present. */
  lemma {:induction false} MergeKeepsPositions(s: seq<Entry>, t: seq<Entry>)
    ensures |Merge(s)| <= |Merge(s + t)|
    ensures Names(Merge(s)) == Names(Merge(s + t))[..|Merge(s)|]
    decreases |t|
  {
    if |t| == 0 {
      assert s + t == s;
    } else {
      var t' := t[..|t| - 1];
      MergeKeepsPositions(s, t');
      assert (s + t)[..|s + t| - 1] == s + t';
      PutNames(Merge(s + t'), t[|t| - 1]);
    }
  }

  lemma {:induction false} ParsedAppend(cat: Category, a: Source, b: Source)
    ensures Parsed(cat, a + b) == Parsed(cat, a) + Parsed(cat, b)
    decreases |a|
  {
    if |a| == 0 {
      assert a + b == b;
    } else {
      assert (a + b)[1..] == a[1..] + b;
      ParsedAppend(cat, a[1..], b);
    }
  }

  lemma {:induction false} StreamAppend(cat: Category, a: seq<Option<Source>>, b: seq<Option<Source>>)
    ensures Stream(cat, a + b) == Stream(cat, a) + Stream(cat, b)
    decreases |a|
  {
    if |a| == 0 {
      assert a + b == b;
    } else {
      assert (a + b)[1..] == a[1..] + b;
      StreamAppend(cat, a[1..], b);
    }
  }

  lemma {:induction false} LastWithAppend(s: seq<Entry>, t: seq<Entry>, name: string)
    ensures LastWith(s + t, name) == if LastWith(t, name).Some? then LastWith(t, name) else LastWith(s, name)
    decreases |t|
  {
    if |t| == 0 {
      assert s + t == s;
    } else {
      assert (s + t)[..|s + t| - 1] == s + t[..|t| - 1];
      LastWithAppend(s, t[..|t| - 1], name);
    }
  }

  /** A failed fetch contributes nothing: the catalog is the one built from
      the other sources. */
  lemma FailedSourceContributesNothing(cat: Category, before: seq<Option<Source>>, after: seq<Option<Source>>)
    ensures Fetch(cat, before + [None] + after) == Fetch(cat, before + after)
  {
    var none: seq<Option<Source>> := [None];
    assert Stream(cat, none) == [] by {
      assert none[1..] == [];
    }
    StreamAppend(cat, before + none, after);
    StreamAppend(cat, before, none);
    StreamAppend(cat, before, after);
    assert Stream(cat, before + none) == Stream(cat, before) by {
      assert Stream(cat, before) + [] == Stream(cat, before);
    }
  }

  /** An entry missing a required key is skipped and the rest of its
      manifest is still read. */
  lemma IncompleteEntrySkipped(cat: Category, before: seq<Option<Source>>, head: Source, name: string,
                               raw: RawEntry, tail: Source, after: seq<Option<Source>>)
    requires !Complete(cat, raw)
    ensures Fetch(cat, before + [Some(head + [(name, raw)] + tail)] + after)
         == Fetch(cat, before + [Some(head + tail)] + after)
  {
    SkipInManifest(cat, head, name, raw, tail);
    SameContribution(cat, before, Some(head + [(name, raw)] + tail), Some(head + tail), after);
  }

  lemma SkipInManifest(cat: Category, head: Source, name: string, raw: RawEntry, tail: Source)
    requires !Complete(cat, raw)
    ensures Parsed(cat, head + [(name, raw)] + tail) == Parsed(cat, head + tail)
  {
    var item: Source := [(name, raw)];
    assert Parsed(cat, item) == [] by {
      assert item[1..] == [];
    }
    ParsedAppend(cat, head + item, tail);
    ParsedAppend(cat, head, item);
    ParsedAppend(cat, head, tail);
  }

  /** Two fetches that contribute the same entries give the same stream. */
  lemma SameContribution(cat: Category, before: seq<Option<Source>>, x: Option<Source>, y: Option<Source>,
                         after: seq<Option<Source>>)
    requires FromSource(cat, x) == FromSource(cat, y)
    ensures Stream(cat, before + [x] + after) == Stream(cat, before + [y] + after)
  {
    var xs: seq<Option<Source>> := [x];
    var ys: seq<Option<Source>> := [y];
    assert xs[1..] == [] && ys[1..] == [];
    StreamAppend(cat, before + xs, after);
    StreamAppend(cat, before, xs);
    StreamAppend(cat, before + ys, after);
    StreamAppend(cat, before, ys);
  }

  /** A later source overrides an earlier one: a name the later sources
      define takes their data, any other name keeps the earlier data. */
  lemma LaterSourceWins(cat: Category,
                        earlier: seq<Option<Source>>, later: seq<Option<Source>>, name: string)
    ensures var both := Lookup(Fetch(cat, earlier + later), name);
      var late := Lookup(Fetch(cat, later), name);
      both == if late.Some? then late else Lookup(Fetch(cat, earlier), name)
  {
    StreamAppend(cat, earlier, later);
    var s := Stream(cat, earlier);
    var t := Stream(cat, later);
    MergeLookup(s + t, name);
    MergeLookup(s, name);
    MergeLookup(t, name);
    LastWithAppend(s, t, name);
  }

  /** A name already fetched from earlier sources keeps its position when
      later sources redefine it. */
  lemma EarlierNamesKeepPositions(cat: Category,
                                  earlier: seq<Option<Source>>, later: seq<Option<Source>>)
    ensures var a := Names(Fetch(cat, earlier));
      var b := Names(Fetch(cat, earlier + later));
      |a| <= |b| && a == b[..|a|]
  {
    StreamAppend(cat, earlier, later);
    MergeKeepsPositions(Stream(cat, earlier), Stream(cat, later));
  }
}
