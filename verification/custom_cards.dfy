/** The cards updater (`CustomCards`): the remote catalog is fetched once
    and kept until a forced refresh; which cards are installed comes from
    the Lovelace resource list; the installed version and the directory of
    each card live in the card store. Every operation returns its result,
    the updater's new state and the actions it performed. */
module CustomCards {
  import opened Wrappers
  import opened Effects
  import opened Catalog
  import opened CardStore
  import opened CardResources
  import Sensor

  /** What the updater reads from outside: the configuration directory,
      the Lovelace mode, the card manifests as fetched (`None` for a failed
      request) and the resource URLs of each Lovelace mode. */
  datatype Env = Env(
    baseDir: string,
    mode: string,
    sources: seq<Option<Source>>,
    storageResources: seq<string>,
    yamlResources: seq<string>)

  /** The updater's fields: `local_cards`, `remote_info`, and the card store
      file it reads and writes. */
  datatype State = State(localCards: seq<string>, remoteInfo: Option<seq<Entry>>, store: StoreFile)

  /** An operation's outcome. */
  datatype Out<T> = Out(result: Result<T, PyError>, state: State, trace: seq<Action>)

  /** The catalog `get_info_all_cards` returns, with the state and actions. */
  datatype Fetched = Fetched(cards: seq<Entry>, state: State, trace: seq<Action>)

  /** The directory `get_card_dir` returns, with the store after it. */
  datatype DirOut = DirOut(dir: Option<string>, store: StoreFile)

  /** A freshly constructed updater over the store found on disk. */
  function Init(store: StoreFile): State {
    State([], None, store)
  }

  /** A cached catalog is always a catalog: names are distinct. */
  predicate Consistent(s: State) {
    s.remoteInfo.Some? ==> Valid(s.remoteInfo.value)
  }

  /** The resources of the configured Lovelace mode. */
  function Resources(env: Env): seq<string> {
    if env.mode == "storage" then env.storageResources else env.yamlResources
  }

  /** `get_info_all_cards(force)`: the cached catalog unless forced or
      there is none yet; otherwise every manifest is fetched and the result
      cached. */
  function GetInfoAllCards(s: State, env: Env, force: bool): (r: Fetched)
    ensures r.state == s.(remoteInfo := Some(r.cards))
    ensures !force && s.remoteInfo.Some? ==> r.cards == s.remoteInfo.value && r.trace == []
    ensures force || s.remoteInfo.None? ==> r.cards == Fetch(Cards, env.sources) && r.trace == [FetchCatalog]
    ensures Consistent(s) ==> Valid(r.cards)
  {
    if !force && s.remoteInfo.Some? then Fetched(s.remoteInfo.value, s, [])
    else
      var cards := Fetch(Cards, env.sources);
      MergeValid(Stream(Cards, env.sources));
      Fetched(cards, s.(remoteInfo := Some(cards)), [FetchCatalog])
  }

  /** Asking again without forcing returns the same catalog and does
      nothing: the catalog is fetched at most once until a forced refresh. */
  lemma GetInfoCached(s: State, env: Env, force: bool)
    ensures var first := GetInfoAllCards(s, env, force);
            GetInfoAllCards(first.state, env, false) == Fetched(first.cards, first.state, [])
  {
  }

  /** `if not self.local_cards: await self.localcards()`. */
  function EnsureLocalCards(s: State, env: Env): (r: State)
    ensures r.remoteInfo == s.remoteInfo && r.store == s.store
    ensures |s.localCards| > 0 ==> r == s
    ensures |s.localCards| == 0 ==> r.localCards == LocalCards(Resources(env))
  {
    if |s.localCards| == 0 then s.(localCards := LocalCards(Resources(env))) else s
  }

  /** Listing the local cards is done once: asking again changes nothing,
      the list is empty only when no resource is local, and a freshly
      listed card is exactly one whose directory `get_card_dir` can find. */
  lemma EnsureLocalCardsStable(s: State, env: Env)
    ensures var r := EnsureLocalCards(s, env);
            && EnsureLocalCards(r, env) == r
            && (|r.localCards| > 0 || LocalCards(Resources(env)) == [])
            && (|s.localCards| == 0 ==>
                  forall n :: n in r.localCards <==> FindCardUrl(Resources(env), n).Some?)
  {
    forall n ensures FindCardUrl(Resources(env), n).Some? <==> n in LocalCards(Resources(env)) {
      FindCardUrlLocal(Resources(env), n);
    }
  }

  /** `get_card_dir(name, force)`: the stored directory unless forced;
      otherwise the directory of the first local resource named `name`,
      which is then stored, or `None` when there is none. */
  function GetCardDir(store: StoreFile, env: Env, name: string, force: bool): (r: DirOut)
    ensures !force && Get(store, name).dir.Some? ==> r == DirOut(Get(store, name).dir, store)
    ensures (force || Get(store, name).dir.None?) ==>
              (r.dir.Some? <==> name in LocalCards(Resources(env)))
    ensures (force || Get(store, name).dir.None?) && r.dir.Some? ==>
              && FindCardUrl(Resources(env), name).Some?
              && r.dir.value == CardDir(env.baseDir, FindCardUrl(Resources(env), name).value, name)
    ensures r.dir.Some? ==> Get(r.store, name).dir == r.dir
    ensures r.dir.None? ==> r.store == store
    ensures Get(r.store, name).version == Get(store, name).version
    ensures forall other :: other != name ==> Get(r.store, other) == Get(store, other)
  {
    var stored := Get(store, name).dir;
    if stored.Some? && !force then DirOut(stored, store)
    else
      FindCardUrlLocal(Resources(env), name);
      match FindCardUrl(Resources(env), name)
      case None => DirOut(None, store)
      case Some(url) =>
        var dir := CardDir(env.baseDir, url, name);
        DirOut(Some(dir), Set(store, name, None, Some(dir)))
  }

  /** Once found, a directory is remembered: asking again without forcing
      returns it and writes nothing. */
  lemma GetCardDirCached(store: StoreFile, env: Env, name: string, force: bool)
    requires GetCardDir(store, env, name, force).dir.Some?
    ensures var first := GetCardDir(store, env, name, force);
            GetCardDir(first.store, env, name, false) == first
  {
  }

  /** `get_remote_version(name)` on the catalog it fetches. */
  function GetRemoteVersion(cards: seq<Entry>, name: string): (r: Option<string>)
    ensures r.Some? <==> name in Names(cards)
    ensures forall e :: e in cards && Valid(cards) && e.name == name ==> r == Some(e.version)
  {
    match Lookup(cards, name)
    case None => None
    case Some(e) =>
      forall e' | e' in cards && Valid(cards) && e'.name == name
        ensures e' == e
      {
        var i :| 0 <= i < |cards| && cards[i] == e';
        LookupMember(cards, i);
      }
      Some(e.version)
  }

  // ---------------------------------------------------------------- sensor

  /** The status of one installed card: `has_update` when the remote
      version is non-empty and differs from the stored one, `not_local`
      when its directory is unknown; it is listed when its directory is
      known and its remote version is non-empty. */
  function CardRow(e: Entry, local: Option<string>, dir: Option<string>): Sensor.Row {
    var hasUpdate := e.version != "" && Some(e.version) != local;
    var status := Sensor.Status(local, e.version, hasUpdate, dir.None?, e.visitRepo, e.changelog);
    Sensor.Row(e.name, status, dir.Some? && e.version != "")
  }

  /** The loop of `get_sensor_data`: cards that are not installed are
      skipped; for the others the stored version is read and the directory
      resolved, which may store it. The loop stops at the first exception,
      keeping the writes made so far. */
  function SensorLoop(cards: seq<Entry>, local: seq<string>, env: Env, store: StoreFile,
                      acc: Sensor.Report): (Result<Sensor.Report, PyError>, StoreFile)
    decreases |cards|
  {
    if |cards| == 0 then (Ok(acc), store)
    else
      var e := cards[0];
      if e.name !in local then SensorLoop(cards[1..], local, env, store, acc)
      else
        var d := GetCardDir(store, env, e.name, false);
        var row := CardRow(e, Get(store, e.name).version, d.dir);
        match Sensor.AddRow(acc, row)
        case Err(x) => (Err(x), d.store)
        case Ok(next) => SensorLoop(cards[1..], local, env, d.store, next)
  }

  /** Reference: the rows of the installed cards, all computed from the
      store as it was before the loop. */
  function Rows(cards: seq<Entry>, local: seq<string>, env: Env, store: StoreFile): seq<Sensor.Row>
    decreases |cards|
  {
    if |cards| == 0 then []
    else
      var e := cards[0];
      var head :=
        if e.name !in local then []
        else [CardRow(e, Get(store, e.name).version, GetCardDir(store, env, e.name, false).dir)];
      head + Rows(cards[1..], local, env, store)
  }

  /** Reference: the installed cards with a known directory whose remote
      version is non-empty and differs from the stored one, in catalog
      order. */
  function UpdatableCards(cards: seq<Entry>, local: seq<string>, env: Env, store: StoreFile): seq<string>
    decreases |cards|
  {
    if |cards| == 0 then []
    else
      var e := cards[0];
      var updatable := e.name in local && GetCardDir(store, env, e.name, false).dir.Some?
                       && e.version != "" && Some(e.version) != Get(store, e.name).version;
      (if updatable then [e.name] else []) + UpdatableCards(cards[1..], local, env, store)
  }

  /** The counted rows are exactly the updatable cards, and no listed card
      is marked as not local. */
  lemma {:induction false} CountedCards(cards: seq<Entry>, local: seq<string>, env: Env, store: StoreFile)
    ensures Sensor.CountedNames(Rows(cards, local, env, store)) == UpdatableCards(cards, local, env, store)
    ensures forall i :: 0 <= i < |Rows(cards, local, env, store)| && Rows(cards, local, env, store)[i].visible
              ==> !Rows(cards, local, env, store)[i].status.notLocal
    decreases |cards|
  {
    if |cards| > 0 {
      var e := cards[0];
      var rows := Rows(cards, local, env, store);
      var tail := Rows(cards[1..], local, env, store);
      CountedCards(cards[1..], local, env, store);
      if e.name in local {
        var row := CardRow(e, Get(store, e.name).version, GetCardDir(store, env, e.name, false).dir);
        assert rows == [row] + tail;
        assert rows[1..] == tail;
        assert Sensor.CountedNames(rows) == (if Sensor.Counts(row) then [row.name] else []) + Sensor.CountedNames(tail);
        forall i | 1 <= i < |rows| ensures rows[i] == tail[i - 1] {
        }
      } else {
        assert rows == tail;
      }
    }
  }

  predicate DistinctCards(cards: seq<Entry>) {
    forall i, j :: 0 <= i < j < |cards| ==> cards[i].name != cards[j].name
  }

  lemma ValidDistinct(cards: seq<Entry>)
    requires Valid(cards)
    ensures DistinctCards(cards)
  {
    forall i, j | 0 <= i < j < |cards|
      ensures cards[i].name != cards[j].name
    {
      assert Names(cards)[i] != Names(cards)[j];
    }
  }

  /** The rows depend on the store only through the records of the cards. */
  lemma {:induction false} RowsFrame(cards: seq<Entry>, local: seq<string>, env: Env, s1: StoreFile, s2: StoreFile)
    requires forall i :: 0 <= i < |cards| ==> Get(s1, cards[i].name) == Get(s2, cards[i].name)
    ensures Rows(cards, local, env, s1) == Rows(cards, local, env, s2)
    decreases |cards|
  {
    if |cards| > 0 {
      RowsFrame(cards[1..], local, env, s1, s2);
    }
  }

  lemma DistinctTail(cards: seq<Entry>)
    requires DistinctCards(cards) && |cards| > 0
    ensures DistinctCards(cards[1..])
    ensures forall i :: 0 <= i < |cards[1..]| ==> cards[1..][i].name != cards[0].name
  {
    var rest := cards[1..];
    forall i, j | 0 <= i < j < |rest| ensures rest[i].name != rest[j].name {
      assert rest[i] == cards[i + 1] && rest[j] == cards[j + 1];
    }
    forall i | 0 <= i < |rest| ensures rest[i].name != cards[0].name {
      assert rest[i] == cards[i + 1];
    }
  }

  /** Each card's row is computed as if no other card had been looked at:
      the loop is the sensor fold over the reference rows. */
  lemma {:induction false} SensorLoopRows(cards: seq<Entry>, local: seq<string>, env: Env,
                                          store: StoreFile, acc: Sensor.Report)
    requires DistinctCards(cards)
    ensures SensorLoop(cards, local, env, store, acc).0 == Sensor.Fold(acc, Rows(cards, local, env, store))
    decreases |cards|
  {
    if |cards| > 0 {
      var e := cards[0];
      var rest := cards[1..];
      DistinctTail(cards);
      if e.name !in local {
        assert Rows(cards, local, env, store) == [] + Rows(rest, local, env, store);
        assert [] + Rows(rest, local, env, store) == Rows(rest, local, env, store);
        assert SensorLoop(cards, local, env, store, acc) == SensorLoop(rest, local, env, store, acc);
        SensorLoopRows(rest, local, env, store, acc);
      } else {
        var d := GetCardDir(store, env, e.name, false);
        var row := CardRow(e, Get(store, e.name).version, d.dir);
        var tailRows := Rows(rest, local, env, store);
        assert Rows(cards, local, env, store) == [row] + tailRows;
        assert Sensor.Fold(acc, [row] + tailRows) == match Sensor.AddRow(acc, row)
          case Err(x) => Err(x)
          case Ok(next) => Sensor.Fold(next, tailRows)
        by {
          assert ([row] + tailRows)[0] == row;
          assert ([row] + tailRows)[1..] == tailRows;
        }
        if Sensor.AddRow(acc, row).Ok? {
          var next := Sensor.AddRow(acc, row).value;
          SensorLoopRows(rest, local, env, d.store, next);
          RowsFrame(rest, local, env, d.store, store);
        }
      }
    }
  }

  /** The loop never changes a stored version. */
  lemma {:induction false} SensorLoopStore(cards: seq<Entry>, local: seq<string>, env: Env,
                                           store: StoreFile, acc: Sensor.Report)
    ensures forall n :: Get(SensorLoop(cards, local, env, store, acc).1, n).version == Get(store, n).version
    decreases |cards|
  {
    if |cards| > 0 {
      var e := cards[0];
      if e.name !in local {
        assert SensorLoop(cards, local, env, store, acc) == SensorLoop(cards[1..], local, env, store, acc);
        SensorLoopStore(cards[1..], local, env, store, acc);
      } else {
        var d := GetCardDir(store, env, e.name, false);
        var res := Sensor.AddRow(acc, CardRow(e, Get(store, e.name).version, d.dir));
        if res.Ok? {
          assert SensorLoop(cards, local, env, store, acc) == SensorLoop(cards[1..], local, env, d.store, res.value);
          SensorLoopStore(cards[1..], local, env, d.store, res.value);
        } else {
          assert SensorLoop(cards, local, env, store, acc).1 == d.store;
        }
      }
    }
  }

  /** The loop touches no card it does not list as installed. */
  lemma {:induction false} SensorLoopOthers(cards: seq<Entry>, local: seq<string>, env: Env,
                                            store: StoreFile, acc: Sensor.Report, n: string)
    requires n !in local || n !in Names(cards)
    ensures Get(SensorLoop(cards, local, env, store, acc).1, n) == Get(store, n)
    decreases |cards|
  {
    if |cards| > 0 {
      var e := cards[0];
      NamesConcat([e], cards[1..]);
      assert cards == [e] + cards[1..];
      if e.name !in local {
        assert SensorLoop(cards, local, env, store, acc) == SensorLoop(cards[1..], local, env, store, acc);
        SensorLoopOthers(cards[1..], local, env, store, acc, n);
      } else {
        assert n != e.name;
        var d := GetCardDir(store, env, e.name, false);
        var res := Sensor.AddRow(acc, CardRow(e, Get(store, e.name).version, d.dir));
        if res.Ok? {
          assert SensorLoop(cards, local, env, store, acc) == SensorLoop(cards[1..], local, env, d.store, res.value);
          SensorLoopOthers(cards[1..], local, env, d.store, res.value, n);
        } else {
          assert SensorLoop(cards, local, env, store, acc).1 == d.store;
        }
      }
    }
  }

  /** An updatable card is an installed catalog card whose directory is known. */
  lemma {:induction false} UpdatableMembers(cards: seq<Entry>, local: seq<string>, env: Env, store: StoreFile, n: string)
    requires n in UpdatableCards(cards, local, env, store)
    ensures n in local && n in Names(cards) && GetCardDir(store, env, n, false).dir.Some?
    decreases |cards|
  {
    var e := cards[0];
    NamesConcat([e], cards[1..]);
    assert cards == [e] + cards[1..];
    var updatable := e.name in local && GetCardDir(store, env, e.name, false).dir.Some?
                     && e.version != "" && Some(e.version) != Get(store, e.name).version;
    if !(updatable && n == e.name) {
      UpdatableMembers(cards[1..], local, env, store, n);
    }
  }

  /** The directory lookup depends on the store only through the card's own
      stored directory. */
  lemma GetCardDirSame(s1: StoreFile, s2: StoreFile, env: Env, name: string)
    requires Get(s1, name).dir == Get(s2, name).dir
    ensures GetCardDir(s1, env, name, false).dir == GetCardDir(s2, env, name, false).dir
  {
  }

  /** When the sensor loop completes, every installed catalog card has the
      directory a lookup on the store before the loop finds, now stored. */
  lemma {:induction false} SensorLoopDirs(cards: seq<Entry>, local: seq<string>, env: Env,
                                          store: StoreFile, acc: Sensor.Report, n: string)
    requires DistinctCards(cards)
    requires SensorLoop(cards, local, env, store, acc).0.Ok?
    requires n in local && n in Names(cards)
    ensures Get(SensorLoop(cards, local, env, store, acc).1, n).dir == GetCardDir(store, env, n, false).dir
    decreases |cards|
  {
    var e := cards[0];
    var rest := cards[1..];
    DistinctTail(cards);
    NamesConcat([e], rest);
    assert cards == [e] + rest;
    if e.name !in local {
      assert SensorLoop(cards, local, env, store, acc) == SensorLoop(rest, local, env, store, acc);
      SensorLoopDirs(rest, local, env, store, acc, n);
    } else {
      var d := GetCardDir(store, env, e.name, false);
      var res := Sensor.AddRow(acc, CardRow(e, Get(store, e.name).version, d.dir));
      assert res.Ok?;
      assert SensorLoop(cards, local, env, store, acc) == SensorLoop(rest, local, env, d.store, res.value);
      if n == e.name {
        assert n !in Names(rest);
        SensorLoopOthers(rest, local, env, d.store, res.value, n);
      } else {
        SensorLoopDirs(rest, local, env, d.store, res.value, n);
        GetCardDirSame(d.store, store, env, n);
      }
    }
  }

  /** `get_sensor_data()`: the sensor dict and the count, in the state after
      the local cards are listed, the catalog fetched if needed and the
      directories resolved. */
  function GetSensorData(s: State, env: Env): Out<Sensor.Report> {
    var s1 := EnsureLocalCards(s, env);
    var f := GetInfoAllCards(s1, env, false);
    var loop := SensorLoop(f.cards, f.state.localCards, env, f.state.store, Sensor.Initial("custom_cards"));
    Out(loop.0, f.state.(store := loop.1), f.trace)
  }

  /** The sensor data is the sensor fold over the rows of the installed
      cards in catalog order, each computed from the store as it was; the
      operation fetches at most once and changes no stored version. */
  lemma GetSensorDataSpec(s: State, env: Env)
    requires Consistent(s)
    ensures var s1 := EnsureLocalCards(s, env);
            var f := GetInfoAllCards(s1, env, false);
            var out := GetSensorData(s, env);
            && out.result == Sensor.Build("custom_cards", Rows(f.cards, s1.localCards, env, s1.store))
            && out.state.localCards == s1.localCards
            && out.state.remoteInfo == Some(f.cards)
            && out.trace == f.trace && |out.trace| <= 1
            && forall n :: Get(out.state.store, n).version == Get(s.store, n).version
  {
    var s1 := EnsureLocalCards(s, env);
    var f := GetInfoAllCards(s1, env, false);
    ValidDistinct(f.cards);
    SensorLoopRows(f.cards, f.state.localCards, env, f.state.store, Sensor.Initial("custom_cards"));
    SensorLoopStore(f.cards, f.state.localCards, env, f.state.store, Sensor.Initial("custom_cards"));
  }

  // -------------------------------------------------------------- upgrades

  /** The three scripts of a card an upgrade downloads. */
  datatype Script = Main | Lib | Editor

  /** The local file name suffix of a script. */
  function Suffix(k: Script): string {
    match k
    case Main => ".js"
    case Lib => ".lib.js"
    case Editor => "-editor.js"
  }

  /** The URL a script is downloaded from. */
  function ScriptUrl(k: Script, remote: string): string {
    match k
    case Main => remote
    case Lib => LibUrl(remote)
    case Editor => EditorUrl(remote)
  }

  /** Actions of `first` followed by `second`, with `second`'s result. */
  function Then(first: Out<()>, second: Out<()>): Out<()> {
    Out(second.result, second.state, first.trace + second.trace)
  }

  /** The download step of `upgrade_single` (`Main`), `upgrade_lib` and
      `upgrade_editor`: the card's catalog entry (`KeyError` when there is
      none), its directory (`TypeError` when unknown, from `None + str`),
      then the download into that directory. */
  function UpgradeScript(s: State, env: Env, name: string, k: Script): Out<()> {
    var f := GetInfoAllCards(s, env, false);
    match Lookup(f.cards, name)
    case None => Out(Err(KeyError(name)), f.state, f.trace)
    case Some(e) =>
      var d := GetCardDir(f.state.store, env, name, false);
      match d.dir
      case None => Out(Err(TypeError), f.state.(store := d.store), f.trace)
      case Some(dir) =>
        Out(Ok(()), f.state.(store := d.store),
            f.trace + [Download(dir + name + Suffix(k), ScriptUrl(k, e.remoteLocation))])
  }

  /** `update_resource_version(name)`: the catalog version is stored as the
      installed one. */
  function UpdateResourceVersion(s: State, env: Env, name: string): Out<()> {
    var f := GetInfoAllCards(s, env, false);
    match Lookup(f.cards, name)
    case None => Out(Err(KeyError(name)), f.state, f.trace)
    case Some(e) => Out(Ok(()), f.state.(store := Set(f.state.store, name, Some(e.version), None)), f.trace)
  }

  /** `upgrade_single(name)`: the card's script is downloaded, then the
      rest of the upgrade runs; the first exception ends the upgrade. */
  function UpgradeSingle(s: State, env: Env, name: string): Out<()> {
    var o1 := UpgradeScript(s, env, name, Main);
    if o1.result.Err? then o1 else Then(o1, Companions(o1.state, env, name))
  }

  /** The rest of `upgrade_single`: `upgrade_lib`, `upgrade_editor` and
      `update_resource_version`, in that order. */
  function Companions(s: State, env: Env, name: string): Out<()> {
    var o2 := UpgradeScript(s, env, name, Lib);
    if o2.result.Err? then o2
    else
      var o3 := Then(o2, UpgradeScript(o2.state, env, name, Editor));
      if o3.result.Err? then o3
      else Then(o3, UpdateResourceVersion(o3.state, env, name))
  }

  /** The three downloads of an upgraded card, in order. */
  function CardDownloads(dir: string, name: string, remote: string): seq<Action> {
    [Download(dir + name + ".js", remote),
     Download(dir + name + ".lib.js", LibUrl(remote)),
     Download(dir + name + "-editor.js", EditorUrl(remote))]
  }

  /** One download step on a consistent state: `KeyError` without a
      catalog entry, `TypeError` without a directory, otherwise the one
      download; only the directory lookup may write to the store. */
  lemma ScriptStep(s: State, env: Env, name: string, k: Script)
    requires Consistent(s)
    ensures var f := GetInfoAllCards(s, env, false);
            var d := GetCardDir(s.store, env, name, false);
            var out := UpgradeScript(s, env, name, k);
            && (name !in Names(f.cards) ==> out == Out(Err(KeyError(name)), f.state, f.trace))
            && (name in Names(f.cards) && d.dir.None? ==> out == Out(Err(TypeError), f.state, f.trace))
            && (name in Names(f.cards) && d.dir.Some? ==>
                  out == Out(Ok(()), f.state.(store := d.store),
                             f.trace + [Download(d.dir.value + name + Suffix(k),
                                                 ScriptUrl(k, Lookup(f.cards, name).value.remoteLocation))]))
  {
  }

  /** An upgrade raises `KeyError` for a card missing from the catalog and
      `TypeError` for one whose directory is unknown (not stored and not a
      local resource), in both cases having fetched at most once and
      changed nothing else. Otherwise it downloads the script, library and
      editor into the card's directory, from the catalog URL and the two
      URLs derived from it, records the catalog version and the directory,
      and changes no other card. */
  lemma UpgradeSingleSpec(s: State, env: Env, name: string)
    requires Consistent(s)
    ensures var f := GetInfoAllCards(s, env, false);
            var out := UpgradeSingle(s, env, name);
            && out.state.remoteInfo == Some(f.cards) && out.state.localCards == s.localCards
            && (name !in Names(f.cards) ==>
                  out.result == Err(KeyError(name)) && out.state == f.state && out.trace == f.trace)
            && (name in Names(f.cards) && GetCardDir(s.store, env, name, false).dir.None? ==>
                  out.result == Err(TypeError) && out.state == f.state && out.trace == f.trace)
            && (name in Names(f.cards) && GetCardDir(s.store, env, name, false).dir.Some? ==>
                  var e := Lookup(f.cards, name).value;
                  var dir := GetCardDir(s.store, env, name, false).dir.value;
                  && out.result == Ok(())
                  && out.trace == f.trace + CardDownloads(dir, name, e.remoteLocation)
                  && Get(out.state.store, name) == Record(Some(e.version), Some(dir))
                  && forall other :: other != name ==> Get(out.state.store, other) == Get(s.store, other))
  {
    var f := GetInfoAllCards(s, env, false);
    var d := GetCardDir(s.store, env, name, false);
    ScriptStep(s, env, name, Main);
    if name in Names(f.cards) && d.dir.Some? {
      UpgradeSingleOk(s, env, name, Lookup(f.cards, name).value, d.dir.value);
    }
  }

  /** The upgrade of a catalog card whose directory is known: the three
      downloads, with the version recorded in the store the directory
      lookup left. */
  lemma UpgradeSingleOk(s: State, env: Env, name: string, e: Entry, dir: string)
    requires Consistent(s)
    requires Lookup(GetInfoAllCards(s, env, false).cards, name) == Some(e)
    requires GetCardDir(s.store, env, name, false).dir == Some(dir)
    ensures var f := GetInfoAllCards(s, env, false);
            var d := GetCardDir(s.store, env, name, false);
            UpgradeSingle(s, env, name)
            == Out(Ok(()), f.state.(store := Set(d.store, name, Some(e.version), None)),
                   f.trace + CardDownloads(dir, name, e.remoteLocation))
  {
    var f := GetInfoAllCards(s, env, false);
    var d := GetCardDir(s.store, env, name, false);
    var s1 := f.state.(store := d.store);
    MainOk(s, env, name, e, dir);
    CompanionsOk(s1, env, name, e, dir);
    var o1 := UpgradeScript(s, env, name, Main);
    assert UpgradeSingle(s, env, name) == Then(o1, Companions(s1, env, name));
    ThreeSteps(f.trace, Download(dir + name + ".js", e.remoteLocation),
               Download(dir + name + ".lib.js", LibUrl(e.remoteLocation)),
               Download(dir + name + "-editor.js", EditorUrl(e.remoteLocation)));
  }

  lemma ThreeSteps(t: seq<Action>, a: Action, b: Action, c: Action)
    ensures t + [a] + [b, c] == t + [a, b, c]
  {
  }

  /** The script step of an upgrade whose catalog entry and directory are
      known: the one download, into the directory the lookup left stored. */
  lemma MainOk(s: State, env: Env, name: string, e: Entry, dir: string)
    requires Lookup(GetInfoAllCards(s, env, false).cards, name) == Some(e)
    requires GetCardDir(s.store, env, name, false).dir == Some(dir)
    ensures var f := GetInfoAllCards(s, env, false);
            var d := GetCardDir(s.store, env, name, false);
            && Get(d.store, name).dir == Some(dir)
            && UpgradeScript(s, env, name, Main)
               == Out(Ok(()), f.state.(store := d.store), f.trace + [Download(dir + name + ".js", e.remoteLocation)])
  {
  }

  /** After the script is in place, with the catalog cached and the
      directory stored, the rest of the upgrade downloads the two companions
      and records the version. */
  lemma CompanionsOk(s1: State, env: Env, name: string, e: Entry, dir: string)
    requires s1.remoteInfo.Some? && Valid(s1.remoteInfo.value)
    requires Lookup(s1.remoteInfo.value, name) == Some(e)
    requires Get(s1.store, name).dir == Some(dir)
    ensures Companions(s1, env, name)
            == Out(Ok(()), s1.(store := Set(s1.store, name, Some(e.version), None)),
                   [Download(dir + name + ".lib.js", LibUrl(e.remoteLocation)),
                    Download(dir + name + "-editor.js", EditorUrl(e.remoteLocation))])
  {
    ScriptCached(s1, env, name, e, dir, Lib);
    ScriptCached(s1, env, name, e, dir, Editor);
    var u := UpdateResourceVersion(s1, env, name);
    assert u == Out(Ok(()), s1.(store := Set(s1.store, name, Some(e.version), None)), []);
  }

  /** With the catalog cached and the directory stored, a download step
      changes nothing and downloads the one script. */
  lemma ScriptCached(s1: State, env: Env, name: string, e: Entry, dir: string, k: Script)
    requires s1.remoteInfo.Some? && Valid(s1.remoteInfo.value)
    requires Lookup(s1.remoteInfo.value, name) == Some(e)
    requires Get(s1.store, name).dir == Some(dir)
    ensures UpgradeScript(s1, env, name, k)
            == Out(Ok(()), s1, [Download(dir + name + Suffix(k), ScriptUrl(k, e.remoteLocation))])
  {
    assert GetInfoAllCards(s1, env, false) == Fetched(s1.remoteInfo.value, s1, []);
    assert GetCardDir(s1.store, env, name, false) == DirOut(Some(dir), s1.store);
  }

  /** `for name in updates: upgrade_single(name)`, stopping at the first
      exception. */
  function UpgradeAll(s: State, env: Env, names: seq<string>): Out<()>
    decreases |names|
  {
    if |names| == 0 then Out(Ok(()), s, [])
    else
      var o := UpgradeSingle(s, env, names[0]);
      if o.result.Err? then o else Then(o, UpgradeAll(o.state, env, names[1..]))
  }

  /** After upgrading a list of catalog cards every card of the list holds
      its catalog version and every other card keeps its version; the
      cached catalog is not refreshed on the way. */
  lemma {:induction false} UpgradeAllVersions(s: State, env: Env, names: seq<string>)
    requires s.remoteInfo.Some? && Valid(s.remoteInfo.value)
    ensures UpgradeAll(s, env, names).state.remoteInfo == s.remoteInfo
    ensures UpgradeAll(s, env, names).result.Ok? ==>
              forall n :: n in names ==>
                Get(UpgradeAll(s, env, names).state.store, n).version == GetRemoteVersion(s.remoteInfo.value, n)
                && GetRemoteVersion(s.remoteInfo.value, n).Some?
    ensures forall n :: n !in names ==>
              Get(UpgradeAll(s, env, names).state.store, n).version == Get(s.store, n).version
    decreases |names|
  {
    if |names| > 0 {
      UpgradeSingleSpec(s, env, names[0]);
      var o := UpgradeSingle(s, env, names[0]);
      if o.result.Ok? {
        UpgradeAllVersions(o.state, env, names[1..]);
      }
    }
  }

  /** Reference: the downloads of upgrading `names` in order, each card
      from its catalog URL into the directory a lookup on `store` finds. */
  function UpgradeDownloads(cards: seq<Entry>, names: seq<string>, env: Env, store: StoreFile): seq<Action>
    decreases |names|
  {
    if |names| == 0 then []
    else
      var n := names[0];
      var here := match (Lookup(cards, n), GetCardDir(store, env, n, false).dir)
        case (Some(e), Some(dir)) => CardDownloads(dir, n, e.remoteLocation)
        case _ => [];
      here + UpgradeDownloads(cards, names[1..], env, store)
  }

  lemma {:induction false} UpgradeDownloadsFrame(cards: seq<Entry>, names: seq<string>, env: Env,
                                                 s1: StoreFile, s2: StoreFile)
    requires forall i :: 0 <= i < |names| ==>
               GetCardDir(s1, env, names[i], false).dir == GetCardDir(s2, env, names[i], false).dir
    ensures UpgradeDownloads(cards, names, env, s1) == UpgradeDownloads(cards, names, env, s2)
    decreases |names|
  {
    if |names| > 0 {
      UpgradeDownloadsFrame(cards, names[1..], env, s1, s2);
    }
  }

  /** With the catalog cached and every listed card in it with a stored
      directory, upgrading the list cannot fail: it performs exactly the
      three downloads of each card, in list order, and fetches nothing. */
  lemma {:induction false} UpgradeAllCached(s: State, env: Env, names: seq<string>)
    requires s.remoteInfo.Some? && Valid(s.remoteInfo.value)
    requires forall i :: 0 <= i < |names| ==>
               names[i] in Names(s.remoteInfo.value) && Get(s.store, names[i]).dir.Some?
    ensures UpgradeAll(s, env, names).result.Ok?
    ensures UpgradeAll(s, env, names).trace == UpgradeDownloads(s.remoteInfo.value, names, env, s.store)
    decreases |names|
  {
    if |names| > 0 {
      var cards := s.remoteInfo.value;
      var n := names[0];
      var e := Lookup(cards, n).value;
      var dir := Get(s.store, n).dir.value;
      var rest := names[1..];
      UpgradeSingleOk(s, env, n, e, dir);
      var o := UpgradeSingle(s, env, n);
      assert o == Out(Ok(()), s.(store := Set(s.store, n, Some(e.version), None)), CardDownloads(dir, n, e.remoteLocation));
      forall i | 0 <= i < |rest|
        ensures rest[i] in Names(cards) && Get(o.state.store, rest[i]).dir.Some?
        ensures GetCardDir(o.state.store, env, rest[i], false).dir == GetCardDir(s.store, env, rest[i], false).dir
      {
        assert rest[i] == names[i + 1];
        GetCardDirSame(o.state.store, s.store, env, rest[i]);
      }
      UpgradeAllCached(o.state, env, rest);
      UpgradeDownloadsFrame(cards, rest, env, o.state.store, s.store);
    }
  }

  /** `update_all()`: the sensor data is computed, every card in its
      `has_update` entry is upgraded, and the catalog is refetched. */
  function UpdateAll(s: State, env: Env): Out<()> {
    UpdateFrom(GetSensorData(s, env), env)
  }

  /** The part of `update_all` after the sensor data `g` is computed. */
  function UpdateFrom(g: Out<Sensor.Report>, env: Env): Out<()> {
    match g.result
    case Err(x) => Out(Err(x), g.state, g.trace)
    case Ok(report) =>
      if "has_update" !in report.data then Out(Err(KeyError("has_update")), g.state, g.trace)
      else
        var u := UpgradeAll(g.state, env, Sensor.UpdateTargets(report.data["has_update"]));
        if u.result.Err? then Out(u.result, u.state, g.trace + u.trace)
        else
          var f := GetInfoAllCards(u.state, env, true);
          Out(Ok(()), f.state, g.trace + u.trace + f.trace)
  }

  /** Without an installed card called `has_update`, `update_all` upgrades
      exactly the counted cards of the sensor data, in catalog order, and
      cannot fail: each counted card is in the cached catalog and had its
      directory stored by the sensor loop. The trace is the sensor's fetch
      if any, the three downloads of each counted card, then a fresh fetch;
      each counted card then holds its catalog version and every other card
      keeps its version. */
  lemma UpdateAllSpec(s: State, env: Env)
    requires Consistent(s)
    requires var s1 := EnsureLocalCards(s, env);
             var f := GetInfoAllCards(s1, env, false);
             Sensor.NoReserved(Rows(f.cards, s1.localCards, env, s1.store))
    ensures var s1 := EnsureLocalCards(s, env);
            var f := GetInfoAllCards(s1, env, false);
            var counted := Sensor.CountedNames(Rows(f.cards, s1.localCards, env, s1.store));
            var out := UpdateAll(s, env);
            && out.result.Ok?
            && out.trace == f.trace + UpgradeDownloads(f.cards, counted, env, s1.store) + [FetchCatalog]
            && (forall n :: n in counted ==>
                  Get(out.state.store, n).version == GetRemoteVersion(f.cards, n))
            && (forall n :: n !in counted ==> Get(out.state.store, n).version == Get(s.store, n).version)
            && out.state.remoteInfo == Some(Fetch(Cards, env.sources))
            && (counted == [] ==> out.trace == f.trace + [FetchCatalog])
  {
    var s1 := EnsureLocalCards(s, env);
    var f := GetInfoAllCards(s1, env, false);
    var counted := Sensor.CountedNames(Rows(f.cards, s1.localCards, env, s1.store));
    var g := GetSensorData(s, env);
    SensorReady(s, env);
    GetSensorDataSpec(s, env);
    UpdateFromSpec(g, env, counted);
    UpdateFromCached(g, env, counted);
    UpgradeDownloadsFrame(f.cards, counted, env, g.state.store, s1.store);
  }

  /** What `update_all` finds after the sensor data: the counted cards are
      listed under `has_update`, each is in the cached catalog, and each has
      its directory stored, the one a lookup before the loop finds. */
  lemma SensorReady(s: State, env: Env)
    requires Consistent(s)
    requires var s1 := EnsureLocalCards(s, env);
             var f := GetInfoAllCards(s1, env, false);
             Sensor.NoReserved(Rows(f.cards, s1.localCards, env, s1.store))
    ensures var s1 := EnsureLocalCards(s, env);
            var f := GetInfoAllCards(s1, env, false);
            var counted := Sensor.CountedNames(Rows(f.cards, s1.localCards, env, s1.store));
            var g := GetSensorData(s, env);
            && g.result.Ok? && "has_update" in g.result.value.data
            && g.result.value.data["has_update"] == Sensor.UpdateList(counted)
            && g.state.remoteInfo == Some(f.cards) && Valid(f.cards)
            && forall i :: 0 <= i < |counted| ==>
                 && counted[i] in Names(f.cards)
                 && Get(g.state.store, counted[i]).dir.Some?
                 && GetCardDir(g.state.store, env, counted[i], false).dir
                    == GetCardDir(s1.store, env, counted[i], false).dir
  {
    var s1 := EnsureLocalCards(s, env);
    var f := GetInfoAllCards(s1, env, false);
    var local := s1.localCards;
    var rows := Rows(f.cards, local, env, s1.store);
    var counted := Sensor.CountedNames(rows);
    var g := GetSensorData(s, env);
    GetSensorDataSpec(s, env);
    ValidDistinct(f.cards);
    RowsDistinct(f.cards, local, env, s1.store);
    Sensor.BuildShape("custom_cards", rows);
    CountedCards(f.cards, local, env, s1.store);
    var init := Sensor.Initial("custom_cards");
    assert SensorLoop(f.cards, local, env, s1.store, init).0.Ok?;
    assert g.state.store == SensorLoop(f.cards, local, env, s1.store, init).1;
    forall i | 0 <= i < |counted|
      ensures counted[i] in Names(f.cards) && Get(g.state.store, counted[i]).dir.Some?
      ensures GetCardDir(g.state.store, env, counted[i], false).dir == GetCardDir(s1.store, env, counted[i], false).dir
    {
      UpdatableMembers(f.cards, local, env, s1.store, counted[i]);
      SensorLoopDirs(f.cards, local, env, s1.store, init, counted[i]);
    }
  }

  /** Once the sensor data lists `counted`, the upgrades run over that list
      on the cached catalog, then the catalog is fetched afresh. */
  lemma UpdateFromSpec(g: Out<Sensor.Report>, env: Env, counted: seq<string>)
    requires g.state.remoteInfo.Some? && Valid(g.state.remoteInfo.value)
    requires g.result.Ok? && "has_update" in g.result.value.data
    requires g.result.value.data["has_update"] == Sensor.UpdateList(counted)
    ensures var out := UpdateFrom(g, env);
            && (out.result.Ok? ==>
                  && (forall n :: n in counted ==>
                        Get(out.state.store, n).version == GetRemoteVersion(g.state.remoteInfo.value, n))
                  && (forall n :: n !in counted ==> Get(out.state.store, n).version == Get(g.state.store, n).version)
                  && out.trace[|out.trace| - 1] == FetchCatalog
                  && out.state.remoteInfo == Some(Fetch(Cards, env.sources)))
            && (counted == [] ==> out.result.Ok? && out.trace == g.trace + [FetchCatalog])
  {
    UpgradeAllVersions(g.state, env, counted);
  }

  /** When every card the sensor data lists is in the cached catalog with a
      stored directory, the rest of `update_all` cannot fail: its trace is
      the sensor's, the listed cards' downloads in order, then the fetch. */
  lemma UpdateFromCached(g: Out<Sensor.Report>, env: Env, counted: seq<string>)
    requires g.state.remoteInfo.Some? && Valid(g.state.remoteInfo.value)
    requires g.result.Ok? && "has_update" in g.result.value.data
    requires g.result.value.data["has_update"] == Sensor.UpdateList(counted)
    requires forall i :: 0 <= i < |counted| ==>
               counted[i] in Names(g.state.remoteInfo.value) && Get(g.state.store, counted[i]).dir.Some?
    ensures UpdateFrom(g, env).result.Ok?
    ensures UpdateFrom(g, env).trace
            == g.trace + UpgradeDownloads(g.state.remoteInfo.value, counted, env, g.state.store) + [FetchCatalog]
  {
    UpgradeAllCached(g.state, env, counted);
  }

  /** Every row is named after a card of the catalog. */
  lemma {:induction false} RowsNames(cards: seq<Entry>, local: seq<string>, env: Env, store: StoreFile)
    ensures forall i :: 0 <= i < |Rows(cards, local, env, store)| ==>
              Rows(cards, local, env, store)[i].name in Names(cards)
    decreases |cards|
  {
    if |cards| > 0 {
      RowsNames(cards[1..], local, env, store);
      NamesConcat([cards[0]], cards[1..]);
      assert cards == [cards[0]] + cards[1..];
    }
  }

  /** The rows of distinct cards have distinct names. */
  lemma {:induction false} RowsDistinct(cards: seq<Entry>, local: seq<string>, env: Env, store: StoreFile)
    requires DistinctCards(cards)
    ensures Sensor.DistinctNames(Rows(cards, local, env, store))
    decreases |cards|
  {
    if |cards| > 0 {
      var rest := cards[1..];
      DistinctTail(cards);
      RowsDistinct(rest, local, env, store);
      RowsNames(rest, local, env, store);
      assert cards[0].name !in Names(rest);
    }
  }

  /** `force_reload()`: a forced refetch, then the sensor data. */
  function ForceReload(s: State, env: Env): Out<()> {
    var f := GetInfoAllCards(s, env, true);
    var g := GetSensorData(f.state, env);
    var result := match g.result
      case Err(x) => Err(x)
      case Ok(_) => Ok(());
    Out(result, g.state, f.trace + g.trace)
  }

  /** A reload fetches exactly once, caches the fresh catalog and changes no
      stored version. */
  lemma ForceReloadSpec(s: State, env: Env)
    ensures ForceReload(s, env).trace == [FetchCatalog]
    ensures ForceReload(s, env).state.remoteInfo == Some(Fetch(Cards, env.sources))
    ensures forall n :: Get(ForceReload(s, env).state.store, n).version == Get(s.store, n).version
  {
    var f := GetInfoAllCards(s, env, true);
    MergeValid(Stream(Cards, env.sources));
    GetSensorDataSpec(f.state, env);
  }

  // ------------------------------------------------------ init_local_data

  /** The version `init_local_data` writes for an installed card: the
      remote version when the store has none for it, and otherwise what the
      loop variable holds, which is the previous card's value when `carry`
      holds (as written) and nothing when it does not (as intended). */
  function NextVersion(e: Entry, catalog: seq<Entry>, store: StoreFile,
                       carried: Option<string>, carry: bool): Option<string> {
    if Get(store, e.name).version.None? then GetRemoteVersion(catalog, e.name)
    else if carry then carried
    else None
  }

  /** The loop of `init_local_data`: for each installed card of the catalog
      the version above and the directory found by a forced `get_card_dir`
      are written to the store. */
  function InitLoop(entries: seq<Entry>, catalog: seq<Entry>, local: seq<string>, env: Env,
                    store: StoreFile, carried: Option<string>, carry: bool): StoreFile
    decreases |entries|
  {
    if |entries| == 0 then store
    else
      var e := entries[0];
      if e.name !in local then InitLoop(entries[1..], catalog, local, env, store, carried, carry)
      else
        var v := NextVersion(e, catalog, store, carried, carry);
        var d := GetCardDir(store, env, e.name, true);
        InitLoop(entries[1..], catalog, local, env, Set(d.store, e.name, v, d.dir), v, carry)
  }

  /** `init_local_data()`: the catalog and the local cards, then the loop
      with the loop variable starting at `None`. */
  function InitLocalData(s: State, env: Env): Out<()> {
    var f := GetInfoAllCards(s, env, false);
    var s1 := EnsureLocalCards(f.state, env);
    Out(Ok(()), s1.(store := InitLoop(f.cards, f.cards, s1.localCards, env, s1.store, None, true)), f.trace)
  }

  /** The loop as evidently intended: each card writes only its own remote
      version, and only when it has none stored. */
  function InitLocalDataIntended(s: State, env: Env): Out<()> {
    var f := GetInfoAllCards(s, env, false);
    var s1 := EnsureLocalCards(f.state, env);
    Out(Ok(()), s1.(store := InitLoop(f.cards, f.cards, s1.localCards, env, s1.store, None, false)), f.trace)
  }

  /** Reference: the value of the loop variable after `entries`, with every
      version read from the store as it was before the loop. */
  function Carry(entries: seq<Entry>, catalog: seq<Entry>, local: seq<string>,
                 store: StoreFile, carried: Option<string>, carry: bool): Option<string>
    decreases |entries|
  {
    if |entries| == 0 then carried
    else
      var e := entries[0];
      var next := if e.name in local then NextVersion(e, catalog, store, carried, carry) else carried;
      Carry(entries[1..], catalog, local, store, next, carry)
  }

  /** The loop writes no card it does not list as installed. */
  lemma {:induction false} InitLoopOthers(entries: seq<Entry>, catalog: seq<Entry>, local: seq<string>, env: Env,
                                          store: StoreFile, carried: Option<string>, carry: bool)
    ensures forall n :: (n !in local || n !in Names(entries)) ==>
              Get(InitLoop(entries, catalog, local, env, store, carried, carry), n) == Get(store, n)
    decreases |entries|
  {
    if |entries| > 0 {
      var e := entries[0];
      NamesConcat([e], entries[1..]);
      assert entries == [e] + entries[1..];
      if e.name !in local {
        InitLoopOthers(entries[1..], catalog, local, env, store, carried, carry);
      } else {
        var v := NextVersion(e, catalog, store, carried, carry);
        var d := GetCardDir(store, env, e.name, true);
        InitLoopOthers(entries[1..], catalog, local, env, Set(d.store, e.name, v, d.dir), v, carry);
      }
    }
  }

  /** The loop variable depends on the store only through the records of
      the cards it visits. */
  lemma {:induction false} CarryFrame(entries: seq<Entry>, catalog: seq<Entry>, local: seq<string>,
                                      s1: StoreFile, s2: StoreFile, carried: Option<string>, carry: bool)
    requires forall i :: 0 <= i < |entries| ==> Get(s1, entries[i].name) == Get(s2, entries[i].name)
    ensures Carry(entries, catalog, local, s1, carried, carry) == Carry(entries, catalog, local, s2, carried, carry)
    decreases |entries|
  {
    if |entries| > 0 {
      var next := if entries[0].name in local then NextVersion(entries[0], catalog, s1, carried, carry) else carried;
      CarryFrame(entries[1..], catalog, local, s1, s2, next, carry);
    }
  }

  /** The version the loop leaves for the `j`-th card: the one chosen from
      the store as it was and the loop variable over the cards before it,
      the stored one when that is `None`. */
  predicate VersionAfter(final: StoreFile, entries: seq<Entry>, j: nat, catalog: seq<Entry>, local: seq<string>,
                         store: StoreFile, carried: Option<string>, carry: bool)
    requires j < |entries|
  {
    Get(final, entries[j].name).version
    == CardStore.Merge(NextVersion(entries[j], catalog, store,
                                   Carry(entries[..j], catalog, local, store, carried, carry), carry),
                       Get(store, entries[j].name).version)
  }

  /** Past an installed first card, the loop variable over a prefix is the
      one over the rest of the prefix, started from the first card's
      version, in any store that agrees on the remaining cards. */
  lemma CarryShift(entries: seq<Entry>, j: nat, catalog: seq<Entry>, local: seq<string>,
                   store: StoreFile, store2: StoreFile, carried: Option<string>, carry: bool)
    requires 0 < j <= |entries| && entries[0].name in local
    requires forall i :: 1 <= i < |entries| ==> Get(store, entries[i].name) == Get(store2, entries[i].name)
    ensures Carry(entries[..j], catalog, local, store, carried, carry)
            == Carry(entries[1..][..j - 1], catalog, local, store2,
                     NextVersion(entries[0], catalog, store, carried, carry), carry)
  {
    var pre := entries[1..][..j - 1];
    assert entries[..j][1..] == pre;
    forall i | 0 <= i < |pre| ensures Get(store, pre[i].name) == Get(store2, pre[i].name) {
      assert pre[i] == entries[i + 1];
    }
    CarryFrame(pre, catalog, local, store, store2, NextVersion(entries[0], catalog, store, carried, carry), carry);
  }

  /** The version the loop leaves for every installed card of a catalog
      with distinct names. */
  lemma {:induction false} InitLoopVersions(entries: seq<Entry>, catalog: seq<Entry>, local: seq<string>, env: Env,
                                            store: StoreFile, carried: Option<string>, carry: bool)
    requires DistinctCards(entries)
    ensures forall j: nat :: j < |entries| && entries[j].name in local ==>
              VersionAfter(InitLoop(entries, catalog, local, env, store, carried, carry),
                           entries, j, catalog, local, store, carried, carry)
    decreases |entries|
  {
    if |entries| > 0 {
      var e := entries[0];
      var rest := entries[1..];
      DistinctTail(entries);
      var final := InitLoop(entries, catalog, local, env, store, carried, carry);
      if e.name !in local {
        InitLoopVersions(rest, catalog, local, env, store, carried, carry);
        VersionsSkip(entries, final, catalog, local, store, carried, carry);
      } else {
        var v := NextVersion(e, catalog, store, carried, carry);
        var d := GetCardDir(store, env, e.name, true);
        var store2 := Set(d.store, e.name, v, d.dir);
        assert final == InitLoop(rest, catalog, local, env, store2, v, carry);
        InitLoopVersions(rest, catalog, local, env, store2, v, carry);
        InitLoopOthers(rest, catalog, local, env, store2, v, carry);
        assert e.name !in Names(rest);
        assert VersionAfter(final, entries, 0, catalog, local, store, carried, carry);
        VersionsInstalled(entries, final, catalog, local, store, store2, carried, carry);
      }
    }
  }

  /** A first card that is not installed leaves the loop variable alone. */
  lemma VersionsSkip(entries: seq<Entry>, final: StoreFile, catalog: seq<Entry>, local: seq<string>,
                     store: StoreFile, carried: Option<string>, carry: bool)
    requires |entries| > 0 && entries[0].name !in local
    requires forall j: nat :: j < |entries[1..]| && entries[1..][j].name in local ==>
               VersionAfter(final, entries[1..], j, catalog, local, store, carried, carry)
    ensures forall j: nat :: j < |entries| && entries[j].name in local ==>
              VersionAfter(final, entries, j, catalog, local, store, carried, carry)
  {
    var rest := entries[1..];
    forall j: nat | j < |entries| && entries[j].name in local
      ensures VersionAfter(final, entries, j, catalog, local, store, carried, carry)
    {
      assert entries[..j][1..] == rest[..j - 1];
      assert rest[j - 1] == entries[j];
      assert VersionAfter(final, rest, j - 1, catalog, local, store, carried, carry);
    }
  }

  /** Past an installed first card the later cards see its version as the
      loop variable, in a store that differs only on that card. */
  lemma VersionsInstalled(entries: seq<Entry>, final: StoreFile, catalog: seq<Entry>, local: seq<string>,
                          store: StoreFile, store2: StoreFile, carried: Option<string>, carry: bool)
    requires |entries| > 0 && entries[0].name in local
    requires forall i :: 1 <= i < |entries| ==> Get(store, entries[i].name) == Get(store2, entries[i].name)
    requires VersionAfter(final, entries, 0, catalog, local, store, carried, carry)
    requires forall j: nat :: j < |entries[1..]| && entries[1..][j].name in local ==>
               VersionAfter(final, entries[1..], j, catalog, local, store2,
                            NextVersion(entries[0], catalog, store, carried, carry), carry)
    ensures forall j: nat :: j < |entries| && entries[j].name in local ==>
              VersionAfter(final, entries, j, catalog, local, store, carried, carry)
  {
    var rest := entries[1..];
    var v := NextVersion(entries[0], catalog, store, carried, carry);
    forall j: nat | 0 < j < |entries| && entries[j].name in local
      ensures VersionAfter(final, entries, j, catalog, local, store, carried, carry)
    {
      assert rest[j - 1] == entries[j];
      CarryShift(entries, j, catalog, local, store, store2, carried, carry);
      assert VersionAfter(final, rest, j - 1, catalog, local, store2, v, carry);
    }
  }

  /** The directory the loop leaves for every installed card: the one a
      forced lookup finds, the stored one when there is none. */
  lemma {:induction false} InitLoopDirs(entries: seq<Entry>, catalog: seq<Entry>, local: seq<string>, env: Env,
                                        store: StoreFile, carried: Option<string>, carry: bool)
    requires DistinctCards(entries)
    ensures forall j :: 0 <= j < |entries| && entries[j].name in local ==>
              Get(InitLoop(entries, catalog, local, env, store, carried, carry), entries[j].name).dir
              == CardStore.Merge(GetCardDir(store, env, entries[j].name, true).dir, Get(store, entries[j].name).dir)
    decreases |entries|
  {
    if |entries| > 0 {
      var e := entries[0];
      var rest := entries[1..];
      DistinctTail(entries);
      if e.name !in local {
        InitLoopDirs(rest, catalog, local, env, store, carried, carry);
        forall j | 1 <= j < |entries| ensures rest[j - 1] == entries[j] {
        }
      } else {
        var v := NextVersion(e, catalog, store, carried, carry);
        var d := GetCardDir(store, env, e.name, true);
        var store2 := Set(d.store, e.name, v, d.dir);
        InitLoopDirs(rest, catalog, local, env, store2, v, carry);
        InitLoopOthers(rest, catalog, local, env, store2, v, carry);
        assert e.name !in Names(rest);
        forall j | 1 <= j < |entries| ensures rest[j - 1] == entries[j] {
        }
      }
    }
  }

  /** The loop variable over two stretches of cards is the one over the
      second started from its value after the first. */
  lemma {:induction false} CarryAppend(a: seq<Entry>, b: seq<Entry>, catalog: seq<Entry>, local: seq<string>,
                                       store: StoreFile, carried: Option<string>, carry: bool)
    ensures Carry(a + b, catalog, local, store, carried, carry)
            == Carry(b, catalog, local, store, Carry(a, catalog, local, store, carried, carry), carry)
    decreases |a|
  {
    if |a| == 0 {
      assert a + b == b;
    } else {
      var next := if a[0].name in local then NextVersion(a[0], catalog, store, carried, carry) else carried;
      assert (a + b)[0] == a[0] && (a + b)[1..] == a[1..] + b;
      CarryAppend(a[1..], b, catalog, local, store, next, carry);
    }
  }

  /** As written, the loop variable survives every installed card that
      already has a stored version. */
  lemma {:induction false} CarryKept(entries: seq<Entry>, catalog: seq<Entry>, local: seq<string>,
                                     store: StoreFile, carried: Option<string>)
    requires forall i :: 0 <= i < |entries| && entries[i].name in local ==>
               Get(store, entries[i].name).version.Some?
    ensures Carry(entries, catalog, local, store, carried, true) == carried
    decreases |entries|
  {
    if |entries| > 0 {
      assert forall i :: 0 <= i < |entries[1..]| ==> entries[1..][i] == entries[i + 1];
      CarryKept(entries[1..], catalog, local, store, carried);
    }
  }

  /** Both loops give every installed card without a stored version its
      own remote version, store the directory a forced lookup finds (the
      old one when none is found), never erase a stored version, and touch
      no other card; the catalog is fetched at most once. */
  lemma InitLocalDataSpec(s: State, env: Env, carry: bool)
    requires Consistent(s)
    ensures var f := GetInfoAllCards(s, env, false);
            var local := EnsureLocalCards(f.state, env).localCards;
            var out := if carry then InitLocalData(s, env) else InitLocalDataIntended(s, env);
            && out.result == Ok(()) && out.trace == f.trace && |out.trace| <= 1
            && (forall e :: e in f.cards && e.name in local && Get(s.store, e.name).version.None? ==>
                  Get(out.state.store, e.name).version == Some(e.version))
            && (forall e :: e in f.cards && e.name in local && Get(s.store, e.name).version.Some? ==>
                  Get(out.state.store, e.name).version.Some?)
            && (forall e :: e in f.cards && e.name in local ==>
                  Get(out.state.store, e.name).dir
                  == CardStore.Merge(GetCardDir(s.store, env, e.name, true).dir, Get(s.store, e.name).dir))
            && (forall n :: (n !in local || n !in Names(f.cards)) ==> Get(out.state.store, n) == Get(s.store, n))
  {
    var f := GetInfoAllCards(s, env, false);
    var local := EnsureLocalCards(f.state, env).localCards;
    InitVersions(s, env, carry);
    InitLoopDirs(f.cards, f.cards, local, env, s.store, None, carry);
    InitLoopOthers(f.cards, f.cards, local, env, s.store, None, carry);
  }

  /** The version part of InitLocalDataSpec: a missing version becomes the
      card's own remote version and a stored one stays present. */
  lemma InitVersions(s: State, env: Env, carry: bool)
    requires Consistent(s)
    ensures var f := GetInfoAllCards(s, env, false);
            var local := EnsureLocalCards(f.state, env).localCards;
            var out := if carry then InitLocalData(s, env) else InitLocalDataIntended(s, env);
            && (forall e :: e in f.cards && e.name in local && Get(s.store, e.name).version.None? ==>
                  Get(out.state.store, e.name).version == Some(e.version))
            && (forall e :: e in f.cards && e.name in local && Get(s.store, e.name).version.Some? ==>
                  Get(out.state.store, e.name).version.Some?)
  {
    var f := GetInfoAllCards(s, env, false);
    var local := EnsureLocalCards(f.state, env).localCards;
    ValidDistinct(f.cards);
    InitLoopVersions(f.cards, f.cards, local, env, s.store, None, carry);
    var out := if carry then InitLocalData(s, env) else InitLocalDataIntended(s, env);
    forall e | e in f.cards && e.name in local
      ensures Get(s.store, e.name).version.None? ==> Get(out.state.store, e.name).version == Some(e.version)
      ensures Get(s.store, e.name).version.Some? ==> Get(out.state.store, e.name).version.Some?
    {
      var j :| 0 <= j < |f.cards| && f.cards[j] == e;
      assert VersionAfter(out.state.store, f.cards, j, f.cards, local, s.store, None, carry);
    }
  }

  /** The loop as written: an installed card B that already has a stored
      version receives the remote version of the last installed card A
      before it that had none, when every installed card between them has
      one; B's own stored version is lost. */
  lemma InitVersionCarries(s: State, env: Env, a: nat, b: nat)
    requires Consistent(s)
    requires var f := GetInfoAllCards(s, env, false);
             var local := EnsureLocalCards(f.state, env).localCards;
             && a < b < |f.cards|
             && f.cards[a].name in local && f.cards[b].name in local
             && Get(s.store, f.cards[a].name).version.None?
             && Get(s.store, f.cards[b].name).version.Some?
             && forall k :: a < k < b && f.cards[k].name in local ==> Get(s.store, f.cards[k].name).version.Some?
    ensures var f := GetInfoAllCards(s, env, false);
            Get(InitLocalData(s, env).state.store, f.cards[b].name).version == Some(f.cards[a].version)
  {
    var f := GetInfoAllCards(s, env, false);
    var cards := f.cards;
    var local := EnsureLocalCards(f.state, env).localCards;
    ValidDistinct(cards);
    InitLoopVersions(cards, cards, local, env, s.store, None, true);
    assert VersionAfter(InitLocalData(s, env).state.store, cards, b, cards, local, s.store, None, true);
    CarryFrom(cards, cards, local, s.store, a, b);
  }

  /** As written, the loop variable before card `b` is the remote version
      of the last installed card `a` without a stored version. */
  lemma CarryFrom(cards: seq<Entry>, catalog: seq<Entry>, local: seq<string>, store: StoreFile, a: nat, b: nat)
    requires a < b <= |cards| && cards[a].name in local && Get(store, cards[a].name).version.None?
    requires forall k :: a < k < b && cards[k].name in local ==> Get(store, cards[k].name).version.Some?
    ensures Carry(cards[..b], catalog, local, store, None, true) == GetRemoteVersion(catalog, cards[a].name)
  {
    var mid := cards[a + 1..b];
    assert cards[..b] == cards[..a] + [cards[a]] + mid;
    CarryAppend(cards[..a] + [cards[a]], mid, catalog, local, store, None, true);
    var before := Carry(cards[..a], catalog, local, store, None, true);
    CarryAppend(cards[..a], [cards[a]], catalog, local, store, None, true);
    assert Carry([cards[a]], catalog, local, store, before, true) == GetRemoteVersion(catalog, cards[a].name);
    forall k | 0 <= k < |mid| && mid[k].name in local ensures Get(store, mid[k].name).version.Some? {
      assert mid[k] == cards[a + 1 + k];
    }
    CarryKept(mid, catalog, local, store, GetRemoteVersion(catalog, cards[a].name));
  }

  /** The intended loop keeps every stored version, so a card's version
      only ever comes from its own catalog entry. */
  lemma InitIntendedKeepsVersions(s: State, env: Env)
    requires Consistent(s)
    ensures var f := GetInfoAllCards(s, env, false);
            var local := EnsureLocalCards(f.state, env).localCards;
            forall e :: e in f.cards && e.name in local ==>
              Get(InitLocalDataIntended(s, env).state.store, e.name).version
              == (if Get(s.store, e.name).version.Some? then Get(s.store, e.name).version else Some(e.version))
  {
    var f := GetInfoAllCards(s, env, false);
    var local := EnsureLocalCards(f.state, env).localCards;
    InitLocalDataSpec(s, env, false);
    ValidDistinct(f.cards);
    InitLoopVersions(f.cards, f.cards, local, env, s.store, None, false);
    forall e | e in f.cards && e.name in local && Get(s.store, e.name).version.Some?
      ensures Get(InitLocalDataIntended(s, env).state.store, e.name).version == Get(s.store, e.name).version
    {
      var j :| 0 <= j < |f.cards| && f.cards[j] == e;
      assert VersionAfter(InitLocalDataIntended(s, env).state.store, f.cards, j, f.cards, local, s.store, None, false);
    }
  }

  /** A concrete instance: card `a` (remote version 2, nothing stored) is
      followed by card `b` (version 1 stored and current). As written `b`
      is recorded at version 2; as intended it stays at 1. */
  lemma InitCarryExample()
    ensures var a := Entry("a", "2", "", "", "", "");
            var b := Entry("b", "1", "", "", "", "");
            var store := Stored(map["b" := Record(Some("1"), None)]);
            var env := Env("", "yaml", [], [], []);
            && Get(InitLoop([a, b], [a, b], ["a", "b"], env, store, None, true), "b").version == Some("2")
            && Get(InitLoop([a, b], [a, b], ["a", "b"], env, store, None, false), "b").version == Some("1")
  {
    var a := Entry("a", "2", "", "", "", "");
    var b := Entry("b", "1", "", "", "", "");
    var cards := [a, b];
    var store := Stored(map["b" := Record(Some("1"), None)]);
    var env := Env("", "yaml", [], [], []);
    assert "a"[0] != "b"[0];
    assert Valid(cards) by {
      assert Names(cards) == ["a", "b"];
    }
    assert GetRemoteVersion(cards, "a") == Some("2");
    assert Get(store, "a") == Blank && Get(store, "b") == Record(Some("1"), None);
    assert cards[..1] == [a];
    assert NextVersion(a, cards, store, None, true) == Some("2");
    assert Carry([a], cards, ["a", "b"], store, None, true) == Some("2");
    InitLoopVersions(cards, cards, ["a", "b"], env, store, None, true);
    InitLoopVersions(cards, cards, ["a", "b"], env, store, None, false);
    assert VersionAfter(InitLoop(cards, cards, ["a", "b"], env, store, None, true), cards, 1, cards, ["a", "b"], store, None, true);
    assert VersionAfter(InitLoop(cards, cards, ["a", "b"], env, store, None, false), cards, 1, cards, ["a", "b"], store, None, false);
  }
}
