/** Components and python scripts. Both modules are the same code over a
    different catalog: a package's installed version is read from its file
    under the configuration directory, an upgrade downloads the file again,
    and a component upgrade then installs the packages its `REQUIREMENTS`
    line names. Nothing is cached: every operation fetches the catalog. */
module Packages {
  import opened Wrappers
  import opened Effects
  import opened Catalog
  import opened VersionLine
  import Sensor

  /** Which of the two modules. */
  datatype Kind = Component | Script

  /** What the modules read from outside: the configuration directory, the
      manifests as fetched (`None` for a failed request) and what a download
      of each URL writes; a URL missing from `served` leaves the file as it
      was. Every fetch within one operation sees the same manifests. */
  datatype Env = Env(baseDir: string, sources: seq<Option<Source>>, served: map<string, seq<string>>)

  /** The files under the configuration directory, by path, as lines. */
  type Files = map<string, seq<string>>

  /** An operation's outcome: its result, the files after it and the
      actions it performed. */
  datatype Out<T> = Out(result: Result<T, PyError>, files: Files, trace: seq<Action>)

  function CategoryOf(k: Kind): Category {
    match k
    case Component => Components
    case Script => PythonScripts
  }

  /** The `domain` value of the sensor dict. */
  function DomainOf(k: Kind): string {
    match k
    case Component => "custom_components"
    case Script => "python_scripts"
  }

  /** `get_info_all_components` / `get_info_all_python_scripts`. */
  function Remote(k: Kind, env: Env): (r: seq<Entry>)
    ensures Valid(r)
  {
    MergeValid(Stream(CategoryOf(k), env.sources));
    Fetch(CategoryOf(k), env.sources)
  }

  /** `base_dir + '/' + local_location`. */
  function LocalFile(env: Env, e: Entry): string {
    env.baseDir + "/" + e.localLocation
  }

  /** The lines of the file at `path`, `None` when there is none. */
  function Read(files: Files, path: string): Option<seq<string>> {
    if path in files then Some(files[path]) else None
  }

  /** The installed version of a package, `''` when unknown. */
  function LocalVersionOf(env: Env, files: Files, e: Entry): string {
    LocalVersion(Read(files, LocalFile(env, e)))
  }

  // ---------------------------------------------------------------- sensor

  /** The status of one package: `has_update` when the remote version is
      non-empty and differs from the local one, `not_local` when the remote
      version is non-empty and the local one empty; it is listed when the
      remote version is non-empty and the package is installed or
      installable packages are shown. */
  function PackageRow(e: Entry, local: string, show: bool): Sensor.Row {
    var remote := e.version;
    var hasUpdate := remote != "" && remote != local;
    var notLocal := remote != "" && local == "";
    var status := Sensor.Status(Some(local), remote, hasUpdate, notLocal, e.visitRepo, e.changelog);
    Sensor.Row(e.name, status, (!notLocal && remote != "") || (show && remote != ""))
  }

  /** One row per catalog entry, in catalog order. */
  function Rows(entries: seq<Entry>, env: Env, files: Files, show: bool): (r: seq<Sensor.Row>)
    ensures |r| == |entries|
    ensures forall i :: 0 <= i < |entries| ==> r[i] == PackageRow(entries[i], LocalVersionOf(env, files, entries[i]), show)
    decreases |entries|
  {
    if |entries| == 0 then []
    else [PackageRow(entries[0], LocalVersionOf(env, files, entries[0]), show)] + Rows(entries[1..], env, files, show)
  }

  /** `get_sensor_data(base_dir, show_installable)`. */
  function GetSensorData(k: Kind, env: Env, files: Files, show: bool): Out<Sensor.Report> {
    Out(Sensor.Build(DomainOf(k), Rows(Remote(k, env), env, files, show)), files, [FetchCatalog])
  }

  /** Reference: the installed packages whose remote version is non-empty
      and differs from the installed one, in catalog order. */
  function Updatable(entries: seq<Entry>, env: Env, files: Files): seq<Entry>
    decreases |entries|
  {
    if |entries| == 0 then []
    else
      var e := entries[0];
      var local := LocalVersionOf(env, files, e);
      (if e.version != "" && local != "" && e.version != local then [e] else []) + Updatable(entries[1..], env, files)
  }

  /** Reference: the packages with a non-empty remote version that are
      installed, or all of them when installable ones are shown. */
  function Shown(entries: seq<Entry>, env: Env, files: Files, show: bool): set<string> {
    set e | e in entries && e.version != "" && (LocalVersionOf(env, files, e) != "" || show) :: e.name
  }

  lemma {:induction false} CountedUpdatable(entries: seq<Entry>, env: Env, files: Files, show: bool)
    ensures Sensor.CountedNames(Rows(entries, env, files, show)) == Names(Updatable(entries, env, files))
    decreases |entries|
  {
    if |entries| > 0 {
      var e := entries[0];
      var local := LocalVersionOf(env, files, e);
      var rows := Rows(entries, env, files, show);
      var tail := Updatable(entries[1..], env, files);
      var head := if e.version != "" && local != "" && e.version != local then [e] else [];
      assert rows[0] == PackageRow(e, local, show) && rows[1..] == Rows(entries[1..], env, files, show);
      assert Sensor.Counts(rows[0]) <==> head != [];
      assert Updatable(entries, env, files) == head + tail;
      CountedUpdatable(entries[1..], env, files, show);
      NamesConcat(head, tail);
      var first := if Sensor.Counts(rows[0]) then [rows[0].name] else [];
      assert Sensor.CountedNames(rows) == first + Sensor.CountedNames(rows[1..]);
      assert Names(head) == first;
    }
  }

  lemma VisibleShown(entries: seq<Entry>, env: Env, files: Files, show: bool)
    ensures Sensor.VisibleNames(Rows(entries, env, files, show)) == Shown(entries, env, files, show)
  {
    var rows := Rows(entries, env, files, show);
    forall n | n in Shown(entries, env, files, show) ensures n in Sensor.VisibleNames(rows) {
      var e :| e in entries && e.version != "" && (LocalVersionOf(env, files, e) != "" || show) && e.name == n;
      var i :| 0 <= i < |entries| && entries[i] == e;
      assert rows[i].visible && rows[i].name == n;
    }
  }

  lemma RowsDistinct(entries: seq<Entry>, env: Env, files: Files, show: bool)
    requires Valid(entries)
    ensures Sensor.DistinctNames(Rows(entries, env, files, show))
  {
    var rows := Rows(entries, env, files, show);
    forall i, j | 0 <= i < j < |rows| ensures rows[i].name != rows[j].name {
      assert Names(entries)[i] != Names(entries)[j];
    }
  }

  /** Unless a shown package is called `has_update`, the sensor data lists
      under `has_update` exactly the installed packages whose remote version
      is non-empty and differs from the installed one, in catalog order,
      whether or not installable packages are shown; the count is their
      number; the keys are `domain`, `has_update` and the shown packages,
      each mapped to its status; the catalog is fetched once and no file
      changes. */
  lemma GetSensorDataSpec(k: Kind, env: Env, files: Files, show: bool)
    requires "has_update" !in Shown(Remote(k, env), env, files, show)
    ensures var out := GetSensorData(k, env, files, show);
            var entries := Remote(k, env);
            && out.trace == [FetchCatalog] && out.files == files
            && out.result.Ok? && Sensor.ListIntact(out.result.value)
            && out.result.value.data["has_update"] == Sensor.UpdateList(Names(Updatable(entries, env, files)))
            && out.result.value.count == |Updatable(entries, env, files)|
            && out.result.value.data.Keys == {"domain", "has_update"} + Shown(entries, env, files, show)
            && (forall e :: e in entries && e.name in Shown(entries, env, files, show) ==>
                  var local := LocalVersionOf(env, files, e);
                  out.result.value.data[e.name]
                  == Sensor.Package(Sensor.Status(Some(local), e.version, e.version != local, local == "",
                                                  e.visitRepo, e.changelog)))
            && ("domain" !in Shown(entries, env, files, show) ==>
                  out.result.value.data["domain"] == Sensor.Domain(DomainOf(k)))
  {
    BuildRows(DomainOf(k), Remote(k, env), env, files, show);
  }

  /** The sensor fold over the rows of a catalog, as above. */
  lemma BuildRows(domain: string, entries: seq<Entry>, env: Env, files: Files, show: bool)
    requires Valid(entries) && "has_update" !in Shown(entries, env, files, show)
    ensures var out := Sensor.Build(domain, Rows(entries, env, files, show));
            && out.Ok? && Sensor.ListIntact(out.value)
            && out.value.data["has_update"] == Sensor.UpdateList(Names(Updatable(entries, env, files)))
            && out.value.count == |Updatable(entries, env, files)|
            && out.value.data.Keys == {"domain", "has_update"} + Shown(entries, env, files, show)
            && (forall e :: e in entries && e.name in Shown(entries, env, files, show) ==>
                  out.value.data[e.name] == Sensor.Package(Rows(entries, env, files, show)[IndexOf(entries, e)].status))
            && ("domain" !in Shown(entries, env, files, show) ==> out.value.data["domain"] == Sensor.Domain(domain))
  {
    var rows := Rows(entries, env, files, show);
    VisibleShown(entries, env, files, show);
    RowsDistinct(entries, env, files, show);
    CountedUpdatable(entries, env, files, show);
    forall i | 0 <= i < |rows| && rows[i].visible ensures rows[i].name != "has_update" {
      assert rows[i].name in Sensor.VisibleNames(rows);
    }
    Sensor.BuildShape(domain, rows);
    forall e | e in entries && e.name in Shown(entries, env, files, show)
      ensures rows[IndexOf(entries, e)].visible
    {
      ShownEntry(entries, env, files, show, e);
    }
  }

  /** In a catalog, a shown name is shown because of its own entry. */
  lemma ShownEntry(entries: seq<Entry>, env: Env, files: Files, show: bool, e: Entry)
    requires Valid(entries) && e in entries && e.name in Shown(entries, env, files, show)
    ensures e.version != "" && (LocalVersionOf(env, files, e) != "" || show)
  {
    var e' :| e' in entries && e'.version != "" && (LocalVersionOf(env, files, e') != "" || show) && e'.name == e.name;
    var i, i' := IndexOf(entries, e), IndexOf(entries, e');
    assert Names(entries)[i] == Names(entries)[i'];
  }

  /** The position of an entry in a catalog. */
  function IndexOf(entries: seq<Entry>, e: Entry): (i: nat)
    requires e in entries
    ensures i < |entries| && entries[i] == e
  {
    if entries[0] == e then 0 else 1 + IndexOf(entries[1..], e)
  }

  // -------------------------------------------------------------- upgrades

  /** `common.download_file(path, url)`: the file at `path` becomes what the
      URL serves, or stays as it was when the URL serves nothing. */
  function DownloadFile(env: Env, files: Files, path: string, url: string): Files {
    if url in env.served then files[path := env.served[url]] else files
  }

  /** `common.update(package)` for each package, in order. */
  function Installs(packages: seq<string>): (r: seq<Action>)
    ensures |r| == |packages| && forall i :: 0 <= i < |r| ==> r[i] == InstallPackage(packages[i])
  {
    seq(|packages|, i requires 0 <= i < |packages| => InstallPackage(packages[i]))
  }

  /** `update_requirements(path)` for a component; a script has none. */
  function Requirements(k: Kind, files: Files, path: string): seq<Action> {
    if k == Component then Installs(RequirementsToInstall(Read(files, path))) else []
  }

  /** The body of `upgrade_single(base_dir, name)` once the catalog is
      fetched: the package's file is downloaded from its catalog URL, then a
      component's requirements are installed from the file at that path. */
  function Upgrade(k: Kind, entries: seq<Entry>, env: Env, files: Files, name: string): Out<()> {
    match Lookup(entries, name)
    case None => Out(Err(KeyError(name)), files, [FetchCatalog])
    case Some(e) =>
      var path := LocalFile(env, e);
      var after := DownloadFile(env, files, path, e.remoteLocation);
      Out(Ok(()), after, [FetchCatalog, Download(path, e.remoteLocation)] + Requirements(k, after, path))
  }

  /** `upgrade_single(base_dir, name)`. */
  function UpgradeSingle(k: Kind, env: Env, files: Files, name: string): Out<()> {
    Upgrade(k, Remote(k, env), env, files, name)
  }

  /** The download actions of a trace, in order. */
  function Downloads(trace: seq<Action>): seq<Action>
    decreases |trace|
  {
    if |trace| == 0 then []
    else (if trace[0].Download? then [trace[0]] else []) + Downloads(trace[1..])
  }

  lemma {:induction false} DownloadsAppend(a: seq<Action>, b: seq<Action>)
    ensures Downloads(a + b) == Downloads(a) + Downloads(b)
    decreases |a|
  {
    if |a| == 0 {
      assert a + b == b;
    } else {
      var h := if a[0].Download? then [a[0]] else [];
      assert (a + b)[0] == a[0] && (a + b)[1..] == a[1..] + b;
      assert Downloads(a + b) == h + Downloads(a[1..] + b);
      DownloadsAppend(a[1..], b);
      assert h + (Downloads(a[1..]) + Downloads(b)) == (h + Downloads(a[1..])) + Downloads(b);
    }
  }

  lemma {:induction false} InstallsNoDownload(packages: seq<string>)
    ensures Downloads(Installs(packages)) == []
    decreases |packages|
  {
    if |packages| > 0 {
      assert Installs(packages)[1..] == Installs(packages[1..]);
      InstallsNoDownload(packages[1..]);
    }
  }

  /** The download of an entry's file from its catalog URL. */
  function DownloadOf(env: Env, e: Entry): Action {
    Download(LocalFile(env, e), e.remoteLocation)
  }

  /** An upgrade of a package missing from the catalog raises `KeyError`
      after the fetch and changes nothing. Otherwise the file at the
      package's path is replaced by what its URL serves and nothing else
      changes; the one download comes right after the fetch; a script
      installs nothing, and a component installs, in order, the pieces of
      the last `REQUIREMENTS` line of the file now at that path. */
  lemma UpgradeSpec(k: Kind, entries: seq<Entry>, env: Env, files: Files, name: string)
    ensures var out := Upgrade(k, entries, env, files, name);
            && (name !in Names(entries) ==>
                  out == Out(Err(KeyError(name)), files, [FetchCatalog]))
            && (name in Names(entries) ==>
                  var e := Lookup(entries, name).value;
                  var path := LocalFile(env, e);
                  && out.result == Ok(())
                  && out.trace[..2] == [FetchCatalog, DownloadOf(env, e)]
                  && Downloads(out.trace) == [DownloadOf(env, e)]
                  && (e.remoteLocation in env.served ==> Read(out.files, path) == Some(env.served[e.remoteLocation]))
                  && (forall p :: p != path ==> Read(out.files, p) == Read(files, p))
                  && (k == Script ==> |out.trace| == 2)
                  && (k == Component ==>
                        out.trace[2..] == Installs(RequirementsToInstall(Read(out.files, path)))))
  {
    if name in Names(entries) {
      var e := Lookup(entries, name).value;
      var out := Upgrade(k, entries, env, files, name);
      var path := LocalFile(env, e);
      var installs := Requirements(k, out.files, path);
      assert out.trace == [FetchCatalog, DownloadOf(env, e)] + installs;
      DownloadsAppend([FetchCatalog, DownloadOf(env, e)], installs);
      if k == Component {
        InstallsNoDownload(RequirementsToInstall(Read(out.files, path)));
      }
    }
  }

  /** For a component whose URL serves a file, the packages installed are
      the pieces of that file's last `REQUIREMENTS` line with brackets,
      commas and quotes removed, split on single spaces; a served file
      without such a line installs nothing. */
  lemma ComponentRequirements(entries: seq<Entry>, env: Env, files: Files, name: string)
    requires name in Names(entries)
    requires Lookup(entries, name).value.remoteLocation in env.served
    ensures var e := Lookup(entries, name).value;
            var lines := env.served[e.remoteLocation];
            var installed := Upgrade(Component, entries, env, files, name).trace[2..];
            && (forall i :: 0 <= i < |installed| ==> installed[i].InstallPackage?)
            && ((forall j :: 0 <= j < |lines| ==> MatchRequirements(lines[j]).None?) ==> installed == [])
            && forall i :: (0 <= i < |lines| && MatchRequirements(lines[i]).Some?
                            && forall j :: i < j < |lines| ==> MatchRequirements(lines[j]).None?)
                           ==> (var packages := seq(|installed|, p requires 0 <= p < |installed| => installed[p].package);
                                && Text.Join(packages, " ") == CleanRequirements(MatchRequirements(lines[i]).value)
                                && forall k :: 0 <= k < |packages| ==> !Text.Contains(packages[k], " "))
  {
    var e := Lookup(entries, name).value;
    var lines := env.served[e.remoteLocation];
    ServedInstalls(entries, env, files, name);
    InstallsPackages(RequirementsToInstall(Some(lines)));
    RequirementsSpec(Some(lines));
  }

  /** A component's requirements come from the file its URL serves. */
  lemma ServedInstalls(entries: seq<Entry>, env: Env, files: Files, name: string)
    requires name in Names(entries)
    requires Lookup(entries, name).value.remoteLocation in env.served
    ensures var e := Lookup(entries, name).value;
            Upgrade(Component, entries, env, files, name).trace[2..]
            == Installs(RequirementsToInstall(Some(env.served[e.remoteLocation])))
  {
    UpgradeSpec(Component, entries, env, files, name);
  }

  /** The packages of the install actions are the packages given. */
  lemma InstallsPackages(packages: seq<string>)
    ensures var installed := Installs(packages);
            && (forall i :: 0 <= i < |installed| ==> installed[i].InstallPackage?)
            && seq(|installed|, p requires 0 <= p < |installed| => installed[p].package) == packages
  {
  }

  /** `for name in updates: upgrade_single(base_dir, name)`, each call
      fetching the same catalog; the first exception ends the loop. */
  function UpgradeAll(k: Kind, entries: seq<Entry>, env: Env, files: Files, names: seq<string>): Out<()>
    decreases |names|
  {
    if |names| == 0 then Out(Ok(()), files, [])
    else
      var o := Upgrade(k, entries, env, files, names[0]);
      if o.result.Err? then o
      else
        var rest := UpgradeAll(k, entries, env, o.files, names[1..]);
        Out(rest.result, rest.files, o.trace + rest.trace)
  }

  /** The downloads of a list of entries, in order. */
  function DownloadsOf(env: Env, es: seq<Entry>): seq<Action>
    decreases |es|
  {
    if |es| == 0 then [] else [DownloadOf(env, es[0])] + DownloadsOf(env, es[1..])
  }

  /** Upgrading an entry of a catalog succeeds and downloads its file once. */
  lemma UpgradeEntry(k: Kind, entries: seq<Entry>, env: Env, files: Files, e: Entry)
    requires Valid(entries) && e in entries
    ensures Upgrade(k, entries, env, files, e.name).result.Ok?
    ensures Downloads(Upgrade(k, entries, env, files, e.name).trace) == [DownloadOf(env, e)]
  {
    LookupMember(entries, IndexOf(entries, e));
    UpgradeSpec(k, entries, env, files, e.name);
  }

  /** Upgrading a list of catalog entries succeeds and downloads exactly
      their files, one each, in list order. */
  lemma {:induction false} UpgradeAllDownloads(k: Kind, entries: seq<Entry>, env: Env, files: Files, es: seq<Entry>)
    requires Valid(entries)
    requires forall i :: 0 <= i < |es| ==> es[i] in entries
    ensures UpgradeAll(k, entries, env, files, Names(es)).result.Ok?
    ensures Downloads(UpgradeAll(k, entries, env, files, Names(es)).trace) == DownloadsOf(env, es)
    decreases |es|
  {
    if |es| > 0 {
      var e := es[0];
      var o := Upgrade(k, entries, env, files, e.name);
      UpgradeEntry(k, entries, env, files, e);
      assert Names(es)[0] == e.name && Names(es)[1..] == Names(es[1..]);
      var rest := UpgradeAll(k, entries, env, o.files, Names(es[1..]));
      assert UpgradeAll(k, entries, env, files, Names(es)) == Out(rest.result, rest.files, o.trace + rest.trace);
      UpgradeAllDownloads(k, entries, env, o.files, es[1..]);
      DownloadsAppend(o.trace, rest.trace);
    }
  }

  /** An upgrade fails exactly for a name missing from the catalog. */
  lemma UpgradeOutcome(k: Kind, entries: seq<Entry>, env: Env, files: Files, name: string)
    ensures Upgrade(k, entries, env, files, name).result
            == if name in Names(entries) then Ok(()) else Err(KeyError(name))
  {
  }

  /** The loop succeeds exactly when every name is in the catalog. */
  lemma {:induction false} UpgradeAllSucceeds(k: Kind, entries: seq<Entry>, env: Env, files: Files, names: seq<string>)
    ensures UpgradeAll(k, entries, env, files, names).result.Ok? <==> forall n :: n in names ==> n in Names(entries)
    decreases |names|
  {
    if |names| > 0 {
      UpgradeOutcome(k, entries, env, files, names[0]);
      var o := Upgrade(k, entries, env, files, names[0]);
      if o.result.Ok? {
        UpgradeAllSucceeds(k, entries, env, o.files, names[1..]);
        assert names == [names[0]] + names[1..];
      }
    }
  }

  /** Otherwise it raises `KeyError` for the first name missing from the
      catalog. */
  lemma {:induction false} UpgradeAllFails(k: Kind, entries: seq<Entry>, env: Env, files: Files, names: seq<string>, i: nat)
    requires i < |names| && names[i] !in Names(entries)
    requires forall j :: 0 <= j < i ==> names[j] in Names(entries)
    ensures UpgradeAll(k, entries, env, files, names).result == Err(KeyError(names[i]))
    decreases |names|
  {
    UpgradeOutcome(k, entries, env, files, names[0]);
    if i > 0 {
      var o := Upgrade(k, entries, env, files, names[0]);
      var tail := names[1..];
      assert tail[i - 1] == names[i];
      assert forall j :: 0 <= j < i - 1 ==> tail[j] == names[j + 1];
      UpgradeAllFails(k, entries, env, o.files, tail, i - 1);
    }
  }

  /** Script upgrades never install a package. */
  lemma {:induction false} ScriptsInstallNothing(entries: seq<Entry>, env: Env, files: Files, names: seq<string>)
    ensures forall a :: a in UpgradeAll(Script, entries, env, files, names).trace ==> !a.InstallPackage?
    decreases |names|
  {
    if |names| > 0 {
      var o := Upgrade(Script, entries, env, files, names[0]);
      if o.result.Ok? {
        ScriptsInstallNothing(entries, env, o.files, names[1..]);
      }
    }
  }

  /** `update_all(base_dir, show_installable)`: every name in the sensor
      data's `has_update` entry is upgraded, in order. */
  function UpdateAll(k: Kind, env: Env, files: Files, show: bool): Out<()> {
    var g := GetSensorData(k, env, files, show);
    match g.result
    case Err(x) => Out(Err(x), g.files, g.trace)
    case Ok(report) =>
      if "has_update" !in report.data then Out(Err(KeyError("has_update")), g.files, g.trace)
      else
        var u := UpgradeAll(k, Remote(k, env), env, g.files, Sensor.UpdateTargets(report.data["has_update"]));
        Out(u.result, u.files, g.trace + u.trace)
  }

  /** The updatable packages are catalog entries. */
  lemma {:induction false} UpdatableIn(entries: seq<Entry>, env: Env, files: Files)
    ensures forall i :: 0 <= i < |Updatable(entries, env, files)| ==> Updatable(entries, env, files)[i] in entries
    decreases |entries|
  {
    if |entries| > 0 {
      UpdatableIn(entries[1..], env, files);
    }
  }

  /** Unless a shown package is called `has_update`, `update_all` succeeds
      and downloads exactly the files of the updatable packages, in catalog
      order, after the sensor's fetch; with none updatable it does nothing
      but that fetch. */
  lemma UpdateAllSpec(k: Kind, env: Env, files: Files, show: bool)
    requires "has_update" !in Shown(Remote(k, env), env, files, show)
    ensures var out := UpdateAll(k, env, files, show);
            var upd := Updatable(Remote(k, env), env, files);
            && out.result.Ok? && out.trace[0] == FetchCatalog
            && Downloads(out.trace) == DownloadsOf(env, upd)
            && (upd == [] ==> out.trace == [FetchCatalog] && out.files == files)
  {
    var entries := Remote(k, env);
    var upd := Updatable(entries, env, files);
    GetSensorDataSpec(k, env, files, show);
    UpdatableIn(entries, env, files);
    UpgradeAllDownloads(k, entries, env, files, upd);
    var u := UpgradeAll(k, entries, env, files, Names(upd));
    DownloadsAppend([FetchCatalog], u.trace);
  }

  /** `update_all` of scripts installs nothing. */
  lemma ScriptsUpdateInstallsNothing(env: Env, files: Files, show: bool)
    ensures forall a :: a in UpdateAll(Script, env, files, show).trace ==> !a.InstallPackage?
  {
    var g := GetSensorData(Script, env, files, show);
    if g.result.Ok? && "has_update" in g.result.value.data {
      ScriptsInstallNothing(Remote(Script, env), env, files, Sensor.UpdateTargets(g.result.value.data["has_update"]));
    }
  }

  /** `install(base_dir, name)`: the package is upgraded when its name is a
      key of the sensor dict computed with installable packages shown. */
  function Install(k: Kind, env: Env, files: Files, name: string): Out<()> {
    var g := GetSensorData(k, env, files, true);
    match g.result
    case Err(x) => Out(Err(x), g.files, g.trace)
    case Ok(report) =>
      if name !in report.data then Out(Ok(()), g.files, g.trace)
      else
        var o := UpgradeSingle(k, env, g.files, name);
        Out(o.result, o.files, g.trace + o.trace)
  }

  /** Unless a package with a non-empty remote version is called
      `has_update`, `install` upgrades exactly the catalog packages with a
      non-empty remote version, and the names `domain` and `has_update`
      (which then raise `KeyError` unless the catalog has them); any other
      name does nothing beyond the sensor's fetch. */
  lemma InstallSpec(k: Kind, env: Env, files: Files, name: string)
    requires "has_update" !in Shown(Remote(k, env), env, files, true)
    ensures var out := Install(k, env, files, name);
            var entries := Remote(k, env);
            var upgraded := name == "domain" || name == "has_update"
                            || exists e :: e in entries && e.name == name && e.version != "";
            && (upgraded ==>
                  var o := UpgradeSingle(k, env, files, name);
                  out == Out(o.result, o.files, [FetchCatalog] + o.trace))
            && (!upgraded ==> out == Out(Ok(()), files, [FetchCatalog]))
  {
    InstallKey(k, env, files, name);
  }

  /** The sensor dict `install` consults has `name` as a key exactly when
      the name is `domain`, `has_update` or a catalog package with a
      non-empty remote version. */
  lemma InstallKey(k: Kind, env: Env, files: Files, name: string)
    requires "has_update" !in Shown(Remote(k, env), env, files, true)
    ensures var g := GetSensorData(k, env, files, true);
            var entries := Remote(k, env);
            && g.result.Ok? && g.files == files && g.trace == [FetchCatalog]
            && (name in g.result.value.data <==>
                  name == "domain" || name == "has_update"
                  || exists e :: e in entries && e.name == name && e.version != "")
  {
    var entries := Remote(k, env);
    GetSensorDataSpec(k, env, files, true);
    ShownAll(entries, env, files, name);
  }

  /** With installable packages shown, every name with a non-empty remote
      version is shown. */
  lemma ShownAll(entries: seq<Entry>, env: Env, files: Files, name: string)
    ensures name in Shown(entries, env, files, true) <==> exists e :: e in entries && e.name == name && e.version != ""
  {
  }
}
