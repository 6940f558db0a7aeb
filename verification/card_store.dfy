/** The card store: the JSON file `.storage/custom_updater.cards` mapping
    each card name to the version last installed and the directory its
    files live in. A missing or unreadable file reads as empty; every write
    rewrites the whole file, merging the given fields into the card's
    record. */
module CardStore {
  import opened Wrappers

  /** One card's record; a field never written is `None`. */
  datatype Record = Record(version: Option<string>, dir: Option<string>)

  /** The store file as found on disk. */
  datatype StoreFile =
    | Missing                              // no such file
    | Corrupt                              // `json.load` raises
    | Stored(records: map<string, Record>)

  /** The record of a card the store does not know (`{}`). */
  const Blank := Record(None, None)

  /** The dict `local_data` loads. */
  function Load(f: StoreFile): map<string, Record> {
    match f
    case Stored(m) => m
    case _ => map[]
  }

  /** `local_data(name)`: the card's record, `{}` when there is none. */
  function Get(f: StoreFile, name: string): Record {
    var m := Load(f);
    if name in m then m[name] else Blank
  }

  /** A field after a write: the new value unless it is `None`. */
  function Merge(given: Option<string>, current: Option<string>): Option<string> {
    if given.Some? then given else current
  }

  /** `local_data(name, 'set', version, localdir)`: the fields given as
      non-`None` replace the card's, and the whole file is written back.
      Reading the card back gives the written fields, the fields not given
      keep their values, no other card changes, and the file is readable
      afterwards even if it was not before. */
  function Set(f: StoreFile, name: string, version: Option<string>, dir: Option<string>): (r: StoreFile)
    ensures r.Stored? && Load(r).Keys == Load(f).Keys + {name}
    ensures version.Some? ==> Get(r, name).version == version
    ensures version.None? ==> Get(r, name).version == Get(f, name).version
    ensures dir.Some? ==> Get(r, name).dir == dir
    ensures dir.None? ==> Get(r, name).dir == Get(f, name).dir
    ensures forall other :: other != name ==> Get(r, other) == Get(f, other)
  {
    var card := Get(f, name);
    Stored(Load(f)[name := Record(Merge(version, card.version), Merge(dir, card.dir))])
  }

  /** Writing the same fields twice is the same as writing them once. */
  lemma SetIdempotent(f: StoreFile, name: string, version: Option<string>, dir: Option<string>)
    ensures Set(Set(f, name, version, dir), name, version, dir) == Set(f, name, version, dir)
  {
  }

  /** Writes to different cards commute. */
  lemma SetCommutes(f: StoreFile, a: string, va: Option<string>, da: Option<string>,
                    b: string, vb: Option<string>, db: Option<string>)
    requires a != b
    ensures Set(Set(f, a, va, da), b, vb, db) == Set(Set(f, b, vb, db), a, va, da)
  {
    var m1 := Load(Set(Set(f, a, va, da), b, vb, db));
    var m2 := Load(Set(Set(f, b, vb, db), a, va, da));
    assert m1.Keys == m2.Keys;
    assert forall k :: k in m1 ==> m1[k] == m2[k];
  }

  /** A write with no field given changes no card as read back, though an
      unreadable file is replaced by a readable one. */
  lemma SetNothing(f: StoreFile, name: string, other: string)
    ensures Get(Set(f, name, None, None), other) == Get(f, other)
  {
  }
}
