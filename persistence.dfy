/** The persistence layer: the data document `launcher_data.json` and its ten
    backup generations `launcher_data.json.bak1` … `.bak10`, with
    `load_entries`, `save_entries`, `_backup_data_file`, `get_backup_files` and
    `restore_from_backup`. Files are modelled by what `json.load` makes of
    them, so a backup copy is the same value as the document it copies. */
module Persistence {
  import opened Wrappers
  import opened Entries

  /** One element of the "entries" array: a JSON object (with string values)
      or any other JSON value, which the loader cannot read as a record. */
  datatype Item = Obj(fields: map<string, string>) | NonObj

  /** The value under the "entries" key: an array, or any other JSON value. */
  datatype EntriesValue = Array(items: seq<Item>) | NonArray

  /** A data file as `json.load` sees it: text that is not JSON, JSON whose top
      level is not an object, or an object with or without an "entries" key. */
  datatype Document = Unparseable | NonObjectTop | Top(entries: Option<EntriesValue>)

  /** Number of backup generations kept. */
  const Generations: nat := 10

  // ---------------------------------------------------------------------
  // Serialisation (`asdict` in `save_entries`) and tolerant parsing
  // (`load_entries`)
  // ---------------------------------------------------------------------

  /** `dataclasses.asdict(e)`: all five fields under their attribute names. */
  function RecordOf(e: Entry): map<string, string>
  {
    map["id" := e.id, "name" := e.name, "path" := e.path,
        "description" := e.description, "entry_type" := e.entryType]
  }

  /** `dict.get(key, default)`. */
  function Get(fields: map<string, string>, key: string, default: string): string
  {
    if key in fields then fields[key] else default
  }

  /** The entry `load_entries` builds from one JSON object: every missing key
      takes its default, and a missing id takes the freshly generated one. */
  function EntryOf(fields: map<string, string>, freshId: string): (e: Entry)
    ensures e.id == (if "id" in fields then fields["id"] else freshId)
    ensures e.name == (if "name" in fields then fields["name"] else "")
    ensures e.path == (if "path" in fields then fields["path"] else "")
    ensures e.description == (if "description" in fields then fields["description"] else "")
    ensures e.entryType == (if "entry_type" in fields then fields["entry_type"] else AppType)
  {
    Entry(Get(fields, "id", freshId), Get(fields, "name", ""), Get(fields, "path", ""),
          Get(fields, "description", ""), Get(fields, "entry_type", AppType))
  }

  /** The document `save_entries(es)` writes: `{"entries": [asdict(e) for e in es]}`. */
  function Serialize(es: seq<Entry>): (d: Document)
    ensures d.Top? && d.entries.Some? && d.entries.value.Array?
    ensures |d.entries.value.items| == |es|
  {
    Top(Some(Array(Records(es))))
  }

  function Records(es: seq<Entry>): (items: seq<Item>)
    ensures |items| == |es|
  {
    seq(|es|, i requires 0 <= i < |es| => Obj(RecordOf(es[i])))
  }

  /** The number of elements the loader can read as records. */
  function CountObj(items: seq<Item>): nat
  {
    if items == [] then 0
    else CountObj(items[..|items| - 1]) + (if items[|items| - 1].Obj? then 1 else 0)
  }

  /** The loop of `load_entries`: each JSON object becomes an entry, every
      other element is skipped. `newIds(i)` is the uuid generated for the
      element at position `i`. */
  function ParseItems(items: seq<Item>, newIds: nat -> string): (es: seq<Entry>)
    ensures |es| == CountObj(items) <= |items|
  {
    if items == [] then []
    else
      var n := |items| - 1;
      ParseItems(items[..n], newIds)
        + (match items[n]
           case Obj(fields) => [EntryOf(fields, newIds(n))]
           case NonObj => [])
  }

  lemma ParseItemsStep(items: seq<Item>, newIds: nat -> string, i: nat)
    requires i < |items|
    ensures ParseItems(items[..i + 1], newIds) ==
              ParseItems(items[..i], newIds) + (if items[i].Obj? then [EntryOf(items[i].fields, newIds(i))] else [])
  {
    assert items[..i + 1][..i] == items[..i];
  }

  /** `load_entries` on a data file that is absent (`None`) or present. */
  function Loaded(file: Option<Document>, newIds: nat -> string): (es: seq<Entry>)
    ensures file.None? ==> es == []
    ensures file == Some(Unparseable) || file == Some(NonObjectTop) ==> es == []
    ensures file.Some? && file.value.Top? && (file.value.entries.None? || file.value.entries.value.NonArray?) ==> es == []
    ensures file.Some? && file.value.Top? && file.value.entries.Some? && file.value.entries.value.Array? ==>
              es == ParseItems(file.value.entries.value.items, newIds)
  {
    match file
    case Some(Top(Some(Array(items)))) => ParseItems(items, newIds)
    case _ => []
  }

  /** Survivors keep their order and their fields: the element at position
      `i`, when it is an object, becomes the entry at the position given by the
      number of objects before it. */
  lemma {:induction false} ParseItemAt(items: seq<Item>, newIds: nat -> string, i: nat)
    requires i < |items| && items[i].Obj?
    ensures CountObj(items[..i]) < |ParseItems(items, newIds)|
    ensures ParseItems(items, newIds)[CountObj(items[..i])] == EntryOf(items[i].fields, newIds(i))
  {
    var n := |items| - 1;
    var prefix := items[..n];
    if i == n {
      assert items[..i] == prefix;
    } else {
      assert prefix[..i] == items[..i];
      ParseItemAt(prefix, newIds, i);
    }
  }

  /** Round trip: loading what `save_entries(es)` wrote gives back `es`,
      field for field and in order, whatever fresh ids the loader would draw. */
  lemma {:induction false} LoadAfterSave(es: seq<Entry>, newIds: nat -> string)
    ensures Loaded(Some(Serialize(es)), newIds) == es
  {
    ParseRecords(es, newIds);
  }

  lemma {:induction false} ParseRecords(es: seq<Entry>, newIds: nat -> string)
    ensures ParseItems(Records(es), newIds) == es
  {
    if es != [] {
      var n := |es| - 1;
      assert Records(es)[..n] == Records(es[..n]);
      ParseRecords(es[..n], newIds);
      assert EntryOf(RecordOf(es[n]), newIds(n)) == es[n];
      assert es == es[..n] + [es[n]];
    }
  }

  // ---------------------------------------------------------------------
  // Backup generations
  // ---------------------------------------------------------------------

  /** The backup slots after `_backup_data_file` has run on an existing
      document `doc`: generation 1 holds `doc`, generation g (2 ≤ g ≤ 9)
      holds the old generation g - 1, and generation 10 holds the old
      generation 9 when there was one and keeps its old content otherwise.
      `gens[g - 1]` is generation g. */
  function Rotated(gens: seq<Option<Document>>, doc: Document): (r: seq<Option<Document>>)
    requires |gens| == Generations
    ensures |r| == Generations
    ensures r[0] == Some(doc)
    ensures forall k :: 1 <= k < Generations - 1 ==> r[k] == gens[k - 1]
    ensures r[Generations - 1] == if gens[Generations - 2].Some? then gens[Generations - 2] else gens[Generations - 1]
  {
    [Some(doc)] + gens[..Generations - 2]
      + [if gens[Generations - 2].Some? then gens[Generations - 2] else gens[Generations - 1]]
  }

  /** `_backup_data_file` as a function: nothing happens without a document. */
  function RotateIfPresent(current: Option<Document>, gens: seq<Option<Document>>): (r: seq<Option<Document>>)
    requires |gens| == Generations
    ensures |r| == Generations
    ensures current.None? ==> r == gens
    ensures current.Some? ==> r[0] == current && r == Rotated(gens, current.value)
  {
    match current
    case None => gens
    case Some(doc) => Rotated(gens, doc)
  }

  /** The number of generations that exist. */
  function PresentCount(gens: seq<Option<Document>>): nat
  {
    if gens == [] then 0
    else PresentCount(gens[..|gens| - 1]) + (if gens[|gens| - 1].Some? then 1 else 0)
  }

  const NoBackups: seq<Option<Document>> := seq(Generations, _ => None)

  /** The backup slots after a run of saves. `history[0]` is the document
      before the first save and `history[k]` the one written by save k, so
      `|history| - 1` saves have happened. */
  function BackupsAfter(gens0: seq<Option<Document>>, history: seq<Document>): (r: seq<Option<Document>>)
    requires |gens0| == Generations && |history| >= 1
    ensures |r| == Generations
    decreases |history|
  {
    if |history| == 1 then gens0
    else
      var n := |history|;
      Rotated(BackupsAfter(gens0, history[..n - 1]), history[n - 2])
  }

  /** After N saves of a document that existed and had no backups, generation
      k + 1 holds the document as it was k + 1 saves ago when k < N, and does
      not exist otherwise. */
  lemma {:induction false} BackupsAfterSaves(history: seq<Document>)
    requires |history| >= 1
    ensures forall k :: 0 <= k < Generations ==>
              BackupsAfter(NoBackups, history)[k]
                == (if k + 1 < |history| then Some(history[|history| - 2 - k]) else None)
  {
    var n := |history|;
    if n > 1 {
      var h' := history[..n - 1];
      BackupsAfterSaves(h');
      var b' := BackupsAfter(NoBackups, h');
      var b := BackupsAfter(NoBackups, history);
      assert b == Rotated(b', history[n - 2]);
      forall k | 0 <= k < Generations
        ensures b[k] == (if k + 1 < n then Some(history[n - 2 - k]) else None)
      {
        if 1 <= k {
          assert b'[k - 1] == (if k < n - 1 then Some(h'[n - 2 - k]) else None);
        }
      }
    }
  }

  /** A run of slots where exactly the first `m` exist holds `m` generations. */
  lemma {:induction false} PresentCountPrefix(gens: seq<Option<Document>>, m: nat)
    requires m <= |gens|
    requires forall k :: 0 <= k < |gens| ==> (gens[k].Some? <==> k < m)
    ensures PresentCount(gens) == m
  {
    if gens != [] {
      var n := |gens| - 1;
      PresentCountPrefix(gens[..n], if m <= n then m else n);
    }
  }

  /** Bounded history: after N ≥ 1 saves of a document that existed and had no
      backups, min(N, 10) generations exist, and generation 1 is the document
      as it was just before the latest save. */
  lemma BackupCount(history: seq<Document>)
    requires |history| >= 2
    ensures PresentCount(BackupsAfter(NoBackups, history))
              == if |history| - 1 < Generations then |history| - 1 else Generations
    ensures BackupsAfter(NoBackups, history)[0] == Some(history[|history| - 2])
  {
    BackupsAfterSaves(history);
    var b := BackupsAfter(NoBackups, history);
    var m := if |history| - 1 < Generations then |history| - 1 else Generations;
    PresentCountPrefix(b, m);
  }

  /** One more save continues the history: when the document is the latest
      one of `history` and the backups are those the history left behind,
      the rotation `save_entries(es)` performs (see `Store.SaveEntries`)
      leaves the backups `BackupsAfter` gives for the history extended by the
      document written. */
  lemma SaveExtendsHistory(history: seq<Document>, es: seq<Entry>)
    requires |history| >= 1
    ensures RotateIfPresent(Some(history[|history| - 1]), BackupsAfter(NoBackups, history))
              == BackupsAfter(NoBackups, history + [Serialize(es)])
  {
    BackupsAfterStep(NoBackups, history, Serialize(es));
  }

  lemma BackupsAfterStep(gens0: seq<Option<Document>>, history: seq<Document>, doc: Document)
    requires |gens0| == Generations && |history| >= 1
    ensures BackupsAfter(gens0, history + [doc]) == Rotated(BackupsAfter(gens0, history), history[|history| - 1])
  {
    var h := history + [doc];
    assert h[..|h| - 1] == history;
  }

  /** The loop of `load_entries` over the "entries" array: each JSON object
      is appended as an entry, every other element is skipped. */
  method ReadItems(items: seq<Item>, newIds: nat -> string) returns (result: seq<Entry>)
    ensures result == ParseItems(items, newIds)
  {
    result := [];
    for i := 0 to |items|
      invariant result == ParseItems(items[..i], newIds)
    {
      ParseItemsStep(items, newIds, i);
      match items[i]
      case Obj(fields) =>
        result := result + [EntryOf(fields, newIds(i))];
      case NonObj =>
    }
    assert items[..|items|] == items;
  }

  /** The file system the launcher owns: the data document and its backup
      generations. A file that does not exist is `None`. */
  class Store {
    /** `launcher_data.json`. */
    var current: Option<Document>
    /** `backups[g - 1]` is `launcher_data.json.bak<g>`, for g in 1..10. */
    const backups: array<Option<Document>>

    ghost predicate Valid()
    {
      backups.Length == Generations
    }

    constructor (current: Option<Document>, gens: seq<Option<Document>>)
      requires |gens| == Generations
      ensures Valid() && fresh(backups)
      ensures this.current == current && backups[..] == gens
    {
      this.current := current;
      backups := new Option<Document>[Generations](i requires 0 <= i < Generations => gens[i]);
    }

    /** `load_entries`: walks the "entries" array, appending one entry per
        readable record; anything else about the file gives no entries. */
    method LoadEntries(newIds: nat -> string) returns (result: seq<Entry>)
      ensures result == Loaded(current, newIds)
    {
      match current
      case Some(Top(Some(Array(items)))) =>
        result := ReadItems(items, newIds);
      case _ =>
        result := [];
    }

    /** `get_backup_files`: the generations that exist, in ascending order. */
    method GetBackupFiles() returns (gens: seq<nat>)
      requires Valid()
      ensures forall i :: 0 <= i < |gens| ==> 1 <= gens[i] <= Generations && backups[gens[i] - 1].Some?
      ensures forall g :: 1 <= g <= Generations && backups[g - 1].Some? ==> g in gens
      ensures forall i, j :: 0 <= i < j < |gens| ==> gens[i] < gens[j]
      ensures |gens| == PresentCount(backups[..]) <= Generations
    {
      gens := [];
      for g := 1 to Generations + 1
        invariant forall i :: 0 <= i < |gens| ==> 1 <= gens[i] < g && backups[gens[i] - 1].Some?
        invariant forall h :: 1 <= h < g && backups[h - 1].Some? ==> h in gens
        invariant forall i, j :: 0 <= i < j < |gens| ==> gens[i] < gens[j]
        invariant |gens| == PresentCount(backups[..g - 1]) <= g - 1
      {
        assert backups[..g][..g - 1] == backups[..g - 1];
        if backups[g - 1].Some? {
          gens := gens + [g];
        }
      }
      assert backups[..Generations] == backups[..];
    }

    /** `restore_from_backup`: copies generation `g` over the data document;
        fails, changing nothing, when that generation does not exist. The
        backups themselves are not touched. */
    method RestoreFromBackup(g: nat) returns (ok: bool)
      requires Valid() && 1 <= g <= Generations
      modifies this
      ensures ok <==> backups[g - 1].Some?
      ensures current == if ok then backups[g - 1] else old(current)
    {
      ok := backups[g - 1].Some?;
      if ok {
        current := backups[g - 1];
      }
    }

    /** `_backup_data_file`: when the document exists, renames generation 9 to
        10, 8 to 9, …, 1 to 2 (each only if it exists), then copies the
        document into generation 1. */
    method BackupDataFile()
      requires Valid()
      modifies backups
      ensures backups[..] == RotateIfPresent(current, old(backups[..]))
    {
      if current.None? {
        return;
      }
      ghost var before := backups[..];
      var g := Generations - 1;
      while g > 0
        invariant 0 <= g <= Generations - 1
        invariant forall k :: 0 <= k < g ==> backups[k] == before[k]
        invariant g < Generations - 1 ==> backups[g] == None
        invariant forall k :: g + 1 <= k < Generations - 1 ==> backups[k] == before[k - 1]
        invariant backups[Generations - 1]
                    == if g < Generations - 1 && before[Generations - 2].Some?
                       then before[Generations - 2] else before[Generations - 1]
      {
        if backups[g - 1].Some? {
          backups[g] := backups[g - 1];
          backups[g - 1] := None;
        }
        g := g - 1;
      }
      backups[0] := current;
      assert backups[..] == Rotated(before, current.value);
    }

    /** `save_entries`: rotates the backups, then writes the entries. */
    method SaveEntries(es: seq<Entry>)
      requires Valid()
      modifies this, backups
      ensures backups[..] == RotateIfPresent(old(current), old(backups[..]))
      ensures current == Some(Serialize(es))
    {
      BackupDataFile();
      current := Some(Serialize(es));
    }
  }
}
