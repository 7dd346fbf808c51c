/** The ordered list of entries the main window holds (`MainWindow.entries`)
    and the operations that change it: add, edit, delete and the
    reconciliation of a reported drag-and-drop order. Every change that goes
    through is followed by a save of the whole list. */
module Registry {
  import opened Wrappers
  import opened Entries
  import opened Persistence

  // ---------------------------------------------------------------------
  // Ids
  // ---------------------------------------------------------------------

  function Elements(s: seq<string>): set<string>
  {
    set x | x in s
  }

  predicate NoDuplicates(s: seq<string>)
  {
    forall i, j :: 0 <= i < j < |s| ==> s[i] != s[j]
  }

  lemma NoDuplicatesCons(s: seq<string>)
    requires s != []
    ensures NoDuplicates(s) <==> s[0] !in s[1..] && NoDuplicates(s[1..])
  {
    var t := s[1..];
    if NoDuplicates(s) {
      forall i, j | 0 <= i < j < |t| ensures t[i] != t[j] {
        assert t[i] == s[i + 1] && t[j] == s[j + 1];
      }
    }
    if s[0] !in t && NoDuplicates(t) {
      forall i, j | 0 <= i < j < |s| ensures s[i] != s[j] {
        if i == 0 {
          assert s[j] == t[j - 1];
        } else {
          assert s[i] == t[i - 1] && s[j] == t[j - 1];
        }
      }
    }
  }

  /** The ids of the entries, in list order. */
  function IdSeq(es: seq<Entry>): (ids: seq<string>)
    ensures |ids| == |es|
    ensures forall i :: 0 <= i < |es| ==> ids[i] == es[i].id
  {
    seq(|es|, i requires 0 <= i < |es| => es[i].id)
  }

  function Ids(es: seq<Entry>): set<string>
  {
    Elements(IdSeq(es))
  }

  /** No two entries share an id. */
  predicate DistinctIds(es: seq<Entry>)
  {
    NoDuplicates(IdSeq(es))
  }

  lemma IdsMember(es: seq<Entry>, i: nat)
    requires i < |es|
    ensures es[i].id in Ids(es)
  {
    assert IdSeq(es)[i] == es[i].id;
  }

  lemma IdSeqUpdate(es: seq<Entry>, k: nat, e: Entry)
    requires k < |es| && e.id == es[k].id
    ensures IdSeq(es[k := e]) == IdSeq(es)
  {
  }

  lemma IdSeqAppend(es: seq<Entry>, e: Entry)
    ensures IdSeq(es + [e]) == IdSeq(es) + [e.id]
    ensures Ids(es + [e]) == Ids(es) + {e.id}
  {
    assert IdSeq(es + [e]) == IdSeq(es) + [e.id];
  }

  /** A list without repeats has exactly as many distinct elements as
      elements, and a list with a repeat has fewer. */
  lemma {:induction false} CardElements(s: seq<string>)
    ensures |Elements(s)| <= |s|
    ensures |Elements(s)| == |s| <==> NoDuplicates(s)
  {
    if s != [] {
      var t := s[1..];
      CardElements(t);
      NoDuplicatesCons(s);
      assert Elements(s) == {s[0]} + Elements(t);
    }
  }

  lemma IdsCons(es: seq<Entry>)
    requires es != []
    ensures IdSeq(es) == [es[0].id] + IdSeq(es[1..])
    ensures Ids(es) == {es[0].id} + Ids(es[1..])
  {
    assert IdSeq(es) == [es[0].id] + IdSeq(es[1..]);
  }

  lemma IdsOfTail(es: seq<Entry>)
    requires es != []
    ensures Ids(es[1..]) <= Ids(es)
  {
    IdsCons(es);
  }

  lemma DistinctIdsCons(es: seq<Entry>)
    requires es != []
    ensures Ids(es) == {es[0].id} + Ids(es[1..])
    ensures DistinctIds(es) <==> es[0].id !in Ids(es[1..]) && DistinctIds(es[1..])
  {
    IdsCons(es);
    NoDuplicatesCons(IdSeq(es));
  }

  lemma DistinctIdsAppend(es: seq<Entry>, e: Entry)
    requires DistinctIds(es) && e.id !in Ids(es)
    ensures DistinctIds(es + [e])
  {
    IdSeqAppend(es, e);
    var s := IdSeq(es + [e]);
    forall i, j | 0 <= i < j < |s| ensures s[i] != s[j] {
      if j == |es| {
        assert s[i] == IdSeq(es)[i];
      } else {
        assert s[i] == IdSeq(es)[i] && s[j] == IdSeq(es)[j];
      }
    }
  }

  /** `FindFirst`: where `_find_entry_by_id` stops. */
  function FirstIndex(es: seq<Entry>, id: string): (k: nat)
    requires id in Ids(es)
    ensures k < |es| && es[k].id == id
    ensures forall j :: 0 <= j < k ==> es[j].id != id
  {
    if es[0].id == id then 0
    else
      assert id in Ids(es[1..]) by {
        var i :| 0 <= i < |es| && IdSeq(es)[i] == id;
        assert IdSeq(es[1..])[i - 1] == id;
      }
      1 + FirstIndex(es[1..], id)
  }

  /** The last entry with the id: the one the dictionary
      `{e.id: e for e in entries}` keeps. */
  function LastIndex(es: seq<Entry>, id: string): (k: nat)
    requires id in Ids(es)
    ensures k < |es| && es[k].id == id
    ensures forall j :: k < j < |es| ==> es[j].id != id
  {
    var n := |es| - 1;
    if es[n].id == id then n
    else
      assert id in Ids(es[..n]) by {
        var i :| 0 <= i < |es| && IdSeq(es)[i] == id;
        assert IdSeq(es[..n])[i] == id;
      }
      LastIndex(es[..n], id)
  }

  /** With distinct ids an entry is the only one carrying its id. */
  lemma UniqueById(es: seq<Entry>, i: nat)
    requires DistinctIds(es) && i < |es|
    ensures es[i].id in Ids(es) && LastIndex(es, es[i].id) == i
  {
    IdsMember(es, i);
    var k := LastIndex(es, es[i].id);
    assert IdSeq(es)[i] == IdSeq(es)[k];
  }

  // ---------------------------------------------------------------------
  // Delete: `[e for e in self.entries if e.id != entry.id]`
  // ---------------------------------------------------------------------

  function Without(es: seq<Entry>, id: string): (r: seq<Entry>)
    ensures |r| <= |es|
  {
    if es == [] then []
    else (if es[0].id == id then [] else [es[0]]) + Without(es[1..], id)
  }

  /** Deleting an id some entry has removes at least one entry. */
  lemma {:induction false} WithoutShrinks(es: seq<Entry>, id: string)
    requires id in Ids(es)
    ensures |Without(es, id)| < |es|
  {
    if es[0].id != id {
      assert id in Ids(es[1..]) by {
        var i :| 0 <= i < |es| && IdSeq(es)[i] == id;
        assert IdSeq(es[1..])[i - 1] == id;
      }
      WithoutShrinks(es[1..], id);
    }
  }

  /** Delete keeps exactly the entries with another id. */
  lemma {:induction false} WithoutMembers(es: seq<Entry>, id: string)
    ensures forall e :: e in Without(es, id) <==> e in es && e.id != id
  {
    if es != [] {
      WithoutMembers(es[1..], id);
      assert es == [es[0]] + es[1..];
    }
  }

  /** Delete preserves the relative order of what it keeps: filtering a
      concatenation is the concatenation of the filtered parts. */
  lemma {:induction false} WithoutConcat(a: seq<Entry>, b: seq<Entry>, id: string)
    ensures Without(a + b, id) == Without(a, id) + Without(b, id)
  {
    if a != [] {
      assert (a + b)[1..] == a[1..] + b;
      WithoutConcat(a[1..], b, id);
    } else {
      assert a + b == b;
    }
  }

  /** Deleting an id no entry carries changes nothing. */
  lemma {:induction false} WithoutUnknown(es: seq<Entry>, id: string)
    requires id !in Ids(es)
    ensures Without(es, id) == es
  {
    if es != [] {
      IdsMember(es, 0);
      IdsOfTail(es);
      WithoutUnknown(es[1..], id);
      assert Without(es, id) == [es[0]] + es[1..];
    }
  }

  /** With distinct ids, delete removes exactly one entry when the id is
      present and none otherwise, and the ids stay distinct. */
  lemma {:induction false} WithoutDistinct(es: seq<Entry>, id: string)
    requires DistinctIds(es)
    ensures DistinctIds(Without(es, id))
    ensures |Without(es, id)| == if id in Ids(es) then |es| - 1 else |es|
  {
    if es != [] {
      var t := es[1..];
      DistinctIdsCons(es);
      WithoutDistinct(t, id);
      if es[0].id == id {
        WithoutUnknown(t, id);
      } else {
        var w := Without(t, id);
        WithoutMembers(t, id);
        DistinctIdsCons([es[0]] + w);
        assert ([es[0]] + w)[1..] == w;
      }
    }
  }

  // ---------------------------------------------------------------------
  // Reorder: `_save_current_order`
  // ---------------------------------------------------------------------

  /** The reported ids with the falsy ones (empty) dropped, as the loop in
      `_save_current_order` collects them. */
  function Truthy(items: seq<string>): (r: seq<string>)
    ensures forall x :: x in r <==> x in items && x != ""
  {
    if items == [] then []
    else
      var n := |items| - 1;
      assert items == items[..n] + [items[n]];
      Truthy(items[..n]) + (if items[n] != "" then [items[n]] else [])
  }

  /** `ordered_ids`, built by a loop over the reported items. */
  method OrderedIds(items: seq<string>) returns (ordered: seq<string>)
    ensures ordered == Truthy(items)
    ensures "" !in ordered
  {
    ordered := [];
    for i := 0 to |items|
      invariant ordered == Truthy(items[..i])
    {
      assert items[..i + 1][..i] == items[..i];
      if items[i] != "" {
        ordered := ordered + [items[i]];
      }
    }
    assert items[..|items|] == items;
  }

  /** The reported ids that name a current entry, in reported order. */
  function Restrict(o: seq<string>, known: set<string>): (r: seq<string>)
    ensures forall x :: x in r <==> x in o && x in known
    ensures NoDuplicates(o) ==> NoDuplicates(r)
  {
    if o == [] then []
    else
      var rest := Restrict(o[1..], known);
      NoDuplicatesCons(o);
      if o[0] in known then
        var r := [o[0]] + rest;
        NoDuplicatesCons(r);
        assert r[1..] == rest;
        r
      else rest
  }

  /** `[id_to_entry[eid] for eid in ordered_ids if eid in id_to_entry]`. */
  function Project(es: seq<Entry>, o: seq<string>): (r: seq<Entry>)
    ensures |r| <= |o|
  {
    if o == [] then []
    else (if o[0] in Ids(es) then [es[LastIndex(es, o[0])]] else []) + Project(es, o[1..])
  }

  /** The reported order resolved against the current entries: the ids of
      the result are the reported ids restricted to known ones, and every
      resolved entry is an unmodified current entry. */
  lemma {:induction false} ProjectFollowsReport(es: seq<Entry>, o: seq<string>)
    ensures IdSeq(Project(es, o)) == Restrict(o, Ids(es))
    ensures forall e :: e in Project(es, o) ==> e in es
  {
    if o != [] {
      ProjectFollowsReport(es, o[1..]);
      var head := if o[0] in Ids(es) then [es[LastIndex(es, o[0])]] else [];
      assert Project(es, o) == head + Project(es, o[1..]);
      assert IdSeq(head + Project(es, o[1..])) == IdSeq(head) + IdSeq(Project(es, o[1..]));
    }
  }

  /** With distinct reported ids, as many entries are resolved as there are
      reported ids that are known. */
  lemma {:induction false} ProjectLength(es: seq<Entry>, o: seq<string>)
    requires NoDuplicates(o)
    ensures |Project(es, o)| == |Elements(o) * Ids(es)|
  {
    if o != [] {
      var t := o[1..];
      NoDuplicatesCons(o);
      ProjectLength(es, t);
      assert Elements(o) == {o[0]} + Elements(t);
      CardStep(Elements(t), o[0], Ids(es));
    }
  }

  lemma CardStep(a: set<string>, x: string, k: set<string>)
    requires x !in a
    ensures |({x} + a) * k| == |a * k| + (if x in k then 1 else 0)
  {
    if x in k {
      assert ({x} + a) * k == {x} + (a * k);
    } else {
      assert ({x} + a) * k == a * k;
    }
  }

  /** Every known reported id resolves to an entry of the result. */
  lemma {:induction false} ProjectHas(es: seq<Entry>, o: seq<string>, x: string)
    requires x in o && x in Ids(es)
    ensures es[LastIndex(es, x)] in Project(es, o)
  {
    if o[0] != x {
      assert x in o[1..];
      ProjectHas(es, o[1..], x);
    }
  }

  /** Lists that resolve every id to the same entry resolve any report the same way. */
  lemma {:induction false} ProjectCongruent(a: seq<Entry>, b: seq<Entry>, o: seq<string>)
    requires Ids(a) == Ids(b)
    requires forall x :: x in Ids(a) ==> a[LastIndex(a, x)] == b[LastIndex(b, x)]
    ensures Project(a, o) == Project(b, o)
  {
    if o != [] {
      ProjectCongruent(a, b, o[1..]);
    }
  }

  /** The outcome of `_save_current_order`. */
  datatype ReorderOutcome =
    | Applied(order: seq<Entry>)  // saved in the reported order
    | Incomplete                  // some current id was not reported
    | Duplicate                   // an id was reported twice
    | SizeMismatch                // the resolved list is shorter than the current one

  /** The checks of `_save_current_order` on the truthy reported ids: every
      current id must be reported, no id may be reported twice, and the
      resolved list must be as long as the current one. Unknown reported ids
      are dropped without rejecting the report. */
  function Reconcile(es: seq<Entry>, ordered: seq<string>): ReorderOutcome
  {
    if !(Ids(es) <= Elements(ordered)) then Incomplete
    else if |ordered| != |Elements(ordered)| then Duplicate
    else
      var resolved := Project(es, ordered);
      if |resolved| == |es| then Applied(resolved) else SizeMismatch
  }

  /** When each outcome happens: a report that misses a current id is
      refused, one that repeats an id is refused, and a complete report
      without repeats is refused only when the current list itself holds two
      entries with one id. */
  lemma ReconcileCases(es: seq<Entry>, ordered: seq<string>)
    ensures Reconcile(es, ordered) == Incomplete <==> exists e :: e in es && e.id !in ordered
    ensures Reconcile(es, ordered) == Duplicate <==> Ids(es) <= Elements(ordered) && !NoDuplicates(ordered)
    ensures Reconcile(es, ordered) == SizeMismatch <==>
              Ids(es) <= Elements(ordered) && NoDuplicates(ordered) && !DistinctIds(es)
    ensures Reconcile(es, ordered).Applied? <==>
              Ids(es) <= Elements(ordered) && NoDuplicates(ordered) && DistinctIds(es)
  {
    CardElements(ordered);
    CardElements(IdSeq(es));
    assert (exists e :: e in es && e.id !in ordered) <==> !(Ids(es) <= Elements(ordered)) by {
      if exists e :: e in es && e.id !in ordered {
        var e :| e in es && e.id !in ordered;
        var i :| 0 <= i < |es| && es[i] == e;
        IdsMember(es, i);
      }
      if !(Ids(es) <= Elements(ordered)) {
        var x :| x in Ids(es) && x !in Elements(ordered);
        var i :| 0 <= i < |es| && IdSeq(es)[i] == x;
        assert es[i] in es && es[i].id !in ordered;
      }
    }
    if Ids(es) <= Elements(ordered) && NoDuplicates(ordered) {
      ProjectLength(es, ordered);
      assert Elements(ordered) * Ids(es) == Ids(es);
    }
  }

  lemma {:induction false} MultiplicityOne(es: seq<Entry>, e: Entry)
    requires DistinctIds(es)
    ensures multiset(es)[e] == if e in es then 1 else 0
  {
    if es != [] {
      var t := es[1..];
      DistinctIdsCons(es);
      MultiplicityOne(t, e);
      assert es == [es[0]] + t;
      if e in t {
        var j :| 0 <= j < |t| && t[j] == e;
        IdsMember(t, j);
      }
    }
  }

  /** An applied reorder is a permutation of the current entries: nothing is
      lost, duplicated, added or modified. */
  lemma ReconcilePermutes(es: seq<Entry>, ordered: seq<string>)
    requires Reconcile(es, ordered).Applied?
    ensures multiset(Reconcile(es, ordered).order) == multiset(es)
    ensures DistinctIds(Reconcile(es, ordered).order)
  {
    ReconcileCases(es, ordered);
    var ne := Reconcile(es, ordered).order;
    ProjectFollowsReport(es, ordered);
    assert DistinctIds(ne);
    forall e | e in es ensures e in ne {
      var i :| 0 <= i < |es| && es[i] == e;
      UniqueById(es, i);
      ProjectHas(es, ordered, e.id);
    }
    forall e ensures multiset(ne)[e] == multiset(es)[e] {
      MultiplicityOne(ne, e);
      MultiplicityOne(es, e);
    }
  }

  /** The applied order lists the reported ids that name current entries, in
      the reported order: unknown reported ids are silently dropped. */
  lemma ReconcileFollowsReport(es: seq<Entry>, ordered: seq<string>)
    requires Reconcile(es, ordered).Applied?
    ensures IdSeq(Reconcile(es, ordered).order) == Restrict(ordered, Ids(es))
  {
    ProjectFollowsReport(es, ordered);
  }

  /** Applying a report a second time leaves the order it produced as it is. */
  lemma ReconcileIdempotent(es: seq<Entry>, ordered: seq<string>)
    requires Reconcile(es, ordered).Applied?
    ensures Reconcile(Reconcile(es, ordered).order, ordered) == Reconcile(es, ordered)
  {
    var ne := Reconcile(es, ordered).order;
    ReconcileCases(es, ordered);
    ReconcilePermutes(es, ordered);
    ProjectFollowsReport(es, ordered);
    assert Ids(ne) == Ids(es);
    forall x | x in Ids(es) ensures es[LastIndex(es, x)] == ne[LastIndex(ne, x)] {
      var i := LastIndex(es, x);
      assert es[i] in multiset(ne);
      var j :| 0 <= j < |ne| && ne[j] == es[i];
      UniqueById(ne, j);
    }
    ProjectCongruent(es, ne, ordered);
    assert |ne| == |es| by {
      assert |multiset(ne)| == |multiset(es)|;
    }
  }

  // ---------------------------------------------------------------------
  // The registry
  // ---------------------------------------------------------------------

  /** `MainWindow.entries` together with the store it is saved to. */
  class EntryRegistry {
    var entries: seq<Entry>
    const store: Store

    ghost predicate Valid()
    {
      store.Valid()
    }

    /** The store holds the current list and the backups were rotated from
        the state before the save. */
    ghost predicate SavedOver(previous: Option<Document>, previousBackups: seq<Option<Document>>)
      requires Valid() && |previousBackups| == Generations
      reads this, store, store.backups
    {
      && store.current == Some(Serialize(entries))
      && store.backups[..] == RotateIfPresent(previous, previousBackups)
    }

    /** `save_entries(self.entries)`, which every accepted change ends with. */
    method Save()
      requires Valid()
      modifies store, store.backups
      ensures Valid()
      ensures SavedOver(old(store.current), old(store.backups[..]))
    {
      store.SaveEntries(entries);
    }

    /** `MainWindow.__init__`: the list starts as whatever `load_entries` reads. */
    constructor (store: Store, newIds: nat -> string)
      requires store.Valid()
      ensures Valid() && this.store == store
      ensures entries == Loaded(store.current, newIds)
    {
      this.store := store;
      new;
      entries := store.LoadEntries(newIds);
    }

    /** `_find_entry_by_id`: the first entry with the id, if any. */
    method FindById(id: string) returns (r: Option<Entry>)
      ensures r.None? <==> id !in Ids(entries)
      ensures r.Some? ==> id in Ids(entries) && r.value == entries[FirstIndex(entries, id)]
    {
      for i := 0 to |entries|
        invariant forall j :: 0 <= j < i ==> entries[j].id != id
      {
        if entries[i].id == id {
          IdsMember(entries, i);
          return Some(entries[i]);
        }
      }
      return None;
    }

    /** `self.entries.append(entry)` followed by the save. */
    method Append(e: Entry)
      requires Valid()
      modifies this, store, store.backups
      ensures Valid()
      ensures entries == old(entries) + [e]
      ensures SavedOver(old(store.current), old(store.backups[..]))
    {
      entries := entries + [e];
      Save();
    }

    /** `add_entry_dialog`: the dialog validates the form; an accepted
        entry is appended and the list is saved. `freshId` is the uuid the new
        entry gets. When a dropped file pre-fills the dialog, the entry
        `FromFile` builds for it carries that same fresh id, and by
        `GetEntryIgnoresPrefill` the result is the same as without it: the
        pre-filled text only shapes `form`. */
    method AddEntry(form: Form, pathExists: bool, confirmed: bool, freshId: string) returns (added: Option<Entry>)
      requires Valid()
      modifies this, store, store.backups
      ensures Valid()
      ensures added == GetEntry(form, pathExists, confirmed, None, freshId)
      ensures added.None? ==> entries == old(entries) && unchanged(store, store.backups)
      ensures added.Some? ==> entries == old(entries) + [added.value]
                              && SavedOver(old(store.current), old(store.backups[..]))
      ensures DistinctIds(old(entries)) && freshId !in Ids(old(entries)) ==> DistinctIds(entries)
    {
      added := GetEntry(form, pathExists, confirmed, None, freshId);
      if added.Some? {
        if DistinctIds(entries) && freshId !in Ids(entries) {
          DistinctIdsAppend(entries, added.value);
        }
        Append(added.value);
      }
    }

    /** `edit_selected`: the first entry with the selected id is edited
        through the dialog; its fields change in place, its id and position
        stay, and the list is saved. Nothing happens when no entry has the id
        or the form is refused. */
    method EditEntry(id: string, form: Form, pathExists: bool, confirmed: bool) returns (edited: Option<Entry>)
      requires Valid()
      modifies this, store, store.backups
      ensures Valid()
      ensures edited.None? ==> entries == old(entries) && unchanged(store, store.backups)
      ensures id !in Ids(old(entries)) ==> edited.None?
      ensures id in Ids(old(entries)) ==>
                var k := FirstIndex(old(entries), id);
                && edited == GetEntry(form, pathExists, confirmed, Some(old(entries)[k]), "")
                && (edited.Some? ==> entries == old(entries)[k := edited.value])
      ensures edited.Some? ==> SavedOver(old(store.current), old(store.backups[..]))
      ensures IdSeq(entries) == IdSeq(old(entries))
    {
      var found := FindById(id);
      if found.None? {
        return None;
      }
      edited := GetEntry(form, pathExists, confirmed, found, "");
      if edited.Some? {
        var k := FirstIndex(entries, id);
        assert found.value == entries[k];
        IdSeqUpdate(entries, k, edited.value);
        entries := entries[k := edited.value];
        Save();
      }
    }

    /** Delete from the context menu: the entry under the cursor is looked up
        first and nothing happens when no entry has its id; otherwise
        `_delete_entry`, once confirmed, removes every entry with the id and
        saves the list. */
    method DeleteEntry(id: string, confirmed: bool)
      requires Valid()
      modifies this, store, store.backups
      ensures Valid()
      ensures id !in Ids(old(entries)) || !confirmed ==> entries == old(entries) && unchanged(store, store.backups)
      ensures id in Ids(old(entries)) && confirmed ==>
                && entries == Without(old(entries), id)
                && |entries| < |old(entries)|
                && SavedOver(old(store.current), old(store.backups[..]))
    {
      var found := FindById(id);
      if found.None? || !confirmed {
        return;
      }
      WithoutShrinks(entries, id);
      entries := Without(entries, id);
      Save();
    }

    /** `_save_current_order`: `items` are the ids the list widget reports
        after a drag, in display order. The reorder is applied and saved, or
        refused with the list and the store left as they were. */
    method SaveCurrentOrder(items: seq<string>) returns (outcome: ReorderOutcome)
      requires Valid()
      modifies this, store, store.backups
      ensures Valid()
      ensures outcome == Reconcile(old(entries), Truthy(items))
      ensures outcome.Applied? ==> entries == outcome.order
                                   && SavedOver(old(store.current), old(store.backups[..]))
      ensures !outcome.Applied? ==> entries == old(entries) && unchanged(store, store.backups)
    {
      var ordered := OrderedIds(items);
      outcome := Reconcile(entries, ordered);
      if outcome.Applied? {
        entries := outcome.order;
        Save();
      }
    }
  }
}
