/**
 * How a client's entry lives across several ticks: an entry whose process
 * disappears is dropped and comes back checked when the process reappears;
 * an entry whose name contains the separator is never dropped and never
 * reported; a live id that shows up under a new name is tracked twice.
 */
module ClientLifecycle {
  import opened Wrappers
  import opened NetText
  import opened ClientList

  /** A caption has a comma right after the name and none after that:
      neither the rest of the separator nor the id's text holds one. */
  lemma CommasOfDisplay(name: string, id: int32)
    ensures Display(name, id)[|name|] == ','
    ensures forall k | |name| < k < |Display(name, id)| :: Display(name, id)[k] != ','
  {
    var d := Display(name, id);
    var t := IntToString(id);
    forall k | |name| < k < |d|
      ensures d[k] != ','
    {
      if k < |name| + |Sep| {
        assert d[k] == Sep[k - |name|];
      } else {
        assert d[k] == t[k - |name| - |Sep|];
      }
    }
  }

  /** The caption determines the name and the id, whatever the name: the
      last comma of a caption is the one the separator starts with. */
  lemma DisplayInjective(n1: string, i1: int32, n2: string, i2: int32)
    requires Display(n1, i1) == Display(n2, i2)
    ensures n1 == n2 && i1 == i2
  {
    var d := Display(n1, i1);
    CommasOfDisplay(n1, i1);
    CommasOfDisplay(n2, i2);
    assert |n1| == |n2|;
    assert n1 == d[..|n1|] == n2;
    assert IntToString(i1) == d[|n1| + |Sep|..] == IntToString(i2);
    IntToStringRoundTrip(i1);
    IntToStringRoundTrip(i2);
  }

  /** Whether an entry is stale depends on its caption only. */
  lemma StaleByCaption(e: Entry, f: Entry, ids: set<int32>)
    requires e.Content() == f.Content()
    ensures Stale(e, ids) == Stale(f, ids)
  {
  }

  /** After a tick that drops `e`, no entry has `e`'s caption: an entry
      that survived with it would be stale too, and an appended one would
      read back an id the snapshot lists. */
  lemma DroppedCaptionGone(es: seq<Entry>, cs: seq<ClientInfo>, e: Entry)
    requires !Contains(e.name, Sep) && e.id !in IdSet(cs)
    ensures !Shows(Tick(es, cs), e.Content())
  {
    var ids := IdSet(cs);
    var kept := Survivors(es, ids);
    SurvivorsMembers(es, ids);
    var t := Tick(es, cs);
    AddClientsAppends(kept, cs);
    StaleIff(e, ids);
    forall f | f in t
      ensures f.Content() != e.Content()
    {
      var i :| 0 <= i < |t| && t[i] == f;
      if f.Content() == e.Content() {
        if i < |kept| {
          assert kept[i] in kept;
          StaleByCaption(e, f, ids);
        } else {
          assert ClientInfo(f.name, f.id) in cs;
          DisplayInjective(e.name, e.id, f.name, f.id);
        }
      }
    }
  }

  /** Disappearance removes, reappearance resets: an entry whose process
      is missing from one snapshot is gone after that tick, and when a
      later snapshot lists the process again (under a name that is not
      blank) the next tick brings it back checked, whatever the operator had
      set before. */
  lemma ReappearanceResets(es: seq<Entry>, cs: seq<ClientInfo>, cs2: seq<ClientInfo>, e: Entry)
    requires !Contains(e.name, Sep) && !IsBlank(e.name)
    requires e.id !in IdSet(cs)
    requires ClientInfo(e.name, e.id) in cs2
    ensures e !in Tick(es, cs)
    ensures Entry(e.name, e.id, true) in Tick(Tick(es, cs), cs2)
  {
    TickRemovesStale(es, cs);
    StaleIff(e, IdSet(cs));
    DroppedCaptionGone(es, cs, e);
    TickAddsMissing(Tick(es, cs), cs2, ClientInfo(e.name, e.id));
  }

  /** A listed client whose caption no entry shows, and whose name is not
      blank, is added checked by the next tick. */
  lemma TickAddsMissing(es: seq<Entry>, cs: seq<ClientInfo>, c: ClientInfo)
    requires !IsBlank(c.name) && c in cs
    requires !Shows(es, Display(c.name, c.id))
    ensures Entry(c.name, c.id, true) in Tick(es, cs)
  {
    var kept := Survivors(es, IdSet(cs));
    SurvivorsMembers(es, IdSet(cs));
    var t := Tick(es, cs);
    AddClientsAppends(kept, cs);
    AddClientsShowsAll(kept, cs);
    var caption := Display(c.name, c.id);
    forall j | 0 <= j < |kept|
      ensures t[j].Content() != caption
    {
      assert t[j] == kept[j] && kept[j] in kept;
    }
    var f :| f in t && f.Content() == caption;
    var i :| 0 <= i < |t| && t[i] == f;
    assert |kept| <= i;
    DisplayInjective(c.name, c.id, f.name, f.id);
  }

  /** An entry whose name contains the separator never parses: no tick
      removes it, whatever the snapshot, and it is never reported. */
  lemma SeparatorNameStays(es: seq<Entry>, cs: seq<ClientInfo>, e: Entry)
    requires e in es && Contains(e.name, Sep)
    ensures e in Tick(es, cs)
    ensures Report(e) == []
  {
    ParsedIdOfDisplay(e.name, e.id);
    TickKeepsUnparsed(es, cs);
    ReportOfEntry(e);
  }

  /** A process id that stays live but is listed under a new name keeps its
      old entry and gains a second one: the list keys on captions, not on
      ids. */
  lemma RenamedIdTrackedTwice(es: seq<Entry>, cs: seq<ClientInfo>, e: Entry, newName: string)
    requires e in es
    requires ClientInfo(newName, e.id) in cs && !IsBlank(newName)
    requires newName != e.name
    ensures e in Tick(es, cs)
    ensures exists f | f in Tick(es, cs) :: f.name == newName && f.id == e.id && f != e
  {
    SurvivorKept(es, cs, e);
    AddClientsShowsAll(Survivors(es, IdSet(cs)), cs);
    var f :| f in Tick(es, cs) && f.Content() == Display(newName, e.id);
    DisplayInjective(newName, e.id, f.name, f.id);
  }

  // ---------------------------------------------------------------------
  // A walk-through: two clients, one leaves and comes back
  // ---------------------------------------------------------------------

  /** Two clients fit for the walk-through: distinct ids, names that are
      not blank, carry no separator and no surrounding white space. */
  predicate PlainPair(a: ClientInfo, b: ClientInfo)
  {
    a.id != b.id
    && !IsBlank(a.name) && !Contains(a.name, Sep) && Trim(a.name) == a.name
    && !IsBlank(b.name) && !Contains(b.name, Sep) && Trim(b.name) == b.name
  }

  function Checked(c: ClientInfo, on: bool): Entry
  {
    Entry(c.name, c.id, on)
  }

  /** An entry of a plain client reports that client when checked. */
  lemma PlainReport(c: ClientInfo, on: bool)
    requires !Contains(c.name, Sep) && Trim(c.name) == c.name
    ensures Report(Checked(c, on)) == if on then [c] else []
  {
    ReportOfEntry(Checked(c, on));
  }

  /** `ActiveClients` of a two-entry list. */
  lemma ActivePair(x: Entry, y: Entry)
    ensures Active([x, y]) == Report(x) + Report(y)
  {
    assert [x, y][..1] == [x] && [x][..0] == [];
    assert Active([x]) == Report(x);
  }

  /** The selection `Without` makes from two entries. */
  lemma WithoutPair(x: Entry, y: Entry, drop: Entry -> bool)
    ensures Without([x, y], drop) == (if drop(x) then [] else [x]) + (if drop(y) then [] else [y])
  {
    assert [x, y][..1] == [x] && [x][..0] == [];
  }

  /** The addition pass over two clients. */
  lemma AddClientsPair(es: seq<Entry>, c: ClientInfo, d: ClientInfo)
    ensures AddClients(es, [c]) == AddClient(es, c)
    ensures AddClients(es, [c, d]) == AddClient(AddClient(es, c), d)
  {
    assert [c, d][..1] == [c] && [c][..0] == [];
  }

  /** Two plain clients with distinct ids have distinct captions. */
  lemma PlainCaptionsDiffer(a: ClientInfo, b: ClientInfo)
    requires PlainPair(a, b)
    ensures Display(a.name, a.id) != Display(b.name, b.id)
  {
    if Display(a.name, a.id) == Display(b.name, b.id) {
      DisplayInjective(a.name, a.id, b.name, b.id);
    }
  }

  /** A one-entry list shows exactly that entry's caption. */
  lemma ShowsSingle(x: Entry, caption: string)
    ensures Shows([x], caption) <==> x.Content() == caption
  {
    if x.Content() == caption {
      assert x in [x];
    }
  }

  /** Adding `b` after `a`'s entry appends `b`'s entry, checked. */
  lemma AddSecond(a: ClientInfo, b: ClientInfo, on: bool)
    requires PlainPair(a, b)
    ensures AddClient([Checked(a, on)], b) == [Checked(a, on), Checked(b, true)]
  {
    PlainCaptionsDiffer(a, b);
    ShowsSingle(Checked(a, on), Display(b.name, b.id));
  }

  /** The list after the first tick. */
  lemma FirstTickList(a: ClientInfo, b: ClientInfo)
    requires PlainPair(a, b)
    ensures Tick([], [a, b]) == [Checked(a, true), Checked(b, true)]
  {
    assert Survivors([], IdSet([a, b])) == [];
    AddClientsPair([], a, b);
    assert AddClient([], a) == [Checked(a, true)];
    AddSecond(a, b, true);
  }

  /** First tick: both clients are listed, checked, and both are targets. */
  lemma FirstTickTracksBoth(a: ClientInfo, b: ClientInfo)
    requires PlainPair(a, b)
    ensures Tick([], [a, b]) == [Checked(a, true), Checked(b, true)]
    ensures Active(Tick([], [a, b])) == [a, b]
  {
    FirstTickList(a, b);
    ActivePair(Checked(a, true), Checked(b, true));
    PlainReport(a, true);
    PlainReport(b, true);
  }

  /** Second tick, after the operator unchecked `b`: its process is gone,
      so its entry goes and only `a` is targeted. */
  lemma SecondTickDropsOne(a: ClientInfo, b: ClientInfo)
    requires PlainPair(a, b)
    ensures Tick([Checked(a, true), Checked(b, false)], [a]) == [Checked(a, true)]
    ensures Active([Checked(a, true)]) == [a]
  {
    SecondTickList(a, b);
    PlainReport(a, true);
    assert [Checked(a, true)][..0] == [];
  }

  /** The list after the second tick. */
  lemma SecondTickList(a: ClientInfo, b: ClientInfo)
    requires PlainPair(a, b)
    ensures Tick([Checked(a, true), Checked(b, false)], [a]) == [Checked(a, true)]
  {
    var ids := IdSet([a]);
    assert ids == {a.id};
    var x, y := Checked(a, true), Checked(b, false);
    StaleIff(x, ids);
    StaleIff(y, ids);
    WithoutPair(x, y, StaleFor(ids));
    assert Survivors([x, y], ids) == [x];
    AddClientsPair([x], a, a);
    ShowsSingle(x, Display(a.name, a.id));
    assert AddClient([x], a) == [x];
  }

  /** Third tick: `b`'s process is back, and it returns checked although
      the operator had unchecked it. */
  lemma ThirdTickBringsBackChecked(a: ClientInfo, b: ClientInfo)
    requires PlainPair(a, b)
    ensures Tick([Checked(a, true)], [a, b]) == [Checked(a, true), Checked(b, true)]
    ensures Active(Tick([Checked(a, true)], [a, b])) == [a, b]
  {
    ThirdTickList(a, b);
    ActivePair(Checked(a, true), Checked(b, true));
    PlainReport(a, true);
    PlainReport(b, true);
  }

  /** The list after the third tick. */
  lemma ThirdTickList(a: ClientInfo, b: ClientInfo)
    requires PlainPair(a, b)
    ensures Tick([Checked(a, true)], [a, b]) == [Checked(a, true), Checked(b, true)]
  {
    var ids := IdSet([a, b]);
    var x := Checked(a, true);
    assert a.id in ids;
    StaleIff(x, ids);
    SurvivorsAllKept([x], ids);
    AddClientsPair([x], a, b);
    ShowsSingle(x, Display(a.name, a.id));
    assert AddClient([x], a) == [x];
    AddSecond(a, b, true);
  }
}
