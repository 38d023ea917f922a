/**
 * The client list of the clients window, as values: what one timer tick does
 * to the list of check boxes (`checkBoxContainer.Children`) and what
 * `ActiveClients` is rebuilt to, and the properties of that merge.
 *
 * A check box is an `Entry`: the name and process id it was created for and
 * its checked flag. Its caption is derived, `"{name}, PID: {id}"`. The tick
 * itself never looks at `name` and `id` directly: it removes and reports an
 * entry by splitting its caption on `", PID: "` and parsing the second piece,
 * and it adds a client only when no caption equals the client's caption. The
 * lemmas below show what that amounts to in terms of the fields, including
 * the odd case: an entry whose name contains `", PID: "` never parses, so it
 * is never removed and never reported.
 */
module ClientList {
  import opened Wrappers
  import opened NetText

  /** The separator between the name and the id in a caption. */
  const Sep: string := ", PID: "

  /** A client as the native library lists it (`ClientInfo`, with a name
      that is never null). */
  datatype ClientInfo = ClientInfo(name: string, id: int32)

  /** One record of the native client array as laid out in memory: `None` is
      the null name pointer that terminates the array. */
  datatype RawClient = RawClient(name: Option<string>, id: int32)

  /** A check box of the client list. */
  datatype Entry = Entry(name: string, id: int32, checked: bool)
  {
    /** The check box's `Content`. */
    function Content(): string
    {
      Display(name, id)
    }
  }

  /** The caption the window gives a client. */
  function Display(name: string, id: int32): string
  {
    name + Sep + IntToString(id)
  }

  // ---------------------------------------------------------------------
  // Reading the native snapshot
  // ---------------------------------------------------------------------

  /** The native array holds a terminating record. */
  predicate Terminated(mem: seq<RawClient>)
  {
    exists k | 0 <= k < |mem| :: mem[k].name.None?
  }

  /** The records before the first one with a null name, in order. */
  function BeforeSentinel(mem: seq<RawClient>): (clients: seq<ClientInfo>)
    ensures |clients| <= |mem|
    ensures forall i :: 0 <= i < |clients| ==>
      mem[i] == RawClient(Some(clients[i].name), clients[i].id)
    ensures |clients| < |mem| ==> mem[|clients|].name.None?
    decreases |mem|
  {
    if mem == [] || mem[0].name.None? then []
    else [ClientInfo(mem[0].name.value, mem[0].id)] + BeforeSentinel(mem[1..])
  }

  /** The records before the first null name are determined by the three
      facts the reader establishes: how many there are, that a null name
      follows them, and that each carries the name and id it was read from. */
  lemma {:induction false} BeforeSentinelUnique(mem: seq<RawClient>, clients: seq<ClientInfo>)
    requires |clients| < |mem| && mem[|clients|].name.None?
    requires forall i | 0 <= i < |clients| :: mem[i] == RawClient(Some(clients[i].name), clients[i].id)
    ensures clients == BeforeSentinel(mem)
    decreases |clients|
  {
    if clients != [] {
      BeforeSentinelUnique(mem[1..], clients[1..]);
    }
  }

  /** The set of ids a snapshot reports. */
  function IdSet(clients: seq<ClientInfo>): set<int32>
  {
    set c | c in clients :: c.id
  }

  // ---------------------------------------------------------------------
  // Parsing a caption
  // ---------------------------------------------------------------------

  /** The id the tick reads back from a caption: the caption splits into
      exactly two pieces and the trimmed second piece is an `int`. */
  function ParsedId(caption: string): Option<int32>
  {
    var parts := Split(caption, Sep);
    if |parts| == 2 then TryParseInt32(Trim(parts[1])) else None
  }

  /** An entry the removal pass takes out: its caption parses to an id that
      the snapshot no longer lists. */
  predicate Stale(e: Entry, ids: set<int32>)
  {
    var p := ParsedId(e.Content());
    p.Some? && p.value !in ids
  }

  /** Inside a caption, the only comma of the separator is its first
      character, so the separator cannot straddle the name and the rest. */
  lemma SeparatorAtName(name: string, rest: string)
    requires !Contains(name, Sep)
    ensures FindFrom(name + Sep + rest, Sep, 0) == Some(|name|)
  {
    var s := name + Sep + rest;
    assert OccursAt(s, Sep, |name|) by {
      assert s[|name|..|name| + |Sep|] == Sep;
    }
    forall j | 0 <= j < |name|
      ensures !OccursAt(s, Sep, j)
    {
      if j + |Sep| <= |name| {
        assert name[j..j + |Sep|] == s[j..j + |Sep|];
        assert !OccursAt(name, Sep, j);
      } else if j + |Sep| <= |s| {
        var k := |name| - j;
        assert s[j..j + |Sep|][k] == s[|name|] == ',';
        assert Sep[k] != ',';
      }
    }
  }

  /** The decimal text of an id splits into one piece. */
  lemma IdTextIsOnePiece(id: int32)
    ensures Split(IntToString(id), Sep) == [IntToString(id)]
  {
    var d := IntToString(id);
    forall j | 0 <= j
      ensures !OccursAt(d, Sep, j)
    {
      if j + |Sep| <= |d| {
        assert d[j..j + |Sep|][0] == d[j] != ',';
      }
    }
    assert FindFrom(d, Sep, 0).None?;
  }

  /** The decimal text of an id has no surrounding white space. */
  lemma IdTextTrimmed(id: int32)
    ensures Trim(IntToString(id)) == IntToString(id)
  {
    var d := IntToString(id);
    assert !IsWhiteSpace(d[0]) && !IsWhiteSpace(d[|d| - 1]);
  }

  /** The caption of a name without the separator splits into exactly the
      name and the id's text. */
  lemma DisplaySplits(name: string, id: int32)
    requires !Contains(name, Sep)
    ensures Split(Display(name, id), Sep) == [name, IntToString(id)]
  {
    var d := IntToString(id);
    var s := name + Sep + d;
    SeparatorAtName(name, d);
    assert s[..|name|] == name;
    assert s[|name| + |Sep|..] == d;
    IdTextIsOnePiece(id);
  }

  /** The caption of a name that contains the separator splits into three or
      more pieces. */
  lemma DisplaySplitsFurther(name: string, id: int32)
    requires Contains(name, Sep)
    ensures |Split(Display(name, id), Sep)| >= 3
  {
    var d := IntToString(id);
    var s := name + Sep + d;
    var q :| 0 <= q <= |name| && OccursAt(name, Sep, q);
    assert s[q..q + |Sep|] == name[q..q + |Sep|];
    assert OccursAt(s, Sep, q);
    var i := FindFrom(s, Sep, 0).value;
    var tail := s[i + |Sep|..];
    assert tail == name[i + |Sep|..] + Sep + d;
    var t := |name| - i - |Sep|;
    assert tail[t..t + |Sep|] == Sep;
    assert OccursAt(tail, Sep, t);
    assert FindFrom(tail, Sep, 0).Some?;
  }

  /** The tick reads an entry's id back exactly when its name does not
      contain the separator. */
  lemma {:induction false} ParsedIdOfDisplay(name: string, id: int32)
    ensures ParsedId(Display(name, id)) == if Contains(name, Sep) then None else Some(id)
  {
    var d := IntToString(id);
    if Contains(name, Sep) {
      DisplaySplitsFurther(name, id);
    } else {
      DisplaySplits(name, id);
      IdTextTrimmed(id);
      IntToStringRoundTrip(id);
    }
  }

  /** Removal in terms of the fields: an entry is stale exactly when its name
      does not contain the separator and its id is not in the snapshot. */
  lemma StaleIff(e: Entry, ids: set<int32>)
    ensures Stale(e, ids) <==> !Contains(e.name, Sep) && e.id !in ids
  {
    ParsedIdOfDisplay(e.name, e.id);
  }

  // ---------------------------------------------------------------------
  // One tick: removal, then addition
  // ---------------------------------------------------------------------

  /** The entries `drop` does not select, in their order. */
  function Without(es: seq<Entry>, drop: Entry -> bool): (kept: seq<Entry>)
    ensures |kept| <= |es|
    decreases |es|
  {
    if es == [] then []
    else
      var init, last := es[..|es| - 1], es[|es| - 1];
      if drop(last) then Without(init, drop) else Without(init, drop) + [last]
  }

  /** `Without` keeps exactly the entries `drop` does not select. */
  lemma {:induction false} WithoutMembers(es: seq<Entry>, drop: Entry -> bool)
    ensures forall e :: e in Without(es, drop) <==> e in es && !drop(e)
    decreases |es|
  {
    if es != [] {
      var init, last := es[..|es| - 1], es[|es| - 1];
      assert es == init + [last];
      WithoutMembers(init, drop);
    }
  }

  /** `Stale` for a fixed snapshot, as a selector for `Without`. */
  function StaleFor(ids: set<int32>): Entry -> bool
  {
    e => Stale(e, ids)
  }

  /** The entries the removal pass keeps, in their order. */
  function Survivors(es: seq<Entry>, ids: set<int32>): seq<Entry>
  {
    Without(es, StaleFor(ids))
  }

  /** The removal pass keeps exactly the entries that are not stale. */
  lemma SurvivorsMembers(es: seq<Entry>, ids: set<int32>)
    ensures forall e :: e in Survivors(es, ids) <==> e in es && !Stale(e, ids)
  {
    WithoutMembers(es, StaleFor(ids));
  }

  /** A name the addition pass skips. */
  predicate IsBlank(name: string)
  {
    name == "" || name == " "
  }

  /** Some entry has this caption. */
  predicate Shows(es: seq<Entry>, caption: string)
  {
    exists e | e in es :: e.Content() == caption
  }

  /** One step of the addition pass: a client is appended, checked, unless
      an entry already has its caption or its name is blank. */
  function AddClient(es: seq<Entry>, c: ClientInfo): seq<Entry>
  {
    if !Shows(es, Display(c.name, c.id)) && !IsBlank(c.name)
    then es + [Entry(c.name, c.id, true)]
    else es
  }

  /** The addition pass over a snapshot, one client after the other. */
  function AddClients(es: seq<Entry>, cs: seq<ClientInfo>): seq<Entry>
    decreases |cs|
  {
    if cs == [] then es else AddClient(AddClients(es, cs[..|cs| - 1]), cs[|cs| - 1])
  }

  /** The addition pass over one more client of the snapshot is one more
      step. */
  lemma AddClientsPrefixStep(es: seq<Entry>, cs: seq<ClientInfo>, n: nat)
    requires n < |cs|
    ensures AddClients(es, cs[..n + 1]) == AddClient(AddClients(es, cs[..n]), cs[n])
  {
    assert cs[..n + 1][..n] == cs[..n];
  }

  /** The client list after a tick with snapshot `cs`. */
  function Tick(es: seq<Entry>, cs: seq<ClientInfo>): seq<Entry>
  {
    AddClients(Survivors(es, IdSet(cs)), cs)
  }

  // ---------------------------------------------------------------------
  // Rebuilding ActiveClients
  // ---------------------------------------------------------------------

  /** What one entry contributes to `ActiveClients`: nothing unless it is
      checked and its caption parses; then the trimmed name piece and the
      parsed id. */
  function Report(e: Entry): seq<ClientInfo>
  {
    if !e.checked then []
    else
      var parts := Split(e.Content(), Sep);
      if |parts| != 2 then []
      else
        match TryParseInt32(Trim(parts[1]))
        case None => []
        case Some(id) => [ClientInfo(Trim(parts[0]), id)]
  }

  /** `ActiveClients` as rebuilt from the entries, in their order. */
  function Active(es: seq<Entry>): seq<ClientInfo>
    decreases |es|
  {
    if es == [] then [] else Active(es[..|es| - 1]) + Report(es[|es| - 1])
  }

  /** The reference for `ActiveClients`, stated on the fields: every checked
      entry whose name lacks the separator, with its name trimmed. */
  function Reported(es: seq<Entry>): seq<ClientInfo>
    decreases |es|
  {
    if es == [] then []
    else
      var e := es[|es| - 1];
      Reported(es[..|es| - 1])
      + if e.checked && !Contains(e.name, Sep) then [ClientInfo(Trim(e.name), e.id)] else []
  }

  /** What one entry contributes, in terms of its fields. */
  lemma ReportOfEntry(e: Entry)
    ensures Report(e) ==
      if e.checked && !Contains(e.name, Sep) then [ClientInfo(Trim(e.name), e.id)] else []
  {
    if e.checked {
      if Contains(e.name, Sep) {
        DisplaySplitsFurther(e.name, e.id);
      } else {
        DisplaySplits(e.name, e.id);
        IdTextTrimmed(e.id);
        IntToStringRoundTrip(e.id);
      }
    }
  }

  /** `ActiveClients` is exactly the checked entries whose caption parses,
      each as its trimmed name and its id, in list order. */
  lemma {:induction false} ActiveIsReported(es: seq<Entry>)
    ensures Active(es) == Reported(es)
    decreases |es|
  {
    if es != [] {
      ActiveIsReported(es[..|es| - 1]);
      ReportOfEntry(es[|es| - 1]);
    }
  }

  // ---------------------------------------------------------------------
  // Properties of a tick
  // ---------------------------------------------------------------------

  /** No two entries share a caption. */
  predicate NoDuplicates(es: seq<Entry>)
  {
    forall i, j | 0 <= i < j < |es| :: es[i].Content() != es[j].Content()
  }

  /** No entry has a blank name. */
  predicate NoBlankNames(es: seq<Entry>)
  {
    forall e | e in es :: !IsBlank(e.name)
  }

  /** `Without` on one more entry at the end. */
  lemma WithoutSnoc(es: seq<Entry>, e: Entry, drop: Entry -> bool)
    ensures Without(es + [e], drop) == Without(es, drop) + if drop(e) then [] else [e]
  {
    assert (es + [e])[..|es|] == es;
  }

  /** `Without` works entry by entry: on a concatenation it keeps what it
      keeps of each part. */
  lemma {:induction false} WithoutConcat(a: seq<Entry>, b: seq<Entry>, drop: Entry -> bool)
    ensures Without(a + b, drop) == Without(a, drop) + Without(b, drop)
    decreases |b|
  {
    if b == [] {
      assert a + b == a;
    } else {
      var init, last := b[..|b| - 1], b[|b| - 1];
      WithoutConcat(a, init, drop);
      assert b == init + [last];
      assert a + b == (a + init) + [last];
      WithoutSnoc(a + init, last, drop);
      WithoutSnoc(init, last, drop);
    }
  }

  /** The removal pass works entry by entry: on a concatenation it keeps
      what it keeps of each part, in the same order. */
  lemma SurvivorsConcat(a: seq<Entry>, b: seq<Entry>, ids: set<int32>)
    ensures Survivors(a + b, ids) == Survivors(a, ids) + Survivors(b, ids)
  {
    WithoutConcat(a, b, StaleFor(ids));
  }

  /** When `drop` selects nothing, `Without` keeps the whole list. */
  lemma {:induction false} WithoutNothing(es: seq<Entry>, drop: Entry -> bool)
    requires forall e | e in es :: !drop(e)
    ensures Without(es, drop) == es
    decreases |es|
  {
    if es != [] {
      var init, last := es[..|es| - 1], es[|es| - 1];
      assert es == init + [last];
      assert last in es;
      WithoutNothing(init, drop);
    }
  }

  /** A list with nothing stale survives the removal pass whole. */
  lemma SurvivorsAllKept(es: seq<Entry>, ids: set<int32>)
    requires forall e | e in es :: !Stale(e, ids)
    ensures Survivors(es, ids) == es
  {
    WithoutNothing(es, StaleFor(ids));
  }

  /** Taking entries out never creates a duplicate caption. */
  lemma {:induction false} WithoutNoDuplicates(es: seq<Entry>, drop: Entry -> bool)
    requires NoDuplicates(es)
    ensures NoDuplicates(Without(es, drop))
    decreases |es|
  {
    if es != [] {
      var init, last := es[..|es| - 1], es[|es| - 1];
      assert es == init + [last];
      WithoutNoDuplicates(init, drop);
      var kept := Without(init, drop);
      WithoutMembers(init, drop);
      if !drop(last) {
        var r := kept + [last];
        forall i, j | 0 <= i < j < |r|
          ensures r[i].Content() != r[j].Content()
        {
          if j < |kept| {
            assert r[i] == kept[i] && r[j] == kept[j];
          } else {
            assert r[i] == kept[i] && kept[i] in kept;
            var k :| 0 <= k < |init| && init[k] == kept[i];
            assert es[k] == kept[i] && es[|es| - 1] == last;
          }
        }
      }
    }
  }

  /** `t` is `es` with entries appended: each one checked, with a name that
      is not blank, taken from the snapshot `cs`, and with a caption that no
      entry before it has. */
  predicate AppendedFrom(es: seq<Entry>, t: seq<Entry>, cs: seq<ClientInfo>)
  {
    |es| <= |t| && t[..|es|] == es
    && (forall i | |es| <= i < |t| ::
          t[i].checked && !IsBlank(t[i].name) && ClientInfo(t[i].name, t[i].id) in cs)
    && (forall i, j | 0 <= j < i && |es| <= i < |t| :: t[j].Content() != t[i].Content())
  }

  /** The addition pass only appends: the list it starts from is a prefix of
      what it returns; every entry it appends is checked, has a name that is
      not blank, comes from the snapshot and has a caption that no entry
      before it has. */
  lemma {:induction false} AddClientsAppends(es: seq<Entry>, cs: seq<ClientInfo>)
    ensures AppendedFrom(es, AddClients(es, cs), cs)
    decreases |cs|
  {
    if cs != [] {
      var init, last := cs[..|cs| - 1], cs[|cs| - 1];
      AddClientsAppends(es, init);
      assert init + [last] == cs;
      AppendedStep(es, AddClients(es, init), init, last);
    }
  }

  /** The step of `AddClientsAppends`: one more client. */
  lemma AppendedStep(es: seq<Entry>, before: seq<Entry>, init: seq<ClientInfo>, last: ClientInfo)
    requires AppendedFrom(es, before, init)
    ensures AppendedFrom(es, AddClient(before, last), init + [last])
  {
    var after := AddClient(before, last);
    var cs := init + [last];
    forall i | |es| <= i < |before|
      ensures ClientInfo(before[i].name, before[i].id) in cs
    {
      assert ClientInfo(before[i].name, before[i].id) in init;
    }
    if after != before {
      assert after == before + [Entry(last.name, last.id, true)];
      assert after[..|es|] == before[..|es|];
      forall j | 0 <= j < |before|
        ensures after[j].Content() != after[|before|].Content()
      {
        assert after[j] == before[j];
        assert before[j] in before;
      }
    }
  }

  /** After the addition pass, every client of the snapshot whose name is not
      blank has an entry with its caption. */
  lemma {:induction false} AddClientsShowsAll(es: seq<Entry>, cs: seq<ClientInfo>)
    ensures forall c | c in cs && !IsBlank(c.name) :: Shows(AddClients(es, cs), Display(c.name, c.id))
    decreases |cs|
  {
    if cs != [] {
      var init, last := cs[..|cs| - 1], cs[|cs| - 1];
      AddClientsShowsAll(es, init);
      assert cs == init + [last];
      ShowsAllStep(AddClients(es, init), init, last);
    }
  }

  /** The step of `AddClientsShowsAll`: what was shown for the earlier
      clients stays shown, and the new client is shown. */
  lemma ShowsAllStep(before: seq<Entry>, init: seq<ClientInfo>, last: ClientInfo)
    requires forall c | c in init && !IsBlank(c.name) :: Shows(before, Display(c.name, c.id))
    ensures forall c | c in init + [last] && !IsBlank(c.name) ::
      Shows(AddClient(before, last), Display(c.name, c.id))
  {
    forall c | c in init + [last] && !IsBlank(c.name)
      ensures Shows(AddClient(before, last), Display(c.name, c.id))
    {
      AddClientKeepsShown(before, last, c);
    }
  }

  /** After one addition step, its own client's caption is shown (unless
      the name is blank), and so is every caption shown before. */
  lemma AddClientKeepsShown(es: seq<Entry>, last: ClientInfo, c: ClientInfo)
    requires !IsBlank(c.name)
    requires c == last || Shows(es, Display(c.name, c.id))
    ensures Shows(AddClient(es, last), Display(c.name, c.id))
  {
    var after := AddClient(es, last);
    if c != last {
      ShowsExtended(es, after, Display(c.name, c.id));
    } else if !Shows(es, Display(c.name, c.id)) {
      assert after == es + [Entry(c.name, c.id, true)];
      assert after[|es|] in after;
    }
  }

  /** A caption shown by a list is still shown once entries are appended. */
  lemma ShowsExtended(before: seq<Entry>, after: seq<Entry>, caption: string)
    requires before <= after && Shows(before, caption)
    ensures Shows(after, caption)
  {
    var e :| e in before && e.Content() == caption;
    var k :| 0 <= k < |before| && before[k] == e;
    assert after[k] == e;
  }

  /** When every client is blank or already shown, the addition pass adds
      nothing. */
  lemma {:induction false} AddClientsNothingNew(es: seq<Entry>, cs: seq<ClientInfo>)
    requires forall c | c in cs :: IsBlank(c.name) || Shows(es, Display(c.name, c.id))
    ensures AddClients(es, cs) == es
    decreases |cs|
  {
    if cs != [] {
      var init := cs[..|cs| - 1];
      forall c | c in init
        ensures c in cs
      {
        var k :| 0 <= k < |init| && init[k] == c;
        assert cs[k] == c;
      }
      AddClientsNothingNew(es, init);
    }
  }

  /** Removal is complete: after a tick no entry is left whose caption parses
      to an id missing from the snapshot. */
  lemma TickRemovesStale(es: seq<Entry>, cs: seq<ClientInfo>)
    ensures forall e | e in Tick(es, cs) :: !Stale(e, IdSet(cs))
  {
    var ids := IdSet(cs);
    var kept := Survivors(es, ids);
    SurvivorsMembers(es, ids);
    var t := Tick(es, cs);
    AddClientsAppends(kept, cs);
    forall e | e in t
      ensures !Stale(e, ids)
    {
      var i :| 0 <= i < |t| && t[i] == e;
      if i < |kept| {
        assert e == kept[i] && kept[i] in kept;
      } else {
        assert ClientInfo(e.name, e.id) in cs;
        StaleIff(e, ids);
      }
    }
  }

  /** An entry whose caption does not parse to an id is never removed. */
  lemma TickKeepsUnparsed(es: seq<Entry>, cs: seq<ClientInfo>)
    ensures forall e | e in es && ParsedId(e.Content()).None? :: e in Tick(es, cs)
  {
    var kept := Survivors(es, IdSet(cs));
    SurvivorsMembers(es, IdSet(cs));
    var t := Tick(es, cs);
    AddClientsAppends(kept, cs);
    forall e | e in es && ParsedId(e.Content()).None?
      ensures e in t
    {
      assert e in kept;
      var i :| 0 <= i < |kept| && kept[i] == e;
      assert t[i] == e;
    }
  }

  /** A tick never touches a box it does not remove: an entry whose id the
      snapshot still lists, or whose caption does not parse, stays in the
      list with its checked flag as it was, whatever else the snapshot
      brings. */
  lemma SurvivorKept(es: seq<Entry>, cs: seq<ClientInfo>, e: Entry)
    requires e in es && (e.id in IdSet(cs) || Contains(e.name, Sep))
    ensures e in Tick(es, cs)
  {
    var kept := Survivors(es, IdSet(cs));
    SurvivorsMembers(es, IdSet(cs));
    StaleIff(e, IdSet(cs));
    AddClientsAppends(kept, cs);
    var t := Tick(es, cs);
    var i :| 0 <= i < |kept| && kept[i] == e;
    assert t[i] == t[..|kept|][i] == e;
  }

  /** A tick with a snapshot that lists every id of the list and shows every
      non-blank client already changes nothing. */
  lemma TickFixedPoint(es: seq<Entry>, cs: seq<ClientInfo>)
    requires forall e | e in es :: !Stale(e, IdSet(cs))
    requires forall c | c in cs :: IsBlank(c.name) || Shows(es, Display(c.name, c.id))
    ensures Tick(es, cs) == es
  {
    SurvivorsAllKept(es, IdSet(cs));
    AddClientsNothingNew(es, cs);
  }

  /** Selection survives refreshes: whatever the operator checks or unchecks
      after a tick, a second tick with the same snapshot leaves the list,
      flags included, as it is. */
  lemma SelectionPersists(es: seq<Entry>, cs: seq<ClientInfo>, toggled: seq<Entry>)
    requires |toggled| == |Tick(es, cs)|
    requires forall i | 0 <= i < |toggled| ::
      toggled[i].name == Tick(es, cs)[i].name && toggled[i].id == Tick(es, cs)[i].id
    ensures Tick(toggled, cs) == toggled
  {
    var t := Tick(es, cs);
    var ids := IdSet(cs);
    TickRemovesStale(es, cs);
    AddClientsShowsAll(Survivors(es, ids), cs);
    forall e | e in toggled
      ensures !Stale(e, ids)
    {
      var i :| 0 <= i < |toggled| && toggled[i] == e;
      assert t[i] in t && t[i].Content() == e.Content();
    }
    forall c | c in cs
      ensures IsBlank(c.name) || Shows(toggled, Display(c.name, c.id))
    {
      if !IsBlank(c.name) {
        var e :| e in t && e.Content() == Display(c.name, c.id);
        var i :| 0 <= i < |t| && t[i] == e;
        assert toggled[i] in toggled && toggled[i].Content() == e.Content();
      }
    }
    TickFixedPoint(toggled, cs);
  }

  /** A tick is idempotent: running it twice with the same snapshot gives the
      list (and so `ActiveClients`) of running it once. */
  lemma TickIdempotent(es: seq<Entry>, cs: seq<ClientInfo>)
    ensures Tick(Tick(es, cs), cs) == Tick(es, cs)
  {
    SelectionPersists(es, cs, Tick(es, cs));
  }

  /** The list stays free of duplicate captions and of blank names. */
  lemma TickKeepsListClean(es: seq<Entry>, cs: seq<ClientInfo>)
    requires NoDuplicates(es) && NoBlankNames(es)
    ensures NoDuplicates(Tick(es, cs)) && NoBlankNames(Tick(es, cs))
  {
    var kept := Survivors(es, IdSet(cs));
    SurvivorsMembers(es, IdSet(cs));
    var t := Tick(es, cs);
    WithoutNoDuplicates(es, StaleFor(IdSet(cs)));
    AddClientsAppends(kept, cs);
    forall i, j | 0 <= i < j < |t|
      ensures t[i].Content() != t[j].Content()
    {
      if j < |kept| {
        assert t[i] == kept[i] && t[j] == kept[j];
      }
    }
    forall e | e in t
      ensures !IsBlank(e.name)
    {
      var i :| 0 <= i < |t| && t[i] == e;
      if i < |kept| {
        assert kept[i] in kept;
      }
    }
  }

  /** `a` is what entry `e` reports: `e` is checked, its name lacks the
      separator, and `a` is its trimmed name and its id. */
  predicate ReportedBy(a: ClientInfo, e: Entry)
  {
    e.checked && !Contains(e.name, Sep) && a == ClientInfo(Trim(e.name), e.id)
  }

  /** Every client `ActiveClients` reports comes from a checked entry whose
      name lacks the separator: its trimmed name and its id. */
  lemma {:induction false} ReportedFrom(es: seq<Entry>)
    ensures forall a | a in Reported(es) :: exists e | e in es :: ReportedBy(a, e)
    decreases |es|
  {
    if es != [] {
      var init := es[..|es| - 1];
      ReportedFrom(init);
      ReportedFromStep(init, es[|es| - 1]);
      assert init + [es[|es| - 1]] == es;
    }
  }

  /** The step of `ReportedFrom`: one more entry at the end. */
  lemma ReportedFromStep(init: seq<Entry>, last: Entry)
    requires forall a | a in Reported(init) :: exists e | e in init :: ReportedBy(a, e)
    ensures forall a | a in Reported(init + [last]) :: exists e | e in init + [last] :: ReportedBy(a, e)
  {
    var es := init + [last];
    assert es[..|es| - 1] == init;
    forall a | a in Reported(es)
      ensures exists e | e in es :: ReportedBy(a, e)
    {
      if a in Reported(init) {
        var e :| e in init && ReportedBy(a, e);
        assert e in es;
      } else {
        assert ReportedBy(a, last) && last in es;
      }
    }
  }

  /** After a tick, `ActiveClients` names only processes the snapshot lists. */
  lemma ActiveAfterTickIsLive(es: seq<Entry>, cs: seq<ClientInfo>)
    ensures forall a | a in Active(Tick(es, cs)) :: a.id in IdSet(cs)
  {
    var t := Tick(es, cs);
    ActiveIsReported(t);
    ReportedFrom(t);
    TickRemovesStale(es, cs);
    forall a | a in Active(t)
      ensures a.id in IdSet(cs)
    {
      var e :| e in t && ReportedBy(a, e);
      StaleIff(e, IdSet(cs));
    }
  }
}
