/**
 * The clients window: the list of check boxes it refreshes on every timer
 * tick, the `ActiveClients` list it rebuilds from the checked ones, and the
 * request it hands to the native executor.
 */
module Clients {
  import opened Wrappers
  import opened NetText
  import opened ClientList

  /** One call of the native `Execute(scriptBytes, clientUsers, numUsers)`. */
  datatype ExecCall = ExecCall(script: string, clientUsers: seq<string>, numUsers: int)

  /** The names of a list of clients, in order. */
  function Names(clients: seq<ClientInfo>): seq<string>
  {
    seq(|clients|, i requires 0 <= i < |clients| => clients[i].name)
  }

  class ClientsWindow {
    /** `checkBoxContainer.Children`, in display order. */
    var children: seq<Entry>
    /** `ActiveClients`, as rebuilt by the last tick. */
    var activeClients: seq<ClientInfo>

    /** Every tick keeps the list free of duplicate captions and of blank
        names. */
    ghost predicate Valid()
      reads this
    {
      NoDuplicates(children) && NoBlankNames(children)
    }

    constructor ()
      ensures Valid() && children == [] && activeClients == []
    {
      children := [];
      activeClients := [];
    }

    /** Reads the native client array up to, not including, the first record
        whose name pointer is null. */
    method GetClientInfoFromDll(mem: array<RawClient>) returns (clients: seq<ClientInfo>)
      requires Terminated(mem[..])
      ensures |clients| < mem.Length && mem[|clients|].name.None?
      ensures forall i | 0 <= i < |clients| :: mem[i] == RawClient(Some(clients[i].name), clients[i].id)
      ensures clients == BeforeSentinel(mem[..])
    {
      ghost var k :| 0 <= k < mem.Length && mem[k].name.None?;
      clients := [];
      var current := 0;
      while true
        invariant 0 <= current <= k
        invariant |clients| == current
        invariant forall i | 0 <= i < current :: mem[i] == RawClient(Some(clients[i].name), clients[i].id)
        decreases k - current
      {
        var client := mem[current];
        if client.name.None? {
          break;
        }
        clients := clients + [ClientInfo(client.name.value, client.id)];
        current := current + 1;
      }
      BeforeSentinelUnique(mem[..], clients);
    }

    /** Appends a new check box, checked. */
    method AddCheckBox(name: string, id: int32)
      modifies this
      ensures children == old(children) + [Entry(name, id, true)]
      ensures activeClients == old(activeClients)
    {
      children := children + [Entry(name, id, true)];
    }

    /** One timer tick: reads the snapshot, removes the entries whose id has
        gone, appends the new clients and rebuilds `ActiveClients`. */
    method TimerTick(mem: array<RawClient>)
      requires Valid()
      requires Terminated(mem[..])
      modifies this
      ensures Valid()
      ensures children == Tick(old(children), BeforeSentinel(mem[..]))
      ensures activeClients == Active(children)
    {
      var newClients := GetClientInfoFromDll(mem);
      var newClientIds := set c | c in newClients :: c.id;
      assert newClientIds == IdSet(newClients);
      TickKeepsListClean(children, newClients);
      RemoveInvalidClients(newClientIds);
      AddNewClients(newClients);
      UpdateActiveClients();
    }

    /** The removal part of a tick: collects the entries whose caption parses
        to an id the snapshot no longer lists, then removes them. */
    method RemoveInvalidClients(newClientIds: set<int32>)
      modifies this
      ensures children == Survivors(old(children), newClientIds)
      ensures activeClients == old(activeClients)
    {
      var toRemove := MarkedForRemoval(StaleFor(newClientIds));
      RemoveMarked(toRemove, StaleFor(newClientIds));
    }

    /** The first loop of the removal part: the positions of the entries
        `drop` selects, with the list left as it is. */
    method MarkedForRemoval(drop: Entry -> bool) returns (toRemove: set<nat>)
      ensures forall m: nat :: m in toRemove <==> m < |children| && drop(children[m])
    {
      toRemove := {};
      var i := 0;
      while i < |children|
        invariant 0 <= i <= |children|
        invariant forall m: nat :: m in toRemove <==> m < i && drop(children[m])
      {
        if drop(children[i]) {
          toRemove := toRemove + {i};
        }
        i := i + 1;
      }
    }

    /** The second loop of the removal part: takes out the marked entries
        and keeps the others in order. */
    method RemoveMarked(toRemove: set<nat>, drop: Entry -> bool)
      requires forall m: nat | m < |children| :: m in toRemove <==> drop(children[m])
      modifies this
      ensures children == Without(old(children), drop)
      ensures activeClients == old(activeClients)
    {
      var kept: seq<Entry> := [];
      var i := 0;
      while i < |children|
        invariant 0 <= i <= |children|
        invariant kept == Without(children[..i], drop)
        invariant children == old(children) && activeClients == old(activeClients)
      {
        WithoutSnoc(children[..i], children[i], drop);
        assert children[..i + 1] == children[..i] + [children[i]];
        if i !in toRemove {
          kept := kept + [children[i]];
        }
        i := i + 1;
      }
      assert children[..i] == children;
      children := kept;
    }

    /** The addition part of a tick: each client of the snapshot in turn,
        against the list as it stands after the clients before it. */
    method AddNewClients(newClients: seq<ClientInfo>)
      modifies this
      ensures children == AddClients(old(children), newClients)
      ensures activeClients == old(activeClients)
    {
      var n := 0;
      while n < |newClients|
        invariant 0 <= n <= |newClients|
        invariant children == AddClients(old(children), newClients[..n])
        invariant activeClients == old(activeClients)
      {
        AddNewClient(newClients[n]);
        AddClientsPrefixStep(old(children), newClients, n);
        n := n + 1;
      }
      assert newClients[..n] == newClients;
    }

    /** One client of the addition part: scans the current list for its
        caption and appends it, checked, when absent and its name is not
        blank. */
    method AddNewClient(client: ClientInfo)
      modifies this
      ensures children == AddClient(old(children), client)
      ensures activeClients == old(activeClients)
    {
      var found := HasCaption(Display(client.name, client.id));
      if !found && client.name != "" && client.name != " " {
        AddCheckBox(client.name, client.id);
      }
    }

    /** The scan of the addition part: whether some check box already has
        this caption. */
    method HasCaption(caption: string) returns (found: bool)
      ensures found <==> Shows(children, caption)
    {
      found := false;
      var j := 0;
      while j < |children|
        invariant 0 <= j <= |children|
        invariant forall m | 0 <= m < j :: children[m].Content() != caption
      {
        if children[j].Content() == caption {
          return true;
        }
        j := j + 1;
      }
    }

    /** The last part of a tick: `ActiveClients` is cleared and refilled from
        the checked entries whose caption parses. */
    method UpdateActiveClients()
      modifies this`activeClients
      ensures activeClients == Active(children)
    {
      activeClients := [];
      var i := 0;
      while i < |children|
        invariant 0 <= i <= |children|
        invariant activeClients == Active(children[..i])
      {
        activeClients := activeClients + Report(children[i]);
        assert children[..i + 1][..i] == children[..i];
        i := i + 1;
      }
      assert children[..i] == children;
    }

    /** `execute_script`: the request handed to the native executor, the
        script and the names of `ActiveClients` in order. */
    method ExecuteScript(script: string) returns (call: ExecCall)
      ensures call.script == script
      ensures |call.clientUsers| == |activeClients| && call.numUsers == |call.clientUsers|
      ensures call.clientUsers == Names(activeClients)
    {
      var clientUsers := new string[|activeClients|];
      for i := 0 to |activeClients|
        invariant forall j | 0 <= j < i :: clientUsers[j] == activeClients[j].name
      {
        clientUsers[i] := activeClients[i].name;
      }
      call := ExecCall(script, clientUsers[..], clientUsers.Length);
    }
  }
}
