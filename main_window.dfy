/**
 * The main window: the save-on-change decision of the periodic save and the
 * validate-then-execute gate of the Execute button. The editor text, the
 * validator's status and the files are outside the model: the text and the
 * status arrive as parameters, the writes to `editor.lua` and the calls into
 * the native library are recorded in logs.
 */
module Editor {
  import opened Wrappers
  import opened ClientList
  import opened Clients

  /** A call into the native library, in the order made. */
  datatype NativeCall =
    | Compilable(script: string, status: string)
    | Execute(request: ExecCall)

  // ---------------------------------------------------------------------
  // Save on change
  // ---------------------------------------------------------------------

  /** The texts written to `editor.lua` by a run of save ticks that see the
      editor text `contents`, one per tick, starting from `lastcontent`
      (`None` is the null it holds before the first tick). */
  function Writes(last: Option<string>, contents: seq<string>): seq<string>
    decreases |contents|
  {
    if contents == [] then []
    else
      (if last != Some(contents[0]) then [contents[0]] else [])
      + Writes(Some(contents[0]), contents[1..])
  }

  /** `lastcontent` after a run of save ticks. */
  function LastSeen(last: Option<string>, contents: seq<string>): Option<string>
  {
    if contents == [] then last else Some(contents[|contents| - 1])
  }

  /** Each write differs from the one before it, and the first differs from
      what was last seen. */
  predicate NoRepeatedWrite(last: Option<string>, writes: seq<string>)
  {
    (writes != [] ==> last != Some(writes[0]))
    && forall i | 0 < i < |writes| :: writes[i - 1] != writes[i]
  }

  /** What a log of saves looks like from the outside: `lastcontent` is null
      only before anything was written, and otherwise equals the last write;
      no write repeats the one before it. */
  predicate SaveHistory(lastcontent: Option<string>, written: seq<string>)
  {
    (lastcontent.None? <==> written == [])
    && (written != [] ==> lastcontent == Some(written[|written| - 1]))
    && NoRepeatedWrite(None, written)
  }

  /** A run of ticks writes on every change and only then: no write
      repeats the text before it, there are no more writes than ticks, and
      `lastcontent` ends as the last text written, or as it was when nothing
      was written. */
  lemma {:induction false} WritesOnChange(last: Option<string>, contents: seq<string>)
    ensures NoRepeatedWrite(last, Writes(last, contents))
    ensures |Writes(last, contents)| <= |contents|
    ensures LastSeen(last, contents) ==
      if Writes(last, contents) == [] then last
      else Some(Writes(last, contents)[|Writes(last, contents)| - 1])
    decreases |contents|
  {
    if contents != [] {
      var c, rest := contents[0], contents[1..];
      WritesOnChange(Some(c), rest);
      assert Writes(last, contents) == (if last != Some(c) then [c] else []) + Writes(Some(c), rest);
      NoRepeatPrepend(last, c, Writes(Some(c), rest));
      assert contents == [c] + rest;
      LastWritePrepend(last, c, rest, Writes(Some(c), rest));
    }
  }

  /** The step of `WritesOnChange` for `lastcontent`. */
  lemma LastWritePrepend(last: Option<string>, c: string, rest: seq<string>, w: seq<string>)
    requires LastSeen(Some(c), rest) == if w == [] then Some(c) else Some(w[|w| - 1])
    ensures var all := (if last != Some(c) then [c] else []) + w;
      LastSeen(last, [c] + rest) == if all == [] then last else Some(all[|all| - 1])
  {
    var all := (if last != Some(c) then [c] else []) + w;
    if rest != [] {
      assert ([c] + rest)[|rest|] == rest[|rest| - 1];
    }
    if w != [] {
      assert all[|all| - 1] == w[|w| - 1];
    }
  }

  /** The step of `WritesOnChange`: a tick that writes only on a change
      keeps the writes free of repeats. */
  lemma NoRepeatPrepend(last: Option<string>, c: string, rest: seq<string>)
    requires NoRepeatedWrite(Some(c), rest)
    ensures NoRepeatedWrite(last, (if last != Some(c) then [c] else []) + rest)
  {
    if last != Some(c) {
      var w := [c] + rest;
      forall i | 0 < i < |w|
        ensures w[i - 1] != w[i]
      {
        if i > 1 {
          assert w[i - 1] == rest[i - 2] && w[i] == rest[i - 1];
        }
      }
    } else {
      assert [] + rest == rest;
    }
  }

  /** Ticks that keep seeing the same text write it at most once, and not
      at all when it is already the last text seen. */
  lemma {:induction false} SameTextWrittenOnce(last: Option<string>, contents: seq<string>, text: string)
    requires forall i | 0 <= i < |contents| :: contents[i] == text
    ensures Writes(last, contents) == (if contents != [] && last != Some(text) then [text] else [])
    decreases |contents|
  {
    if contents != [] {
      SameTextWrittenOnce(Some(text), contents[1..], text);
    }
  }

  /** Running the ticks in two stretches writes what running them in one
      does. */
  lemma {:induction false} WritesConcat(last: Option<string>, a: seq<string>, b: seq<string>)
    ensures Writes(last, a + b) == Writes(last, a) + Writes(LastSeen(last, a), b)
    decreases |a|
  {
    if a == [] {
      assert a + b == b;
    } else {
      var c, rest := a[0], a[1..];
      var head := if last != Some(c) then [c] else [];
      var w1, w2 := Writes(Some(c), rest), Writes(LastSeen(Some(c), rest), b);
      calc {
        Writes(last, a + b);
      == { assert (a + b)[0] == c && (a + b)[1..] == rest + b; }
        head + Writes(Some(c), rest + b);
      == { WritesConcat(Some(c), rest, b); }
        head + (w1 + w2);
      ==
        (head + w1) + w2;
      }
      assert Writes(last, a) == head + w1;
      assert LastSeen(last, a) == LastSeen(Some(c), rest) by {
        if rest != [] {
          assert rest[|rest| - 1] == a[|a| - 1];
        }
      }
    }
  }

  class MainWindow {
    /** The clients window whose `ActiveClients` the executor targets. */
    const clientsWindow: ClientsWindow
    /** `lastcontent`: the editor text seen by the last save tick. */
    var lastcontent: Option<string>
    /** The texts the save ticks wrote to `editor.lua`, in order. */
    var written: seq<string>
    /** The calls the Execute button made into the native library. */
    var calls: seq<NativeCall>

    ghost predicate Valid()
      reads this
    {
      SaveHistory(lastcontent, written) && GateRespected(calls)
    }

    constructor ()
      ensures Valid() && fresh(clientsWindow)
      ensures lastcontent == None && written == [] && calls == []
      ensures clientsWindow.children == [] && clientsWindow.activeClients == []
    {
      clientsWindow := new ClientsWindow();
      lastcontent := None;
      written := [];
      calls := [];
    }

    /** One tick of the save timer with the editor text `content`: writes
        it when it differs from `lastcontent`, and remembers it. */
    method SaveChanges(content: string)
      requires Valid()
      modifies this`lastcontent, this`written
      ensures Valid()
      ensures lastcontent == Some(content)
      ensures written == old(written) + Writes(old(lastcontent), [content])
      ensures old(lastcontent) != Some(content) <==> written == old(written) + [content]
      ensures old(lastcontent) == Some(content) <==> written == old(written)
    {
      if lastcontent != Some(content) {
        written := written + [content];
      }
      lastcontent := Some(content);
      assert [content][1..] == [];
    }

    /** The Execute button with the editor text `script` and the status the
        validator returns for it: the executor is called, once, with that
        same text, only when the status is exactly "success"; otherwise the
        status is shown and nothing runs. */
    method ExecuteClick(script: string, compileStatus: string) returns (alert: Option<string>)
      requires Valid()
      modifies this`calls
      ensures Valid()
      ensures compileStatus != "success" ==>
        alert == Some(compileStatus) && calls == old(calls) + [Compilable(script, compileStatus)]
      ensures compileStatus == "success" ==>
        alert == None
        && calls == old(calls) + [Compilable(script, compileStatus),
             Execute(ExecCall(script, Names(clientsWindow.activeClients), |clientsWindow.activeClients|))]
    {
      calls := calls + [Compilable(script, compileStatus)];
      if compileStatus != "success" {
        alert := Some(compileStatus);
        return;
      }
      var request := clientsWindow.ExecuteScript(script);
      calls := calls + [Execute(request)];
      alert := None;
    }
  }

  /** Every call of the executor comes straight after a validation of the
      same script that returned "success". */
  predicate GateRespected(calls: seq<NativeCall>)
    decreases |calls|
  {
    if calls == [] then true
    else
      var last := calls[|calls| - 1];
      (last.Execute? ==>
         |calls| >= 2 && calls[|calls| - 2] == Compilable(last.request.script, "success"))
      && GateRespected(calls[..|calls| - 1])
  }

  /** Read position by position: any executor call in a log that respects
      the gate is immediately preceded by a successful validation of the
      script it runs. */
  lemma {:induction false} ExecuteFollowsSuccess(calls: seq<NativeCall>, i: nat)
    requires GateRespected(calls)
    requires i < |calls| && calls[i].Execute?
    ensures i >= 1 && calls[i - 1] == Compilable(calls[i].request.script, "success")
    decreases |calls|
  {
    if i < |calls| - 1 {
      var init := calls[..|calls| - 1];
      ExecuteFollowsSuccess(init, i);
    }
  }
}
